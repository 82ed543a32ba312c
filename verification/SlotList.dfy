/**
  * The schedule list of schedule_mngt.c as the program keeps it: a singly linked list of nodes
  * updated in place.  Every method is tied to the operation of SlotSpec on the value of the list.
  */
module SlotList {

  import opened SlotSpec

  class SchNode {
    var addr: nat
    var cls: nat
    var startLSI: nat
    var slotDemand: nat
    var nboSchDist: nat
    var next: SchNode?

    constructor (e: Entry)
      ensures Value() == e && next == null
    {
      addr, cls, startLSI, slotDemand, nboSchDist := e.addr, e.cls, e.start, e.demand, e.dist;
      next := null;
    }

    ghost function Value(): Entry
      reads this
    {
      Entry(addr, cls, startLSI, slotDemand, nboSchDist)
    }
  }

  class SchList {
    var head: SchNode?
    var nboNode: int
    var nboTotSlots: nat
    var nboAsgSlots: int
    var nboRmnSlots: int
    var nboDistReq: int

    /** The nodes of the list from the head, their values, and all nodes the list ever owned. */
    ghost var spine: seq<SchNode>
    ghost var entries: seq<Entry>
    ghost var Repr: set<SchNode>

    ghost predicate Valid()
      reads `head, `spine, `entries, `Repr, Repr
    {
      && (forall i | 0 <= i < |spine| :: spine[i] in Repr)
      && (head == if spine == [] then null else spine[0])
      && Distinct(spine) && Linked(spine) && Holds(spine, entries)
    }

    static ghost predicate Linked(spine: seq<SchNode>)
      reads spine
    {
      forall i {:trigger spine[i].next} | 0 <= i < |spine| ::
        spine[i].next == if i + 1 < |spine| then spine[i + 1] else null
    }

    static ghost predicate Holds(spine: seq<SchNode>, entries: seq<Entry>)
      reads spine
    {
      |entries| == |spine| && forall i | 0 <= i < |spine| :: spine[i].Value() == entries[i]
    }

    static ghost predicate Distinct(s: seq<SchNode>) {
      forall i, j | 0 <= i < j < |s| :: s[i] != s[j]
    }

    static lemma {:induction false} InsertKeepsDistinct(s: seq<SchNode>, x: SchNode, k: nat)
      requires Distinct(s) && x !in s && k <= |s|
      ensures Distinct(s[..k] + [x] + s[k..])
    {
      var r := s[..k] + [x] + s[k..];
      assert forall i | 0 <= i < |r| :: r[i] == if i < k then s[i] else if i == k then x else s[i - 1];
    }

    static lemma {:induction false} OnlyAt(s: seq<SchNode>, k: int)
      requires Distinct(s)
      ensures forall i | 0 <= i < |s| && 0 <= k < |s| && i != k :: s[i] != s[k]
    {
    }

    /** The links around a node that was put in front of position k. */
    static lemma {:induction false} Inserted(s: seq<SchNode>, es: seq<Entry>, x: SchNode, k: nat)
      requires k <= |s| && Distinct(s) && x !in s && Holds(s, es)
      requires x.next == if k < |s| then s[k] else null
      requires forall i {:trigger s[i].next} | 0 <= i < |s| ::
                 s[i].next == if i == k - 1 then x else if i + 1 < |s| then s[i + 1] else null
      ensures var r := s[..k] + [x] + s[k..];
              Distinct(r) && Linked(r) && Holds(r, es[..k] + [x.Value()] + es[k..])
    {
      InsertKeepsDistinct(s, x, k);
      var r := s[..k] + [x] + s[k..];
      assert forall i {:trigger r[i]} | 0 <= i < |r| :: r[i] == if i < k then s[i] else if i == k then x else s[i - 1];
    }

    /** The links after the node at position k was taken out. */
    static lemma {:induction false} Removed(s: seq<SchNode>, es: seq<Entry>, k: nat)
      requires k < |s| && Distinct(s) && Holds(s, es)
      requires forall i {:trigger s[i].next} | 0 <= i < |s| && i != k ::
                 s[i].next == var j := if i == k - 1 then k + 1 else i + 1; if j < |s| then s[j] else null
      ensures var r := RemoveAt(s, k);
              && Distinct(r) && Linked(r) && Holds(r, RemoveAt(es, k))
              && forall i {:trigger r[i]} | 0 <= i < |r| :: r[i] in s
    {
      var r := RemoveAt(s, k);
      assert forall i {:trigger r[i]} | 0 <= i < |r| :: r[i] == if i < k then s[i] else s[i + 1];
    }

    ghost function AsGroup(): Group
      reads this
    {
      Group(entries, nboTotSlots, nboNode, nboAsgSlots, nboRmnSlots, nboDistReq)
    }

    /** The nodes in front of position k and at position k. */
    ghost predicate Cursor(prev: SchNode?, cur: SchNode?, k: nat)
      reads this
    {
      && k <= |spine|
      && (cur == if k == |spine| then null else spine[k])
      && (prev == if k == 0 then null else spine[k - 1])
    }

    lemma {:induction false} At(i: nat)
      requires Valid() && i < |spine|
      ensures |spine| == |entries| && spine[i].Value() == entries[i] && spine[i] in Repr
      ensures spine[i].next == if i + 1 < |spine| then spine[i + 1] else null
    {
    }

    lemma {:induction false} AtHead()
      requires Valid()
      ensures |spine| == |entries| && head == if spine == [] then null else spine[0]
    {
    }

    /** smInitSchedule */
    constructor (tot: nat)
      ensures Valid() && Repr == {}
      ensures AsGroup() == Init(tot)
    {
      head := null;
      nboNode, nboTotSlots, nboRmnSlots, nboAsgSlots, nboDistReq := 0, tot, 0, 0, 0;
      spine, entries, Repr := [], [], {};
    }

    /** smAssignLsiToNode: a start slot for a node with this demand, 0 when there is none. */
    method AssignLsiToNode(demandSlot: nat) returns (asgLsi: nat)
      requires Valid()
      ensures asgLsi == Assign(entries, nboTotSlots, demandSlot)
    {
      var cur := head;
      if cur == null {
        return 1;
      }
      if cur.startLSI > demandSlot {
        return 1;
      }
      asgLsi := 0;
      ghost var i := 0;
      while cur != null
        invariant i < |spine| && cur == spine[i] && asgLsi == 0
        invariant Scan(entries[i..], nboTotSlots, demandSlot) == Assign(entries, nboTotSlots, demandSlot)
        decreases |spine| - i
      {
        assert entries[i..][1..] == entries[i + 1..];
        var lastLsi := (cur.startLSI + cur.slotDemand - 1) % U16;
        if cur.next == null {
          if (nboTotSlots - lastLsi) % U32 >= demandSlot {
            asgLsi := (lastLsi + 1) % U16;
          }
          break;
        } else {
          if cur.next.startLSI - lastLsi > demandSlot {
            asgLsi := (lastLsi + 1) % U16;
            break;
          }
        }
        cur := cur.next;
        i := i + 1;
      }
    }

    /** The search loop of smAddNodeToScheduleList: the first node that starts behind `start`. */
    method LocateStart(start: nat) returns (prev: SchNode?, cur: SchNode?, ghost k: nat)
      requires Valid()
      ensures Cursor(prev, cur, k)
      ensures forall i | 0 <= i < k :: entries[i].start <= start
      ensures k < |entries| ==> entries[k].start > start
    {
      prev, cur, k := null, head, 0;
      while cur != null && cur.startLSI <= start
        invariant Cursor(prev, cur, k)
        invariant forall i | 0 <= i < k :: entries[i].start <= start
        decreases |spine| - k
      {
        prev := cur;
        cur := cur.next;
        k := k + 1;
      }
    }

    /** The search loop shared by smRemoveOneNode and smNodeSetNboSchDist. */
    method LocateAddr(a: nat) returns (prev: SchNode?, cur: SchNode?, ghost k: nat)
      requires Valid()
      ensures k == Find(entries, a) && Cursor(prev, cur, k)
    {
      prev, cur, k := null, head, 0;
      while cur != null && cur.addr != a
        invariant Cursor(prev, cur, k)
        invariant k <= Find(entries, a)
        decreases |spine| - k
      {
        prev := cur;
        cur := cur.next;
        k := k + 1;
      }
    }

    /** Puts a node in front of position k of the chain s with the values es. */
    static method Attach(ghost s: seq<SchNode>, ghost es: seq<Entry>, ghost k: nat, prev: SchNode?, cur: SchNode?, node: SchNode)
      requires Distinct(s) && Linked(s) && Holds(s, es) && node !in s && k <= |s|
      requires cur == (if k == |s| then null else s[k]) && prev == (if k == 0 then null else s[k - 1])
      modifies prev, node
      ensures node.Value() == old(node.Value())
      ensures var r := s[..k] + [node] + s[k..];
              Distinct(r) && Linked(r) && Holds(r, es[..k] + [node.Value()] + es[k..])
    {
      hide Distinct;
      OnlyAt(s, k - 1);
      node.next := cur;
      if prev != null {
        prev.next := node;
      }
      Inserted(s, es, node, k);
    }

    lemma {:induction false} Chain()
      requires Valid()
      ensures head == (if spine == [] then null else spine[0]) && |spine| == |entries|
      ensures Distinct(spine) && Linked(spine) && Holds(spine, entries)
      ensures forall i | 0 <= i < |spine| :: spine[i] in Repr
    {
    }

    /** Links a fresh node in front of cur, the node at position k. */
    method Link(prev: SchNode?, cur: SchNode?, node: SchNode, ghost k: nat)
      requires Valid() && node !in Repr && Cursor(prev, cur, k)
      modifies `head, `spine, `entries, `Repr, prev, node
      ensures Valid() && Repr == old(Repr) + {node}
      ensures entries == old(entries[..k] + [node.Value()] + entries[k..]) && node.Value() == old(node.Value())
    {
      hide Distinct, Linked, Holds;
      Chain();
      ghost var s, es := spine, entries;
      spine, entries, Repr := s[..k] + [node] + s[k..], es[..k] + [node.Value()] + es[k..], Repr + {node};
      if prev == null {
        head := node;
      }
      Attach(s, es, k, prev, cur, node);
    }

    /** Takes the node at position k out of the chain s with the values es. */
    static method Detach(ghost s: seq<SchNode>, ghost es: seq<Entry>, ghost k: nat, prev: SchNode?, cur: SchNode)
      requires Distinct(s) && Linked(s) && Holds(s, es) && k < |s| && cur == s[k]
      requires prev == if k == 0 then null else s[k - 1]
      modifies prev, cur
      ensures cur.Value() == old(cur.Value())
      ensures var r := RemoveAt(s, k);
              && Distinct(r) && Linked(r) && Holds(r, RemoveAt(es, k))
              && forall i {:trigger r[i]} | 0 <= i < |r| :: r[i] in s
    {
      hide Distinct;
      OnlyAt(s, k - 1);
      OnlyAt(s, k);
      if prev != null {
        prev.next := cur.next;
        cur.next := null;
      }
      Removed(s, es, k);
    }

    /** Takes cur, the node at position k, out of the list. */
    method Unlink(prev: SchNode?, cur: SchNode, ghost k: nat)
      requires Valid() && k < |spine| && Cursor(prev, cur, k)
      modifies `head, `spine, `entries, prev, cur
      ensures Valid()
      ensures entries == old(RemoveAt(entries, k)) && cur.Value() == old(cur.Value())
    {
      At(k);
      hide Distinct, Linked, Holds;
      Chain();
      ghost var s, es := spine, entries;
      spine, entries := RemoveAt(s, k), RemoveAt(es, k);
      if prev == null {
        head := cur.next;
      }
      Detach(s, es, k, prev, cur);
    }

    /** The counters after an insertion. */
    method CountAdded(demand: nat)
      requires Valid()
      modifies `nboNode, `nboAsgSlots, `nboRmnSlots, `nboDistReq
      ensures Valid()
      ensures nboNode == old(nboNode) + 1 && nboAsgSlots == old(nboAsgSlots) + demand
      ensures nboRmnSlots == (old(nboRmnSlots) - demand) % U32 && nboDistReq == old(nboDistReq) + 1
    {
      nboNode, nboAsgSlots := nboNode + 1, nboAsgSlots + demand;
      nboRmnSlots, nboDistReq := (nboRmnSlots - demand) % U32, nboDistReq + 1;
    }

    /** The counters after a removal. */
    method CountRemoved(demand: nat, pending: bool)
      requires Valid()
      modifies `nboNode, `nboAsgSlots, `nboRmnSlots, `nboDistReq
      ensures Valid()
      ensures nboNode == old(nboNode) - 1 && nboAsgSlots == old(nboAsgSlots) - demand
      ensures nboRmnSlots == (old(nboRmnSlots) + demand) % U32
      ensures nboDistReq == old(nboDistReq) - (if pending then 1 else 0)
    {
      nboNode, nboAsgSlots := nboNode - 1, nboAsgSlots - demand;
      nboRmnSlots := (nboRmnSlots + demand) % U32;
      if pending {
        nboDistReq := nboDistReq - 1;
      }
    }

    /** The number of nodes to announce after a countdown changes. */
    method CountChanged(before: nat, d: nat)
      requires Valid()
      modifies `nboDistReq
      ensures Valid()
      ensures nboDistReq == old(nboDistReq) + (if d > 0 then 1 else 0) - (if before > 0 then 1 else 0)
    {
      if before > 0 && d == 0 {
        nboDistReq := nboDistReq - 1;
      }
      if before == 0 && d > 0 {
        nboDistReq := nboDistReq + 1;
      }
    }

    /** smAddNodeToScheduleList: insertion in the order of ascending start slots. */
    method AddNodeToScheduleList(e: Entry) returns (node: SchNode)
      requires Valid()
      modifies this, Repr
      ensures Valid() && fresh(Repr - old(Repr))
      ensures AsGroup() == Add(old(AsGroup()), e)
    {
      hide Valid, InsertByStart;
      AtHead();
      node := new SchNode(e);
      var prev, cur, k := LocateStart(node.startLSI);
      InsertPosition(entries, e, k);
      if k > 0 { At(k - 1); }
      Link(prev, cur, node, k);
      CountAdded(node.slotDemand);
    }

    /** smScheduleOneNode */
    method ScheduleOneNode(e: Entry) returns (ok: bool)
      requires Valid()
      modifies this, Repr
      ensures Valid() && fresh(Repr - old(Repr))
      ensures AsGroup() == ScheduleOne(old(AsGroup()), e).0
      ensures ok == ScheduleOne(old(AsGroup()), e).1
    {
      var s := AssignLsiToNode(e.demand);
      if s == 0 {
        return false;
      }
      var n := AddNodeToScheduleList(e.(start := s));
      return true;
    }

    /** smRemoveOneNode */
    method RemoveOneNode(a: nat)
      requires Valid()
      modifies this, Repr
      ensures Valid() && Repr == old(Repr)
      ensures AsGroup() == Remove(old(AsGroup()), a)
    {
      hide Valid, Find, RemoveAt;
      AtHead();
      var prev, cur, k := LocateAddr(a);
      if cur != null {
        At(k);
        if k > 0 { At(k - 1); }
        Unlink(prev, cur, k);
        CountRemoved(cur.slotDemand, cur.nboSchDist > 0);
      }
    }

    /** smClearSchedule */
    method ClearSchedule()
      requires Valid()
      modifies this
      ensures Valid() && Repr == old(Repr)
      ensures AsGroup() == Clear(old(AsGroup()))
    {
      while head != null
        invariant Valid() && Repr == old(Repr) && nboTotSlots == old(nboTotSlots)
        decreases |spine|
      {
        head := head.next;
        spine, entries := spine[1..], entries[1..];
      }
      nboNode, nboAsgSlots, nboRmnSlots, nboDistReq := 0, 0, 0, 0;
    }

    /** Writes the countdown of cur, the node at position k. */
    method SetCountdown(cur: SchNode, ghost k: nat, d: nat)
      requires Valid() && k < |spine| && cur == spine[k]
      modifies `entries, cur`nboSchDist
      ensures Valid()
      ensures entries == old(entries[k := entries[k].(dist := d)])
    {
      cur.nboSchDist := d;
      entries := entries[k := entries[k].(dist := d)];
    }

    /** smNodeSetNboSchDist */
    method NodeSetNboSchDist(a: nat, d: nat)
      requires Valid()
      modifies this, Repr
      ensures Valid() && Repr == old(Repr) && spine == old(spine)
      ensures AsGroup() == SetDist(old(AsGroup()), a, d)
    {
      hide Valid, Find;
      AtHead();
      var _, cur, k := LocateAddr(a);
      if cur != null {
        At(k);
        CountChanged(cur.nboSchDist, d);
        SetCountdown(cur, k, d);
      }
    }

    /** smGetLastAsgLsi */
    method GetLastAsgLsi() returns (lsi: nat)
      requires Valid()
      ensures lsi == LastAssigned(entries)
    {
      var cur := head;
      if cur == null {
        return 0;
      }
      ghost var k := 0;
      while cur.next != null
        invariant k < |spine| && cur == spine[k]
        decreases |spine| - k
      {
        cur := cur.next;
        k := k + 1;
      }
      return (cur.startLSI + cur.slotDemand - 1) % U16;
    }
  }
}
