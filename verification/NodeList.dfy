/**
  * The node registry of device_mngt.c as the program keeps it: a doubly linked list of nodes updated
  * in place.  Every method is tied to the operation of RegistrySpec on the value of the list.
  */
module NodeList {

  import opened RegistrySpec
  import SlotSpec

  /** The child table of a node has a fixed number of slots. */
  type Children = s: seq<Child> | |s| == MAX_CHILDREN witness [NO_CHILD, NO_CHILD]

  class MngtNode {
    var addr: nat
    var cls: nat
    var slotDmn: nat
    var hop: Hop
    var isConnected: bool
    var schFlag: bool
    var parentAddr: nat
    var nboChildren: nat
    var children: Children
    var next: MngtNode?
    var prev: MngtNode?

    ghost function Value(): RegNode
      reads this
    {
      RegNode(addr, cls, slotDmn, hop, isConnected, schFlag, parentAddr, nboChildren, children)
    }

    /** createNewNode */
    constructor (a: nat, c: nat, dmn: nat, h: Hop, p: nat)
      ensures Value() == RegNode(a, c, dmn, h, false, false, p, 0, [NO_CHILD, NO_CHILD])
      ensures next == null && prev == null
    {
      addr, cls, slotDmn, hop, parentAddr := a, c, dmn, h, p;
      isConnected, schFlag, nboChildren, children := false, false, 0, [NO_CHILD, NO_CHILD];
      next, prev := null, null;
    }

    /** The slot of the child table with address a, the table's size when there is none. */
    method FindChild(a: nat) returns (i: nat)
      ensures i == FindKid(children, a)
    {
      i := 0;
      while i < |children| && children[i].addr != a
        invariant i <= |children|
        invariant i + FindKid(children[i..], a) == FindKid(children, a)
      {
        assert children[i..][1..] == children[i + 1..];
        i := i + 1;
      }
      assert i < |children| ==> children[i..][0] == children[i];
    }

    /** dmAddChildToNode, called on the parent. */
    method AddChildToNode(child: MngtNode) returns (ok: bool)
      modifies this`slotDmn, this`nboChildren, this`children
      ensures Value() == AddChild(old(Value()), old(child.Value())).0
      ensures ok == AddChild(old(Value()), old(child.Value())).1
    {
      var i := FindChild(child.addr);
      var existed := i < |children|;
      if !existed {
        i := FindChild(0);
      }
      if i < |children| {
        var kid := Child(child.addr, child.cls, child.slotDmn);
        if existed {
          slotDmn := (slotDmn - children[i].demand * 2) % U8;
        } else {
          nboChildren := (nboChildren + 1) % U8;
        }
        slotDmn := (slotDmn + kid.demand * 2) % U8;
        children := children[i := kid];
        return true;
      }
      return false;
    }

    /** dmRemoveChildOfNode, once the node is found. */
    method DropChildren()
      modifies this`slotDmn, this`nboChildren, this`children
      ensures Value() == DropKids(old(Value()))
    {
      children, slotDmn, nboChildren := [NO_CHILD, NO_CHILD], Pow2(cls) % U8, 0;
    }

    /** dmNodeUpdateGenInfo, once the node to update is found. */
    method CopyFrom(n: MngtNode)
      modifies this`addr, this`cls, this`hop, this`slotDmn, this`schFlag, this`parentAddr, this`nboChildren,
               this`isConnected, this`children
      ensures Value() == old(n.Value())
    {
      addr, cls, hop, slotDmn := n.addr, n.cls, n.hop, n.slotDmn;
      schFlag, parentAddr, nboChildren, isConnected := n.schFlag, n.parentAddr, n.nboChildren, n.isConnected;
      children := n.children;
    }
  }

  class MngtNodeList {
    var head: MngtNode?
    var tail: MngtNode?
    var size: int
    const sort: bool

    /** The nodes of the list from the head, their values, and all nodes the list ever owned. */
    ghost var spine: seq<MngtNode>
    ghost var contents: seq<RegNode>
    ghost var Repr: set<MngtNode>

    ghost predicate Valid()
      reads `head, `tail, `size, `spine, `contents, `Repr, Repr
    {
      && (forall i | 0 <= i < |spine| :: spine[i] in Repr)
      && (head == if spine == [] then null else spine[0])
      && (spine != [] ==> tail == spine[|spine| - 1])
      && size == |spine|
      && Distinct(spine) && Linked(spine) && Holds(spine, contents)
    }

    /** next and prev are inverse to each other along the spine. */
    static ghost predicate Linked(spine: seq<MngtNode>)
      reads spine
    {
      && (forall i {:trigger spine[i].next} | 0 <= i < |spine| ::
            spine[i].next == if i + 1 < |spine| then spine[i + 1] else null)
      && (forall i {:trigger spine[i].prev} | 0 <= i < |spine| ::
            spine[i].prev == if i > 0 then spine[i - 1] else null)
    }

    static ghost predicate Holds(spine: seq<MngtNode>, contents: seq<RegNode>)
      reads spine
    {
      |contents| == |spine| && forall i | 0 <= i < |spine| :: spine[i].Value() == contents[i]
    }

    static ghost predicate Distinct(s: seq<MngtNode>) {
      forall i, j | 0 <= i < j < |s| :: s[i] != s[j]
    }

    static lemma {:induction false} InsertKeepsDistinct(s: seq<MngtNode>, x: MngtNode, k: nat)
      requires Distinct(s) && x !in s && k <= |s|
      ensures Distinct(s[..k] + [x] + s[k..])
    {
      var r := s[..k] + [x] + s[k..];
      assert forall i | 0 <= i < |r| :: r[i] == if i < k then s[i] else if i == k then x else s[i - 1];
    }

    static lemma {:induction false} OnlyAt(s: seq<MngtNode>, k: int)
      requires Distinct(s)
      ensures forall i | 0 <= i < |s| && 0 <= k < |s| && i != k :: s[i] != s[k]
    {
    }

    static lemma {:induction false} RemoveKeepsDistinct(s: seq<MngtNode>, k: nat)
      requires Distinct(s) && k < |s|
      ensures Distinct(SlotSpec.RemoveAt(s, k))
    {
    }

    /** The links around a node that was put in front of position k. */
    static lemma {:induction false} Inserted(s: seq<MngtNode>, vs: seq<RegNode>, x: MngtNode, k: nat)
      requires k <= |s| && Distinct(s) && x !in s && Holds(s, vs)
      requires x.next == (if k < |s| then s[k] else null) && x.prev == (if k > 0 then s[k - 1] else null)
      requires forall i {:trigger s[i].next} | 0 <= i < |s| ::
                 s[i].next == if i == k - 1 then x else if i + 1 < |s| then s[i + 1] else null
      requires forall i {:trigger s[i].prev} | 0 <= i < |s| ::
                 s[i].prev == if i == k then x else if i > 0 then s[i - 1] else null
      ensures var r := s[..k] + [x] + s[k..];
              Distinct(r) && Linked(r) && Holds(r, vs[..k] + [x.Value()] + vs[k..])
    {
      InsertKeepsDistinct(s, x, k);
      var r := s[..k] + [x] + s[k..];
      assert forall i {:trigger r[i]} | 0 <= i < |r| :: r[i] == if i < k then s[i] else if i == k then x else s[i - 1];
    }

    /** The links after the node at position k was taken out. */
    static lemma {:induction false} Removed(s: seq<MngtNode>, vs: seq<RegNode>, k: nat)
      requires k < |s| && Distinct(s) && Holds(s, vs)
      requires forall i {:trigger s[i].next} | 0 <= i < |s| && i != k ::
                 s[i].next == var j := if i == k - 1 then k + 1 else i + 1; if j < |s| then s[j] else null
      requires forall i {:trigger s[i].prev} | 0 <= i < |s| && i != k ::
                 s[i].prev == var j := if i == k + 1 then k - 1 else i - 1; if j >= 0 then s[j] else null
      ensures var r := SlotSpec.RemoveAt(s, k);
              && Distinct(r) && Linked(r) && Holds(r, SlotSpec.RemoveAt(vs, k))
              && forall i {:trigger r[i]} | 0 <= i < |r| :: r[i] in s && r[i] != s[k]
    {
      RemoveKeepsDistinct(s, k);
      var r := SlotSpec.RemoveAt(s, k);
      assert forall i {:trigger r[i]} | 0 <= i < |r| :: r[i] == if i < k then s[i] else s[i + 1];
    }

    /** The nodes in front of position k and at position k. */
    ghost predicate Cursor(before: MngtNode?, cur: MngtNode?, k: nat)
      reads this
    {
      && k <= |spine|
      && (cur == if k == |spine| then null else spine[k])
      && (before == if k == 0 then null else spine[k - 1])
    }

    lemma {:induction false} At(i: nat)
      requires Valid() && i < |spine|
      ensures |spine| == |contents| && spine[i].Value() == contents[i] && spine[i] in Repr
      ensures spine[i].next == if i + 1 < |spine| then spine[i + 1] else null
    {
    }

    lemma {:induction false} AtHead()
      requires Valid()
      ensures |spine| == |contents| && head == if spine == [] then null else spine[0]
    {
    }

    /** initNodeList */
    constructor (sorted: bool)
      ensures Valid() && fresh(Repr) && contents == [] && sort == sorted
    {
      head, tail, size, sort := null, null, 0, sorted;
      spine, contents, Repr := [], [], {};
    }

    /** getNodeReferenceByAddress, and the search in the functions that look a node up themselves. */
    method GetNodeReferenceByAddress(a: nat) returns (node: MngtNode?, ghost k: nat)
      requires Valid()
      ensures k == FindNode(contents, a)
      ensures node == if k < |spine| then spine[k] else null
    {
      node, k := head, 0;
      while node != null && node.addr != a
        invariant k <= |spine| && node == (if k < |spine| then spine[k] else null)
        invariant k <= FindNode(contents, a)
        decreases |spine| - k
      {
        node := node.next;
        k := k + 1;
      }
    }

    /** Ties a node that is not in the list to its two new neighbours. */
    static method Tie(ghost s: seq<MngtNode>, ghost k: nat, before: MngtNode?, cur: MngtNode?, node: MngtNode)
      requires Distinct(s) && Linked(s) && node !in s && k <= |s|
      requires cur == (if k == |s| then null else s[k]) && before == (if k == 0 then null else s[k - 1])
      modifies before, cur, node
      ensures node.next == cur && node.prev == before && node.Value() == old(node.Value())
      ensures forall i {:trigger s[i].next} | 0 <= i < |s| ::
                s[i].next == if i == k - 1 then node else if i + 1 < |s| then s[i + 1] else null
      ensures forall i {:trigger s[i].prev} | 0 <= i < |s| ::
                s[i].prev == if i == k then node else if i > 0 then s[i - 1] else null
      ensures forall i | 0 <= i < |s| :: s[i].Value() == old(s[i].Value())
    {
      hide Distinct;
      OnlyAt(s, k - 1);
      OnlyAt(s, k);
      node.prev, node.next := before, cur;
      if before != null {
        before.next := node;
      }
      if cur != null {
        cur.prev := node;
      }
    }

    /** Puts a node in front of position k of the chain s with the values vs. */
    static method Attach(ghost s: seq<MngtNode>, ghost vs: seq<RegNode>, ghost k: nat,
                         before: MngtNode?, cur: MngtNode?, node: MngtNode)
      requires Distinct(s) && Linked(s) && Holds(s, vs) && node !in s && k <= |s|
      requires cur == (if k == |s| then null else s[k]) && before == (if k == 0 then null else s[k - 1])
      modifies before, cur, node
      ensures node.Value() == old(node.Value())
      ensures var r := s[..k] + [node] + s[k..];
              Distinct(r) && Linked(r) && Holds(r, vs[..k] + [node.Value()] + vs[k..])
    {
      hide Distinct;
      Tie(s, k, before, cur, node);
      Inserted(s, vs, node, k);
    }

    lemma {:induction false} Chain()
      requires Valid()
      ensures head == (if spine == [] then null else spine[0]) && (spine != [] ==> tail == spine[|spine| - 1])
      ensures |spine| == |contents| == size
      ensures Distinct(spine) && Linked(spine) && Holds(spine, contents)
      ensures forall i | 0 <= i < |spine| :: spine[i] in Repr
    {
    }

    /** Links a node that is not in the list between its two new neighbours. */
    method Splice(before: MngtNode?, cur: MngtNode?, node: MngtNode, ghost k: nat)
      requires Valid() && node !in Repr && Cursor(before, cur, k)
      modifies `head, `tail, `size, `spine, `contents, `Repr, before, cur, node
      ensures Valid() && Repr == old(Repr) + {node}
      ensures contents == old(contents[..k] + [node.Value()] + contents[k..])
    {
      hide Distinct, Linked, Holds;
      Chain();
      ghost var s, vs := spine, contents;
      spine, contents, Repr := s[..k] + [node] + s[k..], vs[..k] + [node.Value()] + vs[k..], Repr + {node};
      if before == null {
        head := node;
      }
      if cur == null {
        tail := node;
      }
      size := size + 1;
      Attach(s, vs, k, before, cur, node);
    }

    /** The search of pushNode in a sorted list: the first node with a smaller demand. */
    method LocateDemand(demand: nat) returns (before: MngtNode?, cur: MngtNode?, ghost k: nat)
      requires Valid()
      ensures Cursor(before, cur, k)
      ensures forall i | 0 <= i < k :: contents[i].demand >= demand
      ensures k < |contents| ==> contents[k].demand < demand
    {
      before, cur, k := null, head, 0;
      while cur != null && cur.slotDmn >= demand
        invariant Cursor(before, cur, k)
        invariant forall i | 0 <= i < k :: contents[i].demand >= demand
        decreases |spine| - k
      {
        before, cur := cur, cur.next;
        k := k + 1;
      }
    }

    /** Overwrites the node at position k. */
    method Overwrite(cur: MngtNode, n: MngtNode, ghost k: nat)
      requires Valid() && k < |spine| && cur == spine[k]
      modifies `contents, cur
      ensures Valid() && contents == old(contents[k := n.Value()])
    {
      contents := contents[k := n.Value()];
      cur.CopyFrom(n);
    }

    /** pushNode: 1 when the node was added, 0 when it replaced the data of a registered node. */
    method PushNode(node: MngtNode) returns (added: int)
      requires Valid() && node !in Repr
      modifies this, Repr, node
      ensures Valid() && Repr <= old(Repr) + {node}
      ensures contents == Push(old(contents), old(node.Value()), sort)
      ensures added == if FindNode(old(contents), old(node.addr)) < |old(contents)| then 0 else 1
    {
      hide Valid, Distinct, Linked, Holds, FindNode, InsertByDemand;
      Chain();
      var twin, at := GetNodeReferenceByAddress(node.addr);
      if twin != null {
        Overwrite(twin, node, at);
        return 0;
      }
      if head == null {
        DemandPositionIs(contents, node.Value(), 0);
        Splice(null, null, node, 0);
      } else if !sort {
        Splice(tail, null, node, |spine|);
      } else {
        var before, cur, k := LocateDemand(node.slotDmn);
        DemandPositionIs(contents, node.Value(), k);
        Splice(before, cur, node, k);
      }
      return 1;
    }

    /** Ties the neighbours of cur, the node at position k, to each other. */
    static method Bypass(ghost s: seq<MngtNode>, ghost k: nat, cur: MngtNode)
      requires Distinct(s) && Linked(s) && k < |s| && cur == s[k]
      modifies cur, cur.prev, cur.next
      ensures cur.next == null && cur.prev == null
      ensures forall i {:trigger s[i].next} | 0 <= i < |s| && i != k ::
                s[i].next == var j := if i == k - 1 then k + 1 else i + 1; if j < |s| then s[j] else null
      ensures forall i {:trigger s[i].prev} | 0 <= i < |s| && i != k ::
                s[i].prev == var j := if i == k + 1 then k - 1 else i - 1; if j >= 0 then s[j] else null
      ensures forall i | 0 <= i < |s| :: s[i].Value() == old(s[i].Value())
    {
      hide Distinct;
      OnlyAt(s, k - 1);
      OnlyAt(s, k);
      OnlyAt(s, k + 1);
      if cur.prev != null {
        cur.prev.next := cur.next;
      }
      if cur.next != null {
        cur.next.prev := cur.prev;
      }
      cur.next, cur.prev := null, null;
    }

    /** Takes the node at position k out of the chain s with the values vs. */
    static method Detach(ghost s: seq<MngtNode>, ghost vs: seq<RegNode>, ghost k: nat, cur: MngtNode)
      requires Distinct(s) && Linked(s) && Holds(s, vs) && k < |s| && cur == s[k]
      modifies cur, cur.prev, cur.next
      ensures cur.next == null && cur.prev == null && cur.Value() == old(cur.Value())
      ensures var r := SlotSpec.RemoveAt(s, k);
              && Distinct(r) && Linked(r) && Holds(r, SlotSpec.RemoveAt(vs, k))
              && forall i {:trigger r[i]} | 0 <= i < |r| :: r[i] in s && r[i] != cur
    {
      hide Distinct;
      Bypass(s, k, cur);
      Removed(s, vs, k);
    }

    /** The neighbours of the node at position k, and the ends of the list. */
    lemma {:induction false} Around(k: nat)
      requires Valid() && k < |spine|
      ensures spine[k].next == if k + 1 < |spine| then spine[k + 1] else null
      ensures spine[k].prev == if k > 0 then spine[k - 1] else null
      ensures head == spine[0] && tail == spine[|spine| - 1]
      ensures spine[k] == head <==> k == 0
      ensures spine[k] == tail <==> k == |spine| - 1
      ensures |spine| == |contents| == size && contents[k] == spine[k].Value()
      ensures Distinct(spine) && Linked(spine) && Holds(spine, contents)
      ensures forall i | 0 <= i < |spine| :: spine[i] in Repr
    {
      OnlyAt(spine, k);
    }

    /** popHeadNode; the tail is left as it is, even when the list becomes empty. */
    method PopHeadNode() returns (node: MngtNode?)
      requires Valid()
      modifies this, Repr
      ensures Valid() && Repr <= old(Repr)
      ensures node == null <==> old(contents) == []
      ensures node == null ==> contents == old(contents)
      ensures node != null ==> node in old(Repr) && node !in Repr && node.Value() == old(contents)[0]
      ensures node != null ==> contents == old(contents)[1..]
    {
      hide Distinct, Linked, Holds, SlotSpec.RemoveAt;
      AtHead();
      node := head;
      if node == null {
        return;
      }
      Around(0);
      ghost var s, vs := spine, contents;
      SlotSpec.RemoveFirst(s);
      SlotSpec.RemoveFirst(vs);
      spine, contents, Repr := s[1..], vs[1..], Repr - {node};
      head := node.next;
      size := size - 1;
      Detach(s, vs, 0, node);
    }

    /** Takes cur, the node at position k, out of the list. */
    method Unlink(cur: MngtNode, ghost k: nat)
      requires Valid() && k < |spine| && cur == spine[k]
      modifies this, Repr
      ensures Valid() && Repr == old(Repr) - {cur}
      ensures cur.Value() == old(cur.Value()) && cur.next == null && cur.prev == null
      ensures contents == SlotSpec.RemoveAt(old(contents), k)
    {
      hide Distinct, Linked, Holds;
      Around(k);
      ghost var s, vs := spine, contents;
      spine, contents, Repr := SlotSpec.RemoveAt(s, k), SlotSpec.RemoveAt(vs, k), Repr - {cur};
      if cur == head {
        head := cur.next;
      }
      if cur == tail {
        tail := cur.prev;
      }
      size := size - 1;
      Detach(s, vs, k, cur);
    }

    /** popNodeByAddress */
    method PopNodeByAddress(a: nat) returns (node: MngtNode?)
      requires Valid()
      modifies this, Repr
      ensures Valid() && Repr <= old(Repr)
      ensures node == null <==> FindNode(old(contents), a) == |old(contents)|
      ensures node == null ==> contents == old(contents) && Repr == old(Repr)
      ensures node != null ==> node in old(Repr) && node !in Repr
      ensures node != null ==> node.Value() == old(contents)[FindNode(old(contents), a)]
      ensures node != null ==> contents == SlotSpec.RemoveAt(old(contents), FindNode(old(contents), a))
    {
      ghost var k;
      node, k := GetNodeReferenceByAddress(a);
      if node != null {
        Unlink(node, k);
      }
    }

    /** Sets the connection mark of the node at position k. */
    method SetConnection(cur: MngtNode, status: bool, ghost k: nat)
      requires Valid() && k < |spine| && cur == spine[k]
      modifies `contents, cur`isConnected
      ensures Valid() && contents == old(contents)[k := old(contents)[k].(connected := status)]
    {
      hide Distinct;
      OnlyAt(spine, k);
      contents := contents[k := contents[k].(connected := status)];
      cur.isConnected := status;
    }

    /** The child in slot i of the table of n is met. */
    static lemma {:induction false} MeetChild(n: RegNode, ns: seq<RegNode>, i: nat, left: nat, status: bool)
      requires KidsKnown(n, ns) && i < |n.kids|
      ensures n.kids[i].addr == 0 ==>
                SetKidsConnected(ns, n.kids[i..], left, status)
                == if left == 0 then ns else SetKidsConnected(ns, n.kids[i + 1..], left, status)
      ensures n.kids[i].addr != 0 ==>
                var k, left' := FindNode(ns, n.kids[i].addr), (left + 255) % U8;
                && k < |ns|
                && var ns' := ns[k := ns[k].(connected := status)];
                && KidsKnown(n, ns')
                && SetKidsConnected(ns, n.kids[i..], left, status)
                   == if left' == 0 then ns' else SetKidsConnected(ns', n.kids[i + 1..], left', status)
    {
      assert n.kids[i..][1..] == n.kids[i + 1..];
      var a := n.kids[i].addr;
      if a != 0 {
        assert Lookup(ns, a).Some?;
        ConnectedTable(ns, a, status);
      }
    }

    static lemma {:induction false} NoneLeft(ns: seq<RegNode>, left: nat, status: bool)
      ensures SetKidsConnected(ns, [], left, status) == ns
    {
    }

    lemma {:induction false} Owned()
      requires Valid()
      ensures |spine| == |contents| && forall i | 0 <= i < |spine| :: spine[i] in Repr
    {
    }

    /** dmSetChildConnStatus.  The code follows the reference it finds for each child without a check,
        so every child has to be registered. */
    method SetChildConnStatus(node: MngtNode, status: bool)
      requires Valid() && KidsKnown(node.Value(), contents)
      modifies `contents, Repr
      ensures Valid() && spine == old(spine)
      ensures contents == SetKidsConnected(old(contents), old(node.children), old(node.nboChildren), status)
    {
      hide Valid, SetKidsConnected, SetConnected, KidsKnown, FindNode, FindKid;
      var kids: seq<Child>, left: nat := node.children, node.nboChildren;
      ghost var n, goal := node.Value(), SetKidsConnected(contents, kids, left, status);
      var i := 0;
      assert kids[0..] == kids;
      while i < MAX_CHILDREN
        invariant i <= MAX_CHILDREN == |kids|
        invariant Valid() && spine == old(spine) && KidsKnown(n, contents)
        invariant SetKidsConnected(contents, kids[i..], left, status) == goal
      {
        MeetChild(n, contents, i, left, status);
        if kids[i].addr != 0 {
          var child, k := GetNodeReferenceByAddress(kids[i].addr);
          Owned();
          SetConnection(child, status, k);
          left := (left + 255) % U8;
        }
        i := i + 1;
        if left == 0 {
          return;
        }
      }
      assert kids[i..] == [];
      NoneLeft(contents, left, status);
    }

    /** dmRemoveChildOfNode on the node at position k. */
    method RemoveChildOfNode(cur: MngtNode, ghost k: nat)
      requires Valid() && k < |spine| && cur == spine[k]
      modifies `contents, cur`children, cur`slotDmn, cur`nboChildren
      ensures Valid() && spine == old(spine) && contents == old(contents)[k := DropKids(old(contents)[k])]
    {
      hide Distinct, DropKids;
      OnlyAt(spine, k);
      contents := contents[k := DropKids(contents[k])];
      cur.DropChildren();
    }

    /** dmNodeSetSchFlag on the node at position k. */
    method SetFlag(cur: MngtNode, val: bool, ghost k: nat)
      requires Valid() && k < |spine| && cur == spine[k]
      modifies `contents, cur`schFlag
      ensures Valid() && contents == old(contents)[k := old(contents)[k].(flag := val)]
    {
      hide Distinct;
      OnlyAt(spine, k);
      contents := contents[k := contents[k].(flag := val)];
      cur.schFlag := val;
    }

    /** dmSetSchFlagAll */
    method SetSchFlagAll(val: bool)
      requires Valid()
      modifies `contents, Repr
      ensures Valid() && spine == old(spine) && contents == ClearFlags(old(contents), val)
    {
      var cur := head;
      ghost var k := 0;
      hide Distinct, DistinctAddrs;
      while cur != null
        invariant k <= |spine| && cur == (if k < |spine| then spine[k] else null)
        invariant Valid() && spine == old(spine)
        invariant forall i | 0 <= i < |spine| ::
                    contents[i] == if i < k then old(contents)[i].(flag := val) else old(contents)[i]
        decreases |spine| - k
      {
        SetFlag(cur, val, k);
        cur := cur.next;
        k := k + 1;
      }
    }

    static lemma {:induction false} RelaysUnfold(ns: seq<RegNode>, k: nat)
      requires k <= |ns|
      ensures Relays(ns[k..]) == if k == |ns| then 0 else (if ns[k].nChildren > 0 then 1 else 0) + Relays(ns[k + 1..])
    {
      if k < |ns| {
        assert ns[k..][1..] == ns[k + 1..];
      }
    }

    static lemma {:induction false} Periodic(r: nat, k: nat)
      ensures (r + U8 * k) % U8 == r % U8
      decreases k
    {
      if k > 0 { Periodic(r + U8, k - 1); }
    }

    static lemma {:induction false} CountWraps(m: nat)
      ensures (m % SlotSpec.U16 + 1) % SlotSpec.U16 == (m + 1) % SlotSpec.U16
    {
    }

    static lemma {:induction false} CountIsCut(m: nat)
      ensures m % SlotSpec.U16 % U8 == m % U8
    {
      Periodic(m % SlotSpec.U16, 256 * (m / SlotSpec.U16));
    }

    /** dmGetNboRelays; the count of two bytes is cut to one byte. */
    method GetNboRelays() returns (n: nat)
      requires Valid()
      ensures n == Relays(contents) % U8
      ensures RegistryOk(contents) ==> n == |ParentAddrs(contents)| % U8
    {
      hide Relays, RegistryOk, ParentAddrs, ListsSomebody;
      if RegistryOk(contents) {
        RelaysAre(contents);
      }
      var cur := head;
      ghost var k, m := 0, 0;
      n := 0;
      assert contents[0..] == contents;
      while cur != null
        invariant k <= |spine| && cur == (if k < |spine| then spine[k] else null)
        invariant m + Relays(contents[k..]) == Relays(contents) && n == m % SlotSpec.U16
        decreases |spine| - k
      {
        At(k);
        RelaysUnfold(contents, k);
        CountWraps(m);
        if cur.nboChildren > 0 {
          n, m := (n + 1) % SlotSpec.U16, m + 1;
        }
        cur := cur.next;
        k := k + 1;
      }
      RelaysUnfold(contents, k);
      CountIsCut(m);
      n := n % U8;
    }

    /** dmIsRelayNode */
    method IsRelayNode(a: nat) returns (relay: bool)
      requires Valid()
      ensures relay == IsRelay(contents, a)
      ensures RegistryOk(contents) ==> (relay <==> ListsSomebody(contents, a))
    {
      hide RegistryOk, ListsSomebody;
      if RegistryOk(contents) {
        IsRelayIff(contents, a);
      }
      var node, k := GetNodeReferenceByAddress(a);
      return node != null && node.nboChildren > 0;
    }
  }
}
