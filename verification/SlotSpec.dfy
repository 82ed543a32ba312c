/**
  * What one schedule group (SchList_t in schedule_mngt.c) means as a value, and what each of
  * its operations does to that value.
  *
  * The C fields are narrow: slot indices are 16-bit, the counters 32-bit.  The wrap-arounds that
  * the code can meet are written out: the last slot of a node is truncated to 16 bits, the free
  * slots behind the last node are an unsigned difference, and the counter of remaining slots is
  * decremented below zero.  The other counters are exact (see CountersNeverWrap).
  */
module SlotSpec {

  const U16 := 0x1_0000
  const U32 := 0x1_0000_0000

  /** A scheduled one-hop node: it owns the slots start .. start + demand - 1. */
  datatype Entry = Entry(addr: nat, cls: nat, start: nat, demand: nat, dist: nat)

  /** A schedule group: its nodes in list order and its five counters. */
  datatype Group = Group(entries: seq<Entry>, tot: nat, nNode: int, asg: int, rmn: int, distReq: int)

  // ---------------------------------------------------------------- meaning of the counters

  ghost function SumDemand(es: seq<Entry>): nat {
    if es == [] then 0 else es[0].demand + SumDemand(es[1..])
  }

  /** Number of nodes whose schedule still has to be announced. */
  ghost function Pending(es: seq<Entry>): nat {
    if es == [] then 0 else (if es[0].dist > 0 then 1 else 0) + Pending(es[1..])
  }

  ghost predicate CountersOk(g: Group) {
    && g.nNode == |g.entries|
    && g.asg == SumDemand(g.entries)
    && g.distReq == Pending(g.entries)
  }

  /** The counter of remaining slots starts at 0 and only mirrors the assigned slots, modulo 2^32. */
  ghost predicate RemainderOk(g: Group) {
    0 <= g.rmn < U32 && (g.rmn + g.asg) % U32 == 0
  }

  /** The intervals are strictly ascending, hence disjoint, non-empty and inside 1 .. tot. */
  ghost predicate Packed(es: seq<Entry>, tot: nat) {
    && (forall i | 0 <= i < |es| :: 1 <= es[i].start && 1 <= es[i].demand && es[i].start + es[i].demand <= tot + 1)
    && (forall i, j | 0 <= i < j < |es| :: es[i].start + es[i].demand <= es[j].start)
  }

  ghost predicate UniqueAddrs(es: seq<Entry>) {
    forall i, j | 0 <= i < j < |es| :: es[i].addr != es[j].addr
  }

  // ---------------------------------------------------------------- the allocator

  /** Last slot of a node, as the code stores it in an unsigned short. */
  function LastLsi(e: Entry): nat {
    (e.start + e.demand - 1) % U16
  }

  /** The search behind the head of the list. */
  function Scan(es: seq<Entry>, tot: nat, demand: nat): nat
    requires es != []
  {
    var last := LastLsi(es[0]);
    if |es| == 1 then
      if (tot - last) % U32 >= demand then (last + 1) % U16 else 0
    else if es[1].start - last > demand then
      (last + 1) % U16
    else
      Scan(es[1..], tot, demand)
  }

  function Assign(es: seq<Entry>, tot: nat, demand: nat): nat {
    if es == [] || es[0].start > demand then 1 else Scan(es, tot, demand)
  }

  /** Insertion in the order of ascending start slots, behind equal ones. */
  function InsertByStart(es: seq<Entry>, e: Entry): seq<Entry> {
    if es == [] || es[0].start > e.start then [e] + es
    else [es[0]] + InsertByStart(es[1..], e)
  }

  /** Position of the first node with the given address, |es| when there is none. */
  function Find(es: seq<Entry>, addr: nat): (k: nat)
    ensures k <= |es|
    ensures forall j | 0 <= j < k :: es[j].addr != addr
    ensures k < |es| ==> es[k].addr == addr
  {
    if es == [] || es[0].addr == addr then 0 else 1 + Find(es[1..], addr)
  }

  // ---------------------------------------------------------------- operations on a group

  function Init(tot: nat): Group {
    Group([], tot, 0, 0, 0, 0)
  }

  function Clear(g: Group): Group {
    g.(entries := [], nNode := 0, asg := 0, rmn := 0, distReq := 0)
  }

  function Add(g: Group, e: Entry): Group {
    g.(entries := InsertByStart(g.entries, e),
       nNode := g.nNode + 1,
       asg := g.asg + e.demand,
       rmn := (g.rmn - e.demand) % U32,
       distReq := g.distReq + 1)
  }

  /** smScheduleOneNode: the new group and whether the node found a place. */
  function ScheduleOne(g: Group, e: Entry): (Group, bool) {
    var s := Assign(g.entries, g.tot, e.demand);
    if s == 0 then (g, false) else (Add(g, e.(start := s)), true)
  }

  function RemoveAt<T>(s: seq<T>, k: nat): seq<T>
    requires k < |s|
  {
    s[..k] + s[k + 1..]
  }

  lemma {:induction false} RemoveFirst<T>(s: seq<T>)
    requires s != []
    ensures RemoveAt(s, 0) == s[1..]
  {
  }

  function Remove(g: Group, addr: nat): Group {
    var k := Find(g.entries, addr);
    if k == |g.entries| then g else
    var e := g.entries[k];
    g.(entries := RemoveAt(g.entries, k),
       nNode := g.nNode - 1,
       asg := g.asg - e.demand,
       rmn := (g.rmn + e.demand) % U32,
       distReq := if e.dist > 0 then g.distReq - 1 else g.distReq)
  }

  function SetDist(g: Group, addr: nat, d: nat): Group {
    var k := Find(g.entries, addr);
    if k == |g.entries| then g else
    var e := g.entries[k];
    g.(entries := g.entries[k := e.(dist := d)],
       distReq := if e.dist > 0 && d == 0 then g.distReq - 1
                  else if e.dist == 0 && d > 0 then g.distReq + 1
                  else g.distReq)
  }

  function LastAssigned(es: seq<Entry>): nat {
    if es == [] then 0 else LastLsi(es[|es| - 1])
  }

  // ---------------------------------------------------------------- sums over list surgery

  lemma {:induction false} SumAppend(a: seq<Entry>, b: seq<Entry>)
    ensures SumDemand(a + b) == SumDemand(a) + SumDemand(b)
    ensures Pending(a + b) == Pending(a) + Pending(b)
  {
    if a == [] {
      assert a + b == b;
    } else {
      assert (a + b)[1..] == a[1..] + b;
      SumAppend(a[1..], b);
    }
  }

  lemma {:induction false} SumSplit(es: seq<Entry>, k: nat)
    requires k < |es|
    ensures SumDemand(es) == SumDemand(es[..k]) + es[k].demand + SumDemand(es[k + 1..])
    ensures Pending(es) == Pending(es[..k]) + (if es[k].dist > 0 then 1 else 0) + Pending(es[k + 1..])
  {
    assert es == es[..k] + es[k..];
    SumAppend(es[..k], es[k..]);
    assert es[k..][1..] == es[k + 1..];
  }

  lemma {:induction false} SumRemoveAt(es: seq<Entry>, k: nat)
    requires k < |es|
    ensures SumDemand(RemoveAt(es, k)) == SumDemand(es) - es[k].demand
    ensures Pending(RemoveAt(es, k)) == Pending(es) - (if es[k].dist > 0 then 1 else 0)
  {
    SumSplit(es, k);
    SumAppend(es[..k], es[k + 1..]);
  }

  lemma {:induction false} SumUpdate(es: seq<Entry>, k: nat, e: Entry)
    requires k < |es| && e.demand == es[k].demand
    ensures SumDemand(es[k := e]) == SumDemand(es)
    ensures Pending(es[k := e]) ==
            Pending(es) - (if es[k].dist > 0 then 1 else 0) + (if e.dist > 0 then 1 else 0)
  {
    SumSplit(es, k);
    SumSplit(es[k := e], k);
    assert es[k := e][..k] == es[..k] && es[k := e][k + 1..] == es[k + 1..];
  }

  /** Where the insertion puts the new node: behind every node that does not start after it. */
  lemma {:induction false} InsertSplits(es: seq<Entry>, e: Entry) returns (k: nat)
    ensures k <= |es|
    ensures InsertByStart(es, e) == es[..k] + [e] + es[k..]
    ensures forall i | 0 <= i < k :: es[i].start <= e.start
    ensures k < |es| ==> es[k].start > e.start
  {
    if es == [] || es[0].start > e.start {
      k := 0;
      assert es[..0] + [e] + es[0..] == [e] + es;
    } else {
      var j := InsertSplits(es[1..], e);
      k := j + 1;
      assert es[..k] + [e] + es[k..] == [es[0]] + (es[1..][..j] + [e] + es[1..][j..]);
      forall i | 0 <= i < k ensures es[i].start <= e.start {
        if i > 0 { assert es[i] == es[1..][i - 1]; }
      }
    }
  }

  lemma {:induction false} InsertPosition(es: seq<Entry>, e: Entry, k: nat)
    requires k <= |es|
    requires forall i | 0 <= i < k :: es[i].start <= e.start
    requires k < |es| ==> es[k].start > e.start
    ensures InsertByStart(es, e) == es[..k] + [e] + es[k..]
  {
    if k == 0 {
      assert es[..0] + [e] + es[0..] == [e] + es;
    } else {
      assert forall i | 0 <= i < k - 1 :: es[1..][i] == es[i + 1];
      InsertPosition(es[1..], e, k - 1);
      assert es[..k] + [e] + es[k..] == [es[0]] + (es[1..][..k - 1] + [e] + es[1..][k - 1..]);
    }
  }

  lemma {:induction false} SumInsert(es: seq<Entry>, e: Entry)
    ensures |InsertByStart(es, e)| == |es| + 1
    ensures SumDemand(InsertByStart(es, e)) == SumDemand(es) + e.demand
    ensures Pending(InsertByStart(es, e)) == Pending(es) + (if e.dist > 0 then 1 else 0)
  {
    var k := InsertSplits(es, e);
    var r := InsertByStart(es, e);
    SumRemoveAt(r, k);
    assert RemoveAt(r, k) == es;
  }

  // ---------------------------------------------------------------- counters, on every operation

  /** Insertion counts the node as pending whatever its countdown is. */
  lemma {:induction false} PlacedCounters(g: Group, e: Entry)
    requires CountersOk(g)
    ensures CountersOk(ScheduleOne(g, e).0) <==> (!ScheduleOne(g, e).1 || e.dist > 0)
  {
    var s := Assign(g.entries, g.tot, e.demand);
    SumInsert(g.entries, e.(start := s));
  }

  lemma {:induction false} WrapSum(rmn: int, asg: int, d: int)
    requires (rmn + asg) % U32 == 0
    ensures ((rmn - d) % U32 + (asg + d)) % U32 == 0
  {
    var q := (rmn - d) / U32;
    assert (rmn - d) % U32 == rmn - d - q * U32;
    assert (rmn - d) % U32 + (asg + d) == (rmn + asg) - q * U32;
    var p := (rmn + asg) / U32;
    assert rmn + asg == p * U32;
    assert (rmn - d) % U32 + (asg + d) == (p - q) * U32;
  }

  lemma {:induction false} RemoveKeepsCounters(g: Group, addr: nat)
    requires CountersOk(g)
    ensures CountersOk(Remove(g, addr))
  {
    var k := Find(g.entries, addr);
    if k < |g.entries| {
      SumRemoveAt(g.entries, k);
    }
  }

  lemma {:induction false} SetDistKeepsCounters(g: Group, addr: nat, d: nat)
    requires CountersOk(g)
    ensures CountersOk(SetDist(g, addr, d))
  {
    var k := Find(g.entries, addr);
    if k < |g.entries| {
      SumUpdate(g.entries, k, g.entries[k].(dist := d));
    }
  }

  // ---------------------------------------------------------------- first fit

  /** demand consecutive slots from s lie inside the group and meet no scheduled node. */
  ghost predicate FreeRun(es: seq<Entry>, tot: nat, s: nat, demand: nat) {
    && 1 <= s
    && s + demand <= tot + 1
    && forall k | 0 <= k < |es| :: s + demand <= es[k].start || es[k].start + es[k].demand <= s
  }

  lemma {:induction false} FreeRunCons(es: seq<Entry>, tot: nat, s: nat, demand: nat)
    requires es != []
    ensures FreeRun(es, tot, s, demand)
            <==> FreeRun(es[1..], tot, s, demand)
                 && (s + demand <= es[0].start || es[0].start + es[0].demand <= s)
  {
    if FreeRun(es, tot, s, demand) {
      assert forall k | 0 <= k < |es[1..]| :: es[1..][k] == es[k + 1];
    }
    if FreeRun(es[1..], tot, s, demand) && (s + demand <= es[0].start || es[0].start + es[0].demand <= s) {
      forall k | 0 <= k < |es| ensures s + demand <= es[k].start || es[k].start + es[k].demand <= s {
        if k > 0 { assert es[k] == es[1..][k - 1]; }
      }
    }
  }

  lemma {:induction false} PackedTail(es: seq<Entry>, tot: nat)
    requires Packed(es, tot) && es != []
    ensures 1 <= es[0].start && 1 <= es[0].demand && es[0].start + es[0].demand <= tot + 1
    ensures Packed(es[1..], tot)
    ensures |es| > 1 ==> es[0].start + es[0].demand <= es[1].start
  {
    assert forall k | 0 <= k < |es[1..]| :: es[1..][k] == es[k + 1];
  }

  /** What the two tests of the search see at the head of a suffix. */
  lemma {:induction false} ScanHead(es: seq<Entry>, tot: nat, demand: nat, s: nat)
    requires Packed(es, tot) && es != [] && demand >= 1
    requires s < es[0].start + es[0].demand ==> es[0].start <= s
    requires |es| > 1 ==> s < es[1].start
    ensures FreeRun(es, tot, s, demand)
            <==> && es[0].start + es[0].demand <= s
                 && (if |es| == 1 then s + demand <= tot + 1 else s + demand <= es[1].start)
  {
    FreeRunCons(es, tot, s, demand);
    PackedTail(es, tot);
    if |es| > 1 {
      FreeRunCons(es[1..], tot, s, demand);
      StartsAscend(es, tot);
      assert forall k | 0 <= k < |es[1..][1..]| :: es[1..][1..][k] == es[k + 2];
      assert es[1].start <= tot;
    }
  }

  /** One step of the search, where the last slot of the first node is inside the group. */
  lemma {:induction false} ScanUnfolds(es: seq<Entry>, tot: nat, demand: nat)
    requires es != [] && es[0].start >= 1 && es[0].demand >= 1
    requires es[0].start + es[0].demand - 1 <= tot < U16 - 1
    ensures var next := es[0].start + es[0].demand;
            Scan(es, tot, demand)
            == if |es| == 1 then if next + demand <= tot + 1 then next else 0
               else if es[1].start >= next + demand then next else Scan(es[1..], tot, demand)
  {
  }

  lemma {:induction false} ScanFirstFit(es: seq<Entry>, tot: nat, demand: nat)
    requires Packed(es, tot) && es != [] && demand >= 1 && tot < U16 - 1
    ensures var r := Scan(es, tot, demand);
            && (r != 0 ==> es[0].start + es[0].demand <= r && FreeRun(es, tot, r, demand))
            && forall s | es[0].start <= s && (r == 0 || s < r) :: !FreeRun(es, tot, s, demand)
    decreases |es|
  {
    hide Packed, FreeRun, Scan;
    var r, next := Scan(es, tot, demand), es[0].start + es[0].demand;
    PackedTail(es, tot);
    ScanUnfolds(es, tot, demand);
    if |es| > 1 && es[1].start < next + demand {
      ScanFirstFit(es[1..], tot, demand);
      if r != 0 { FreeRunCons(es, tot, r, demand); }
    } else {
      if r != 0 { ScanHead(es, tot, demand, r); }
    }
    forall s | es[0].start <= s && (r == 0 || s < r) ensures !FreeRun(es, tot, s, demand) {
      if |es| == 1 || s < es[1].start {
        ScanHead(es, tot, demand, s);
      } else {
        FreeRunCons(es, tot, s, demand);
      }
    }
  }

  lemma {:induction false} StartsAscend(es: seq<Entry>, tot: nat)
    requires Packed(es, tot)
    ensures forall i, j | 0 <= i <= j < |es| :: es[i].start <= es[j].start
  {
  }

  /** smAssignLsiToNode is first fit: it fails exactly when there is no free run of the demanded
      length, and otherwise returns the least start of such a run.  On an empty group the code does
      not compare the demand with the size of the group, hence the second precondition. */
  lemma {:induction false} FirstFit(es: seq<Entry>, tot: nat, demand: nat)
    requires Packed(es, tot) && tot < U16 - 1
    requires demand >= 1 && (es == [] ==> demand <= tot)
    ensures Assign(es, tot, demand) == 0 <==> forall s :: !FreeRun(es, tot, s, demand)
    ensures Assign(es, tot, demand) != 0 ==>
              && FreeRun(es, tot, Assign(es, tot, demand), demand)
              && forall s | 0 <= s < Assign(es, tot, demand) :: !FreeRun(es, tot, s, demand)
  {
    var r := Assign(es, tot, demand);
    if es == [] {
      assert FreeRun(es, tot, 1, demand);
    } else if es[0].start > demand {
      assert FreeRun(es, tot, 1, demand);
    } else {
      ScanFirstFit(es, tot, demand);
      forall s: nat | r == 0 || s < r ensures !FreeRun(es, tot, s, demand) {
        if s < es[0].start {
          FreeRunCons(es, tot, s, demand);
        }
      }
    }
  }

  /** A node is refused exactly when the list is not empty, the demand is positive and no free run holds it. */
  lemma {:induction false} NoRunIff(g: Group, e: Entry)
    requires Packed(g.entries, g.tot) && g.tot < U16 - 1
    ensures !ScheduleOne(g, e).1
            <==> g.entries != [] && e.demand >= 1 && forall s :: !FreeRun(g.entries, g.tot, s, e.demand)
  {
    if g.entries != [] && e.demand >= 1 {
      FirstFit(g.entries, g.tot, e.demand);
    }
  }

  /** The counters stay right exactly when the node brings a positive countdown or finds no free run. */
  lemma {:induction false} ScheduleKeepsCounters(g: Group, e: Entry)
    requires CountersOk(g) && Packed(g.entries, g.tot) && g.tot < U16 - 1
    ensures CountersOk(ScheduleOne(g, e).0)
            <==> e.dist > 0 || (g.entries != [] && e.demand >= 1 && forall s :: !FreeRun(g.entries, g.tot, s, e.demand))
  {
    hide CountersOk, ScheduleOne, Packed, FreeRun;
    PlacedCounters(g, e);
    NoRunIff(g, e);
  }

  /** Putting a node on a free run keeps the intervals packed. */
  lemma {:induction false} InsertKeepsPacked(es: seq<Entry>, tot: nat, e: Entry)
    requires Packed(es, tot) && e.demand >= 1 && FreeRun(es, tot, e.start, e.demand)
    ensures Packed(InsertByStart(es, e), tot)
  {
    hide Packed, FreeRun, InsertByStart;
    var k := InsertSplits(es, e);
    PlacedPacked(es, tot, e, k);
  }

  /** A free run lies behind the nodes with smaller starts and in front of the others. */
  lemma {:induction false} FreeBetween(es: seq<Entry>, tot: nat, e: Entry, k: nat)
    requires Packed(es, tot) && e.demand >= 1 && FreeRun(es, tot, e.start, e.demand) && k <= |es|
    requires forall i | 0 <= i < k :: es[i].start <= e.start
    requires forall j | k <= j < |es| :: es[j].start > e.start
    ensures forall i | 0 <= i < k :: es[i].start + es[i].demand <= e.start
    ensures forall j | k <= j < |es| :: e.start + e.demand <= es[j].start
  {
  }

  lemma {:induction false} PackedJoin(a: seq<Entry>, e: Entry, b: seq<Entry>, tot: nat)
    requires Packed(a, tot) && Packed(b, tot) && 1 <= e.start && 1 <= e.demand && e.start + e.demand <= tot + 1
    requires forall i | 0 <= i < |a| :: a[i].start + a[i].demand <= e.start
    requires forall j | 0 <= j < |b| :: e.start + e.demand <= b[j].start
    ensures Packed(a + [e] + b, tot)
  {
    var r := a + [e] + b;
    assert forall i | 0 <= i < |r| :: r[i] == if i < |a| then a[i] else if i == |a| then e else b[i - |a| - 1];
  }

  /** A free run put where it belongs. */
  lemma {:induction false} PlacedPacked(es: seq<Entry>, tot: nat, e: Entry, k: nat)
    requires Packed(es, tot) && e.demand >= 1 && FreeRun(es, tot, e.start, e.demand) && k <= |es|
    requires forall i | 0 <= i < k :: es[i].start <= e.start
    requires k < |es| ==> es[k].start > e.start
    ensures Packed(es[..k] + [e] + es[k..], tot)
  {
    StartsAscend(es, tot);
    FreeBetween(es, tot, e, k);
    PackedJoin(es[..k], e, es[k..], tot);
  }

  /** The allocator keeps its intervals disjoint and in range exactly when the demand is positive
      and, on an empty group, does not exceed the group. */
  lemma {:induction false} ScheduleKeepsPacked(g: Group, e: Entry)
    requires Packed(g.entries, g.tot) && g.tot < U16 - 1
    ensures Packed(ScheduleOne(g, e).0.entries, g.tot)
            <==> e.demand >= 1 && (g.entries == [] ==> e.demand <= g.tot)
  {
    var s := Assign(g.entries, g.tot, e.demand);
    var e' := e.(start := s);
    if e.demand >= 1 && (g.entries == [] ==> e.demand <= g.tot) {
      FirstFit(g.entries, g.tot, e.demand);
      if s != 0 { InsertKeepsPacked(g.entries, g.tot, e'); }
    } else {
      var k := InsertSplits(g.entries, e');
      assert InsertByStart(g.entries, e')[k] == e';
    }
  }

  lemma {:induction false} RemoveKeepsPacked(g: Group, addr: nat)
    requires Packed(g.entries, g.tot)
    ensures Packed(Remove(g, addr).entries, g.tot)
  {
    hide Find, Packed, RemoveAt;
    var k := Find(g.entries, addr);
    if k < |g.entries| { RemovedPacked(g.entries, g.tot, k); }
  }

  lemma {:induction false} RemovedPacked(es: seq<Entry>, tot: nat, k: nat)
    requires Packed(es, tot) && k < |es|
    ensures Packed(RemoveAt(es, k), tot)
  {
    var r := RemoveAt(es, k);
    forall i, j | 0 <= i < j < |r| ensures r[i].start + r[i].demand <= r[j].start {
      var i', j' := if i < k then i else i + 1, if j < k then j else j + 1;
      assert r[i] == es[i'] && r[j] == es[j'];
    }
  }

  lemma {:induction false} SetDistKeepsPacked(g: Group, addr: nat, d: nat)
    requires Packed(g.entries, g.tot)
    ensures Packed(SetDist(g, addr, d).entries, g.tot)
  {
  }

  // ---------------------------------------------------------------- every run of one group

  datatype SlotOp = OpSchedule(e: Entry) | OpRemove(addr: nat) | OpClear | OpSetDist(a: nat, d: nat)

  function SlotStep(g: Group, op: SlotOp): Group {
    match op
    case OpSchedule(e) => ScheduleOne(g, e).0
    case OpRemove(addr) => Remove(g, addr)
    case OpClear => Clear(g)
    case OpSetDist(a, d) => SetDist(g, a, d)
  }

  function SlotRun(g: Group, ops: seq<SlotOp>): Group
    decreases |ops|
  {
    if ops == [] then g else SlotRun(SlotStep(g, ops[0]), ops[1..])
  }

  /** What a caller must see to before scheduling a node; every other operation is unconditional. */
  predicate Admissible(g: Group, op: SlotOp) {
    op.OpSchedule? ==> op.e.dist > 0 && op.e.demand >= 1 && (g.entries == [] ==> op.e.demand <= g.tot)
  }

  ghost predicate AllAdmissible(g: Group, ops: seq<SlotOp>)
    decreases |ops|
  {
    ops == [] || (Admissible(g, ops[0]) && AllAdmissible(SlotStep(g, ops[0]), ops[1..]))
  }

  ghost predicate GroupOk(g: Group) {
    CountersOk(g) && RemainderOk(g) && Packed(g.entries, g.tot) && g.tot < U16 - 1
  }

  lemma {:induction false} StepKeepsRemainder(g: Group, op: SlotOp)
    requires RemainderOk(g)
    ensures RemainderOk(SlotStep(g, op))
  {
    match op
    case OpSchedule(e) =>
      WrapSum(g.rmn, g.asg, e.demand);
    case OpRemove(addr) =>
      var k := Find(g.entries, addr);
      if k < |g.entries| {
        var d: int := g.entries[k].demand;
        WrapSum(g.rmn, g.asg, 0 - d);
      }
    case OpClear =>
    case OpSetDist(a, d) =>
  }

  lemma {:induction false} SlotStepKeepsGroupOk(g: Group, op: SlotOp)
    requires GroupOk(g) && Admissible(g, op)
    ensures GroupOk(SlotStep(g, op))
  {
    StepKeepsRemainder(g, op);
    match op
    case OpSchedule(e) =>
      PlacedCounters(g, e);
      ScheduleKeepsPacked(g, e);
    case OpRemove(addr) =>
      RemoveKeepsCounters(g, addr);
      RemoveKeepsPacked(g, addr);
    case OpClear =>
    case OpSetDist(a, d) =>
      SetDistKeepsCounters(g, a, d);
      SetDistKeepsPacked(g, a, d);
  }

  /** The allocator invariant over every run of schedule, remove, clear and set-countdown. */
  lemma {:induction false} SlotRunKeepsGroupOk(g: Group, ops: seq<SlotOp>)
    requires GroupOk(g) && AllAdmissible(g, ops)
    ensures GroupOk(SlotRun(g, ops))
    decreases |ops|
  {
    if ops != [] {
      SlotStepKeepsGroupOk(g, ops[0]);
      SlotRunKeepsGroupOk(SlotStep(g, ops[0]), ops[1..]);
    }
  }

  // ---------------------------------------------------------------- gapless packing

  /** Every node starts right behind its predecessor, the first one at slot 1. */
  ghost predicate Gapless(es: seq<Entry>) {
    && (forall i | 0 <= i < |es| :: 1 <= es[i].demand)
    && (es != [] ==> es[0].start == 1)
    && (forall i | 0 <= i < |es| - 1 :: es[i + 1].start == es[i].start + es[i].demand)
  }

  lemma {:induction false} GaplessStart(es: seq<Entry>, k: nat)
    requires Gapless(es) && k < |es|
    ensures es[k].start == 1 + SumDemand(es[..k])
    ensures es[k].start + es[k].demand == 1 + SumDemand(es[..k + 1])
  {
    if k > 0 { GaplessStart(es, k - 1); }
    assert es[..k + 1] == es[..k] + [es[k]];
    SumAppend(es[..k], [es[k]]);
    assert SumDemand([es[k]]) == es[k].demand;
  }

  lemma {:induction false} GaplessEnd(es: seq<Entry>)
    requires Gapless(es)
    ensures es != [] ==> es[|es| - 1].start + es[|es| - 1].demand == 1 + SumDemand(es)
    ensures es == [] ==> SumDemand(es) == 0
  {
    if es != [] {
      GaplessStart(es, |es| - 1);
      assert es[..|es|] == es;
    }
  }

  lemma {:induction false} SumUnfolds(es: seq<Entry>)
    ensures SumDemand(es) == if es == [] then 0 else es[0].demand + SumDemand(es[1..])
  {
  }

  lemma {:induction false} GaplessScan(es: seq<Entry>, base: nat, tot: nat, demand: nat)
    requires es != [] && demand >= 1
    requires forall i | 0 <= i < |es| :: 1 <= es[i].demand && es[i].start >= 1
    requires es[0].start == base + 1
    requires forall i | 0 <= i < |es| - 1 :: es[i + 1].start == es[i].start + es[i].demand
    requires base + SumDemand(es) <= tot < U16 - 1
    ensures Scan(es, tot, demand) == if base + SumDemand(es) + demand <= tot then base + SumDemand(es) + 1 else 0
    decreases |es|
  {
    hide Scan, SumDemand;
    SumUnfolds(es);
    ScanUnfolds(es, tot, demand);
    var rest := es[1..];
    SumUnfolds(rest);
    if rest != [] {
      assert es[0 + 1].start == es[0].start + es[0].demand;
      assert forall i | 0 <= i < |rest| :: rest[i] == es[i + 1];
      GaplessScan(rest, base + es[0].demand, tot, demand);
    }
  }

  lemma {:induction false} GaplessAssign(es: seq<Entry>, tot: nat, demand: nat)
    requires Gapless(es) && SumDemand(es) <= tot < U16 - 1
    requires 1 <= demand <= tot
    ensures Assign(es, tot, demand) == if SumDemand(es) + demand <= tot then SumDemand(es) + 1 else 0
  {
    if es != [] {
      forall i | 0 <= i < |es| ensures es[i].start >= 1 { GaplessStart(es, i); }
      GaplessScan(es, 0, tot, demand);
    }
  }

  lemma {:induction false} GaplessInsert(es: seq<Entry>, e: Entry)
    requires Gapless(es) && e.start == SumDemand(es) + 1 && e.demand >= 1
    ensures InsertByStart(es, e) == es + [e]
    ensures Gapless(es + [e])
  {
    GaplessEnd(es);
    var k := InsertSplits(es, e);
    if k < |es| {
      GaplessStart(es, k);
      PrefixSums(es, k, k);
      assert false;
    }
    assert es[..k] + [e] + es[k..] == es + [e];
  }

  /** On a gapless group a node goes behind the last one and is refused exactly when it does not
      fit there; the packing stays gapless, and smGetLastAsgLsi is the number of assigned slots. */
  lemma {:induction false} GaplessSchedule(g: Group, e: Entry)
    requires Gapless(g.entries) && CountersOk(g) && g.asg <= g.tot < U16 - 1
    requires 1 <= e.demand <= g.tot
    ensures ScheduleOne(g, e).1 <==> g.asg + e.demand <= g.tot
    ensures ScheduleOne(g, e).1 ==>
              && ScheduleOne(g, e).0.entries == g.entries + [e.(start := g.asg + 1)]
              && Gapless(ScheduleOne(g, e).0.entries)
              && LastAssigned(ScheduleOne(g, e).0.entries) == g.asg + e.demand
  {
    GaplessAssign(g.entries, g.tot, e.demand);
    if g.asg + e.demand <= g.tot {
      GaplessInsert(g.entries, e.(start := g.asg + 1));
    }
  }

  lemma {:induction false} PrefixSums(es: seq<Entry>, i: nat, j: nat)
    requires i <= j <= |es|
    ensures SumDemand(es[..i]) <= SumDemand(es[..j]) <= SumDemand(es)
  {
    assert es[..j] == es[..i] + es[i..j];
    SumAppend(es[..i], es[i..j]);
    assert es == es[..j] + es[j..];
    SumAppend(es[..j], es[j..]);
  }

  lemma {:induction false} GaplessIsPacked(es: seq<Entry>, tot: nat)
    requires Gapless(es) && SumDemand(es) <= tot
    ensures Packed(es, tot)
  {
    forall i | 0 <= i < |es| ensures 1 <= es[i].start && es[i].start + es[i].demand <= tot + 1 {
      GaplessStart(es, i);
      PrefixSums(es, i, i + 1);
    }
    forall i, j | 0 <= i < j < |es| ensures es[i].start + es[i].demand <= es[j].start {
      GaplessStart(es, i);
      GaplessStart(es, j);
      PrefixSums(es, i + 1, j);
    }
  }

  // ---------------------------------------------------------------- no counter wraps

  lemma {:induction false} TimesOneMore(n: nat, d: nat)
    requires n > 0
    ensures n * d == (n - 1) * d + d
  {
  }

  lemma {:induction false} SumBounded(es: seq<Entry>, d: nat)
    requires forall i | 0 <= i < |es| :: es[i].demand <= d
    ensures SumDemand(es) <= |es| * d
    ensures Pending(es) <= |es|
  {
    if es != [] {
      SumBounded(es[1..], d);
      TimesOneMore(|es|, d);
    }
  }

  lemma {:induction false} DistinctBelow(es: seq<Entry>, n: nat)
    requires UniqueAddrs(es) && forall i | 0 <= i < |es| :: es[i].addr < n
    ensures |es| <= n
    decreases n
  {
    if es != [] {
      if k :| 0 <= k < |es| && es[k].addr == n - 1 {
        var r := RemoveAt(es, k);
        assert forall i | 0 <= i < |r| :: r[i] == if i < k then es[i] else es[i + 1];
        DistinctBelow(r, n - 1);
      } else {
        assert es[0].addr < n;
        DistinctBelow(es, n - 1);
      }
    }
  }

  /** With 16-bit unique addresses and 8-bit demands the three exact counters stay below 2^32, so
      modelling them without wrap-around loses nothing. */
  lemma {:induction false} CountersNeverWrap(g: Group)
    requires CountersOk(g) && UniqueAddrs(g.entries)
    requires forall i | 0 <= i < |g.entries| :: g.entries[i].addr < U16 && g.entries[i].demand < 256
    ensures 0 <= g.nNode < U32 && 0 <= g.asg < U32 && 0 <= g.distReq < U32
  {
    DistinctBelow(g.entries, U16);
    SumBounded(g.entries, 255);
  }
}
