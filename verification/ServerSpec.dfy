/**
  * The scheduling part of the server state (rtlora_mac.c): the registry together with the schedule
  * groups, and what registration, scheduling and clearing do to the pair.
  */
module ServerSpec {
  import opened SlotSpec
  import opened RegistrySpec
  import Greedy

  const DIST_SD := 1  // announcements per node scheduled in the distribution phase
  const DIST_DC := 3  // announcements per node scheduled in the data collection phase

  // ---------------------------------------------------------------- operations on all groups

  function RemoveAll(gs: seq<Group>, addr: nat): (r: seq<Group>)
    ensures |r| == |gs|
    ensures forall k | 0 <= k < |gs| :: r[k] == Remove(gs[k], addr)
  {
    seq(|gs|, k requires 0 <= k < |gs| => Remove(gs[k], addr))
  }

  function ClearAll(gs: seq<Group>): (r: seq<Group>)
    ensures |r| == |gs|
    ensures forall k | 0 <= k < |gs| :: r[k] == Clear(gs[k])
  {
    seq(|gs|, k requires 0 <= k < |gs| => Clear(gs[k]))
  }

  function Loads(gs: seq<Group>): (r: seq<int>)
    ensures |r| == |gs|
    ensures forall k | 0 <= k < |gs| :: r[k] == gs[k].asg
  {
    seq(|gs|, k requires 0 <= k < |gs| => gs[k].asg)
  }

  /** getIndexOfLowestLoadSch: the first of the groups with the fewest assigned slots. */
  function LowestLoad(gs: seq<Group>): (k: nat)
    requires gs != []
    ensures k < |gs|
    ensures forall j | 0 <= j < |gs| :: gs[k].asg <= gs[j].asg
    ensures forall j | 0 <= j < k :: gs[k].asg < gs[j].asg
  {
    var k := Greedy.Lowest(Loads(gs));
    assert forall j | 0 <= j < |gs| :: Loads(gs)[k] <= Loads(gs)[j];
    assert forall j | 0 <= j < k :: Loads(gs)[k] < Loads(gs)[j];
    k
  }

  /** One round of the loop in schedule(): drop the old place of the node, then try the group with
      the lowest load. */
  function PlaceOne(gs: seq<Group>, e: Entry): (r: (seq<Group>, bool))
    requires gs != []
    ensures |r.0| == |gs|
  {
    var gs1 := RemoveAll(gs, e.addr);
    var k := LowestLoad(gs1);
    var (g, ok) := ScheduleOne(gs1[k], e);
    (gs1[k := g], ok)
  }

  // ---------------------------------------------------------------- schedule()

  predicate Wants(n: RegNode) {
    n.hop.OneHop? && !n.flag
  }

  function Job(n: RegNode, dist: nat): Entry {
    Entry(n.addr, n.cls, 0, n.demand, dist)
  }

  /** The registry after the node at position i found a place. */
  function MarkScheduled(ns: seq<RegNode>, i: nat): seq<RegNode>
    requires i < |ns|
  {
    SetKidsConnected(ns[i := ns[i].(flag := true, connected := true)], ns[i].kids, ns[i].nChildren, true)
  }

  /** schedule() from position i of the registry on: new registry, new groups, nodes tried. */
  function ScheduleFrom(ns: seq<RegNode>, gs: seq<Group>, i: nat, dist: nat): (seq<RegNode>, seq<Group>, nat)
    requires gs != []
    decreases |ns| - i
  {
    if i >= |ns| then (ns, gs, 0)
    else if !Wants(ns[i]) then ScheduleFrom(ns, gs, i + 1, dist)
    else
      var (gs', ok) := PlaceOne(gs, Job(ns[i], dist));
      KidsConnectedSame(ns[i := ns[i].(flag := true, connected := true)], ns[i].kids, ns[i].nChildren, true);
      var ns' := if ok then MarkScheduled(ns, i) else ns;
      var (ns2, gs2, c) := ScheduleFrom(ns', gs', i + 1, dist);
      (ns2, gs2, c + 1)
  }

  /** The start of the distribution phase: forget every schedule, then build a new one. */
  function Distribute(ns: seq<RegNode>, gs: seq<Group>): (seq<RegNode>, seq<Group>, nat)
    requires gs != []
  {
    ScheduleFrom(ClearFlags(ns, false), ClearAll(gs), 0, DIST_SD)
  }

  /** addNodeToNodeList(&NODES, n): registry, groups, whether the node was accepted. */
  function AddNode(ns: seq<RegNode>, gs: seq<Group>, n: RegNode): (seq<RegNode>, seq<Group>, bool) {
    var (ns', ok) := Register(ns, n);
    (ns', if n.hop.OneHop? then gs else RemoveAll(gs, n.addr), ok)
  }

  // ---------------------------------------------------------------- consistency

  ghost function AddrSet(es: seq<Entry>): set<nat> {
    set e | e in es :: e.addr
  }

  /** No address is scheduled twice, neither in one group nor in two. */
  ghost predicate GroupsUnique(gs: seq<Group>) {
    && (forall k | 0 <= k < |gs| :: UniqueAddrs(gs[k].entries))
    && (forall j, k | 0 <= j < k < |gs| :: AddrSet(gs[j].entries) !! AddrSet(gs[k].entries))
  }

  /** A scheduled node is a one-hop entry of the registry; while its flag is set the registry and
      the schedule agree on its class and demand. */
  ghost predicate Backed(e: Entry, ns: seq<RegNode>) {
    var r := Lookup(ns, e.addr);
    && r.Some?
    && r.value.hop.OneHop?
    && (r.value.flag ==> r.value.cls == e.cls && r.value.demand == e.demand)
  }

  /** The fields of a scheduled node fit the widths they have in messages. */
  predicate EntryOk(e: Entry) {
    e.addr < ADDR_LIMIT && e.cls < CLASS_LIMIT && e.demand < U8 && e.dist <= DIST_DC
  }

  ghost predicate GroupBacked(g: Group, ns: seq<RegNode>) {
    forall e | e in g.entries :: Backed(e, ns) && EntryOk(e)
  }

  ghost predicate Consistent(ns: seq<RegNode>, gs: seq<Group>) {
    && gs != []
    && RegistryOk(ns)
    && GroupsUnique(gs)
    && (forall k | 0 <= k < |gs| :: CountersOk(gs[k]))
    && (forall k | 0 <= k < |gs| :: GroupBacked(gs[k], ns))
  }

  // ---------------------------------------------------------------- members of one group

  lemma {:induction false} RemoveMembers(g: Group, addr: nat)
    requires UniqueAddrs(g.entries)
    ensures forall e :: e in Remove(g, addr).entries <==> e in g.entries && e.addr != addr
    ensures UniqueAddrs(Remove(g, addr).entries)
    ensures AddrSet(Remove(g, addr).entries) == AddrSet(g.entries) - {addr}
  {
    hide Find;
    var es := g.entries;
    var k := Find(es, addr);
    if k < |es| {
      var r := RemoveAt(es, k);
      assert forall i | 0 <= i < |r| :: r[i] == es[if i < k then i else i + 1];
      forall e | e in es && e.addr != addr ensures e in r {
        var i :| 0 <= i < |es| && es[i] == e;
        assert r[if i < k then i else i - 1] == e;
      }
    }
  }

  lemma {:induction false} UniqueCons(x: Entry, es: seq<Entry>)
    ensures UniqueAddrs([x] + es) <==> x.addr !in AddrSet(es) && UniqueAddrs(es)
  {
    var r := [x] + es;
    assert forall i | 0 <= i < |es| :: r[i + 1] == es[i];
    if UniqueAddrs(r) {
      forall e | e in es ensures e.addr != x.addr {
        var i :| 0 <= i < |es| && es[i] == e;
        assert r[0].addr != r[i + 1].addr;
      }
      forall i, j | 0 <= i < j < |es| ensures es[i].addr != es[j].addr {
        assert r[i + 1].addr != r[j + 1].addr;
      }
    }
    if x.addr !in AddrSet(es) && UniqueAddrs(es) {
      forall i, j | 0 <= i < j < |r| ensures r[i].addr != r[j].addr {
        assert r[j] == es[j - 1] && es[j - 1] in es;
      }
    }
  }

  lemma {:induction false} InsertMembers(es: seq<Entry>, e: Entry)
    ensures forall x :: x in InsertByStart(es, e) <==> x == e || x in es
    ensures AddrSet(InsertByStart(es, e)) == AddrSet(es) + {e.addr}
    ensures UniqueAddrs(es) && e.addr !in AddrSet(es) ==> UniqueAddrs(InsertByStart(es, e))
  {
    UniqueCons(e, es);
    if es != [] && es[0].start <= e.start {
      InsertMembers(es[1..], e);
      UniqueCons(es[0], InsertByStart(es[1..], e));
      UniqueCons(es[0], es[1..]);
      assert es == [es[0]] + es[1..];
    }
  }

  lemma {:induction false} SetDistMembers(g: Group, addr: nat, d: nat)
    ensures forall e | e in SetDist(g, addr, d).entries ::
              e in g.entries || (e.dist == d && exists o :: o in g.entries && e == o.(dist := d))
    ensures AddrSet(SetDist(g, addr, d).entries) == AddrSet(g.entries)
    ensures UniqueAddrs(g.entries) ==> UniqueAddrs(SetDist(g, addr, d).entries)
  {
    var es, r := g.entries, SetDist(g, addr, d).entries;
    assert |r| == |es|;
    forall i | 0 <= i < |es| ensures r[i].addr == es[i].addr && (r[i] == es[i] || r[i] == es[i].(dist := d)) {}
    forall a ensures a in AddrSet(r) <==> a in AddrSet(es) {
      if a in AddrSet(r) { var i :| 0 <= i < |r| && r[i].addr == a; assert es[i] in es; }
      if a in AddrSet(es) { var i :| 0 <= i < |es| && es[i].addr == a; assert r[i] in r; }
    }
  }

  lemma {:induction false} UnscheduledIsOut(g: Group, addr: nat)
    requires addr !in AddrSet(g.entries)
    ensures Remove(g, addr) == g
  {
    assert forall i | 0 <= i < |g.entries| :: g.entries[i] in g.entries;
  }

  // ---------------------------------------------------------------- consistency is kept

  lemma {:induction false} RemoveAllKeeps(ns: seq<RegNode>, gs: seq<Group>, addr: nat)
    requires Consistent(ns, gs)
    ensures Consistent(ns, RemoveAll(gs, addr))
    ensures forall k | 0 <= k < |gs| :: addr !in AddrSet(RemoveAll(gs, addr)[k].entries)
    ensures forall k, e | 0 <= k < |gs| && e in RemoveAll(gs, addr)[k].entries :: e in gs[k].entries
  {
    var r := RemoveAll(gs, addr);
    forall k | 0 <= k < |gs|
      ensures UniqueAddrs(r[k].entries) && AddrSet(r[k].entries) == AddrSet(gs[k].entries) - {addr}
      ensures CountersOk(r[k]) && forall e | e in r[k].entries :: e in gs[k].entries
    {
      RemoveMembers(gs[k], addr);
      RemoveKeepsCounters(gs[k], addr);
    }
    forall j, k | 0 <= j < k < |gs| ensures AddrSet(r[j].entries) !! AddrSet(r[k].entries) {
      assert AddrSet(gs[j].entries) !! AddrSet(gs[k].entries);
    }
    forall k | 0 <= k < |gs| ensures GroupBacked(r[k], ns) {
      assert GroupBacked(gs[k], ns);
    }
  }

  /** A group that gains one node, and gives it the address of no other group, leaves the groups consistent. */
  lemma {:induction false} ReplaceKeeps(ns: seq<RegNode>, gs: seq<Group>, k: nat, g: Group, a: nat)
    requires Consistent(ns, gs) && k < |gs| && forall j | 0 <= j < |gs| :: a !in AddrSet(gs[j].entries)
    requires CountersOk(g) && GroupBacked(g, ns) && UniqueAddrs(g.entries)
    requires AddrSet(g.entries) <= AddrSet(gs[k].entries) + {a}
    ensures Consistent(ns, gs[k := g])
  {
    hide RegistryOk, CountersOk, GroupBacked, UniqueAddrs, AddrSet;
    var r := gs[k := g];
    forall i, j | 0 <= i < j < |r| ensures AddrSet(r[i].entries) !! AddrSet(r[j].entries) {
      assert AddrSet(gs[i].entries) !! AddrSet(gs[j].entries);
    }
  }

  /** One node more in a group. */
  lemma {:induction false} ScheduledGroup(ns: seq<RegNode>, g: Group, e: Entry)
    requires CountersOk(g) && GroupBacked(g, ns) && UniqueAddrs(g.entries)
    requires e.addr !in AddrSet(g.entries) && Backed(e, ns) && EntryOk(e) && 0 < e.dist
    ensures var r := ScheduleOne(g, e).0;
            CountersOk(r) && GroupBacked(r, ns) && UniqueAddrs(r.entries) && AddrSet(r.entries) <= AddrSet(g.entries) + {e.addr}
  {
    hide CountersOk, UniqueAddrs, AddrSet, InsertByStart, Assign;
    PlacedCounters(g, e);
    InsertMembers(g.entries, e.(start := Assign(g.entries, g.tot, e.demand)));
  }

  lemma {:induction false} SomeGroup(ns: seq<RegNode>, gs: seq<Group>)
    requires Consistent(ns, gs)
    ensures gs != []
  {
  }

  lemma {:induction false} GroupFacts(ns: seq<RegNode>, gs: seq<Group>, k: nat)
    requires Consistent(ns, gs) && k < |gs|
    ensures CountersOk(gs[k]) && GroupBacked(gs[k], ns) && UniqueAddrs(gs[k].entries)
  {
  }

  lemma {:induction false} PlaceOneKeeps(ns: seq<RegNode>, gs: seq<Group>, e: Entry)
    requires Consistent(ns, gs) && Backed(e, ns) && EntryOk(e) && 0 < e.dist
    ensures Consistent(ns, PlaceOne(gs, e).0)
  {
    hide Consistent, ScheduleOne, RemoveAll, LowestLoad, CountersOk, GroupBacked, UniqueAddrs, AddrSet, Backed, EntryOk;
    SomeGroup(ns, gs);
    var gs1 := RemoveAll(gs, e.addr);
    var k := LowestLoad(gs1);
    RemoveAllKeeps(ns, gs, e.addr);
    GroupFacts(ns, gs1, k);
    ScheduledGroup(ns, gs1[k], e);
    ReplaceKeeps(ns, gs1, k, ScheduleOne(gs1[k], e).0, e.addr);
  }

  /** Raising flags and connection marks does not disturb the registry invariant. */
  lemma {:induction false} MarksKeepRegistry(r: seq<RegNode>, ns: seq<RegNode>)
    requires RegistryOk(ns) && |r| == |ns|
    requires forall i | 0 <= i < |ns| :: r[i] == ns[i].(connected := r[i].connected, flag := r[i].flag)
    ensures RegistryOk(r)
    ensures forall a :: FindNode(r, a) == FindNode(ns, a)
  {
    forall a ensures RowOk(r, a) && FindNode(r, a) == FindNode(ns, a) && (DistinctAddrs(ns) ==> DistinctAddrs(r)) {
      MarkedLookup(r, ns, a);
      assert RowOk(ns, a);
      if Lookup(r, a).Some? {
        NodeOkMarks(Lookup(r, a).value, Lookup(ns, a).value);
        var kids := Lookup(r, a).value.kids;
        forall i | 0 <= i < |kids| && kids[i].addr != 0 ensures Lookup(r, kids[i].addr).Some? {
          MarkedLookup(r, ns, kids[i].addr);
        }
      }
    }
    assert RowOk(r, 0);
  }

  lemma {:induction false} MarkedLookup(r: seq<RegNode>, ns: seq<RegNode>, a: nat)
    requires |r| == |ns|
    requires forall i | 0 <= i < |ns| :: r[i] == ns[i].(connected := r[i].connected, flag := r[i].flag)
    ensures FindNode(r, a) == FindNode(ns, a)
    ensures DistinctAddrs(ns) ==> DistinctAddrs(r)
  {
    if ns != [] {
      assert r[0] == ns[0].(connected := r[0].connected, flag := r[0].flag);
      forall i | 0 <= i < |ns[1..]|
        ensures r[1..][i] == ns[1..][i].(connected := r[1..][i].connected, flag := r[1..][i].flag)
      {
        assert r[1..][i] == r[i + 1] && ns[1..][i] == ns[i + 1];
      }
      MarkedLookup(r[1..], ns[1..], a);
      MarkedLookup(r[1..], ns[1..], ns[0].addr);
    }
  }

  lemma {:induction false} MarkScheduledMarks(ns: seq<RegNode>, i: nat)
    requires i < |ns|
    ensures var r := MarkScheduled(ns, i);
            && |r| == |ns|
            && forall j | 0 <= j < |ns| ::
                 r[j] == ns[j].(connected := r[j].connected, flag := if j == i then true else ns[j].flag)
  {
    var m := ns[i := ns[i].(flag := true, connected := true)];
    KidsConnectedSame(m, ns[i].kids, ns[i].nChildren, true);
    var r := MarkScheduled(ns, i);
    forall j | 0 <= j < |ns| ensures r[j] == ns[j].(connected := r[j].connected, flag := if j == i then true else ns[j].flag) {
      assert r[j] == m[j].(connected := r[j].connected);
    }
  }

  /** One round of schedule() that finds a place keeps the registry and the groups consistent: from
      now on the flag promises that class and demand agree, and they do. */
  lemma {:induction false} PlacedKeeps(ns: seq<RegNode>, gs: seq<Group>, i: nat, dist: nat)
    requires Consistent(ns, gs) && i < |ns| && Wants(ns[i]) && 0 < dist <= DIST_DC
    requires PlaceOne(gs, Job(ns[i], dist)).1
    ensures Consistent(MarkScheduled(ns, i), PlaceOne(gs, Job(ns[i], dist)).0)
  {
    var e, r, gs' := Job(ns[i], dist), MarkScheduled(ns, i), PlaceOne(gs, Job(ns[i], dist)).0;
    DistinctAt(ns, i);
    assert RowOk(ns, ns[i].addr);
    PlaceOneKeeps(ns, gs, e);
    MarkScheduledMarks(ns, i);
    MarksKeepRegistry(r, ns);
    RemoveAllKeeps(ns, gs, e.addr);
    var gs1 := RemoveAll(gs, e.addr);
    var k := LowestLoad(gs1);
    var e' := e.(start := Assign(gs1[k].entries, gs1[k].tot, e.demand));
    InsertMembers(gs1[k].entries, e');
    forall j, x | 0 <= j < |gs'| && x in gs'[j].entries ensures Backed(x, r) && EntryOk(x) {
      assert Backed(x, ns) && EntryOk(x);
      if x != e' {
        assert x in gs1[j].entries && x.addr in AddrSet(gs1[j].entries);
        assert x.addr != e.addr;
      }
    }
  }

  /** One round of the loop in schedule(), at position i: registry and groups after it. */
  function RoundAt(ns: seq<RegNode>, gs: seq<Group>, i: nat, dist: nat): (seq<RegNode>, seq<Group>)
    requires gs != [] && i < |ns|
  {
    if !Wants(ns[i]) then (ns, gs) else
    var (gs', ok) := PlaceOne(gs, Job(ns[i], dist));
    (if ok then MarkScheduled(ns, i) else ns, gs')
  }

  /** schedule() is its first round followed by the rest. */
  lemma {:induction false} ScheduleRound(ns: seq<RegNode>, gs: seq<Group>, i: nat, dist: nat)
    requires gs != [] && i < |ns|
    ensures var (r, gs') := RoundAt(ns, gs, i, dist);
            && |r| == |ns| && |gs'| == |gs|
            && ScheduleFrom(ns, gs, i, dist).0 == ScheduleFrom(r, gs', i + 1, dist).0
            && ScheduleFrom(ns, gs, i, dist).1 == ScheduleFrom(r, gs', i + 1, dist).1
  {
    MarkScheduledMarks(ns, i);
  }

  lemma {:induction false} RoundKeeps(ns: seq<RegNode>, gs: seq<Group>, i: nat, dist: nat)
    requires Consistent(ns, gs) && i < |ns| && 0 < dist <= DIST_DC
    ensures Consistent(RoundAt(ns, gs, i, dist).0, RoundAt(ns, gs, i, dist).1)
  {
    if Wants(ns[i]) {
      if PlaceOne(gs, Job(ns[i], dist)).1 {
        PlacedKeeps(ns, gs, i, dist);
      } else {
        DistinctAt(ns, i);
        assert RowOk(ns, ns[i].addr);
        PlaceOneKeeps(ns, gs, Job(ns[i], dist));
      }
    }
  }

  lemma {:induction false} ScheduleKeeps(ns: seq<RegNode>, gs: seq<Group>, i: nat, dist: nat)
    requires Consistent(ns, gs) && 0 < dist <= DIST_DC
    ensures Consistent(ScheduleFrom(ns, gs, i, dist).0, ScheduleFrom(ns, gs, i, dist).1)
    decreases |ns| - i
  {
    if i < |ns| {
      var (r, gs') := RoundAt(ns, gs, i, dist);
      ScheduleRound(ns, gs, i, dist);
      RoundKeeps(ns, gs, i, dist);
      ScheduleKeeps(r, gs', i + 1, dist);
    }
  }

  lemma {:induction false} DistributeKeeps(ns: seq<RegNode>, gs: seq<Group>)
    requires Consistent(ns, gs)
    ensures Consistent(Distribute(ns, gs).0, Distribute(ns, gs).1)
  {
    MarksKeepRegistry(ClearFlags(ns, false), ns);
    ScheduleKeeps(ClearFlags(ns, false), ClearAll(gs), 0, DIST_SD);
  }

  /** Registration keeps the pair consistent: a node that becomes two-hop leaves the schedule, and
      every node whose demand changes loses its flag. */
  lemma {:induction false} AddNodeKeeps(ns: seq<RegNode>, gs: seq<Group>, n: RegNode)
    requires Consistent(ns, gs) && WellFormed(n)
    ensures Consistent(AddNode(ns, gs, n).0, AddNode(ns, gs, n).1)
  {
    var (ns', gs', ok) := AddNode(ns, gs, n);
    RegisterKeepsRegistryOk(ns, n);
    RegisterTable(ns, n);
    RemoveAllKeeps(ns, gs, n.addr);
    forall k, e | 0 <= k < |gs'| && e in gs'[k].entries ensures Backed(e, ns') && EntryOk(e) {
      assert e in gs[k].entries && Backed(e, ns) && EntryOk(e);
      if n.hop.TwoHop? { assert e.addr in AddrSet(gs'[k].entries); }
      EffectKeepsBacked(ns', ok, ns, n, e);
    }
  }

  lemma {:induction false} EffectKeepsBacked(r: seq<RegNode>, ok: bool, ns: seq<RegNode>, n: RegNode, e: Entry)
    requires RegisterEffect(r, ok, ns, n) && WellFormed(n) && Backed(e, ns)
    requires n.hop.TwoHop? ==> e.addr != n.addr
    ensures Backed(e, r)
  {
    if n.hop.OneHop? && e.addr != n.addr {
      assert SameRow(Lookup(r, e.addr), Lookup(ns, e.addr));
    }
  }

  // ---------------------------------------------------------------- do flags mean scheduled?

  ghost predicate IsScheduled(gs: seq<Group>, addr: nat) {
    exists k :: 0 <= k < |gs| && addr in AddrSet(gs[k].entries)
  }

  /** Every one-hop node that carries the flag has a place in some group. */
  ghost predicate FlagsHonest(ns: seq<RegNode>, gs: seq<Group>) {
    forall a :: FlagHonest(ns, gs, a)
  }

  ghost predicate FlagHonest(ns: seq<RegNode>, gs: seq<Group>, a: nat) {
    Lookup(ns, a).Some? && Lookup(ns, a).value.hop.OneHop? && Lookup(ns, a).value.flag ==> IsScheduled(gs, a)
  }

  /** The node is taken out of the schedule before its parent is looked up.  When the registration
      is then refused, a one-hop node that was scheduled keeps its flag without a place: it is not
      scheduled again until the next distribution phase. */
  predicate LosesItsPlace(ns: seq<RegNode>, n: RegNode) {
    && NoRoom(ns, n)
    && Lookup(ns, n.addr).Some? && Lookup(ns, n.addr).value.hop.OneHop? && Lookup(ns, n.addr).value.flag
  }

  lemma {:induction false} RemoveAllScheduled(ns: seq<RegNode>, gs: seq<Group>, addr: nat, a: nat)
    requires Consistent(ns, gs)
    ensures IsScheduled(RemoveAll(gs, addr), a) <==> IsScheduled(gs, a) && a != addr
  {
    hide Consistent, AddrSet, UniqueAddrs, CountersOk, GroupBacked, Remove;
    forall k | 0 <= k < |gs| ensures AddrSet(RemoveAll(gs, addr)[k].entries) == AddrSet(gs[k].entries) - {addr} {
      GroupFacts(ns, gs, k);
      RemoveMembers(gs[k], addr);
    }
    if IsScheduled(gs, a) && a != addr {
      var k :| 0 <= k < |gs| && a in AddrSet(gs[k].entries);
      assert a in AddrSet(RemoveAll(gs, addr)[k].entries);
    }
  }

  /** The entries of other addresses, in the same order. */
  function Without(es: seq<Entry>, addr: nat): (r: seq<Entry>)
    ensures forall e :: e in r <==> e in es && e.addr != addr
  {
    if es == [] then []
    else
      assert es == [es[0]] + es[1..];
      (if es[0].addr == addr then [] else [es[0]]) + Without(es[1..], addr)
  }

  lemma {:induction false} WithoutAbsent(es: seq<Entry>, addr: nat)
    requires forall i | 0 <= i < |es| :: es[i].addr != addr
    ensures Without(es, addr) == es
  {
    if es != [] {
      WithoutAbsent(es[1..], addr);
      assert es == [es[0]] + es[1..];
    }
  }

  lemma {:induction false} WithoutOne(es: seq<Entry>, k: nat)
    requires UniqueAddrs(es) && k < |es|
    ensures Without(es, es[k].addr) == RemoveAt(es, k)
  {
    if k == 0 {
      WithoutAbsent(es[1..], es[0].addr);
      RemoveFirst(es);
    } else {
      WithoutOne(es[1..], k - 1);
      assert RemoveAt(es, k) == [es[0]] + RemoveAt(es[1..], k - 1);
    }
  }

  lemma {:induction false} RemoveIsWithout(g: Group, addr: nat)
    requires UniqueAddrs(g.entries)
    ensures Remove(g, addr).entries == Without(g.entries, addr)
  {
    hide Without, RemoveAt, UniqueAddrs;
    var k := Find(g.entries, addr);
    if k < |g.entries| {
      WithoutOne(g.entries, k);
    } else {
      WithoutAbsent(g.entries, addr);
    }
  }

  /** A one-hop registration leaves every group as it is; a two-hop one, accepted or refused, takes the
      node out of every group and changes nothing else in the lists. */
  lemma {:induction false} AddNodeGroups(ns: seq<RegNode>, gs: seq<Group>, n: RegNode)
    requires Consistent(ns, gs)
    ensures n.hop.OneHop? ==> AddNode(ns, gs, n).1 == gs
    ensures n.hop.TwoHop? ==>
              && |AddNode(ns, gs, n).1| == |gs|
              && forall k | 0 <= k < |gs| ::
                   && AddNode(ns, gs, n).1[k].entries == Without(gs[k].entries, n.addr)
                   && AddNode(ns, gs, n).1[k].tot == gs[k].tot
  {
    hide Consistent, Without, Register, UniqueAddrs;
    if n.hop.TwoHop? {
      forall k | 0 <= k < |gs|
        ensures Remove(gs[k], n.addr).entries == Without(gs[k].entries, n.addr)
      {
        GroupFacts(ns, gs, k);
        RemoveIsWithout(gs[k], n.addr);
      }
    }
  }

  /** Who is scheduled after a registration: everybody who was, but for a two-hop registrant. */
  lemma {:induction false} AddNodeScheduled(ns: seq<RegNode>, gs: seq<Group>, n: RegNode, a: nat)
    requires Consistent(ns, gs)
    ensures IsScheduled(AddNode(ns, gs, n).1, a) <==> IsScheduled(gs, a) && !(n.hop.TwoHop? && a == n.addr)
  {
    hide Consistent, IsScheduled, Register;
    RemoveAllScheduled(ns, gs, n.addr, a);
  }

  lemma {:induction false} NoRoomTwoHop(ns: seq<RegNode>, n: RegNode)
    ensures NoRoom(ns, n) ==> n.hop.TwoHop?
  {
  }

  /** Registration keeps the flags honest exactly when it does not refuse a two-hop registration of
      a scheduled one-hop node. */
  lemma {:induction false} FlagsHonestIff(ns: seq<RegNode>, gs: seq<Group>, n: RegNode)
    requires Consistent(ns, gs) && WellFormed(n) && FlagsHonest(ns, gs)
    ensures FlagsHonest(AddNode(ns, gs, n).0, AddNode(ns, gs, n).1) <==> !LosesItsPlace(ns, n)
  {
    hide NoRoom;
    var (ns', gs', ok) := AddNode(ns, gs, n);
    RegisterTable(ns, n);
    RegistrySpec.RefusedIff(ns, n);
    NoRoomTwoHop(ns, n);
    forall a ensures IsScheduled(RemoveAll(gs, n.addr), a) <==> IsScheduled(gs, a) && a != n.addr {
      RemoveAllScheduled(ns, gs, n.addr, a);
    }
    if LosesItsPlace(ns, n) {
      assert !FlagHonest(ns', gs', n.addr);
    } else {
      forall a ensures FlagHonest(ns', gs', a) {
        assert FlagHonest(ns, gs, a);
        if n.hop.OneHop? && a != n.addr { assert SameRow(Lookup(ns', a), Lookup(ns, a)); }
      }
    }
  }

  lemma {:induction false} PlaceFirst(tot: nat, e: Entry)
    ensures PlaceOne([Init(tot)], e) == ([Add(Init(tot), e.(start := 1))], true)
    ensures Add(Init(tot), e.(start := 1)).entries == [e.(start := 1)]
  {
    var g := Add(Init(tot), e.(start := 1));
    assert [e.(start := 1)] + [] == [e.(start := 1)];
    assert RemoveAll([Init(tot)], e.addr) == [Init(tot)];
    assert [Init(tot)][0 := g] == [g];
  }

  /** One one-hop node of class 0 in a network of one group, before and after it is scheduled. */
  lemma {:induction false} OneNodeScheduled(n: RegNode, g: Group)
    requires n == NewNode(5, 0, OneHop, 0)
    requires PlaceOne([Init(64)], Job(n, DIST_DC)) == ([g], true)
    ensures AddNode([], [Init(64)], n) == ([n], [Init(64)], true)
    ensures ScheduleFrom([n], [Init(64)], 0, DIST_DC) == ([n.(flag := true, connected := true)], [g], 1)
  {
    var m := n.(flag := true, connected := true);
    assert [n] + [] == [n];
    assert [n][0 := m] == [m];
    assert n.kids[1..] == [NO_CHILD];
    assert MarkScheduled([n], 0) == [m];
    assert ScheduleFrom([m], [g], 1, DIST_DC) == ([m], [g], 0);
  }

  /** A concrete run into that state: node 5 registers one-hop, is scheduled, and then registers as
      a two-hop node of the unknown parent 9.  Scheduling again does not bring it back. */
  lemma {:induction false} LostPlaceExample()
    ensures var (ns, gs, _) := AddNode([], [Init(64)], NewNode(5, 0, OneHop, 0));
            var (ns1, gs1, _) := ScheduleFrom(ns, gs, 0, DIST_DC);
            var (ns2, gs2, ok) := AddNode(ns1, gs1, NewNode(5, 0, TwoHop, 9));
            && !ok
            && |ns2| == 1 && ns2[0].hop.OneHop? && ns2[0].flag
            && gs2[0].entries == []
            && ScheduleFrom(ns2, gs2, 0, DIST_DC) == (ns2, gs2, 0)
  {
    var n := NewNode(5, 0, OneHop, 0);
    var e := Job(n, DIST_DC);
    var g := Add(Init(64), e.(start := 1));
    PlaceFirst(64, e);
    OneNodeScheduled(n, g);
    LostPlaceStep(n.(flag := true, connected := true), g);
  }

  lemma {:induction false} LostPlaceStep(m: RegNode, g: Group)
    requires m.addr == 5 && m.hop.OneHop? && m.flag && g.entries == [Entry(5, 0, 1, 1, DIST_DC)]
    ensures AddNode([m], [g], NewNode(5, 0, TwoHop, 9)) == ([m], [Remove(g, 5)], false)
    ensures Remove(g, 5).entries == []
    ensures ScheduleFrom([m], [Remove(g, 5)], 0, DIST_DC) == ([m], [Remove(g, 5)], 0)
  {
    assert RemoveAll([g], 5) == [Remove(g, 5)];
    assert RegisterTwoHop([m], NewNode(5, 0, TwoHop, 9)) == ([m], false);
  }
}
