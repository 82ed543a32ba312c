/**
  * What schedule() does to the schedule groups and to the flags, said without its body: where a node is placed, who has a
  * place afterwards, and how many nodes were tried; and the order of the registry that schedule() walks through.
  */
module Placement {
  import opened Wrappers
  import opened SlotSpec
  import opened RegistrySpec
  import opened ServerSpec
  import opened Runs
  import Balance

  // ---------------------------------------------------------------- one node

  /** The first of all free runs for a demand starts at s. */
  ghost predicate FirstFree(es: seq<Entry>, tot: nat, s: nat, demand: nat) {
    FreeRun(es, tot, s, demand) && forall t | 0 <= t < s :: !FreeRun(es, tot, t, demand)
  }

  /** A group that gained the node in its first free run, or had none for it. */
  ghost predicate Gained(after: seq<Entry>, ok: bool, es: seq<Entry>, tot: nat, e: Entry) {
    if ok then
      exists p, s: nat :: 0 <= p <= |es| && after == es[..p] + [e.(start := s)] + es[p..] && FirstFree(es, tot, s, e.demand)
    else after == es && forall s :: !FreeRun(es, tot, s, e.demand)
  }

  /** Group k, the first of those with the fewest slots in use by other nodes, was tried; the node left its old place. */
  ghost predicate Placed(r: seq<Group>, ok: bool, gs: seq<Group>, e: Entry, k: nat) {
    && |r| == |gs| && k < |gs|
    && (forall j | 0 <= j < |gs| :: SumDemand(Without(gs[k].entries, e.addr)) <= SumDemand(Without(gs[j].entries, e.addr)))
    && (forall j | 0 <= j < k :: SumDemand(Without(gs[k].entries, e.addr)) < SumDemand(Without(gs[j].entries, e.addr)))
    && (forall j | 0 <= j < |gs| && j != k :: r[j].entries == Without(gs[j].entries, e.addr))
    && Gained(r[k].entries, ok, Without(gs[k].entries, e.addr), gs[k].tot, e)
  }

  /** One round of schedule(). */
  lemma {:induction false} PlaceOneIs(ns: seq<RegNode>, gs: seq<Group>, tot: nat, e: Entry)
    requires Consistent(ns, gs) && AllGroupsOk(gs, tot) && 1 <= e.demand <= tot
    ensures gs != [] && exists k :: Placed(PlaceOne(gs, e).0, PlaceOne(gs, e).1, gs, e, k)
  {
    hide Consistent, AllGroupsOk, ScheduleOne, Without, UniqueAddrs, CountersOk, Gained, Remove, GroupOk;
    SomeGroup(ns, gs);
    var gs1 := RemoveAll(gs, e.addr);
    var k := LowestLoad(gs1);
    RemoveAllGroupsOk(gs, tot, e.addr);
    forall j | 0 <= j < |gs|
      ensures gs1[j].entries == Without(gs[j].entries, e.addr)
      ensures gs1[j].asg == SumDemand(Without(gs[j].entries, e.addr)) && gs1[j].tot == gs[j].tot
    {
      GroupFacts(ns, gs, j);
      RemoveIsWithout(gs[j], e.addr);
      GroupsOkAt(gs1, tot, j);
      GroupsOkAt(gs, tot, j);
      Assigned(gs1[j]);
    }
    GroupsOkAt(gs1, tot, k);
    GainsOrNot(gs1[k], e);
    assert Placed(PlaceOne(gs, e).0, PlaceOne(gs, e).1, gs, e, k);
  }

  lemma {:induction false} Assigned(g: Group)
    requires GroupOk(g)
    ensures g.asg == SumDemand(g.entries)
  {
  }

  lemma {:induction false} GainsOrNot(g: Group, e: Entry)
    requires GroupOk(g) && 1 <= e.demand <= g.tot
    ensures Gained(ScheduleOne(g, e).0.entries, ScheduleOne(g, e).1, g.entries, g.tot, e)
  {
    hide FreeRun, Packed, Assign, InsertByStart;
    FirstFit(g.entries, g.tot, e.demand);
    var s := Assign(g.entries, g.tot, e.demand);
    if s != 0 {
      var p := InsertSplits(g.entries, e.(start := s));
      assert FirstFree(g.entries, g.tot, s, e.demand);
    }
  }

  /** Afterwards the node has a place if and only if one was found; the others keep theirs. */
  lemma {:induction false} PlaceOneSchedules(ns: seq<RegNode>, gs: seq<Group>, e: Entry, a: nat)
    requires Consistent(ns, gs)
    ensures gs != [] && (IsScheduled(PlaceOne(gs, e).0, a) <==> if a == e.addr then PlaceOne(gs, e).1 else IsScheduled(gs, a))
  {
    hide Consistent, AddrSet, UniqueAddrs, InsertByStart, Assign, Remove, LowestLoad;
    SomeGroup(ns, gs);
    var gs1 := RemoveAll(gs, e.addr);
    var k := LowestLoad(gs1);
    RemoveAllScheduled(ns, gs, e.addr, a);
    var placed := e.(start := Assign(gs1[k].entries, gs1[k].tot, e.demand));
    InsertMembers(gs1[k].entries, placed);
    var r := PlaceOne(gs, e).0;
    assert forall j | 0 <= j < |gs| && j != k :: r[j] == gs1[j];
    if IsScheduled(gs1, a) {
      var j :| 0 <= j < |gs1| && a in AddrSet(gs1[j].entries);
      assert a in AddrSet(r[j].entries);
    }
    if a == e.addr && PlaceOne(gs, e).1 {
      assert a in AddrSet(r[k].entries);
    }
    if IsScheduled(r, a) {
      var j :| 0 <= j < |r| && a in AddrSet(r[j].entries);
      assert j != k ==> a in AddrSet(gs1[j].entries);
      if a != e.addr { assert a in AddrSet(gs1[j].entries); }
    }
  }

  // ---------------------------------------------------------------- a run of schedule()

  /** Flags do not lie, and up to node i they tell exactly who has a place. */
  ghost predicate FlagsTell(ns: seq<RegNode>, gs: seq<Group>, i: nat) {
    forall j | 0 <= j < |ns| && ns[j].hop.OneHop? ::
      && (ns[j].flag ==> IsScheduled(gs, ns[j].addr))
      && (j < i && IsScheduled(gs, ns[j].addr) ==> ns[j].flag)
  }

  lemma {:induction false} RoundTells(ns: seq<RegNode>, gs: seq<Group>, i: nat, dist: nat)
    requires Consistent(ns, gs) && i < |ns| && FlagsTell(ns, gs, i)
    ensures gs != [] && FlagsTell(RoundAt(ns, gs, i, dist).0, RoundAt(ns, gs, i, dist).1, i + 1)
  {
    hide IsScheduled, Consistent, PlaceOne, MarkScheduled;
    SomeGroup(ns, gs);
    if Wants(ns[i]) {
      MarkScheduledMarks(ns, i);
      forall j | 0 <= j < |ns|
        ensures IsScheduled(PlaceOne(gs, Job(ns[i], dist)).0, ns[j].addr)
                <==> if j == i then PlaceOne(gs, Job(ns[i], dist)).1 else IsScheduled(gs, ns[j].addr)
      {
        PlaceOneSchedules(ns, gs, Job(ns[i], dist), ns[j].addr);
        ConsistentAddrs(ns, gs, i, j);
      }
    }
  }

  lemma {:induction false} ConsistentAddrs(ns: seq<RegNode>, gs: seq<Group>, i: nat, j: nat)
    requires Consistent(ns, gs) && i < |ns| && j < |ns|
    ensures ns[i].addr == ns[j].addr <==> i == j
  {
    DistinctAt(ns, i);
    DistinctAt(ns, j);
  }

  lemma {:induction false} RunTells(ns: seq<RegNode>, gs: seq<Group>, i: nat, dist: nat)
    requires Consistent(ns, gs) && i <= |ns| && FlagsTell(ns, gs, i) && 0 < dist <= DIST_DC
    ensures gs != [] && FlagsTell(ScheduleFrom(ns, gs, i, dist).0, ScheduleFrom(ns, gs, i, dist).1, |ns|)
    decreases |ns| - i
  {
    hide FlagsTell, Consistent, ScheduleFrom;
    SomeGroup(ns, gs);
    if i == |ns| {
      NothingTried(ns, gs, i, dist);
    } else {
      ScheduleRound(ns, gs, i, dist);
      RoundKeeps(ns, gs, i, dist);
      RoundTells(ns, gs, i, dist);
      RunTells(RoundAt(ns, gs, i, dist).0, RoundAt(ns, gs, i, dist).1, i + 1, dist);
    }
  }

  lemma {:induction false} NothingTried(ns: seq<RegNode>, gs: seq<Group>, i: nat, dist: nat)
    requires gs != [] && i >= |ns|
    ensures ScheduleFrom(ns, gs, i, dist) == (ns, gs, 0)
  {
  }

  lemma {:induction false} HonestTells(ns: seq<RegNode>, gs: seq<Group>)
    requires DistinctAddrs(ns)
    ensures FlagsHonest(ns, gs) <==> FlagsTell(ns, gs, 0)
  {
    hide IsScheduled;
    forall j | 0 <= j < |ns| ensures Lookup(ns, ns[j].addr) == Some(ns[j]) {
      DistinctAt(ns, j);
    }
    if FlagsHonest(ns, gs) {
      forall j | 0 <= j < |ns| && ns[j].hop.OneHop? && ns[j].flag ensures IsScheduled(gs, ns[j].addr) {
        assert FlagHonest(ns, gs, ns[j].addr);
      }
    }
    if FlagsTell(ns, gs, 0) {
      forall a ensures FlagHonest(ns, gs, a) {
        if Lookup(ns, a).Some? { assert ns[FindNode(ns, a)] == Lookup(ns, a).value; }
      }
    }
  }

  /** After schedule() the flag of a one-hop node says whether it has a place, when flags did not lie before. */
  lemma {:induction false} FlagsAre(ns: seq<RegNode>, gs: seq<Group>, dist: nat)
    requires Consistent(ns, gs) && FlagsHonest(ns, gs) && 0 < dist <= DIST_DC
    ensures var (r, gs', _) := ScheduleFrom(ns, gs, 0, dist);
            && |r| == |ns|
            && forall j | 0 <= j < |ns| && ns[j].hop.OneHop? :: r[j].flag <==> IsScheduled(gs', ns[j].addr)
  {
    hide IsScheduled, FlagsHonest, ScheduleFrom, UniqueAddrs, CountersOk, GroupBacked, GroupsUnique;
    HonestTells(ns, gs);
    RunTells(ns, gs, 0, dist);
    Balance.ScheduleMarks(ns, gs, 0, dist);
    var r := ScheduleFrom(ns, gs, 0, dist).0;
    assert forall j | 0 <= j < |ns| :: r[j].addr == ns[j].addr && r[j].hop == ns[j].hop;
  }

  /** The nodes from number i on that wait for a place. */
  function Waiting(ns: seq<RegNode>, i: nat): set<nat> {
    set j: nat | i <= j < |ns| && Wants(ns[j])
  }

  lemma {:induction false} WaitingUnfolds(ns: seq<RegNode>, i: nat)
    requires i < |ns|
    ensures |Waiting(ns, i)| == (if Wants(ns[i]) then 1 else 0) + |Waiting(ns, i + 1)|
  {
    hide Wants;
    assert Waiting(ns, i) == (if Wants(ns[i]) then {i} else {}) + Waiting(ns, i + 1);
  }

  lemma {:induction false} WaitingLater(m: seq<RegNode>, ns: seq<RegNode>, i: nat)
    requires |m| == |ns| && forall j | i <= j < |ns| :: Wants(m[j]) == Wants(ns[j])
    ensures Waiting(m, i) == Waiting(ns, i)
  {
    hide Wants;
  }

  lemma {:induction false} CountRound(ns: seq<RegNode>, gs: seq<Group>, i: nat, dist: nat)
    requires gs != [] && i < |ns|
    ensures var (m, gs') := RoundAt(ns, gs, i, dist);
            && |m| == |ns| && gs' != []
            && (forall j | i < j < |ns| :: Wants(m[j]) == Wants(ns[j]))
            && ScheduleFrom(ns, gs, i, dist).2 == (if Wants(ns[i]) then 1 else 0) + ScheduleFrom(m, gs', i + 1, dist).2
  {
    hide PlaceOne, MarkScheduled;
    MarkScheduledMarks(ns, i);
  }

  /** schedule() returns how many nodes waited, whether it found places for them or not. */
  lemma {:induction false} CountIs(ns: seq<RegNode>, gs: seq<Group>, i: nat, dist: nat)
    requires gs != [] && i <= |ns|
    ensures ScheduleFrom(ns, gs, i, dist).2 == |Waiting(ns, i)|
    decreases |ns| - i
  {
    hide PlaceOne, MarkScheduled, ScheduleFrom, RoundAt, Wants;
    if i == |ns| {
      NothingTried(ns, gs, i, dist);
      assert Waiting(ns, i) == {};
    } else {
      var (m, gs') := RoundAt(ns, gs, i, dist);
      CountRound(ns, gs, i, dist);
      CountIs(m, gs', i + 1, dist);
      WaitingLater(m, ns, i + 1);
      WaitingUnfolds(ns, i);
    }
  }

  // ---------------------------------------------------------------- the order of NODES

  lemma {:induction false} MarksKeepOrder(r: seq<RegNode>, ns: seq<RegNode>)
    requires NonIncreasing(ns) && |r| == |ns| && forall j | 0 <= j < |ns| :: r[j].demand == ns[j].demand
    ensures NonIncreasing(r)
  {
  }

  /** NODES stays in the order of falling demand over every step but the absorption of an address that it already holds. */
  lemma {:induction false} StepKeepsOrder(s: State, op: Op)
    requires StateOk(s) && OpOk(op) && NonIncreasing(s.nodes)
    requires op.Absorb? && s.queue != [] ==> Lookup(s.nodes, s.queue[0].addr) == None
    ensures NonIncreasing(Step(s, op).nodes)
  {
    hide NonIncreasing, Register, ScheduleFrom, Push, Lookup, RegistryOk, GroupsUnique, CountersOk, GroupBacked;
    match op
    case Absorb =>
      if s.queue != [] {
        QueueHead(s);
        RegisterKeepsOrder(s.nodes, s.queue[0]);
      }
    case StartPhase =>
      var c := ClearFlags(s.nodes, false);
      MarksKeepOrder(c, s.nodes);
      Balance.ScheduleMarks(c, ClearAll(s.groups), 0, DIST_SD);
      MarksKeepOrder(ScheduleFrom(c, ClearAll(s.groups), 0, DIST_SD).0, c);
    case Schedule =>
      Balance.ScheduleMarks(s.nodes, s.groups, 0, DIST_DC);
      MarksKeepOrder(ScheduleFrom(s.nodes, s.groups, 0, DIST_DC).0, s.nodes);
    case _ =>
  }

  lemma {:induction false} QueueHead(s: State)
    requires StateOk(s) && s.queue != []
    ensures DistinctAddrs(s.nodes) && WellFormed(s.queue[0])
  {
  }
}
