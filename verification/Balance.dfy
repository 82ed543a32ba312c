/**
  * How well schedule() fills the groups when it starts from cleared ones: it refuses a node only
  * when no group has room, keeps the loads close together, and wastes no slot at all when the
  * demands are powers of two in non-increasing order.
  */
module Balance {
  import opened SlotSpec
  import opened RegistrySpec
  import opened ServerSpec
  import opened Greedy

  // ---------------------------------------------------------------- schedule() as a job queue

  /** The nodes schedule() will try, in registry order. */
  function Jobs(ns: seq<RegNode>, dist: nat): seq<Entry> {
    if ns == [] then [] else (if Wants(ns[0]) then [Job(ns[0], dist)] else []) + Jobs(ns[1..], dist)
  }

  datatype Outcome = Outcome(groups: seq<Group>, placed: seq<Entry>, refused: seq<Entry>)

  function PlaceAll(gs: seq<Group>, jobs: seq<Entry>): (o: Outcome)
    requires gs != []
    ensures |o.groups| == |gs|
    decreases |jobs|
  {
    if jobs == [] then Outcome(gs, [], []) else
    var (gs1, ok) := PlaceOne(gs, jobs[0]);
    var o := PlaceAll(gs1, jobs[1..]);
    if ok then o.(placed := [jobs[0]] + o.placed) else o.(refused := [jobs[0]] + o.refused)
  }

  lemma {:induction false} JobsOfMarked(r: seq<RegNode>, ns: seq<RegNode>, dist: nat)
    requires SameButConnected(r, ns)
    ensures Jobs(r, dist) == Jobs(ns, dist)
  {
    if ns != [] {
      assert SameButConnected(r[1..], ns[1..]);
      JobsOfMarked(r[1..], ns[1..], dist);
    }
  }

  lemma {:induction false} SameTail(r: seq<RegNode>, ns: seq<RegNode>, i: nat)
    requires |r| == |ns| && i <= |ns|
    requires forall j | i <= j < |ns| :: r[j] == ns[j].(connected := r[j].connected)
    ensures SameButConnected(r[i..], ns[i..])
  {
  }

  /** The jobs behind position i do not depend on what happened to the nodes before them. */
  lemma {:induction false} JobsAhead(ns: seq<RegNode>, i: nat, dist: nat)
    requires i < |ns|
    ensures Jobs(ns[i..], dist) == (if Wants(ns[i]) then [Job(ns[i], dist)] else []) + Jobs(ns[i + 1..], dist)
    ensures |MarkScheduled(ns, i)| == |ns|
    ensures Jobs(MarkScheduled(ns, i)[i + 1..], dist) == Jobs(ns[i + 1..], dist)
  {
    assert ns[i..][0] == ns[i] && ns[i..][1..] == ns[i + 1..];
    MarkScheduledMarks(ns, i);
    SameTail(MarkScheduled(ns, i), ns, i + 1);
    JobsOfMarked(MarkScheduled(ns, i)[i + 1..], ns[i + 1..], dist);
  }

  /** schedule() walks the registry while it changes it, yet what it does to the groups depends only
      on the queue of jobs it saw at the start. */
  lemma {:induction false} ScheduleIsPlaceAll(ns: seq<RegNode>, gs: seq<Group>, i: nat, dist: nat)
    requires gs != [] && i <= |ns|
    ensures ScheduleFrom(ns, gs, i, dist).1 == PlaceAll(gs, Jobs(ns[i..], dist)).groups
    ensures ScheduleFrom(ns, gs, i, dist).2 == |Jobs(ns[i..], dist)|
    decreases |ns| - i
  {
    hide PlaceOne, MarkScheduled;
    if i < |ns| {
      JobsAhead(ns, i, dist);
      var jobs, rest := Jobs(ns[i..], dist), Jobs(ns[i + 1..], dist);
      if !Wants(ns[i]) {
        assert jobs == rest;
        ScheduleIsPlaceAll(ns, gs, i + 1, dist);
      } else {
        assert jobs[0] == Job(ns[i], dist) && jobs[1..] == rest;
        var (gs1, ok) := PlaceOne(gs, jobs[0]);
        ScheduleIsPlaceAll(if ok then MarkScheduled(ns, i) else ns, gs1, i + 1, dist);
      }
    }
  }

  /** schedule() changes nothing in the registry but flags and connection marks, and leaves the
      nodes before its starting point their flags. */
  lemma {:induction false} ScheduleMarks(ns: seq<RegNode>, gs: seq<Group>, i: nat, dist: nat)
    requires gs != [] && i <= |ns|
    ensures var r := ScheduleFrom(ns, gs, i, dist).0;
            && |r| == |ns|
            && (forall j | 0 <= j < |ns| :: r[j] == ns[j].(connected := r[j].connected, flag := r[j].flag))
            && (forall j | 0 <= j < i :: r[j].flag == ns[j].flag)
    decreases |ns| - i
  {
    hide PlaceOne, MarkScheduled, Wants;
    if i < |ns| {
      var (gs1, ok) := PlaceOne(gs, Job(ns[i], dist));
      MarkScheduledMarks(ns, i);
      ScheduleMarks(ns, gs, i + 1, dist);
      ScheduleMarks(ns, gs1, i + 1, dist);
      ScheduleMarks(MarkScheduled(ns, i), gs1, i + 1, dist);
    }
  }

  /** The registry after schedule() records the outcome of the queue: the jobs of the nodes that
      still want a place were refused, the others were placed. */
  ghost predicate Verdict(r: seq<RegNode>, ns: seq<RegNode>, i: nat, dist: nat, o: Outcome)
    requires |r| == |ns|
  {
    && (forall j | i <= j < |ns| && Wants(r[j]) :: Job(ns[j], dist) in o.refused)
    && (forall e | e in o.refused :: exists j :: i <= j < |ns| && Wants(r[j]) && e == Job(ns[j], dist))
    && (forall e | e in o.placed :: exists j :: i <= j < |ns| && r[j].hop.OneHop? && r[j].flag && e == Job(ns[j], dist))
  }

  lemma {:induction false} ScheduleVerdict(ns: seq<RegNode>, gs: seq<Group>, i: nat, dist: nat)
    requires gs != [] && i <= |ns|
    ensures |ScheduleFrom(ns, gs, i, dist).0| == |ns|
    ensures Verdict(ScheduleFrom(ns, gs, i, dist).0, ns, i, dist, PlaceAll(gs, Jobs(ns[i..], dist)))
    decreases |ns| - i
  {
    ScheduleMarks(ns, gs, i, dist);
    if i < |ns| {
      JobsAhead(ns, i, dist);
      var jobs, rest := Jobs(ns[i..], dist), Jobs(ns[i + 1..], dist);
      if !Wants(ns[i]) {
        assert jobs == rest;
        ScheduleVerdict(ns, gs, i + 1, dist);
        ScheduleMarks(ns, gs, i + 1, dist);
        var r := ScheduleFrom(ns, gs, i, dist).0;
        assert r[i].flag == ns[i].flag;
      } else {
        assert jobs[0] == Job(ns[i], dist) && jobs[1..] == rest;
        var (gs1, ok) := PlaceOne(gs, jobs[0]);
        var ns' := if ok then MarkScheduled(ns, i) else ns;
        MarkScheduledMarks(ns, i);
        ScheduleVerdict(ns', gs1, i + 1, dist);
        ScheduleMarks(ns', gs1, i + 1, dist);
        VerdictStep(ScheduleFrom(ns', gs1, i + 1, dist).0, ns', ns, i, dist, PlaceAll(gs1, rest), ok);
      }
    }
  }

  lemma {:induction false} VerdictStep(r: seq<RegNode>, ns': seq<RegNode>, ns: seq<RegNode>, i: nat, dist: nat, o: Outcome, ok: bool)
    requires |r| == |ns'| == |ns| && i < |ns| && Verdict(r, ns', i + 1, dist, o)
    requires forall j | i < j < |ns| :: Job(ns'[j], dist) == Job(ns[j], dist)
    requires r[i].hop.OneHop? && r[i].flag == ok
    ensures Verdict(r, ns, i, dist,
                    if ok then o.(placed := [Job(ns[i], dist)] + o.placed) else o.(refused := [Job(ns[i], dist)] + o.refused))
  {
  }

  // ---------------------------------------------------------------- level groups

  /** A group of `tot` slots filled without gaps from slot 1. */
  ghost predicate LevelGroup(g: Group, tot: nat) {
    g.tot == tot < U16 - 1 && Gapless(g.entries) && CountersOk(g) && g.asg <= tot
  }

  ghost predicate Level(gs: seq<Group>, tot: nat) {
    gs != [] ==> LevelGroup(gs[0], tot) && Level(gs[1..], tot)
  }

  lemma {:induction false} LevelAt(gs: seq<Group>, k: nat, tot: nat)
    requires Level(gs, tot) && k < |gs|
    ensures LevelGroup(gs[k], tot)
  {
    if k > 0 { LevelAt(gs[1..], k - 1, tot); }
  }

  lemma {:induction false} LevelUpdate(gs: seq<Group>, k: nat, g: Group, tot: nat)
    requires Level(gs, tot) && k < |gs| && LevelGroup(g, tot)
    ensures Level(gs[k := g], tot)
  {
    if k == 0 {
      assert gs[0 := g][1..] == gs[1..];
    } else {
      assert gs[k := g][1..] == gs[1..][k - 1 := g];
      LevelUpdate(gs[1..], k - 1, g, tot);
    }
  }

  ghost predicate Unscheduled(gs: seq<Group>, addr: nat) {
    forall k | 0 <= k < |gs| :: addr !in AddrSet(gs[k].entries)
  }

  lemma {:induction false} RemoveNew(gs: seq<Group>, addr: nat)
    requires Unscheduled(gs, addr)
    ensures RemoveAll(gs, addr) == gs
  {
    forall j | 0 <= j < |gs| ensures Remove(gs[j], addr) == gs[j] { UnscheduledIsOut(gs[j], addr); }
  }

  /** On a level group a node is refused exactly when it does not fit behind the last one. */
  lemma {:induction false} LevelSchedule(g: Group, e: Entry, tot: nat)
    requires LevelGroup(g, tot) && e.dist > 0 && 1 <= e.demand <= tot
    ensures var (r, ok) := ScheduleOne(g, e);
            && LevelGroup(r, tot)
            && (ok <==> g.asg + e.demand <= tot)
            && (ok ==> r.asg == g.asg + e.demand && r.entries == g.entries + [e.(start := g.asg + 1)])
            && (ok ==> AddrSet(r.entries) == AddrSet(g.entries) + {e.addr})
            && (!ok ==> r == g)
  {
    GaplessSchedule(g, e);
    PlacedCounters(g, e);
  }

  // ---------------------------------------------------------------- every job queue

  /** Distinct new nodes with demands that a group can hold at all. */
  ghost predicate Ready(gs: seq<Group>, jobs: seq<Entry>, tot: nat) {
    && gs != []
    && Level(gs, tot)
    && UniqueAddrs(jobs)
    && forall e | e in jobs :: e.dist > 0 && 1 <= e.demand <= tot && Unscheduled(gs, e.addr)
  }

  function Demands(es: seq<Entry>): seq<nat> {
    if es == [] then [] else [es[0].demand] + Demands(es[1..])
  }

  /** One step of Greedy: the demand d goes to the lowest load or is refused. */
  ghost predicate Deals(loads: seq<int>, d: nat, tot: nat, next: seq<int>, ok: bool) {
    && loads != []
    && (ok <==> loads[Lowest(loads)] + d <= tot)
    && next == if ok then loads[Lowest(loads) := loads[Lowest(loads)] + d] else loads
  }

  lemma {:induction false} StillUnscheduled(gs: seq<Group>, k: nat, g: Group, added: nat, a: nat)
    requires k < |gs| && Unscheduled(gs, a) && a != added
    requires AddrSet(g.entries) <= AddrSet(gs[k].entries) + {added}
    ensures Unscheduled(gs[k := g], a)
  {
  }

  /** One round of schedule() deals out one demand. */
  lemma {:induction false} PlaceOneDeals(gs: seq<Group>, e: Entry, tot: nat)
    requires gs != [] && Level(gs, tot) && Unscheduled(gs, e.addr) && e.dist > 0 && 1 <= e.demand <= tot
    ensures var (r, ok) := PlaceOne(gs, e);
            && Level(r, tot)
            && Deals(Loads(gs), e.demand, tot, Loads(r), ok)
            && forall a | a != e.addr && Unscheduled(gs, a) :: Unscheduled(r, a)
  {
    hide Level, LevelGroup, Deals, Loads, LowestLoad, ScheduleOne, RemoveAll, AddrSet;
    var k := LowestLoad(gs);
    RemoveNew(gs, e.addr);
    LevelAt(gs, k, tot);
    var (g, ok) := ScheduleOne(gs[k], e);
    LevelSchedule(gs[k], e, tot);
    DealsUpdate(gs, g, e.demand, tot, ok);
    LevelUpdate(gs, k, g, tot);
    forall a | a != e.addr && Unscheduled(gs, a) ensures Unscheduled(gs[k := g], a) {
      StillUnscheduled(gs, k, g, e.addr, a);
    }
  }

  lemma {:induction false} DealsUpdate(gs: seq<Group>, g: Group, d: nat, tot: nat, ok: bool)
    requires gs != [] && (ok <==> gs[LowestLoad(gs)].asg + d <= tot)
    requires g.asg == gs[LowestLoad(gs)].asg + (if ok then d else 0)
    ensures Deals(Loads(gs), d, tot, Loads(gs[LowestLoad(gs) := g]), ok)
  {
    var k, r := LowestLoad(gs), gs[LowestLoad(gs) := g];
    var loads := Loads(gs);
    assert k == Lowest(loads);
    assert forall j | 0 <= j < |gs| :: Loads(r)[j] == if j == k then g.asg else loads[j];
    assert loads[k] == gs[k].asg;
    assert Loads(r) == if ok then loads[k := loads[k] + d] else loads;
  }

  lemma {:induction false} ReadyStep(gs: seq<Group>, jobs: seq<Entry>, tot: nat)
    requires Ready(gs, jobs, tot) && jobs != []
    ensures Ready(PlaceOne(gs, jobs[0]).0, jobs[1..], tot)
  {
    hide Level, Deals, PlaceOne, AddrSet, UniqueAddrs, Unscheduled;
    var e, rest := jobs[0], jobs[1..];
    PlaceOneDeals(gs, e, tot);
    assert jobs == [e] + rest;
    UniqueCons(e, rest);
    forall x | x in rest
      ensures x in jobs && x.addr != e.addr
    {
      InAddrSet(rest, x);
    }
  }

  lemma {:induction false} InAddrSet(es: seq<Entry>, x: Entry)
    requires x in es
    ensures x.addr in AddrSet(es)
  {
  }

  /** An outcome of the job queue that says the same as a dealing out of demands. */
  ghost predicate Matches(o: Outcome, f: Filled) {
    Loads(o.groups) == f.loads && Demands(o.placed) == f.placed && Demands(o.refused) == f.refused
  }

  lemma {:induction false} MatchesStep(e: Entry, o: Outcome, f: Filled)
    requires Matches(o, f)
    ensures Matches(o.(placed := [e] + o.placed), f.(placed := [e.demand] + f.placed))
    ensures Matches(o.(refused := [e] + o.refused), f.(refused := [e.demand] + f.refused))
  {
    assert ([e] + o.placed)[1..] == o.placed && ([e] + o.refused)[1..] == o.refused;
  }

  /** The whole run of schedule() over level groups is the dealing out of demands in Greedy. */
  lemma {:induction false} RunDeals(gs: seq<Group>, jobs: seq<Entry>, tot: nat)
    requires Ready(gs, jobs, tot)
    ensures Matches(PlaceAll(gs, jobs), Fill(Loads(gs), Demands(jobs), tot))
    ensures Level(PlaceAll(gs, jobs).groups, tot)
    decreases |jobs|
  {
    if jobs != [] {
      var e, rest := jobs[0], jobs[1..];
      var (gs1, ok) := PlaceOne(gs, e);
      assert e in jobs;
      PlaceOneDeals(gs, e, tot);
      ReadyStep(gs, jobs, tot);
      RunDeals(gs1, rest, tot);
      MatchesStep(e, PlaceAll(gs1, rest), Fill(Loads(gs1), Demands(rest), tot));
      DealStep(Loads(gs), e.demand, Demands(rest), tot, Loads(gs1), ok);
    }
  }

  lemma {:induction false} DealStep(loads: seq<int>, d: nat, ds: seq<nat>, tot: nat, next: seq<int>, ok: bool)
    requires Deals(loads, d, tot, next, ok)
    ensures var f := Fill(next, ds, tot);
            Fill(loads, [d] + ds, tot) == if ok then f.(placed := [d] + f.placed) else f.(refused := [d] + f.refused)
  {
    assert ([d] + ds)[1..] == ds;
  }

  // ---------------------------------------------------------------- the distribution phase

  /** Every one-hop node asks for between one slot and a whole group. */
  ghost predicate DemandsFit(ns: seq<RegNode>, tot: nat) {
    forall i | 0 <= i < |ns| && ns[i].hop.OneHop? :: 1 <= ns[i].demand <= tot
  }

  lemma {:induction false} JobsOfRegistry(ns: seq<RegNode>, dist: nat, tot: nat)
    requires DistinctAddrs(ns) && DemandsFit(ns, tot)
    ensures UniqueAddrs(Jobs(ns, dist))
    ensures forall e | e in Jobs(ns, dist) :: Lookup(ns, e.addr).Some? && e.dist == dist && 1 <= e.demand <= tot
  {
    if ns != [] {
      assert ns[0].hop.OneHop? ==> 1 <= ns[0].demand <= tot;
      JobsOfRegistry(ns[1..], dist, tot);
      UniqueCons(Job(ns[0], dist), Jobs(ns[1..], dist));
    }
  }

  lemma {:induction false} LevelCleared(gs: seq<Group>, tot: nat)
    requires tot < U16 - 1 && forall k | 0 <= k < |gs| :: gs[k].tot == tot
    ensures Level(ClearAll(gs), tot)
  {
    if gs != [] {
      LevelCleared(gs[1..], tot);
      assert ClearAll(gs)[1..] == ClearAll(gs[1..]);
    }
  }

  lemma {:induction false} DistributionReady(ns: seq<RegNode>, gs: seq<Group>, tot: nat)
    requires gs != [] && tot < U16 - 1 && forall k | 0 <= k < |gs| :: gs[k].tot == tot
    requires DistinctAddrs(ns) && DemandsFit(ns, tot)
    ensures Ready(ClearAll(gs), Jobs(ClearFlags(ns, false), DIST_SD), tot)
  {
    var c := ClearFlags(ns, false);
    MarkedLookup(c, ns, 0);
    assert DemandsFit(c, tot);
    JobsOfRegistry(c, DIST_SD, tot);
    LevelCleared(gs, tot);
  }

  lemma {:induction false} DemandsMember(es: seq<Entry>, d: nat)
    ensures d in Demands(es) <==> exists e :: e in es && e.demand == d
  {
    if es != [] {
      DemandsMember(es[1..], d);
      assert es == [es[0]] + es[1..];
    }
  }

  function Queue(ns: seq<RegNode>): seq<Entry> {
    Jobs(ClearFlags(ns, false), DIST_SD)
  }

  /** The distribution phase as a run of Greedy from empty loads. */
  lemma {:induction false} DistributionDeals(ns: seq<RegNode>, gs: seq<Group>, tot: nat)
    requires gs != [] && tot < U16 - 1 && forall k | 0 <= k < |gs| :: gs[k].tot == tot
    requires DistinctAddrs(ns) && DemandsFit(ns, tot)
    ensures var (r, gs', _) := Distribute(ns, gs);
            var o := PlaceAll(ClearAll(gs), Queue(ns));
            && |r| == |ns| && gs' == o.groups
            && Level(gs', tot)
            && Matches(o, Fill(Loads(ClearAll(gs)), Demands(Queue(ns)), tot))
            && Verdict(r, ns, 0, DIST_SD, o)
            && forall j | 0 <= j < |r| :: r[j].hop == ns[j].hop && r[j].demand == ns[j].demand
  {
    hide PlaceAll, Fill, Level;
    var c, empty := ClearFlags(ns, false), ClearAll(gs);
    assert c[0..] == c;
    DistributionReady(ns, gs, tot);
    RunDeals(empty, Queue(ns), tot);
    ScheduleIsPlaceAll(c, empty, 0, DIST_SD);
    ScheduleVerdict(c, empty, 0, DIST_SD);
    ScheduleMarks(c, empty, 0, DIST_SD);
  }

  /** The schedule of the distribution phase, for arbitrary demands: the groups are packed without
      gaps; a one-hop node is left without a place only when no group has enough slots left for it;
      and the loads differ by at most the largest demand that was scheduled. */
  lemma {:induction false} GreedyDistribution(ns: seq<RegNode>, gs: seq<Group>, tot: nat, d: nat)
    requires gs != [] && tot < U16 - 1 && forall k | 0 <= k < |gs| :: gs[k].tot == tot
    requires DistinctAddrs(ns) && DemandsFit(ns, tot)
    ensures var (r, gs', _) := Distribute(ns, gs);
            && |r| == |ns|
            && Level(gs', tot)
            && (forall j | 0 <= j < |r| && r[j].hop.OneHop? && !r[j].flag :: !HasRoom(Loads(gs'), tot, r[j].demand))
            && ((forall j | 0 <= j < |r| && r[j].hop.OneHop? && r[j].flag :: r[j].demand <= d) ==> Spread(Loads(gs'), d))
  {
    hide PlaceAll, Fill, Level, Jobs;
    var r, o := Distribute(ns, gs).0, PlaceAll(ClearAll(gs), Queue(ns));
    DistributionDeals(ns, gs, tot);
    forall j | 0 <= j < |r| && r[j].hop.OneHop? && !r[j].flag ensures !HasRoom(Loads(o.groups), tot, r[j].demand) {
      assert Wants(r[j]) && Job(ns[j], DIST_SD) in o.refused;
      DemandsMember(o.refused, ns[j].demand);
      RefusedHasNoRoom(Loads(ClearAll(gs)), Demands(Queue(ns)), tot, ns[j].demand);
    }
    if forall j | 0 <= j < |r| && r[j].hop.OneHop? && r[j].flag :: r[j].demand <= d {
      forall x | x in Demands(o.placed) ensures x <= d { DemandsMember(o.placed, x); }
      FillSpread(Loads(ClearAll(gs)), Demands(Queue(ns)), tot, d);
    }
  }

  // ---------------------------------------------------------------- powers of two

  lemma {:induction false} PowerSplit(a: nat, b: nat)
    requires a <= b
    ensures Pow2(b) == Pow2(b - a) * Pow2(a)
  {
    if a > 0 {
      PowerSplit(a - 1, b - 1);
      assert Pow2(b) == 2 * (Pow2(b - a) * Pow2(a - 1));
    }
  }

  lemma {:induction false} PowerOrder(a: nat, b: nat)
    ensures Pow2(a) <= Pow2(b) <==> a <= b
  {
    if a > 0 && b > 0 { PowerOrder(a - 1, b - 1); }
  }

  ghost predicate IsPower(d: nat) {
    exists c: nat :: d == Pow2(c)
  }

  /** The one-hop nodes stand in non-increasing order of demand, and every demand is a power of two
      that a group can hold. */
  ghost predicate SortedPowers(ns: seq<RegNode>, tot: nat) {
    && (forall i | 0 <= i < |ns| && ns[i].hop.OneHop? :: IsPower(ns[i].demand) && ns[i].demand <= tot)
    && (forall i, j | 0 <= i < j < |ns| && ns[i].hop.OneHop? && ns[j].hop.OneHop? :: ns[i].demand >= ns[j].demand)
  }

  lemma {:induction false} JobsChain(ns: seq<RegNode>, dist: nat, tot: nat)
    requires SortedPowers(ns, tot) && IsPower(tot)
    ensures Chain(Demands(Jobs(ns, dist)), tot)
    ensures forall d | d in Demands(Jobs(ns, dist)) ::
              d >= 1 && exists i :: 0 <= i < |ns| && ns[i].hop.OneHop? && ns[i].demand == d
  {
    if ns != [] {
      var rest := ns[1..];
      assert SortedPowers(rest, tot) by {
        assert forall i | 0 <= i < |rest| :: rest[i] == ns[i + 1];
      }
      JobsChain(rest, dist, tot);
      var ds := Demands(Jobs(rest, dist));
      forall x | x in ds ensures exists i :: 0 < i < |ns| && ns[i].hop.OneHop? && ns[i].demand == x {
        var i :| 0 <= i < |rest| && rest[i].hop.OneHop? && rest[i].demand == x;
        assert ns[i + 1].demand == x;
      }
      if Wants(ns[0]) {
        assert Jobs(ns, dist)[1..] == Jobs(rest, dist);
        assert Demands(Jobs(ns, dist)) == [ns[0].demand] + ds;
        assert ([ns[0].demand] + ds)[1..] == ds;
        PowersInOrder(ns[0].demand, tot);
        forall x | x in ds ensures Divides(x, ns[0].demand) { PowersInOrder(x, ns[0].demand); }
      } else {
        assert Jobs(ns, dist) == Jobs(rest, dist);
      }
    }
  }

  lemma {:induction false} PowersInOrder(x: nat, y: nat)
    requires IsPower(x) && IsPower(y) && x <= y
    ensures x >= 1 && Divides(x, y)
  {
    var a: nat :| x == Pow2(a);
    var b: nat :| y == Pow2(b);
    PowerOrder(a, b);
    PowerSplit(a, b);
    assert Times(Pow2(b - a), x) == y;
  }

  function OneHopDemand(ns: seq<RegNode>): nat {
    if ns == [] then 0 else (if ns[0].hop.OneHop? then ns[0].demand else 0) + OneHopDemand(ns[1..])
  }

  lemma {:induction false} JobsDemand(ns: seq<RegNode>, dist: nat)
    ensures Sum(Demands(Jobs(ClearFlags(ns, false), dist))) == OneHopDemand(ns)
  {
    if ns != [] {
      var c := ClearFlags(ns, false);
      assert c[1..] == ClearFlags(ns[1..], false);
      JobsDemand(ns[1..], dist);
      if ns[0].hop.OneHop? {
        assert Jobs(c, dist)[1..] == Jobs(c[1..], dist);
        SumCons(ns[0].demand, Demands(Jobs(c[1..], dist)));
      } else {
        assert Jobs(c, dist) == Jobs(c[1..], dist);
      }
    }
  }

  /** Perfect utilisation: with power-of-two demands in non-increasing order the distribution phase
      finds a place for every one-hop node exactly when their total demand does not exceed the slots
      of all groups, and it fills the groups completely before it refuses anybody. */
  lemma {:induction false} PerfectUtilisation(ns: seq<RegNode>, gs: seq<Group>, n: nat)
    requires gs != [] && Pow2(n) < U16 - 1 && forall k | 0 <= k < |gs| :: gs[k].tot == Pow2(n)
    requires DistinctAddrs(ns) && SortedPowers(ns, Pow2(n))
    ensures var (r, gs', _) := Distribute(ns, gs);
            && |r| == |ns|
            && Sum(Loads(gs')) == Min(OneHopDemand(ns), |gs| * Pow2(n))
            && ((forall j | 0 <= j < |r| && r[j].hop.OneHop? :: r[j].flag) <==> OneHopDemand(ns) <= |gs| * Pow2(n))
  {
    var tot, empty := Pow2(n), Loads(ClearAll(gs));
    var r, o := Distribute(ns, gs).0, PlaceAll(ClearAll(gs), Queue(ns));
    assert IsPower(tot) && SortedPowers(ClearFlags(ns, false), tot);
    forall i | 0 <= i < |ns| && ns[i].hop.OneHop? ensures 1 <= ns[i].demand <= tot { PowersInOrder(ns[i].demand, tot); }
    DistributionDeals(ns, gs, tot);
    JobsChain(ClearFlags(ns, false), DIST_SD, tot);
    JobsDemand(ns, DIST_SD);
    ChainFills(empty, Demands(Queue(ns)), tot);
    NobodyWants(r, ns, o);
  }

  lemma {:induction false} NobodyWants(r: seq<RegNode>, ns: seq<RegNode>, o: Outcome)
    requires |r| == |ns| && Verdict(r, ns, 0, DIST_SD, o)
    ensures Demands(o.refused) == [] <==> forall j | 0 <= j < |r| && r[j].hop.OneHop? :: r[j].flag
  {
    if o.refused == [] {
      assert forall j | 0 <= j < |r| :: !Wants(r[j]);
    } else {
      assert o.refused[0] in o.refused;
    }
  }

  // ---------------------------------------------------------------- a network of one-hop nodes

  function RegisterAll(ns: seq<RegNode>, news: seq<RegNode>): seq<RegNode>
    decreases |news|
  {
    if news == [] then ns else RegisterAll(Register(ns, news[0]).0, news[1..])
  }

  /** One-hop registrations under distinct addresses that are new to ns. */
  ghost predicate Newcomers(ns: seq<RegNode>, news: seq<RegNode>, n: nat) {
    news != [] ==>
    && WellFormed(news[0]) && news[0].hop.OneHop? && news[0].cls <= n
    && FindNode(ns, news[0].addr) == |ns|
    && FindNode(news[1..], news[0].addr) == |news[1..]|
    && Newcomers(ns, news[1..], n)
  }

  lemma {:induction false} NewcomersStay(r: seq<RegNode>, ns: seq<RegNode>, m: RegNode, news: seq<RegNode>, n: nat)
    requires Newcomers(ns, news, n) && FindNode(news, m.addr) == |news|
    requires forall a | a != m.addr && FindNode(ns, a) == |ns| :: FindNode(r, a) == |r|
    ensures Newcomers(r, news, n)
  {
    if news != [] {
      assert news[0].addr != m.addr;
      NewcomersStay(r, ns, m, news[1..], n);
    }
  }

  ghost predicate OrderedPowers(ns: seq<RegNode>, n: nat) {
    && DistinctAddrs(ns) && NonIncreasing(ns)
    && forall i | 0 <= i < |ns| :: IsPower(ns[i].demand) && ns[i].demand <= Pow2(n)
  }

  /** A new one-hop node goes into the registry behind its equals. */
  lemma {:induction false} RegisterInserts(ns: seq<RegNode>, m: RegNode) returns (k: nat)
    requires DistinctAddrs(ns) && NonIncreasing(ns) && m.hop.OneHop? && FindNode(ns, m.addr) == |ns|
    ensures k <= |ns| && Register(ns, m).0 == ns[..k] + [m] + ns[k..]
    ensures NonIncreasing(Register(ns, m).0) && DistinctAddrs(Register(ns, m).0)
  {
    hide InsertByDemand, DistinctAddrs, NonIncreasing;
    PushTable(ns, m, true);
    k := PushKeepsOrder(ns, m);
  }

  lemma {:induction false} RegisterKeepsNew(ns: seq<RegNode>, m: RegNode, a: nat)
    requires m.hop.OneHop? && FindNode(ns, m.addr) == |ns| && a != m.addr && FindNode(ns, a) == |ns|
    ensures FindNode(Register(ns, m).0, a) == |Register(ns, m).0|
  {
    hide InsertByDemand, DistinctAddrs;
    PushTable(ns, m, true);
    assert Lookup(Register(ns, m).0, a) == Lookup(ns, a);
  }

  lemma {:induction false} RegisterOrdered(ns: seq<RegNode>, m: RegNode, n: nat)
    requires OrderedPowers(ns, n) && n < CLASS_LIMIT
    requires WellFormed(m) && m.hop.OneHop? && m.cls <= n && FindNode(ns, m.addr) == |ns|
    ensures OrderedPowers(Register(ns, m).0, n)
    ensures OneHopDemand(Register(ns, m).0) == OneHopDemand(ns) + m.demand
    ensures forall a | a != m.addr && FindNode(ns, a) == |ns| :: FindNode(Register(ns, m).0, a) == |Register(ns, m).0|
  {
    hide Register, DistinctAddrs, NonIncreasing, FindNode;
    var k := RegisterInserts(ns, m);
    PowerOrder(m.cls, n);
    PowerOrder(m.cls, 7);
    assert m.demand == Pow2(m.cls);
    var r := Register(ns, m).0;
    forall i | 0 <= i < |r| ensures IsPower(r[i].demand) && r[i].demand <= Pow2(n) {
      assert r[i] == if i < k then ns[i] else if i == k then m else ns[i - 1];
    }
    DemandInserted(ns, m, k);
    forall a | a != m.addr && FindNode(ns, a) == |ns| ensures FindNode(r, a) == |r| {
      RegisterKeepsNew(ns, m, a);
    }
  }

  lemma {:induction false} DemandInserted(ns: seq<RegNode>, m: RegNode, k: nat)
    requires k <= |ns| && m.hop.OneHop?
    ensures OneHopDemand(ns[..k] + [m] + ns[k..]) == OneHopDemand(ns) + m.demand
  {
    var r := ns[..k] + [m] + ns[k..];
    if k == 0 {
      assert r[1..] == ns;
    } else {
      assert r[1..] == ns[1..][..k - 1] + [m] + ns[1..][k - 1..];
      DemandInserted(ns[1..], m, k - 1);
    }
  }

  /** Registration alone provides the order that perfect utilisation needs: any number of one-hop
      nodes with distinct addresses, registered in any order, leaves a sorted registry. */
  lemma {:induction false} NewcomersOrdered(ns: seq<RegNode>, news: seq<RegNode>, n: nat)
    requires OrderedPowers(ns, n) && n < CLASS_LIMIT && Newcomers(ns, news, n)
    ensures OrderedPowers(RegisterAll(ns, news), n)
    ensures OneHopDemand(RegisterAll(ns, news)) == OneHopDemand(ns) + OneHopDemand(news)
    decreases |news|
  {
    if news != [] {
      var r := Register(ns, news[0]).0;
      RegisterOrdered(ns, news[0], n);
      NewcomersStay(r, ns, news[0], news[1..], n);
      NewcomersOrdered(r, news[1..], n);
    }
  }

  /** A network of one-hop nodes only, whatever the order of registration: all of them are scheduled
      exactly when their slots fit into the groups. */
  lemma {:induction false} OneHopNetwork(news: seq<RegNode>, gs: seq<Group>, n: nat)
    requires gs != [] && n < CLASS_LIMIT && forall k | 0 <= k < |gs| :: gs[k].tot == Pow2(n)
    requires Newcomers([], news, n)
    ensures var (r, gs', _) := Distribute(RegisterAll([], news), gs);
            && Sum(Loads(gs')) == Min(OneHopDemand(news), |gs| * Pow2(n))
            && ((forall j | 0 <= j < |r| && r[j].hop.OneHop? :: r[j].flag) <==> OneHopDemand(news) <= |gs| * Pow2(n))
  {
    NewcomersOrdered([], news, n);
    PowerOrder(n, 7);
    PerfectUtilisation(RegisterAll([], news), gs, n);
  }
}
