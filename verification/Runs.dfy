/**
  * Runs of the server: registrations arrive at any time, and the phases absorb them, rebuild or
  * extend the schedule and send messages.  The steps may come in any order, which covers the
  * alternation of the phases and the input thread between any two of their steps.
  */
module Runs {
  import opened Wrappers
  import opened SlotSpec
  import opened RegistrySpec
  import opened ServerSpec
  import opened Distribution
  import opened Collection
  import Balance
  import Wire

  /** NODES, RNL and SCHEDULES. */
  datatype State = State(nodes: seq<RegNode>, queue: seq<RegNode>, groups: seq<Group>)

  /** Receive: a registration request enters RNL.  Absorb: the head of RNL moves to NODES.
      StartPhase: the start of a distribution phase.  SlotSm, FrameCm: one message.
      Schedule: the scheduling step of a frame. */
  datatype Op = Receive(n: RegNode) | Absorb | StartPhase | SlotSm | Schedule | FrameCm

  function Step(s: State, op: Op): State
    requires s.groups != []
  {
    match op
    case Receive(n) => s.(queue := Push(s.queue, n, false))
    case Absorb =>
      if s.queue == [] then s else
      var (ns, gs, _) := AddNode(s.nodes, s.groups, s.queue[0]);
      State(ns, s.queue[1..], gs)
    case StartPhase =>
      var (ns, gs, _) := Distribute(s.nodes, s.groups);
      s.(nodes := ns, groups := gs)
    case SlotSm => s.(groups := AfterSm(s.groups))
    case Schedule =>
      var (ns, gs, _) := ScheduleFrom(s.nodes, s.groups, 0, DIST_DC);
      s.(nodes := ns, groups := gs)
    case FrameCm => s.(groups := SendCm(s.groups).groups)
  }

  // ---------------------------------------------------------------- consistency of every run

  ghost predicate QueueOk(q: seq<RegNode>) {
    DistinctAddrs(q) && forall i | 0 <= i < |q| :: WellFormed(q[i])
  }

  ghost predicate StateOk(s: State) {
    Consistent(s.nodes, s.groups) && QueueOk(s.queue)
  }

  predicate OpOk(op: Op) {
    op.Receive? ==> WellFormed(op.n)
  }

  lemma {:induction false} ReceiveKeeps(q: seq<RegNode>, n: RegNode)
    requires QueueOk(q) && WellFormed(n)
    ensures QueueOk(Push(q, n, false))
  {
    PushTable(q, n, false);
  }

  lemma {:induction false} QueueTail(q: seq<RegNode>)
    requires QueueOk(q) && q != []
    ensures QueueOk(q[1..])
  {
  }

  /** RNL is a queue: a new address goes to its end, a known one is updated where it stands, and the head leaves first. */
  lemma {:induction false} QueueIs(s: State, n: RegNode)
    requires StateOk(s)
    ensures s.groups != []
    ensures var q := Step(s, Receive(n)).queue;
            if Lookup(s.queue, n.addr) == None then q == s.queue + [n]
            else |q| == |s.queue| && forall i | 0 <= i < |q| :: q[i] == if s.queue[i].addr == n.addr then n else s.queue[i]
    ensures s.queue != [] ==> s.queue == [s.queue[0]] + Step(s, Absorb).queue
  {
    hide Consistent, AddNode, WellFormed;
    SomeGroup(s.nodes, s.groups);
    forall i | 0 <= i < |s.queue| && s.queue[i].addr == n.addr ensures i == FindNode(s.queue, n.addr) {
      DistinctAt(s.queue, i);
    }
  }

  /** Lowering the countdowns of a stretch of nodes. */
  lemma {:induction false} LoweredQuieter(g: Group, p: nat, n: nat)
    requires UniqueAddrs(g.entries) && p + n <= |g.entries| && CountersOk(g)
    ensures CountersOk(Announce(g, p, n)) && QuieterGroup(Announce(g, p, n), g)
  {
    AnnounceLowers(g, p, n);
  }

  lemma {:induction false} QuieterRefl(gs: seq<Group>)
    requires forall k | 0 <= k < |gs| :: CountersOk(gs[k])
    ensures Quieter(gs, gs)
  {
    if gs != [] {
      assert forall k | 0 <= k < |gs[1..]| :: gs[1..][k] == gs[k + 1];
      QuieterRefl(gs[1..]);
    }
  }

  lemma {:induction false} QuieterOne(gs: seq<Group>, k: nat, g: Group)
    requires k < |gs| && CountersOk(g) && QuieterGroup(g, gs[k])
    requires forall k | 0 <= k < |gs| :: CountersOk(gs[k])
    ensures Quieter(gs[k := g], gs)
  {
    var r, rest := gs[k := g], gs[1..];
    assert forall j | 0 <= j < |rest| :: rest[j] == gs[j + 1];
    if k == 0 {
      assert r[1..] == rest;
      QuieterRefl(rest);
    } else {
      assert r[1..] == rest[k - 1 := g];
      QuieterOne(rest, k - 1, g);
    }
  }

  /** A schedule message, too, only lowers countdowns. */
  lemma {:induction false} SmQuieter(ns: seq<RegNode>, gs: seq<Group>)
    requires Consistent(ns, gs)
    ensures Quieter(AfterSm(gs), gs)
  {
    SmNeverRunsOff(gs);
    if TakeOf(gs).Some? {
      var t := TakeOf(gs).value;
      LoweredQuieter(gs[t.group], t.pos, t.num);
      QuieterOne(gs, t.group, Announce(gs[t.group], t.pos, t.num));
    } else {
      QuieterRefl(gs);
    }
  }

  /** Cross-structure consistency is kept by every step, in any order. */
  lemma {:induction false} StepKeepsOk(s: State, op: Op)
    requires StateOk(s) && OpOk(op)
    ensures StateOk(Step(s, op)) && |Step(s, op).groups| == |s.groups|
  {
    match op
    case Receive(n) => ReceiveKeeps(s.queue, n);
    case Absorb =>
      if s.queue != [] {
        AddNodeKeeps(s.nodes, s.groups, s.queue[0]);
        QueueTail(s.queue);
      }
    case StartPhase =>
      DistributeKeeps(s.nodes, s.groups);
      ScheduleKeepsSize(ClearFlags(s.nodes, false), ClearAll(s.groups), 0, DIST_SD);
    case SlotSm =>
      SmQuieter(s.nodes, s.groups);
      QuieterKeeps(s.nodes, s.groups, AfterSm(s.groups));
    case Schedule =>
      ScheduleKeeps(s.nodes, s.groups, 0, DIST_DC);
      ScheduleKeepsSize(s.nodes, s.groups, 0, DIST_DC);
    case FrameCm =>
      CmKeeps(s.nodes, s.groups);
  }

  /** The state after a run. */
  ghost function Run(s: State, ops: seq<Op>): State
    requires StateOk(s) && forall i | 0 <= i < |ops| :: OpOk(ops[i])
    decreases |ops|
  {
    if ops == [] then s else
    StepKeepsOk(s, ops[0]);
    Run(Step(s, ops[0]), ops[1..])
  }

  /** The server after start-up: n groups of tot slots. */
  function Boot(n: nat, tot: nat): State {
    State([], [], seq(n, i => Init(tot)))
  }

  lemma {:induction false} BootOk(n: nat, tot: nat)
    requires n >= 1
    ensures StateOk(Boot(n, tot))
    ensures var s := Boot(n, tot);
            && s.nodes == [] == s.queue && |s.groups| == n
            && forall k | 0 <= k < n :: s.groups[k].entries == [] && s.groups[k].tot == tot
  {
    forall a ensures RowOk([], a) {}
  }

  /** In every state reachable from start-up, whatever the order of registrations, scheduling,
      clearing and messages: no address is scheduled twice, every scheduled address is a one-hop
      node of the registry, and a flagged node is scheduled with its present class and demand. */
  lemma {:induction false} RunKeepsOk(s: State, ops: seq<Op>)
    requires StateOk(s) && forall i | 0 <= i < |ops| :: OpOk(ops[i])
    ensures StateOk(Run(s, ops)) && |Run(s, ops).groups| == |s.groups|
    decreases |ops|
  {
    if ops != [] {
      StepKeepsOk(s, ops[0]);
      RunKeepsOk(Step(s, ops[0]), ops[1..]);
    }
  }

  // ---------------------------------------------------------------- messages of every run

  function Least(a: nat, b: nat): nat {
    if a < b then a else b
  }

  function Heads(q: seq<RegNode>): seq<Wire.Kid> {
    if q == [] then [] else [Wire.Kid(q[0].addr, q[0].cls)] + Heads(q[1..])
  }

  /** The registration list: it takes up to 20 nodes from the head of RNL. */
  function RnlOf(q: seq<RegNode>, seqNo: nat, ready: bool): Wire.Rnl {
    Wire.Rnl(seqNo, ready, Heads(q[..Least(|q|, Wire.MAX_IN_RNL)]))
  }

  lemma {:induction false} HeadsFit(q: seq<RegNode>)
    requires forall i | 0 <= i < |q| :: WellFormed(q[i])
    ensures |Heads(q)| == |q|
    ensures forall i | 0 <= i < |q| :: Heads(q)[i].addr < 8192 && Heads(q)[i].cls < 8
  {
    if q != [] { HeadsFit(q[1..]); }
  }

  lemma {:induction false} EntriesFit(ts: seq<Entry>, ns: seq<RegNode>, g: Group)
    requires GroupBacked(g, ns) && forall e | e in ts :: e in g.entries
    ensures |SmNodes(ts)| == |ts|
    ensures forall i | 0 <= i < |ts| :: Wire.SmNodeOk(SmNodes(ts)[i])
  {
    forall e | e in ts ensures EntryOk(e) { assert Backed(e, ns) && EntryOk(e); }
    SmNodesOk(ts);
  }

  lemma {:induction false} SmFits(ns: seq<RegNode>, gs: seq<Group>, count: nat, sch2: nat)
    requires Consistent(ns, gs) && |gs| <= 7 && count < 16 && sch2 < 256 && TakeOf(gs).Some?
    ensures Wire.SmOk(SmOf(ns, gs, count, sch2).value)
  {
    SmNeverRunsOff(gs);
    EntriesFit(Taken(gs), ns, gs[TakeOf(gs).value.group]);
  }

  /** In every reachable state each downlink message is well formed, so that an end node reads back
      what was meant, and short enough for the 8-bit length and the 256-byte payload. */
  lemma {:induction false} MessagesFit(s: State, mac: Wire.Mac, seqNo: nat, ready: bool, count: nat, sch2: nat)
    requires StateOk(s) && Wire.MacOk(mac) && |s.groups| == mac.channels
    requires seqNo < 0x10000 && count < 16 && sch2 < 256
    ensures var rnl := Wire.RnlBytes(mac, RnlOf(s.queue, seqNo, ready));
            Wire.ReadRnl(rnl) == Some((mac, RnlOf(s.queue, seqNo, ready))) && |rnl| <= 50
    ensures SmOf(s.nodes, s.groups, count, sch2).Some? ==>
              var m := SmOf(s.nodes, s.groups, count, sch2).value;
              Wire.ReadSm(Wire.SmBytes(mac, m)) == Some((mac, m)) && |Wire.SmBytes(mac, m)| <= 105
    ensures Registered(s.nodes, SendCm(s.groups).said)
    ensures var cm := PayloadCm(mac, seqNo, s.nodes, s.groups);
            Wire.ReadCm(cm) == Some((mac, CmOf(seqNo, s.nodes, s.groups))) && |cm| <= 137
  {
    HeadsFit(s.queue[..Least(|s.queue|, Wire.MAX_IN_RNL)]);
    Wire.RnlRoundTrip(mac, RnlOf(s.queue, seqNo, ready));
    if SmOf(s.nodes, s.groups, count, sch2).Some? {
      SmFits(s.nodes, s.groups, count, sch2);
      Wire.SmRoundTrip(mac, SmOf(s.nodes, s.groups, count, sch2).value);
    }
    CmIsFaithful(mac, seqNo, s.nodes, s.groups);
  }

  // ---------------------------------------------------------------- the allocator on every run

  /** Every group is packed, with counters and the wrapping remainder as they should be. */
  ghost predicate AllGroupsOk(gs: seq<Group>, tot: nat) {
    gs != [] ==> GroupOk(gs[0]) && gs[0].tot == tot && AllGroupsOk(gs[1..], tot)
  }

  lemma {:induction false} GroupsOkAt(gs: seq<Group>, tot: nat, k: nat)
    requires AllGroupsOk(gs, tot) && k < |gs|
    ensures GroupOk(gs[k]) && gs[k].tot == tot
  {
    if k > 0 { GroupsOkAt(gs[1..], tot, k - 1); }
  }

  lemma {:induction false} GroupsOkUpdate(gs: seq<Group>, tot: nat, k: nat, g: Group)
    requires AllGroupsOk(gs, tot) && k < |gs| && GroupOk(g) && g.tot == tot
    ensures AllGroupsOk(gs[k := g], tot)
  {
    if k == 0 {
      assert gs[0 := g][1..] == gs[1..];
    } else {
      assert gs[k := g][1..] == gs[1..][k - 1 := g];
      GroupsOkUpdate(gs[1..], tot, k - 1, g);
    }
  }

  lemma {:induction false} RemoveAllGroupsOk(gs: seq<Group>, tot: nat, a: nat)
    requires AllGroupsOk(gs, tot)
    ensures AllGroupsOk(RemoveAll(gs, a), tot)
  {
    if gs != [] {
      SlotStepKeepsGroupOk(gs[0], OpRemove(a));
      RemoveAllGroupsOk(gs[1..], tot, a);
      assert RemoveAll(gs, a)[1..] == RemoveAll(gs[1..], a);
    }
  }

  lemma {:induction false} ClearAllGroupsOk(gs: seq<Group>, tot: nat)
    requires AllGroupsOk(gs, tot)
    ensures AllGroupsOk(ClearAll(gs), tot)
  {
    if gs != [] {
      SlotStepKeepsGroupOk(gs[0], OpClear);
      ClearAllGroupsOk(gs[1..], tot);
      assert ClearAll(gs)[1..] == ClearAll(gs[1..]);
    }
  }

  lemma {:induction false} QuieterKeepsPlaces(r: seq<Entry>, es: seq<Entry>, tot: nat)
    requires SameButDist(r, es) && Packed(es, tot)
    ensures Packed(r, tot) && SumDemand(r) == SumDemand(es)
  {
    assert forall i | 0 <= i < |es| :: r[i].start == es[i].start && r[i].demand == es[i].demand;
    SameDemand(r, es);
  }

  lemma {:induction false} SameDemand(r: seq<Entry>, es: seq<Entry>)
    requires |r| == |es| && forall i | 0 <= i < |es| :: r[i].demand == es[i].demand
    ensures SumDemand(r) == SumDemand(es)
  {
    if es != [] { SameDemand(r[1..], es[1..]); }
  }

  lemma {:induction false} QuieterGroupsOk(r: seq<Group>, gs: seq<Group>, tot: nat)
    requires Quieter(r, gs) && AllGroupsOk(gs, tot)
    ensures AllGroupsOk(r, tot)
  {
    if gs != [] {
      QuieterKeepsPlaces(r[0].entries, gs[0].entries, gs[0].tot);
      QuieterGroupsOk(r[1..], gs[1..], tot);
    }
  }

  lemma {:induction false} PlaceOneGroupsOk(gs: seq<Group>, tot: nat, e: Entry)
    requires gs != [] && AllGroupsOk(gs, tot) && e.dist > 0 && 1 <= e.demand <= tot
    ensures AllGroupsOk(PlaceOne(gs, e).0, tot)
  {
    var gs1 := RemoveAll(gs, e.addr);
    var k := LowestLoad(gs1);
    RemoveAllGroupsOk(gs, tot, e.addr);
    GroupsOkAt(gs1, tot, k);
    SlotStepKeepsGroupOk(gs1[k], OpSchedule(e));
    GroupsOkUpdate(gs1, tot, k, ScheduleOne(gs1[k], e).0);
  }

  /** Every node that waits for a place asks for between one slot and a whole group. */
  ghost predicate WaitersFit(ns: seq<RegNode>, tot: nat) {
    forall i | 0 <= i < |ns| && Wants(ns[i]) :: 1 <= ns[i].demand <= tot
  }

  lemma {:induction false} ScheduleGroupsOk(ns: seq<RegNode>, gs: seq<Group>, i: nat, tot: nat, dist: nat)
    requires gs != [] && AllGroupsOk(gs, tot) && WaitersFit(ns, tot) && dist > 0
    ensures AllGroupsOk(ScheduleFrom(ns, gs, i, dist).1, tot)
    decreases |ns| - i
  {
    if i < |ns| {
      var (r, gs') := RoundAt(ns, gs, i, dist);
      ScheduleRound(ns, gs, i, dist);
      MarkScheduledMarks(ns, i);
      if Wants(ns[i]) { PlaceOneGroupsOk(gs, tot, Job(ns[i], dist)); }
      ScheduleGroupsOk(r, gs', i + 1, tot, dist);
    }
  }

  /** What a step needs so that the slots stay disjoint: the demands it schedules fit a group. */
  ghost predicate DemandsOk(s: State, op: Op, tot: nat) {
    match op
    case StartPhase => Balance.DemandsFit(s.nodes, tot)
    case Schedule => WaitersFit(s.nodes, tot)
    case _ => true
  }

  lemma {:induction false} StepKeepsGroups(s: State, op: Op, tot: nat)
    requires StateOk(s) && AllGroupsOk(s.groups, tot) && DemandsOk(s, op, tot)
    ensures AllGroupsOk(Step(s, op).groups, tot)
  {
    match op
    case Receive(n) =>
    case Absorb => if s.queue != [] { RemoveAllGroupsOk(s.groups, tot, s.queue[0].addr); }
    case StartPhase =>
      ClearAllGroupsOk(s.groups, tot);
      ScheduleGroupsOk(ClearFlags(s.nodes, false), ClearAll(s.groups), 0, tot, DIST_SD);
    case SlotSm =>
      SmQuieter(s.nodes, s.groups);
      QuieterGroupsOk(AfterSm(s.groups), s.groups, tot);
    case Schedule =>
      ScheduleGroupsOk(s.nodes, s.groups, 0, tot, DIST_DC);
    case FrameCm =>
      ConsistentCounted(s.nodes, s.groups);
      CmAnnounces(s.groups, 0);
      QuieterGroupsOk(SendCm(s.groups).groups, s.groups, tot);
  }

  ghost predicate AllDemandsOk(s: State, ops: seq<Op>, tot: nat)
    requires StateOk(s) && forall i | 0 <= i < |ops| :: OpOk(ops[i])
    decreases |ops|
  {
    if ops == [] then true else
    StepKeepsOk(s, ops[0]);
    DemandsOk(s, ops[0], tot) && AllDemandsOk(Step(s, ops[0]), ops[1..], tot)
  }

  /** The allocator invariant in every reachable state of the server: in each group the intervals
      are ascending, disjoint and inside the group, and the counters agree with them. */
  lemma {:induction false} RunKeepsGroups(s: State, ops: seq<Op>, tot: nat)
    requires StateOk(s) && AllGroupsOk(s.groups, tot) && forall i | 0 <= i < |ops| :: OpOk(ops[i])
    requires AllDemandsOk(s, ops, tot)
    ensures AllGroupsOk(Run(s, ops).groups, tot)
    decreases |ops|
  {
    if ops != [] {
      StepKeepsOk(s, ops[0]);
      StepKeepsGroups(s, ops[0], tot);
      RunKeepsGroups(Step(s, ops[0]), ops[1..], tot);
    }
  }

  // ---------------------------------------------------------------- flags on every run

  lemma {:induction false} PlaceOneScheduled(gs: seq<Group>, e: Entry, a: nat)
    requires gs != [] && GroupsUnique(gs)
    ensures IsScheduled(gs, a) && a != e.addr ==> IsScheduled(PlaceOne(gs, e).0, a)
    ensures a == e.addr && PlaceOne(gs, e).1 ==> IsScheduled(PlaceOne(gs, e).0, a)
  {
    var gs1 := RemoveAll(gs, e.addr);
    var k := LowestLoad(gs1);
    var (gs', ok) := PlaceOne(gs, e);
    forall j | 0 <= j < |gs| ensures AddrSet(gs1[j].entries) == AddrSet(gs[j].entries) - {e.addr} {
      RemoveMembers(gs[j], e.addr);
    }
    InsertMembers(gs1[k].entries, e.(start := Assign(gs1[k].entries, gs1[k].tot, e.demand)));
    assert forall j | 0 <= j < |gs| :: AddrSet(gs1[j].entries) <= AddrSet(gs'[j].entries);
    if IsScheduled(gs, a) && a != e.addr {
      var j :| 0 <= j < |gs| && a in AddrSet(gs[j].entries);
      assert a in AddrSet(gs'[j].entries);
    }
    if a == e.addr && ok {
      assert a in AddrSet(gs'[k].entries);
    }
  }

  lemma {:induction false} RoundHonest(ns: seq<RegNode>, gs: seq<Group>, i: nat, dist: nat)
    requires Consistent(ns, gs) && i < |ns| && FlagsHonest(ns, gs)
    ensures FlagsHonest(RoundAt(ns, gs, i, dist).0, RoundAt(ns, gs, i, dist).1)
  {
    var (r, gs') := RoundAt(ns, gs, i, dist);
    DistinctAt(ns, i);
    forall a ensures FlagHonest(r, gs', a) {
      assert FlagHonest(ns, gs, a);
      PlaceOneScheduled(gs, Job(ns[i], dist), a);
      MarkedRow(ns, i, a);
    }
  }

  lemma {:induction false} ScheduleHonest(ns: seq<RegNode>, gs: seq<Group>, i: nat, dist: nat)
    requires Consistent(ns, gs) && FlagsHonest(ns, gs) && 0 < dist <= DIST_DC
    ensures FlagsHonest(ScheduleFrom(ns, gs, i, dist).0, ScheduleFrom(ns, gs, i, dist).1)
    decreases |ns| - i
  {
    if i < |ns| {
      var (r, gs') := RoundAt(ns, gs, i, dist);
      ScheduleRound(ns, gs, i, dist);
      RoundKeeps(ns, gs, i, dist);
      RoundHonest(ns, gs, i, dist);
      ScheduleHonest(r, gs', i + 1, dist);
    }
  }

  lemma {:induction false} DistributeHonest(ns: seq<RegNode>, gs: seq<Group>)
    requires Consistent(ns, gs)
    ensures FlagsHonest(Distribute(ns, gs).0, Distribute(ns, gs).1)
  {
    var c := ClearFlags(ns, false);
    MarksKeepRegistry(c, ns);
    forall a ensures FlagHonest(c, ClearAll(gs), a) {}
    ScheduleHonest(c, ClearAll(gs), 0, DIST_SD);
  }

  lemma {:induction false} QuieterHonest(ns: seq<RegNode>, gs: seq<Group>, r: seq<Group>)
    requires |r| == |gs| && forall k | 0 <= k < |gs| :: AddrSet(r[k].entries) == AddrSet(gs[k].entries)
    requires FlagsHonest(ns, gs)
    ensures FlagsHonest(ns, r)
  {
    forall a ensures FlagHonest(ns, r, a) {
      assert FlagHonest(ns, gs, a);
      if IsScheduled(gs, a) {
        var k :| 0 <= k < |gs| && a in AddrSet(gs[k].entries);
        assert a in AddrSet(r[k].entries);
      }
    }
  }

  /** Absorbing a registration takes a node out of the schedule exactly when it registers as a two-hop node, and
      everybody else keeps group, slots and countdown. */
  lemma {:induction false} AbsorbSchedules(s: State, a: nat)
    requires StateOk(s) && s.queue != []
    ensures var n, r := s.queue[0], Step(s, Absorb).groups;
            && |r| == |s.groups|
            && (forall k | 0 <= k < |r| :: r[k].entries ==
                  if n.hop.TwoHop? then Without(s.groups[k].entries, n.addr) else s.groups[k].entries)
            && (IsScheduled(r, a) <==> IsScheduled(s.groups, a) && !(n.hop.TwoHop? && a == n.addr))
  {
    hide Without, AddNode, IsScheduled, RegistryOk, GroupsUnique, CountersOk, GroupBacked, QueueOk;
    AddNodeGroups(s.nodes, s.groups, s.queue[0]);
    AddNodeScheduled(s.nodes, s.groups, s.queue[0], a);
  }

  /** The one step that makes a flag lie: absorbing the refused two-hop registration of a node that
      has a place.  Every other step of the server keeps flagged nodes scheduled. */
  lemma {:induction false} StepHonestIff(s: State, op: Op)
    requires StateOk(s) && OpOk(op) && FlagsHonest(s.nodes, s.groups)
    ensures FlagsHonest(Step(s, op).nodes, Step(s, op).groups)
            <==> !(op.Absorb? && s.queue != [] && LosesItsPlace(s.nodes, s.queue[0]))
  {
    match op
    case Receive(n) =>
    case Absorb => if s.queue != [] { FlagsHonestIff(s.nodes, s.groups, s.queue[0]); }
    case StartPhase => DistributeHonest(s.nodes, s.groups);
    case SlotSm =>
      SmQuieter(s.nodes, s.groups);
      QuieterKeeps(s.nodes, s.groups, AfterSm(s.groups));
      QuieterHonest(s.nodes, s.groups, AfterSm(s.groups));
    case Schedule => ScheduleHonest(s.nodes, s.groups, 0, DIST_DC);
    case FrameCm =>
      CmKeeps(s.nodes, s.groups);
      QuieterHonest(s.nodes, s.groups, SendCm(s.groups).groups);
  }

  // ---------------------------------------------------------------- where the demand byte wraps

  /** The registry's demand of a node is the one its class and children call for exactly while that
      is below 256. */
  lemma {:induction false} DemandExactIff(n: RegNode)
    requires NodeOk(n)
    ensures n.demand == Pow2(n.cls) + 2 * KidDemand(n.kids) <==> Pow2(n.cls) + 2 * KidDemand(n.kids) < U8
  {
  }

  /** A relay of class 7 with a child of class 6 asks for 128 + 2 * 64 slots, which the byte holds
      as 0: the relay is scheduled without any slot, and the group is no longer packed. */
  lemma {:induction false} VanishingDemand()
    ensures var p, c := NewNode(1, 7, OneHop, 0), NewNode(2, 6, TwoHop, 1);
            var q := AddChild(p, c).0;
            && WellFormed(p) && WellFormed(c)
            && AddChild(p, c).1 && q.demand == 0
            && ScheduleOne(Init(128), Job(q, DIST_DC)).1
            && !Packed(ScheduleOne(Init(128), Job(q, DIST_DC)).0.entries, 128)
  {
    var p, c := NewNode(1, 7, OneHop, 0), NewNode(2, 6, TwoHop, 1);
    Powers();
    assert p.kids[1..][1..] == [];
    assert FindKid(p.kids, 2) == 2 by { assert FindKid(p.kids[1..], 2) == 1; }
    var q := AddChild(p, c).0;
    assert q.demand == 0;
    ScheduleKeepsPacked(Init(128), Job(q, DIST_DC));
  }

  lemma {:induction false} Powers()
    ensures Pow2(7) == 128 && Pow2(6) == 64
  {
    assert Pow2(3) == 8;
    assert Pow2(6) == 8 * Pow2(3);
  }

  /** The state after n nodes moved from RNL to NODES. */
  ghost function AbsorbMany(s: State, n: nat): State
    requires StateOk(s)
    decreases n
  {
    if n == 0 then s else
    StepKeepsOk(s, Absorb);
    AbsorbMany(Step(s, Absorb), n - 1)
  }

  /** Moving the head first and then the rest moves all of RNL. */
  lemma {:induction false} AbsorbHead(s: State)
    requires StateOk(s)
    ensures var t := Step(s, Absorb);
            && StateOk(t) && (s.queue == [] ==> t == s)
            && AbsorbMany(s, |s.queue|) == AbsorbMany(t, |t.queue|)
            && (s.queue != [] ==> |t.queue| < |s.queue|)
            && (s.queue == [] ==> AbsorbMany(s, |s.queue|) == s)
  {
    hide StateOk, AddNode;
    StepKeepsOk(s, Absorb);
  }
}
