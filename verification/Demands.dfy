/**
  * Slot demands over runs: how large a class may be so that relays never ask for more than a group holds, and so
  * that the demand byte never wraps.
  */
module Demands {
  import opened Wrappers
  import opened SlotSpec
  import opened RegistrySpec
  import opened ServerSpec
  import opened Runs
  import Balance

  /** Registrations of classes up to c. */
  predicate AtMost(ops: seq<Op>, c: nat) {
    forall i | 0 <= i < |ops| && ops[i].Receive? :: ops[i].n.cls <= c
  }

  predicate AllOk(ops: seq<Op>) {
    forall i | 0 <= i < |ops| :: OpOk(ops[i])
  }

  /** A node of class at most c, and children that ask for no more than that class. */
  predicate LightNode(n: RegNode, c: nat) {
    n.cls <= c && forall i | 0 <= i < |n.kids| :: n.kids[i].demand <= Pow2(c)
  }

  predicate Light(ns: seq<RegNode>, c: nat) {
    forall i | 0 <= i < |ns| :: LightNode(ns[i], c)
  }

  predicate LightState(s: State, c: nat) {
    Light(s.nodes, c) && forall i | 0 <= i < |s.queue| :: s.queue[i].cls <= c
  }

  // ---------------------------------------------------------------- light nodes stay light

  lemma {:induction false} LightRow(ns: seq<RegNode>, c: nat, a: nat)
    requires Light(ns, c) && Lookup(ns, a).Some?
    ensures LightNode(Lookup(ns, a).value, c)
  {
  }

  lemma {:induction false} LightFresh(n: RegNode, c: nat)
    requires WellFormed(n) && n.cls <= c
    ensures LightNode(n, c) && n.demand <= Pow2(c)
  {
    Balance.PowerOrder(n.cls, c);
  }

  lemma {:induction false} LightParent(p: RegNode, n: RegNode, c: nat)
    requires NodeOk(p) && LightNode(p, c) && WellFormed(n) && n.cls <= c
    ensures LightNode(AddChild(p, n).0, c)
  {
    hide FindKid, Pow2;
    LightFresh(n, c);
    AddChildKeepsNodeOk(p, n);
  }

  lemma {:induction false} LightAfter(ns: seq<RegNode>, n: RegNode, c: nat, a: nat)
    requires RegistryOk(ns) && WellFormed(n) && n.cls <= c && Light(ns, c)
    requires Lookup(Register(ns, n).0, a).Some?
    ensures LightNode(Lookup(Register(ns, n).0, a).value, c)
  {
    hide Light, WellFormed, Register;
    var (r, ok) := Register(ns, n);
    IsWellFormed(n);
    RegisterTable(ns, n);
    LightFresh(n, c);
    assert RowOk(ns, a);
    if n.hop.OneHop? && a != n.addr { assert SameRow(Lookup(r, a), Lookup(ns, a)); }
    if Lookup(ns, a).Some? {
      LightRow(ns, c, a);
      if n.hop.TwoHop? && a == n.parent { LightParent(Lookup(ns, a).value, n, c); }
    }
  }

  lemma {:induction false} IsWellFormed(n: RegNode)
    requires WellFormed(n)
    ensures n.hop.TwoHop? ==> n.parent != n.addr
  {
  }

  lemma {:induction false} RegisterKeepsLight(ns: seq<RegNode>, n: RegNode, c: nat)
    requires RegistryOk(ns) && WellFormed(n) && n.cls <= c && Light(ns, c)
    ensures Light(Register(ns, n).0, c)
  {
    hide LightNode, WellFormed, Register;
    var r := Register(ns, n).0;
    RegisterKeepsRegistryOk(ns, n);
    forall i | 0 <= i < |r|
      ensures LightNode(r[i], c)
    {
      DistinctAt(r, i);
      LightAfter(ns, n, c, r[i].addr);
    }
  }

  lemma {:induction false} MarksKeepLight(r: seq<RegNode>, ns: seq<RegNode>, c: nat)
    requires |r| == |ns| && Light(ns, c)
    requires forall j | 0 <= j < |ns| :: r[j] == ns[j].(connected := r[j].connected, flag := r[j].flag)
    ensures Light(r, c)
  {
    forall i | 0 <= i < |r|
      ensures LightNode(r[i], c)
    {
      assert LightNode(ns[i], c);
    }
  }

  lemma {:induction false} StepKeepsLight(s: State, op: Op, c: nat)
    requires StateOk(s) && OpOk(op) && (op.Receive? ==> op.n.cls <= c) && LightState(s, c)
    ensures LightState(Step(s, op), c)
  {
    hide Light;
    match op
    case Receive(n) =>
    case Absorb => if s.queue != [] { RegisterKeepsLight(s.nodes, s.queue[0], c); }
    case StartPhase =>
      var ns := ClearFlags(s.nodes, false);
      MarksKeepLight(ns, s.nodes, c);
      Balance.ScheduleMarks(ns, ClearAll(s.groups), 0, DIST_SD);
      MarksKeepLight(Step(s, op).nodes, ns, c);
    case SlotSm =>
    case Schedule =>
      Balance.ScheduleMarks(s.nodes, s.groups, 0, DIST_DC);
      MarksKeepLight(Step(s, op).nodes, s.nodes, c);
    case FrameCm =>
  }

  // ---------------------------------------------------------------- what light nodes ask for

  /** The stored demand is the one the class and the children call for. */
  predicate Exact(n: RegNode) {
    n.demand == Pow2(n.cls) + 2 * KidDemand(n.kids)
  }

  lemma {:induction false} Powers(c: nat)
    requires c <= 5
    ensures 5 * Pow2(c) < U8 && Pow2(c + 3) == 8 * Pow2(c)
  {
    Balance.PowerOrder(c, 5);
    assert Pow2(3) == 8 && Pow2(5) == 4 * Pow2(3);
    assert Pow2(c + 3) == 2 * Pow2(c + 2) && Pow2(c + 2) == 2 * Pow2(c + 1);
  }

  lemma {:induction false} LightDemand(n: RegNode, c: nat)
    requires NodeOk(n) && LightNode(n, c) && c <= 5
    ensures Exact(n) && 1 <= n.demand <= Pow2(c + 3)
  {
    hide Pow2;
    Powers(c);
    Balance.PowerOrder(n.cls, c);
    KidSums(n.kids);
  }

  lemma {:induction false} LightDemands(ns: seq<RegNode>, c: nat, tot: nat)
    requires RegistryOk(ns) && Light(ns, c) && c <= 5 && Pow2(c + 3) <= tot
    ensures forall i | 0 <= i < |ns| :: Exact(ns[i]) && 1 <= ns[i].demand <= tot
  {
    hide Pow2, LightNode, Exact, NodeOk;
    forall i | 0 <= i < |ns|
      ensures Exact(ns[i]) && 1 <= ns[i].demand <= tot
    {
      DistinctAt(ns, i);
      assert RowOk(ns, ns[i].addr);
      LightDemand(ns[i], c);
    }
  }

  /** Every step of a run of light registrations schedules demands that fit. */
  lemma {:induction false} LightRun(s: State, ops: seq<Op>, c: nat, tot: nat)
    requires StateOk(s) && AllOk(ops) && AtMost(ops, c) && LightState(s, c) && c <= 5 && Pow2(c + 3) <= tot
    ensures AllDemandsOk(s, ops, tot)
    ensures LightState(Run(s, ops), c) && StateOk(Run(s, ops))
    decreases |ops|
  {
    hide StateOk, LightState, Step, OpOk, Pow2;
    if ops != [] {
      HasGroups(s);
      StepKeepsOk(s, ops[0]);
      StepKeepsLight(s, ops[0], c);
      LightStep(s, ops[0], c, tot);
      LightRun(Step(s, ops[0]), ops[1..], c, tot);
    }
  }

  lemma {:induction false} HasGroups(s: State)
    requires StateOk(s)
    ensures s.groups != []
  {
  }

  lemma {:induction false} LightStep(s: State, op: Op, c: nat, tot: nat)
    requires StateOk(s) && LightState(s, c) && c <= 5 && Pow2(c + 3) <= tot
    ensures DemandsOk(s, op, tot)
  {
    hide Pow2, Light, Exact;
    LightDemands(s.nodes, c, tot);
  }

  // ---------------------------------------------------------------- one relay with two children

  /** A relay and two children, all of class k, registered one after the other. */
  function Relay(k: nat): RegNode {
    NewNode(1, k, OneHop, 0)
  }

  function Kid(k: nat, addr: nat): RegNode {
    NewNode(addr, k, TwoHop, 1)
  }

  function Family(k: nat): seq<Op> {
    [Receive(Relay(k)), Absorb, Receive(Kid(k, 2)), Absorb, Receive(Kid(k, 3)), Absorb]
  }

  /** The relay has these children and this demand, waits for a place, and is the only one-hop node. */
  ghost predicate Stage(ns: seq<RegNode>, k: nat, kids: seq<Child>, demand: nat) {
    && DistinctAddrs(ns)
    && Lookup(ns, 1).Some? && RelayIs(Lookup(ns, 1).value, k, kids, demand)
    && forall a | a != 1 && Lookup(ns, a).Some? :: Lookup(ns, a).value.hop.TwoHop?
  }

  predicate RelayIs(n: RegNode, k: nat, kids: seq<Child>, demand: nat) {
    n.hop.OneHop? && !n.flag && n.cls == k && n.kids == kids && n.demand == demand
  }

  lemma {:induction false} FirstStage(k: nat)
    ensures Stage(Register([], Relay(k)).0, k, [NO_CHILD, NO_CHILD], Pow2(k) % U8)
  {
    hide RegisterOneHop;
    var r := Register([], Relay(k)).0;
    assert DistinctAddrs([]);
    RegisterTable([], Relay(k));
    forall a | a != 1
      ensures Lookup(r, a).None?
    {
      assert SameRow(Lookup(r, a), Lookup([], a));
    }
  }

  /** A child of the relay takes the first empty slot. */
  lemma {:induction false} NextStage(ns: seq<RegNode>, k: nat, kids: seq<Child>, demand: nat, addr: nat, j: nat)
    requires Stage(ns, k, kids, demand) && addr >= 2
    requires FindKid(kids, addr) == |kids| && FindKid(kids, 0) == j < |kids|
    ensures var d := Pow2(k) % U8;
            Stage(Register(ns, Kid(k, addr)).0, k, kids[j := Child(addr, k, d)], (demand + 2 * d) % U8)
  {
    hide RegisterTwoHop, DistinctAddrs, FindKid;
    RegisterTable(ns, Kid(k, addr));
  }

  /** The nodes after the family has registered. */
  function FamilyNodes(k: nat): seq<RegNode> {
    Register(Register(Register([], Relay(k)).0, Kid(k, 2)).0, Kid(k, 3)).0
  }

  lemma {:induction false} FamilyStage(k: nat)
    ensures var d := Pow2(k) % U8; Stage(FamilyNodes(k), k, [Child(2, k, d), Child(3, k, d)], 5 * Pow2(k) % U8)
  {
    hide Register, Pow2, Stage, FindKid;
    var d := Pow2(k) % U8;
    FiveTimes(Pow2(k));
    var one := Child(2, k, d);
    FirstStage(k);
    KidSlots(one);
    NextStage(Register([], Relay(k)).0, k, [NO_CHILD, NO_CHILD], d, 2, 0);
    assert [NO_CHILD, NO_CHILD][0 := one] == [one, NO_CHILD];
    NextStage(Register(Register([], Relay(k)).0, Kid(k, 2)).0, k, [one, NO_CHILD], (d + 2 * d) % U8, 3, 1);
    assert [one, NO_CHILD][1 := Child(3, k, d)] == [one, Child(3, k, d)];
  }

  lemma {:induction false} FiveTimes(p: nat)
    ensures var d := p % U8; ((d + 2 * d) % U8 + 2 * d) % U8 == 5 * p % U8
  {
    var d, q := p % U8, p / U8;
    ModChain(d + 2 * d, 0, 2 * d);
    WholeTurns(5 * d, 5 * q);
    assert 5 * p == 5 * d + U8 * (5 * q);
  }

  lemma {:induction false} WholeTurns(x: nat, m: nat)
    ensures (x + U8 * m) % U8 == x % U8
  {
    if m > 0 { WholeTurns(x, m - 1); }
  }

  lemma {:induction false} KidSlots(one: Child)
    requires one.addr == 2
    ensures FindKid([NO_CHILD, NO_CHILD], 2) == 2 && FindKid([NO_CHILD, NO_CHILD], 0) == 0
    ensures FindKid([one, NO_CHILD], 3) == 2 && FindKid([one, NO_CHILD], 0) == 1
  {
    assert [NO_CHILD, NO_CHILD][1..] == [NO_CHILD] && [NO_CHILD][1..] == [];
    assert [one, NO_CHILD][1..] == [NO_CHILD];
    assert FindKid([NO_CHILD], 2) == 1 && FindKid([NO_CHILD], 3) == 1 && FindKid([NO_CHILD], 0) == 0;
  }

  // ---------------------------------------------------------------- the family as a run

  /** Groups without any node. */
  ghost predicate Empty(gs: seq<Group>, tot: nat) {
    gs != [] && forall k | 0 <= k < |gs| :: gs[k] == Init(tot)
  }

  lemma {:induction false} EmptyStays(gs: seq<Group>, tot: nat, a: nat)
    requires Empty(gs, tot)
    ensures RemoveAll(gs, a) == gs
  {
  }

  /** From a state with an empty queue and empty groups, one registration is received and absorbed. */
  lemma {:induction false} Registers(s: State, n: RegNode, rest: seq<Op>, tot: nat)
    requires StateOk(s) && s.queue == [] && Empty(s.groups, tot) && WellFormed(n) && AllOk(rest)
    ensures var t := State(Register(s.nodes, n).0, [], s.groups);
            StateOk(t) && AllOk([Receive(n), Absorb] + rest) && Run(s, [Receive(n), Absorb] + rest) == Run(t, rest)
  {
    hide StateOk, WellFormed, Register, Empty;
    var ops := [Receive(n), Absorb] + rest;
    NotEmpty(s.groups, tot);
    var s1 := Step(s, Receive(n));
    EmptyStays(s.groups, tot, n.addr);
    StepKeepsOk(s, Receive(n));
    StepKeepsOk(s1, Absorb);
    assert s1.queue == [n];
    assert s1.queue[1..] == [];
    assert ops[1..] == [Absorb] + rest;
    assert ops[1..][1..] == rest;
    assert Run(s, ops) == Run(s1, ops[1..]);
    assert Run(s1, ops[1..]) == Run(Step(s1, Absorb), ops[1..][1..]);
  }

  lemma {:induction false} NotEmpty(gs: seq<Group>, tot: nat)
    requires Empty(gs, tot)
    ensures gs != []
  {
  }

  lemma {:induction false} KidsWellFormed(k: nat)
    requires k < CLASS_LIMIT
    ensures WellFormed(Relay(k)) && WellFormed(Kid(k, 2)) && WellFormed(Kid(k, 3))
  {
  }

  /** The state after the family registered with an idle server. */
  lemma {:induction false} FamilyRun(groups: nat, tot: nat, k: nat, rest: seq<Op>)
    requires groups >= 1 && k < CLASS_LIMIT && AllOk(rest)
    ensures var t := State(FamilyNodes(k), [], Boot(groups, tot).groups);
            StateOk(Boot(groups, tot)) && StateOk(t) && AllOk(Family(k) + rest) && Run(Boot(groups, tot), Family(k) + rest) == Run(t, rest)
  {
    hide Register, StateOk, WellFormed, Run;
    var s0 := Boot(groups, tot);
    var gs := s0.groups;
    KidsWellFormed(k);
    BootOk(groups, tot);
    var n1 := Register([], Relay(k)).0;
    var n2 := Register(n1, Kid(k, 2)).0;
    var r3 := [Receive(Kid(k, 3)), Absorb] + rest;
    var r2 := [Receive(Kid(k, 2)), Absorb] + r3;
    assert Family(k) + rest == [Receive(Relay(k)), Absorb] + r2;
    Registers(s0, Relay(k), r2, tot);
    Registers(State(n1, [], gs), Kid(k, 2), r3, tot);
    Registers(State(n2, [], gs), Kid(k, 3), rest, tot);
  }

  // ---------------------------------------------------------------- where the demand byte wraps

  predicate AllExact(ns: seq<RegNode>) {
    forall i | 0 <= i < |ns| :: Exact(ns[i])
  }

  lemma {:induction false} BootLight(groups: nat, tot: nat, c: nat)
    ensures LightState(Boot(groups, tot), c)
  {
  }

  lemma {:induction false} LightExact(groups: nat, tot: nat, ops: seq<Op>, c: nat)
    requires groups >= 1 && AllOk(ops) && AtMost(ops, c) && c <= 5 && StateOk(Boot(groups, tot))
    ensures AllExact(Run(Boot(groups, tot), ops).nodes)
  {
    hide Run, Pow2, Exact, Light;
    BootLight(groups, tot, c);
    LightRun(Boot(groups, tot), ops, c, Pow2(c + 3));
    LightDemands(Run(Boot(groups, tot), ops).nodes, c, Pow2(c + 3));
  }

  lemma {:induction false} RunNothing(s: State)
    requires StateOk(s)
    ensures Run(s, []) == s
  {
  }

  /** A family of class 6 asks for 320 slots, which the byte holds as 64. */
  lemma {:induction false} FamilyWraps()
    ensures !AllExact(FamilyNodes(6))
  {
    hide FamilyNodes;
    FamilyStage(6);
    assert Pow2(3) == 8 && Pow2(6) == 8 * Pow2(3);
    var ns := FamilyNodes(6);
    var k := FindNode(ns, 1);
    KidSums(ns[k].kids);
    assert !Exact(ns[k]);
  }

  /** The stored demands are exact on every run, if and only if no class above 5 registers. */
  lemma {:induction false} ExactIff(groups: nat, tot: nat, c: nat)
    requires groups >= 1
    ensures StateOk(Boot(groups, tot))
    ensures (forall ops | AllOk(ops) && AtMost(ops, c) :: AllExact(Run(Boot(groups, tot), ops).nodes)) <==> c <= 5
  {
    hide Run, StateOk, OpOk, AllExact, FamilyNodes, Boot;
    BootOk(groups, tot);
    if c <= 5 {
      forall ops | AllOk(ops) && AtMost(ops, c)
        ensures AllExact(Run(Boot(groups, tot), ops).nodes)
      {
        LightExact(groups, tot, ops, c);
      }
    } else {
      FamilyRun(groups, tot, 6, []);
      FamilyAtMost(6, c, []);
      RunNothing(State(FamilyNodes(6), [], Boot(groups, tot).groups));
      FamilyWraps();
    }
  }

  lemma {:induction false} FamilyAtMost(k: nat, c: nat, rest: seq<Op>)
    requires k <= c && AtMost(rest, c)
    ensures AtMost(Family(k) + rest, c)
  {
  }

  // ---------------------------------------------------------------- where groups overflow

  lemma {:induction false} NoJobs(ns: seq<RegNode>, dist: nat)
    requires forall i | 0 <= i < |ns| :: !Wants(ns[i])
    ensures Balance.Jobs(ns, dist) == []
  {
    if ns != [] { NoJobs(ns[1..], dist); }
  }

  /** Only the node at position k wants a place. */
  lemma {:induction false} SoleJob(ns: seq<RegNode>, k: nat, dist: nat)
    requires k < |ns| && Wants(ns[k]) && forall i | 0 <= i < |ns| && i != k :: !Wants(ns[i])
    ensures Balance.Jobs(ns, dist) == [Job(ns[k], dist)]
  {
    if k == 0 { NoJobs(ns[1..], dist); } else { SoleJob(ns[1..], k - 1, dist); }
  }

  /** A node that is larger than the empty groups is placed all the same. */
  lemma {:induction false} Overflows(s: State, k: nat, tot: nat)
    requires StateOk(s) && Empty(s.groups, tot) && tot < U16 - 1
    requires k < |s.nodes| && Wants(s.nodes[k]) && forall i | 0 <= i < |s.nodes| && i != k :: !Wants(s.nodes[i])
    requires s.nodes[k].demand > tot
    ensures !AllGroupsOk(Step(s, Op.Schedule).groups, tot)
  {
    hide StateOk, Wants, AllGroupsOk, ScheduleOne, ScheduleFrom;
    var e := Job(s.nodes[k], DIST_DC);
    var gs := Step(s, Op.Schedule).groups;
    SoleJob(s.nodes, k, DIST_DC);
    assert s.nodes[0..] == s.nodes;
    Balance.ScheduleIsPlaceAll(s.nodes, s.groups, 0, DIST_DC);
    assert gs == Balance.PlaceAll(s.groups, [e]).groups;
    PlaceAllOne(s.groups, e);
    EmptyStays(s.groups, tot, e.addr);
    var j := LowestLoad(s.groups);
    assert gs == s.groups[j := ScheduleOne(s.groups[j], e).0];
    ScheduleKeepsPacked(s.groups[j], e);
    if AllGroupsOk(gs, tot) { GroupsOkAt(gs, tot, j); }
  }

  lemma {:induction false} PlaceAllOne(gs: seq<Group>, e: Entry)
    requires gs != []
    ensures Balance.PlaceAll(gs, [e]).groups == PlaceOne(gs, e).0
  {
    hide PlaceOne;
    assert [e][1..] == [];
  }

  /** A one-hop node of class 7 registers with an idle server of one group of 64 slots and is scheduled: its 128
      slots do not fit, and it is placed all the same. */
  lemma {:induction false} OversizedNode()
    ensures var ops := [Receive(NewNode(1, 7, OneHop, 0)), Absorb, Op.Schedule];
            StateOk(Boot(1, 64)) && AllOk(ops) && !AllGroupsOk(Run(Boot(1, 64), ops).groups, 64)
  {
    hide StateOk, AllGroupsOk, Run, RegisterOneHop;
    var n := NewNode(1, 7, OneHop, 0);
    assert Pow2(3) == 8 && Pow2(7) == 16 * Pow2(3);
    BootOk(1, 64);
    Registers(Boot(1, 64), n, [Op.Schedule], 64);
    assert [Receive(n), Absorb] + [Op.Schedule] == [Receive(n), Absorb, Op.Schedule];
    SoleNode(n);
    var t := State([n], [], Boot(1, 64).groups);
    RunOne(t, Op.Schedule);
    Overflows(t, 0, 64);
  }

  lemma {:induction false} SoleNode(n: RegNode)
    requires n.hop.OneHop?
    ensures Register([], n).0 == [n]
  {
  }

  lemma {:induction false} RunOne(s: State, op: Op)
    requires StateOk(s) && OpOk(op)
    ensures Run(s, [op]) == Step(s, op)
  {
    hide Step;
    StepKeepsOk(s, op);
    assert [op][1..] == [];
    RunNothing(Step(s, op));
  }

  /** A family of class k asks for more than a group of 2^n slots holds. */
  lemma {:induction false} FamilyOverflows(groups: nat, n: nat, k: nat)
    requires groups >= 1 && 1 <= n <= 7 && n <= k + 2 && k <= 5
    ensures StateOk(Boot(groups, Pow2(n))) && AllOk(Family(k) + [Op.Schedule])
    ensures !AllGroupsOk(Run(Boot(groups, Pow2(n)), Family(k) + [Op.Schedule]).groups, Pow2(n))
  {
    hide StateOk, AllGroupsOk, Run, Pow2, FamilyNodes, Step;
    var tot := Pow2(n);
    var ns := FamilyNodes(k);
    FamilyRun(groups, tot, k, [Op.Schedule]);
    FamilyStage(k);
    Sizes(n, k);
    var j := FindNode(ns, 1);
    forall i | 0 <= i < |ns| && i != j
      ensures !Wants(ns[i])
    {
      DistinctAt(ns, i);
    }
    var t := State(ns, [], Boot(groups, tot).groups);
    RunOne(t, Op.Schedule);
    Overflows(t, j, tot);
  }

  lemma {:induction false} Sizes(n: nat, k: nat)
    requires 1 <= n <= 7 && n <= k + 2 && k <= 5
    ensures Pow2(n) < 5 * Pow2(k) < U8 && Pow2(n) < U16 - 1
  {
    Powers(k);
    Balance.PowerOrder(n, k + 2);
    Balance.PowerOrder(n, 7);
    assert Pow2(k + 2) == 2 * Pow2(k + 1) && Pow2(k + 1) == 2 * Pow2(k);
    assert Pow2(3) == 8 && Pow2(7) == 16 * Pow2(3);
  }

  lemma {:induction false} BootGroupsOk(groups: nat, tot: nat)
    requires tot < U16 - 1
    ensures AllGroupsOk(Boot(groups, tot).groups, tot)
    decreases groups
  {
    if groups > 0 {
      BootGroupsOk(groups - 1, tot);
      assert Boot(groups, tot).groups[1..] == Boot(groups - 1, tot).groups;
    }
  }

  lemma {:induction false} EightBits()
    ensures Pow2(7) == 128
  {
    assert Pow2(3) == 8 && Pow2(7) == 16 * Pow2(3);
  }

  /** With groups of 2^n slots, every run keeps all groups packed and their counters exact, if and only if every
      class that registers is at most n - 3. */
  lemma {:induction false} ClassBoundIff(groups: nat, n: nat, c: nat)
    requires groups >= 1 && 1 <= n <= 7
    ensures StateOk(Boot(groups, Pow2(n)))
    ensures (forall ops | AllOk(ops) && AtMost(ops, c) :: AllGroupsOk(Run(Boot(groups, Pow2(n)), ops).groups, Pow2(n)))
            <==> c + 3 <= n
  {
    hide Run, StateOk, OpOk, Boot, AllGroupsOk, Pow2, Family;
    var tot := Pow2(n);
    BootOk(groups, tot);
    if c + 3 <= n {
      Balance.PowerOrder(c + 3, n);
      BootLight(groups, tot, c);
      Balance.PowerOrder(n, 7);
      EightBits();
      BootGroupsOk(groups, tot);
      forall ops | AllOk(ops) && AtMost(ops, c)
        ensures AllGroupsOk(Run(Boot(groups, tot), ops).groups, tot)
      {
        LightRun(Boot(groups, tot), ops, c, tot);
        RunKeepsGroups(Boot(groups, tot), ops, tot);
      }
    } else {
      var k := if n >= 2 then n - 2 else 0;
      FamilyOverflows(groups, n, k);
      FamilyAtMost(k, c, [Op.Schedule]);
    }
  }
}
