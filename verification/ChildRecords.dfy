/**
  * A parent writes down the class and the demand of a child when the child registers.  When these
  * records are those of the registry: addNodeToNodeList does not tell a grandparent that the demand of
  * a parent has grown, nor an old parent that a node has registered again.
  */
module ChildRecords {
  import opened Wrappers
  import opened SlotSpec
  import opened RegistrySpec
  import opened ServerSpec
  import opened RelayTree
  import opened Runs
  import Balance
  import Demands

  /** The node at address a has the record c in its child table. */
  predicate Records(ns: seq<RegNode>, a: nat, c: Child) {
    Lookup(ns, a).Some? && c.addr != 0 && c in Lookup(ns, a).value.kids
  }

  /** The record is what the registry holds for that address. */
  predicate Matches(ns: seq<RegNode>, c: Child) {
    Lookup(ns, c.addr).Some? && SameAsk(Lookup(ns, c.addr).value, c)
  }

  predicate SameAsk(n: RegNode, c: Child) {
    n.cls == c.cls && n.demand == c.demand
  }

  /** All records are up to date. */
  ghost predicate Current(ns: seq<RegNode>) {
    forall a, c | Records(ns, a, c) :: Matches(ns, c)
  }

  /** The demand recorded for an address, 0 when there is none. */
  function Recorded(kids: seq<Child>, addr: nat): nat {
    var i := FindKid(kids, addr);
    if i < |kids| then kids[i].demand else 0
  }

  /** Somebody else than the new parent lists the node, with another class or demand than it now has. */
  ghost predicate LeavesOldRecord(ns: seq<RegNode>, n: RegNode) {
    && Lookup(ns, n.addr).Some? && !SameAsk(Lookup(ns, n.addr).value, Child(n.addr, n.cls, n.demand))
    && exists a :: a != n.addr && (n.hop.OneHop? || a != n.parent) && Lists(ns, a, n.addr)
  }

  /** The demand of the parent changes, and somebody lists the parent. */
  ghost predicate GrowsUnseen(ns: seq<RegNode>, n: RegNode) {
    && n.hop.TwoHop? && Lookup(ns, n.parent).Some?
    && (n.demand - Recorded(Lookup(ns, n.parent).value.kids, n.addr)) % 128 != 0
    && exists a :: a != n.addr && Lists(ns, a, n.parent)
  }

  /** An accepted registration after which some record is out of date. */
  ghost predicate Outdates(ns: seq<RegNode>, n: RegNode) {
    !NoRoom(ns, n) && (LeavesOldRecord(ns, n) || GrowsUnseen(ns, n))
  }

  // ---------------------------------------------------------------- the parent's table

  lemma {:induction false} DemandMoves(d: nat, was: nat, now: nat)
    requires d < U8
    ensures ((d - 2 * was) % U8 + 2 * now) % U8 == d <==> (now - was) % 128 == 0
  {
    var x := (now - was) % 128;
    var q := (now - was) / 128;
    assert now - was == 128 * q + x;
    Turned(d + 2 * x, q);
    ModChain(d, 2 * was, 2 * now);
  }

  lemma {:induction false} Turned(x: int, q: int)
    ensures (x + U8 * q) % U8 == x % U8
    decreases if q < 0 then -q else q
  {
    if q > 0 {
      Turned(x, q - 1);
      assert x + U8 * q == x + U8 * (q - 1) + U8;
    } else if q < 0 {
      Turned(x, q + 1);
      assert x + U8 * q == x + U8 * (q + 1) - U8;
    }
  }

  function RecordOf(n: RegNode): Child {
    Child(n.addr, n.cls, n.demand)
  }

  /** The parent's table gains the record of the child; its demand stays exactly when that of the child does, modulo 128. */
  lemma {:induction false} TableAfter(p: RegNode, n: RegNode, c: Child)
    requires NodeOk(p) && WellFormed(n) && AddChild(p, n).1
    ensures AddChild(p, n).0.demand == p.demand <==> (n.demand - Recorded(p.kids, n.addr)) % 128 == 0
    ensures AddChild(p, n).0.cls == p.cls
    ensures c.addr != 0 ==> (c in AddChild(p, n).0.kids <==> c == RecordOf(n) || (c in p.kids && c.addr != n.addr))
  {
    hide FindKid, Pow2, KidCount, KidDemand;
    var q := AddChild(p, n).0;
    var i := FindKid(p.kids, n.addr);
    var j := if i < |p.kids| then i else FindKid(p.kids, 0);
    DemandMoves(p.demand, Recorded(p.kids, n.addr), n.demand);
    assert q.kids == p.kids[j := RecordOf(n)];
    if c.addr != 0 { SlotTaken(p.kids, j, RecordOf(n), c); }
  }

  lemma {:induction false} SlotTaken(kids: seq<Child>, j: nat, e: Child, c: Child)
    requires KidsOk(kids) && j < |kids| && c.addr != 0 && e.addr != 0
    requires kids[j].addr == e.addr || (kids[j].addr == 0 && forall i | 0 <= i < |kids| :: kids[i].addr != e.addr)
    ensures c in kids[j := e] <==> c == e || (c in kids && c.addr != e.addr)
  {
    var r := kids[j := e];
    assert r[j] == e;
    if c in kids && c.addr != e.addr {
      var i :| 0 <= i < |kids| && kids[i] == c;
      assert r[i] == c;
    }
    if c in r && c != e {
      var i :| 0 <= i < |r| && r[i] == c;
      assert i != j && kids[i] == c;
    }
  }

  // ---------------------------------------------------------------- records after a registration

  lemma {:induction false} RecordsAfter(ns: seq<RegNode>, n: RegNode, a: nat, c: Child)
    requires RegistryOk(ns) && WellFormed(n) && !NoRoom(ns, n)
    ensures Records(Register(ns, n).0, a, c)
            <==> && a != n.addr
                 && (if n.hop.TwoHop? && a == n.parent
                     then c == RecordOf(n) || (Records(ns, a, c) && c.addr != n.addr)
                     else Records(ns, a, c))
  {
    hide NoRoom, NodeOk, AddChild;
    var r := Register(ns, n).0;
    RegisterTable(ns, n);
    RefusedIff(ns, n);
    assert RowOk(ns, a);
    if a == n.addr {
      Nothing(n, c);
    } else if n.hop.TwoHop? {
      if a == n.parent { TableAfter(Lookup(ns, a).value, n, c); }
    } else {
      assert SameRow(Lookup(r, a), Lookup(ns, a));
    }
  }

  lemma {:induction false} Nothing(n: RegNode, c: Child)
    requires WellFormed(n)
    ensures c.addr != 0 ==> c !in n.kids
  {
  }

  lemma {:induction false} MatchesAfter(ns: seq<RegNode>, n: RegNode, c: Child)
    requires RegistryOk(ns) && WellFormed(n) && !NoRoom(ns, n)
    ensures n.hop.TwoHop? ==> Lookup(ns, n.parent).Some?
    ensures Matches(Register(ns, n).0, c)
            <==> if c.addr == n.addr then SameAsk(n, c)
                 else if n.hop.TwoHop? && c.addr == n.parent then SameAsk(AddChild(Lookup(ns, n.parent).value, n).0, c)
                 else Matches(ns, c)
  {
    hide NoRoom, NodeOk, AddChild;
    var r := Register(ns, n).0;
    RegisterTable(ns, n);
    RefusedIff(ns, n);
    if c.addr != n.addr && n.hop.OneHop? {
      assert SameRow(Lookup(r, c.addr), Lookup(ns, c.addr));
    }
  }

  lemma {:induction false} RefusedKeepsCurrent(ns: seq<RegNode>, n: RegNode)
    requires RegistryOk(ns) && WellFormed(n) && Current(ns) && NoRoom(ns, n)
    ensures Current(Register(ns, n).0)
  {
    hide NoRoom;
    var r := Register(ns, n).0;
    RegisterTable(ns, n);
    RefusedIff(ns, n);
    TwoHopOnly(ns, n);
    forall a, c | Records(r, a, c)
      ensures Matches(r, c)
    {
      assert Records(ns, a, c);
    }
  }

  /** A listed address has a record. */
  lemma {:induction false} ListedHasRecord(ns: seq<RegNode>, a: nat, b: nat) returns (c: Child)
    requires Lists(ns, a, b)
    ensures c.addr == b && Records(ns, a, c)
  {
    var kids := Lookup(ns, a).value.kids;
    var i :| 0 <= i < |kids| && kids[i].addr == b;
    c := kids[i];
  }

  lemma {:induction false} RecordIsListed(ns: seq<RegNode>, a: nat, c: Child)
    requires Records(ns, a, c)
    ensures Lists(ns, a, c.addr)
  {
  }

  /** What the demand of the parent does. */
  lemma {:induction false} ParentAsks(ns: seq<RegNode>, n: RegNode, c: Child)
    requires RegistryOk(ns) && WellFormed(n) && !NoRoom(ns, n) && n.hop.TwoHop? && c.addr == n.parent
    ensures Lookup(ns, n.parent).Some?
    ensures var p := Lookup(ns, n.parent).value;
            Matches(ns, c) ==> (SameAsk(AddChild(p, n).0, c) <==> (n.demand - Recorded(p.kids, n.addr)) % 128 == 0)
  {
    hide NoRoom, NodeOk, AddChild, Recorded;
    RegisterTable(ns, n);
    RefusedIff(ns, n);
    assert RowOk(ns, n.parent);
    TableAfter(Lookup(ns, n.parent).value, n, c);
  }

  /** Registration keeps all records up to date, except exactly when it leaves an old one behind or makes a
      listed parent grow. */
  lemma {:induction false} RegisterKeepsCurrentIff(ns: seq<RegNode>, n: RegNode)
    requires RegistryOk(ns) && WellFormed(n) && Current(ns)
    ensures Current(Register(ns, n).0) <==> !Outdates(ns, n)
  {
    hide NoRoom, RegistryOk, WellFormed, Records, Matches, Lists, Register, AddChild, Recorded;
    if NoRoom(ns, n) {
      RefusedKeepsCurrent(ns, n);
    } else if LeavesOldRecord(ns, n) {
      OldRecordStays(ns, n);
    } else if GrowsUnseen(ns, n) {
      GrowthUnseen(ns, n);
    } else {
      forall a, c | Records(Register(ns, n).0, a, c)
        ensures Matches(Register(ns, n).0, c)
      {
        StaysCurrent(ns, n, a, c);
      }
    }
  }

  lemma {:induction false} OldRecordStays(ns: seq<RegNode>, n: RegNode)
    requires RegistryOk(ns) && WellFormed(n) && Current(ns) && !NoRoom(ns, n) && LeavesOldRecord(ns, n)
    ensures !Current(Register(ns, n).0)
  {
    hide NoRoom, RegistryOk, WellFormed, Records, Lists, Register;
    var r := Register(ns, n).0;
    var a :| a != n.addr && (n.hop.OneHop? || a != n.parent) && Lists(ns, a, n.addr);
    var c := ListedHasRecord(ns, a, n.addr);
    RecordsAfter(ns, n, a, c);
    MatchesAfter(ns, n, c);
    assert Matches(ns, c);
    assert Records(r, a, c) && !Matches(r, c);
  }

  lemma {:induction false} GrowthUnseen(ns: seq<RegNode>, n: RegNode)
    requires RegistryOk(ns) && WellFormed(n) && Current(ns) && !NoRoom(ns, n) && GrowsUnseen(ns, n)
    ensures !Current(Register(ns, n).0)
  {
    hide NoRoom, RegistryOk, Records, Lists, Register, AddChild, Recorded;
    var r := Register(ns, n).0;
    var a :| a != n.addr && Lists(ns, a, n.parent);
    var c := ListedHasRecord(ns, a, n.parent);
    RecordsAfter(ns, n, a, c);
    MatchesAfter(ns, n, c);
    ParentAsks(ns, n, c);
    assert Matches(ns, c);
    assert Records(r, a, c) && !Matches(r, c);
  }

  lemma {:induction false} StaysCurrent(ns: seq<RegNode>, n: RegNode, a: nat, c: Child)
    requires RegistryOk(ns) && WellFormed(n) && Current(ns) && !Outdates(ns, n) && !NoRoom(ns, n)
    requires Records(Register(ns, n).0, a, c)
    ensures Matches(Register(ns, n).0, c)
  {
    hide NoRoom, RegistryOk, WellFormed, Records, Lists, Register, AddChild, Recorded;
    RecordsAfter(ns, n, a, c);
    MatchesAfter(ns, n, c);
    if Records(ns, a, c) {
      RecordIsListed(ns, a, c);
      assert Matches(ns, c);
      if n.hop.TwoHop? && c.addr == n.parent { ParentAsks(ns, n, c); }
    }
  }

  // ---------------------------------------------------------------- every step of the server

  lemma {:induction false} MarksKeepCurrent(r: seq<RegNode>, ns: seq<RegNode>)
    requires |r| == |ns| && Current(ns)
    requires forall j | 0 <= j < |ns| :: r[j] == ns[j].(connected := r[j].connected, flag := r[j].flag)
    ensures Current(r)
  {
    forall a, c | Records(r, a, c)
      ensures Matches(r, c)
    {
      MarkedLookup(r, ns, a);
      MarkedLookup(r, ns, c.addr);
      assert Records(ns, a, c);
    }
  }

  lemma {:induction false} ScheduleKeepsCurrent(ns: seq<RegNode>, gs: seq<Group>, dist: nat)
    requires gs != [] && Current(ns)
    ensures Current(ScheduleFrom(ns, gs, 0, dist).0)
  {
    Balance.ScheduleMarks(ns, gs, 0, dist);
    MarksKeepCurrent(ScheduleFrom(ns, gs, 0, dist).0, ns);
  }

  /** Every step keeps all records up to date, except exactly the absorption of such a registration. */
  lemma {:induction false} StepKeepsCurrentIff(s: State, op: Op)
    requires StateOk(s) && OpOk(op) && Current(s.nodes)
    ensures Current(Step(s, op).nodes) <==> !(op.Absorb? && s.queue != [] && Outdates(s.nodes, s.queue[0]))
  {
    hide Current, Outdates;
    match op
    case Receive(n) =>
    case Absorb => if s.queue != [] { RegisterKeepsCurrentIff(s.nodes, s.queue[0]); }
    case StartPhase =>
      MarksKeepCurrent(ClearFlags(s.nodes, false), s.nodes);
      ScheduleKeepsCurrent(ClearFlags(s.nodes, false), ClearAll(s.groups), DIST_SD);
    case SlotSm =>
    case Schedule => ScheduleKeepsCurrent(s.nodes, s.groups, DIST_DC);
    case FrameCm =>
  }

  // ---------------------------------------------------------------- networks with a plan

  /** How a node always registers, whatever its class. */
  datatype Place = Place(hop: Hop, parent: nat)

  predicate InPlan(n: RegNode, plan: nat -> Place) {
    n.hop == plan(n.addr).hop && (n.hop.TwoHop? ==> n.parent == plan(n.addr).parent)
  }

  predicate Follows(ops: seq<Op>, plan: nat -> Place) {
    forall i | 0 <= i < |ops| && ops[i].Receive? :: InPlan(ops[i].n, plan)
  }

  /** The plan has y as a two-hop node under x. */
  predicate Link(plan: nat -> Place, y: nat, x: nat) {
    0 < y < ADDR_LIMIT && 0 < x < ADDR_LIMIT && plan(y) == Place(TwoHop, x)
  }

  /** A two-hop node under a two-hop node under a one-hop node. */
  ghost predicate Chain(plan: nat -> Place) {
    exists x, y, z :: Link(plan, y, x) && Link(plan, x, z) && plan(z).hop.OneHop?
  }

  ghost predicate Planned(ns: seq<RegNode>, plan: nat -> Place) {
    forall a | Lookup(ns, a).Some? :: PlannedRow(ns, plan, a)
  }

  /** A registered node is in the plan, and its parent is registered and a one-hop node. */
  predicate PlannedRow(ns: seq<RegNode>, plan: nat -> Place, a: nat) {
    Lookup(ns, a).Some? &&
    InPlan(Lookup(ns, a).value, plan) &&
    (plan(a).hop.TwoHop? ==> Lookup(ns, plan(a).parent).Some? && plan(plan(a).parent).hop.OneHop?)
  }

  ghost predicate PlannedState(s: State, plan: nat -> Place) {
    && Planned(s.nodes, plan) && Tree(s.nodes) && Current(s.nodes)
    && forall i | 0 <= i < |s.queue| :: InPlan(s.queue[i], plan)
  }

  lemma {:induction false} PlannedAt(ns: seq<RegNode>, plan: nat -> Place, a: nat)
    requires Planned(ns, plan) && Lookup(ns, a).Some?
    ensures PlannedRow(ns, plan, a)
  {
  }

  /** A planned node that is listed is a two-hop node under the node that lists it, also when it registers again. */
  lemma {:induction false} ListedInPlan(ns: seq<RegNode>, plan: nat -> Place, a: nat, b: nat)
    requires Planned(ns, plan) && Tree(ns) && Lists(ns, a, b)
    ensures Lookup(ns, a).Some? && Lookup(ns, b).Some?
    ensures plan(b).hop.TwoHop? && plan(b).parent == a && plan(a).hop.OneHop?
  {
    assert ChildOf(ns, b, a);
    PlannedAt(ns, plan, b);
  }

  lemma {:induction false} ValidAddr(ns: seq<RegNode>, a: nat)
    requires RegistryOk(ns) && Lookup(ns, a).Some?
    ensures 0 < a < ADDR_LIMIT
  {
    assert RowOk(ns, a);
  }

  /** An accepted two-hop registration names a one-hop parent when the plan has no chain. */
  lemma {:induction false} ParentIsRoot(ns: seq<RegNode>, n: RegNode, plan: nat -> Place)
    requires RegistryOk(ns) && WellFormed(n) && Planned(ns, plan) && InPlan(n, plan) && !Chain(plan)
    requires n.hop.TwoHop? && Lookup(ns, n.parent).Some?
    ensures plan(n.parent).hop.OneHop?
  {
    hide RegistryOk, Planned, Chain;
    PlannedAt(ns, plan, n.parent);
    ValidAddr(ns, n.parent);
    if plan(n.parent).hop.TwoHop? {
      ValidAddr(ns, plan(n.parent).parent);
      IsChain(plan, n.addr, n.parent, plan(n.parent).parent);
    }
  }

  lemma {:induction false} IsChain(plan: nat -> Place, y: nat, x: nat, z: nat)
    requires Link(plan, y, x) && Link(plan, x, z) && plan(z).hop.OneHop?
    ensures Chain(plan)
  {
  }

  /** A planned registration moves nobody and, without a chain, leaves no record behind. */
  lemma {:induction false} PlannedIsQuiet(ns: seq<RegNode>, n: RegNode, plan: nat -> Place)
    requires RegistryOk(ns) && WellFormed(n) && Planned(ns, plan) && Tree(ns) && InPlan(n, plan)
    ensures !Moves(ns, n)
    ensures !Chain(plan) ==> !Outdates(ns, n)
  {
    hide RegistryOk, WellFormed, Planned, Tree, Lists, NoRoom, Chain, Recorded, SameAsk;
    if Moves(ns, n) {
      ListedInPlan(ns, plan, Lookup(ns, n.addr).value.parent, n.addr);
    }
    if LeavesOldRecord(ns, n) {
      var a :| a != n.addr && (n.hop.OneHop? || a != n.parent) && Lists(ns, a, n.addr);
      ListedInPlan(ns, plan, a, n.addr);
    }
    if GrowsUnseen(ns, n) && !Chain(plan) {
      var a :| a != n.addr && Lists(ns, a, n.parent);
      ListedInPlan(ns, plan, a, n.parent);
      ParentIsRoot(ns, n, plan);
    }
  }

  /** Who is registered after a registration, and how. */
  lemma {:induction false} RowsAfter(ns: seq<RegNode>, n: RegNode, plan: nat -> Place, a: nat)
    requires RegistryOk(ns) && WellFormed(n) && Planned(ns, plan) && InPlan(n, plan)
    ensures var r := Register(ns, n).0;
            && (Lookup(ns, a).Some? ==> Lookup(r, a).Some?)
            && (Lookup(r, a).Some? ==> InPlan(Lookup(r, a).value, plan))
            && (Lookup(r, a).Some? ==> Lookup(ns, a).Some? || (a == n.addr && Register(ns, n).1))
  {
    hide WellFormed, Planned, NodeOk, AddChild;
    Demands.IsWellFormed(n);
    RegisterTable(ns, n);
    if Lookup(ns, a).Some? { PlannedAt(ns, plan, a); }
    if n.hop.OneHop? {
      if a != n.addr { assert SameRow(Lookup(Register(ns, n).0, a), Lookup(ns, a)); }
    } else if a == n.parent && Lookup(ns, a).Some? {
      SameParent(Lookup(ns, a).value, n);
      AdoptKeepsAddr(Lookup(ns, a).value, n);
    }
  }

  lemma {:induction false} Accepted(ns: seq<RegNode>, n: RegNode)
    requires RegistryOk(ns) && WellFormed(n) && n.hop.TwoHop? && Register(ns, n).1
    ensures Lookup(ns, n.parent).Some?
  {
    RegisterTable(ns, n);
  }

  lemma {:induction false} RegisterKeepsPlanned(ns: seq<RegNode>, n: RegNode, plan: nat -> Place)
    requires RegistryOk(ns) && WellFormed(n) && Planned(ns, plan) && InPlan(n, plan) && !Chain(plan)
    ensures Planned(Register(ns, n).0, plan)
  {
    hide RegistryOk, WellFormed, Planned, Register, Chain;
    var r := Register(ns, n).0;
    forall a | Lookup(r, a).Some?
      ensures PlannedRow(r, plan, a)
    {
      RowsAfter(ns, n, plan, a);
      if plan(a).hop.TwoHop? {
        RowsAfter(ns, n, plan, plan(a).parent);
        if Lookup(ns, a).Some? {
          PlannedAt(ns, plan, a);
        } else {
          Accepted(ns, n);
          ParentIsRoot(ns, n, plan);
        }
      }
    }
    PlannedIntro(r, plan);
  }

  lemma {:induction false} PlannedIntro(ns: seq<RegNode>, plan: nat -> Place)
    requires forall a | Lookup(ns, a).Some? :: PlannedRow(ns, plan, a)
    ensures Planned(ns, plan)
  {
  }

  lemma {:induction false} MarksKeepPlanned(r: seq<RegNode>, ns: seq<RegNode>, plan: nat -> Place)
    requires |r| == |ns| && Planned(ns, plan)
    requires forall j | 0 <= j < |ns| :: r[j] == ns[j].(connected := r[j].connected, flag := r[j].flag)
    ensures Planned(r, plan)
  {
    forall a | Lookup(r, a).Some?
      ensures PlannedRow(r, plan, a)
    {
      MarkedLookup(r, ns, a);
      MarkedLookup(r, ns, plan(a).parent);
      assert PlannedRow(ns, plan, a);
    }
  }

  lemma {:induction false} ScheduleKeepsPlanned(ns: seq<RegNode>, gs: seq<Group>, dist: nat, plan: nat -> Place)
    requires gs != [] && Planned(ns, plan)
    ensures Planned(ScheduleFrom(ns, gs, 0, dist).0, plan)
  {
    Balance.ScheduleMarks(ns, gs, 0, dist);
    MarksKeepPlanned(ScheduleFrom(ns, gs, 0, dist).0, ns, plan);
  }

  lemma {:induction false} NodesKeepPlanned(s: State, op: Op, plan: nat -> Place)
    requires StateOk(s) && OpOk(op) && PlannedState(s, plan) && !Chain(plan)
    ensures Planned(Step(s, op).nodes, plan)
  {
    hide Planned, Tree, Current, Chain;
    match op
    case Receive(n) =>
    case Absorb => if s.queue != [] { RegisterKeepsPlanned(s.nodes, s.queue[0], plan); }
    case StartPhase =>
      MarksKeepPlanned(ClearFlags(s.nodes, false), s.nodes, plan);
      ScheduleKeepsPlanned(ClearFlags(s.nodes, false), ClearAll(s.groups), DIST_SD, plan);
    case SlotSm =>
    case Schedule => ScheduleKeepsPlanned(s.nodes, s.groups, DIST_DC, plan);
    case FrameCm =>
  }

  lemma {:induction false} QueueKeepsPlanned(s: State, op: Op, plan: nat -> Place)
    requires s.groups != [] && (op.Receive? ==> InPlan(op.n, plan))
    requires forall i | 0 <= i < |s.queue| :: InPlan(s.queue[i], plan)
    ensures forall i | 0 <= i < |Step(s, op).queue| :: InPlan(Step(s, op).queue[i], plan)
  {
    hide InPlan, AddNode, Distribute, ScheduleFrom;
  }

  lemma {:induction false} StepKeepsPlanned(s: State, op: Op, plan: nat -> Place)
    requires StateOk(s) && OpOk(op) && (op.Receive? ==> InPlan(op.n, plan)) && PlannedState(s, plan) && !Chain(plan)
    ensures PlannedState(Step(s, op), plan)
  {
    hide Planned, Tree, Current, Chain, InPlan, Step;
    Demands.HasGroups(s);
    NodesKeepPlanned(s, op, plan);
    QueueKeepsPlanned(s, op, plan);
    StepKeepsTreeIff(s, op);
    StepKeepsCurrentIff(s, op);
    if op.Absorb? && s.queue != [] {
      PlannedIsQuiet(s.nodes, s.queue[0], plan);
    }
  }

  lemma {:induction false} RunKeepsPlanned(s: State, ops: seq<Op>, plan: nat -> Place)
    requires StateOk(s) && Demands.AllOk(ops) && Follows(ops, plan) && PlannedState(s, plan) && !Chain(plan)
    ensures PlannedState(Run(s, ops), plan)
    decreases |ops|
  {
    hide StateOk, PlannedState, Step, OpOk, InPlan, Chain;
    if ops != [] {
      Demands.HasGroups(s);
      StepKeepsOk(s, ops[0]);
      StepKeepsPlanned(s, ops[0], plan);
      RunKeepsPlanned(Step(s, ops[0]), ops[1..], plan);
    }
  }

  // ---------------------------------------------------------------- a chain

  function Root(z: nat): RegNode {
    NewNode(z, 0, OneHop, 0)
  }

  function Under(x: nat, p: nat): RegNode {
    NewNode(x, 0, TwoHop, p)
  }

  /** A one-hop node z, x under it and y under x, all of class 0, registered from the root down. */
  function ChainOps(x: nat, y: nat, z: nat): seq<Op> {
    [Receive(Root(z)), Absorb, Receive(Under(x, z)), Absorb, Receive(Under(y, x)), Absorb]
  }

  function TwoNodes(x: nat, z: nat): seq<RegNode> {
    Register(Register([], Root(z)).0, Under(x, z)).0
  }

  function ChainNodes(x: nat, y: nat, z: nat): seq<RegNode> {
    Register(TwoNodes(x, z), Under(y, x)).0
  }

  /** A lone root lists nobody. */
  lemma {:induction false} LoneRoot(z: nat)
    requires 0 < z < ADDR_LIMIT
    ensures var r := Register([], Root(z)).0;
            && WellFormed(Root(z)) && RegistryOk(r) && Current(r)
            && Row(r, z, NOBODY, 1) && (forall a | a != z :: Lookup(r, a).None?) && (forall a, b :: !Lists(r, a, b))
  {
    hide RegisterOneHop;
    var n, r := Root(z), Register([], Root(z)).0;
    EmptyDistinct();
    assert RegistryOk([]);
    RegisterKeepsRegistryOk([], n);
    NewRelay([], z, 0, NOBODY, 1);
    RegisterTable([], n);
    forall a | a != z
      ensures Lookup(r, a).None?
    {
      assert SameRow(Lookup(r, a), Lookup([], a));
    }
  }

  lemma {:induction false} ChildUnderRoot(x: nat, z: nat)
    requires 0 < x < ADDR_LIMIT && 0 < z < ADDR_LIMIT && x != z
    ensures var r := TwoNodes(x, z);
            && WellFormed(Under(x, z)) && RegistryOk(r) && Current(r)
            && Lookup(r, x) == Some(Under(x, z)) && Lists(r, z, x)
  {
    hide Register, RegistryOk, Current, KidCount;
    var ns, n := Register([], Root(z)).0, Under(x, z);
    LoneRoot(z);
    NotOutdated(ns, n);
    RoomInRoot(ns, x, z);
    RegisterKeepsRegistryOk(ns, n);
    RegisterKeepsCurrentIff(ns, n);
    ListedAfter(ns, n, x);
    Joined(ns, n);
  }

  lemma {:induction false} NotOutdated(ns: seq<RegNode>, n: RegNode)
    requires Lookup(ns, n.addr).None? && forall a, b :: !Lists(ns, a, b)
    ensures !Outdates(ns, n)
  {
  }

  lemma {:induction false} RoomInRoot(ns: seq<RegNode>, x: nat, z: nat)
    requires Row(ns, z, NOBODY, 1)
    ensures !NoRoom(ns, Under(x, z))
  {
    assert NOBODY[0].addr == 0;
  }

  lemma {:induction false} Joined(ns: seq<RegNode>, n: RegNode)
    requires RegistryOk(ns) && WellFormed(n) && !NoRoom(ns, n)
    ensures Lookup(Register(ns, n).0, n.addr) == Some(n)
  {
    hide NoRoom;
    RegisterTable(ns, n);
    RefusedIff(ns, n);
  }

  /** The demand of x grows from 1 to 3, and z still has 1 on record. */
  lemma {:induction false} ChainIsOutdated(x: nat, y: nat, z: nat)
    requires 0 < x < ADDR_LIMIT && 0 < y < ADDR_LIMIT && 0 < z < ADDR_LIMIT && x != z && y != z && x != y
    ensures WellFormed(Under(y, x)) && !Current(ChainNodes(x, y, z))
  {
    hide Register, RegistryOk, Current, Lists;
    var ns, n := TwoNodes(x, z), Under(y, x);
    ChildUnderRoot(x, z);
    assert NOBODY[0].addr == 0;
    NothingRecorded(y);
    assert Pow2(0) == 1;
    assert z != n.addr && Lists(ns, z, n.parent);
    assert GrowsUnseen(ns, n);
    RegisterKeepsCurrentIff(ns, n);
  }

  lemma {:induction false} NothingRecorded(y: nat)
    requires y != 0
    ensures Recorded(NOBODY, y) == 0
  {
    assert NOBODY[1..][1..] == [];
    assert FindKid(NOBODY[1..], y) == 1;
  }

  lemma {:induction false} ChainRun(groups: nat, tot: nat, x: nat, y: nat, z: nat)
    requires groups >= 1 && WellFormed(Root(z)) && WellFormed(Under(x, z)) && WellFormed(Under(y, x))
    ensures StateOk(Boot(groups, tot)) && Demands.AllOk(ChainOps(x, y, z))
    ensures Run(Boot(groups, tot), ChainOps(x, y, z)).nodes == ChainNodes(x, y, z)
  {
    hide Register, StateOk, WellFormed, Run;
    var s0 := Boot(groups, tot);
    BootOk(groups, tot);
    var n1 := Register([], Root(z)).0;
    var n2 := Register(n1, Under(x, z)).0;
    var r3 := [Receive(Under(y, x)), Absorb] + [];
    var r2 := [Receive(Under(x, z)), Absorb] + r3;
    assert ChainOps(x, y, z) == [Receive(Root(z)), Absorb] + r2;
    Demands.Registers(s0, Root(z), r2, tot);
    Demands.Registers(State(n1, [], s0.groups), Under(x, z), r3, tot);
    Demands.Registers(State(n2, [], s0.groups), Under(y, x), [], tot);
    Demands.RunNothing(State(ChainNodes(x, y, z), [], s0.groups));
  }

  lemma {:induction false} ChainFollows(x: nat, y: nat, z: nat, plan: nat -> Place)
    requires Link(plan, y, x) && Link(plan, x, z) && plan(z).hop.OneHop?
    ensures Follows(ChainOps(x, y, z), plan)
  {
  }

  /** When every node keeps its place, all records are up to date on every run, whatever the classes and the
      order of the steps, if and only if the plan has no two-hop node under a two-hop node. */
  lemma {:induction false} PlanIff(groups: nat, tot: nat, plan: nat -> Place)
    requires groups >= 1
    ensures StateOk(Boot(groups, tot))
    ensures (forall ops | Demands.AllOk(ops) && Follows(ops, plan) :: Current(Run(Boot(groups, tot), ops).nodes))
            <==> !Chain(plan)
  {
    hide Run, StateOk, OpOk, Current, Tree, Planned, WellFormed, Follows, ChainNodes;
    BootOk(groups, tot);
    if Chain(plan) {
      var x, y, z :| Link(plan, y, x) && Link(plan, x, z) && plan(z).hop.OneHop?;
      LoneRoot(z);
      ChildUnderRoot(x, z);
      ChainIsOutdated(x, y, z);
      ChainRun(groups, tot, x, y, z);
      ChainFollows(x, y, z, plan);
      var ops := ChainOps(x, y, z);
      assert Demands.AllOk(ops) && Follows(ops, plan) && !Current(Run(Boot(groups, tot), ops).nodes);
    } else {
      BootPlanned(groups, tot, plan);
      forall ops | Demands.AllOk(ops) && Follows(ops, plan)
        ensures Current(Run(Boot(groups, tot), ops).nodes)
      {
        RunKeepsPlanned(Boot(groups, tot), ops, plan);
      }
    }
  }

  lemma {:induction false} BootPlanned(groups: nat, tot: nat, plan: nat -> Place)
    ensures PlannedState(Boot(groups, tot), plan)
  {
  }
}
