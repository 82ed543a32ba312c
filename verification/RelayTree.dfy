/**
  * Is the registry a forest of relays?  A child that registers again under another parent, or as a
  * one-hop node, stays in the table of its old parent: addNodeToNodeList never takes it out.  A relay
  * that registers again loses its table, while its children stay registered under it.
  */
module RelayTree {
  import opened Wrappers
  import opened SlotSpec
  import opened RegistrySpec
  import opened ServerSpec
  import Balance
  import Runs

  /** The node at address a lists b among its children. */
  predicate Lists(ns: seq<RegNode>, a: nat, b: nat) {
    Lookup(ns, a).Some? && ListsIn(Lookup(ns, a).value.kids, b)
  }

  predicate ListsIn(kids: seq<Child>, b: nat) {
    b != 0 && exists i :: 0 <= i < |kids| && kids[i].addr == b
  }

  /** Every listed child is a two-hop node whose own parent is the node that lists it. */
  ghost predicate Tree(ns: seq<RegNode>) {
    forall a, b | Lists(ns, a, b) :: ChildOf(ns, b, a)
  }

  predicate ChildOf(ns: seq<RegNode>, b: nat, a: nat) {
    Lookup(ns, b).Some? && Lookup(ns, b).value.hop.TwoHop? && Lookup(ns, b).value.parent == a
  }

  /** In a tree no child has two parents. */
  lemma {:induction false} OneParent(ns: seq<RegNode>, a: nat, a': nat, b: nat)
    requires Tree(ns) && Lists(ns, a, b) && Lists(ns, a', b)
    ensures a == a'
  {
    assert ChildOf(ns, b, a) && ChildOf(ns, b, a');
  }

  /** An accepted registration of a node that its parent lists, as a one-hop node or under another parent. */
  predicate Moves(ns: seq<RegNode>, n: RegNode) {
    && !NoRoom(ns, n)
    && Lookup(ns, n.addr).Some?
    && var was := Lookup(ns, n.addr).value.parent;
       && was != n.addr && Lists(ns, was, n.addr)
       && (n.hop.OneHop? || n.parent != was)
  }

  lemma {:induction false} FreshListsNobody(n: RegNode, b: nat)
    requires WellFormed(n)
    ensures !ListsIn(n.kids, b)
  {
  }

  /** Whoever the new parent lists is an old child or the new one. */
  lemma {:induction false} ParentLists(p: RegNode, n: RegNode, b: nat)
    requires NodeOk(p) && WellFormed(n) && ListsIn(AddChild(p, n).0.kids, b)
    ensures ListsIn(p.kids, b) || b == n.addr
  {
    var q := AddChild(p, n).0;
    AddChildKeepsNodeOk(p, n);
    var i :| 0 <= i < |q.kids| && q.kids[i].addr == b;
    assert q.kids[i] == p.kids[i] || q.kids[i] == Child(n.addr, n.cls, n.demand);
  }

  /** What an accepted registration leaves listed: the old lists of the others, and the new child. */
  lemma {:induction false} ListsAfter(ns: seq<RegNode>, n: RegNode, a: nat, b: nat)
    requires RegistryOk(ns) && WellFormed(n) && !NoRoom(ns, n)
    ensures Lists(Register(ns, n).0, a, b) ==>
              a != n.addr && (Lists(ns, a, b) || (n.hop.TwoHop? && a == n.parent && b == n.addr))
    ensures a != n.addr && (n.hop.OneHop? || a != n.parent) ==> Lists(Register(ns, n).0, a, b) == Lists(ns, a, b)
  {
    hide NoRoom, ListsIn, NodeOk;
    var r := Register(ns, n).0;
    RegisterTable(ns, n);
    RefusedIff(ns, n);
    FreshListsNobody(n, b);
    if n.hop.TwoHop? && a == n.parent {
      assert RowOk(ns, a);
      if Lists(r, a, b) { ParentLists(Lookup(ns, a).value, n, b); }
    } else if a != n.addr && n.hop.OneHop? {
      assert SameRow(Lookup(r, a), Lookup(ns, a));
    }
  }

  /** The rows of all other children keep their parent. */
  lemma {:induction false} ChildAfter(ns: seq<RegNode>, n: RegNode, a: nat, b: nat)
    requires RegistryOk(ns) && WellFormed(n) && !NoRoom(ns, n)
    ensures b != n.addr ==> (ChildOf(ns, b, a) <==> ChildOf(Register(ns, n).0, b, a))
    ensures ChildOf(Register(ns, n).0, n.addr, a) <==> n.hop.TwoHop? && n.parent == a
  {
    hide NoRoom, NodeOk;
    var r := Register(ns, n).0;
    RegisterTable(ns, n);
    RefusedIff(ns, n);
    if n.hop.TwoHop? && b == n.parent && Lookup(ns, b).Some? {
      SameParent(Lookup(ns, b).value, n);
    } else if b != n.addr && n.hop.OneHop? {
      assert SameRow(Lookup(r, b), Lookup(ns, b));
    }
  }

  lemma {:induction false} SameParent(p: RegNode, n: RegNode)
    ensures AddChild(p, n).0.parent == p.parent && AddChild(p, n).0.hop == p.hop
  {
    hide FindKid;
  }

  lemma {:induction false} RefusedKeepsTree(ns: seq<RegNode>, n: RegNode)
    requires RegistryOk(ns) && WellFormed(n) && Tree(ns) && NoRoom(ns, n)
    ensures Tree(Register(ns, n).0)
  {
    hide NoRoom;
    var r := Register(ns, n).0;
    RegisterTable(ns, n);
    RefusedIff(ns, n);
    TwoHopOnly(ns, n);
    forall a, b | Lists(r, a, b)
      ensures ChildOf(r, b, a)
    {
      assert Lists(ns, a, b);
    }
  }

  lemma {:induction false} TwoHopOnly(ns: seq<RegNode>, n: RegNode)
    ensures NoRoom(ns, n) ==> n.hop.TwoHop?
  {
  }

  /** Registration keeps the registry a tree exactly when it does not move a listed child. */
  lemma {:induction false} RegisterKeepsTreeIff(ns: seq<RegNode>, n: RegNode)
    requires RegistryOk(ns) && WellFormed(n) && Tree(ns)
    ensures Tree(Register(ns, n).0) <==> !Moves(ns, n)
  {
    hide NoRoom, RegistryOk, WellFormed, Lists, ChildOf, Register;
    var r := Register(ns, n).0;
    if NoRoom(ns, n) {
      RefusedKeepsTree(ns, n);
    } else if Moves(ns, n) {
      var was := Lookup(ns, n.addr).value.parent;
      ListsAfter(ns, n, was, n.addr);
      ChildAfter(ns, n, was, n.addr);
      assert Lists(r, was, n.addr) && !ChildOf(r, n.addr, was);
    } else {
      forall a, b | Lists(r, a, b)
        ensures ChildOf(r, b, a)
      {
        ListsAfter(ns, n, a, b);
        ChildAfter(ns, n, a, b);
        if b == n.addr && Lists(ns, a, b) { ParentIs(ns, b, a); }
      }
    }
  }

  lemma {:induction false} ParentIs(ns: seq<RegNode>, b: nat, a: nat)
    requires Tree(ns) && Lists(ns, a, b)
    ensures Lookup(ns, b).Some? && Lookup(ns, b).value.parent == a
  {
    assert ChildOf(ns, b, a);
  }

  // ---------------------------------------------------------------- children that nobody lists

  /** Every two-hop node is listed by the parent it names. */
  ghost predicate AllListed(ns: seq<RegNode>) {
    forall a, b | ChildOf(ns, b, a) :: Lists(ns, a, b)
  }

  /** An accepted registration of a node that is the parent of others: its table starts empty. */
  ghost predicate Orphans(ns: seq<RegNode>, n: RegNode) {
    !NoRoom(ns, n) && exists b :: b != n.addr && ChildOf(ns, b, n.addr)
  }

  /** The new parent lists the new child and all its old ones. */
  lemma {:induction false} ParentKeeps(p: RegNode, n: RegNode, b: nat)
    requires NodeOk(p) && WellFormed(n) && AddChild(p, n).1
    ensures ListsIn(AddChild(p, n).0.kids, n.addr)
    ensures ListsIn(p.kids, b) ==> ListsIn(AddChild(p, n).0.kids, b)
  {
    hide NodeOk;
    var q := AddChild(p, n).0;
    var i := FindKid(p.kids, n.addr);
    var j := if i < |p.kids| then i else FindKid(p.kids, 0);
    assert q.kids[j].addr == n.addr;
    if ListsIn(p.kids, b) {
      var k :| 0 <= k < |p.kids| && p.kids[k].addr == b;
      assert q.kids[if k == j then j else k].addr == b;
    }
  }

  /** An accepted two-hop registration is listed, and takes nobody out of its parent's table. */
  lemma {:induction false} ListedAfter(ns: seq<RegNode>, n: RegNode, b: nat)
    requires RegistryOk(ns) && WellFormed(n) && !NoRoom(ns, n) && n.hop.TwoHop?
    ensures Lists(Register(ns, n).0, n.parent, n.addr)
    ensures Lists(ns, n.parent, b) ==> Lists(Register(ns, n).0, n.parent, b)
  {
    hide NoRoom, ListsIn, NodeOk;
    RegisterTable(ns, n);
    RefusedIff(ns, n);
    assert RowOk(ns, n.parent);
    ParentKeeps(Lookup(ns, n.parent).value, n, b);
  }

  lemma {:induction false} RefusedKeepsListed(ns: seq<RegNode>, n: RegNode)
    requires RegistryOk(ns) && WellFormed(n) && AllListed(ns) && NoRoom(ns, n)
    ensures AllListed(Register(ns, n).0)
  {
    hide NoRoom;
    var r := Register(ns, n).0;
    RegisterTable(ns, n);
    RefusedIff(ns, n);
    TwoHopOnly(ns, n);
    forall a, b | ChildOf(r, b, a)
      ensures Lists(r, a, b)
    {
      assert ChildOf(ns, b, a);
    }
  }

  /** Registration keeps every two-hop node listed by its parent exactly when it is not that of a parent. */
  lemma {:induction false} RegisterKeepsListedIff(ns: seq<RegNode>, n: RegNode)
    requires RegistryOk(ns) && WellFormed(n) && AllListed(ns)
    ensures AllListed(Register(ns, n).0) <==> !Orphans(ns, n)
  {
    hide NoRoom, RegistryOk, WellFormed, Lists, ChildOf, Register;
    var r := Register(ns, n).0;
    if NoRoom(ns, n) {
      RefusedKeepsListed(ns, n);
    } else if Orphans(ns, n) {
      var b :| b != n.addr && ChildOf(ns, b, n.addr);
      ListsAfter(ns, n, n.addr, b);
      ChildAfter(ns, n, n.addr, b);
      assert ChildOf(r, b, n.addr) && !Lists(r, n.addr, b);
    } else {
      forall a, b | ChildOf(r, b, a)
        ensures Lists(r, a, b)
      {
        ListsAfter(ns, n, a, b);
        ChildAfter(ns, n, a, b);
        if n.hop.TwoHop? { ListedAfter(ns, n, b); }
      }
    }
  }

  // ---------------------------------------------------------------- every step of the server

  /** Marking nodes as scheduled or connected moves nobody. */
  lemma {:induction false} MarksKeepTree(r: seq<RegNode>, ns: seq<RegNode>)
    requires |r| == |ns| && Tree(ns)
    requires forall j | 0 <= j < |ns| :: r[j] == ns[j].(connected := r[j].connected, flag := r[j].flag)
    ensures Tree(r)
  {
    forall a, b | Lists(r, a, b)
      ensures ChildOf(r, b, a)
    {
      MarkedLookup(r, ns, a);
      MarkedLookup(r, ns, b);
      assert Lists(ns, a, b);
      assert ChildOf(ns, b, a);
    }
  }

  lemma {:induction false} ScheduleKeepsTree(ns: seq<RegNode>, gs: seq<Group>, dist: nat)
    requires gs != [] && Tree(ns)
    ensures Tree(ScheduleFrom(ns, gs, 0, dist).0)
  {
    Balance.ScheduleMarks(ns, gs, 0, dist);
    MarksKeepTree(ScheduleFrom(ns, gs, 0, dist).0, ns);
  }

  /** Every step keeps the registry a tree, except exactly the absorption of a moving child. */
  lemma {:induction false} StepKeepsTreeIff(s: Runs.State, op: Runs.Op)
    requires Runs.StateOk(s) && Runs.OpOk(op) && Tree(s.nodes)
    ensures Tree(Runs.Step(s, op).nodes) <==> !(op.Absorb? && s.queue != [] && Moves(s.nodes, s.queue[0]))
  {
    hide Tree, Moves;
    match op
    case Receive(n) =>
    case Absorb => if s.queue != [] { RegisterKeepsTreeIff(s.nodes, s.queue[0]); }
    case StartPhase =>
      MarksKeepTree(ClearFlags(s.nodes, false), s.nodes);
      ScheduleKeepsTree(ClearFlags(s.nodes, false), ClearAll(s.groups), DIST_SD);
    case SlotSm =>
    case Schedule => ScheduleKeepsTree(s.nodes, s.groups, DIST_DC);
    case FrameCm =>
  }

  lemma {:induction false} MarksKeepListed(r: seq<RegNode>, ns: seq<RegNode>)
    requires |r| == |ns| && AllListed(ns)
    requires forall j | 0 <= j < |ns| :: r[j] == ns[j].(connected := r[j].connected, flag := r[j].flag)
    ensures AllListed(r)
  {
    forall a, b | ChildOf(r, b, a)
      ensures Lists(r, a, b)
    {
      MarkedLookup(r, ns, a);
      MarkedLookup(r, ns, b);
      assert ChildOf(ns, b, a);
      assert Lists(ns, a, b);
    }
  }

  lemma {:induction false} ScheduleKeepsListed(ns: seq<RegNode>, gs: seq<Group>, dist: nat)
    requires gs != [] && AllListed(ns)
    ensures AllListed(ScheduleFrom(ns, gs, 0, dist).0)
  {
    Balance.ScheduleMarks(ns, gs, 0, dist);
    MarksKeepListed(ScheduleFrom(ns, gs, 0, dist).0, ns);
  }

  /** Every step keeps all two-hop nodes listed, except exactly the absorption of a parent. */
  lemma {:induction false} StepKeepsListedIff(s: Runs.State, op: Runs.Op)
    requires Runs.StateOk(s) && Runs.OpOk(op) && AllListed(s.nodes)
    ensures AllListed(Runs.Step(s, op).nodes) <==> !(op.Absorb? && s.queue != [] && Orphans(s.nodes, s.queue[0]))
  {
    hide AllListed, Orphans;
    match op
    case Receive(n) =>
    case Absorb => if s.queue != [] { RegisterKeepsListedIff(s.nodes, s.queue[0]); }
    case StartPhase =>
      MarksKeepListed(ClearFlags(s.nodes, false), s.nodes);
      ScheduleKeepsListed(ClearFlags(s.nodes, false), ClearAll(s.groups), DIST_SD);
    case SlotSm =>
    case Schedule => ScheduleKeepsListed(s.nodes, s.groups, DIST_DC);
    case FrameCm =>
  }

  // ---------------------------------------------------------------- a child that moves

  /** Relays 1 and 2 of class 0, with child 3 of class 0 first under 1 and then under 2. */
  function Moved(): seq<RegNode> {
    var ns := Register(Register([], NewNode(1, 0, OneHop, 0)).0, NewNode(2, 0, OneHop, 0)).0;
    Register(Register(ns, NewNode(3, 0, TwoHop, 1)).0, NewNode(3, 0, TwoHop, 2)).0
  }

  /** The node at address a has these children and this demand. */
  predicate Row(ns: seq<RegNode>, a: nat, kids: seq<Child>, demand: nat) {
    Lookup(ns, a).Some? && Lookup(ns, a).value.kids == kids && Lookup(ns, a).value.demand == demand &&
    Lookup(ns, a).value.nChildren == KidCount(kids)
  }

  const NOBODY := [NO_CHILD, NO_CHILD]

  lemma {:induction false} Nobody()
    ensures KidCount(NOBODY) == 0 && Pow2(0) == 1
  {
    KidSums(NOBODY);
  }

  /** A new relay of class 0 has its own row and leaves the others alone. */
  lemma {:induction false} NewRelay(ns: seq<RegNode>, addr: nat, b: nat, kids: seq<Child>, demand: nat)
    requires DistinctAddrs(ns)
    ensures var r := Register(ns, NewNode(addr, 0, OneHop, 0)).0;
            DistinctAddrs(r) && Row(r, addr, NOBODY, 1) && (b != addr && Row(ns, b, kids, demand) ==> Row(r, b, kids, demand))
  {
    hide RegisterOneHop, DistinctAddrs, KidCount;
    var n := NewNode(addr, 0, OneHop, 0);
    Nobody();
    RegisterTable(ns, n);
    assert b != addr ==> SameRow(Lookup(Register(ns, n).0, b), Lookup(ns, b));
  }

  /** A child of class 0 takes the first slot of a relay without children; the other rows stay. */
  lemma {:induction false} NewChild(ns: seq<RegNode>, addr: nat, p: nat, b: nat, kids: seq<Child>, demand: nat)
    requires DistinctAddrs(ns) && addr != p && addr != 0 && Row(ns, p, NOBODY, 1)
    ensures var r := Register(ns, NewNode(addr, 0, TwoHop, p)).0;
            DistinctAddrs(r) && Row(r, p, [Child(addr, 0, 1), NO_CHILD], 3) &&
            (b != addr && b != p && Row(ns, b, kids, demand) ==> Row(r, b, kids, demand))
  {
    hide RegisterTwoHop, DistinctAddrs, KidCount;
    var n := NewNode(addr, 0, TwoHop, p);
    Nobody();
    RegisterTable(ns, n);
    FirstChild(Lookup(ns, p).value, n);
    KidSums([Child(addr, 0, 1), NO_CHILD]);
    KidCountOne(addr);
  }

  lemma {:induction false} KidCountOne(addr: nat)
    requires addr != 0
    ensures KidCount([Child(addr, 0, 1), NO_CHILD]) == 1
  {
    KidSums([Child(addr, 0, 1), NO_CHILD]);
  }

  /** Both relays list the child, and the first one keeps asking for its slots. */
  lemma {:induction false} MovedChild()
    ensures Lists(Moved(), 1, 3) && Lists(Moved(), 2, 3)
    ensures Lookup(Moved(), 1).Some? && Lookup(Moved(), 1).value.demand == 3
    ensures !Tree(Moved())
  {
    hide Register, DistinctAddrs, Tree;
    var a := Register([], NewNode(1, 0, OneHop, 0)).0;
    var b := Register(a, NewNode(2, 0, OneHop, 0)).0;
    var c := Register(b, NewNode(3, 0, TwoHop, 1)).0;
    var kids := [Child(3, 0, 1), NO_CHILD];
    EmptyDistinct();
    NewRelay([], 1, 0, NOBODY, 1);
    NewRelay(a, 2, 1, NOBODY, 1);
    NewChild(b, 3, 1, 2, NOBODY, 1);
    NewChild(c, 3, 2, 1, kids, 3);
    assert kids[0].addr == 3;
    NotOneParent(Moved(), 1, 2, 3);
  }

  lemma {:induction false} NotOneParent(ns: seq<RegNode>, a: nat, a': nat, b: nat)
    requires a != a' && Lists(ns, a, b) && Lists(ns, a', b)
    ensures !Tree(ns)
  {
    if Tree(ns) { OneParent(ns, a, a', b); }
  }

  lemma {:induction false} EmptyDistinct()
    ensures DistinctAddrs([])
  {
  }

  /** A relay without children takes a child into its first slot. */
  lemma {:induction false} FirstChild(p: RegNode, c: RegNode)
    requires p.kids == NOBODY && p.demand == 1 && p.nChildren == 0 && 0 < c.addr && c.demand == 1
    ensures AddChild(p, c) == (p.(demand := 3, nChildren := 1, kids := [Child(c.addr, c.cls, 1), NO_CHILD]), true)
  {
    assert p.kids[1..][1..] == [];
    assert FindKid(p.kids[1..], c.addr) == 1;
    assert FindKid(p.kids, c.addr) == 2;
    assert p.kids[0 := Child(c.addr, c.cls, 1)] == [Child(c.addr, c.cls, 1), NO_CHILD];
  }

  /** Relay 1 with child 2, both of class 0, and then relay 1 again. */
  function Restarted(): seq<RegNode> {
    Register(Register(Register([], NewNode(1, 0, OneHop, 0)).0, NewNode(2, 0, TwoHop, 1)).0, NewNode(1, 0, OneHop, 0)).0
  }

  /** The child still names its parent, which neither lists it nor asks for its slots. */
  lemma {:induction false} OrphanedChild()
    ensures ChildOf(Restarted(), 2, 1) && !Lists(Restarted(), 1, 2)
    ensures Lookup(Restarted(), 1).Some? && Lookup(Restarted(), 1).value.demand == 1
    ensures !AllListed(Restarted())
  {
    hide Register, DistinctAddrs, AllListed;
    var a := Register([], NewNode(1, 0, OneHop, 0)).0;
    var b := Register(a, NewNode(2, 0, TwoHop, 1)).0;
    EmptyDistinct();
    NewRelay([], 1, 0, NOBODY, 1);
    NewChild(a, 2, 1, 0, NOBODY, 1);
    ChildStays(a, b);
    NewRelay(b, 1, 0, NOBODY, 1);
    NotListed(Restarted(), 1, 2);
  }

  lemma {:induction false} ChildStays(a: seq<RegNode>, b: seq<RegNode>)
    requires DistinctAddrs(a) && Row(a, 1, NOBODY, 1) && b == Register(a, NewNode(2, 0, TwoHop, 1)).0 && DistinctAddrs(b)
    ensures ChildOf(Register(b, NewNode(1, 0, OneHop, 0)).0, 2, 1)
  {
    hide RegisterTwoHop, RegisterOneHop, DistinctAddrs, KidCount;
    var n, m := NewNode(2, 0, TwoHop, 1), NewNode(1, 0, OneHop, 0);
    Nobody();
    FirstChild(Lookup(a, 1).value, n);
    RegisterTable(a, n);
    RegisterTable(b, m);
    assert SameRow(Lookup(Register(b, m).0, 2), Lookup(b, 2));
  }

  lemma {:induction false} NotListed(ns: seq<RegNode>, a: nat, b: nat)
    requires ChildOf(ns, b, a) && !Lists(ns, a, b)
    ensures !AllListed(ns)
  {
  }

  // ---------------------------------------------------------------- address 0

  /** Address 0 marks an empty slot. A child of that address is counted in the demand and not as a child, and the
      next child takes its slot without taking its demand back. */
  lemma {:induction false} AddressZero(p: RegNode, z: RegNode, c: RegNode)
    requires WellFormed(p) && p.cls == 0 && z == NewNode(0, 0, TwoHop, p.addr) && WellFormed(c) && c.cls == 0
    ensures var q, ok := AddChild(p, z).0, AddChild(p, z).1;
            ok && q.nChildren == 0 && q.demand == 3 && q.kids == [Child(0, 0, 1), NO_CHILD] && !NodeOk(q)
    ensures var q := AddChild(AddChild(p, z).0, c).0;
            q.nChildren == 1 && q.kids == [Child(c.addr, 0, 1), NO_CHILD] &&
            q.demand == 5 && Pow2(q.cls) + 2 * KidDemand(q.kids) == 3
  {
    assert Pow2(0) == 1;
    assert p.kids[0 := Child(0, 0, 1)] == [Child(0, 0, 1), NO_CHILD];
    var q := AddChild(p, z).0;
    assert q.kids[1..][1..] == [];
    assert FindKid(q.kids[1..], c.addr) == 1;
    assert FindKid(q.kids, c.addr) == 2;
    var r := AddChild(q, c).0;
    assert q.kids[0 := Child(c.addr, 0, 1)] == [Child(c.addr, 0, 1), NO_CHILD];
    KidSums(r.kids);
  }
}
