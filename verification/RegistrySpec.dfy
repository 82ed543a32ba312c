/**
  * What the node registry (MngtNodeList_t in device_mngt.c) means as a value: a finite sequence of
  * nodes, each with its table of children and a slot demand derived from it.
  *
  * Slot demands and child counts are 8-bit fields; their wrap-around is written out.
  */
module RegistrySpec {
  import opened Wrappers
  import opened SlotSpec

  const U8 := 256
  const MAX_CHILDREN := 2
  const ADDR_LIMIT := 8192
  const CLASS_LIMIT := 8

  datatype Hop = OneHop | TwoHop

  datatype Child = Child(addr: nat, cls: nat, demand: nat)

  const NO_CHILD := Child(0, 0, 0)

  /** A registered node.  `flag` is set while the node's present demand is scheduled. */
  datatype RegNode = RegNode(addr: nat, cls: nat, demand: nat, hop: Hop, connected: bool, flag: bool,
                             parent: nat, nChildren: nat, kids: seq<Child>)

  function Pow2(c: nat): (p: nat)
    ensures p >= 1
  {
    if c == 0 then 1 else 2 * Pow2(c - 1)
  }

  /** A node as a registration request creates it. */
  function NewNode(addr: nat, cls: nat, hop: Hop, parent: nat): RegNode {
    RegNode(addr, cls, Pow2(cls) % U8, hop, false, false, parent, 0, [NO_CHILD, NO_CHILD])
  }

  // ---------------------------------------------------------------- list operations

  /** Position of the first node with the given address, |ns| when there is none. */
  function FindNode(ns: seq<RegNode>, addr: nat): (k: nat)
    ensures k <= |ns|
    ensures forall j | 0 <= j < k :: ns[j].addr != addr
    ensures k < |ns| ==> ns[k].addr == addr
  {
    if ns == [] || ns[0].addr == addr then 0 else 1 + FindNode(ns[1..], addr)
  }

  /** In front of the first node with a smaller demand. */
  function InsertByDemand(ns: seq<RegNode>, n: RegNode): seq<RegNode> {
    if ns == [] || ns[0].demand < n.demand then [n] + ns
    else [ns[0]] + InsertByDemand(ns[1..], n)
  }

  /** pushNode: an address that is already registered is updated where it stands. */
  function Push(ns: seq<RegNode>, n: RegNode, sort: bool): seq<RegNode> {
    var k := FindNode(ns, n.addr);
    if k < |ns| then ns[k := n]
    else if sort then InsertByDemand(ns, n)
    else ns + [n]
  }

  // ---------------------------------------------------------------- children

  function FindKid(kids: seq<Child>, addr: nat): (k: nat)
    ensures k <= |kids|
    ensures forall j | 0 <= j < k :: kids[j].addr != addr
    ensures k < |kids| ==> kids[k].addr == addr
  {
    if kids == [] || kids[0].addr == addr then 0 else 1 + FindKid(kids[1..], addr)
  }

  /** dmAddChildToNode: the parent after the call and whether there was room. */
  function AddChild(p: RegNode, c: RegNode): (RegNode, bool) {
    var i := FindKid(p.kids, c.addr);
    var existed := i < |p.kids|;
    var j := if existed then i else FindKid(p.kids, 0);
    if j == |p.kids| then (p, false) else
    var d := if existed then (p.demand - 2 * p.kids[j].demand) % U8 else p.demand;
    var nc := if existed then p.nChildren else (p.nChildren + 1) % U8;
    (p.(demand := (d + 2 * c.demand) % U8, nChildren := nc,
        kids := p.kids[j := Child(c.addr, c.cls, c.demand)]), true)
  }

  /** dmRemoveChildOfNode */
  function DropKids(n: RegNode): RegNode {
    n.(kids := [NO_CHILD, NO_CHILD], demand := Pow2(n.cls) % U8, nChildren := 0)
  }

  function SetConnected(ns: seq<RegNode>, addr: nat, status: bool): seq<RegNode> {
    var k := FindNode(ns, addr);
    if k == |ns| then ns else ns[k := ns[k].(connected := status)]
  }

  /** dmSetChildConnStatus from child slot i on, with `left` children still to meet. */
  function SetKidsConnected(ns: seq<RegNode>, kids: seq<Child>, left: nat, status: bool): seq<RegNode>
    decreases |kids|
  {
    if kids == [] then ns else
    var hit := kids[0].addr != 0;
    var ns' := if hit then SetConnected(ns, kids[0].addr, status) else ns;
    var left' := if hit then (left - 1) % U8 else left;
    if left' == 0 then ns' else SetKidsConnected(ns', kids[1..], left', status)
  }

  function ClearFlags(ns: seq<RegNode>, val: bool): seq<RegNode> {
    seq(|ns|, i requires 0 <= i < |ns| => ns[i].(flag := val))
  }

  function Relays(ns: seq<RegNode>): nat {
    if ns == [] then 0 else (if ns[0].nChildren > 0 then 1 else 0) + Relays(ns[1..])
  }

  predicate IsRelay(ns: seq<RegNode>, addr: nat) {
    var k := FindNode(ns, addr);
    k < |ns| && ns[k].nChildren > 0
  }

  // ---------------------------------------------------------------- registration

  /** The registry part of addNodeToNodeList for a one-hop node. */
  function RegisterOneHop(ns: seq<RegNode>, n: RegNode): seq<RegNode> {
    var k := FindNode(ns, n.addr);
    if k == |ns| then Push(ns, n, true) else
    var ns1 := SetKidsConnected(ns, ns[k].kids, ns[k].nChildren, false);
    var j := FindNode(ns1, n.addr);
    var ns2 := if j < |ns1| then ns1[j := DropKids(ns1[j])] else ns1;
    Push(ns2, n, true)
  }

  /** The registry part of addNodeToNodeList for a two-hop node: it is refused when its parent is
      not registered or has no free child slot. */
  function RegisterTwoHop(ns: seq<RegNode>, n: RegNode): (seq<RegNode>, bool) {
    var k := FindNode(ns, n.parent);
    if k == |ns| then (ns, false) else
    var base := RemoveAt(ns, k);
    var (p, ok) := AddChild(ns[k], n);
    if ok then (Push(Push(base, p.(flag := false), true), n, true), true)
    else (Push(base, p, true), false)
  }

  // ---------------------------------------------------------------- the registry as a table

  /** The node registered under an address: getNodeReferenceByAddress. */
  function Lookup(ns: seq<RegNode>, addr: nat): (r: Option<RegNode>)
    ensures r.Some? ==> r.value.addr == addr
    ensures r == if FindNode(ns, addr) < |ns| then Some(ns[FindNode(ns, addr)]) else None
  {
    if ns == [] then None
    else if ns[0].addr == addr then Some(ns[0])
    else Lookup(ns[1..], addr)
  }

  ghost predicate DistinctAddrs(ns: seq<RegNode>) {
    ns == [] || (Lookup(ns[1..], ns[0].addr) == None && DistinctAddrs(ns[1..]))
  }

  /** The lists r and ns have the same table but for one address. */
  ghost predicate ChangedAt(r: seq<RegNode>, ns: seq<RegNode>, addr: nat, v: Option<RegNode>) {
    forall a :: Lookup(r, a) == if a == addr then v else Lookup(ns, a)
  }

  lemma {:induction false} DistinctAt(ns: seq<RegNode>, i: nat)
    requires DistinctAddrs(ns) && i < |ns|
    ensures FindNode(ns, ns[i].addr) == i && Lookup(ns, ns[i].addr) == Some(ns[i])
  {
    if i > 0 {
      DistinctAt(ns[1..], i - 1);
    }
  }

  lemma {:induction false} UpdateTable(ns: seq<RegNode>, n: RegNode)
    requires FindNode(ns, n.addr) < |ns|
    ensures ChangedAt(ns[FindNode(ns, n.addr) := n], ns, n.addr, Some(n))
    ensures DistinctAddrs(ns) ==> DistinctAddrs(ns[FindNode(ns, n.addr) := n])
  {
    var k := FindNode(ns, n.addr);
    var r := ns[k := n];
    if k == 0 {
      assert r[1..] == ns[1..];
    } else {
      UpdateTable(ns[1..], n);
      assert r[1..] == ns[1..][k - 1 := n] && r[0] == ns[0];
      forall a ensures Lookup(r, a) == if a == n.addr then Some(n) else Lookup(ns, a) {
        assert Lookup(r[1..], a) == if a == n.addr then Some(n) else Lookup(ns[1..], a);
      }
    }
  }

  lemma {:induction false} InsertTable(ns: seq<RegNode>, n: RegNode)
    requires FindNode(ns, n.addr) == |ns|
    ensures ChangedAt(InsertByDemand(ns, n), ns, n.addr, Some(n))
    ensures DistinctAddrs(ns) ==> DistinctAddrs(InsertByDemand(ns, n))
  {
    var r := InsertByDemand(ns, n);
    if ns == [] || ns[0].demand < n.demand {
      assert r[1..] == ns;
    } else {
      InsertTable(ns[1..], n);
      assert r[1..] == InsertByDemand(ns[1..], n);
    }
  }

  lemma {:induction false} AppendTable(ns: seq<RegNode>, n: RegNode)
    requires FindNode(ns, n.addr) == |ns|
    ensures ChangedAt(ns + [n], ns, n.addr, Some(n))
    ensures DistinctAddrs(ns) ==> DistinctAddrs(ns + [n])
  {
    if ns == [] {
      assert (ns + [n])[1..] == [];
    } else {
      AppendTable(ns[1..], n);
      assert (ns + [n])[1..] == ns[1..] + [n];
    }
  }

  lemma {:induction false} PopTable(ns: seq<RegNode>, addr: nat)
    requires DistinctAddrs(ns) && FindNode(ns, addr) < |ns|
    ensures ChangedAt(RemoveAt(ns, FindNode(ns, addr)), ns, addr, None)
    ensures DistinctAddrs(RemoveAt(ns, FindNode(ns, addr)))
  {
    hide DistinctAddrs, ChangedAt, RemoveAt, FindNode;
    var k := FindNode(ns, addr);
    if k == 0 {
      FirstPopped(ns);
    } else {
      FoundBehind(ns, addr, k);
      PopTable(ns[1..], addr);
      ConsTable(ns[0], RemoveAt(ns[1..], k - 1), ns[1..], addr);
    }
  }

  /** An address that is not the first one, seen from the second node on. */
  lemma {:induction false} FoundBehind(ns: seq<RegNode>, addr: nat, k: nat)
    requires DistinctAddrs(ns) && k == FindNode(ns, addr) && 0 < k < |ns|
    ensures FindNode(ns[1..], addr) == k - 1 && DistinctAddrs(ns[1..]) && ns[0].addr != addr
    ensures RemoveAt(ns, k) == [ns[0]] + RemoveAt(ns[1..], k - 1)
    ensures ns == [ns[0]] + ns[1..]
  {
  }

  lemma {:induction false} FirstPopped(ns: seq<RegNode>)
    requires DistinctAddrs(ns) && ns != []
    ensures ChangedAt(RemoveAt(ns, 0), ns, ns[0].addr, None) && DistinctAddrs(RemoveAt(ns, 0))
  {
    assert RemoveAt(ns, 0) == ns[1..];
  }

  lemma {:induction false} ConsTable(x: RegNode, r: seq<RegNode>, ns: seq<RegNode>, addr: nat)
    requires x.addr != addr && ChangedAt(r, ns, addr, None)
    ensures ChangedAt([x] + r, [x] + ns, addr, None)
    ensures DistinctAddrs([x] + ns) && DistinctAddrs(r) ==> DistinctAddrs([x] + r)
  {
    assert ([x] + r)[1..] == r && ([x] + ns)[1..] == ns;
  }

  /** pushNode keeps addresses unique and changes the registry at one address only. */
  lemma {:induction false} PushTable(ns: seq<RegNode>, n: RegNode, sort: bool)
    ensures ChangedAt(Push(ns, n, sort), ns, n.addr, Some(n))
    ensures DistinctAddrs(ns) ==> DistinctAddrs(Push(ns, n, sort))
  {
    if FindNode(ns, n.addr) < |ns| {
      UpdateTable(ns, n);
    } else if sort {
      InsertTable(ns, n);
    } else {
      AppendTable(ns, n);
    }
  }

  // ---------------------------------------------------------------- sorted registry

  ghost predicate NonIncreasing(ns: seq<RegNode>) {
    forall i, j | 0 <= i < j < |ns| :: ns[i].demand >= ns[j].demand
  }

  lemma {:induction false} DemandPosition(ns: seq<RegNode>, n: RegNode) returns (k: nat)
    ensures k <= |ns|
    ensures InsertByDemand(ns, n) == ns[..k] + [n] + ns[k..]
    ensures forall i | 0 <= i < k :: ns[i].demand >= n.demand
    ensures k < |ns| ==> ns[k].demand < n.demand
  {
    if ns == [] || ns[0].demand < n.demand {
      k := 0;
      assert ns[..0] + [n] + ns[0..] == [n] + ns;
    } else {
      var j := DemandPosition(ns[1..], n);
      k := j + 1;
      assert ns[..k] + [n] + ns[k..] == [ns[0]] + (ns[1..][..j] + [n] + ns[1..][j..]);
      forall i | 0 <= i < k ensures ns[i].demand >= n.demand {
        if i > 0 { assert ns[i] == ns[1..][i - 1]; }
      }
    }
  }

  lemma {:induction false} DemandPositionIs(ns: seq<RegNode>, n: RegNode, k: nat)
    requires k <= |ns|
    requires forall i | 0 <= i < k :: ns[i].demand >= n.demand
    requires k < |ns| ==> ns[k].demand < n.demand
    ensures InsertByDemand(ns, n) == ns[..k] + [n] + ns[k..]
  {
    if k == 0 {
      assert ns[..0] + [n] + ns[0..] == [n] + ns;
    } else {
      assert forall i | 0 <= i < k - 1 :: ns[1..][i] == ns[i + 1];
      DemandPositionIs(ns[1..], n, k - 1);
      assert ns[..k] + [n] + ns[k..] == [ns[0]] + (ns[1..][..k - 1] + [n] + ns[1..][k - 1..]);
    }
  }

  /** Pushing a new address into the sorted registry keeps it in non-increasing order of demand and
      puts the new node behind exactly the nodes whose demand is not smaller. */
  lemma {:induction false} PushKeepsOrder(ns: seq<RegNode>, n: RegNode) returns (k: nat)
    requires NonIncreasing(ns) && FindNode(ns, n.addr) == |ns|
    ensures k <= |ns| && Push(ns, n, true) == ns[..k] + [n] + ns[k..]
    ensures forall i | 0 <= i < |ns| :: i < k <==> ns[i].demand >= n.demand
    ensures NonIncreasing(Push(ns, n, true))
  {
    k := DemandPosition(ns, n);
    forall i | k <= i < |ns| ensures ns[i].demand < n.demand {
      if i > k { assert ns[k].demand >= ns[i].demand; }
    }
    OrderInserted(ns, n, k);
  }

  lemma {:induction false} OrderInserted(ns: seq<RegNode>, n: RegNode, k: nat)
    requires NonIncreasing(ns) && k <= |ns|
    requires forall i | 0 <= i < |ns| :: i < k <==> ns[i].demand >= n.demand
    ensures NonIncreasing(ns[..k] + [n] + ns[k..])
  {
    var r := ns[..k] + [n] + ns[k..];
    assert forall i | 0 <= i < |r| :: r[i] == if i < k then ns[i] else if i == k then n else ns[i - 1];
  }

  // ---------------------------------------------------------------- registry invariant

  function KidCount(kids: seq<Child>): nat {
    if kids == [] then 0 else (if kids[0].addr != 0 then 1 else 0) + KidCount(kids[1..])
  }

  function KidDemand(kids: seq<Child>): nat {
    if kids == [] then 0 else kids[0].demand + KidDemand(kids[1..])
  }

  lemma {:induction false} KidSums(kids: seq<Child>)
    requires |kids| == 2
    ensures KidCount(kids) == (if kids[0].addr != 0 then 1 else 0) + (if kids[1].addr != 0 then 1 else 0)
    ensures KidDemand(kids) == kids[0].demand + kids[1].demand
  {
    assert kids[1..][1..] == [];
    assert KidCount(kids[1..]) == if kids[1].addr != 0 then 1 else 0;
    assert KidDemand(kids[1..]) == kids[1].demand + KidDemand(kids[1..][1..]);
  }

  /** The child table of a node: empty slots are blank, and children are distinct. */
  ghost predicate KidsOk(kids: seq<Child>) {
    && |kids| == MAX_CHILDREN
    && (forall i | 0 <= i < |kids| :: kids[i].addr < ADDR_LIMIT && kids[i].cls < CLASS_LIMIT)
    && (forall i | 0 <= i < |kids| :: kids[i].addr == 0 ==> kids[i] == NO_CHILD)
    && (forall i, j | 0 <= i < j < |kids| :: kids[i].addr != 0 ==> kids[i].addr != kids[j].addr)
  }

  /** The derived fields of a node agree with its class and its children. */
  ghost predicate NodeOk(n: RegNode) {
    && 0 < n.addr < ADDR_LIMIT
    && n.cls < CLASS_LIMIT
    && KidsOk(n.kids)
    && n.nChildren == KidCount(n.kids)
    && n.demand == (Pow2(n.cls) + 2 * KidDemand(n.kids)) % U8
  }

  /** Every child listed by n is registered in ns. */
  ghost predicate KidsKnown(n: RegNode, ns: seq<RegNode>) {
    forall i | 0 <= i < |n.kids| :: n.kids[i].addr != 0 ==> Lookup(ns, n.kids[i].addr).Some?
  }

  ghost predicate RegistryOk(ns: seq<RegNode>) {
    DistinctAddrs(ns) && forall a :: RowOk(ns, a)
  }

  /** Whoever is registered under an address is consistent. */
  ghost predicate RowOk(ns: seq<RegNode>, a: nat) {
    Lookup(ns, a).Some? ==> NodeOk(Lookup(ns, a).value) && KidsKnown(Lookup(ns, a).value, ns)
  }

  /** A registration as the wire can carry it: a 13-bit address that is not the reserved 0, a
      3-bit class, and for a two-hop node a parent other than itself. */
  predicate WellFormed(n: RegNode) {
    && 0 < n.addr < ADDR_LIMIT
    && n.cls < CLASS_LIMIT
    && n == NewNode(n.addr, n.cls, n.hop, n.parent)
    && (n.hop.TwoHop? ==> n.parent != n.addr)
  }

  lemma {:induction false} NewNodeOk(n: RegNode)
    requires WellFormed(n)
    ensures NodeOk(n)
  {
    KidSums(n.kids);
  }

  // ---------------------------------------------------------------- relays

  predicate HasKid(kids: seq<Child>) {
    exists i :: 0 <= i < |kids| && kids[i].addr != 0
  }

  /** Some node is listed as a child of the node at address a. */
  predicate ListsSomebody(ns: seq<RegNode>, a: nat) {
    Lookup(ns, a).Some? && HasKid(Lookup(ns, a).value.kids)
  }

  ghost function ParentAddrs(ns: seq<RegNode>): set<nat> {
    set n | n in ns && HasKid(n.kids) :: n.addr
  }

  lemma {:induction false} CountedKids(n: RegNode)
    requires NodeOk(n)
    ensures n.nChildren > 0 <==> HasKid(n.kids)
  {
    KidSums(n.kids);
    assert n.nChildren > 0 ==> n.kids[0].addr != 0 || n.kids[1].addr != 0;
  }

  /** dmIsRelayNode tells who has a child in its table. */
  lemma {:induction false} IsRelayIff(ns: seq<RegNode>, a: nat)
    requires RegistryOk(ns)
    ensures IsRelay(ns, a) <==> ListsSomebody(ns, a)
  {
    hide NodeOk;
    assert RowOk(ns, a);
    if Lookup(ns, a).Some? { CountedKids(Lookup(ns, a).value); }
  }

  lemma {:induction false} ParentsUnfold(ns: seq<RegNode>)
    requires ns != [] && DistinctAddrs(ns)
    ensures |ParentAddrs(ns)| == (if HasKid(ns[0].kids) then 1 else 0) + |ParentAddrs(ns[1..])|
  {
    hide HasKid;
    var rest := ParentAddrs(ns[1..]);
    assert ns == [ns[0]] + ns[1..];
    assert ParentAddrs(ns) == (if HasKid(ns[0].kids) then {ns[0].addr} else {}) + rest;
    assert ns[0].addr !in rest;
  }

  lemma {:induction false} RelaysCounted(ns: seq<RegNode>)
    requires DistinctAddrs(ns) && forall i | 0 <= i < |ns| :: NodeOk(ns[i])
    ensures Relays(ns) == |ParentAddrs(ns)|
  {
    hide NodeOk, ParentAddrs, HasKid;
    if ns == [] {
      NoParents();
    } else {
      ParentsUnfold(ns);
      CountedKids(ns[0]);
      RelaysCounted(ns[1..]);
    }
  }

  lemma {:induction false} NoParents()
    ensures ParentAddrs([]) == {}
  {
  }

  /** dmGetNboRelays counts the addresses under which a node with a child is registered. */
  lemma {:induction false} RelaysAre(ns: seq<RegNode>)
    requires RegistryOk(ns)
    ensures Relays(ns) == |ParentAddrs(ns)|
    ensures forall a :: a in ParentAddrs(ns) <==> ListsSomebody(ns, a)
  {
    hide NodeOk, HasKid, Relays;
    forall i | 0 <= i < |ns|
      ensures NodeOk(ns[i]) && Lookup(ns, ns[i].addr) == Some(ns[i])
    {
      DistinctAt(ns, i);
      assert RowOk(ns, ns[i].addr);
    }
    RelaysCounted(ns);
    forall a | ListsSomebody(ns, a)
      ensures a in ParentAddrs(ns)
    {
      assert Lookup(ns, a).value in ns;
    }
  }

  // ---------------------------------------------------------------- connection flags

  /** Two lists that agree on everything but which nodes are connected. */
  ghost predicate SameButConnected(s: seq<RegNode>, t: seq<RegNode>) {
    |s| == |t| && forall i | 0 <= i < |t| :: s[i] == t[i].(connected := s[i].connected)
  }

  lemma {:induction false} SameLookup(s: seq<RegNode>, t: seq<RegNode>, a: nat)
    requires SameButConnected(s, t)
    ensures FindNode(s, a) == FindNode(t, a)
    ensures DistinctAddrs(t) ==> DistinctAddrs(s)
    ensures var l := Lookup(s, a);
            && l.Some? == Lookup(t, a).Some?
            && (l.Some? ==> l.value == Lookup(t, a).value.(connected := l.value.connected))
  {
    if t != [] {
      assert SameButConnected(s[1..], t[1..]);
      assert s[0] == t[0].(connected := s[0].connected);
      SameLookup(s[1..], t[1..], a);
      SameLookup(s[1..], t[1..], t[0].addr);
    }
  }

  lemma {:induction false} KidsConnectedSame(ns: seq<RegNode>, kids: seq<Child>, left: nat, status: bool)
    ensures SameButConnected(SetKidsConnected(ns, kids, left, status), ns)
    decreases |kids|
  {
    if kids != [] {
      var hit := kids[0].addr != 0;
      var ns' := if hit then SetConnected(ns, kids[0].addr, status) else ns;
      var left' := if hit then (left - 1) % U8 else left;
      if left' != 0 { KidsConnectedSame(ns', kids[1..], left', status); }
    }
  }

  lemma {:induction false} ConnectedTable(ns: seq<RegNode>, addr: nat, status: bool)
    ensures match Lookup(ns, addr)
            case None => SetConnected(ns, addr, status) == ns
            case Some(n) => ChangedAt(SetConnected(ns, addr, status), ns, addr, Some(n.(connected := status)))
  {
    var k := FindNode(ns, addr);
    if k < |ns| { UpdateTable(ns, ns[k].(connected := status)); }
  }

  /** dmSetChildConnStatus reaches every child of a consistent node: the count of children runs out
      exactly behind the last occupied slot, and no child is missing from the registry. */
  lemma {:induction false} KidsAllConnected(ns: seq<RegNode>, n: RegNode, status: bool, i: nat)
    requires NodeOk(n) && KidsKnown(n, ns)
    requires i < |n.kids| && n.kids[i].addr != 0
    ensures var m := Lookup(SetKidsConnected(ns, n.kids, n.nChildren, status), n.kids[i].addr);
            m.Some? && m.value.connected == status
  {
    hide SetConnected, FindNode, KidCount, KidDemand, Pow2;
    var k0, k1 := n.kids[0], n.kids[1];
    KidSums(n.kids);
    var ns1 := if k0.addr != 0 then SetConnected(ns, k0.addr, status) else ns;
    var ns2 := if k1.addr != 0 then SetConnected(ns1, k1.addr, status) else ns1;
    ConnectedTable(ns, k0.addr, status);
    ConnectedTable(ns1, k1.addr, status);
    var left := if k0.addr != 0 then n.nChildren - 1 else n.nChildren;
    assert left == if k1.addr != 0 then 1 else 0;
    assert n.kids[1..] == [k1] && [k1][1..] == [];
    assert SetKidsConnected(ns1, [k1], left, status) == ns2;
    assert SetKidsConnected(ns, n.kids, n.nChildren, status) == ns2;
  }

  // ---------------------------------------------------------------- the invariant is kept

  lemma {:induction false} ModChain(base: int, minus: int, plus: int)
    ensures ((base % U8 - minus) % U8 + plus) % U8 == (base - minus + plus) % U8
    ensures (base % U8 + plus) % U8 == (base + plus) % U8
  {
  }

  /** dmRemoveChildOfNode leaves a consistent node without children; class, hop, parent and marks stay. */
  lemma {:induction false} DroppedKids(n: RegNode)
    requires NodeOk(n)
    ensures var r := DropKids(n);
            && NodeOk(r) && !HasKid(r.kids)
            && r == n.(kids := r.kids, demand := r.demand, nChildren := r.nChildren)
  {
    hide Pow2;
    KidSums(DropKids(n).kids);
  }

  /** A child takes a blank slot, or the slot it has. */
  lemma {:induction false} TakesSlot(kids: seq<Child>, c: RegNode, j: nat)
    requires KidsOk(kids) && j < |kids| && 0 < c.addr < ADDR_LIMIT && c.cls < CLASS_LIMIT
    requires kids[j].addr == c.addr || (kids[j].addr == 0 && FindKid(kids, c.addr) == |kids|)
    ensures var r := kids[j := Child(c.addr, c.cls, c.demand)];
            && KidsOk(r)
            && KidCount(r) == KidCount(kids) + (if kids[j].addr == 0 then 1 else 0)
            && KidDemand(r) == KidDemand(kids) - kids[j].demand + c.demand
            && KidCount(kids) <= 2 && (kids[j].addr == 0 ==> kids[j].demand == 0)
  {
    hide KidCount, KidDemand, FindKid;
    KidSums(kids);
    KidSums(kids[j := Child(c.addr, c.cls, c.demand)]);
  }

  /** dmAddChildToNode succeeds exactly when the child is already listed or a slot is empty, and
      then keeps the derived fields of the parent in step with its child table. */
  lemma {:induction false} AddChildKeepsNodeOk(p: RegNode, c: RegNode)
    requires NodeOk(p) && 0 < c.addr < ADDR_LIMIT && c.cls < CLASS_LIMIT
    ensures NodeOk(AddChild(p, c).0)
    ensures AddChild(p, c).0.addr == p.addr && AddChild(p, c).0.hop == p.hop
    ensures AddChild(p, c).1 <==> exists i :: 0 <= i < |p.kids| && (p.kids[i].addr == c.addr || p.kids[i].addr == 0)
    ensures forall i | 0 <= i < |AddChild(p, c).0.kids| ::
              AddChild(p, c).0.kids[i] == p.kids[i] || AddChild(p, c).0.kids[i] == Child(c.addr, c.cls, c.demand)
  {
    hide Pow2, KidCount, KidDemand, FindKid, KidsOk;
    var i := FindKid(p.kids, c.addr);
    var j := if i < |p.kids| then i else FindKid(p.kids, 0);
    if j < |p.kids| {
      TakesSlot(p.kids, c, j);
      ModChain(Pow2(p.cls) + 2 * KidDemand(p.kids), 2 * p.kids[j].demand, 2 * c.demand);
    }
  }

  /** The slot that a child gets: its own, otherwise the first empty one; nothing else of the parent's table changes. */
  lemma {:induction false} ChildSlot(p: RegNode, c: RegNode)
    ensures !AddChild(p, c).1 ==> AddChild(p, c).0 == p
    ensures AddChild(p, c).1 ==> exists j ::
              && 0 <= j < |p.kids| && AddChild(p, c).0.kids == p.kids[j := Child(c.addr, c.cls, c.demand)]
              && (|| (p.kids[j].addr == c.addr && forall i | 0 <= i < j :: p.kids[i].addr != c.addr)
                  || (p.kids[j].addr == 0 && (forall i | 0 <= i < |p.kids| :: p.kids[i].addr != c.addr)
                      && forall i | 0 <= i < j :: p.kids[i].addr != 0))
  {
    hide FindKid;
    var i := FindKid(p.kids, c.addr);
    var j := if i < |p.kids| then i else FindKid(p.kids, 0);
    if j < |p.kids| {
      assert AddChild(p, c).0.kids == p.kids[j := Child(c.addr, c.cls, c.demand)];
    }
  }

  /** Two rows that differ at most in the connection mark. */
  ghost predicate SameRow(x: Option<RegNode>, y: Option<RegNode>) {
    && x.Some? == y.Some?
    && (x.Some? ==> x.value == y.value.(connected := x.value.connected))
  }

  /** What a one-hop registration does: it puts the node in place, and elsewhere only touches
      connection marks. */
  ghost predicate OneHopEffect(r: seq<RegNode>, ns: seq<RegNode>, n: RegNode) {
    && DistinctAddrs(r)
    && Lookup(r, n.addr) == Some(n)
    && forall a | a != n.addr :: SameRow(Lookup(r, a), Lookup(ns, a))
  }

  lemma {:induction false} OneHopTable(ns: seq<RegNode>, n: RegNode)
    requires DistinctAddrs(ns)
    ensures OneHopEffect(RegisterOneHop(ns, n), ns, n)
  {
    var k := FindNode(ns, n.addr);
    if k < |ns| {
      var ns1 := SetKidsConnected(ns, ns[k].kids, ns[k].nChildren, false);
      KidsConnectedSame(ns, ns[k].kids, ns[k].nChildren, false);
      SameLookup(ns1, ns, n.addr);
      UpdateTable(ns1, DropKids(ns1[k]));
      var ns2 := ns1[k := DropKids(ns1[k])];
      PushTable(ns2, n, true);
      forall a | a != n.addr ensures SameRow(Lookup(Push(ns2, n, true), a), Lookup(ns, a)) {
        SameLookup(ns1, ns, a);
      }
      assert RegisterOneHop(ns, n) == Push(ns2, n, true);
    } else {
      PushTable(ns, n, true);
    }
  }

  /** What a two-hop registration does: an accepted one changes the parent and the node itself, a
      refused one leaves the table as it was. */
  ghost predicate TwoHopEffect(r: seq<RegNode>, ok: bool, ns: seq<RegNode>, n: RegNode) {
    && DistinctAddrs(r)
    && (ok <==> Lookup(ns, n.parent).Some? && AddChild(Lookup(ns, n.parent).value, n).1)
    && (!ok ==> forall a :: Lookup(r, a) == Lookup(ns, a))
    && (ok ==> Lookup(r, n.addr) == Some(n))
    && (ok ==> Lookup(r, n.parent) == Some(AddChild(Lookup(ns, n.parent).value, n).0.(flag := false)))
    && (ok ==> forall a | a != n.addr && a != n.parent :: Lookup(r, a) == Lookup(ns, a))
  }

  lemma {:induction false} AdoptKeepsAddr(p: RegNode, c: RegNode)
    ensures AddChild(p, c).0.addr == p.addr
    ensures !AddChild(p, c).1 ==> AddChild(p, c).0 == p
  {
  }

  lemma {:induction false} TwoHopTable(ns: seq<RegNode>, n: RegNode)
    requires DistinctAddrs(ns) && n.parent != n.addr
    ensures TwoHopEffect(RegisterTwoHop(ns, n).0, RegisterTwoHop(ns, n).1, ns, n)
  {
    hide InsertByDemand, DistinctAddrs, Push, AddChild, RemoveAt, FindNode;
    var k := FindNode(ns, n.parent);
    if k < |ns| {
      var (q, ok) := AddChild(ns[k], n);
      AdoptKeepsAddr(ns[k], n);
      var q' := if ok then q.(flag := false) else ns[k];
      var base := RemoveAt(ns, k);
      var mid := Push(base, q', true);
      PopTable(ns, n.parent);
      PushTable(base, q', true);
      assert ChangedAt(mid, ns, n.parent, Some(q'));
      if ok { PushTable(mid, n, true); }
    }
  }

  function Register(ns: seq<RegNode>, n: RegNode): (seq<RegNode>, bool) {
    if n.hop.OneHop? then (RegisterOneHop(ns, n), true) else RegisterTwoHop(ns, n)
  }

  ghost predicate RegisterEffect(r: seq<RegNode>, ok: bool, ns: seq<RegNode>, n: RegNode) {
    if n.hop.OneHop? then ok && OneHopEffect(r, ns, n) else TwoHopEffect(r, ok, ns, n)
  }

  lemma {:induction false} RegisterTable(ns: seq<RegNode>, n: RegNode)
    requires DistinctAddrs(ns) && (n.hop.TwoHop? ==> n.parent != n.addr)
    ensures RegisterEffect(Register(ns, n).0, Register(ns, n).1, ns, n)
  {
    if n.hop.OneHop? { OneHopTable(ns, n); } else { TwoHopTable(ns, n); }
  }

  /** Registration never unregisters anybody. */
  lemma {:induction false} EffectGrows(r: seq<RegNode>, ok: bool, ns: seq<RegNode>, n: RegNode, a: nat)
    requires RegisterEffect(r, ok, ns, n)
    ensures Lookup(ns, a).Some? ==> Lookup(r, a).Some?
    ensures ok ==> Lookup(r, n.addr) == Some(n)
  {
  }

  lemma {:induction false} EffectKeepsKids(r: seq<RegNode>, ok: bool, ns: seq<RegNode>, n: RegNode, m: RegNode)
    requires RegisterEffect(r, ok, ns, n)
    requires forall i | 0 <= i < |m.kids| ::
               m.kids[i].addr != 0 ==> Lookup(ns, m.kids[i].addr).Some? || (ok && m.kids[i].addr == n.addr)
    ensures KidsKnown(m, r)
  {
    forall i | 0 <= i < |m.kids| && m.kids[i].addr != 0 ensures Lookup(r, m.kids[i].addr).Some? {
      EffectGrows(r, ok, ns, n, m.kids[i].addr);
    }
  }

  lemma {:induction false} ParentRow(ns: seq<RegNode>, n: RegNode, p: RegNode)
    requires NodeOk(p) && KidsKnown(p, ns) && 0 < n.addr < ADDR_LIMIT && n.cls < CLASS_LIMIT
    ensures var q := AddChild(p, n).0;
            && NodeOk(q)
            && forall i | 0 <= i < |q.kids| ::
                 q.kids[i].addr != 0 ==> Lookup(ns, q.kids[i].addr).Some? || q.kids[i].addr == n.addr
  {
    AddChildKeepsNodeOk(p, n);
  }

  lemma {:induction false} NodeOkMarks(m: RegNode, o: RegNode)
    requires NodeOk(o) && m == o.(connected := m.connected, flag := m.flag)
    ensures NodeOk(m)
  {
  }

  /** Whatever a registration leaves in the registry is consistent. */
  lemma {:induction false} EffectKeepsRow(r: seq<RegNode>, ok: bool, ns: seq<RegNode>, n: RegNode, a: nat)
    requires RegistryOk(ns) && WellFormed(n) && RegisterEffect(r, ok, ns, n)
    requires Lookup(r, a).Some?
    ensures NodeOk(Lookup(r, a).value) && KidsKnown(Lookup(r, a).value, r)
  {
    var m := Lookup(r, a).value;
    if ok && a == n.addr {
      NewNodeOk(n);
    } else if ok && n.hop.TwoHop? && a == n.parent {
      assert RowOk(ns, a);
      var q := AddChild(Lookup(ns, a).value, n).0;
      ParentRow(ns, n, Lookup(ns, a).value);
      NodeOkMarks(m, q);
      EffectKeepsKids(r, ok, ns, n, m);
    } else {
      assert RowOk(ns, a);
      NodeOkMarks(m, Lookup(ns, a).value);
      EffectKeepsKids(r, ok, ns, n, m);
    }
  }

  /** The registry invariant over one registration, accepted or refused. */
  lemma {:induction false} RegisterKeepsRegistryOk(ns: seq<RegNode>, n: RegNode)
    requires RegistryOk(ns) && WellFormed(n)
    ensures RegistryOk(Register(ns, n).0)
  {
    var (r, ok) := Register(ns, n);
    RegisterTable(ns, n);
    forall a ensures RowOk(r, a) {
      if Lookup(r, a).Some? { EffectKeepsRow(r, ok, ns, n, a); }
    }
  }

  /** A two-hop registration finds no parent, or a parent whose child slots are taken by others. */
  predicate NoRoom(ns: seq<RegNode>, n: RegNode) {
    n.hop.TwoHop? &&
    match Lookup(ns, n.parent)
    case None => true
    case Some(p) => forall i | 0 <= i < |p.kids| :: p.kids[i].addr != 0 && p.kids[i].addr != n.addr
  }

  /** A registration is refused exactly when there is no room for it. */
  lemma {:induction false} RefusedIff(ns: seq<RegNode>, n: RegNode)
    requires RegistryOk(ns) && WellFormed(n)
    ensures !Register(ns, n).1 <==> NoRoom(ns, n)
  {
    RegisterTable(ns, n);
    assert RowOk(ns, n.parent);
    if Lookup(ns, n.parent).Some? {
      AddChildKeepsNodeOk(Lookup(ns, n.parent).value, n);
    }
  }

  // ---------------------------------------------------------------- the order of the registry

  lemma {:induction false} RemovedOrder(ns: seq<RegNode>, k: nat)
    requires NonIncreasing(ns) && k < |ns|
    ensures NonIncreasing(RemoveAt(ns, k))
  {
    var r := RemoveAt(ns, k);
    assert forall i | 0 <= i < |r| :: r[i] == ns[if i < k then i else i + 1];
  }

  lemma {:induction false} PushedOrder(ns: seq<RegNode>, n: RegNode)
    requires NonIncreasing(ns) && Lookup(ns, n.addr) == None
    ensures NonIncreasing(Push(ns, n, true))
  {
    var k := PushKeepsOrder(ns, n);
  }

  /** A new address keeps the registry in the order of falling demand, accepted or refused: the parent of a two-hop node
      moves to where its new demand belongs. */
  lemma {:induction false} RegisterKeepsOrder(ns: seq<RegNode>, n: RegNode)
    requires DistinctAddrs(ns) && NonIncreasing(ns) && Lookup(ns, n.addr) == None && (n.hop.TwoHop? ==> n.parent != n.addr)
    ensures NonIncreasing(Register(ns, n).0)
  {
    hide DistinctAddrs, NonIncreasing, Push, RemoveAt, AddChild, Lookup;
    var k := FindNode(ns, n.parent);
    if n.hop.OneHop? {
      PushedOrder(ns, n);
    } else if k < |ns| {
      var (q, ok) := AddChild(ns[k], n);
      AdoptKeepsAddr(ns[k], n);
      var base := RemoveAt(ns, k);
      var p := if ok then q.(flag := false) else q;
      RemovedOrder(ns, k);
      PopTable(ns, n.parent);
      PushedOrder(base, p);
      PushTable(base, p, true);
      if ok { PushedOrder(Push(base, p, true), n); }
    }
  }
}
