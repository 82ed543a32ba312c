/**
  * Who is connected (isConnected in device_mngt.c): a node that finds a place is connected together with its children, a
  * node that registers again as one-hop leaves its former children unconnected, and nothing else changes a mark.
  */
module ConnectionMarks {
  import opened Wrappers
  import opened SlotSpec
  import opened RegistrySpec
  import opened ServerSpec
  import Balance

  /** The child table names the address a. */
  predicate Names(kids: seq<Child>, a: nat) {
    a != 0 && exists i :: 0 <= i < |kids| && kids[i].addr == a
  }

  /** r is ns with the mark of exactly the children in a table set to status. */
  ghost predicate MarksSet(r: seq<RegNode>, ns: seq<RegNode>, kids: seq<Child>, status: bool) {
    && |r| == |ns|
    && forall j | 0 <= j < |ns| :: r[j] == if Names(kids, ns[j].addr) then ns[j].(connected := status) else ns[j]
  }

  lemma {:induction false} OneMark(ns: seq<RegNode>, a: nat, status: bool)
    requires DistinctAddrs(ns)
    ensures var r := SetConnected(ns, a, status);
            && |r| == |ns| && DistinctAddrs(r)
            && forall j | 0 <= j < |ns| :: r[j] == if ns[j].addr == a then ns[j].(connected := status) else ns[j]
  {
    var k := FindNode(ns, a);
    forall j | 0 <= j < |ns| && ns[j].addr == a ensures j == k {
      DistinctAt(ns, j);
    }
    if k < |ns| {
      UpdateTable(ns, ns[k].(connected := status));
    }
  }

  lemma {:induction false} NamesTwo(kids: seq<Child>, a: nat)
    requires |kids| == 2
    ensures Names(kids, a) <==> a != 0 && (kids[0].addr == a || kids[1].addr == a)
  {
  }

  /** dmSetChildConnStatus on a consistent node: exactly its children. */
  lemma {:induction false} KidsMarked(ns: seq<RegNode>, n: RegNode, status: bool)
    requires DistinctAddrs(ns) && NodeOk(n)
    ensures MarksSet(SetKidsConnected(ns, n.kids, n.nChildren, status), ns, n.kids, status)
  {
    hide SetConnected, FindNode, KidCount, KidDemand, Pow2, DistinctAddrs, Names;
    var k0, k1 := n.kids[0], n.kids[1];
    KidSums(n.kids);
    var ns1 := if k0.addr != 0 then SetConnected(ns, k0.addr, status) else ns;
    var ns2 := if k1.addr != 0 then SetConnected(ns1, k1.addr, status) else ns1;
    OneMark(ns, k0.addr, status);
    OneMark(ns1, k1.addr, status);
    var left := if k0.addr != 0 then n.nChildren - 1 else n.nChildren;
    assert left == if k1.addr != 0 then 1 else 0;
    assert n.kids[1..] == [k1] && [k1][1..] == [];
    assert SetKidsConnected(ns1, [k1], left, status) == ns2;
    assert SetKidsConnected(ns, n.kids, n.nChildren, status) == ns2;
    forall j | 0 <= j < |ns|
      ensures ns2[j] == if Names(n.kids, ns[j].addr) then ns[j].(connected := status) else ns[j]
    {
      NamesTwo(n.kids, ns[j].addr);
    }
  }

  lemma {:induction false} SamePositions(r: seq<RegNode>, ns: seq<RegNode>, a: nat)
    requires |r| == |ns| && forall j | 0 <= j < |ns| :: r[j].addr == ns[j].addr
    ensures FindNode(r, a) == FindNode(ns, a)
  {
    if ns != [] {
      forall j | 0 <= j < |ns[1..]| ensures r[1..][j].addr == ns[1..][j].addr {
        assert r[j + 1].addr == ns[j + 1].addr;
      }
      SamePositions(r[1..], ns[1..], a);
    }
  }

  // ---------------------------------------------------------------- registration

  /** The list after a one-hop registration of a known address, node by node. */
  lemma {:induction false} KnownOneHop(ns: seq<RegNode>, n: RegNode, k: nat)
    requires DistinctAddrs(ns) && k == FindNode(ns, n.addr) && k < |ns| && NodeOk(ns[k])
    ensures var r := RegisterOneHop(ns, n);
            && |r| == |ns| && r[k] == n
            && forall j | 0 <= j < |ns| && j != k ::
                 r[j] == if Names(ns[k].kids, ns[j].addr) then ns[j].(connected := false) else ns[j]
  {
    hide SetKidsConnected, NodeOk, DistinctAddrs, Names, FindNode;
    var ns1 := SetKidsConnected(ns, ns[k].kids, ns[k].nChildren, false);
    KidsMarked(ns, ns[k], false);
    SamePositions(ns1, ns, n.addr);
    var ns2 := ns1[k := DropKids(ns1[k])];
    SamePositions(ns2, ns, n.addr);
  }

  /** A one-hop registration in full: the registrant is put in place with no children and unconnected, the children of its
      former table lose their marks, and every other node stays as it is. */
  lemma {:induction false} OneHopMarks(ns: seq<RegNode>, n: RegNode, a: nat)
    requires RegistryOk(ns) && n.hop.OneHop?
    ensures var r, was, former := Lookup(Register(ns, n).0, a), Lookup(ns, a), Lookup(ns, n.addr);
            r == if a == n.addr then Some(n)
                 else if was.Some? && former.Some? && Names(former.value.kids, a) then Some(was.value.(connected := false))
                 else was
  {
    hide RegistryOk, NodeOk, DistinctAddrs, Names, FindNode, RegisterOneHop, Push;
    var k := FindNode(ns, n.addr);
    RegistryFacts(ns, n.addr);
    if k < |ns| {
      KnownOneHop(ns, n, k);
      SamePositions(RegisterOneHop(ns, n), ns, a);
    } else {
      NewOneHop(ns, n);
      PushTable(ns, n, true);
    }
  }

  lemma {:induction false} RegistryFacts(ns: seq<RegNode>, a: nat)
    requires RegistryOk(ns)
    ensures DistinctAddrs(ns)
    ensures FindNode(ns, a) < |ns| ==> NodeOk(ns[FindNode(ns, a)])
  {
    hide NodeOk, DistinctAddrs, FindNode;
    assert RowOk(ns, a);
  }

  lemma {:induction false} NewOneHop(ns: seq<RegNode>, n: RegNode)
    requires FindNode(ns, n.addr) == |ns|
    ensures RegisterOneHop(ns, n) == Push(ns, n, true)
  {
    hide Push, FindNode;
  }

  // ---------------------------------------------------------------- schedule()

  /** The node found a place in this run. */
  predicate PlacedNow(before: RegNode, after: RegNode) {
    before.hop.OneHop? && !before.flag && after.flag
  }

  /** Node j found a place in this run, or is a child of a node that did. */
  ghost predicate Reached(r: seq<RegNode>, ns: seq<RegNode>, j: nat)
    requires |r| == |ns| && j < |ns|
  {
    exists p :: 0 <= p < |ns| && PlacedNow(ns[p], r[p]) && (p == j || Names(ns[p].kids, ns[j].addr))
  }

  lemma {:induction false} PlacedMarks(ns: seq<RegNode>, i: nat)
    requires DistinctAddrs(ns) && i < |ns| && NodeOk(ns[i])
    ensures var r := MarkScheduled(ns, i);
            && |r| == |ns|
            && forall j | 0 <= j < |ns| ::
                 r[j] == ns[j].(flag := j == i || ns[j].flag,
                                connected := j == i || Names(ns[i].kids, ns[j].addr) || ns[j].connected)
  {
    hide NodeOk, DistinctAddrs, Names, SetKidsConnected;
    var m := ns[i := ns[i].(flag := true, connected := true)];
    DistinctMarked(ns, i, m);
    KidsMarked(m, ns[i], true);
  }

  lemma {:induction false} DistinctMarked(ns: seq<RegNode>, i: nat, m: seq<RegNode>)
    requires DistinctAddrs(ns) && i < |ns| && m == ns[i := ns[i].(flag := true, connected := true)]
    ensures DistinctAddrs(m)
  {
    DistinctAt(ns, i);
    UpdateTable(ns, m[i]);
  }

  /** schedule() connects exactly the nodes that it places and their children, and disconnects nobody. */
  lemma {:induction false} ScheduleConnects(ns: seq<RegNode>, gs: seq<Group>, i: nat, dist: nat)
    requires gs != [] && RegistryOk(ns) && i <= |ns|
    ensures var r := ScheduleFrom(ns, gs, i, dist).0;
            && |r| == |ns|
            && forall j | 0 <= j < |ns| :: r[j].connected <==> ns[j].connected || Reached(r, ns, j)
    decreases |ns| - i
  {
    hide RegistryOk, ScheduleFrom, MarkScheduled, PlaceOne, Names;
    var r := ScheduleFrom(ns, gs, i, dist).0;
    Balance.ScheduleMarks(ns, gs, i, dist);
    if i == |ns| {
      NothingLeft(ns, gs, i, dist);
    } else {
      var (m, gs') := RoundAt(ns, gs, i, dist);
      ScheduleRound(ns, gs, i, dist);
      RoundMarks(ns, gs, i, dist);
      ScheduleConnects(m, gs', i + 1, dist);
      Balance.ScheduleMarks(m, gs', i + 1, dist);
      forall j | 0 <= j < |ns| ensures r[j].connected <==> ns[j].connected || Reached(r, ns, j) {
        ReachedRound(r, m, ns, i, j);
      }
    }
  }

  lemma {:induction false} NothingLeft(ns: seq<RegNode>, gs: seq<Group>, i: nat, dist: nat)
    requires gs != [] && i == |ns|
    ensures ScheduleFrom(ns, gs, i, dist).0 == ns
  {
  }

  /** The registry after one round: as it was, or node i placed. */
  ghost predicate RoundLeaves(m: seq<RegNode>, ns: seq<RegNode>, i: nat)
    requires i < |ns|
  {
    || m == ns
    || (&& |m| == |ns| && Wants(ns[i])
        && forall j | 0 <= j < |ns| ::
             m[j] == ns[j].(flag := j == i || ns[j].flag,
                            connected := j == i || Names(ns[i].kids, ns[j].addr) || ns[j].connected))
  }

  lemma {:induction false} RoundMarks(ns: seq<RegNode>, gs: seq<Group>, i: nat, dist: nat)
    requires gs != [] && RegistryOk(ns) && i < |ns|
    ensures RoundLeaves(RoundAt(ns, gs, i, dist).0, ns, i) && RegistryOk(RoundAt(ns, gs, i, dist).0)
  {
    hide RegistryOk, MarkScheduled, PlaceOne, Names, NodeOk, DistinctAddrs, FindNode;
    if Wants(ns[i]) && PlaceOne(gs, Job(ns[i], dist)).1 {
      RegistryFacts(ns, ns[i].addr);
      DistinctAt(ns, i);
      PlacedMarks(ns, i);
      MarksKeepRegistry(MarkScheduled(ns, i), ns);
    }
  }

  lemma {:induction false} ReachedRound(r: seq<RegNode>, m: seq<RegNode>, ns: seq<RegNode>, i: nat, j: nat)
    requires |r| == |ns| == |m| && i < |ns| && j < |ns| && RoundLeaves(m, ns, i)
    requires r[j].connected <==> m[j].connected || Reached(r, m, j)
    requires r[i].flag == m[i].flag
    ensures r[j].connected <==> ns[j].connected || Reached(r, ns, j)
  {
    hide Names;
    if m != ns {
      assert PlacedNow(ns[i], r[i]) && !PlacedNow(m[i], r[i]);
      if Reached(r, m, j) {
        var p :| 0 <= p < |m| && PlacedNow(m[p], r[p]) && (p == j || Names(m[p].kids, m[j].addr));
        assert PlacedNow(ns[p], r[p]);
      }
      if Reached(r, ns, j) {
        var p :| 0 <= p < |ns| && PlacedNow(ns[p], r[p]) && (p == j || Names(ns[p].kids, ns[j].addr));
        if p != i {
          assert PlacedNow(m[p], r[p]) && m[p].kids == ns[p].kids && m[j].addr == ns[j].addr;
        }
      }
    }
  }
}
