/**
  * The server of rtlora_mac.c on its heap: NODES, RNL and SCHEDULES updated in place.  Every step is
  * tied to the step of Runs on the value of the three structures.
  */
module Server {
  import opened SlotSpec
  import opened RegistrySpec
  import opened ServerSpec
  import opened NodeList
  import opened Schedules
  import Runs

  class Server {
    const nodes: MngtNodeList
    const rnl: MngtNodeList
    const schedules: ScheduleArray

    ghost predicate Valid()
      reads nodes, nodes.Repr, rnl, rnl.Repr, schedules, schedules.lists, schedules.Repr
    {
      && nodes.Valid() && nodes.sort
      && rnl.Valid() && !rnl.sort
      && nodes != rnl && nodes.Repr !! rnl.Repr
      && schedules.Valid()
    }

    ghost function State(): Runs.State
      reads nodes, rnl, schedules.lists
    {
      Runs.State(nodes.contents, rnl.contents, schedules.Groups())
    }

    lemma {:induction false} RnlSize()
      requires Valid()
      ensures rnl.size == |rnl.contents|
    {
    }

    lemma {:induction false} HasGroups()
      requires Valid()
      ensures schedules.Groups() != []
    {
      assert schedules.lists != [];
    }

    /** twohopLoRaMacInit: n groups of tot slots. */
    constructor (n: nat, tot: nat)
      requires n > 0
      ensures Valid() && State() == Runs.Boot(n, tot)
      ensures fresh(nodes) && fresh(nodes.Repr) && fresh(rnl) && fresh(rnl.Repr)
      ensures fresh(schedules.lists) && fresh(schedules.Repr)
    {
      hide MngtNodeList.Valid, ScheduleArray.Valid, ScheduleArray.Groups;
      nodes := new MngtNodeList(true);
      rnl := new MngtNodeList(false);
      schedules := new ScheduleArray(n, tot);
    }

    // -------------------------------------------------------------- schedule()

    /** A scheduled node and its children count as connected. */
    method MarkPlaced(cur: MngtNode, ghost i: nat)
      requires nodes.Valid() && i < |nodes.spine| && cur == nodes.spine[i]
      requires RegistryOk(nodes.contents)
      modifies nodes`contents, nodes.Repr
      ensures nodes.Valid() && nodes.spine == old(nodes.spine)
      ensures nodes.contents == MarkScheduled(old(nodes.contents), i)
    {
      hide MngtNodeList.Valid, RegistryOk, DistinctAddrs, KidsKnown, SetKidsConnected;
      ghost var ns := nodes.contents;
      nodes.At(i);
      MarkedKnown(ns, i);
      nodes.SetFlag(cur, true, i);
      nodes.SetConnection(cur, true, i);
      nodes.At(i);
      assert nodes.contents == ns[i := ns[i].(flag := true, connected := true)];
      nodes.SetChildConnStatus(cur, true);
    }

    /** The scheduling of one node, which does not touch the registry. */
    method Place(e: Entry) returns (ok: bool)
      requires nodes.Valid() && schedules.Valid()
      modifies schedules, schedules.lists, schedules.Repr
      ensures nodes.Valid() && schedules.Valid() && fresh(schedules.Repr - old(schedules.Repr))
      ensures schedules.Groups() == PlaceOne(old(schedules.Groups()), e).0
      ensures ok == PlaceOne(old(schedules.Groups()), e).1
    {
      ok := schedules.Place(e);
    }

    /** The children of a node are still registered when it is marked. */
    static lemma {:induction false} MarkedKnown(ns: seq<RegNode>, i: nat)
      requires i < |ns| && RegistryOk(ns)
      ensures var m := ns[i := ns[i].(flag := true, connected := true)];
              KidsKnown(m[i], m) && MarkScheduled(ns, i) == SetKidsConnected(m, m[i].kids, m[i].nChildren, true)
    {
      hide SetKidsConnected;
      var m := ns[i := ns[i].(flag := true, connected := true)];
      DistinctAt(ns, i);
      assert RowOk(ns, ns[i].addr);
      forall j | 0 <= j < |m[i].kids| && m[i].kids[j].addr != 0 ensures Lookup(m, m[i].kids[j].addr).Some? {
        MarkedLookup(m, ns, m[i].kids[j].addr);
      }
    }

    /** schedule(): every one-hop node of NODES that is not scheduled is tried once. */
    method Schedule(dist: nat) returns (count: nat)
      requires nodes.Valid() && schedules.Valid() && 0 < dist <= DIST_DC
      requires Consistent(nodes.contents, schedules.Groups())
      modifies nodes`contents, nodes.Repr, schedules, schedules.lists, schedules.Repr
      ensures nodes.Valid() && schedules.Valid() && fresh(schedules.Repr - old(schedules.Repr))
      ensures ScheduleFrom(old(nodes.contents), old(schedules.Groups()), 0, dist)
              == (nodes.contents, schedules.Groups(), count)
    {
      hide Consistent, MngtNodeList.Valid, ScheduleArray.Valid;
      count := ScheduleAll(dist, nodes.contents, schedules.Groups());
    }

    /** The loop of schedule(). */
    method ScheduleAll(dist: nat, ghost ns: seq<RegNode>, ghost gs: seq<Group>) returns (count: nat)
      requires nodes.Valid() && schedules.Valid() && ns == nodes.contents && gs == schedules.Groups()
      requires 0 < dist <= DIST_DC && Consistent(ns, gs)
      modifies nodes`contents, nodes.Repr, schedules, schedules.lists, schedules.Repr
      ensures nodes.Valid() && schedules.Valid() && fresh(schedules.Repr - old(schedules.Repr))
      ensures ScheduleFrom(ns, gs, 0, dist) == (nodes.contents, schedules.Groups(), count)
    {
      hide Consistent, Remaining, RoundAt, ScheduleFrom, MngtNodeList.Valid, ScheduleArray.Valid;
      var cur := nodes.head;
      ghost var i := 0;
      count := 0;
      nodes.AtHead();
      StartIs(ns, gs, dist);
      while cur != null
        invariant i <= |nodes.spine| && cur == (if i < |nodes.spine| then nodes.spine[i] else null)
        invariant nodes.Valid() && schedules.Valid() && nodes.spine == old(nodes.spine)
        invariant fresh(schedules.Repr - old(schedules.Repr))
        invariant Remaining(ns, gs, dist, nodes.contents, schedules.Groups(), i, count)
        decreases |nodes.spine| - i
      {
        nodes.At(i);
        RoundIs(ns, gs, dist, nodes.contents, schedules.Groups(), i, count);
        var tried := Round(cur, dist, i, nodes.contents, schedules.Groups());
        if tried {
          count := count + 1;
        }
        nodes.At(i);
        cur := cur.next;
        i := i + 1;
      }
      nodes.AtHead();
      EndIs(ns, gs, dist, nodes.contents, schedules.Groups(), i, count);
    }

    /** What is left of schedule() at position i of a consistent state, after `count` tries. */
    static ghost predicate Remaining(ns0: seq<RegNode>, gs0: seq<Group>, dist: nat,
                                     ns: seq<RegNode>, gs: seq<Group>, i: nat, count: nat)
    {
      && gs0 != [] && Consistent(ns, gs)
      && var (r, g, c) := ScheduleFrom(ns, gs, i, dist);
      ScheduleFrom(ns0, gs0, 0, dist) == (r, g, c + count)
    }

    static lemma {:induction false} StartIs(ns: seq<RegNode>, gs: seq<Group>, dist: nat)
      requires Consistent(ns, gs)
      ensures Remaining(ns, gs, dist, ns, gs, 0, 0)
    {
    }

    static lemma {:induction false} EndIs(ns0: seq<RegNode>, gs0: seq<Group>, dist: nat,
                                          ns: seq<RegNode>, gs: seq<Group>, i: nat, count: nat)
      requires i >= |ns| && Remaining(ns0, gs0, dist, ns, gs, i, count)
      ensures gs0 != [] && ScheduleFrom(ns0, gs0, 0, dist) == (ns, gs, count)
    {
    }

    static lemma {:induction false} RoundIs(ns0: seq<RegNode>, gs0: seq<Group>, dist: nat,
                                            ns: seq<RegNode>, gs: seq<Group>, i: nat, count: nat)
      requires i < |ns| && 0 < dist <= DIST_DC
      requires Remaining(ns0, gs0, dist, ns, gs, i, count)
      ensures gs != [] && RegistryOk(ns)
      ensures var (r, gs') := RoundAt(ns, gs, i, dist);
              Remaining(ns0, gs0, dist, r, gs', i + 1, count + if Wants(ns[i]) then 1 else 0)
    {
      RoundKeeps(ns, gs, i, dist);
      MarkScheduledMarks(ns, i);
    }

    /** A node that wants a place leaves its old group and tries the least loaded one. */
    method Try(cur: MngtNode, dist: nat, ghost i: nat, ghost ns: seq<RegNode>, ghost gs: seq<Group>)
      requires nodes.Valid() && schedules.Valid() && ns == nodes.contents && gs == schedules.Groups()
      requires i < |nodes.spine| && cur == nodes.spine[i] && RegistryOk(ns) && Wants(ns[i])
      modifies nodes`contents, nodes.Repr, schedules, schedules.lists, schedules.Repr
      ensures nodes.Valid() && schedules.Valid() && nodes.spine == old(nodes.spine)
      ensures fresh(schedules.Repr - old(schedules.Repr))
      ensures nodes.contents == RoundAt(ns, gs, i, dist).0 && schedules.Groups() == RoundAt(ns, gs, i, dist).1
    {
      hide MngtNodeList.Valid, ScheduleArray.Valid, RegistryOk, PlaceOne, MarkScheduled;
      nodes.At(i);
      var ok := Place(Entry(cur.addr, cur.cls, 0, cur.slotDmn, dist));
      if ok {
        MarkPlaced(cur, i);
      }
    }

    /** One round of the loop. */
    method Round(cur: MngtNode, dist: nat, ghost i: nat, ghost ns: seq<RegNode>, ghost gs: seq<Group>) returns (tried: bool)
      requires nodes.Valid() && schedules.Valid() && ns == nodes.contents && gs == schedules.Groups()
      requires i < |nodes.spine| && cur == nodes.spine[i] && RegistryOk(ns)
      modifies nodes`contents, nodes.Repr, schedules, schedules.lists, schedules.Repr
      ensures nodes.Valid() && schedules.Valid() && nodes.spine == old(nodes.spine)
      ensures fresh(schedules.Repr - old(schedules.Repr))
      ensures nodes.contents == RoundAt(ns, gs, i, dist).0 && schedules.Groups() == RoundAt(ns, gs, i, dist).1
      ensures tried == Wants(ns[i])
    {
      hide MngtNodeList.Valid, ScheduleArray.Valid, RegistryOk, PlaceOne, MarkScheduled;
      nodes.At(i);
      tried := cur.hop.OneHop? && !cur.schFlag;
      if tried {
        Try(cur, dist, i, ns, gs);
      }
    }

    // -------------------------------------------------------------- registration

    /** A one-hop node takes its place; its former children count as disconnected. */
    method AddOneHop(node: MngtNode, ghost ns: seq<RegNode>, ghost n: RegNode)
      requires nodes.Valid() && nodes.sort && node !in nodes.Repr
      requires ns == nodes.contents && n == node.Value() && RegistryOk(ns)
      modifies nodes, nodes.Repr, node
      ensures nodes.Valid() && nodes.Repr <= old(nodes.Repr) + {node}
      ensures nodes.contents == RegisterOneHop(ns, n)
    {
      DropOldChildren(node.addr, ns);
      assert node.Value() == n;
      var added := nodes.PushNode(node);
    }

    method DropOldChildren(a: nat, ghost ns: seq<RegNode>)
      requires nodes.Valid() && ns == nodes.contents && RegistryOk(ns)
      modifies nodes`contents, nodes.Repr
      ensures nodes.Valid() && nodes.spine == old(nodes.spine)
      ensures nodes.contents == WithoutChildren(ns, a)
    {
      hide MngtNodeList.Linked, MngtNodeList.Distinct;
      var temp, k := nodes.GetNodeReferenceByAddress(a);
      if temp != null {
        DistinctAt(ns, k);
        assert RowOk(ns, ns[k].addr);
        nodes.SetChildConnStatus(temp, false);
        ghost var ns1 := nodes.contents;
        KidsConnectedSame(ns, ns[k].kids, ns[k].nChildren, false);
        SameLookup(ns1, ns, a);
        nodes.RemoveChildOfNode(temp, k);
      }
    }

    /** What a one-hop registration does to an earlier entry of the same node. */
    static ghost function WithoutChildren(ns: seq<RegNode>, a: nat): seq<RegNode> {
      var k := FindNode(ns, a);
      if k == |ns| then ns else
      var ns1 := SetKidsConnected(ns, ns[k].kids, ns[k].nChildren, false);
      var j := FindNode(ns1, a);
      if j < |ns1| then ns1[j := DropKids(ns1[j])] else ns1
    }

    /** The parent after the child asked for a slot; its subtree has to be scheduled again. */
    static method Adopt(parent: MngtNode, node: MngtNode) returns (ok: bool)
      requires parent != node
      modifies parent`slotDmn, parent`nboChildren, parent`children, parent`schFlag
      ensures ok == AddChild(old(parent.Value()), node.Value()).1
      ensures parent.Value() == var p := AddChild(old(parent.Value()), node.Value()).0; if ok then p.(flag := false) else p
    {
      ok := parent.AddChildToNode(node);
      if ok {
        parent.schFlag := false;
      }
    }

    /** A two-hop node is added to its parent and then to the registry. */
    method AddTwoHop(node: MngtNode, ghost ns: seq<RegNode>, ghost n: RegNode) returns (ok: bool)
      requires nodes.Valid() && nodes.sort && node !in nodes.Repr
      requires ns == nodes.contents && n == node.Value()
      modifies nodes, nodes.Repr, node
      ensures nodes.Valid() && nodes.Repr <= old(nodes.Repr) + {node}
      ensures (nodes.contents, ok) == RegisterTwoHop(ns, n)
    {
      hide MngtNodeList.Valid, AddChild, Push;
      var parent := nodes.PopNodeByAddress(node.parentAddr);
      if parent == null {
        return false;
      }
      assert node.Value() == n;
      ok := Adopt(parent, node);
      assert node.Value() == n;
      ok := PushBoth(parent, node, ok, nodes.contents, parent.Value(), n);
    }

    /** The parent goes back to the list, and its child with it if it was accepted. */
    method PushBoth(parent: MngtNode, node: MngtNode, both: bool,
                    ghost ns: seq<RegNode>, ghost p: RegNode, ghost n: RegNode) returns (ok: bool)
      requires nodes.Valid() && nodes.sort && parent !in nodes.Repr && node !in nodes.Repr && parent != node
      requires ns == nodes.contents && p == parent.Value() && n == node.Value()
      modifies nodes, nodes.Repr, parent, node
      ensures nodes.Valid() && nodes.Repr <= old(nodes.Repr) + {parent, node} && ok == both
      ensures nodes.contents == if both then Push(Push(ns, p, true), n, true) else Push(ns, p, true)
    {
      hide MngtNodeList.Valid, Push;
      ok := both;
      var added := nodes.PushNode(parent);
      if both {
        assert node.Value() == n;
        added := nodes.PushNode(node);
      }
    }

    /** addNodeToNodeList(&NODES, node) */
    method AddNodeToNodes(node: MngtNode, ghost ns: seq<RegNode>, ghost gs: seq<Group>, ghost n: RegNode) returns (ok: bool)
      requires nodes.Valid() && nodes.sort && schedules.Valid() && node !in nodes.Repr
      requires ns == nodes.contents && gs == schedules.Groups() && n == node.Value() && RegistryOk(ns)
      modifies nodes, nodes.Repr, node, schedules.lists, schedules.Repr
      ensures nodes.Valid() && schedules.Valid() && nodes.Repr <= old(nodes.Repr) + {node}
      ensures (nodes.contents, schedules.Groups(), ok) == AddNode(ns, gs, n)
    {
      hide MngtNodeList.Valid, ScheduleArray.Valid, RegisterOneHop, RegisterTwoHop, RemoveAll;
      if node.hop.OneHop? {
        AddOneHop(node, ns, n);
        ok := true;
      } else {
        schedules.RemoveNode(node.addr);
        ok := AddTwoHop(node, ns, n);
      }
    }

    // -------------------------------------------------------------- the steps of a run

    static lemma {:induction false} RegistryOf(s: Runs.State)
      requires Runs.StateOk(s)
      ensures RegistryOk(s.nodes) && s.groups != []
    {
    }

    static lemma {:induction false} Absorbed(s: Runs.State)
      requires s.groups != []
      ensures s.queue == [] ==> Runs.Step(s, Runs.Absorb) == s
      ensures s.queue != [] ==>
                var (ns, gs, ok) := AddNode(s.nodes, s.groups, s.queue[0]);
                Runs.Step(s, Runs.Absorb) == Runs.State(ns, s.queue[1..], gs)
    {
    }

    /** A registration request enters RNL. */
    method Receive(node: MngtNode)
      requires Valid() && node !in nodes.Repr && node !in rnl.Repr
      modifies rnl, rnl.Repr, node
      ensures Valid() && State() == Runs.Step(old(State()), Runs.Receive(old(node.Value())))
    {
      hide MngtNodeList.Valid, ScheduleArray.Valid, ScheduleArray.Groups, Push;
      ghost var s, n := State(), node.Value();
      HasGroups();
      var added := rnl.PushNode(node);
      assert State() == Runs.Step(s, Runs.Receive(n));
    }

    /** The head of RNL moves to NODES. */
    method Absorb() returns (moved: bool)
      requires Valid() && Runs.StateOk(State())
      modifies nodes, nodes.Repr, rnl, rnl.Repr, schedules.lists, schedules.Repr
      ensures Valid() && State() == Runs.Step(old(State()), Runs.Absorb)
      ensures moved == (old(rnl.contents) != [])
      ensures rnl.Repr <= old(rnl.Repr) && nodes.Repr <= old(nodes.Repr) + old(rnl.Repr)
    {
      hide MngtNodeList.Valid, ScheduleArray.Valid, ScheduleArray.Groups, AddNode, Runs.StateOk, Runs.Step;
      ghost var s := State();
      RegistryOf(s);
      Absorbed(s);
      var node := rnl.PopHeadNode();
      moved := node != null;
      if moved {
        var ok := AddNodeToNodes(node, s.nodes, s.groups, s.queue[0]);
      }
    }

    /** The data collection phase moves all of RNL to NODES before it schedules. */
    method AbsorbAll()
      requires Valid() && Runs.StateOk(State())
      modifies nodes, nodes.Repr, rnl, rnl.Repr, schedules.lists, schedules.Repr
      ensures Valid() && Runs.StateOk(State()) && rnl.contents == []
      ensures rnl.Repr <= old(rnl.Repr) && nodes.Repr <= old(nodes.Repr) + old(rnl.Repr)
      ensures State() == Runs.AbsorbMany(old(State()), |old(rnl.contents)|)
    {
      ghost var all := Runs.AbsorbMany(State(), |rnl.contents|);
      var more := true;
      while more
        invariant Valid() && Runs.StateOk(State())
        invariant rnl.Repr <= old(rnl.Repr) && nodes.Repr <= old(nodes.Repr) + old(rnl.Repr)
        invariant Runs.AbsorbMany(State(), |rnl.contents|) == all
        invariant !more ==> rnl.contents == [] && State() == all
        decreases |rnl.contents|, more
      {
        hide Valid, Runs.StateOk, Runs.AbsorbMany, Runs.Step;
        Runs.AbsorbHead(State());
        more := Absorb();
      }
    }

    /** No node is scheduled any more. */
    method ForgetAll()
      requires nodes.Valid() && schedules.Valid()
      modifies nodes`contents, nodes.Repr, schedules.lists
      ensures nodes.Valid() && schedules.Valid()
      ensures nodes.contents == ClearFlags(old(nodes.contents), false)
      ensures schedules.Groups() == ClearAll(old(schedules.Groups()))
    {
      hide MngtNodeList.Valid, ScheduleArray.Valid, ClearFlags, ClearAll;
      nodes.SetSchFlagAll(false);
      schedules.Clear();
    }

    static lemma {:induction false} ForgottenOk(ns: seq<RegNode>, gs: seq<Group>)
      requires Consistent(ns, gs)
      ensures Consistent(ClearFlags(ns, false), ClearAll(gs))
    {
      MarksKeepRegistry(ClearFlags(ns, false), ns);
    }

    /** The whole schedule anew. */
    method Rebuild(ghost ns: seq<RegNode>, ghost gs: seq<Group>) returns (count: nat)
      requires nodes.Valid() && schedules.Valid() && ns == nodes.contents && gs == schedules.Groups()
      requires Consistent(ClearFlags(ns, false), ClearAll(gs))
      modifies nodes`contents, nodes.Repr, schedules, schedules.lists, schedules.Repr
      ensures nodes.Valid() && schedules.Valid() && fresh(schedules.Repr - old(schedules.Repr))
      ensures (nodes.contents, schedules.Groups(), count) == Distribute(ns, gs)
    {
      hide Consistent, MngtNodeList.Valid, ScheduleArray.Valid, ScheduleFrom, ClearFlags, ClearAll;
      ForgetAll();
      count := Schedule(DIST_SD);
    }

    /** The start of the distribution phase: forget every schedule, build a new one. */
    method StartPhase() returns (count: nat)
      requires Valid() && Runs.StateOk(State())
      modifies nodes`contents, nodes.Repr, schedules, schedules.lists, schedules.Repr
      ensures Valid() && State() == Runs.Step(old(State()), Runs.StartPhase)
      ensures fresh(schedules.Repr - old(schedules.Repr))
    {
      hide Consistent, MngtNodeList.Valid, ScheduleArray.Valid, ScheduleArray.Groups, Distribute;
      ghost var s := State();
      ForgottenOk(s.nodes, s.groups);
      count := Rebuild(s.nodes, s.groups);
      assert State() == Runs.Step(s, Runs.StartPhase);
    }

    /** The scheduling step of a frame. */
    method ScheduleStep() returns (count: nat)
      requires Valid() && Runs.StateOk(State())
      modifies nodes`contents, nodes.Repr, schedules, schedules.lists, schedules.Repr
      ensures Valid() && State() == Runs.Step(old(State()), Runs.Schedule)
      ensures fresh(schedules.Repr - old(schedules.Repr))
    {
      hide MngtNodeList.Valid, ScheduleArray.Valid, ScheduleArray.Groups, ScheduleFrom;
      ghost var s := State();
      count := Schedule(DIST_DC);
      assert State() == Runs.Step(s, Runs.Schedule);
    }
  }
}
