/**
  * What an end node reads in the three downlink messages, field by field, in terms of the registry,
  * the queue of registrations and the schedule groups.
  */
module Announcements {
  import opened Bytes
  import opened Wrappers
  import opened SlotSpec
  import opened RegistrySpec
  import opened ServerSpec
  import opened Distribution
  import opened Collection
  import Runs
  import W = Wire

  // ---------------------------------------------------------------- registration lists

  lemma {:induction false} HeadsAre(q: seq<RegNode>)
    ensures |Runs.Heads(q)| == |q|
    ensures forall i | 0 <= i < |q| :: Runs.Heads(q)[i] == W.Kid(q[i].addr, q[i].cls)
  {
    if q != [] { HeadsAre(q[1..]); }
  }

  /** A registration list says its number, whether the network is ready, and the address and class of
      the first 20 nodes of RNL in the order of arrival. */
  lemma {:induction false} RnlSays(s: Runs.State, mac: W.Mac, seqNo: nat, ready: bool)
    requires Runs.StateOk(s) && W.MacOk(mac) && seqNo < 0x10000
    ensures var r := W.ReadRnl(W.RnlBytes(mac, Runs.RnlOf(s.queue, seqNo, ready)));
            && r.Some? && r.value.0 == mac && r.value.1.seqNo == seqNo && r.value.1.ready == ready
            && |r.value.1.added| == (if |s.queue| < 20 then |s.queue| else 20)
            && forall i | 0 <= i < |r.value.1.added| :: r.value.1.added[i] == W.Kid(s.queue[i].addr, s.queue[i].cls)
  {
    hide W.ReadRnl, W.RnlBytes, Consistent, DistinctAddrs, Runs.Heads;
    var heads := s.queue[..Runs.Least(|s.queue|, W.MAX_IN_RNL)];
    Runs.HeadsFit(heads);
    HeadsAre(heads);
    W.RnlRoundTrip(mac, Runs.RnlOf(s.queue, seqNo, ready));
  }

  // ---------------------------------------------------------------- schedule messages

  lemma {:induction false} NodesAre(es: seq<Entry>)
    ensures |SmNodes(es)| == |es|
    ensures forall i | 0 <= i < |es| :: SmNodes(es)[i] == W.SmNode(es[i].addr, es[i].cls, es[i].demand)
  {
    if es != [] { NodesAre(es[1..]); }
  }

  /** From position p of a group on, the message lists nodes one after the other. */
  predicate Stretch(r: W.Sm, g: Group, p: nat) {
    && p + |r.nodes| <= |g.entries| && p < |g.entries|
    && g.entries[p].dist > 0 && (forall i | 0 <= i < p :: g.entries[i].dist == 0)
    && r.start == g.entries[p].start % 256
    && forall i | 0 <= i < |r.nodes| ::
         r.nodes[i] == W.SmNode(g.entries[p + i].addr, g.entries[p + i].cls, g.entries[p + i].demand)
  }

  /** The message is about the first group with a pending node, and lists at most 31. */
  ghost predicate SmTells(r: W.Sm, ns: seq<RegNode>, gs: seq<Group>) {
    && r.relays == |ParentAddrs(ns)| % 256
    && r.group < |gs| && (forall k | 0 <= k < r.group :: Pending(gs[k].entries) == 0)
    && |r.nodes| == (if Pending(gs[r.group].entries) < 31 then Pending(gs[r.group].entries) else 31)
    && exists p :: Stretch(r, gs[r.group], p)
  }

  lemma {:induction false} ListedNodes(gs: seq<Group>, r: W.Sm)
    requires (forall k | 0 <= k < |gs| :: CountersOk(gs[k])) && TakeOf(gs).Some?
    requires var t := TakeOf(gs).value;
             && t.group < |gs| && t.pos < |gs[t.group].entries| && r.group == t.group && r.nodes == SmNodes(Taken(gs))
             && r.start == gs[t.group].entries[t.pos].start % U8
    ensures Stretch(r, gs[r.group], TakeOf(gs).value.pos)
    ensures (forall k | 0 <= k < r.group :: Pending(gs[k].entries) == 0)
    ensures |r.nodes| == (if Pending(gs[r.group].entries) < 31 then Pending(gs[r.group].entries) else 31)
  {
    hide SmNodes, Taken, TakeOf, AfterSm, Announce, FirstPending, SkipAnnounced, SumDemand, Pending;
    SmNeverRunsOff(gs);
    TakenIs(gs);
    NodesAre(Taken(gs));
  }

  /** A schedule message says its number, the present SCH2 start slot, how many nodes have children,
      and the addresses, classes and demands of the pending nodes of one group, with the start slot of
      the first. */
  lemma {:induction false} SmSays(s: Runs.State, mac: W.Mac, count: nat, sch2: nat)
    requires Runs.StateOk(s) && W.MacOk(mac) && |s.groups| <= 7 && count < 16 && sch2 < 256
    ensures SmOf(s.nodes, s.groups, count, sch2).None? <==> forall k | 0 <= k < |s.groups| :: Pending(s.groups[k].entries) == 0
    ensures SmOf(s.nodes, s.groups, count, sch2).Some? ==>
              var r := W.ReadSm(W.SmBytes(mac, SmOf(s.nodes, s.groups, count, sch2).value));
              && r.Some? && r.value.0 == mac && r.value.1.count == count && r.value.1.sch2 == sch2
              && SmTells(r.value.1, s.nodes, s.groups)
  {
    hide W.ReadSm, W.SmBytes, W.SmOk, SmNodes, Taken, TakeOf, Stretch, Relays, ParentAddrs, RegistryOk, GroupsUnique, GroupBacked;
    SmNeverRunsOff(s.groups);
    RelaysAre(s.nodes);
    if TakeOf(s.groups).Some? {
      var m := SmOf(s.nodes, s.groups, count, sch2).value;
      TakenIs(s.groups);
      FirstIsInside(s.groups);
      ListedNodes(s.groups, m);
      Runs.SmFits(s.nodes, s.groups, count, sch2);
      W.SmRoundTrip(mac, m);
    }
  }

  lemma {:induction false} FirstIsInside(gs: seq<Group>)
    requires TakeOf(gs).Some?
    ensures var t := TakeOf(gs).value; t.group < |gs| && t.pos < |gs[t.group].entries|
  {
  }

  // ---------------------------------------------------------------- command messages

  /** The kids are the children of the table in slot order: as many as there are, and each at its rank. */
  predicate KidsSaid(ks: seq<W.Kid>, kids: seq<Child>) {
    && |ks| == KidCount(kids)
    && forall i | 0 <= i < |kids| && kids[i].addr != 0 ::
         KidCount(kids[..i]) < |ks| && ks[KidCount(kids[..i])] == W.Kid(kids[i].addr, kids[i].cls)
  }

  /** The item is about this scheduled node, and about the children the registry lists under its address. */
  predicate SaysEntry(u: W.Usi, e: Entry, ns: seq<RegNode>) {
    && u.addr == e.addr && u.cls == e.cls && u.start == e.start % 256
    && Lookup(ns, e.addr).Some? && KidsSaid(u.kids, Lookup(ns, e.addr).value.kids)
  }

  /** The item is about a pending node of the group it names. */
  ghost predicate ItemSays(u: W.Usi, ns: seq<RegNode>, gs: seq<Group>) {
    u.group < |gs| && exists e :: e in gs[u.group].entries && e.dist > 0 && SaysEntry(u, e, ns)
  }

  /** The last slot of the last node of a group, 0 when there is none. */
  predicate LastSaid(x: nat, es: seq<Entry>) {
    if es == [] then x == 0
    else x == (es[|es| - 1].start + es[|es| - 1].demand - 1) % 0x10000 % 256
  }

  lemma {:induction false} KidsOfSaid(kids: seq<Child>)
    requires |kids| == 2
    ensures KidsSaid(KidsOf(kids), kids)
  {
    var a, b := kids[0], kids[1];
    KidSums(kids);
    assert kids[1..] == [b] && [b][1..] == [];
    assert kids[..0] == [] && kids[..1] == [a] && [a][1..] == [];
    assert KidCount([a]) == if a.addr != 0 then 1 else 0;
    assert KidsOf([b]) == if b.addr != 0 then [W.Kid(b.addr, b.cls)] else [];
  }

  lemma {:induction false} UsisAt(ns: seq<RegNode>, items: seq<Item>, i: nat)
    requires Registered(ns, items) && i < |items|
    ensures |UsisOf(ns, items)| == |items|
    ensures UsisOf(ns, items)[i] == UsiOf(Lookup(ns, items[i].entry.addr).value, items[i])
  {
    hide UsiOf;
    if |items| > 1 { UsisAt(ns, items[1..], if i > 0 then i - 1 else 0); }
  }

  lemma {:induction false} ItemIsSaid(ns: seq<RegNode>, gs: seq<Group>, i: Item)
    requires ItemOk(ns, i) && i.group < |gs| && i.entry in gs[i.group].entries && i.entry.dist > 0
    ensures ItemSays(UsiOf(Lookup(ns, i.entry.addr).value, i), ns, gs)
  {
    hide KidsOf, KidsSaid, EntryOk;
    KidsOfSaid(Lookup(ns, i.entry.addr).value.kids);
    assert SaysEntry(UsiOf(Lookup(ns, i.entry.addr).value, i), i.entry, ns);
  }

  lemma {:induction false} LastsSaid(gs: seq<Group>, k: nat)
    requires k < |gs|
    ensures |LastsOf(gs)| == |gs| && LastSaid(LastsOf(gs)[k], gs[k].entries)
  {
    if |gs| > 1 { LastsSaid(gs[1..], if k > 0 then k - 1 else 0); }
  }

  lemma {:induction false} AllItemsSaid(ns: seq<RegNode>, gs: seq<Group>, i: nat)
    requires Consistent(ns, gs) && |gs| <= 7 && i < |SendCm(gs).said| && Registered(ns, SendCm(gs).said)
    ensures |UsisOf(ns, SendCm(gs).said)| == |SendCm(gs).said|
    ensures ItemSays(UsisOf(ns, SendCm(gs).said)[i], ns, gs)
  {
    hide WalkAll, Quota, UsisOf, UsiOf, ItemOk, ItemSays;
    var said, q := SendCm(gs).said, Quota(gs, 0);
    SaidOk(ns, gs);
    ConsistentCounted(ns, gs);
    SaidAreEntries(gs, 0, if q > 0 then q else 0);
    assert said[i] in said;
    UsisAt(ns, said, i);
    IsOk(ns, said[i]);
    ItemIsSaid(ns, gs, said[i]);
  }

  lemma {:induction false} IsOk(ns: seq<RegNode>, i: Item)
    requires ItemOk(ns, i)
    ensures Lookup(ns, i.entry.addr).Some?
  {
  }

  /** A command message says its number, the last slot in use of every group, and items: at most 15, as
      many as announcements are pending; each about a pending node of its group, with the children that
      the registry lists under that node in the order of the table. */
  lemma {:induction false} CmSays(s: Runs.State, mac: W.Mac, seqNo: nat)
    requires Runs.StateOk(s) && W.MacOk(mac) && |s.groups| == mac.channels && seqNo < 0x10000
    ensures Registered(s.nodes, SendCm(s.groups).said)
    ensures var r := W.ReadCm(PayloadCm(mac, seqNo, s.nodes, s.groups));
            && r.Some? && r.value.0 == mac && r.value.1.seqNo == seqNo
            && |r.value.1.lasts| == |s.groups|
            && (forall k | 0 <= k < |s.groups| :: LastSaid(r.value.1.lasts[k], s.groups[k].entries))
            && |r.value.1.items| == (if Asked(s.groups) < 15 then Asked(s.groups) else 15)
            && forall i | 0 <= i < |r.value.1.items| :: ItemSays(r.value.1.items[i], s.nodes, s.groups)
  {
    hide W.ReadCm, PayloadCm, LastSaid, LastsOf, ItemSays, UsisOf, SendCm, Registered, Runs.QueueOk, Asked, GroupBacked;
    var ns, gs := s.nodes, s.groups;
    CmIsFaithful(mac, seqNo, ns, gs);
    ConsistentCounted(ns, gs);
    CmAnnounces(gs, 0);
    AskedBounds(gs);
    LastsFit(gs);
    forall k | 0 <= k < |gs|
      ensures LastSaid(LastsOf(gs)[k], gs[k].entries)
    {
      LastsSaid(gs, k);
    }
    UsisSize(ns, SendCm(gs).said);
    forall i | 0 <= i < |SendCm(gs).said|
      ensures ItemSays(UsisOf(ns, SendCm(gs).said)[i], ns, gs)
    {
      AllItemsSaid(ns, gs, i);
    }
  }

  lemma {:induction false} UsisSize(ns: seq<RegNode>, items: seq<Item>)
    requires Registered(ns, items)
    ensures |UsisOf(ns, items)| == |items|
  {
    hide UsisOf, Registered;
    if items == [] {
      NoUsis(ns);
    } else {
      UsisAt(ns, items, 0);
    }
  }

  lemma {:induction false} NoUsis(ns: seq<RegNode>)
    ensures Registered(ns, []) && UsisOf(ns, []) == []
  {
  }
}
