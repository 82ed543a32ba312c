/**
  * Command messages (CM) of the data collection phase: which nodes a message announces, what that
  * does to the countdowns, and why every newly scheduled node is announced exactly three times.
  */
module Collection {
  import opened Bytes
  import opened Wrappers
  import opened SlotSpec
  import opened RegistrySpec
  import opened ServerSpec
  import opened Distribution
  import Balance
  import Wire

  // ---------------------------------------------------------------- what one message does

  /** The number of items, as the loop over the groups finds it. */
  function Quota(gs: seq<Group>, sofar: int): int {
    if gs == [] then sofar
    else if sofar + gs[0].distReq > Wire.MAX_IN_USI then Wire.MAX_IN_USI
    else Quota(gs[1..], sofar + gs[0].distReq)
  }

  datatype Walked = Walked(group: Group, said: seq<Entry>, left: nat)

  /** The walk along one group from position p, with room for `left` more items. */
  function Walk(g: Group, p: nat, left: nat): Walked
    decreases |g.entries| - p
  {
    if left == 0 || p >= |g.entries| then Walked(g, [], left)
    else if g.entries[p].dist == 0 then Walk(g, p + 1, left)
    else
      var e := g.entries[p];
      var w := Walk(SetDist(g, e.addr, CountDown(e.dist)), p + 1, left - 1);
      w.(said := [e] + w.said)
  }

  /** An announced node and the group it belongs to. */
  datatype Item = Item(group: nat, entry: Entry)

  function Items(k: nat, es: seq<Entry>): (r: seq<Item>)
    ensures |r| == |es|
    ensures forall i | 0 <= i < |es| :: r[i] == Item(k, es[i])
  {
    seq(|es|, i requires 0 <= i < |es| => Item(k, es[i]))
  }

  datatype Round = Round(groups: seq<Group>, said: seq<Item>)

  /** The walk over all groups, the first of which has number k. */
  function WalkAll(gs: seq<Group>, k: nat, left: nat): Round {
    if gs == [] then Round([], []) else
    var w := Walk(gs[0], 0, left);
    var r := WalkAll(gs[1..], k + 1, w.left);
    Round([w.group] + r.groups, Items(k, w.said) + r.said)
  }

  /** Groups and announcements after a command message. */
  function SendCm(gs: seq<Group>): Round {
    var q := Quota(gs, 0);
    WalkAll(gs, 0, if q > 0 then q else 0)
  }

  // ---------------------------------------------------------------- the walk along one group

  /** A list with the countdowns of its first `left` pending nodes lowered. */
  function Lower(es: seq<Entry>, left: nat): seq<Entry> {
    if es == [] then []
    else if left == 0 || es[0].dist == 0 then [es[0]] + Lower(es[1..], left)
    else [es[0].(dist := CountDown(es[0].dist))] + Lower(es[1..], left - 1)
  }

  /** The first `left` pending nodes of a list. */
  function FirstOwed(es: seq<Entry>, left: nat): seq<Entry> {
    if es == [] || left == 0 then []
    else if es[0].dist == 0 then FirstOwed(es[1..], left)
    else [es[0]] + FirstOwed(es[1..], left - 1)
  }

  /** The same nodes, none of them with more announcements left than before. */
  ghost predicate SameButDist(r: seq<Entry>, es: seq<Entry>) {
    && |r| == |es|
    && forall i | 0 <= i < |es| :: r[i] == es[i].(dist := r[i].dist) && r[i].dist <= es[i].dist
  }

  lemma {:induction false} LowerNothing(es: seq<Entry>)
    ensures Lower(es, 0) == es
  {
    if es != [] {
      LowerNothing(es[1..]);
      assert [es[0]] + es[1..] == es;
    }
  }

  lemma {:induction false} LowerSame(es: seq<Entry>, left: nat)
    ensures SameButDist(Lower(es, left), es)
  {
    if es != [] {
      LowerSame(es[1..], if left == 0 || es[0].dist == 0 then left else left - 1);
    }
  }

  lemma {:induction false} FirstOwedCount(es: seq<Entry>, left: nat)
    ensures |FirstOwed(es, left)| == if Pending(es) < left then Pending(es) else left
  {
    if es != [] && left > 0 {
      FirstOwedCount(es[1..], if es[0].dist == 0 then left else left - 1);
    }
  }

  lemma {:induction false} SplitAt(es: seq<Entry>, r: seq<Entry>, p: nat, x: Entry)
    requires p < |es|
    ensures es[..p + 1] + r == es[..p] + ([es[p]] + r)
    ensures es[p := x][..p + 1] + r == es[..p] + ([x] + r)
    ensures es[p..][1..] == es[p + 1..] && es[p := x][p + 1..] == es[p + 1..]
  {
  }

  /** The walk looks a node up by its address to lower its countdown; as addresses are unique, it
      lowers the nodes it meets, each once. */
  lemma {:induction false} WalkLowers(g: Group, p: nat, left: nat)
    requires UniqueAddrs(g.entries) && CountersOk(g) && p <= |g.entries|
    ensures var w := Walk(g, p, left);
            && w.group.entries == g.entries[..p] + Lower(g.entries[p..], left)
            && w.said == FirstOwed(g.entries[p..], left)
            && w.left == left - |w.said|
            && CountersOk(w.group) && w.group == g.(entries := w.group.entries, distReq := w.group.distReq)
    decreases |g.entries| - p
  {
    hide SetDist, CountDown, CountersOk, UniqueAddrs;
    if left == 0 {
      LowerNothing(g.entries[p..]);
      assert g.entries[..p] + g.entries[p..] == g.entries;
    } else if p == |g.entries| {
      assert g.entries[..p] + [] == g.entries;
    } else {
      var e := g.entries[p];
      SplitAt(g.entries, Lower(g.entries[p + 1..], left), p, e);
      if e.dist == 0 {
        WalkLowers(g, p + 1, left);
      } else {
        var d := CountDown(e.dist);
        LowerOne(g, p);
        WalkLowers(SetDist(g, e.addr, d), p + 1, left - 1);
        SplitAt(g.entries, Lower(g.entries[p + 1..], left - 1), p, e.(dist := d));
      }
    }
  }

  lemma {:induction false} WalkFromHead(g: Group, left: nat)
    requires UniqueAddrs(g.entries) && CountersOk(g)
    ensures var w := Walk(g, 0, left);
            && w.group.entries == Lower(g.entries, left)
            && w.said == FirstOwed(g.entries, left)
            && w.left == left - |w.said|
            && CountersOk(w.group) && w.group == g.(entries := w.group.entries, distReq := w.group.distReq)
  {
    WalkLowers(g, 0, left);
    assert g.entries[0..] == g.entries;
    assert [] + Lower(g.entries, left) == Lower(g.entries, left);
  }

  // ---------------------------------------------------------------- all groups

  /** Every group has correct counters and unique addresses. */
  ghost predicate AllCounted(gs: seq<Group>) {
    gs != [] ==> CountersOk(gs[0]) && UniqueAddrs(gs[0].entries) && AllCounted(gs[1..])
  }

  /** The announcements the groups ask for. */
  function Asked(gs: seq<Group>): int {
    if gs == [] then 0 else gs[0].distReq + Asked(gs[1..])
  }

  /** Countdowns that fit the code's byte. */
  ghost predicate SmallDists(es: seq<Entry>) {
    forall i | 0 <= i < |es| :: es[i].dist < 256
  }

  /** Announcements left for the node with address a. */
  function DistOf(es: seq<Entry>, a: nat): nat {
    if es == [] then 0 else (if es[0].addr == a then es[0].dist else 0) + DistOf(es[1..], a)
  }

  function DistAll(gs: seq<Group>, a: nat): nat {
    if gs == [] then 0 else DistOf(gs[0].entries, a) + DistAll(gs[1..], a)
  }

  function TotalOf(es: seq<Entry>): nat {
    if es == [] then 0 else es[0].dist + TotalOf(es[1..])
  }

  /** The sum of all countdowns. */
  function Total(gs: seq<Group>): nat {
    if gs == [] then 0 else TotalOf(gs[0].entries) + Total(gs[1..])
  }

  function SaidOf(es: seq<Entry>, a: nat): nat {
    if es == [] then 0 else (if es[0].addr == a then 1 else 0) + SaidOf(es[1..], a)
  }

  /** How often the items name address a. */
  function Named(items: seq<Item>, a: nat): nat {
    if items == [] then 0 else (if items[0].entry.addr == a then 1 else 0) + Named(items[1..], a)
  }

  lemma {:induction false} AskedBounds(gs: seq<Group>)
    requires AllCounted(gs)
    ensures Asked(gs) >= 0
  {
    if gs != [] {
      AskedBounds(gs[1..]);
    }
  }

  /** The loop computes the smaller of 15 and the number of pending nodes. */
  lemma {:induction false} QuotaIs(gs: seq<Group>, sofar: nat)
    requires AllCounted(gs) && sofar <= Wire.MAX_IN_USI
    ensures Quota(gs, sofar) == if sofar + Asked(gs) > Wire.MAX_IN_USI then Wire.MAX_IN_USI else sofar + Asked(gs)
  {
    if gs != [] {
      AskedBounds(gs[1..]);
      if sofar + gs[0].distReq <= Wire.MAX_IN_USI { QuotaIs(gs[1..], sofar + gs[0].distReq); }
    }
  }

  /** One step of the walk along a list, with room left. */
  lemma {:induction false} LowerStep(es: seq<Entry>, left: nat, a: nat)
    requires es != [] && left > 0 && es[0].dist < 256
    ensures var e, r := es[0], if es[0].dist == 0 then left else left - 1;
            var low, said := Lower(es[1..], r), FirstOwed(es[1..], r);
            && DistOf(es, a) == (if e.addr == a then e.dist else 0) + DistOf(es[1..], a)
            && TotalOf(es) == e.dist + TotalOf(es[1..])
            && DistOf(Lower(es, left), a)
               == (if e.addr == a && e.dist > 0 then e.dist - 1 else 0) + DistOf(low, a)
            && TotalOf(Lower(es, left)) == (if e.dist > 0 then e.dist - 1 else 0) + TotalOf(low)
            && SaidOf(FirstOwed(es, left), a) == (if e.addr == a && e.dist > 0 then 1 else 0) + SaidOf(said, a)
            && |FirstOwed(es, left)| == (if e.dist > 0 then 1 else 0) + |said|
  {
    var e, r := es[0], if es[0].dist == 0 then left else left - 1;
    var low, said := Lower(es[1..], r), FirstOwed(es[1..], r);
    assert Lower(es, left)[0].addr == e.addr && Lower(es, left)[1..] == low;
    assert e.dist > 0 ==> ([e] + said)[1..] == said;
  }

  lemma {:induction false} NothingLowered(es: seq<Entry>, left: nat, a: nat)
    requires es == [] || left == 0
    ensures Lower(es, left) == es && SaidOf(FirstOwed(es, left), a) == 0 && FirstOwed(es, left) == []
  {
    if es != [] { LowerNothing(es); }
  }

  lemma {:induction false} LowerDist(es: seq<Entry>, left: nat, a: nat)
    requires SmallDists(es)
    ensures DistOf(es, a) == DistOf(Lower(es, left), a) + SaidOf(FirstOwed(es, left), a)
    ensures TotalOf(es) == TotalOf(Lower(es, left)) + |FirstOwed(es, left)|
  {
    hide DistOf, TotalOf, SaidOf, Lower, FirstOwed;
    if es == [] || left == 0 {
      NothingLowered(es, left, a);
    } else {
      LowerStep(es, left, a);
      LowerDist(es[1..], if es[0].dist == 0 then left else left - 1, a);
    }
  }

  lemma {:induction false} NamedAppend(x: seq<Item>, y: seq<Item>, a: nat)
    ensures Named(x + y, a) == Named(x, a) + Named(y, a)
  {
    if x == [] {
      assert x + y == y;
    } else {
      assert (x + y)[1..] == x[1..] + y;
      NamedAppend(x[1..], y, a);
    }
  }

  lemma {:induction false} NamedItems(k: nat, es: seq<Entry>, a: nat)
    ensures Named(Items(k, es), a) == SaidOf(es, a)
  {
    if es != [] {
      assert Items(k, es)[1..] == Items(k, es[1..]);
      NamedItems(k, es[1..], a);
    }
  }

  ghost predicate AllSmall(gs: seq<Group>) {
    gs != [] ==> SmallDists(gs[0].entries) && AllSmall(gs[1..])
  }

  /** What a message may do to a group: countdowns go down, nothing else moves. */
  ghost predicate QuieterGroup(r: Group, g: Group) {
    r == g.(entries := r.entries, distReq := r.distReq) && SameButDist(r.entries, g.entries)
  }

  ghost predicate Quieter(r: seq<Group>, gs: seq<Group>) {
    && |r| == |gs|
    && (gs != [] ==> CountersOk(r[0]) && QuieterGroup(r[0], gs[0]) && Quieter(r[1..], gs[1..]))
  }

  /** The walk along one group: min(left, pending) nodes are announced. */
  lemma {:induction false} WalkAnnounces(g: Group, k: nat, left: nat, a: nat)
    requires UniqueAddrs(g.entries) && CountersOk(g) && SmallDists(g.entries)
    ensures var w := Walk(g, 0, left);
            && CountersOk(w.group) && QuieterGroup(w.group, g)
            && |w.said| == (if g.distReq < left then g.distReq else left) && w.left == left - |w.said|
            && DistOf(g.entries, a) == DistOf(w.group.entries, a) + Named(Items(k, w.said), a)
            && TotalOf(g.entries) == TotalOf(w.group.entries) + |w.said|
  {
    WalkFromHead(g, left);
    LowerSame(g.entries, left);
    FirstOwedCount(g.entries, left);
    LowerDist(g.entries, left, a);
    NamedItems(k, FirstOwed(g.entries, left), a);
  }

  /** One round over the groups: the first `left` pending nodes are announced. */
  lemma {:induction false} WalkAllAnnounces(gs: seq<Group>, k: nat, left: nat)
    requires AllCounted(gs) && AllSmall(gs)
    ensures var r := WalkAll(gs, k, left);
            && Quieter(r.groups, gs)
            && |r.said| == (if Asked(gs) < left then Asked(gs) else left)
  {
    if gs != [] {
      var w := Walk(gs[0], 0, left);
      WalkAnnounces(gs[0], k, left, 0);
      WalkAllAnnounces(gs[1..], k + 1, w.left);
      AskedBounds(gs[1..]);
      assert ([w.group] + WalkAll(gs[1..], k + 1, w.left).groups)[1..] == WalkAll(gs[1..], k + 1, w.left).groups;
    }
  }

  /** Each item lowers the countdown of the node it names by one. */
  lemma {:induction false} WalkAllLowers(gs: seq<Group>, k: nat, left: nat, a: nat)
    requires AllCounted(gs) && AllSmall(gs)
    ensures var r := WalkAll(gs, k, left);
            && DistAll(gs, a) == DistAll(r.groups, a) + Named(r.said, a)
            && Total(gs) == Total(r.groups) + |r.said|
  {
    if gs != [] {
      var w := Walk(gs[0], 0, left);
      var r := WalkAll(gs[1..], k + 1, w.left);
      WalkAnnounces(gs[0], k, left, a);
      WalkAllLowers(gs[1..], k + 1, w.left, a);
      NamedAppend(Items(k, w.said), r.said, a);
      assert ([w.group] + r.groups)[1..] == r.groups;
    }
  }

  /** Each command message announces exactly min(15, pending) nodes, lowers the countdown of every
      node by the number of items that name it, and changes nothing else. */
  lemma {:induction false} CmAnnounces(gs: seq<Group>, a: nat)
    requires AllCounted(gs) && AllSmall(gs)
    ensures var r := SendCm(gs);
            && Quieter(r.groups, gs)
            && |r.said| == (if Asked(gs) < Wire.MAX_IN_USI then Asked(gs) else Wire.MAX_IN_USI)
            && DistAll(gs, a) == DistAll(r.groups, a) + Named(r.said, a)
            && Total(gs) == Total(r.groups) + |r.said|
  {
    QuotaIs(gs, 0);
    AskedBounds(gs);
    WalkAllAnnounces(gs, 0, Quota(gs, 0));
    WalkAllLowers(gs, 0, Quota(gs, 0), a);
  }

  // ---------------------------------------------------------------- consistent groups

  lemma {:induction false} ConsistentCounted(ns: seq<RegNode>, gs: seq<Group>)
    requires forall k | 0 <= k < |gs| :: CountersOk(gs[k]) && UniqueAddrs(gs[k].entries) && GroupBacked(gs[k], ns)
    ensures AllCounted(gs) && AllSmall(gs)
  {
    if gs != [] {
      assert forall k | 0 <= k < |gs[1..]| :: gs[1..][k] == gs[k + 1];
      ConsistentCounted(ns, gs[1..]);
      forall i | 0 <= i < |gs[0].entries| ensures gs[0].entries[i].dist < 256 {
        assert gs[0].entries[i] in gs[0].entries && EntryOk(gs[0].entries[i]);
      }
    }
  }

  lemma {:induction false} QuieterAt(r: seq<Group>, gs: seq<Group>, k: nat)
    requires Quieter(r, gs) && k < |gs|
    ensures CountersOk(r[k]) && QuieterGroup(r[k], gs[k])
  {
    if k > 0 { QuieterAt(r[1..], gs[1..], k - 1); }
  }

  lemma {:induction false} SameNodes(r: seq<Entry>, es: seq<Entry>)
    requires SameButDist(r, es)
    ensures AddrSet(r) == AddrSet(es)
    ensures UniqueAddrs(es) ==> UniqueAddrs(r)
    ensures forall x | x in r :: exists y :: y in es && x == y.(dist := x.dist) && x.dist <= y.dist
  {
    forall a ensures a in AddrSet(r) <==> a in AddrSet(es) {
      if a in AddrSet(r) { var i :| 0 <= i < |r| && r[i].addr == a; assert es[i] in es; }
      if a in AddrSet(es) { var i :| 0 <= i < |es| && es[i].addr == a; assert r[i] in r; }
    }
    forall x | x in r ensures exists y :: y in es && x == y.(dist := x.dist) && x.dist <= y.dist {
      var i :| 0 <= i < |r| && r[i] == x;
      assert es[i] in es;
    }
  }

  lemma {:induction false} QuieterBacked(r: Group, g: Group, ns: seq<RegNode>)
    requires SameButDist(r.entries, g.entries) && GroupBacked(g, ns)
    ensures GroupBacked(r, ns)
  {
    SameNodes(r.entries, g.entries);
    forall x | x in r.entries ensures Backed(x, ns) && EntryOk(x) {
      var y :| y in g.entries && x == y.(dist := x.dist) && x.dist <= y.dist;
      assert Backed(y, ns) && EntryOk(y);
    }
  }

  /** Lowering countdowns keeps the state consistent. */
  lemma {:induction false} QuieterKeeps(ns: seq<RegNode>, gs: seq<Group>, r: seq<Group>)
    requires Consistent(ns, gs) && Quieter(r, gs)
    ensures Consistent(ns, r)
    ensures forall k | 0 <= k < |gs| :: AddrSet(r[k].entries) == AddrSet(gs[k].entries) && r[k].tot == gs[k].tot
  {
    forall k | 0 <= k < |gs|
      ensures CountersOk(r[k]) && UniqueAddrs(r[k].entries) && GroupBacked(r[k], ns)
      ensures AddrSet(r[k].entries) == AddrSet(gs[k].entries) && r[k].tot == gs[k].tot
    {
      QuieterAt(r, gs, k);
      SameNodes(r[k].entries, gs[k].entries);
      assert GroupBacked(gs[k], ns);
      QuieterBacked(r[k], gs[k], ns);
    }
  }

  lemma {:induction false} CmKeeps(ns: seq<RegNode>, gs: seq<Group>)
    requires Consistent(ns, gs)
    ensures Consistent(ns, SendCm(gs).groups) && |SendCm(gs).groups| == |gs|
    ensures forall k | 0 <= k < |gs| :: AddrSet(SendCm(gs).groups[k].entries) == AddrSet(gs[k].entries)
  {
    ConsistentCounted(ns, gs);
    CmAnnounces(gs, 0);
    QuieterKeeps(ns, gs, SendCm(gs).groups);
  }

  // ---------------------------------------------------------------- which nodes are announced

  /** The nodes with announcements left, group by group and in slot order. */
  function PendingItems(gs: seq<Group>, k: nat): seq<Item> {
    if gs == [] then [] else Items(k, FirstOwed(gs[0].entries, |gs[0].entries|)) + PendingItems(gs[1..], k + 1)
  }

  lemma {:induction false} FirstOwedPrefix(es: seq<Entry>, left: nat, all: nat)
    requires |es| <= all
    ensures |FirstOwed(es, left)| <= left && |FirstOwed(es, all)| == Pending(es)
    ensures |FirstOwed(es, left)| == if Pending(es) < left then Pending(es) else left
    ensures FirstOwed(es, left) == FirstOwed(es, all)[..|FirstOwed(es, left)|]
    decreases |es|
  {
    FirstOwedCount(es, left);
    FirstOwedCount(es, all);
    PendingAtMost(es);
    if es != [] && left > 0 {
      if es[0].dist == 0 {
        FirstOwedPrefix(es[1..], left, all);
      } else {
        FirstOwedPrefix(es[1..], left - 1, all - 1);
      }
    }
  }

  lemma {:induction false} ItemsPrefix(k: nat, es: seq<Entry>, all: seq<Entry>, rest: seq<Item>, more: seq<Item>)
    requires |es| <= |all| && es == all[..|es|]
    requires |es| < |all| ==> rest == []
    requires |rest| <= |more| && rest == more[..|rest|]
    ensures Items(k, es) + rest == (Items(k, all) + more)[..|es| + |rest|]
  {
    if |es| == |all| { assert es == all; }
  }

  /** The items are the first of the pending nodes, with their present slot and class: nobody is
      skipped, and the order is that of groups and slots. */
  lemma {:induction false} WalkAllTakes(gs: seq<Group>, k: nat, left: nat)
    requires AllCounted(gs)
    ensures var r := WalkAll(gs, k, left);
            |r.said| <= |PendingItems(gs, k)| && r.said == PendingItems(gs, k)[..|r.said|]
            && (left == 0 ==> r.said == [])
  {
    if gs != [] {
      var es, w := gs[0].entries, Walk(gs[0], 0, left);
      WalkFromHead(gs[0], left);
      FirstOwedPrefix(es, left, |es|);
      WalkAllTakes(gs[1..], k + 1, w.left);
      ItemsPrefix(k, w.said, FirstOwed(es, |es|), WalkAll(gs[1..], k + 1, w.left).said, PendingItems(gs[1..], k + 1));
    }
  }

  lemma {:induction false} FirstOwedMembers(es: seq<Entry>, left: nat)
    ensures forall e | e in FirstOwed(es, left) :: e in es && e.dist > 0
    ensures UniqueAddrs(es) ==> UniqueAddrs(FirstOwed(es, left))
  {
    if es != [] && left > 0 {
      assert es == [es[0]] + es[1..];
      UniqueCons(es[0], es[1..]);
      if es[0].dist == 0 {
        FirstOwedMembers(es[1..], left);
      } else {
        FirstOwedMembers(es[1..], left - 1);
        UniqueCons(es[0], FirstOwed(es[1..], left - 1));
      }
    }
  }

  lemma {:induction false} SaidOnce(es: seq<Entry>, a: nat)
    requires UniqueAddrs(es)
    ensures SaidOf(es, a) == if a in AddrSet(es) then 1 else 0
  {
    if es != [] {
      assert es == [es[0]] + es[1..];
      UniqueCons(es[0], es[1..]);
      SaidOnce(es[1..], a);
    }
  }

  lemma {:induction false} UniqueTail(gs: seq<Group>)
    requires gs != [] && GroupsUnique(gs)
    ensures GroupsUnique(gs[1..])
    ensures forall k | 0 <= k < |gs[1..]| :: AddrSet(gs[0].entries) !! AddrSet(gs[1..][k].entries)
  {
    assert forall k | 0 <= k < |gs[1..]| :: gs[1..][k] == gs[k + 1];
  }

  /** No message names a node twice, and only nodes that have a place are named. */
  lemma {:induction false} NamedOnce(gs: seq<Group>, k: nat, left: nat, a: nat)
    requires GroupsUnique(gs) && AllCounted(gs)
    ensures Named(WalkAll(gs, k, left).said, a) <= 1
    ensures Named(WalkAll(gs, k, left).said, a) > 0 ==> IsScheduled(gs, a)
  {
    if gs != [] {
      var es, w := gs[0].entries, Walk(gs[0], 0, left);
      var r := WalkAll(gs[1..], k + 1, w.left);
      WalkFromHead(gs[0], left);
      FirstOwedMembers(es, left);
      SaidOnce(w.said, a);
      NamedItems(k, w.said, a);
      NamedAppend(Items(k, w.said), r.said, a);
      UniqueTail(gs);
      NamedOnce(gs[1..], k + 1, w.left, a);
      if Named(r.said, a) > 0 {
        var j :| 0 <= j < |gs[1..]| && a in AddrSet(gs[1..][j].entries);
        assert a in AddrSet(gs[j + 1].entries);
      }
    }
  }

  // ---------------------------------------------------------------- the bytes of the message

  /** The occupied slots of a child table. */
  function KidsOf(kids: seq<Child>): seq<Wire.Kid> {
    if kids == [] then []
    else (if kids[0].addr != 0 then [Wire.Kid(kids[0].addr, kids[0].cls)] else []) + KidsOf(kids[1..])
  }

  lemma {:induction false} KidsOfFit(kids: seq<Child>)
    requires forall i | 0 <= i < |kids| :: kids[i].addr < ADDR_LIMIT && kids[i].cls < CLASS_LIMIT
    ensures |KidsOf(kids)| == KidCount(kids) <= |kids|
    ensures forall i | 0 <= i < |KidsOf(kids)| :: KidsOf(kids)[i].addr < 8192 && KidsOf(kids)[i].cls < 8
  {
    if kids != [] { KidsOfFit(kids[1..]); }
  }

  /** An item as the code writes it: the child count is the registry's counter, the children are
      the occupied slots of the child table. */
  function ItemBytes(n: RegNode, i: Item): seq<byte> {
    [Wire.Bits35(i.group, n.nChildren), Wire.Low(i.entry.start)]
    + Wire.AddrBytes(i.entry.addr, i.entry.cls) + Wire.KidBytes(KidsOf(n.kids))
  }

  /** The same item as a message has to carry it. */
  function UsiOf(n: RegNode, i: Item): Wire.Usi {
    Wire.Usi(i.group, i.entry.start % U8, i.entry.addr, i.entry.cls, KidsOf(n.kids))
  }

  ghost predicate Registered(ns: seq<RegNode>, items: seq<Item>) {
    forall i | 0 <= i < |items| :: Lookup(ns, items[i].entry.addr).Some?
  }

  /** The bytes of an item; its node has to be registered, or the code would follow a null reference
      (see Registered). */
  function BytesOf(ns: seq<RegNode>, i: Item): seq<byte> {
    match Lookup(ns, i.entry.addr)
    case None => []
    case Some(n) => ItemBytes(n, i)
  }

  function ItemsBytes(ns: seq<RegNode>, items: seq<Item>): seq<byte> {
    if items == [] then [] else BytesOf(ns, items[0]) + ItemsBytes(ns, items[1..])
  }

  function UsisOf(ns: seq<RegNode>, items: seq<Item>): seq<Wire.Usi>
    requires Registered(ns, items)
  {
    if items == [] then [] else
    [UsiOf(Lookup(ns, items[0].entry.addr).value, items[0])] + UsisOf(ns, items[1..])
  }

  function LastsOf(gs: seq<Group>): seq<nat> {
    if gs == [] then [] else [LastAssigned(gs[0].entries) % U8] + LastsOf(gs[1..])
  }

  /** The command message as the code writes it: the item count is the quota. */
  function PayloadCm(mac: Wire.Mac, seqNo: nat, ns: seq<RegNode>, gs: seq<Group>): seq<byte>
    requires Registered(ns, SendCm(gs).said)
  {
    var q := Quota(gs, 0);
    Wire.Header(Wire.MSG_CM, mac) + Wire.Le16(seqNo) + Wire.LastBytes(LastsOf(gs)) + [Wire.CmCtrl(if q > 0 then q else 0)]
    + ItemsBytes(ns, SendCm(gs).said)
  }

  /** The message meant. */
  function CmOf(seqNo: nat, ns: seq<RegNode>, gs: seq<Group>): Wire.Cm
    requires Registered(ns, SendCm(gs).said)
  {
    Wire.Cm(seqNo, LastsOf(gs), UsisOf(ns, SendCm(gs).said))
  }

  /** An item of a consistent state: its group is one of the first seven, its node is registered. */
  ghost predicate ItemOk(ns: seq<RegNode>, i: Item) {
    && i.group < 7 && EntryOk(i.entry)
    && Lookup(ns, i.entry.addr).Some? && NodeOk(Lookup(ns, i.entry.addr).value)
  }

  lemma {:induction false} ItemFits(n: RegNode, i: Item)
    requires NodeOk(n) && i.group < 7 && EntryOk(i.entry)
    ensures ItemBytes(n, i) == Wire.UsiBytes(UsiOf(n, i))
    ensures Wire.UsiOk(UsiOf(n, i))
  {
    KidsOfFit(n.kids);
    LowOfLow(i.entry.start);
  }

  lemma {:induction false} LowOfLow(x: nat)
    ensures Wire.Low(x % U8) == Wire.Low(x) && x % U8 < 256
  {
  }

  /** The child count of every item is the number of children behind it. */
  lemma {:induction false} ItemsFit(ns: seq<RegNode>, items: seq<Item>)
    requires Registered(ns, items) && forall i | 0 <= i < |items| :: ItemOk(ns, items[i])
    ensures ItemsBytes(ns, items) == Wire.UsisBytes(UsisOf(ns, items))
    ensures |UsisOf(ns, items)| == |items|
    ensures forall i | 0 <= i < |items| :: Wire.UsiOk(UsisOf(ns, items)[i])
  {
    if items != [] {
      assert ItemOk(ns, items[0]);
      ItemFits(Lookup(ns, items[0].entry.addr).value, items[0]);
      ItemsFit(ns, items[1..]);
    }
  }

  lemma {:induction false} LastsFit(gs: seq<Group>)
    ensures |LastsOf(gs)| == |gs|
    ensures forall i | 0 <= i < |gs| :: LastsOf(gs)[i] < 256
  {
    if gs != [] { LastsFit(gs[1..]); }
  }

  /** Whatever is announced is scheduled in the group it is announced for. */
  lemma {:induction false} SaidAreEntries(gs: seq<Group>, k: nat, left: nat)
    requires AllCounted(gs)
    ensures forall i | i in WalkAll(gs, k, left).said ::
              k <= i.group < k + |gs| && i.entry in gs[i.group - k].entries && i.entry.dist > 0
  {
    if gs != [] {
      var w := Walk(gs[0], 0, left);
      var r := WalkAll(gs[1..], k + 1, w.left);
      WalkFromHead(gs[0], left);
      FirstOwedMembers(gs[0].entries, left);
      SaidAreEntries(gs[1..], k + 1, w.left);
      forall i | i in Items(k, w.said) + r.said
        ensures k <= i.group < k + |gs| && i.entry in gs[i.group - k].entries && i.entry.dist > 0
      {
        if i in r.said { assert gs[1..][i.group - k - 1] == gs[i.group - k]; }
      }
    }
  }

  lemma {:induction false} SaidOk(ns: seq<RegNode>, gs: seq<Group>)
    requires Consistent(ns, gs) && |gs| <= 7
    ensures forall i | 0 <= i < |SendCm(gs).said| :: ItemOk(ns, SendCm(gs).said[i])
  {
    var said, q := SendCm(gs).said, Quota(gs, 0);
    ConsistentCounted(ns, gs);
    SaidAreEntries(gs, 0, if q > 0 then q else 0);
    forall i | 0 <= i < |said| ensures ItemOk(ns, said[i]) {
      assert said[i] in said;
      assert GroupBacked(gs[said[i].group], ns);
      assert Backed(said[i].entry, ns) && EntryOk(said[i].entry);
      assert RowOk(ns, said[i].entry.addr);
    }
  }

  /** In every consistent state the command message is well formed: an end node reads back what was
      meant, every child count matches the children, and it has at most 137 bytes. */
  lemma {:induction false} CmIsFaithful(mac: Wire.Mac, seqNo: nat, ns: seq<RegNode>, gs: seq<Group>)
    requires Consistent(ns, gs) && |gs| == mac.channels && Wire.MacOk(mac) && seqNo < 0x10000
    ensures Registered(ns, SendCm(gs).said)
    ensures Wire.ReadCm(PayloadCm(mac, seqNo, ns, gs)) == Some((mac, CmOf(seqNo, ns, gs)))
    ensures |PayloadCm(mac, seqNo, ns, gs)| <= 137
  {
    SaidOk(ns, gs);
    assert forall i | 0 <= i < |SendCm(gs).said| :: ItemOk(ns, SendCm(gs).said[i]);
    CmPayloadIs(mac, seqNo, ns, gs);
    Wire.CmRoundTrip(mac, CmOf(seqNo, ns, gs));
    Wire.UsisLength(CmOf(seqNo, ns, gs).items);
  }

  lemma {:induction false} CmPayloadIs(mac: Wire.Mac, seqNo: nat, ns: seq<RegNode>, gs: seq<Group>)
    requires Consistent(ns, gs) && |gs| <= 7 && seqNo < 0x10000
    requires Registered(ns, SendCm(gs).said) && forall i | 0 <= i < |SendCm(gs).said| :: ItemOk(ns, SendCm(gs).said[i])
    ensures PayloadCm(mac, seqNo, ns, gs) == Wire.CmBytes(mac, CmOf(seqNo, ns, gs))
    ensures Wire.CmOk(CmOf(seqNo, ns, gs)) && |LastsOf(gs)| == |gs|
  {
    ItemsFit(ns, SendCm(gs).said);
    LastsFit(gs);
    ConsistentCounted(ns, gs);
    CmAnnounces(gs, 0);
    QuotaIs(gs, 0);
    AskedBounds(gs);
  }

  // ---------------------------------------------------------------- countdowns under list surgery

  lemma {:induction false} DistAbsent(es: seq<Entry>, a: nat)
    requires a !in AddrSet(es)
    ensures DistOf(es, a) == 0
  {
    if es != [] {
      assert es == [es[0]] + es[1..];
      DistAbsent(es[1..], a);
    }
  }

  lemma {:induction false} DistRemoved(g: Group, x: nat, a: nat)
    requires UniqueAddrs(g.entries)
    ensures DistOf(Remove(g, x).entries, a) == if a == x then 0 else DistOf(g.entries, a)
    ensures TotalOf(Remove(g, x).entries) <= TotalOf(g.entries)
  {
    var es, k := g.entries, Find(g.entries, x);
    RemoveMembers(g, x);
    if a == x { DistAbsent(Remove(g, x).entries, a); }
    if k < |es| { DistRemovedAt(es, k, a); }
  }

  lemma {:induction false} DistRemovedAt(es: seq<Entry>, k: nat, a: nat)
    requires k < |es|
    ensures DistOf(RemoveAt(es, k), a) == DistOf(es, a) - (if es[k].addr == a then es[k].dist else 0)
    ensures TotalOf(RemoveAt(es, k)) == TotalOf(es) - es[k].dist
  {
    if k == 0 {
      assert RemoveAt(es, 0) == es[1..];
    } else {
      assert RemoveAt(es, k)[1..] == RemoveAt(es[1..], k - 1);
      DistRemovedAt(es[1..], k - 1, a);
    }
  }

  lemma {:induction false} DistInserted(es: seq<Entry>, e: Entry, a: nat)
    ensures DistOf(InsertByStart(es, e), a) == DistOf(es, a) + (if a == e.addr then e.dist else 0)
    ensures TotalOf(InsertByStart(es, e)) == TotalOf(es) + e.dist
  {
    if es == [] || es[0].start > e.start {
      assert ([e] + es)[1..] == es;
    } else {
      DistInserted(es[1..], e, a);
    }
  }

  lemma {:induction false} DistUpdated(gs: seq<Group>, k: nat, g: Group, a: nat)
    requires k < |gs|
    ensures DistAll(gs[k := g], a) == DistAll(gs, a) - DistOf(gs[k].entries, a) + DistOf(g.entries, a)
    ensures Total(gs[k := g]) == Total(gs) - TotalOf(gs[k].entries) + TotalOf(g.entries)
  {
    if k == 0 {
      assert gs[0 := g][1..] == gs[1..];
    } else {
      assert gs[k := g][1..] == gs[1..][k - 1 := g];
      DistUpdated(gs[1..], k - 1, g, a);
    }
  }

  lemma {:induction false} DistRemovedAll(gs: seq<Group>, x: nat, a: nat)
    requires forall k | 0 <= k < |gs| :: UniqueAddrs(gs[k].entries)
    ensures DistAll(RemoveAll(gs, x), a) == if a == x then 0 else DistAll(gs, a)
    ensures Total(RemoveAll(gs, x)) <= Total(gs)
  {
    if gs != [] {
      DistRemoved(gs[0], x, a);
      assert forall k | 0 <= k < |gs[1..]| :: gs[1..][k] == gs[k + 1];
      DistRemovedAll(gs[1..], x, a);
      assert RemoveAll(gs, x)[1..] == RemoveAll(gs[1..], x);
    }
  }

  /** One round of schedule() gives the node its new countdown and leaves the others alone. */
  lemma {:induction false} PlaceOneDist(gs: seq<Group>, e: Entry, a: nat)
    requires gs != [] && GroupsUnique(gs)
    ensures var (r, ok) := PlaceOne(gs, e);
            && DistAll(r, a) == (if a == e.addr then (if ok then e.dist else 0) else DistAll(gs, a))
            && Total(r) <= Total(gs) + (if ok then e.dist else 0)
            && (Balance.Unscheduled(gs, e.addr) ==> Total(r) == Total(gs) + (if ok then e.dist else 0))
  {
    var gs1 := RemoveAll(gs, e.addr);
    var k := LowestLoad(gs1);
    DistRemovedAll(gs, e.addr, a);
    var e' := e.(start := Assign(gs1[k].entries, gs1[k].tot, e.demand));
    DistInserted(gs1[k].entries, e', a);
    DistUpdated(gs1, k, ScheduleOne(gs1[k], e).0, a);
    if Balance.Unscheduled(gs, e.addr) { Balance.RemoveNew(gs, e.addr); }
  }

  /** The addresses scheduled after one round: those before but the node's, and the node's if it
      found a place. */
  lemma {:induction false} PlaceOneAddrs(gs: seq<Group>, e: Entry, a: nat)
    requires gs != [] && GroupsUnique(gs)
    ensures a != e.addr && Balance.Unscheduled(gs, a) ==> Balance.Unscheduled(PlaceOne(gs, e).0, a)
    ensures a == e.addr && !PlaceOne(gs, e).1 ==> Balance.Unscheduled(PlaceOne(gs, e).0, a)
  {
    hide AddrSet, UniqueAddrs, InsertByStart, Assign, Remove, LowestLoad;
    var gs1 := RemoveAll(gs, e.addr);
    var k := LowestLoad(gs1);
    forall j | 0 <= j < |gs| ensures AddrSet(gs1[j].entries) == AddrSet(gs[j].entries) - {e.addr} {
      RemoveMembers(gs[j], e.addr);
    }
    InsertMembers(gs1[k].entries, e.(start := Assign(gs1[k].entries, gs1[k].tot, e.demand)));
  }

  // ---------------------------------------------------------------- what is owed to one node

  /** Announcements owed to address a: three if it waits for a place, else what is left of them. */
  function Debt(ns: seq<RegNode>, gs: seq<Group>, a: nat): nat {
    if Lookup(ns, a).Some? && Wants(Lookup(ns, a).value) then DIST_DC else DistAll(gs, a)
  }

  /** No node that waits for a place at a position before i still has an old one. */
  ghost predicate CleanTo(ns: seq<RegNode>, gs: seq<Group>, i: nat) {
    forall j | 0 <= j < |ns| && j < i && Wants(ns[j]) :: Balance.Unscheduled(gs, ns[j].addr)
  }

  function Waiting(ns: seq<RegNode>): nat {
    if ns == [] then 0 else (if Wants(ns[0]) then 1 else 0) + Waiting(ns[1..])
  }

  /** The announcements still to come: those counted down and three for every waiting node. */
  function Outstanding(ns: seq<RegNode>, gs: seq<Group>): nat {
    Total(gs) + DIST_DC * Waiting(ns)
  }

  lemma {:induction false} WaitingMarked(r: seq<RegNode>, ns: seq<RegNode>, i: nat)
    requires |r| == |ns| && i < |ns| && Wants(ns[i])
    requires forall j | 0 <= j < |ns| ::
               r[j] == ns[j].(connected := r[j].connected, flag := if j == i then true else ns[j].flag)
    ensures Waiting(r) == Waiting(ns) - 1
  {
    forall j | 0 <= j < |ns[1..]| ensures r[1..][j] == r[j + 1] && ns[1..][j] == ns[j + 1] {}
    if i == 0 {
      WaitingSame(r[1..], ns[1..]);
    } else {
      assert r[0] == ns[0].(connected := r[0].connected);
      WaitingMarked(r[1..], ns[1..], i - 1);
    }
  }

  lemma {:induction false} WaitingSame(r: seq<RegNode>, ns: seq<RegNode>)
    requires SameButConnected(r, ns)
    ensures Waiting(r) == Waiting(ns)
  {
    if ns != [] {
      assert SameButConnected(r[1..], ns[1..]);
      WaitingSame(r[1..], ns[1..]);
    }
  }

  /** Marking the node at position i as scheduled, seen through the table. */
  lemma {:induction false} MarkedRow(ns: seq<RegNode>, i: nat, a: nat)
    requires DistinctAddrs(ns) && i < |ns|
    ensures var r := MarkScheduled(ns, i);
            && Lookup(r, a).Some? == Lookup(ns, a).Some?
            && (Lookup(r, a).Some? ==>
                  && Lookup(r, a).value.hop == Lookup(ns, a).value.hop
                  && Lookup(r, a).value.flag == (if a == ns[i].addr then true else Lookup(ns, a).value.flag))
  {
    var r := MarkScheduled(ns, i);
    MarkScheduledMarks(ns, i);
    MarkedLookup(r, ns, a);
    DistinctAt(ns, i);
  }

  /** schedule() neither adds to what is owed to a node nor takes from it. */
  lemma {:induction false} ScheduleKeepsDebt(ns: seq<RegNode>, gs: seq<Group>, i: nat, a: nat)
    requires Consistent(ns, gs)
    ensures var (ns', gs', _) := ScheduleFrom(ns, gs, i, DIST_DC);
            Debt(ns', gs', a) == Debt(ns, gs, a)
    decreases |ns| - i
  {
    if i < |ns| {
      var (r, gs') := RoundAt(ns, gs, i, DIST_DC);
      ScheduleRound(ns, gs, i, DIST_DC);
      RoundKeeps(ns, gs, i, DIST_DC);
      RoundKeepsDebt(ns, gs, i, a);
      ScheduleKeepsDebt(r, gs', i + 1, a);
    }
  }

  lemma {:induction false} RoundKeepsDebt(ns: seq<RegNode>, gs: seq<Group>, i: nat, a: nat)
    requires Consistent(ns, gs) && i < |ns|
    ensures Debt(RoundAt(ns, gs, i, DIST_DC).0, RoundAt(ns, gs, i, DIST_DC).1, a) == Debt(ns, gs, a)
  {
    if Wants(ns[i]) {
      DistinctAt(ns, i);
      PlaceOneDist(gs, Job(ns[i], DIST_DC), a);
      MarkedRow(ns, i, a);
    }
  }

  /** After schedule() every node that still waits was refused, and has no place. */
  lemma {:induction false} ScheduleCleans(ns: seq<RegNode>, gs: seq<Group>, i: nat)
    requires Consistent(ns, gs) && i <= |ns| && CleanTo(ns, gs, i)
    ensures var (ns', gs', _) := ScheduleFrom(ns, gs, i, DIST_DC);
            CleanTo(ns', gs', |ns'|)
    decreases |ns| - i
  {
    if i < |ns| {
      var (r, gs') := RoundAt(ns, gs, i, DIST_DC);
      ScheduleRound(ns, gs, i, DIST_DC);
      RoundKeeps(ns, gs, i, DIST_DC);
      RoundCleans(ns, gs, i, i);
      ScheduleCleans(r, gs', i + 1);
    }
  }

  /** One round leaves the waiting nodes that had no place without one, and takes away the place of
      the node at position i if it keeps waiting. */
  lemma {:induction false} RoundCleans(ns: seq<RegNode>, gs: seq<Group>, i: nat, upTo: nat)
    requires Consistent(ns, gs) && i < |ns| && CleanTo(ns, gs, upTo)
    ensures var (r, gs') := RoundAt(ns, gs, i, DIST_DC);
            CleanTo(r, gs', if i == upTo then i + 1 else upTo)
  {
    var (r, gs') := RoundAt(ns, gs, i, DIST_DC);
    MarkScheduledMarks(ns, i);
    forall j | 0 <= j < |r| && (j < upTo || j == i) && Wants(r[j]) ensures Balance.Unscheduled(gs', r[j].addr) {
      DistinctAt(ns, i);
      DistinctAt(ns, j);
      PlaceOneAddrs(gs, Job(ns[i], DIST_DC), ns[j].addr);
    }
  }

  /** schedule() can only lower what is outstanding, by dropping old places; from a clean state it
      keeps it, and changes nothing at all unless it finds a place for a waiting node. */
  lemma {:induction false} ScheduleOutstanding(ns: seq<RegNode>, gs: seq<Group>, i: nat)
    requires Consistent(ns, gs) && i <= |ns|
    ensures var (ns', gs', _) := ScheduleFrom(ns, gs, i, DIST_DC);
            && Outstanding(ns', gs') <= Outstanding(ns, gs)
            && Waiting(ns') <= Waiting(ns)
            && (CleanTo(ns, gs, |ns|) ==> Outstanding(ns', gs') == Outstanding(ns, gs))
            && (CleanTo(ns, gs, |ns|) && Waiting(ns') == Waiting(ns) ==> ns' == ns && gs' == gs)
    decreases |ns| - i
  {
    if i < |ns| {
      var (r, gs') := RoundAt(ns, gs, i, DIST_DC);
      ScheduleRound(ns, gs, i, DIST_DC);
      RoundKeeps(ns, gs, i, DIST_DC);
      if CleanTo(ns, gs, |ns|) { RoundCleans(ns, gs, i, |ns|); }
      RoundOutstanding(ns, gs, i);
      ScheduleOutstanding(r, gs', i + 1);
    }
  }

  lemma {:induction false} RoundOutstanding(ns: seq<RegNode>, gs: seq<Group>, i: nat)
    requires Consistent(ns, gs) && i < |ns|
    ensures var (r, gs') := RoundAt(ns, gs, i, DIST_DC);
            && Outstanding(r, gs') <= Outstanding(ns, gs)
            && Waiting(r) <= Waiting(ns)
            && (CleanTo(ns, gs, |ns|) ==> Outstanding(r, gs') == Outstanding(ns, gs))
            && (CleanTo(ns, gs, |ns|) && Waiting(r) == Waiting(ns) ==> r == ns && gs' == gs)
  {
    if Wants(ns[i]) {
      var e := Job(ns[i], DIST_DC);
      PlaceOneDist(gs, e, e.addr);
      if PlaceOne(gs, e).1 {
        MarkScheduledMarks(ns, i);
        WaitingMarked(MarkScheduled(ns, i), ns, i);
      }
      if CleanTo(ns, gs, |ns|) {
        assert Balance.Unscheduled(gs, ns[i].addr);
        Balance.RemoveNew(gs, e.addr);
      }
    }
  }

  // ---------------------------------------------------------------- frames

  /** A frame period without registrations: schedule the waiting nodes, send a command message. */
  function Frame(ns: seq<RegNode>, gs: seq<Group>): (seq<RegNode>, Round)
    requires gs != []
  {
    var (ns', gs', _) := ScheduleFrom(ns, gs, 0, DIST_DC);
    (ns', SendCm(gs'))
  }

  lemma {:induction false} FrameKeeps(ns: seq<RegNode>, gs: seq<Group>)
    requires Consistent(ns, gs)
    ensures var (ns', r) := Frame(ns, gs);
            && Consistent(ns', r.groups)
            && CleanTo(ns', r.groups, |ns'|)
  {
    var (ns', gs', _) := ScheduleFrom(ns, gs, 0, DIST_DC);
    ScheduleKeeps(ns, gs, 0, DIST_DC);
    ScheduleCleans(ns, gs, 0);
    CmKeeps(ns', gs');
  }

  datatype History = History(nodes: seq<RegNode>, groups: seq<Group>, said: seq<Item>)

  /** The state after m frames and everything announced in them. */
  ghost function Frames(ns: seq<RegNode>, gs: seq<Group>, m: nat): History
    requires Consistent(ns, gs)
    decreases m
  {
    if m == 0 then History(ns, gs, []) else
    FrameKeeps(ns, gs);
    var (ns', r) := Frame(ns, gs);
    var h := Frames(ns', r.groups, m - 1);
    h.(said := r.said + h.said)
  }

  lemma {:induction false} DistAllAbsent(gs: seq<Group>, a: nat)
    requires Balance.Unscheduled(gs, a)
    ensures DistAll(gs, a) == 0
  {
    if gs != [] {
      DistAbsent(gs[0].entries, a);
      assert forall k | 0 <= k < |gs[1..]| :: gs[1..][k] == gs[k + 1];
      DistAllAbsent(gs[1..], a);
    }
  }

  /** A frame pays off exactly what its message announces. */
  lemma {:induction false} FramePays(ns: seq<RegNode>, gs: seq<Group>, a: nat)
    requires Consistent(ns, gs)
    ensures var (ns', r) := Frame(ns, gs);
            Debt(ns, gs, a) == Debt(ns', r.groups, a) + Named(r.said, a)
  {
    var (ns', gs', _) := ScheduleFrom(ns, gs, 0, DIST_DC);
    ScheduleKeeps(ns, gs, 0, DIST_DC);
    ScheduleKeepsDebt(ns, gs, 0, a);
    ScheduleCleans(ns, gs, 0);
    ConsistentCounted(ns', gs');
    CmAnnounces(gs', a);
    if Lookup(ns', a).Some? && Wants(Lookup(ns', a).value) {
      assert Balance.Unscheduled(gs', ns'[FindNode(ns', a)].addr);
      DistAllAbsent(gs', a);
    }
  }

  lemma {:induction false} NamedNobody(a: nat)
    ensures Named([], a) == 0
  {
  }

  /** One frame and then the rest. */
  lemma {:induction false} FramesUnfold(ns: seq<RegNode>, gs: seq<Group>, m: nat)
    requires Consistent(ns, gs)
    ensures gs != []
    ensures m == 0 ==> Frames(ns, gs, m) == History(ns, gs, [])
    ensures m > 0 ==>
              var (ns', r) := Frame(ns, gs);
              Consistent(ns', r.groups) &&
              var h := Frames(ns', r.groups, m - 1); Frames(ns, gs, m) == h.(said := r.said + h.said)
  {
    hide Frame, CleanTo, RegistryOk, GroupsUnique, CountersOk, GroupBacked;
    if m > 0 { FrameKeeps(ns, gs); }
  }

  /** Conservation: over any number of frames, what a node was owed is what was announced for it
      and what it is still owed. */
  lemma {:induction false} FramesConserve(ns: seq<RegNode>, gs: seq<Group>, m: nat, a: nat)
    requires Consistent(ns, gs)
    ensures var h := Frames(ns, gs, m);
            Debt(ns, gs, a) == Debt(h.nodes, h.groups, a) + Named(h.said, a)
    decreases m
  {
    hide Consistent, Frame, Frames, Debt, Named, CleanTo;
    FramesUnfold(ns, gs, m);
    if m == 0 {
      NamedNobody(a);
    } else {
      var (ns', r) := Frame(ns, gs);
      FrameKeeps(ns, gs);
      FramePays(ns, gs, a);
      FramesConserve(ns', r.groups, m - 1, a);
      NamedAppend(r.said, Frames(ns', r.groups, m - 1).said, a);
    }
  }

  lemma {:induction false} FramesKeep(ns: seq<RegNode>, gs: seq<Group>, m: nat)
    requires Consistent(ns, gs)
    ensures Consistent(Frames(ns, gs, m).nodes, Frames(ns, gs, m).groups)
    decreases m
  {
    if m > 0 {
      FrameKeeps(ns, gs);
      FramesKeep(Frame(ns, gs).0, Frame(ns, gs).1.groups, m - 1);
    }
  }

  // ---------------------------------------------------------------- draining

  lemma {:induction false} WalkNothing(gs: seq<Group>, k: nat)
    ensures WalkAll(gs, k, 0).groups == gs
  {
    if gs != [] {
      WalkNothing(gs[1..], k + 1);
      assert [gs[0]] + gs[1..] == gs;
    }
  }

  lemma {:induction false} TotalPending(es: seq<Entry>)
    ensures TotalOf(es) == 0 <==> Pending(es) == 0
  {
    if es != [] { TotalPending(es[1..]); }
  }

  lemma {:induction false} TotalAsked(gs: seq<Group>)
    requires AllCounted(gs)
    ensures Total(gs) == 0 <==> Asked(gs) == 0
    ensures Asked(gs) == 0 <==> forall k | 0 <= k < |gs| :: gs[k].distReq == 0
  {
    if gs != [] {
      TotalPending(gs[0].entries);
      TotalAsked(gs[1..]);
      AskedBounds(gs[1..]);
    }
  }

  /** A frame without announcements from a clean state changes nothing: it found nobody a place. */
  lemma {:induction false} SilentFrame(ns: seq<RegNode>, gs: seq<Group>)
    requires Consistent(ns, gs) && CleanTo(ns, gs, |ns|)
    requires Frame(ns, gs).1.said == []
    ensures Frame(ns, gs) == (ns, Round(gs, [])) && Total(gs) == 0
  {
    var (ns', gs', _) := ScheduleFrom(ns, gs, 0, DIST_DC);
    ScheduleKeeps(ns, gs, 0, DIST_DC);
    ConsistentCounted(ns', gs');
    CmAnnounces(gs', 0);
    AskedBounds(gs');
    TotalAsked(gs');
    ScheduleOutstanding(ns, gs, 0);
    QuotaIs(gs', 0);
    WalkNothing(gs', 0);
  }

  /** A frame from a clean state pays off as much as it announces. */
  lemma {:induction false} FrameOutstanding(ns: seq<RegNode>, gs: seq<Group>)
    requires Consistent(ns, gs)
    ensures var (ns', r) := Frame(ns, gs);
            Outstanding(ns', r.groups) + |r.said| <= Outstanding(ns, gs)
  {
    var (ns', gs', _) := ScheduleFrom(ns, gs, 0, DIST_DC);
    ScheduleKeeps(ns, gs, 0, DIST_DC);
    ConsistentCounted(ns', gs');
    CmAnnounces(gs', 0);
    ScheduleOutstanding(ns, gs, 0);
  }

  lemma {:induction false} StaysSilent(ns: seq<RegNode>, gs: seq<Group>, m: nat)
    requires Consistent(ns, gs) && Frame(ns, gs) == (ns, Round(gs, []))
    ensures Frames(ns, gs, m) == History(ns, gs, [])
    decreases m
  {
    if m > 0 {
      StaysSilent(ns, gs, m - 1);
      assert [] + Frames(ns, gs, m - 1).said == [];
    }
  }

  lemma {:induction false} CleanDrains(ns: seq<RegNode>, gs: seq<Group>, m: nat)
    requires Consistent(ns, gs) && CleanTo(ns, gs, |ns|) && Outstanding(ns, gs) <= m
    ensures Total(Frames(ns, gs, m).groups) == 0
    decreases m
  {
    if m > 0 {
      var (ns', r) := Frame(ns, gs);
      FrameKeeps(ns, gs);
      if r.said == [] {
        SilentFrame(ns, gs);
        StaysSilent(ns, gs, m);
      } else {
        FrameOutstanding(ns, gs);
        CleanDrains(ns', r.groups, m - 1);
      }
    }
  }

  /** Data collection drains: without new registrations nothing is left to announce once the frames
      outnumber the announcements outstanding at the start; and by then every node that was waiting
      for a place has been announced exactly three times if it found one, and never otherwise. */
  lemma {:induction false} CollectionDrains(ns: seq<RegNode>, gs: seq<Group>, m: nat, a: nat)
    requires Consistent(ns, gs) && Outstanding(ns, gs) < m
    ensures var h := Frames(ns, gs, m);
            && (forall k | 0 <= k < |h.groups| :: h.groups[k].distReq == 0)
            && (Lookup(ns, a).Some? && Wants(Lookup(ns, a).value) ==>
                  && Lookup(h.nodes, a).Some?
                  && Named(h.said, a) == if Wants(Lookup(h.nodes, a).value) then 0 else 3)
  {
    var h := Frames(ns, gs, m);
    var (ns', r) := Frame(ns, gs);
    FrameKeeps(ns, gs);
    FrameOutstanding(ns, gs);
    CleanDrains(ns', r.groups, m - 1);
    FramesKeep(ns, gs, m);
    ConsistentCounted(h.nodes, h.groups);
    TotalAsked(h.groups);
    FramesConserve(ns, gs, m, a);
    TotalIsZero(h.groups, a);
    FramesMark(ns, gs, m, a);
  }

  lemma {:induction false} TotalIsZero(gs: seq<Group>, a: nat)
    requires Total(gs) == 0
    ensures DistAll(gs, a) == 0
  {
    if gs != [] {
      DistAtMost(gs[0].entries, a);
      TotalIsZero(gs[1..], a);
    }
  }

  lemma {:induction false} DistAtMost(es: seq<Entry>, a: nat)
    ensures DistOf(es, a) <= TotalOf(es)
  {
    if es != [] { DistAtMost(es[1..], a); }
  }

  /** Frames register and unregister nobody. */
  lemma {:induction false} FramesMark(ns: seq<RegNode>, gs: seq<Group>, m: nat, a: nat)
    requires Consistent(ns, gs)
    ensures Lookup(Frames(ns, gs, m).nodes, a).Some? == Lookup(ns, a).Some?
    decreases m
  {
    if m > 0 {
      FrameKeeps(ns, gs);
      Balance.ScheduleMarks(ns, gs, 0, DIST_DC);
      MarkedLookup(ScheduleFrom(ns, gs, 0, DIST_DC).0, ns, a);
      FramesMark(Frame(ns, gs).0, Frame(ns, gs).1.groups, m - 1, a);
    }
  }
}
