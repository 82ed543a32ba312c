/**
  * Schedule messages (SM): which nodes a message carries, what sending it does to the countdowns,
  * and why a distribution phase loses nothing.
  */
module Distribution {
  import opened Bytes
  import opened Wrappers
  import opened SlotSpec
  import opened RegistrySpec
  import opened ServerSpec
  import Balance
  import Wire

  // ---------------------------------------------------------------- what one message does

  /** The first group with something to announce, |gs| when there is none. */
  function FirstPending(gs: seq<Group>): (k: nat)
    ensures k <= |gs|
    ensures forall j | 0 <= j < k :: gs[j].distReq <= 0
    ensures k < |gs| ==> gs[k].distReq > 0
  {
    if gs == [] || gs[0].distReq > 0 then 0 else 1 + FirstPending(gs[1..])
  }

  /** The first node with a positive countdown, |es| when there is none. */
  function SkipAnnounced(es: seq<Entry>): (p: nat)
    ensures p <= |es|
    ensures forall j | 0 <= j < p :: es[j].dist == 0
    ensures p < |es| ==> es[p].dist > 0
  {
    if es == [] || es[0].dist > 0 then 0 else 1 + SkipAnnounced(es[1..])
  }

  /** A countdown after one announcement; the code computes it in a uint8_t. */
  function CountDown(dist: nat): nat {
    var d := dist % 256;
    if d != 0 then d - 1 else d
  }

  /** The countdowns of the n nodes from position p on, lowered one after the other. */
  function Announce(g: Group, p: nat, n: nat): Group
    decreases n
  {
    if n == 0 || p >= |g.entries| then g
    else Announce(SetDist(g, g.entries[p].addr, CountDown(g.entries[p].dist)), p + 1, n - 1)
  }

  function RelaysAmong(ns: seq<RegNode>, es: seq<Entry>): nat {
    if es == [] then 0 else (if IsRelay(ns, es[0].addr) then 1 else 0) + RelaysAmong(ns, es[1..])
  }

  function SmNodes(es: seq<Entry>): seq<Wire.SmNode> {
    if es == [] then [] else [Wire.SmNode(es[0].addr, es[0].cls, es[0].demand)] + SmNodes(es[1..])
  }

  /** What an SM takes: a group, a position in it and a number of nodes. */
  datatype Take = Take(group: nat, pos: nat, num: nat)

  function TakeOf(gs: seq<Group>): Option<Take> {
    var k := FirstPending(gs);
    if k == |gs| then None else
    var p := SkipAnnounced(gs[k].entries);
    if p == |gs[k].entries| then None
    else Some(Take(k, p, if gs[k].distReq > Wire.MAX_IN_SM then Wire.MAX_IN_SM else gs[k].distReq))
  }

  /** The nodes an SM lists, in list order. */
  function Taken(gs: seq<Group>): seq<Entry> {
    match TakeOf(gs)
    case None => []
    case Some(t) =>
      var es := gs[t.group].entries;
      es[t.pos..if t.pos + t.num <= |es| then t.pos + t.num else |es|]
  }

  function AfterSm(gs: seq<Group>): seq<Group> {
    match TakeOf(gs)
    case None => gs
    case Some(t) => gs[t.group := Announce(gs[t.group], t.pos, t.num)]
  }

  /** The message itself; none is sent when nothing is pending.  Start slots and demands are sent
      as single bytes. */
  function SmOf(ns: seq<RegNode>, gs: seq<Group>, count: nat, sch2: nat): Option<Wire.Sm> {
    match TakeOf(gs)
    case None => None
    case Some(t) =>
      Some(Wire.Sm(count, sch2, Relays(ns) % U8, t.group, gs[t.group].entries[t.pos].start % U8, SmNodes(Taken(gs))))
  }

  function Byte(x: nat): (b: nat)
    ensures b < U8
  {
    x % U8
  }

  /** The SCH2 start slot after the message: one further slot for each relay listed. */
  function Sch2After(ns: seq<RegNode>, gs: seq<Group>, sch2: nat): (s: nat)
    ensures s < U8
  {
    Byte(sch2 + RelaysAmong(ns, Taken(gs)))
  }

  // ---------------------------------------------------------------- safety in every state

  lemma {:induction false} PendingBound(es: seq<Entry>)
    ensures SkipAnnounced(es) + Pending(es) <= |es|
  {
    if es != [] {
      PendingBound(es[1..]);
      if es[0].dist > 0 { PendingAtMost(es); }
    }
  }

  lemma {:induction false} PendingAtMost(es: seq<Entry>)
    ensures Pending(es) <= |es|
    ensures Pending(es) > 0 ==> SkipAnnounced(es) < |es|
  {
    if es != [] { PendingAtMost(es[1..]); }
  }

  /** In every state with correct counters a group that asks for announcements has a node to start
      with, and the message carries min(31, requests) nodes without running off the list. */
  lemma {:induction false} SmNeverRunsOff(gs: seq<Group>)
    requires forall k | 0 <= k < |gs| :: CountersOk(gs[k])
    ensures TakeOf(gs) == None <==> forall k | 0 <= k < |gs| :: gs[k].distReq == 0
    ensures TakeOf(gs).Some? ==>
              var t := TakeOf(gs).value;
              && t.group < |gs|
              && t.pos + t.num <= |gs[t.group].entries|
              && 1 <= t.num <= Wire.MAX_IN_SM
              && (t.num == Wire.MAX_IN_SM || t.num == gs[t.group].distReq)
              && |Taken(gs)| == t.num
  {
    var k := FirstPending(gs);
    if k < |gs| {
      PendingAtMost(gs[k].entries);
      PendingBound(gs[k].entries);
    }
  }

  // ---------------------------------------------------------------- lowering countdowns in order

  /** The list es with the countdowns of the n nodes from position p on lowered. */
  function Lowered(es: seq<Entry>, p: nat, n: nat): (r: seq<Entry>)
    ensures |r| == |es|
    ensures forall i | 0 <= i < |es| ::
              r[i] == if p <= i < p + n then es[i].(dist := CountDown(es[i].dist)) else es[i]
  {
    seq(|es|, i requires 0 <= i < |es| => if p <= i < p + n then es[i].(dist := CountDown(es[i].dist)) else es[i])
  }

  lemma {:induction false} FindAt(es: seq<Entry>, p: nat)
    requires UniqueAddrs(es) && p < |es|
    ensures Find(es, es[p].addr) == p
  {
  }

  /** Lowering by address hits exactly the node the walk is at, because addresses are unique. */
  lemma {:induction false} LowerOne(g: Group, p: nat)
    requires UniqueAddrs(g.entries) && p < |g.entries| && CountersOk(g)
    ensures var d := CountDown(g.entries[p].dist);
            var r := SetDist(g, g.entries[p].addr, d);
            && r == g.(entries := g.entries[p := g.entries[p].(dist := d)], distReq := r.distReq)
            && CountersOk(r) && UniqueAddrs(r.entries)
  {
    var a, d := g.entries[p].addr, CountDown(g.entries[p].dist);
    FindAt(g.entries, p);
    SetDistKeepsCounters(g, a, d);
    SetDistMembers(g, a, d);
  }

  lemma {:induction false} AnnounceLowers(g: Group, p: nat, n: nat)
    requires UniqueAddrs(g.entries) && p + n <= |g.entries| && CountersOk(g)
    ensures var r := Announce(g, p, n);
            && r == g.(entries := Lowered(g.entries, p, n), distReq := r.distReq)
            && CountersOk(r) && UniqueAddrs(r.entries)
    decreases n
  {
    hide CountersOk, UniqueAddrs, SetDist, CountDown, Lowered;
    if n == 0 {
      assert Lowered(g.entries, p, 0) == g.entries;
    } else {
      var g1 := SetDist(g, g.entries[p].addr, CountDown(g.entries[p].dist));
      LowerOne(g, p);
      AnnounceLowers(g1, p + 1, n - 1);
      LoweredStep(g.entries, g1.entries, p, n);
    }
  }

  lemma {:induction false} LoweredStep(es: seq<Entry>, next: seq<Entry>, p: nat, n: nat)
    requires p < |es| && n > 0 && next == es[p := es[p].(dist := CountDown(es[p].dist))]
    ensures Lowered(next, p + 1, n - 1) == Lowered(es, p, n)
  {
  }

  // ---------------------------------------------------------------- the queue of notices

  /** What the network has to be told about one node. */
  datatype Notice = Notice(group: nat, addr: nat, cls: nat, start: nat, demand: nat)

  function Notices(k: nat, es: seq<Entry>): (r: seq<Notice>)
    ensures |r| == |es|
  {
    if es == [] then []
    else [Notice(k, es[0].addr, es[0].cls, es[0].start, es[0].demand)] + Notices(k, es[1..])
  }

  /** The notices still owed to the nodes of one group. */
  function PendingOf(k: nat, es: seq<Entry>): seq<Notice> {
    if es == [] then []
    else (if es[0].dist > 0 then Notices(k, es[..1]) else []) + PendingOf(k, es[1..])
  }

  /** The notices still owed, group by group from group k on. */
  function Owed(gs: seq<Group>, k: nat): seq<Notice>
    decreases |gs| - k
  {
    if k >= |gs| then [] else PendingOf(k, gs[k].entries) + Owed(gs, k + 1)
  }

  /** Every scheduled node once, in the order of groups and slots. */
  function Everybody(gs: seq<Group>, k: nat): seq<Notice>
    decreases |gs| - k
  {
    if k >= |gs| then [] else Notices(k, gs[k].entries) + Everybody(gs, k + 1)
  }

  /** A queue of notices is what comes now followed by the rest. */
  ghost predicate Joins(all: seq<Notice>, now: seq<Notice>, rest: seq<Notice>) {
    all == now + rest
  }

  lemma {:induction false} NoticesAppend(k: nat, a: seq<Entry>, b: seq<Entry>)
    ensures Notices(k, a + b) == Notices(k, a) + Notices(k, b)
  {
    if a == [] {
      assert a + b == b;
    } else {
      assert (a + b)[1..] == a[1..] + b;
      NoticesAppend(k, a[1..], b);
    }
  }

  lemma {:induction false} PendingCount(k: nat, es: seq<Entry>)
    ensures |PendingOf(k, es)| == Pending(es)
  {
    if es != [] { PendingCount(k, es[1..]); }
  }

  /** The nodes still to be announced form a suffix of the list, each with one announcement left. */
  ghost predicate SuffixPending(es: seq<Entry>) {
    forall i | SkipAnnounced(es) <= i < |es| :: es[i].dist == 1
  }

  lemma {:induction false} PendingIsSuffix(k: nat, es: seq<Entry>)
    requires SuffixPending(es)
    ensures PendingOf(k, es) == Notices(k, es[SkipAnnounced(es)..])
  {
    if es != [] {
      var p := SkipAnnounced(es);
      assert SuffixPending(es[1..]) by {
        forall i | SkipAnnounced(es[1..]) <= i < |es[1..]| ensures es[1..][i].dist == 1 {
          assert es[1..][i] == es[i + 1];
        }
      }
      PendingIsSuffix(k, es[1..]);
      if es[0].dist > 0 {
        assert es[0..] == es[..1] + es[1..];
        NoticesAppend(k, es[..1], es[1..]);
        if es[1..] != [] { assert es[1..][0] == es[1]; }
        assert SkipAnnounced(es[1..]) == 0;
        assert es[1..][0..] == es[1..];
      } else {
        assert es[p..] == es[1..][p - 1..];
      }
    }
  }

  lemma {:induction false} SkipIs(es: seq<Entry>, p: nat)
    requires p <= |es| && (forall i | 0 <= i < p :: es[i].dist == 0) && (p < |es| ==> es[p].dist > 0)
    ensures SkipAnnounced(es) == p
  {
  }

  // ---------------------------------------------------------------- the phase invariant

  /** A group during the distribution phase. */
  ghost predicate PhaseGroup(g: Group) {
    CountersOk(g) && UniqueAddrs(g.entries) && SuffixPending(g.entries)
  }

  ghost predicate Phase(gs: seq<Group>) {
    gs != [] ==> PhaseGroup(gs[0]) && Phase(gs[1..])
  }

  lemma {:induction false} PhaseAt(gs: seq<Group>, k: nat)
    requires Phase(gs) && k < |gs|
    ensures PhaseGroup(gs[k])
  {
    if k > 0 { PhaseAt(gs[1..], k - 1); }
  }

  lemma {:induction false} PhaseCounters(gs: seq<Group>)
    requires Phase(gs)
    ensures forall k | 0 <= k < |gs| :: CountersOk(gs[k])
  {
    forall k | 0 <= k < |gs| ensures CountersOk(gs[k]) { PhaseAt(gs, k); }
  }

  lemma {:induction false} PhaseUpdate(gs: seq<Group>, k: nat, g: Group)
    requires Phase(gs) && k < |gs| && PhaseGroup(g)
    ensures Phase(gs[k := g])
  {
    if k == 0 {
      assert gs[0 := g][1..] == gs[1..];
    } else {
      assert gs[k := g][1..] == gs[1..][k - 1 := g];
      PhaseUpdate(gs[1..], k - 1, g);
    }
  }

  lemma {:induction false} LoweredSuffix(es: seq<Entry>, n: nat)
    requires SuffixPending(es) && SkipAnnounced(es) + n <= |es|
    ensures var r := Lowered(es, SkipAnnounced(es), n);
            SuffixPending(r) && SkipAnnounced(r) == SkipAnnounced(es) + n
            && r[SkipAnnounced(es) + n..] == es[SkipAnnounced(es) + n..]
  {
    var p := SkipAnnounced(es);
    var r := Lowered(es, p, n);
    SkipIs(r, p + n);
  }

  lemma {:induction false} PendingMoves(k: nat, es: seq<Entry>, n: nat)
    requires SuffixPending(es) && SkipAnnounced(es) + n <= |es|
    ensures var p := SkipAnnounced(es);
            Joins(PendingOf(k, es), Notices(k, es[p..p + n]), PendingOf(k, Lowered(es, p, n)))
  {
    hide SuffixPending, PendingOf, Notices;
    var p := SkipAnnounced(es);
    LoweredSuffix(es, n);
    PendingIsSuffix(k, es);
    PendingIsSuffix(k, Lowered(es, p, n));
    NoticesSplit(k, es, p, p + n);
    assert es[p + n..] == Lowered(es, p, n)[p + n..];
  }

  lemma {:induction false} NoticesSplit(k: nat, es: seq<Entry>, p: nat, q: nat)
    requires p <= q <= |es|
    ensures Joins(Notices(k, es[p..]), Notices(k, es[p..q]), Notices(k, es[q..]))
  {
    assert es[p..] == es[p..q] + es[q..];
    NoticesAppend(k, es[p..q], es[q..]);
  }

  /** Announcing the next n nodes of a group lowers exactly their countdowns. */
  lemma {:induction false} GroupStep(g: Group, n: nat)
    requires PhaseGroup(g) && n <= Pending(g.entries)
    ensures var p := SkipAnnounced(g.entries);
            var r := Announce(g, p, n);
            && p + n <= |g.entries|
            && PhaseGroup(r)
            && r.distReq == g.distReq - n
  {
    var p := SkipAnnounced(g.entries);
    PendingBound(g.entries);
    AnnounceLowers(g, p, n);
    LoweredSuffix(g.entries, n);
    LoweredPending(g.entries, n);
  }

  lemma {:induction false} LoweredPending(es: seq<Entry>, n: nat)
    requires SuffixPending(es) && SkipAnnounced(es) + n <= |es|
    ensures Pending(Lowered(es, SkipAnnounced(es), n)) == Pending(es) - n
  {
    PendingMoves(0, es, n);
    PendingCount(0, es);
    PendingCount(0, Lowered(es, SkipAnnounced(es), n));
  }

  /** ... and moves exactly their notices from owed to sent. */
  lemma {:induction false} GroupMoves(g: Group, k: nat, n: nat)
    requires PhaseGroup(g) && n <= Pending(g.entries)
    ensures var p := SkipAnnounced(g.entries);
            && p + n <= |g.entries|
            && Joins(PendingOf(k, g.entries), Notices(k, g.entries[p..p + n]), PendingOf(k, Announce(g, p, n).entries))
  {
    hide Announce, Lowered, Notices, PendingOf, Pending, Joins, SkipAnnounced, CountersOk, UniqueAddrs;
    PendingBound(g.entries);
    AnnounceLowers(g, SkipAnnounced(g.entries), n);
    PendingMoves(k, g.entries, n);
  }

  lemma {:induction false} OwedSkips(gs: seq<Group>, k: nat)
    requires k <= |gs| && forall j | 0 <= j < k :: gs[j].distReq == 0
    requires forall j | 0 <= j < |gs| :: CountersOk(gs[j])
    ensures Owed(gs, 0) == Owed(gs, k)
    decreases k
  {
    if k > 0 {
      OwedSkips(gs, k - 1);
      PendingCount(k - 1, gs[k - 1].entries);
      assert PendingOf(k - 1, gs[k - 1].entries) == [];
    }
  }

  lemma {:induction false} OwedSame(a: seq<Group>, b: seq<Group>, k: nat)
    requires |a| == |b| && forall j | k <= j < |a| :: a[j] == b[j]
    ensures Owed(a, k) == Owed(b, k)
    decreases |a| - k
  {
    if k < |a| { OwedSame(a, b, k + 1); }
  }

  /** Replacing the first group that owes anything changes only its share of what is owed. */
  lemma {:induction false} OwedUpdate(gs: seq<Group>, k: nat, g: Group)
    requires k < |gs| && forall j | 0 <= j < k :: gs[j].distReq == 0
    requires CountersOk(g) && forall j | 0 <= j < |gs| :: CountersOk(gs[j])
    ensures Joins(Owed(gs, 0), PendingOf(k, gs[k].entries), Owed(gs, k + 1))
    ensures Joins(Owed(gs[k := g], 0), PendingOf(k, g.entries), Owed(gs, k + 1))
  {
    OwedSkips(gs, k);
    OwedSkips(gs[k := g], k);
    OwedSame(gs, gs[k := g], k + 1);
  }

  lemma {:induction false} Regroup(all: seq<Notice>, group: seq<Notice>, rest: seq<Notice>,
                                   now: seq<Notice>, later: seq<Notice>, others: seq<Notice>)
    requires Joins(all, group, others) && Joins(group, now, later) && Joins(rest, later, others)
    ensures Joins(all, now, rest)
  {
  }

  lemma {:induction false} TakenIs(gs: seq<Group>)
    requires TakeOf(gs).Some? && forall k | 0 <= k < |gs| :: CountersOk(gs[k])
    ensures var t := TakeOf(gs).value;
            && t.group == FirstPending(gs) < |gs|
            && t.pos == SkipAnnounced(gs[t.group].entries)
            && t.pos + t.num <= |gs[t.group].entries|
            && t.num <= Pending(gs[t.group].entries)
            && (forall j | 0 <= j < t.group :: gs[j].distReq == 0)
            && Taken(gs) == gs[t.group].entries[t.pos..t.pos + t.num]
            && AfterSm(gs) == gs[t.group := Announce(gs[t.group], t.pos, t.num)]
  {
    SmNeverRunsOff(gs);
  }

  lemma {:induction false} SmKeepsPhase(gs: seq<Group>)
    requires Phase(gs)
    ensures Phase(AfterSm(gs)) && |AfterSm(gs)| == |gs|
  {
    PhaseCounters(gs);
    SmNeverRunsOff(gs);
    if TakeOf(gs).Some? {
      var t := TakeOf(gs).value;
      PhaseAt(gs, t.group);
      GroupStep(gs[t.group], t.num);
      PhaseUpdate(gs, t.group, Announce(gs[t.group], t.pos, t.num));
    }
  }

  /** One message: what it lists was owed first, and the rest stays owed. */
  lemma {:induction false} SmStep(gs: seq<Group>)
    requires Phase(gs) && TakeOf(gs).Some?
    ensures Joins(Owed(gs, 0), Listed(gs), Owed(AfterSm(gs), 0))
  {
    hide TakeOf, Taken, AfterSm, Announce, Joins, Owed, Phase, CountersOk, Notices, SkipAnnounced;
    var t := TakeOf(gs).value;
    PhaseCounters(gs);
    TakenIs(gs);
    SmStepAt(gs, t.group, t.num);
  }

  lemma {:induction false} SmStepAt(gs: seq<Group>, k: nat, n: nat)
    requires Phase(gs) && k < |gs| && n <= Pending(gs[k].entries) && forall j | 0 <= j < k :: gs[j].distReq == 0
    ensures var p := SkipAnnounced(gs[k].entries);
            p + n <= |gs[k].entries|
            && Joins(Owed(gs, 0), Notices(k, gs[k].entries[p..p + n]), Owed(gs[k := Announce(gs[k], p, n)], 0))
  {
    hide Announce, PendingOf, Notices, SkipAnnounced, CountersOk;
    var p := SkipAnnounced(gs[k].entries);
    var g := Announce(gs[k], p, n);
    PhaseAt(gs, k);
    PhaseCounters(gs);
    GroupStep(gs[k], n);
    GroupMoves(gs[k], k, n);
    OwedUpdate(gs, k, g);
    Regroup(Owed(gs, 0), PendingOf(k, gs[k].entries), Owed(gs[k := g], 0),
            Notices(k, gs[k].entries[p..p + n]), PendingOf(k, g.entries), Owed(gs, k + 1));
  }

  lemma {:induction false} OwedEmpty(gs: seq<Group>, k: nat)
    requires forall j | 0 <= j < |gs| :: CountersOk(gs[j])
    ensures Owed(gs, k) == [] <==> forall j | k <= j < |gs| :: gs[j].distReq == 0
    decreases |gs| - k
  {
    if k < |gs| {
      OwedEmpty(gs, k + 1);
      PendingCount(k, gs[k].entries);
    }
  }

  // ---------------------------------------------------------------- the whole phase

  /** The notices of the next message. */
  function Listed(gs: seq<Group>): seq<Notice> {
    match TakeOf(gs)
    case None => []
    case Some(t) => Notices(t.group, Taken(gs))
  }

  function GroupsAfter(gs: seq<Group>, slots: nat): seq<Group>
    decreases slots
  {
    if slots == 0 then gs else GroupsAfter(AfterSm(gs), slots - 1)
  }

  /** What the messages of the next `slots` SCH1 slots list, in the order of sending. */
  function Sent(gs: seq<Group>, slots: nat): seq<Notice>
    decreases slots
  {
    if slots == 0 then [] else
    Listed(gs) + Sent(AfterSm(gs), slots - 1)
  }

  /** Messages needed to announce everybody: 31 nodes to a message, one group to a message. */
  function Needed(gs: seq<Group>): int {
    if gs == [] then 0 else (gs[0].distReq + 30) / 31 + Needed(gs[1..])
  }

  lemma {:induction false} NeededUpdate(gs: seq<Group>, k: nat, g: Group)
    requires k < |gs|
    ensures Needed(gs[k := g]) == Needed(gs) - (gs[k].distReq + 30) / 31 + (g.distReq + 30) / 31
  {
    if k == 0 {
      assert gs[0 := g][1..] == gs[1..];
    } else {
      assert gs[k := g][1..] == gs[1..][k - 1 := g];
      NeededUpdate(gs[1..], k - 1, g);
    }
  }

  lemma {:induction false} NeededZero(gs: seq<Group>)
    requires forall k | 0 <= k < |gs| :: gs[k].distReq >= 0
    ensures Needed(gs) >= 0
    ensures Needed(gs) == 0 <==> forall k | 0 <= k < |gs| :: gs[k].distReq == 0
  {
    if gs != [] { NeededZero(gs[1..]); }
  }

  lemma {:induction false} OneMessageLess(x: nat, n: nat)
    requires x > 0 && n == (if x > 31 then 31 else x)
    ensures (x - n + 30) / 31 == (x + 30) / 31 - 1
  {
  }

  lemma {:induction false} SmUsesOneMessage(gs: seq<Group>)
    requires Phase(gs) && TakeOf(gs).Some?
    ensures Needed(AfterSm(gs)) == Needed(gs) - 1
  {
    var t := TakeOf(gs).value;
    PhaseCounters(gs);
    TakenIs(gs);
    PhaseAt(gs, t.group);
    GroupStep(gs[t.group], t.num);
    NeededUpdate(gs, t.group, Announce(gs[t.group], t.pos, t.num));
    OneMessageLess(gs[t.group].distReq, t.num);
  }

  lemma {:induction false} Regroup3(all: seq<Notice>, now: seq<Notice>, rest: seq<Notice>, later: seq<Notice>, owed: seq<Notice>)
    requires Joins(all, now, rest) && Joins(rest, later, owed)
    ensures Joins(all, now + later, owed)
  {
  }

  lemma {:induction false} NothingTaken(gs: seq<Group>, slots: nat)
    requires Phase(gs) && TakeOf(gs) == None
    ensures Owed(gs, 0) == [] && Needed(gs) == 0
    ensures GroupsAfter(gs, slots) == gs && Sent(gs, slots) == []
    decreases slots
  {
    PhaseCounters(gs);
    SmNeverRunsOff(gs);
    OwedEmpty(gs, 0);
    NothingNeeded(gs);
    if slots > 0 { NothingTaken(gs, slots - 1); }
  }

  /** One slot of the phase and then the rest. */
  lemma {:induction false} PhaseUnfolds(gs: seq<Group>, slots: nat)
    ensures slots == 0 ==> GroupsAfter(gs, slots) == gs && Sent(gs, slots) == []
    ensures slots > 0 ==> GroupsAfter(gs, slots) == GroupsAfter(AfterSm(gs), slots - 1)
    ensures slots > 0 ==> Sent(gs, slots) == Listed(gs) + Sent(AfterSm(gs), slots - 1)
  {
    hide AfterSm, Listed;
  }

  lemma {:induction false} SmMoves(gs: seq<Group>)
    requires Phase(gs)
    ensures Joins(Owed(gs, 0), Listed(gs), Owed(AfterSm(gs), 0))
  {
    if TakeOf(gs).Some? { SmStep(gs); }
  }

  /** Nothing is lost: at every point of the phase the notices sent so far, followed by those still
      owed, are the notices owed at the start. */
  lemma {:induction false} PhaseConserves(gs: seq<Group>, slots: nat)
    requires Phase(gs)
    ensures Owed(gs, 0) == Sent(gs, slots) + Owed(GroupsAfter(gs, slots), 0)
    decreases slots
  {
    hide Phase, Owed, Listed, AfterSm, Sent, GroupsAfter;
    PhaseUnfolds(gs, slots);
    if slots > 0 {
      var gs1 := AfterSm(gs);
      SmKeepsPhase(gs);
      SmMoves(gs);
      PhaseConserves(gs1, slots - 1);
      Regroup3(Owed(gs, 0), Listed(gs), Owed(gs1, 0), Sent(gs1, slots - 1), Owed(GroupsAfter(gs1, slots - 1), 0));
    }
  }

  /** After `slots` messages nothing is owed any more exactly when that many suffice. */
  lemma {:induction false} PhaseCompletes(gs: seq<Group>, slots: nat)
    requires Phase(gs)
    ensures Phase(GroupsAfter(gs, slots)) && |GroupsAfter(gs, slots)| == |gs|
    ensures Owed(GroupsAfter(gs, slots), 0) == [] <==> Needed(gs) <= slots
    decreases slots
  {
    hide Phase, Owed, AfterSm, Sent, GroupsAfter, TakeOf, Needed;
    PhaseUnfolds(gs, slots);
    NothingNeeded(gs);
    if slots > 0 {
      if TakeOf(gs).Some? {
        SmKeepsPhase(gs);
        PhaseCompletes(AfterSm(gs), slots - 1);
        SmUsesOneMessage(gs);
      } else {
        NothingTaken(gs, slots);
      }
    }
  }

  lemma {:induction false} NothingNeeded(gs: seq<Group>)
    requires Phase(gs)
    ensures Needed(gs) >= 0
    ensures Owed(gs, 0) == [] <==> Needed(gs) == 0
  {
    PhaseCounters(gs);
    OwedEmpty(gs, 0);
    NeededZero(gs);
  }

  // ---------------------------------------------------------------- what an end node hears

  /** The schedule an end node derives from a message: the first node starts at the announced slot,
      every other one right behind its predecessor. */
  function Rebuild(group: nat, start: nat, nodes: seq<Wire.SmNode>): seq<Notice>
    decreases |nodes|
  {
    if nodes == [] then []
    else [Notice(group, nodes[0].addr, nodes[0].cls, start, nodes[0].demand)]
         + Rebuild(group, start + nodes[0].demand, nodes[1..])
  }

  /** Every node starts right behind its predecessor. */
  ghost predicate Adjacent(es: seq<Entry>) {
    |es| >= 2 ==> es[1].start == es[0].start + es[0].demand && Adjacent(es[1..])
  }

  lemma {:induction false} RebuildsRun(k: nat, es: seq<Entry>)
    requires Adjacent(es) && es != []
    ensures Rebuild(k, es[0].start, SmNodes(es)) == Notices(k, es)
  {
    if |es| >= 2 {
      RebuildsRun(k, es[1..]);
    } else {
      assert es[1..] == [];
    }
  }

  lemma {:induction false} AdjacentSlice(es: seq<Entry>, p: nat, q: nat)
    requires p <= q <= |es| && forall i | 0 <= i < |es| - 1 :: es[i + 1].start == es[i].start + es[i].demand
    ensures Adjacent(es[p..q])
    decreases q - p
  {
    if q - p >= 2 {
      assert es[p..q][1..] == es[p + 1..q];
      AdjacentSlice(es, p + 1, q);
    }
  }

  /** A group as schedule() leaves it and the phase keeps it: gapless, and with fields that fit. */
  ghost predicate Sound(g: Group) {
    PhaseGroup(g) && SoundPlaces(g.entries, g.tot)
  }

  ghost predicate AllSound(gs: seq<Group>) {
    gs != [] ==> Sound(gs[0]) && AllSound(gs[1..])
  }

  lemma {:induction false} SoundAt(gs: seq<Group>, k: nat)
    requires AllSound(gs) && k < |gs|
    ensures Sound(gs[k])
  {
    if k > 0 { SoundAt(gs[1..], k - 1); }
  }

  lemma {:induction false} SoundUpdate(gs: seq<Group>, k: nat, g: Group)
    requires AllSound(gs) && k < |gs| && Sound(g)
    ensures AllSound(gs[k := g])
  {
    if k == 0 {
      assert gs[0 := g][1..] == gs[1..];
    } else {
      assert gs[k := g][1..] == gs[1..][k - 1 := g];
      SoundUpdate(gs[1..], k - 1, g);
    }
  }

  lemma {:induction false} SoundPhase(gs: seq<Group>)
    requires AllSound(gs)
    ensures Phase(gs)
  {
    if gs != [] { SoundPhase(gs[1..]); }
  }

  /** The parts of Sound that do not speak of countdowns or counters. */
  ghost predicate SoundPlaces(es: seq<Entry>, tot: nat) {
    Gapless(es) && Packed(es, tot) && tot <= 128 && forall e | e in es :: EntryOk(e)
  }

  lemma {:induction false} LoweredOk(e: Entry)
    requires EntryOk(e)
    ensures EntryOk(e.(dist := CountDown(e.dist)))
  {
  }

  lemma {:induction false} LoweredPlaces(es: seq<Entry>, p: nat, n: nat, tot: nat)
    requires SoundPlaces(es, tot)
    ensures SoundPlaces(Lowered(es, p, n), tot)
  {
    hide Lowered, CountDown, EntryOk;
    var r := Lowered(es, p, n);
    assert forall i | 0 <= i < |es| :: r[i].start == es[i].start && r[i].demand == es[i].demand;
    forall e | e in r ensures EntryOk(e) {
      var i :| 0 <= i < |r| && r[i] == e;
      LoweredOk(es[i]);
    }
  }

  lemma {:induction false} AnnounceKeepsSound(g: Group, n: nat)
    requires Sound(g) && n <= Pending(g.entries)
    ensures Sound(Announce(g, SkipAnnounced(g.entries), n))
  {
    var p := SkipAnnounced(g.entries);
    GroupStep(g, n);
    AnnounceLowers(g, p, n);
    LoweredPlaces(g.entries, p, n, g.tot);
  }

  lemma {:induction false} SmKeepsSound(gs: seq<Group>)
    requires AllSound(gs)
    ensures AllSound(AfterSm(gs)) && |AfterSm(gs)| == |gs|
  {
    if TakeOf(gs).Some? {
      SoundPhase(gs);
      PhaseCounters(gs);
      TakenIs(gs);
      var t := TakeOf(gs).value;
      SoundAt(gs, t.group);
      AnnounceKeepsSound(gs[t.group], t.num);
      SoundUpdate(gs, t.group, Announce(gs[t.group], t.pos, t.num));
    }
  }

  lemma {:induction false} SmNodesOk(es: seq<Entry>)
    requires forall e | e in es :: EntryOk(e)
    ensures |SmNodes(es)| == |es|
    ensures forall i | 0 <= i < |es| :: Wire.SmNodeOk(SmNodes(es)[i])
  {
    if es != [] {
      assert EntryOk(es[0]);
      SmNodesOk(es[1..]);
    }
  }

  /** A stretch of a gapless list as the payload of a schedule message. */
  lemma {:induction false} StretchFits(k: nat, es: seq<Entry>, p: nat, n: nat, tot: nat, ts: seq<Entry>)
    requires SoundPlaces(es, tot) && 1 <= n <= Wire.MAX_IN_SM && p + n <= |es| && ts == es[p..p + n]
    ensures es[p].start < U8 && |SmNodes(ts)| == n
    ensures forall i | 0 <= i < n :: Wire.SmNodeOk(SmNodes(ts)[i])
    ensures Rebuild(k, es[p].start, SmNodes(ts)) == Notices(k, ts)
  {
    assert forall e | e in ts :: e in es;
    SmNodesOk(ts);
    AdjacentSlice(es, p, p + n);
    RebuildsRun(k, ts);
  }

  /** What a message takes from a group can be sent: the fields fit, and the start slot and the
      demands determine every listed node's place. */
  lemma {:induction false} TakenFits(gs: seq<Group>)
    requires AllSound(gs) && TakeOf(gs).Some?
    ensures var t := TakeOf(gs).value;
            && t.group < |gs| && t.pos < |gs[t.group].entries|
            && gs[t.group].entries[t.pos].start < U8
            && 1 <= |SmNodes(Taken(gs))| <= Wire.MAX_IN_SM
            && (forall i | 0 <= i < |SmNodes(Taken(gs))| :: Wire.SmNodeOk(SmNodes(Taken(gs))[i]))
            && Rebuild(t.group, gs[t.group].entries[t.pos].start, SmNodes(Taken(gs))) == Notices(t.group, Taken(gs))
  {
    var t := TakeOf(gs).value;
    TakenStretch(gs);
    StretchFits(t.group, gs[t.group].entries, t.pos, t.num, gs[t.group].tot, Taken(gs));
  }

  lemma {:induction false} TakenStretch(gs: seq<Group>)
    requires AllSound(gs) && TakeOf(gs).Some?
    ensures var t := TakeOf(gs).value;
            && t.group < |gs|
            && t.pos + t.num <= |gs[t.group].entries|
            && 1 <= t.num <= Wire.MAX_IN_SM
            && Taken(gs) == gs[t.group].entries[t.pos..t.pos + t.num]
            && SoundPlaces(gs[t.group].entries, gs[t.group].tot)
  {
    SoundPhase(gs);
    PhaseCounters(gs);
    SmNeverRunsOff(gs);
    TakenIs(gs);
    SoundAt(gs, TakeOf(gs).value.group);
  }

  /** Message self-consistency: every schedule message has fields that fit, at most 105 bytes, and
      start slot and demands from which exactly the listed nodes' places are rebuilt. */
  lemma {:induction false} SmIsFaithful(ns: seq<RegNode>, gs: seq<Group>, count: nat, sch2: nat)
    requires AllSound(gs) && |gs| <= 7 && count < 16 && sch2 < 256 && TakeOf(gs).Some?
    ensures var m := SmOf(ns, gs, count, sch2).value;
            && Wire.SmOk(m)
            && 12 + 3 * |m.nodes| <= 105
            && Rebuild(m.group, m.start, m.nodes) == Notices(TakeOf(gs).value.group, Taken(gs))
  {
    hide AllSound, TakeOf, Taken, SmNodes, Rebuild, Notices, Relays, Wire.SmNodeOk;
    TakenFits(gs);
  }

  /** What an end node makes of a payload that is a schedule message. */
  function Understood(b: seq<byte>): seq<Notice> {
    match Wire.ReadSm(b)
    case None => []
    case Some((_, r)) => Rebuild(r.group, r.start, r.nodes)
  }

  /** What the end nodes hear in one SCH1 slot. */
  function HeardOnce(mac: Wire.Mac, ns: seq<RegNode>, gs: seq<Group>, count: nat, sch2: nat): seq<Notice> {
    match SmOf(ns, gs, count, sch2)
    case None => []
    case Some(m) => Understood(Wire.SmBytes(mac, m))
  }

  lemma {:induction false} MessageIsHeard(mac: Wire.Mac, ns: seq<RegNode>, gs: seq<Group>, count: nat, sch2: nat)
    requires AllSound(gs) && |gs| <= 7 && Wire.MacOk(mac) && count < 16 && sch2 < 256
    ensures HeardOnce(mac, ns, gs, count, sch2) == Listed(gs)
  {
    hide AllSound, Taken, Rebuild, Notices, Wire.ReadSm, Wire.SmBytes, Wire.SmOk, Wire.MacOk;
    if TakeOf(gs).Some? {
      SmIsFaithful(ns, gs, count, sch2);
      Wire.SmRoundTrip(mac, SmOf(ns, gs, count, sch2).value);
    }
  }

  /** What an end node that receives the bytes of every message of the phase makes of them. */
  function Heard(mac: Wire.Mac, ns: seq<RegNode>, gs: seq<Group>, count: nat, sch2: nat, slots: nat): seq<Notice>
    decreases slots
  {
    if slots == 0 then [] else
    HeardOnce(mac, ns, gs, count, sch2) + Heard(mac, ns, AfterSm(gs), count + 1, Sch2After(ns, gs, sch2), slots - 1)
  }

  lemma {:induction false} Sch2IsByte(ns: seq<RegNode>, gs: seq<Group>, sch2: nat)
    requires sch2 < 256
    ensures Sch2After(ns, gs, sch2) < 256
  {
  }

  /** The end nodes hear exactly what was sent. */
  lemma {:induction false} HeardIsSent(mac: Wire.Mac, ns: seq<RegNode>, gs: seq<Group>, count: nat, sch2: nat, slots: nat)
    requires AllSound(gs) && |gs| <= 7 && Wire.MacOk(mac) && count + slots <= 16 && sch2 < 256
    ensures Heard(mac, ns, gs, count, sch2, slots) == Sent(gs, slots)
    decreases slots
  {
    hide AllSound, Wire.MacOk, HeardOnce, Listed, AfterSm, Sch2After;
    if slots > 0 {
      MessageIsHeard(mac, ns, gs, count, sch2);
      SmKeepsSound(gs);
      Sch2IsByte(ns, gs, sch2);
      HeardIsSent(mac, ns, AfterSm(gs), count + 1, Sch2After(ns, gs, sch2), slots - 1);
    }
  }

  // ---------------------------------------------------------------- SCH2 slots

  function Sch2Run(ns: seq<RegNode>, gs: seq<Group>, sch2: nat, slots: nat): nat
    decreases slots
  {
    if slots == 0 then sch2 else Sch2Run(ns, AfterSm(gs), Sch2After(ns, gs, sch2), slots - 1)
  }

  /** One slot more. */
  lemma {:induction false} NextSlot(ns: seq<RegNode>, gs: seq<Group>, sch2: nat, n: nat)
    ensures GroupsAfter(gs, n + 1) == AfterSm(GroupsAfter(gs, n))
    ensures Sch2Run(ns, gs, sch2, n + 1) == Sch2After(ns, GroupsAfter(gs, n), Sch2Run(ns, gs, sch2, n))
    decreases n
  {
    hide AfterSm, Sch2After;
    if n > 0 {
      NextSlot(ns, AfterSm(gs), Sch2After(ns, gs, sch2), n - 1);
    }
  }

  /** When nothing is pending after j slots, nothing changes in later ones. */
  lemma {:induction false} NothingMore(gs: seq<Group>, j: nat, n: nat)
    requires j <= n && TakeOf(GroupsAfter(gs, j)).None?
    ensures GroupsAfter(gs, n) == GroupsAfter(gs, j)
    decreases n
  {
    hide TakeOf, GroupsAfter;
    if j < n {
      NothingMore(gs, j, n - 1);
      NextSlot([], gs, 0, n - 1);
    }
  }

  /** How many of the notices are about a node that lists a child. */
  function RelayNotices(ns: seq<RegNode>, ms: seq<Notice>): nat {
    if ms == [] then 0 else (if ListsSomebody(ns, ms[0].addr) then 1 else 0) + RelayNotices(ns, ms[1..])
  }

  lemma {:induction false} RelayNoticesOf(ns: seq<RegNode>, k: nat, es: seq<Entry>)
    requires RegistryOk(ns)
    ensures RelayNotices(ns, Notices(k, es)) == RelaysAmong(ns, es)
  {
    hide RegistryOk, IsRelay, ListsSomebody;
    if es != [] {
      IsRelayIff(ns, es[0].addr);
      RelayNoticesOf(ns, k, es[1..]);
    }
  }

  lemma {:induction false} RelayNoticesAppend(ns: seq<RegNode>, a: seq<Notice>, b: seq<Notice>)
    ensures RelayNotices(ns, a + b) == RelayNotices(ns, a) + RelayNotices(ns, b)
  {
    if a == [] {
      assert a + b == b;
    } else {
      assert (a + b)[1..] == a[1..] + b;
      RelayNoticesAppend(ns, a[1..], b);
    }
  }

  /** The relays that the messages of the next `slots` slots list. */
  function RelaysListed(ns: seq<RegNode>, gs: seq<Group>, slots: nat): nat
    decreases slots
  {
    if slots == 0 then 0 else RelaysAmong(ns, Taken(gs)) + RelaysListed(ns, AfterSm(gs), slots - 1)
  }

  lemma {:induction false} ByteSum(x: nat, y: nat)
    ensures Byte(Byte(x) + y) == Byte(x + y) && (x < U8 ==> Byte(x) == x)
  {
    ModChain(x, 0, y);
  }

  lemma {:induction false} Sch2RunIs(ns: seq<RegNode>, gs: seq<Group>, sch2: nat, slots: nat)
    requires sch2 < U8
    ensures Sch2Run(ns, gs, sch2, slots) == Byte(sch2 + RelaysListed(ns, gs, slots))
    decreases slots
  {
    hide Taken, AfterSm;
    if slots == 0 {
      ByteSum(sch2, 0);
    } else {
      var x, y := sch2 + RelaysAmong(ns, Taken(gs)), RelaysListed(ns, AfterSm(gs), slots - 1);
      Sch2RunIs(ns, AfterSm(gs), Byte(x), slots - 1);
      ByteSum(x, y);
    }
  }

  lemma {:induction false} RelaysTaken(ns: seq<RegNode>, gs: seq<Group>)
    requires RegistryOk(ns)
    ensures RelaysAmong(ns, Taken(gs)) == RelayNotices(ns, Listed(gs))
  {
    hide RegistryOk, IsRelay, ListsSomebody;
    if TakeOf(gs).Some? { RelayNoticesOf(ns, TakeOf(gs).value.group, Taken(gs)); }
  }

  lemma {:induction false} RelaysListedAreSent(ns: seq<RegNode>, gs: seq<Group>, slots: nat)
    requires RegistryOk(ns)
    ensures RelaysListed(ns, gs, slots) == RelayNotices(ns, Sent(gs, slots))
    decreases slots
  {
    hide Taken, AfterSm, Listed, RegistryOk, ListsSomebody, RelaysAmong;
    if slots > 0 {
      RelaysTaken(ns, gs);
      RelaysListedAreSent(ns, AfterSm(gs), slots - 1);
      RelayNoticesAppend(ns, Listed(gs), Sent(AfterSm(gs), slots - 1));
    }
  }

  /** The SCH2 start slot in the message of slot s is that of the phase plus the nodes announced in
      the earlier messages that list a child, in an 8-bit field. */
  lemma {:induction false} Sch2CountsRelays(ns: seq<RegNode>, gs: seq<Group>, sch2: nat, slots: nat)
    requires sch2 < U8 && RegistryOk(ns)
    ensures Sch2Run(ns, gs, sch2, slots) == (sch2 + RelayNotices(ns, Sent(gs, slots))) % U8
  {
    hide Sch2Run, RelaysListed, RelayNotices, Sent, RegistryOk;
    Sch2RunIs(ns, gs, sch2, slots);
    RelaysListedAreSent(ns, gs, slots);
  }

  // ---------------------------------------------------------------- from schedule() into the phase

  /** All countdowns of the groups stand at d. */
  ghost predicate AllAt(gs: seq<Group>, d: nat) {
    forall k | 0 <= k < |gs| :: forall e | e in gs[k].entries :: e.dist == d
  }

  lemma {:induction false} ScheduleAllAt(ns: seq<RegNode>, gs: seq<Group>, i: nat, d: nat)
    requires Consistent(ns, gs) && AllAt(gs, d) && 0 < d <= DIST_DC
    ensures AllAt(ScheduleFrom(ns, gs, i, d).1, d)
    decreases |ns| - i
  {
    if i < |ns| {
      var (r, gs') := RoundAt(ns, gs, i, d);
      ScheduleRound(ns, gs, i, d);
      RoundKeeps(ns, gs, i, d);
      RoundAllAt(ns, gs, i, d);
      ScheduleAllAt(r, gs', i + 1, d);
    }
  }

  lemma {:induction false} RoundAllAt(ns: seq<RegNode>, gs: seq<Group>, i: nat, d: nat)
    requires Consistent(ns, gs) && AllAt(gs, d) && i < |ns|
    ensures AllAt(RoundAt(ns, gs, i, d).1, d)
  {
    if Wants(ns[i]) {
      var e := Job(ns[i], d);
      var gs1 := RemoveAll(gs, e.addr);
      var k := LowestLoad(gs1);
      RemoveAllKeeps(ns, gs, e.addr);
      InsertMembers(gs1[k].entries, e.(start := Assign(gs1[k].entries, gs1[k].tot, e.demand)));
    }
  }

  lemma {:induction false} EverybodyOwed(gs: seq<Group>, k: nat)
    requires AllAt(gs, 1) && k <= |gs|
    ensures Owed(gs, k) == Everybody(gs, k)
    decreases |gs| - k
  {
    if k < |gs| {
      var es := gs[k].entries;
      EverybodyOwed(gs, k + 1);
      forall i | 0 <= i < |es| ensures es[i].dist == 1 { assert es[i] in es; }
      SkipIs(es, 0);
      PendingIsSuffix(k, es);
      assert es[0..] == es;
    }
  }

  lemma {:induction false} SoundFromLevel(gs: seq<Group>, tot: nat)
    requires Balance.Level(gs, tot) && tot <= 128 && AllAt(gs, 1)
    requires forall k | 0 <= k < |gs| :: UniqueAddrs(gs[k].entries) && forall e | e in gs[k].entries :: EntryOk(e)
    ensures AllSound(gs)
  {
    if gs != [] {
      assert forall k | 0 <= k < |gs[1..]| :: gs[1..][k] == gs[k + 1];
      SoundFromLevel(gs[1..], tot);
      var es := gs[0].entries;
      forall i | 0 <= i < |es| ensures es[i].dist == 1 { assert es[i] in es; }
      GaplessIsPacked(es, tot);
    }
  }

  /** The groups at the start of the distribution phase, from any consistent state whose one-hop
      demands fit into a group. */
  lemma {:induction false} DistributionStarts(ns: seq<RegNode>, gs: seq<Group>, tot: nat)
    requires Consistent(ns, gs) && tot <= 128 && forall k | 0 <= k < |gs| :: gs[k].tot == tot
    requires Balance.DemandsFit(ns, tot)
    ensures var gs0 := Distribute(ns, gs).1;
            && |gs0| == |gs| && AllSound(gs0) && GroupsUnique(gs0) && Owed(gs0, 0) == Everybody(gs0, 0)
  {
    var gs0 := Distribute(ns, gs).1;
    Balance.GreedyDistribution(ns, gs, tot, tot);
    DistributeKeeps(ns, gs);
    MarksKeepRegistry(ClearFlags(ns, false), ns);
    ScheduleAllAt(ClearFlags(ns, false), ClearAll(gs), 0, DIST_SD);
    ScheduleKeepsSize(ClearFlags(ns, false), ClearAll(gs), 0, DIST_SD);
    SoundFromLevel(gs0, tot);
    EverybodyOwed(gs0, 0);
  }

  lemma {:induction false} ScheduleKeepsSize(ns: seq<RegNode>, gs: seq<Group>, i: nat, d: nat)
    requires gs != []
    ensures |ScheduleFrom(ns, gs, i, d).1| == |gs|
    decreases |ns| - i
  {
    if i < |ns| {
      ScheduleRound(ns, gs, i, d);
      ScheduleKeepsSize(RoundAt(ns, gs, i, d).0, RoundAt(ns, gs, i, d).1, i + 1, d);
    }
  }

  /** The distribution phase: from the bytes of its 15 messages the end nodes rebuild the new
      schedule in order, each node's place once; what they have not heard is still owed; and they
      have heard everything exactly when at most 15 messages of 31 nodes were needed. */
  lemma {:induction false} DistributionPhase(mac: Wire.Mac, ns: seq<RegNode>, gs: seq<Group>, tot: nat)
    requires Consistent(ns, gs) && |gs| <= 7 && tot <= 128 && forall k | 0 <= k < |gs| :: gs[k].tot == tot
    requires Balance.DemandsFit(ns, tot) && Wire.MacOk(mac)
    ensures var (r, gs0, _) := Distribute(ns, gs);
            var heard, left := Heard(mac, r, gs0, 1, 1, 15), Owed(GroupsAfter(gs0, 15), 0);
            && Everybody(gs0, 0) == heard + left
            && (left == [] <==> Needed(gs0) <= 15)
            && GroupsUnique(gs0)
  {
    var r, gs0 := Distribute(ns, gs).0, Distribute(ns, gs).1;
    DistributionStarts(ns, gs, tot);
    SoundPhase(gs0);
    PhaseConserves(gs0, 15);
    PhaseCompletes(gs0, 15);
    HeardIsSent(mac, r, gs0, 1, 1, 15);
  }
}
