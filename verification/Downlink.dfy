/**
  * prepareDownlinkMsgPayload of rtlora_mac.c: the three downlink messages, written byte by byte into
  * the payload of a message while the countdowns go down.
  */
module Downlink {
  import opened Bytes
  import opened Wrappers
  import opened SlotSpec
  import opened RegistrySpec
  import opened ServerSpec
  import opened Distribution
  import opened Collection
  import opened SlotList
  import opened NodeList
  import opened Schedules
  import opened Server
  import Runs
  import W = Wire

  /** The payload of a message and its length, an 8-bit number. */
  class Payload {
    const data: array<byte>
    var len: nat

    ghost predicate Valid()
      reads this, data
    {
      data.Length == W.PAYLOAD_SIZE && len < data.Length
    }

    ghost function Bytes(): (b: seq<byte>)
      requires Valid()
      reads this, data
      ensures |b| == len
    {
      data[..len]
    }

    constructor ()
      ensures Valid() && fresh(data) && Bytes() == []
    {
      data, len := new byte[W.PAYLOAD_SIZE], 0;
    }

    /** Starts over. */
    method Reset()
      requires Valid()
      modifies `len
      ensures Valid() && Bytes() == []
    {
      len := 0;
    }

    /** Copies bytes to the end of the payload. */
    method Put(bs: seq<byte>)
      requires Valid() && len + |bs| < W.PAYLOAD_SIZE
      modifies `len, data
      ensures Valid() && Bytes() == old(Bytes()) + bs
    {
      var i := 0;
      while i < |bs|
        invariant i <= |bs| && len == old(len)
        invariant data[..len + i] == old(Bytes()) + bs[..i]
      {
        data[len + i] := bs[i];
        i := i + 1;
      }
      len := len + |bs|;
      assert bs[..i] == bs;
    }

    /** Message type, source, destination and MAC parameters. */
    method PutHeader(kind: nat, mac: W.Mac)
      requires Valid() && Bytes() == []
      modifies `len, data
      ensures Valid() && Bytes() == W.Header(kind, mac)
    {
      Put([W.Bits44(0, kind)]);
      Put(W.Le16(W.SERVER_ADDR));
      Put(W.Le16(W.BROADCAST_ADDR));
      Put(W.MacBytes(mac));
      assert [] + [W.Bits44(0, kind)] == [W.Bits44(0, kind)];
    }
  }

  // ---------------------------------------------------------------- schedule messages

  /** The first group that asks for announcements. */
  method FirstGroup(s: ScheduleArray) returns (k: nat)
    requires s.Valid()
    ensures k == FirstPending(s.Groups())
  {
    ghost var gs := s.Groups();
    k := 0;
    assert gs[0..] == gs;
    while k < |s.lists| && s.lists[k].nboDistReq <= 0
      invariant k <= |s.lists|
      invariant k + FirstPending(gs[k..]) == FirstPending(gs)
    {
      assert gs[k..][1..] == gs[k + 1..];
      k := k + 1;
    }
    assert k < |gs| ==> gs[k..][0] == gs[k];
  }

  /** The first node of a group with a positive countdown. */
  method FirstNode(l: SchList) returns (cur: SchNode?, ghost pos: nat)
    requires l.Valid()
    ensures pos == SkipAnnounced(l.entries)
    ensures cur == if pos < |l.spine| then l.spine[pos] else null
  {
    ghost var es := l.entries;
    cur, pos := l.head, 0;
    assert es[0..] == es;
    while cur != null && cur.nboSchDist == 0
      invariant pos <= |l.spine| && cur == (if pos < |l.spine| then l.spine[pos] else null)
      invariant pos + SkipAnnounced(es[pos..]) == SkipAnnounced(es)
      decreases |l.spine| - pos
    {
      assert es[pos..][1..] == es[pos + 1..];
      cur := cur.next;
      pos := pos + 1;
    }
    assert pos < |es| ==> es[pos..][0] == es[pos];
  }

  /** The bytes of one listed node. */
  function NodeBytes(e: Entry): (b: seq<byte>)
    ensures |b| == 3
  {
    W.AddrBytes(e.addr, e.cls) + [W.Low(e.demand)]
  }

  lemma {:induction false} SmNodesAppend(a: seq<Entry>, e: Entry)
    ensures W.SmNodeBytes(SmNodes(a + [e])) == W.SmNodeBytes(SmNodes(a)) + NodeBytes(e)
  {
    if a == [] {
      assert a + [e] == [e];
      assert SmNodes([e][1..]) == [];
      assert NodeBytes(e) + [] == NodeBytes(e) && [] + NodeBytes(e) == NodeBytes(e);
    } else {
      assert (a + [e])[1..] == a[1..] + [e];
      SmNodesAppend(a[1..], e);
      Assoc(NodeBytes(a[0]), W.SmNodeBytes(SmNodes(a[1..])), NodeBytes(e));
    }
  }

  lemma {:induction false} RelaysAppend(ns: seq<RegNode>, a: seq<Entry>, e: Entry)
    ensures RelaysAmong(ns, a + [e]) == RelaysAmong(ns, a) + (if IsRelay(ns, e.addr) then 1 else 0)
  {
    if a == [] {
      assert a + [e] == [e];
    } else {
      assert (a + [e])[1..] == a[1..] + [e];
      RelaysAppend(ns, a[1..], e);
    }
  }

  lemma {:induction false} LoweredNext(es: seq<Entry>, p: nat, j: nat)
    requires p + j < |es|
    ensures var r := Lowered(es, p, j);
            && r[p + j] == es[p + j]
            && r[p + j := es[p + j].(dist := CountDown(es[p + j].dist))] == Lowered(es, p, j + 1)
  {
  }

  /** The bytes of one listed node, and an SCH2 slot if it is a relay. */
  method PutNode(nodes: MngtNodeList, p: Payload, cur: SchNode, sch2: nat) returns (sch2': nat)
    requires nodes.Valid() && p.Valid() && p.len + 3 < W.PAYLOAD_SIZE
    modifies p`len, p.data
    ensures nodes.Valid() && p.Valid()
    ensures p.Bytes() == old(p.Bytes()) + NodeBytes(cur.Value())
    ensures sch2' == Byte(sch2 + if IsRelay(nodes.contents, cur.addr) then 1 else 0)
  {
    hide MngtNodeList.Valid;
    var relay := nodes.IsRelayNode(cur.addr);
    p.Put(W.AddrBytes(cur.addr, cur.cls) + [W.Low(cur.slotDemand)]);
    sch2' := Byte(sch2 + if relay then 1 else 0);
  }

  /** One step of the countdown of a node. */
  method LowerNode(s: ScheduleArray, k: nat, cur: SchNode, ghost i: nat, ghost g: Group)
    requires s.Valid() && k < |s.lists| && g == s.lists[k].AsGroup()
    requires i < |s.lists[k].spine| && cur == s.lists[k].spine[i]
    modifies s.lists[k], s.lists[k].Repr
    ensures s.Valid() && s.lists[k].spine == old(s.lists[k].spine) && s.lists[k].Repr == old(s.lists[k].Repr)
    ensures i < |g.entries|
    ensures s.Groups() == old(s.Groups())[k := SetDist(g, g.entries[i].addr, CountDown(g.entries[i].dist))]
  {
    s.lists[k].At(i);
    hide ScheduleArray.Valid, SchList.Valid;
    var d := cur.nboSchDist % 256;
    if d != 0 {
      d := d - 1;
    }
    s.SetNboSchDist(k, cur.addr, d);
  }

  /** One listed node: its bytes, a step of its countdown, and an SCH2 slot if it is a relay; and
      the way to the next node. */
  method ListNode(nodes: MngtNodeList, s: ScheduleArray, p: Payload, k: nat, cur: SchNode, sch2: nat,
                  ghost i: nat, ghost g: Group) returns (sch2': nat, next: SchNode?)
    requires nodes.Valid() && s.Valid() && p.Valid() && p.len + 3 < W.PAYLOAD_SIZE
    requires k < |s.lists| && g == s.lists[k].AsGroup()
    requires i < |s.lists[k].spine| && cur == s.lists[k].spine[i]
    modifies p`len, p.data, s.lists[k], s.lists[k].Repr
    ensures nodes.Valid() && s.Valid() && p.Valid()
    ensures s.lists[k].spine == old(s.lists[k].spine) && s.lists[k].Repr == old(s.lists[k].Repr)
    ensures i < |g.entries|
    ensures p.Bytes() == old(p.Bytes()) + NodeBytes(g.entries[i])
    ensures s.Groups() == old(s.Groups())[k := SetDist(g, g.entries[i].addr, CountDown(g.entries[i].dist))]
    ensures sch2' == Byte(sch2 + if IsRelay(nodes.contents, g.entries[i].addr) then 1 else 0)
    ensures next == if i + 1 < |s.lists[k].spine| then s.lists[k].spine[i + 1] else null
  {
    hide MngtNodeList.Valid, ScheduleArray.Valid, SchList.Valid;
    s.At(k);
    s.lists[k].At(i);
    sch2' := PutNode(nodes, p, cur, sch2);
    LowerNode(s, k, cur, i, g);
    s.At(k);
    s.lists[k].At(i);
    next := cur.next;
  }

  /** The state of a message that lists j nodes of group g0 from position pos on. */
  ghost predicate Listing(g: Group, bytes: seq<byte>, sch2: nat, ns: seq<RegNode>, g0: Group, start: seq<byte>,
                          sch2At: nat, pos: nat, j: nat)
    requires pos + j <= |g0.entries|
  {
    var ts := g0.entries[pos..pos + j];
    && g == g0.(entries := Lowered(g0.entries, pos, j), distReq := g.distReq)
    && CountersOk(g) && UniqueAddrs(g.entries)
    && bytes == start + W.SmNodeBytes(SmNodes(ts))
    && sch2 == Byte(sch2At + RelaysAmong(ns, ts))
  }

  lemma {:induction false} ListingStarts(ns: seq<RegNode>, g0: Group, start: seq<byte>, sch2At: nat, pos: nat)
    requires pos <= |g0.entries| && CountersOk(g0) && UniqueAddrs(g0.entries)
    ensures Listing(g0, start, Byte(sch2At), ns, g0, start, sch2At, pos, 0)
  {
    assert Lowered(g0.entries, pos, 0) == g0.entries;
    assert g0.entries[pos..pos] == [];
  }

  lemma {:induction false} ListingStep(g: Group, bytes: seq<byte>, sch2: nat, ns: seq<RegNode>, g0: Group,
                                       start: seq<byte>, sch2At: nat, pos: nat, j: nat)
    requires pos + j < |g0.entries| && Listing(g, bytes, sch2, ns, g0, start, sch2At, pos, j)
    ensures pos + j < |g.entries|
    ensures var e := g.entries[pos + j];
            Listing(SetDist(g, e.addr, CountDown(e.dist)), bytes + NodeBytes(e),
                    Byte(sch2 + if IsRelay(ns, e.addr) then 1 else 0), ns, g0, start, sch2At, pos, j + 1)
  {
    hide CountersOk, UniqueAddrs, SetDist, Lowered, SmNodes, W.SmNodeBytes, RelaysAmong, Byte, NodeBytes;
    var es := g0.entries;
    var ts, e := es[pos..pos + j], es[pos + j];
    LoweredNext(es, pos, j);
    LowerOne(g, pos + j);
    SmNodesAppend(ts, e);
    RelaysAppend(ns, ts, e);
    assert ts + [e] == es[pos..pos + j + 1];
    Assoc(start, W.SmNodeBytes(SmNodes(ts)), NodeBytes(e));
    ByteSum(sch2At + RelaysAmong(ns, ts), if IsRelay(ns, e.addr) then 1 else 0);
  }

  /** The counters of a group follow from its list. */
  lemma {:induction false} CountersFollow(g: Group, h: Group)
    requires CountersOk(g) && CountersOk(h) && g == h.(distReq := g.distReq)
    ensures g == h
  {
  }

  lemma {:induction false} ListingEnds(g: Group, bytes: seq<byte>, sch2: nat, ns: seq<RegNode>, g0: Group,
                                       start: seq<byte>, sch2At: nat, pos: nat, num: nat)
    requires pos + num <= |g0.entries| && CountersOk(g0) && UniqueAddrs(g0.entries)
    requires Listing(g, bytes, sch2, ns, g0, start, sch2At, pos, num)
    ensures g == Announce(g0, pos, num)
    ensures bytes == start + W.SmNodeBytes(SmNodes(g0.entries[pos..pos + num]))
    ensures sch2 == Byte(sch2At + RelaysAmong(ns, g0.entries[pos..pos + num]))
  {
    hide Announce, Lowered, CountersOk, UniqueAddrs, SmNodes, RelaysAmong, Byte, W.SmNodeBytes;
    AnnounceLowers(g0, pos, num);
    CountersFollow(g, Announce(g0, pos, num));
  }

  /** The nodes of a schedule message, from the node at position pos on. */
  method ListNodes(nodes: MngtNodeList, s: ScheduleArray, p: Payload, k: nat, first: SchNode, num: nat, sch2: nat,
                   ghost pos: nat, ghost gs: seq<Group>) returns (sch2': nat)
    requires nodes.Valid() && s.Valid() && p.Valid() && p.len + 3 * num < W.PAYLOAD_SIZE
    requires k < |s.lists| && gs == s.Groups() && UniqueAddrs(gs[k].entries) && CountersOk(gs[k])
    requires 1 <= num && pos + num <= |s.lists[k].spine| == |gs[k].entries| && first == s.lists[k].spine[pos]
    modifies p`len, p.data, s.lists[k], s.lists[k].Repr
    ensures nodes.Valid() && s.Valid() && p.Valid()
    ensures s.Groups() == gs[k := s.Groups()[k]]
    ensures Listing(s.Groups()[k], p.Bytes(), sch2', nodes.contents, gs[k], old(p.Bytes()), sch2, pos, num)
  {
    hide MngtNodeList.Valid, ScheduleArray.Valid, SchList.Valid, Payload.Valid, Listing, CountersOk, UniqueAddrs;
    ghost var ns, start, spine := nodes.contents, p.Bytes(), s.lists[k].spine;
    var cur: SchNode? := first;
    var j := 0;
    sch2' := Byte(sch2);
    ListingStarts(ns, gs[k], start, sch2, pos);
    while j < num
      invariant j <= num && nodes.Valid() && s.Valid() && p.Valid()
      invariant s.lists[k].spine == spine && s.lists[k].Repr == old(s.lists[k].Repr)
      invariant cur == if pos + j < |spine| then spine[pos + j] else null
      invariant s.Groups() == gs[k := s.Groups()[k]] && p.len == |start| + 3 * j
      invariant Listing(s.Groups()[k], p.Bytes(), sch2', ns, gs[k], start, sch2, pos, j)
    {
      ListingStep(s.Groups()[k], p.Bytes(), sch2', ns, gs[k], start, sch2, pos, j);
      sch2', cur := ListNode(nodes, s, p, k, cur, sch2', pos + j, s.Groups()[k]);
      j := j + 1;
    }
  }

  /** The bytes of a schedule message in front of the group. */
  method PutSmControl(p: Payload, mac: W.Mac, count: nat, sch2: nat, relays: nat)
    requires p.Valid()
    modifies p`len, p.data
    ensures p.Valid()
    ensures p.Bytes() == W.Header(W.MSG_SM, mac) + [W.Bits44(count, W.SCH1_SLOTS), W.Low(sch2), W.Low(relays)]
  {
    hide W.Header;
    p.Reset();
    p.PutHeader(W.MSG_SM, mac);
    p.Put([W.Bits44(count, W.SCH1_SLOTS)]);
    p.Put([W.Low(sch2)]);
    p.Put([W.Low(relays)]);
  }

  /** The bytes of the group in a schedule message, behind `start`. */
  ghost predicate GroupWritten(bytes: seq<byte>, start: seq<byte>, gs: seq<Group>, t: Take) {
    && t.group < |gs| && t.pos < |gs[t.group].entries|
    && bytes == start + [W.Bits35(t.group, t.num)] + [W.Low(gs[t.group].entries[t.pos].start)]
                + W.SmNodeBytes(SmNodes(Taken(gs)))
  }

  /** The part of a schedule message that belongs to group k, the first one that asks for it. */
  method PutSmGroup(nodes: MngtNodeList, s: ScheduleArray, p: Payload, k: nat, sch2: nat,
                    ghost ns: seq<RegNode>, ghost gs: seq<Group>) returns (done: bool, sch2': nat)
    requires nodes.Valid() && s.Valid() && p.Valid() && ns == nodes.contents && gs == s.Groups()
    requires Consistent(ns, gs) && k == FirstPending(gs) < |gs| && p.len < 32
    modifies p`len, p.data, s.lists, s.Repr
    ensures nodes.Valid() && s.Valid() && p.Valid()
    ensures done && TakeOf(gs).Some? && s.Groups() == AfterSm(gs) && sch2' == Sch2After(ns, gs, sch2)
    ensures GroupWritten(p.Bytes(), old(p.Bytes()), gs, TakeOf(gs).value)
  {
    hide Consistent, MngtNodeList.Valid, SchList.Valid, ScheduleArray.Valid, Payload.Valid,
         ScheduleArray.Groups, AfterSm, Sch2After, TakeOf, Taken, GroupWritten, Listing, CountersOk, UniqueAddrs,
         FirstPending, SkipAnnounced, W.Bits35, W.Low;
    ghost var start := p.Bytes();
    done, sch2' := false, sch2;
    s.At(k);
    s.lists[k].AtHead();
    var num := s.lists[k].nboDistReq;
    if num > W.MAX_IN_SM {
      num := W.MAX_IN_SM;
    }
    p.Put([W.Bits35(k, num)]);
    var first, pos := FirstNode(s.lists[k]);
    TakeIs(ns, gs, k, pos);
    if first != null {
      s.lists[k].At(pos);
      p.Put([W.Low(first.startLSI)]);
      ghost var head := p.Bytes();
      sch2' := ListNodes(nodes, s, p, k, first, num, sch2, pos, gs);
      GroupDone(s.Groups(), p.Bytes(), sch2', ns, gs, start, head, sch2, Take(k, pos, num));
      done := true;
    }
  }

  lemma {:induction false} GroupDone(now: seq<Group>, bytes: seq<byte>, sch2': nat, ns: seq<RegNode>, gs: seq<Group>,
                                     start: seq<byte>, head: seq<byte>, sch2: nat, t: Take)
    requires Consistent(ns, gs) && t.group < |gs| && TakeOf(gs) == Some(t) && t.pos + t.num <= |gs[t.group].entries| && t.num > 0
    requires |now| == |gs| && now == gs[t.group := now[t.group]]
    requires head == start + [W.Bits35(t.group, t.num)] + [W.Low(gs[t.group].entries[t.pos].start)]
    requires Listing(now[t.group], bytes, sch2', ns, gs[t.group], head, sch2, t.pos, t.num)
    ensures now == AfterSm(gs) && sch2' == Sch2After(ns, gs, sch2)
    ensures GroupWritten(bytes, start, gs, t)
  {
    hide Consistent, Listing, SmNodes, RelaysAmong, W.SmNodeBytes, W.Bits35, W.Low, Announce, TakeOf, Byte;
    ConsistentAt(ns, gs, t.group);
    ListingEnds(now[t.group], bytes, sch2', ns, gs[t.group], head, sch2, t.pos, t.num);
    TakenSlice(gs, t);
  }

  lemma {:induction false} ConsistentAt(ns: seq<RegNode>, gs: seq<Group>, k: nat)
    requires Consistent(ns, gs) && k < |gs|
    ensures CountersOk(gs[k]) && UniqueAddrs(gs[k].entries) && GroupBacked(gs[k], ns)
  {
  }

  lemma {:induction false} TakenSlice(gs: seq<Group>, t: Take)
    requires TakeOf(gs) == Some(t) && t.group < |gs| && t.pos + t.num <= |gs[t.group].entries|
    ensures Taken(gs) == gs[t.group].entries[t.pos..t.pos + t.num]
  {
  }

  lemma {:induction false} SmBytesAre(mac: W.Mac, ns: seq<RegNode>, gs: seq<Group>, count: nat, sch2: nat,
                                      control: seq<byte>, bytes: seq<byte>)
    requires TakeOf(gs).Some? && |Taken(gs)| == TakeOf(gs).value.num
    requires control == W.Header(W.MSG_SM, mac) + [W.Bits44(count, W.SCH1_SLOTS), W.Low(sch2), W.Low(Relays(ns))]
    requires GroupWritten(bytes, control, gs, TakeOf(gs).value)
    ensures SmOf(ns, gs, count, sch2).Some? && bytes == W.SmBytes(mac, SmOf(ns, gs, count, sch2).value)
  {
    hide W.Header, W.Low, W.Bits44, W.Bits35, TakeOf, Taken, SmNodes, W.SmNodeBytes;
    var t := TakeOf(gs).value;
    LowOfLow(Relays(ns));
    LowOfLow(gs[t.group].entries[t.pos].start);
    SmNodesLength(Taken(gs));
  }

  /** The SM case of prepareDownlinkMsgPayload.  The payload stays empty when there is nothing to
      announce; the SCH2 start slot moves on by the relays listed. */
  method PrepareSm(nodes: MngtNodeList, s: ScheduleArray, p: Payload, mac: W.Mac, count: nat, sch2: nat,
                   ghost ns: seq<RegNode>, ghost gs: seq<Group>) returns (sch2': nat)
    requires nodes.Valid() && s.Valid() && p.Valid() && ns == nodes.contents && gs == s.Groups()
    requires Consistent(ns, gs) && sch2 < U8
    modifies p`len, p.data, s.lists, s.Repr
    ensures nodes.Valid() && s.Valid() && p.Valid()
    ensures s.Groups() == AfterSm(gs)
    ensures match SmOf(ns, gs, count, sch2)
            case None => p.Bytes() == []
            case Some(m) => p.Bytes() == W.SmBytes(mac, m)
    ensures sch2' == Sch2After(ns, gs, sch2)
  {
    hide Consistent, MngtNodeList.Valid, SchList.Valid, ScheduleArray.Valid, W.SmBytes, W.Header, GroupWritten,
         Payload.Valid, ScheduleArray.Groups, TakeOf, SmOf, AfterSm, Sch2After, Taken, Relays, FirstPending, W.Low, W.Bits44;
    var relays := nodes.GetNboRelays();
    LowOfLow(Relays(ns));
    PutSmControl(p, mac, count, sch2, relays);
    sch2' := sch2;
    var done := false;
    var k := FirstGroup(s);
    NothingAsked(ns, gs, count, sch2);
    if k < |s.lists| {
      ghost var control := p.Bytes();
      done, sch2' := PutSmGroup(nodes, s, p, k, sch2, ns, gs);
      TakenCount(ns, gs);
      SmBytesAre(mac, ns, gs, count, sch2, control, p.Bytes());
    }
    if !done {
      p.Reset();
    }
  }

  lemma {:induction false} NothingAsked(ns: seq<RegNode>, gs: seq<Group>, count: nat, sch2: nat)
    requires sch2 < U8
    ensures FirstPending(gs) == |gs| ==>
              SmOf(ns, gs, count, sch2) == None && AfterSm(gs) == gs && Sch2After(ns, gs, sch2) == sch2
  {
  }

  lemma {:induction false} TakenCount(ns: seq<RegNode>, gs: seq<Group>)
    requires Consistent(ns, gs) && TakeOf(gs).Some?
    ensures |Taken(gs)| == TakeOf(gs).value.num
  {
    SmNeverRunsOff(gs);
  }

  /** The first pending node of a group that owes announcements, and as many nodes as are asked for. */
  lemma {:induction false} InsideGroup(g: Group, pos: nat)
    requires CountersOk(g) && g.distReq > 0 && pos == SkipAnnounced(g.entries)
    ensures pos < |g.entries| && pos + g.distReq <= |g.entries|
  {
    hide SumDemand;
    PendingAtMost(g.entries);
    PendingBound(g.entries);
  }

  /** What the two searches found is what the message takes. */
  lemma {:induction false} TakeIs(ns: seq<RegNode>, gs: seq<Group>, k: nat, pos: nat)
    requires Consistent(ns, gs) && k < |gs| && k == FirstPending(gs) && pos == SkipAnnounced(gs[k].entries)
    ensures var num := if gs[k].distReq > W.MAX_IN_SM then W.MAX_IN_SM else gs[k].distReq;
            && 1 <= num && pos + num <= |gs[k].entries|
            && pos < |gs[k].entries|
            && TakeOf(gs) == Some(Take(k, pos, num))
            && Taken(gs) == gs[k].entries[pos..pos + num]
            && UniqueAddrs(gs[k].entries) && CountersOk(gs[k])
  {
    hide Consistent, CountersOk, UniqueAddrs, GroupBacked, FirstPending, SkipAnnounced;
    ConsistentAt(ns, gs, k);
    InsideGroup(gs[k], pos);
  }

  lemma {:induction false} SmNodesLength(es: seq<Entry>)
    ensures |SmNodes(es)| == |es|
  {
    if es != [] { SmNodesLength(es[1..]); }
  }

  // ---------------------------------------------------------------- command messages

  lemma {:induction false} LastsAppend(gs: seq<Group>, g: Group)
    ensures W.LastBytes(LastsOf(gs + [g])) == W.LastBytes(LastsOf(gs)) + [W.Low(LastAssigned(g.entries))]
  {
    if gs == [] {
      assert gs + [g] == [g];
      assert [g][1..] == [];
      LowOfLow(LastAssigned(g.entries));
    } else {
      assert (gs + [g])[1..] == gs[1..] + [g];
      LastsAppend(gs[1..], g);
      Assoc([W.Low(LastAssigned(gs[0].entries) % U8)], W.LastBytes(LastsOf(gs[1..])), [W.Low(LastAssigned(g.entries))]);
    }
  }

  /** The last assigned slot of every group. */
  method PutLasts(s: ScheduleArray, p: Payload, ghost gs: seq<Group>)
    requires s.Valid() && p.Valid() && gs == s.Groups() && p.len + |s.lists| < W.PAYLOAD_SIZE
    modifies p`len, p.data
    ensures s.Valid() && p.Valid() && s.Groups() == gs
    ensures p.Bytes() == old(p.Bytes()) + W.LastBytes(LastsOf(gs)) && p.len == old(p.len) + |s.lists|
  {
    hide ScheduleArray.Valid, SchList.Valid, LastAssigned, W.LastBytes;
    ghost var start := p.Bytes();
    var i := 0;
    NoLasts();
    while i < |s.lists|
      invariant i <= |s.lists| && s.Valid() && p.Valid() && s.Groups() == gs && p.len == |start| + i
      invariant p.Bytes() == start + W.LastBytes(LastsOf(gs[..i]))
    {
      s.At(i);
      LastsAppend(gs[..i], gs[i]);
      assert gs[..i] + [gs[i]] == gs[..i + 1];
      Assoc(start, W.LastBytes(LastsOf(gs[..i])), [W.Low(LastAssigned(gs[i].entries))]);
      var lsi := s.lists[i].GetLastAsgLsi();
      p.Put([W.Low(lsi)]);
      i := i + 1;
    }
    assert gs[..i] == gs;
  }

  lemma {:induction false} NoLasts()
    ensures W.LastBytes(LastsOf([])) == []
  {
  }

  /** The number of items of the message. */
  method CountItems(s: ScheduleArray) returns (q: int)
    requires s.Valid()
    ensures q == Quota(s.Groups(), 0)
  {
    ghost var gs := s.Groups();
    q := 0;
    var i := 0;
    assert gs[0..] == gs;
    while i < |s.lists|
      invariant i <= |s.lists| && Quota(gs[i..], q) == Quota(gs, 0)
    {
      assert gs[i..][1..] == gs[i + 1..] && gs[i..][0] == gs[i];
      if q + s.lists[i].nboDistReq > W.MAX_IN_USI {
        return W.MAX_IN_USI;
      }
      q := q + s.lists[i].nboDistReq;
      i := i + 1;
    }
  }

  /** The occupied slots of a child table. */
  method PutKids(p: Payload, kids: Children)
    requires p.Valid() && p.len + 4 < W.PAYLOAD_SIZE
    modifies p`len, p.data
    ensures p.Valid() && p.len <= old(p.len) + 4
    ensures p.Bytes() == old(p.Bytes()) + W.KidBytes(KidsOf(kids))
  {
    ghost var start := p.Bytes();
    var i := 0;
    assert kids[0..] == kids;
    while i < MAX_CHILDREN
      invariant i <= MAX_CHILDREN && p.Valid() && p.len <= |start| + 2 * i
      invariant p.Bytes() + W.KidBytes(KidsOf(kids[i..])) == start + W.KidBytes(KidsOf(kids))
    {
      assert kids[i..][1..] == kids[i + 1..] && kids[i..][0] == kids[i];
      if kids[i].addr != 0 {
        KidFirst(W.Kid(kids[i].addr, kids[i].cls), KidsOf(kids[i + 1..]));
        Assoc(p.Bytes(), W.AddrBytes(kids[i].addr, kids[i].cls), W.KidBytes(KidsOf(kids[i + 1..])));
        p.Put(W.AddrBytes(kids[i].addr, kids[i].cls));
      }
      i := i + 1;
    }
    assert p.Bytes() + [] == p.Bytes();
  }

  lemma {:induction false} KidFirst(k: W.Kid, ks: seq<W.Kid>)
    ensures W.KidBytes([k] + ks) == W.AddrBytes(k.addr, k.cls) + W.KidBytes(ks)
  {
    assert ([k] + ks)[1..] == ks;
  }

  /** One item: control byte, start slot, the node and its children. */
  method PutItem(nodes: MngtNodeList, p: Payload, k: nat, cur: SchNode, ghost ns: seq<RegNode>)
    requires nodes.Valid() && p.Valid() && p.len + 8 < W.PAYLOAD_SIZE
    requires ns == nodes.contents && Lookup(ns, cur.addr).Some?
    modifies p`len, p.data
    ensures nodes.Valid() && p.Valid() && p.len <= old(p.len) + 8
    ensures p.Bytes() == old(p.Bytes()) + BytesOf(ns, Item(k, cur.Value()))
  {
    hide MngtNodeList.Valid, W.AddrBytes, W.KidBytes, KidsOf, W.Bits35, W.Low, FindNode, ItemBytes;
    var node, at := nodes.GetNodeReferenceByAddress(cur.addr);
    nodes.AtHead();
    nodes.At(at);
    ghost var start, n := p.Bytes(), node.Value();
    assert Lookup(ns, cur.addr) == Some(n);
    hide Lookup;
    p.Put([W.Bits35(k, node.nboChildren)]);
    p.Put([W.Low(cur.startLSI)]);
    p.Put(W.AddrBytes(cur.addr, cur.cls));
    PutKids(p, node.children);
    ItemParts(n, Item(k, cur.Value()), start);
  }

  lemma {:induction false} ItemParts(n: RegNode, i: Item, start: seq<byte>)
    ensures start + [W.Bits35(i.group, n.nChildren)] + [W.Low(i.entry.start)] + W.AddrBytes(i.entry.addr, i.entry.cls)
            + W.KidBytes(KidsOf(n.kids)) == start + ItemBytes(n, i)
  {
    hide W.AddrBytes, W.KidBytes, KidsOf, W.Bits35, W.Low;
  }

  /** A walk along a group that started as g0 with room for left0 items and `start` in the payload,
      at position pos: what was written and what the rest of the walk will write make up the whole. */
  ghost predicate Walking(g: Group, bytes: seq<byte>, left: nat, pos: nat, ns: seq<RegNode>, k: nat,
                          g0: Group, start: seq<byte>, left0: nat)
  {
    var w, w0 := Walk(g, pos, left), Walk(g0, 0, left0);
    && w.group == w0.group && w.left == w0.left
    && bytes + ItemsBytes(ns, Items(k, w.said)) == start + ItemsBytes(ns, Items(k, w0.said))
    && CountersOk(g) && UniqueAddrs(g.entries) && SameButDist(g.entries, g0.entries) && SmallDists(g.entries)
  }

  lemma {:induction false} WalkingSkips(g: Group, bytes: seq<byte>, left: nat, pos: nat, ns: seq<RegNode>, k: nat,
                                        g0: Group, start: seq<byte>, left0: nat)
    requires Walking(g, bytes, left, pos, ns, k, g0, start, left0) && pos < |g.entries|
    ensures g.entries[pos].dist == 0 || left == 0 ==> Walking(g, bytes, left, pos + 1, ns, k, g0, start, left0)
  {
  }

  lemma {:induction false} ItemsFirst(ns: seq<RegNode>, k: nat, e: Entry, es: seq<Entry>)
    ensures ItemsBytes(ns, Items(k, [e] + es)) == BytesOf(ns, Item(k, e)) + ItemsBytes(ns, Items(k, es))
  {
    assert Items(k, [e] + es)[1..] == Items(k, es);
  }

  lemma {:induction false} SmallAfter(g: Group, r: Group, es0: seq<Entry>, pos: nat)
    requires pos < |g.entries| && g.entries[pos].dist > 0 && SmallDists(g.entries) && SameButDist(g.entries, es0)
    requires r.entries == g.entries[pos := g.entries[pos].(dist := CountDown(g.entries[pos].dist))]
    ensures SmallDists(r.entries) && SameButDist(r.entries, es0)
  {
  }

  lemma {:induction false} WalkingSays(g: Group, bytes: seq<byte>, left: nat, pos: nat, ns: seq<RegNode>, k: nat,
                                       g0: Group, start: seq<byte>, left0: nat)
    requires Walking(g, bytes, left, pos, ns, k, g0, start, left0)
    requires pos < |g.entries| && g.entries[pos].dist > 0 && left > 0
    ensures var e := g.entries[pos];
            Walking(SetDist(g, e.addr, CountDown(e.dist)), bytes + BytesOf(ns, Item(k, e)), left - 1, pos + 1,
                    ns, k, g0, start, left0)
  {
    hide CountersOk, UniqueAddrs, SameButDist, SmallDists, BytesOf, ItemsBytes, Items, SetDist, CountDown;
    var e := g.entries[pos];
    var r := SetDist(g, e.addr, CountDown(e.dist));
    LowerOne(g, pos);
    SmallAfter(g, r, g0.entries, pos);
    var w := Walk(r, pos + 1, left - 1);
    ItemsFirst(ns, k, e, w.said);
    Assoc(bytes, BytesOf(ns, Item(k, e)), ItemsBytes(ns, Items(k, w.said)));
  }

  lemma {:induction false} WalkingEnds(g: Group, bytes: seq<byte>, left: nat, pos: nat, ns: seq<RegNode>, k: nat,
                                       g0: Group, start: seq<byte>, left0: nat)
    requires Walking(g, bytes, left, pos, ns, k, g0, start, left0) && (left == 0 || pos >= |g.entries|)
    ensures var w0 := Walk(g0, 0, left0);
            && g == w0.group && left == w0.left
            && bytes == start + ItemsBytes(ns, Items(k, w0.said))
  {
    assert ItemsBytes(ns, Items(k, [])) == [];
    assert bytes + [] == bytes;
  }

  lemma {:induction false} WalkingStarts(ns: seq<RegNode>, gs: seq<Group>, k: nat, start: seq<byte>, left: nat)
    requires Consistent(ns, gs) && k < |gs|
    ensures Walking(gs[k], start, left, 0, ns, k, gs[k], start, left)
  {
    hide Walk, ItemsBytes;
    ConsistentAt(ns, gs, k);
    forall i | 0 <= i < |gs[k].entries| ensures gs[k].entries[i].dist < 256 {
      assert Backed(gs[k].entries[i], ns) && EntryOk(gs[k].entries[i]);
    }
  }

  /** Whoever is scheduled is registered, and walking does not change who is scheduled. */
  lemma {:induction false} WalkingKnown(g: Group, bytes: seq<byte>, left: nat, pos: nat, ns: seq<RegNode>, k: nat,
                                        gs: seq<Group>, start: seq<byte>, left0: nat)
    requires Consistent(ns, gs) && k < |gs| && Walking(g, bytes, left, pos, ns, k, gs[k], start, left0)
    ensures |g.entries| == |gs[k].entries|
    ensures pos < |g.entries| ==> Lookup(ns, g.entries[pos].addr).Some? && g.entries[pos].dist < 256
  {
    hide Walk, ItemsBytes;
    ConsistentAt(ns, gs, k);
    if pos < |g.entries| {
      assert gs[k].entries[pos] in gs[k].entries && Backed(gs[k].entries[pos], ns);
    }
  }

  /** One step of the walk: a node with a positive countdown becomes an item. */
  method WalkNode(nodes: MngtNodeList, s: ScheduleArray, p: Payload, k: nat, cur: SchNode,
                  ghost i: nat, ghost g: Group, ghost ns: seq<RegNode>)
    requires nodes.Valid() && s.Valid() && p.Valid() && p.len + 8 < W.PAYLOAD_SIZE
    requires k < |s.lists| && g == s.lists[k].AsGroup() && ns == nodes.contents
    requires i < |s.lists[k].spine| && cur == s.lists[k].spine[i] && Lookup(ns, cur.addr).Some?
    modifies p`len, p.data, s.lists[k], s.lists[k].Repr
    ensures nodes.Valid() && s.Valid() && p.Valid() && p.len <= old(p.len) + 8
    ensures s.lists[k].spine == old(s.lists[k].spine) && s.lists[k].Repr == old(s.lists[k].Repr)
    ensures i < |g.entries|
    ensures p.Bytes() == old(p.Bytes()) + BytesOf(ns, Item(k, g.entries[i]))
    ensures s.Groups() == old(s.Groups())[k := SetDist(g, g.entries[i].addr, CountDown(g.entries[i].dist))]
  {
    hide MngtNodeList.Valid, ScheduleArray.Valid, SchList.Valid, Lookup, BytesOf;
    s.At(k);
    s.lists[k].At(i);
    PutItem(nodes, p, k, cur, ns);
    LowerNode(s, k, cur, i, g);
  }

  /** The walk along one group, with room for `left` items. */
  method WalkGroup(nodes: MngtNodeList, s: ScheduleArray, p: Payload, k: nat, left: nat,
                   ghost ns: seq<RegNode>, ghost gs: seq<Group>) returns (left': nat)
    requires nodes.Valid() && s.Valid() && p.Valid() && ns == nodes.contents && gs == s.Groups() && Consistent(ns, gs)
    requires k < |s.lists| && p.len + 8 * left < W.PAYLOAD_SIZE
    modifies p`len, p.data, s.lists[k], s.lists[k].Repr
    ensures nodes.Valid() && s.Valid() && p.Valid() && p.len + 8 * left' <= old(p.len) + 8 * left
    ensures var w := Walk(gs[k], 0, left);
            && s.Groups() == gs[k := w.group] && left' == w.left
            && p.Bytes() == old(p.Bytes()) + ItemsBytes(ns, Items(k, w.said))
  {
    hide MngtNodeList.Valid, ScheduleArray.Valid, SchList.Valid, Payload.Valid,
         ScheduleArray.Groups, Consistent, Lookup, BytesOf, ItemsBytes, Items, Walking, Walk, SetDist;
    ghost var start, spine := p.Bytes(), s.lists[k].spine;
    s.At(k);
    s.lists[k].AtHead();
    var cur := s.lists[k].head;
    ghost var pos := 0;
    left' := left;
    WalkingStarts(ns, gs, k, start, left);
    while left' > 0 && cur != null
      invariant nodes.Valid() && s.Valid() && p.Valid() && p.len + 8 * left' <= |start| + 8 * left
      invariant s.lists[k].spine == spine && s.lists[k].Repr == old(s.lists[k].Repr)
      invariant pos <= |spine| == |gs[k].entries| && cur == if pos < |spine| then spine[pos] else null
      invariant s.Groups() == gs[k := s.Groups()[k]]
      invariant Walking(s.Groups()[k], p.Bytes(), left', pos, ns, k, gs[k], start, left)
      decreases |spine| - pos
    {
      s.At(k);
      s.lists[k].At(pos);
      WalkingKnown(s.Groups()[k], p.Bytes(), left', pos, ns, k, gs, start, left);
      if cur.nboSchDist > 0 {
        WalkingSays(s.Groups()[k], p.Bytes(), left', pos, ns, k, gs[k], start, left);
        WalkNode(nodes, s, p, k, cur, pos, s.Groups()[k], ns);
        left' := left' - 1;
      } else {
        WalkingSkips(s.Groups()[k], p.Bytes(), left', pos, ns, k, gs[k], start, left);
      }
      s.At(k);
      s.lists[k].At(pos);
      cur := cur.next;
      pos := pos + 1;
    }
    WalkingKnown(s.Groups()[k], p.Bytes(), left', pos, ns, k, gs, start, left);
    WalkingEnds(s.Groups()[k], p.Bytes(), left', pos, ns, k, gs[k], start, left);
  }

  lemma {:induction false} WalkKeeps(ns: seq<RegNode>, gs: seq<Group>, k: nat, left: nat)
    requires Consistent(ns, gs) && k < |gs|
    ensures Consistent(ns, gs[k := Walk(gs[k], 0, left).group])
  {
    ConsistentAt(ns, gs, k);
    forall i | 0 <= i < |gs[k].entries| ensures gs[k].entries[i].dist < 256 {
      assert Backed(gs[k].entries[i], ns) && EntryOk(gs[k].entries[i]);
    }
    WalkAnnounces(gs[k], k, left, 0);
    Runs.QuieterOne(gs, k, Walk(gs[k], 0, left).group);
    QuieterKeeps(ns, gs, gs[k := Walk(gs[k], 0, left).group]);
  }

  lemma {:induction false} ItemsAppend(ns: seq<RegNode>, a: seq<Item>, b: seq<Item>)
    ensures ItemsBytes(ns, a + b) == ItemsBytes(ns, a) + ItemsBytes(ns, b)
  {
    if a == [] {
      assert a + b == b;
    } else {
      assert (a + b)[1..] == a[1..] + b;
      ItemsAppend(ns, a[1..], b);
      Assoc(BytesOf(ns, a[0]), ItemsBytes(ns, a[1..]), ItemsBytes(ns, b));
    }
  }

  /** The walk over all groups of gs0 at group i, with room for `left` more items: what was done and
      what is still to be done make up the whole. */
  ghost predicate Rounding(gs: seq<Group>, bytes: seq<byte>, left: nat, i: nat, ns: seq<RegNode>,
                           gs0: seq<Group>, start: seq<byte>, left0: nat)
  {
    && |gs| == |gs0| && i <= |gs0| && gs[i..] == gs0[i..]
    && var r, r0 := WalkAll(gs0[i..], i, left), WalkAll(gs0, 0, left0);
       && gs[..i] + r.groups == r0.groups
       && bytes + ItemsBytes(ns, r.said) == start + ItemsBytes(ns, r0.said)
  }

  lemma {:induction false} RoundingStarts(ns: seq<RegNode>, gs: seq<Group>, start: seq<byte>, left: nat)
    ensures Rounding(gs, start, left, 0, ns, gs, start, left)
  {
    hide WalkAll, ItemsBytes;
    assert gs[0..] == gs;
    assert gs[..0] + WalkAll(gs, 0, left).groups == WalkAll(gs, 0, left).groups;
  }

  lemma {:induction false} ReplaceAt(gs: seq<Group>, i: nat, g: Group, rest: seq<Group>)
    requires i < |gs|
    ensures gs[i := g][..i + 1] + rest == gs[..i] + ([g] + rest) && gs[i := g][i + 1..] == gs[i + 1..]
    ensures gs[i..][1..] == gs[i + 1..] && gs[i..][0] == gs[i]
  {
  }

  lemma {:induction false} RoundingStep(gs: seq<Group>, bytes: seq<byte>, left: nat, i: nat, ns: seq<RegNode>,
                                        gs0: seq<Group>, start: seq<byte>, left0: nat)
    requires Rounding(gs, bytes, left, i, ns, gs0, start, left0) && i < |gs0|
    ensures var w := Walk(gs[i], 0, left);
            Rounding(gs[i := w.group], bytes + ItemsBytes(ns, Items(i, w.said)), w.left, i + 1, ns, gs0, start, left0)
  {
    hide Walk, ItemsBytes, Items;
    assert gs[i] == gs[i..][0] == gs0[i..][0];
    var w := Walk(gs[i], 0, left);
    var r := WalkAll(gs0[i + 1..], i + 1, w.left);
    ReplaceAt(gs0, i, w.group, r.groups);
    ReplaceAt(gs, i, w.group, r.groups);
    ItemsAppend(ns, Items(i, w.said), r.said);
    Assoc(bytes, ItemsBytes(ns, Items(i, w.said)), ItemsBytes(ns, r.said));
    assert WalkAll(gs0[i..], i, left) == Round([w.group] + r.groups, Items(i, w.said) + r.said);
  }

  lemma {:induction false} RoundingEnds(gs: seq<Group>, bytes: seq<byte>, left: nat, ns: seq<RegNode>,
                                        gs0: seq<Group>, start: seq<byte>, left0: nat)
    requires Rounding(gs, bytes, left, |gs0|, ns, gs0, start, left0)
    ensures gs == WalkAll(gs0, 0, left0).groups && bytes == start + ItemsBytes(ns, WalkAll(gs0, 0, left0).said)
  {
    assert gs[..|gs0|] + [] == gs;
    assert bytes + [] == bytes;
  }

  /** The walk over all groups. */
  method WalkGroups(nodes: MngtNodeList, s: ScheduleArray, p: Payload, left: nat, ghost ns: seq<RegNode>, ghost gs: seq<Group>)
    requires nodes.Valid() && s.Valid() && p.Valid() && ns == nodes.contents && gs == s.Groups() && Consistent(ns, gs)
    requires p.len + 8 * left < W.PAYLOAD_SIZE
    modifies p`len, p.data, s.lists, s.Repr
    ensures nodes.Valid() && s.Valid() && p.Valid()
    ensures s.Groups() == WalkAll(gs, 0, left).groups
    ensures p.Bytes() == old(p.Bytes()) + ItemsBytes(ns, WalkAll(gs, 0, left).said)
  {
    hide MngtNodeList.Valid, SchList.Valid, Consistent, ItemsBytes, Rounding, Walk, WalkAll;
    ghost var start := p.Bytes();
    var room, i := left, 0;
    RoundingStarts(ns, gs, start, left);
    while i < |s.lists|
      invariant i <= |s.lists| && nodes.Valid() && s.Valid() && p.Valid() && p.len + 8 * room <= |start| + 8 * left
      invariant Consistent(ns, s.Groups())
      invariant Rounding(s.Groups(), p.Bytes(), room, i, ns, gs, start, left)
    {
      RoundingStep(s.Groups(), p.Bytes(), room, i, ns, gs, start, left);
      WalkKeeps(ns, s.Groups(), i, room);
      room := WalkGroup(nodes, s, p, i, room, ns, s.Groups());
      i := i + 1;
    }
    RoundingEnds(s.Groups(), p.Bytes(), room, ns, gs, start, left);
  }

  method PutCmHead(p: Payload, mac: W.Mac, seqNo: nat)
    requires p.Valid()
    modifies p`len, p.data
    ensures p.Valid() && p.Bytes() == W.Header(W.MSG_CM, mac) + W.Le16(seqNo) && p.len == 9
  {
    hide W.Header;
    p.Reset();
    p.PutHeader(W.MSG_CM, mac);
    p.Put(W.Le16(seqNo));
  }

  /** The bytes of a command message in front of the items. */
  method PutCmControl(s: ScheduleArray, p: Payload, mac: W.Mac, seqNo: nat, ghost gs: seq<Group>) returns (q: nat)
    requires s.Valid() && p.Valid() && gs == s.Groups() && |gs| <= 7
    modifies p`len, p.data
    ensures s.Valid() && p.Valid() && s.Groups() == gs && q == (if Quota(gs, 0) > 0 then Quota(gs, 0) else 0)
    ensures p.Bytes() == W.Header(W.MSG_CM, mac) + W.Le16(seqNo) + W.LastBytes(LastsOf(gs)) + [W.CmCtrl(q)]
    ensures p.len == 10 + |gs|
  {
    hide ScheduleArray.Valid, SchList.Valid, Payload.Valid, W.Header, W.LastBytes, W.Le16, LastsOf, Quota, W.CmCtrl;
    PutCmHead(p, mac, seqNo);
    PutLasts(s, p, gs);
    var n := CountItems(s);
    q := if n > 0 then n else 0;
    p.Put([W.CmCtrl(q)]);
  }

  /** The CM case of prepareDownlinkMsgPayload. */
  method PrepareCm(nodes: MngtNodeList, s: ScheduleArray, p: Payload, mac: W.Mac, seqNo: nat,
                   ghost ns: seq<RegNode>, ghost gs: seq<Group>)
    requires nodes.Valid() && s.Valid() && p.Valid() && ns == nodes.contents && gs == s.Groups()
    requires Consistent(ns, gs) && |gs| <= 7
    modifies p`len, p.data, s.lists, s.Repr
    ensures nodes.Valid() && s.Valid() && p.Valid()
    ensures s.Groups() == SendCm(gs).groups
    ensures Registered(ns, SendCm(gs).said) && p.Bytes() == PayloadCm(mac, seqNo, ns, gs)
  {
    SaidOk(ns, gs);
    AllRegistered(ns, SendCm(gs).said);
    ConsistentCounted(ns, gs);
    QuotaIs(gs, 0);
    hide MngtNodeList.Valid, ScheduleArray.Valid, SchList.Valid, Consistent, W.Header, W.LastBytes, LastsOf, Quota,
         W.CmCtrl, WalkAll, ItemsBytes, AllCounted, Registered;
    var q := PutCmControl(s, p, mac, seqNo, gs);
    WalkGroups(nodes, s, p, q, ns, gs);
  }

  lemma {:induction false} AllRegistered(ns: seq<RegNode>, items: seq<Item>)
    requires forall i | 0 <= i < |items| :: ItemOk(ns, items[i])
    ensures Registered(ns, items)
  {
    forall i | 0 <= i < |items| ensures Lookup(ns, items[i].entry.addr).Some? { assert ItemOk(ns, items[i]); }
  }

  // ---------------------------------------------------------------- registration lists

  lemma {:induction false} HeadsAppend(a: seq<RegNode>, n: RegNode)
    ensures W.KidBytes(Runs.Heads(a + [n])) == W.KidBytes(Runs.Heads(a)) + W.AddrBytes(n.addr, n.cls)
    ensures |Runs.Heads(a)| == |a|
  {
    if a == [] {
      assert a + [n] == [n] && [n][1..] == [];
      assert W.AddrBytes(n.addr, n.cls) + [] == W.AddrBytes(n.addr, n.cls) && [] + W.AddrBytes(n.addr, n.cls) == W.AddrBytes(n.addr, n.cls);
    } else {
      assert (a + [n])[1..] == a[1..] + [n];
      HeadsAppend(a[1..], n);
      Assoc(W.AddrBytes(a[0].addr, a[0].cls), W.KidBytes(Runs.Heads(a[1..])), W.AddrBytes(n.addr, n.cls));
    }
  }

  /** The bytes of a registration list in front of the nodes. */
  method PutRnlControl(p: Payload, mac: W.Mac, seqNo: nat, ready: bool, n: nat)
    requires p.Valid()
    modifies p`len, p.data
    ensures p.Valid() && p.Bytes() == W.Header(W.MSG_RNL, mac) + W.Le16(seqNo) + [W.RnlCtrl(ready, n)]
  {
    hide W.Header, W.RnlCtrl;
    p.Reset();
    p.PutHeader(W.MSG_RNL, mac);
    p.Put(W.Le16(seqNo));
    p.Put([W.RnlCtrl(ready, n)]);
  }

  /** The next node of RNL is listed and moves to NODES. */
  method PutNewNode(sv: Server, p: Payload, ghost s: Runs.State)
    requires sv.Valid() && s == sv.State() && Runs.StateOk(s) && p.Valid() && p.len + 2 < W.PAYLOAD_SIZE && s.queue != []
    modifies p`len, p.data, sv.nodes, sv.nodes.Repr, sv.rnl, sv.rnl.Repr, sv.schedules.lists, sv.schedules.Repr
    ensures sv.Valid() && p.Valid() && sv.State() == Runs.Step(s, Runs.Absorb)
    ensures p.Bytes() == old(p.Bytes()) + W.AddrBytes(s.queue[0].addr, s.queue[0].cls)
    ensures sv.rnl.Repr <= old(sv.rnl.Repr) && sv.nodes.Repr <= old(sv.nodes.Repr) + old(sv.rnl.Repr)
  {
    hide MngtNodeList.Valid, ScheduleArray.Valid, Runs.StateOk, W.AddrBytes, AddNode;
    sv.rnl.AtHead();
    sv.rnl.At(0);
    var node := sv.rnl.head;
    p.Put(W.AddrBytes(node.addr, node.cls));
    var moved := sv.Absorb();
  }

  /** The state of a registration list of n nodes when i of them are listed. */
  ghost predicate Announcing(now: Runs.State, bytes: seq<byte>, i: nat, s: Runs.State, start: seq<byte>, n: nat)
    requires Runs.StateOk(s) && i <= n <= |s.queue|
  {
    && Runs.StateOk(now) && now.queue == s.queue[i..]
    && Runs.AbsorbMany(now, n - i) == Runs.AbsorbMany(s, n)
    && bytes == start + W.KidBytes(Runs.Heads(s.queue[..i]))
  }

  lemma {:induction false} AnnouncingStep(now: Runs.State, bytes: seq<byte>, i: nat, s: Runs.State, start: seq<byte>, n: nat)
    requires Runs.StateOk(s) && i < n <= |s.queue| && Announcing(now, bytes, i, s, start, n)
    ensures now.queue != [] && Runs.StateOk(now)
    ensures Announcing(Runs.Step(now, Runs.Absorb), bytes + W.AddrBytes(now.queue[0].addr, now.queue[0].cls), i + 1, s, start, n)
  {
    hide Runs.StateOk, W.KidBytes, Runs.Heads, W.AddrBytes, AddNode;
    Runs.StepKeepsOk(now, Runs.Absorb);
    HeadsAppend(s.queue[..i], s.queue[i]);
    assert s.queue[..i] + [s.queue[i]] == s.queue[..i + 1];
    Assoc(start, W.KidBytes(Runs.Heads(s.queue[..i])), W.AddrBytes(s.queue[i].addr, s.queue[i].cls));
  }

  lemma {:induction false} AnnouncingStarts(s: Runs.State, start: seq<byte>, n: nat)
    requires Runs.StateOk(s) && n <= |s.queue|
    ensures Announcing(s, start, 0, s, start, n)
  {
    hide Runs.StateOk;
    NoHeads();
    assert s.queue[..0] == [];
  }

  lemma {:induction false} AnnouncingEnds(now: Runs.State, bytes: seq<byte>, s: Runs.State, n: nat,
                                          mac: W.Mac, seqNo: nat, ready: bool)
    requires Runs.StateOk(s) && n == Runs.Least(|s.queue|, W.MAX_IN_RNL)
    requires Announcing(now, bytes, n, s, W.Header(W.MSG_RNL, mac) + W.Le16(seqNo) + [W.RnlCtrl(ready, n)], n)
    ensures now == Runs.AbsorbMany(s, n)
    ensures bytes == W.RnlBytes(mac, Runs.RnlOf(s.queue, seqNo, ready))
  {
    hide Runs.StateOk, W.Header, W.RnlCtrl, W.KidBytes, Runs.Heads;
    HeadsAppend(s.queue[..n], NewNode(0, 0, OneHop, 0));
  }

  /** The nodes of a registration list. */
  method PutNewNodes(sv: Server, p: Payload, n: nat, ghost s: Runs.State)
    requires sv.Valid() && s == sv.State() && Runs.StateOk(s) && p.Valid()
    requires n <= |s.queue| && p.len + 2 * n < W.PAYLOAD_SIZE
    modifies p`len, p.data, sv.nodes, sv.nodes.Repr, sv.rnl, sv.rnl.Repr, sv.schedules.lists, sv.schedules.Repr
    ensures sv.Valid() && p.Valid()
    ensures Announcing(sv.State(), p.Bytes(), n, s, old(p.Bytes()), n)
  {
    hide Server.Valid, Server.State, Runs.StateOk, Announcing;
    ghost var start := p.Bytes();
    var i := 0;
    AnnouncingStarts(s, start, n);
    while i < n
      invariant i <= n && sv.Valid() && p.Valid() && p.len == |start| + 2 * i
      invariant Announcing(sv.State(), p.Bytes(), i, s, start, n)
      invariant sv.rnl.Repr <= old(sv.rnl.Repr) && sv.nodes.Repr <= old(sv.nodes.Repr) + old(sv.rnl.Repr)
    {
      AnnouncingStep(sv.State(), p.Bytes(), i, s, start, n);
      PutNewNode(sv, p, sv.State());
      i := i + 1;
    }
  }

  /** The RNL case of prepareDownlinkMsgPayload: up to 20 nodes of RNL are listed and move to NODES.
      The list cannot run empty on the way, as nobody else takes nodes from it. */
  method PrepareRnl(sv: Server, p: Payload, mac: W.Mac, seqNo: nat, ready: bool, ghost s: Runs.State)
    requires sv.Valid() && s == sv.State() && Runs.StateOk(s) && p.Valid()
    modifies p`len, p.data, sv.nodes, sv.nodes.Repr, sv.rnl, sv.rnl.Repr, sv.schedules.lists, sv.schedules.Repr
    ensures sv.Valid() && p.Valid()
    ensures p.Bytes() == W.RnlBytes(mac, Runs.RnlOf(s.queue, seqNo, ready))
    ensures sv.State() == Runs.AbsorbMany(s, Runs.Least(|s.queue|, W.MAX_IN_RNL))
  {
    hide MngtNodeList.Valid, ScheduleArray.Valid, Runs.StateOk, W.Header, W.RnlCtrl, Announcing, W.RnlBytes, Runs.RnlOf;
    sv.RnlSize();
    var n := if sv.rnl.size > W.MAX_IN_RNL then W.MAX_IN_RNL else sv.rnl.size;
    PutRnlControl(p, mac, seqNo, ready, n);
    PutNewNodes(sv, p, n, s);
    AnnouncingEnds(sv.State(), p.Bytes(), s, n, mac, seqNo, ready);
  }

  lemma {:induction false} NoHeads()
    ensures W.KidBytes(Runs.Heads([])) == []
  {
  }
}
