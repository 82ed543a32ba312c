/**
  * The two phases of rtlora_mac.c that announce schedules, on the heap of the server: the 15 slots of
  * a schedule distribution and the frames of a data collection.  What goes to the transmit queue is
  * the payloads, and what the end nodes read from them is tied to the schedule.
  */
module Phases {
  import opened Bytes
  import opened Wrappers
  import opened SlotSpec
  import opened RegistrySpec
  import opened ServerSpec
  import opened Distribution
  import opened Collection
  import opened NodeList
  import opened Schedules
  import opened Server
  import opened Downlink
  import Balance
  import Runs
  import W = Wire

  // ---------------------------------------------------------------- one schedule message

  lemma {:induction false} ConsistentState(s: Runs.State)
    requires Runs.StateOk(s)
    ensures Consistent(s.nodes, s.groups) && s.groups != []
  {
  }

  lemma {:induction false} NothingHeard()
    ensures Understood([]) == []
  {
  }

  lemma {:induction false} HeardIs(mac: W.Mac, ns: seq<RegNode>, gs: seq<Group>, count: nat, sch2: nat, b: seq<byte>)
    requires match SmOf(ns, gs, count, sch2)
             case None => b == []
             case Some(m) => b == W.SmBytes(mac, m)
    ensures Understood(b) == HeardOnce(mac, ns, gs, count, sch2)
  {
    hide Understood, SmOf, W.SmBytes;
    NothingHeard();
  }

  /** The payload of one SCH1 slot. */
  method SlotSm(sv: Server, p: Payload, mac: W.Mac, count: nat, sch2: nat, ghost s: Runs.State) returns (sch2': nat)
    requires sv.Valid() && s == sv.State() && Runs.StateOk(s) && p.Valid() && sch2 < U8
    modifies p`len, p.data, sv.schedules.lists, sv.schedules.Repr
    ensures sv.Valid() && p.Valid() && sv.State() == Runs.Step(s, Runs.SlotSm)
    ensures match SmOf(s.nodes, s.groups, count, sch2)
            case None => p.Bytes() == []
            case Some(m) => p.Bytes() == W.SmBytes(mac, m)
    ensures sch2' == Sch2After(s.nodes, s.groups, sch2)
  {
    hide Runs.StateOk, Consistent, MngtNodeList.Valid, ScheduleArray.Valid, ScheduleArray.Groups, Payload.Valid,
         SmOf, W.SmBytes, AfterSm, Sch2After;
    ConsistentState(s);
    sch2' := PrepareSm(sv.nodes, sv.schedules, p, mac, count, sch2, s.nodes, s.groups);
  }

  // ---------------------------------------------------------------- the distribution phase

  /** What the end nodes make of the payloads of a phase, in the order of sending. */
  function AllUnderstood(sent: seq<seq<byte>>): seq<Notice> {
    if sent == [] then [] else AllUnderstood(sent[..|sent| - 1]) + Understood(sent[|sent| - 1])
  }

  /** The state s before slot count of the phase that started in t, with what was sent so far. */
  ghost predicate Distributing(s: Runs.State, count: nat, sch2: nat, sent: seq<seq<byte>>, t: Runs.State, mac: W.Mac)
    requires count <= W.SCH1_SLOTS + 1
  {
    var left := W.SCH1_SLOTS + 1 - count;
    && sch2 < U8 && s.nodes == t.nodes && s.queue == t.queue
    && GroupsAfter(s.groups, left) == GroupsAfter(t.groups, W.SCH1_SLOTS)
    && Sch2Run(t.nodes, s.groups, sch2, left) == Sch2Run(t.nodes, t.groups, 1, W.SCH1_SLOTS)
    && AllUnderstood(sent) + Heard(mac, t.nodes, s.groups, count, sch2, left)
       == Heard(mac, t.nodes, t.groups, 1, 1, W.SCH1_SLOTS)
  }

  lemma {:induction false} DistributingStarts(t: Runs.State, mac: W.Mac)
    ensures Distributing(t, 1, 1, [], t, mac)
  {
    hide GroupsAfter, Sch2Run, Heard;
    var h := Heard(mac, t.nodes, t.groups, 1, 1, W.SCH1_SLOTS);
    assert [] + h == h;
  }

  lemma {:induction false} UnderstoodAppend(sent: seq<seq<byte>>, b: seq<byte>)
    ensures AllUnderstood(sent + [b]) == AllUnderstood(sent) + Understood(b)
  {
    assert (sent + [b])[..|sent|] == sent;
  }

  lemma {:induction false} HeardUnfolds(mac: W.Mac, ns: seq<RegNode>, gs: seq<Group>, count: nat, sch2: nat, left: nat)
    requires left > 0
    ensures var sch2' := Sch2After(ns, gs, sch2);
            && Heard(mac, ns, gs, count, sch2, left)
               == HeardOnce(mac, ns, gs, count, sch2) + Heard(mac, ns, AfterSm(gs), count + 1, sch2', left - 1)
            && GroupsAfter(gs, left) == GroupsAfter(AfterSm(gs), left - 1)
            && Sch2Run(ns, gs, sch2, left) == Sch2Run(ns, AfterSm(gs), sch2', left - 1)
  {
    hide HeardOnce, AfterSm, Sch2After;
  }

  /** A payload is only queued when it is not empty. */
  function Queued(sent: seq<seq<byte>>, b: seq<byte>): seq<seq<byte>> {
    if b != [] then sent + [b] else sent
  }

  lemma {:induction false} QueuedUnderstood(sent: seq<seq<byte>>, b: seq<byte>)
    ensures AllUnderstood(Queued(sent, b)) == AllUnderstood(sent) + Understood(b)
  {
    hide AllUnderstood, Understood;
    if b != [] {
      UnderstoodAppend(sent, b);
    } else {
      NothingHeard();
      assert AllUnderstood(sent) + [] == AllUnderstood(sent);
    }
  }

  lemma {:induction false} Regroup(a: seq<Notice>, b: seq<Notice>, c: seq<Notice>)
    ensures (a + b) + c == a + (b + c)
  {
  }

  lemma {:induction false} DistributingStep(s: Runs.State, count: nat, sch2: nat, sent: seq<seq<byte>>, t: Runs.State, mac: W.Mac,
                                            b: seq<byte>)
    requires count <= W.SCH1_SLOTS && s.groups != [] && Distributing(s, count, sch2, sent, t, mac)
    requires match SmOf(s.nodes, s.groups, count, sch2)
             case None => b == []
             case Some(m) => b == W.SmBytes(mac, m)
    ensures Distributing(Runs.Step(s, Runs.SlotSm), count + 1, Sch2After(s.nodes, s.groups, sch2), Queued(sent, b), t, mac)
  {
    hide SmOf, W.SmBytes, GroupsAfter, Sch2Run, Heard, HeardOnce, AfterSm, Sch2After, AllUnderstood, Understood, Queued;
    var left := W.SCH1_SLOTS + 1 - count;
    HeardIs(mac, s.nodes, s.groups, count, sch2, b);
    HeardUnfolds(mac, s.nodes, s.groups, count, sch2, left);
    QueuedUnderstood(sent, b);
    Regroup(AllUnderstood(sent), Understood(b),
            Heard(mac, t.nodes, AfterSm(s.groups), count + 1, Sch2After(s.nodes, s.groups, sch2), left - 1));
  }

  lemma {:induction false} DistributingEnds(s: Runs.State, sch2: nat, sent: seq<seq<byte>>, t: Runs.State, mac: W.Mac)
    requires Distributing(s, W.SCH1_SLOTS + 1, sch2, sent, t, mac)
    ensures s == t.(groups := GroupsAfter(t.groups, W.SCH1_SLOTS))
    ensures sch2 == Sch2Run(t.nodes, t.groups, 1, W.SCH1_SLOTS)
    ensures AllUnderstood(sent) == Heard(mac, t.nodes, t.groups, 1, 1, W.SCH1_SLOTS)
  {
    hide AllUnderstood;
    assert AllUnderstood(sent) + [] == AllUnderstood(sent);
  }

  // ---------------------------------------------------------------- the payloads of the phase

  /** The message of slot i + 1 of the phase that started in t; none when nothing is pending any more. */
  function SlotMessage(t: Runs.State, i: nat): Option<W.Sm> {
    SmOf(t.nodes, GroupsAfter(t.groups, i), i + 1, Sch2Run(t.nodes, t.groups, 1, i))
  }

  /** The payloads of the first n slots: one for each slot, until nothing is pending. */
  ghost predicate SentIn(sent: seq<seq<byte>>, n: nat, t: Runs.State, mac: W.Mac) {
    && |sent| <= n
    && (forall i | 0 <= i < |sent| :: SlotMessage(t, i).Some? && sent[i] == W.SmBytes(mac, SlotMessage(t, i).value))
    && (|sent| < n ==> SlotMessage(t, |sent|).None?)
  }

  /** The state s after n slots of the phase that started in t. */
  ghost predicate Slotted(s: Runs.State, n: nat, sch2: nat, sent: seq<seq<byte>>, t: Runs.State, mac: W.Mac) {
    && s.nodes == t.nodes && s.groups == GroupsAfter(t.groups, n) && sch2 == Sch2Run(t.nodes, t.groups, 1, n)
    && SentIn(sent, n, t, mac)
  }

  lemma {:induction false} MessageIff(ns: seq<RegNode>, gs: seq<Group>, count: nat, sch2: nat)
    ensures SmOf(ns, gs, count, sch2).Some? <==> TakeOf(gs).Some?
  {
  }

  lemma {:induction false} SlottedStep(s: Runs.State, n: nat, sch2: nat, sent: seq<seq<byte>>, t: Runs.State, mac: W.Mac,
                                       b: seq<byte>)
    requires s.groups != [] && Slotted(s, n, sch2, sent, t, mac)
    requires match SmOf(s.nodes, s.groups, n + 1, sch2)
             case None => b == []
             case Some(m) => b == W.SmBytes(mac, m)
    ensures Slotted(Runs.Step(s, Runs.SlotSm), n + 1, Sch2After(s.nodes, s.groups, sch2), Queued(sent, b), t, mac)
  {
    hide SmOf, TakeOf, GroupsAfter, Sch2Run, AfterSm, Sch2After, W.SmHead, W.SmNodeBytes;
    NextSlot(t.nodes, t.groups, 1, n);
    var k := |sent|;
    MessageIff(t.nodes, GroupsAfter(t.groups, k), k + 1, Sch2Run(t.nodes, t.groups, 1, k));
    MessageIff(s.nodes, s.groups, n + 1, sch2);
    if k < n { NothingMore(t.groups, k, n); }
  }

  /** A network of at most seven groups of one size, with room in a group for every one-hop node. */
  ghost predicate Fits(s: Runs.State, mac: W.Mac, tot: nat) {
    && W.MacOk(mac) && |s.groups| <= 7 && tot <= 128 && (forall k | 0 <= k < |s.groups| :: s.groups[k].tot == tot)
    && Balance.DemandsFit(s.nodes, tot)
  }

  /** What the payloads of a phase tell: who was announced, who is still owed, and how many SCH2 slots follow. */
  ghost predicate Told(heard: seq<Notice>, nboSch2Slot: nat, t: Runs.State, r: Runs.State) {
    && Everybody(t.groups, 0) == heard + Owed(r.groups, 0)
    && (Owed(r.groups, 0) == [] <==> Needed(t.groups) <= W.SCH1_SLOTS)
    && nboSch2Slot == RelayNotices(t.nodes, heard) % U8
  }

  lemma {:induction false} StartedState(s: Runs.State)
    requires s.groups != []
    ensures var d := Distribute(s.nodes, s.groups);
            Runs.Step(s, Runs.StartPhase) == Runs.State(d.0, s.queue, d.1)
  {
    hide Distribute;
  }

  lemma {:induction false} OneLess(x: nat)
    ensures ((1 + x) % U8 + 255) % U8 == x % U8
  {
  }

  lemma {:induction false} IsRegistry(ns: seq<RegNode>, gs: seq<Group>)
    requires Consistent(ns, gs)
    ensures RegistryOk(ns)
  {
  }

  lemma {:induction false} PhaseTells(s: Runs.State, mac: W.Mac, tot: nat)
    requires Consistent(s.nodes, s.groups) && s.groups != [] && Fits(s, mac, tot)
    ensures var (ns, gs, _) := Distribute(s.nodes, s.groups);
            Told(Heard(mac, ns, gs, 1, 1, W.SCH1_SLOTS), (Sch2Run(ns, gs, 1, W.SCH1_SLOTS) + 255) % U8,
                 Runs.State(ns, s.queue, gs), Runs.State(ns, s.queue, GroupsAfter(gs, W.SCH1_SLOTS)))
  {
    hide Consistent, Distribute, GroupsAfter, Sch2Run, Heard, Sent, Everybody, Owed, Needed, RelayNotices, Balance.DemandsFit,
         AllSound, GroupsUnique;
    var ns, gs := Distribute(s.nodes, s.groups).0, Distribute(s.nodes, s.groups).1;
    DistributionPhase(mac, s.nodes, s.groups, tot);
    DistributionStarts(s.nodes, s.groups, tot);
    DistributeKeeps(s.nodes, s.groups);
    IsRegistry(ns, gs);
    HeardIsSent(mac, ns, gs, 1, 1, W.SCH1_SLOTS);
    Sch2CountsRelays(ns, gs, 1, W.SCH1_SLOTS);
    OneLess(RelayNotices(ns, Sent(gs, W.SCH1_SLOTS)));
  }

  /** The slots of the phase that started in t. */
  method SendSlots(sv: Server, p: Payload, mac: W.Mac, ghost t: Runs.State) returns (sent: seq<seq<byte>>, sch2Sslot: nat)
    requires sv.Valid() && t == sv.State() && Runs.StateOk(t) && p.Valid()
    modifies p`len, p.data, sv.schedules.lists, sv.schedules.Repr
    ensures sv.Valid() && p.Valid()
    ensures sv.State() == t.(groups := GroupsAfter(t.groups, W.SCH1_SLOTS))
    ensures AllUnderstood(sent) == Heard(mac, t.nodes, t.groups, 1, 1, W.SCH1_SLOTS)
    ensures sch2Sslot == Sch2Run(t.nodes, t.groups, 1, W.SCH1_SLOTS) && SentIn(sent, 15, t, mac)
  {
    hide Server.Valid, Server.State, Runs.StateOk, Runs.Step, Payload.Valid, SmOf, W.SmBytes, Distributing, GroupsAfter, Heard,
         AllUnderstood, Sch2After, Sch2Run, Queued, Slotted, SentIn;
    DistributingStarts(t, mac);
    SlottedStarts(t, mac);
    var sch1Cnt: nat := 1;
    sch2Sslot, sent := 1, [];
    while sch1Cnt <= W.SCH1_SLOTS
      invariant 1 <= sch1Cnt <= W.SCH1_SLOTS + 1 && sch2Sslot < U8
      invariant sv.Valid() && p.Valid() && Runs.StateOk(sv.State())
      invariant Distributing(sv.State(), sch1Cnt, sch2Sslot, sent, t, mac)
      invariant Slotted(sv.State(), sch1Cnt - 1, sch2Sslot, sent, t, mac)
    {
      ghost var now, was := sv.State(), sent;
      ConsistentState(now);
      Runs.StepKeepsOk(now, Runs.SlotSm);
      ghost var before := sch2Sslot;
      sch2Sslot := SlotSm(sv, p, mac, sch1Cnt, sch2Sslot, now);
      DistributingStep(now, sch1Cnt, before, sent, t, mac, p.Bytes());
      SlottedStep(now, sch1Cnt - 1, before, sent, t, mac, p.Bytes());
      sent := Enqueue(sent, p);
      sch1Cnt := sch1Cnt + 1;
    }
    DistributingEnds(sv.State(), sch2Sslot, sent, t, mac);
    SlottedEnds(sv.State(), sch2Sslot, sent, t, mac);
  }

  lemma {:induction false} SlottedStarts(t: Runs.State, mac: W.Mac)
    ensures Slotted(t, 0, 1, [], t, mac)
  {
  }

  lemma {:induction false} SlottedEnds(s: Runs.State, sch2: nat, sent: seq<seq<byte>>, t: Runs.State, mac: W.Mac)
    requires Slotted(s, 15, sch2, sent, t, mac)
    ensures SentIn(sent, 15, t, mac)
  {
    hide SentIn;
  }

  /** A payload is only handed to the transmit queue when it is not empty. */
  method Enqueue(sent: seq<seq<byte>>, p: Payload) returns (sent': seq<seq<byte>>)
    requires p.Valid()
    ensures sent' == Queued(sent, p.Bytes())
  {
    sent' := if p.len != 0 then sent + [p.data[..p.len]] else sent;
  }

  /** scheduleDistributionPhase: a new schedule and 15 slots for its messages.  When the network
      fits, the end nodes can rebuild from the payloads alone every place of the schedule that is not
      still owed, nothing is owed exactly when 15 messages are enough, and the SCH2 slots that follow
      are as many as relays were announced, modulo 256. */
  method ScheduleDistributionPhase(sv: Server, mac: W.Mac, ghost s: Runs.State, ghost tot: nat)
    returns (sent: seq<seq<byte>>, nboSch2Slot: nat)
    requires sv.Valid() && s == sv.State() && Runs.StateOk(s)
    modifies sv.nodes`contents, sv.nodes.Repr, sv.schedules, sv.schedules.lists, sv.schedules.Repr
    ensures sv.Valid() && s.groups != []
    ensures var t := Runs.Step(s, Runs.StartPhase);
            && sv.State() == t.(groups := GroupsAfter(t.groups, W.SCH1_SLOTS))
            && SentIn(sent, 15, t, mac)
            && AllUnderstood(sent) == Heard(mac, t.nodes, t.groups, 1, 1, W.SCH1_SLOTS)
            && (Fits(s, mac, tot) ==> Told(AllUnderstood(sent), nboSch2Slot, t, sv.State()))
  {
    hide Server.Valid, Server.State, Runs.StateOk, Runs.Step, Payload.Valid, Consistent, Distribute, Fits, Told, GroupsAfter,
         Heard, AllUnderstood, Sch2Run, SentIn;
    ConsistentState(s);
    Runs.StepKeepsOk(s, Runs.StartPhase);
    StartedState(s);
    var count := sv.StartPhase();
    var p := new Payload();
    var sch2Sslot;
    sent, sch2Sslot := SendSlots(sv, p, mac, sv.State());
    nboSch2Slot := (sch2Sslot + 255) % U8;
    if Fits(s, mac, tot) {
      PhaseTells(s, mac, tot);
    }
  }

  // ---------------------------------------------------------------- one frame

  /** How often the items of a command message name address a. */
  function Calls(us: seq<W.Usi>, a: nat): nat {
    if us == [] then 0 else (if us[0].addr == a then 1 else 0) + Calls(us[1..], a)
  }

  /** How often a payload that is a command message names address a. */
  function CallsIn(b: seq<byte>, a: nat): nat {
    match W.ReadCm(b)
    case None => 0
    case Some((_, m)) => Calls(m.items, a)
  }

  /** The payload names whom the items announce. */
  ghost predicate SaysWhom(b: seq<byte>, said: seq<Item>) {
    forall a :: CallsIn(b, a) == Named(said, a)
  }

  lemma {:induction false} CallsAreNamed(ns: seq<RegNode>, items: seq<Item>, a: nat)
    requires Registered(ns, items)
    ensures Calls(UsisOf(ns, items), a) == Named(items, a)
  {
    hide KidsOf;
    if items != [] {
      CallsAreNamed(ns, items[1..], a);
      assert UsisOf(ns, items)[1..] == UsisOf(ns, items[1..]);
    }
  }

  /** A command message names whom it announces. */
  lemma {:induction false} CmCalls(mac: W.Mac, seqNo: nat, ns: seq<RegNode>, gs: seq<Group>, a: nat)
    requires Consistent(ns, gs) && |gs| == mac.channels && W.MacOk(mac) && seqNo < 0x10000
    ensures Registered(ns, SendCm(gs).said) && CallsIn(PayloadCm(mac, seqNo, ns, gs), a) == Named(SendCm(gs).said, a)
  {
    hide Consistent, Calls, Named, UsisOf, PayloadCm, W.ReadCm, SendCm, Registered;
    CmIsFaithful(mac, seqNo, ns, gs);
    CallsAreNamed(ns, SendCm(gs).said, a);
  }

  /** The payload of a command message. */
  method FrameCm(sv: Server, p: Payload, mac: W.Mac, seqNo: nat, ghost s: Runs.State)
    requires sv.Valid() && s == sv.State() && Runs.StateOk(s) && p.Valid() && |s.groups| <= 7
    modifies p`len, p.data, sv.schedules.lists, sv.schedules.Repr
    ensures sv.Valid() && p.Valid() && sv.State() == Runs.Step(s, Runs.FrameCm)
    ensures Registered(s.nodes, SendCm(s.groups).said) && p.Bytes() == PayloadCm(mac, seqNo, s.nodes, s.groups)
  {
    hide Runs.StateOk, Consistent, MngtNodeList.Valid, ScheduleArray.Valid, ScheduleArray.Groups, Payload.Valid,
         SendCm, PayloadCm, Registered;
    ConsistentState(s);
    PrepareCm(sv.nodes, sv.schedules, p, mac, seqNo, s.nodes, s.groups);
  }

  /** All of RNL moved to NODES. */
  ghost function Absorbed(s: Runs.State): Runs.State
    requires Runs.StateOk(s)
  {
    Runs.AbsorbMany(s, |s.queue|)
  }

  lemma {:induction false} AbsorbedOk(s: Runs.State, n: nat)
    requires Runs.StateOk(s)
    ensures Runs.StateOk(Runs.AbsorbMany(s, n)) && |Runs.AbsorbMany(s, n).groups| == |s.groups|
    decreases n
  {
    hide Runs.StateOk, Runs.Step;
    if n > 0 {
      ConsistentState(s);
      Runs.StepKeepsOk(s, Runs.Absorb);
      AbsorbedOk(Runs.Step(s, Runs.Absorb), n - 1);
    }
  }

  /** A frame of the data collection phase and the state it leaves. */
  ghost function AfterFrame(s: Runs.State): Runs.State
    requires Runs.StateOk(s)
  {
    AbsorbedOk(s, |s.queue|);
    var t := Absorbed(s);
    ConsistentState(t);
    var (ns, r) := Frame(t.nodes, t.groups);
    Runs.State(ns, t.queue, r.groups)
  }

  lemma {:induction false} FrameSteps(s: Runs.State, t: Runs.State)
    requires Runs.StateOk(s) && t == Absorbed(s)
    ensures Runs.StateOk(t) && t.groups != [] && |t.groups| == |s.groups|
    ensures var u := Runs.Step(t, Runs.Schedule);
            && Runs.StateOk(u) && |u.groups| == |t.groups| && u.groups != []
            && Frame(t.nodes, t.groups) == (u.nodes, SendCm(u.groups))
            && Runs.Step(u, Runs.FrameCm) == AfterFrame(s)
            && Runs.StateOk(AfterFrame(s)) && |AfterFrame(s).groups| == |s.groups|
            && u.queue == t.queue
  {
    hide Runs.StateOk, ScheduleFrom, SendCm, Runs.AbsorbMany;
    AbsorbedOk(s, |s.queue|);
    ConsistentState(t);
    Runs.StepKeepsOk(t, Runs.Schedule);
    var u := Runs.Step(t, Runs.Schedule);
    ConsistentState(u);
    Runs.StepKeepsOk(u, Runs.FrameCm);
  }

  /** The state in which the command message of a frame is built: RNL absorbed, waiting nodes scheduled. */
  ghost function Announcing(s: Runs.State): Runs.State
    requires Runs.StateOk(s)
  {
    FrameSteps(s, Absorbed(s));
    Runs.Step(Absorbed(s), Runs.Schedule)
  }

  /** The payload is the command message of that state. */
  ghost predicate FrameBytes(b: seq<byte>, mac: W.Mac, seqNo: nat, s: Runs.State)
    requires Runs.StateOk(s)
  {
    var u := Announcing(s);
    Registered(u.nodes, SendCm(u.groups).said) && b == PayloadCm(mac, seqNo, u.nodes, u.groups)
  }

  lemma {:induction false} Channels(mac: W.Mac)
    requires W.MacOk(mac)
    ensures mac.channels <= 7
  {
  }

  /** What a frame announces. */
  ghost function FrameSaid(s: Runs.State): seq<Item>
    requires Runs.StateOk(s)
  {
    AbsorbedOk(s, |s.queue|);
    var t := Absorbed(s);
    ConsistentState(t);
    Frame(t.nodes, t.groups).1.said
  }

  /** The command message of a frame names whom the frame announces. */
  lemma {:induction false} FrameCalls(mac: W.Mac, seqNo: nat, s: Runs.State, u: Runs.State)
    requires Runs.StateOk(s) && Absorbed(s).groups != [] && u == Runs.Step(Absorbed(s), Runs.Schedule) && Runs.StateOk(u)
    requires W.MacOk(mac) && |u.groups| == mac.channels && seqNo < 0x10000
    ensures Registered(u.nodes, SendCm(u.groups).said)
    ensures SaysWhom(PayloadCm(mac, seqNo, u.nodes, u.groups), FrameSaid(s))
  {
    hide Absorbed, Runs.StateOk, Runs.AbsorbMany, Runs.Step, Consistent, SendCm, PayloadCm, CallsIn, Named, Registered, W.MacOk;
    ConsistentState(u);
    FrameSteps(s, Absorbed(s));
    CmIsFaithful(mac, seqNo, u.nodes, u.groups);
    forall a ensures CallsIn(PayloadCm(mac, seqNo, u.nodes, u.groups), a) == Named(FrameSaid(s), a) {
      CmCalls(mac, seqNo, u.nodes, u.groups, a);
    }
  }

  /** The second half of a frame: waiting nodes are scheduled and a command message is sent. */
  method ScheduleAndSend(sv: Server, p: Payload, mac: W.Mac, seqNo: nat, ghost t: Runs.State)
    requires sv.Valid() && t == sv.State() && Runs.StateOk(t) && t.groups != [] && p.Valid() && |t.groups| <= 7
    modifies p`len, p.data, sv.nodes`contents, sv.nodes.Repr, sv.schedules, sv.schedules.lists, sv.schedules.Repr
    ensures sv.Valid() && p.Valid() && fresh(sv.schedules.Repr - old(sv.schedules.Repr))
    ensures var u := Runs.Step(t, Runs.Schedule);
            && Runs.StateOk(u) && u.groups != [] && sv.State() == Runs.Step(u, Runs.FrameCm)
            && Registered(u.nodes, SendCm(u.groups).said) && p.Bytes() == PayloadCm(mac, seqNo, u.nodes, u.groups)
  {
    hide Server.Valid, Server.State, Runs.StateOk, Runs.Step, Payload.Valid, SendCm, PayloadCm, Registered;
    Runs.StepKeepsOk(t, Runs.Schedule);
    var count := sv.ScheduleStep();
    ConsistentState(sv.State());
    FrameCm(sv, p, mac, seqNo, sv.State());
  }

  /** A frame: RNL is absorbed, waiting nodes are scheduled, a command message is sent. */
  method FramePeriod(sv: Server, p: Payload, mac: W.Mac, seqNo: nat, ghost s: Runs.State)
    requires sv.Valid() && s == sv.State() && Runs.StateOk(s) && p.Valid()
    requires W.MacOk(mac) && |s.groups| == mac.channels && seqNo < 0x10000
    modifies p`len, p.data, sv.nodes, sv.nodes.Repr, sv.rnl, sv.rnl.Repr, sv.schedules, sv.schedules.lists, sv.schedules.Repr
    ensures sv.Valid() && p.Valid() && sv.State() == AfterFrame(s)
    ensures sv.rnl.Repr <= old(sv.rnl.Repr) && sv.nodes.Repr <= old(sv.nodes.Repr) + old(sv.rnl.Repr)
    ensures fresh(sv.schedules.Repr - old(sv.schedules.Repr))
    ensures p.Bytes() != [] && FrameBytes(p.Bytes(), mac, seqNo, s) && SaysWhom(p.Bytes(), FrameSaid(s))
  {
    hide Server.Valid, Server.State, Runs.StateOk, Runs.Step, Absorbed, Payload.Valid, SendCm,
         PayloadCm, SaysWhom, Registered, W.MacOk, AfterFrame, FrameSaid;
    AbsorbState(sv, s);
    sv.AbsorbAll();
    FrameSteps(s, sv.State());
    Channels(mac);
    FrameCalls(mac, seqNo, s, Runs.Step(sv.State(), Runs.Schedule));
    ghost var u := Runs.Step(sv.State(), Runs.Schedule);
    CmIsSent(mac, seqNo, u.nodes, u.groups);
    ScheduleAndSend(sv, p, mac, seqNo, sv.State());
  }

  lemma {:induction false} CmIsSent(mac: W.Mac, seqNo: nat, ns: seq<RegNode>, gs: seq<Group>)
    requires Registered(ns, SendCm(gs).said)
    ensures PayloadCm(mac, seqNo, ns, gs) != []
  {
    hide W.CmCtrl, SendCm;
  }

  lemma {:induction false} AbsorbState(sv: Server, s: Runs.State)
    requires sv.Valid() && s == sv.State() && Runs.StateOk(s)
    ensures Runs.AbsorbMany(s, |sv.rnl.contents|) == Absorbed(s)
  {
  }

  // ---------------------------------------------------------------- the data collection phase

  lemma {:induction false} AbsorbedEmpty(s: Runs.State, n: nat)
    requires Runs.StateOk(s) && n >= |s.queue|
    ensures Runs.AbsorbMany(s, n).queue == []
    ensures s.queue == [] ==> Runs.AbsorbMany(s, n) == s
    decreases n
  {
    hide Runs.StateOk, AddNode;
    if n > 0 {
      ConsistentState(s);
      Runs.StepKeepsOk(s, Runs.Absorb);
      AbsorbedEmpty(Runs.Step(s, Runs.Absorb), n - 1);
    }
  }

  /** How often the payloads of a phase name address a. */
  function AllCalls(sent: seq<seq<byte>>, a: nat): nat {
    if sent == [] then 0 else AllCalls(sent[..|sent| - 1], a) + CallsIn(sent[|sent| - 1], a)
  }

  /** In state s, with `left` frames to come, the phase still leads to h. */
  ghost predicate Collecting(s: Runs.State, left: nat, sent: seq<seq<byte>>, h: History) {
    && Runs.StateOk(s)
    && Runs.StateOk(Absorbed(s))
    && var f := Frames(Absorbed(s).nodes, Absorbed(s).groups, left);
    && f.nodes == h.nodes && f.groups == h.groups
    && forall a :: AllCalls(sent, a) + Named(f.said, a) == Named(h.said, a)
  }

  lemma {:induction false} CollectingStarts(s: Runs.State, m: nat)
    requires Runs.StateOk(s) && Runs.StateOk(Absorbed(s))
    ensures Collecting(s, m, [], Frames(Absorbed(s).nodes, Absorbed(s).groups, m))
  {
  }

  lemma {:induction false} CollectingStep(s: Runs.State, left: nat, sent: seq<seq<byte>>, h: History, b: seq<byte>)
    requires left > 0 && Collecting(s, left, sent, h) && SaysWhom(b, FrameSaid(s))
    ensures Runs.StateOk(AfterFrame(s)) && |AfterFrame(s).groups| == |s.groups| && AfterFrame(s).queue == []
    ensures Collecting(AfterFrame(s), left - 1, sent + [b], h)
  {
    hide Runs.StateOk, Frames, Frame, Named, CallsIn, Runs.AbsorbMany;
    var t, s' := Absorbed(s), AfterFrame(s);
    FrameSteps(s, t);
    ConsistentState(t);
    AbsorbedEmpty(s, |s.queue|);
    AbsorbedEmpty(s', 0);
    FramesUnfold(t.nodes, t.groups, left);
    var rest := Frames(s'.nodes, s'.groups, left - 1);
    forall a ensures AllCalls(sent + [b], a) + Named(rest.said, a) == Named(h.said, a) {
      NamedAppend(FrameSaid(s), rest.said, a);
      assert (sent + [b])[..|sent|] == sent;
    }
  }

  lemma {:induction false} CollectingEnds(s: Runs.State, sent: seq<seq<byte>>, h: History)
    requires Collecting(s, 0, sent, h)
    ensures s.queue == [] ==> s == Runs.State(h.nodes, [], h.groups)
    ensures forall a :: AllCalls(sent, a) == Named(h.said, a)
  {
    hide Runs.StateOk, Frame, CallsIn, AllCalls, Runs.AbsorbMany;
    AbsorbedEmpty(s, |s.queue|);
    forall a ensures AllCalls(sent, a) == Named(h.said, a) {
      NamedNobody(a);
    }
  }

  /** Everybody who waits for a place is named in three payloads, unless it is still waiting. */
  ghost predicate AllTold(sent: seq<seq<byte>>, t: Runs.State, h: History) {
    forall a | Lookup(t.nodes, a).Some? && Wants(Lookup(t.nodes, a).value) ::
      && Lookup(h.nodes, a).Some?
      && AllCalls(sent, a) == if Wants(Lookup(h.nodes, a).value) then 0 else 3
  }

  lemma {:induction false} DrainedTold(t: Runs.State, m: nat, sent: seq<seq<byte>>)
    requires Consistent(t.nodes, t.groups) && Outstanding(t.nodes, t.groups) < m
    requires forall a :: AllCalls(sent, a) == Named(Frames(t.nodes, t.groups, m).said, a)
    ensures var h := Frames(t.nodes, t.groups, m);
            AllTold(sent, t, h) && forall k | 0 <= k < |h.groups| :: h.groups[k].distReq == 0
  {
    hide Consistent, Frames, AllCalls, Named, Outstanding, Wants;
    CollectionDrains(t.nodes, t.groups, m, 0);
    forall a | Lookup(t.nodes, a).Some? && Wants(Lookup(t.nodes, a).value)
      ensures Lookup(Frames(t.nodes, t.groups, m).nodes, a).Some?
      ensures AllCalls(sent, a) == if Wants(Lookup(Frames(t.nodes, t.groups, m).nodes, a).value) then 0 else 3
    {
      CollectionDrains(t.nodes, t.groups, m, a);
    }
  }

  /** The state before frame i + 1 of a phase that starts in s and in which no further request arrives. */
  ghost function FrameStart(s: Runs.State, i: nat): (r: Runs.State)
    requires Runs.StateOk(s)
    ensures Runs.StateOk(r)
  {
    if i == 0 then s else
    var t := FrameStart(s, i - 1);
    FrameSteps(t, Absorbed(t));
    AfterFrame(t)
  }

  /** Payload i is the command message of frame i + 1, with that number modulo 2^16. */
  ghost predicate FramesBytes(sent: seq<seq<byte>>, mac: W.Mac, s: Runs.State)
    requires Runs.StateOk(s)
  {
    forall i | 0 <= i < |sent| :: FrameBytes(sent[i], mac, (i + 1) % 0x10000, FrameStart(s, i))
  }

  lemma {:induction false} FramesBytesAppend(sent: seq<seq<byte>>, b: seq<byte>, mac: W.Mac, s: Runs.State)
    requires Runs.StateOk(s) && FramesBytes(sent, mac, s)
    requires FrameBytes(b, mac, (|sent| + 1) % 0x10000, FrameStart(s, |sent|))
    ensures FramesBytes(sent + [b], mac, s) && AfterFrame(FrameStart(s, |sent|)) == FrameStart(s, |sent| + 1)
  {
    hide Runs.StateOk, FrameBytes, AfterFrame;
  }

  /** The frames of the phase; h is where they lead. */
  method SendFrames(sv: Server, p: Payload, mac: W.Mac, m: nat, ghost s: Runs.State, ghost h: History)
    returns (sent: seq<seq<byte>>)
    requires sv.Valid() && s == sv.State() && Runs.StateOk(s) && W.MacOk(mac) && |s.groups| == mac.channels && p.Valid()
    requires Collecting(s, m, [], h)
    modifies p`len, p.data, sv.nodes, sv.nodes.Repr, sv.rnl, sv.rnl.Repr, sv.schedules, sv.schedules.lists, sv.schedules.Repr
    ensures sv.Valid() && Runs.StateOk(sv.State()) && |sent| == m
    ensures Collecting(sv.State(), 0, sent, h) && (m > 0 ==> sv.State().queue == [])
    ensures FramesBytes(sent, mac, s) && sv.State() == FrameStart(s, m)
  {
    hide Server.Valid, Server.State, Runs.StateOk, Payload.Valid, W.MacOk, AfterFrame, FrameSaid, Collecting, SaysWhom,
         FrameBytes, FramesBytes;
    NoFrames(mac, s);
    var framePeriodCnt: nat, i: nat := 0, 0;
    sent := [];
    while i < m
      invariant |sent| == i <= m && framePeriodCnt < 0x10000 && sv.Valid() && p.Valid()
      invariant sv.rnl.Repr <= old(sv.rnl.Repr) && sv.nodes.Repr <= old(sv.nodes.Repr) + old(sv.rnl.Repr)
      invariant fresh(sv.schedules.Repr - old(sv.schedules.Repr))
      invariant Runs.StateOk(sv.State()) && |sv.State().groups| == mac.channels
      invariant Collecting(sv.State(), m - i, sent, h) && (i > 0 ==> sv.State().queue == [])
      invariant framePeriodCnt == i % 0x10000 && FramesBytes(sent, mac, s) && sv.State() == FrameStart(s, i)
    {
      ghost var now := sv.State();
      framePeriodCnt := (framePeriodCnt + 1) % 0x10000;
      FramePeriod(sv, p, mac, framePeriodCnt, now);
      CollectingStep(now, m - i, sent, h, p.Bytes());
      FramesBytesAppend(sent, p.Bytes(), mac, s);
      sent := Enqueue(sent, p);
      i := i + 1;
    }
  }

  lemma {:induction false} NoFrames(mac: W.Mac, s: Runs.State)
    requires Runs.StateOk(s)
    ensures FramesBytes([], mac, s) && FrameStart(s, 0) == s
  {
    hide Runs.StateOk, FrameBytes;
  }

  /** dataCollectionPhase over m frames in which no further request arrives: m command messages are
      sent, numbered modulo 2^16, and they name every address as often as the frames announce it.  When m is more than the
      announcements outstanding, every node that waited for a place is named in the payloads
      three times or, when there is no place for it, not at all, and nothing is owed any more. */
  method DataCollectionPhase(sv: Server, mac: W.Mac, m: nat, ghost s: Runs.State) returns (sent: seq<seq<byte>>)
    requires sv.Valid() && s == sv.State() && Runs.StateOk(s) && W.MacOk(mac) && |s.groups| == mac.channels
    modifies sv.nodes, sv.nodes.Repr, sv.rnl, sv.rnl.Repr, sv.schedules, sv.schedules.lists, sv.schedules.Repr
    ensures sv.Valid() && Runs.StateOk(sv.State()) && |sent| == m
    ensures FramesBytes(sent, mac, s) && sv.State() == FrameStart(s, m)
    ensures var t := Absorbed(s);
            && Consistent(t.nodes, t.groups)
            && var h := Frames(t.nodes, t.groups, m);
            && (m > 0 ==> sv.State() == Runs.State(h.nodes, [], h.groups))
            && (forall a :: AllCalls(sent, a) == Named(h.said, a))
            && (Outstanding(t.nodes, t.groups) < m ==>
                  AllTold(sent, t, h) && forall k | 0 <= k < |h.groups| :: h.groups[k].distReq == 0)
  {
    hide Server.Valid, Server.State, Runs.StateOk, Absorbed, Payload.Valid, W.MacOk, Collecting, Consistent, Frames, AllCalls,
         Named, AllTold, Outstanding, FramesBytes, FrameStart;
    FrameSteps(s, Absorbed(s));
    ConsistentState(Absorbed(s));
    CollectingStarts(s, m);
    ghost var h := Frames(Absorbed(s).nodes, Absorbed(s).groups, m);
    var p := new Payload();
    sent := SendFrames(sv, p, mac, m, s, h);
    CollectingEnds(sv.State(), sent, h);
    if Outstanding(Absorbed(s).nodes, Absorbed(s).groups) < m {
      DrainedTold(Absorbed(s), m, sent);
    }
  }
}
