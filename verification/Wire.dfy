/**
  * The bytes of the downlink messages: little-endian 16-bit fields and bit fields packed from the
  * least significant bit, as prepareDownlinkMsgPayload lays them out; and a reader for each message,
  * which is what an end node needs to act on it.
  */
module Wire {
  import opened Bytes
  import opened Wrappers

  const MSG_RNL := 0
  const MSG_SM := 1
  const MSG_CM := 2
  const SERVER_ADDR := 0xAEBE
  const BROADCAST_ADDR := 0xCAFE
  const SCH1_SLOTS := 15
  const MAX_IN_RNL := 20
  const MAX_IN_SM := 31
  const MAX_IN_USI := 15
  const PAYLOAD_SIZE := 256

  /** The MAC parameters that every downlink message carries; slot sizes in units of 10 ms. */
  datatype Mac = Mac(factor: nat, ul: nat, dl: nat, channels: nat)

  predicate MacOk(m: Mac) {
    m.factor < 8 && m.ul < 32 && m.dl < 32 && m.channels < 8
  }

  /** A number as a field of n values holds it. */
  function Cut(x: nat, n: nat): (r: nat)
    requires n > 0
  {
    if x < n then x else x % n
  }

  function Low(x: nat): byte {
    Cut(x, 256)
  }

  lemma {:induction false} LowIs(x: nat)
    ensures x < 256 ==> Low(x) == x
  {
  }

  function Le16(x: nat): seq<byte> {
    [Cut(x, 256), Cut(x / 256, 256)]
  }

  function FromLe16(lo: byte, hi: byte): nat {
    lo + 256 * hi
  }

  lemma {:induction false} Le16RoundTrip(x: nat)
    requires x < 0x10000
    ensures FromLe16(Le16(x)[0], Le16(x)[1]) == x
  {
  }

  /** One byte of two bit fields: 3 + 5, 4 + 4 or 5 + 3 bits, the first in the low bits. */
  function Bits35(a: nat, b: nat): byte {
    Cut(a, 8) + 8 * Cut(b, 32)
  }

  function Bits44(a: nat, b: nat): byte {
    Cut(a, 16) + 16 * Cut(b, 16)
  }

  function Bits53(a: nat, b: nat): byte {
    Cut(a, 32) + 32 * Cut(b, 8)
  }

  lemma {:induction false} Bits35RoundTrip(a: nat, b: nat)
    requires a < 8 && b < 32
    ensures Bits35(a, b) % 8 == a && Bits35(a, b) / 8 == b
  {
  }

  lemma {:induction false} Bits44RoundTrip(a: nat, b: nat)
    requires a < 16 && b < 16
    ensures Bits44(a, b) % 16 == a && Bits44(a, b) / 16 == b
  {
  }

  lemma {:induction false} Bits53RoundTrip(a: nat, b: nat)
    requires a < 32 && b < 8
    ensures Bits53(a, b) % 32 == a && Bits53(a, b) / 32 == b
  {
  }

  /** A node address as the wire carries it: 13 bits of address, 3 bits of class. */
  function AddrBytes(addr: nat, cls: nat): (b: seq<byte>)
    ensures |b| == 2
  {
    [Low(addr), Bits53(addr / 256, cls)]
  }

  function ReadAddr(lo: byte, hi: byte): (nat, nat) {
    (lo + 256 * (hi % 32), hi / 32)
  }

  lemma {:induction false} AddrRoundTrip(addr: nat, cls: nat)
    requires addr < 8192 && cls < 8
    ensures ReadAddr(AddrBytes(addr, cls)[0], AddrBytes(addr, cls)[1]) == (addr, cls)
  {
    Bits53RoundTrip(addr / 256, cls);
  }

  // ---------------------------------------------------------------- the common header

  function MacBytes(m: Mac): seq<byte> {
    [Bits35(m.factor, m.ul), Bits53(m.dl, m.channels)]
  }

  /** MAC header, source, destination and MAC parameters. */
  function Header(kind: nat, m: Mac): (h: seq<byte>)
    ensures |h| == 7
  {
    [Bits44(0, kind)] + Le16(SERVER_ADDR) + Le16(BROADCAST_ADDR) + MacBytes(m)
  }

  function ReadMac(lo: byte, hi: byte): Mac {
    Mac(lo % 8, lo / 8, hi % 32, hi / 32)
  }

  lemma {:induction false} HeaderRoundTrip(kind: nat, m: Mac)
    requires kind < 16 && MacOk(m)
    ensures Header(kind, m)[0] / 16 == kind
    ensures ReadMac(Header(kind, m)[5], Header(kind, m)[6]) == m
  {
    Bits44RoundTrip(0, kind);
    Bits35RoundTrip(m.factor, m.ul);
    Bits53RoundTrip(m.dl, m.channels);
  }

  // ---------------------------------------------------------------- schedule messages

  datatype SmNode = SmNode(addr: nat, cls: nat, demand: nat)

  /** A schedule message: consecutive nodes of one group, the first of which starts at `start`. */
  datatype Sm = Sm(count: nat, sch2: nat, relays: nat, group: nat, start: nat, nodes: seq<SmNode>)

  predicate SmNodeOk(n: SmNode) {
    n.addr < 8192 && n.cls < 8 && n.demand < 256
  }

  predicate SmOk(m: Sm) {
    && m.count < 16 && m.sch2 < 256 && m.relays < 256 && m.group < 8 && m.start < 256
    && 1 <= |m.nodes| <= MAX_IN_SM
    && forall i | 0 <= i < |m.nodes| :: SmNodeOk(m.nodes[i])
  }

  function SmNodeBytes(ns: seq<SmNode>): (b: seq<byte>)
    ensures |b| == 3 * |ns|
  {
    if ns == [] then []
    else AddrBytes(ns[0].addr, ns[0].cls) + [Low(ns[0].demand)] + SmNodeBytes(ns[1..])
  }

  /** The control bytes of a schedule message, up to the start slot. */
  function SmHead(mac: Mac, m: Sm): (b: seq<byte>)
    ensures |b| == 12
  {
    Header(MSG_SM, mac)
    + [Bits44(m.count, SCH1_SLOTS), Low(m.sch2), Low(m.relays), Bits35(m.group, |m.nodes|), Low(m.start)]
  }

  function SmBytes(mac: Mac, m: Sm): (b: seq<byte>)
    ensures |b| == 12 + 3 * |m.nodes|
  {
    SmHead(mac, m) + SmNodeBytes(m.nodes)
  }

  function ReadSmNodes(b: seq<byte>): seq<SmNode> {
    if |b| < 3 then [] else
    var (a, c) := ReadAddr(b[0], b[1]);
    [SmNode(a, c, b[2])] + ReadSmNodes(b[3..])
  }

  function ReadSm(b: seq<byte>): Option<(Mac, Sm)> {
    if |b| < 12 || b[0] / 16 != MSG_SM || |b| != 12 + 3 * (b[10] / 8) then None
    else Some((ReadMac(b[5], b[6]), Sm(b[7] % 16, b[8], b[9], b[10] % 8, b[11], ReadSmNodes(b[12..]))))
  }

  lemma {:induction false} ReadSmNodesCons(lo: byte, hi: byte, d: byte, rest: seq<byte>)
    ensures ReadSmNodes([lo, hi, d] + rest) == [SmNode(ReadAddr(lo, hi).0, ReadAddr(lo, hi).1, d)] + ReadSmNodes(rest)
  {
    assert ([lo, hi, d] + rest)[3..] == rest;
  }

  lemma {:induction false} SmNodesRoundTrip(ns: seq<SmNode>)
    requires forall i | 0 <= i < |ns| :: SmNodeOk(ns[i])
    ensures ReadSmNodes(SmNodeBytes(ns)) == ns
  {
    hide AddrBytes, ReadAddr;
    if ns != [] {
      var a := AddrBytes(ns[0].addr, ns[0].cls);
      AddrRoundTrip(ns[0].addr, ns[0].cls);
      ReadSmNodesCons(a[0], a[1], ns[0].demand, SmNodeBytes(ns[1..]));
      assert SmNodeBytes(ns) == [a[0], a[1], ns[0].demand] + SmNodeBytes(ns[1..]);
      SmNodesRoundTrip(ns[1..]);
    }
  }

  /** What the control bytes of a schedule message say. */
  ghost predicate SmHeadSays(h: seq<byte>, mac: Mac, m: Sm) {
    && |h| == 12
    && h[0] / 16 == MSG_SM && ReadMac(h[5], h[6]) == mac
    && h[7] % 16 == m.count && h[8] == m.sch2 && h[9] == m.relays
    && h[10] % 8 == m.group && h[10] / 8 == |m.nodes| && h[11] == m.start
  }

  lemma {:induction false} SmHeadRoundTrip(mac: Mac, m: Sm)
    requires MacOk(mac) && SmOk(m)
    ensures SmHeadSays(SmHead(mac, m), mac, m)
  {
    hide Header, ReadMac, Bits35, Bits44;
    HeaderRoundTrip(MSG_SM, mac);
    Bits44RoundTrip(m.count, SCH1_SLOTS);
    Bits35RoundTrip(m.group, |m.nodes|);
  }

  lemma {:induction false} ReadSmParts(h: seq<byte>, t: seq<byte>, mac: Mac, m: Sm)
    requires SmHeadSays(h, mac, m) && |t| == 3 * |m.nodes| && ReadSmNodes(t) == m.nodes
    ensures ReadSm(h + t) == Some((mac, m))
  {
    assert (h + t)[12..] == t;
  }

  /** An end node reads back exactly the schedule message the server meant to send. */
  lemma {:induction false} SmRoundTrip(mac: Mac, m: Sm)
    requires MacOk(mac) && SmOk(m)
    ensures ReadSm(SmBytes(mac, m)) == Some((mac, m))
  {
    SmHeadRoundTrip(mac, m);
    SmNodesRoundTrip(m.nodes);
    ReadSmParts(SmHead(mac, m), SmNodeBytes(m.nodes), mac, m);
  }

  // ---------------------------------------------------------------- command messages

  datatype Kid = Kid(addr: nat, cls: nat)

  /** One uplink schedule item: a node, its start slot and its children. */
  datatype Usi = Usi(group: nat, start: nat, addr: nat, cls: nat, kids: seq<Kid>)

  /** A command message: the last assigned slot of every group and the schedule items. */
  datatype Cm = Cm(seqNo: nat, lasts: seq<nat>, items: seq<Usi>)

  predicate UsiOk(u: Usi) {
    && u.group < 8 && u.start < 256 && u.addr < 8192 && u.cls < 8 && |u.kids| <= 2
    && forall i | 0 <= i < |u.kids| :: u.kids[i].addr < 8192 && u.kids[i].cls < 8
  }

  predicate CmOk(m: Cm) {
    && m.seqNo < 0x10000 && |m.items| <= MAX_IN_USI
    && (forall i | 0 <= i < |m.lasts| :: m.lasts[i] < 256)
    && (forall i | 0 <= i < |m.items| :: UsiOk(m.items[i]))
  }

  function KidBytes(ks: seq<Kid>): (b: seq<byte>)
    ensures |b| == 2 * |ks|
  {
    if ks == [] then [] else AddrBytes(ks[0].addr, ks[0].cls) + KidBytes(ks[1..])
  }

  function UsiBytes(u: Usi): (b: seq<byte>)
    ensures |b| == 4 + 2 * |u.kids|
  {
    [Bits35(u.group, |u.kids|), Low(u.start)] + AddrBytes(u.addr, u.cls) + KidBytes(u.kids)
  }

  /** The length of the items of a command message. */
  function UsisSize(us: seq<Usi>): nat {
    if us == [] then 0 else 4 + 2 * |us[0].kids| + UsisSize(us[1..])
  }

  function UsisBytes(us: seq<Usi>): (b: seq<byte>)
    ensures |b| == UsisSize(us)
  {
    if us == [] then [] else UsiBytes(us[0]) + UsisBytes(us[1..])
  }

  function LastBytes(ls: seq<nat>): (b: seq<byte>)
    ensures |b| == |ls|
  {
    if ls == [] then [] else [Low(ls[0])] + LastBytes(ls[1..])
  }

  /** The cmCtrl byte: a flag that items follow and their number. */
  function CmCtrl(n: nat): byte {
    Low((if n > 0 then 1 else 0) + 2 * Cut(n, 16))
  }

  function CmHead(mac: Mac, m: Cm): (b: seq<byte>)
    ensures |b| == 10 + |m.lasts|
  {
    Header(MSG_CM, mac) + Le16(m.seqNo) + LastBytes(m.lasts) + [CmCtrl(|m.items|)]
  }

  function CmBytes(mac: Mac, m: Cm): (b: seq<byte>)
    ensures |b| == 10 + |m.lasts| + UsisSize(m.items)
  {
    CmHead(mac, m) + UsisBytes(m.items)
  }

  function ReadKids(b: seq<byte>, n: nat): Option<(seq<Kid>, seq<byte>)> {
    if n == 0 then Some(([], b))
    else if |b| < 2 then None
    else
      var (a, c) := ReadAddr(b[0], b[1]);
      match ReadKids(b[2..], n - 1)
      case None => None
      case Some((ks, rest)) => Some(([Kid(a, c)] + ks, rest))
  }

  function ReadUsis(b: seq<byte>, n: nat): Option<(seq<Usi>, seq<byte>)>
    decreases n
  {
    if n == 0 then Some(([], b))
    else if |b| < 4 then None
    else
      var (a, c) := ReadAddr(b[2], b[3]);
      match ReadKids(b[4..], b[0] / 8)
      case None => None
      case Some((ks, r)) =>
        match ReadUsis(r, n - 1)
        case None => None
        case Some((us, rest)) => Some(([Usi(b[0] % 8, b[1], a, c, ks)] + us, rest))
  }

  /** The receiver knows the number of groups: it is the number of channels in the header. */
  function ReadCm(b: seq<byte>): Option<(Mac, Cm)> {
    if |b| < 10 || b[0] / 16 != MSG_CM then None else
    var mac := ReadMac(b[5], b[6]);
    if |b| < 10 + mac.channels then None else
    match ReadUsis(b[10 + mac.channels..], b[9 + mac.channels] / 2 % 16)
    case None => None
    case Some((us, rest)) =>
      if rest != [] then None else Some((mac, Cm(FromLe16(b[7], b[8]), ReadLasts(b[9..9 + mac.channels]), us)))
  }

  function ReadLasts(b: seq<byte>): seq<nat> {
    if b == [] then [] else [b[0]] + ReadLasts(b[1..])
  }

  lemma {:induction false} LastsRoundTrip(ls: seq<nat>)
    requires forall i | 0 <= i < |ls| :: ls[i] < 256
    ensures ReadLasts(LastBytes(ls)) == ls
  {
    if ls != [] { LastsRoundTrip(ls[1..]); }
  }

  lemma {:induction false} KidsRoundTrip(ks: seq<Kid>, rest: seq<byte>)
    requires forall i | 0 <= i < |ks| :: ks[i].addr < 8192 && ks[i].cls < 8
    ensures ReadKids(KidBytes(ks) + rest, |ks|) == Some((ks, rest))
  {
    hide AddrBytes, ReadAddr;
    var b := KidBytes(ks) + rest;
    if ks == [] {
      assert b == rest;
    } else {
      AddrRoundTrip(ks[0].addr, ks[0].cls);
      KidsRoundTrip(ks[1..], rest);
      assert b[2..] == KidBytes(ks[1..]) + rest;
      assert [ks[0]] + ks[1..] == ks;
    }
  }

  lemma {:induction false} ReadUsiCons(c: byte, start: byte, lo: byte, hi: byte, kids: seq<byte>, u: Usi, tail: seq<byte>, n: nat)
    requires u.group == c % 8 && u.start == start && (u.addr, u.cls) == ReadAddr(lo, hi)
    requires ReadKids(kids + tail, c / 8) == Some((u.kids, tail))
    requires n > 0 && ReadUsis(tail, n - 1).Some?
    ensures ReadUsis([c, start, lo, hi] + kids + tail, n)
            == Some(([u] + ReadUsis(tail, n - 1).value.0, ReadUsis(tail, n - 1).value.1))
  {
    var b := [c, start, lo, hi] + kids + tail;
    assert b[4..] == kids + tail;
    assert b[0] == c && b[1] == start && b[2] == lo && b[3] == hi;
  }

  lemma {:induction false} NoUsis(rest: seq<byte>)
    ensures ReadUsis(UsisBytes([]) + rest, 0) == Some(([], rest))
  {
    assert UsisBytes([]) + rest == rest;
  }

  lemma {:induction false} UsisRoundTrip(us: seq<Usi>, rest: seq<byte>)
    requires forall i | 0 <= i < |us| :: UsiOk(us[i])
    ensures ReadUsis(UsisBytes(us) + rest, |us|) == Some((us, rest))
  {
    hide ReadUsis, UsisBytes, ReadKids, KidBytes, AddrBytes, ReadAddr, Bits35;
    if us == [] {
      NoUsis(rest);
    } else {
      var u, tail := us[0], UsisBytes(us[1..]) + rest;
      var a, kids := AddrBytes(u.addr, u.cls), KidBytes(u.kids);
      var c := Bits35(u.group, |u.kids|);
      AddrRoundTrip(u.addr, u.cls);
      Bits35RoundTrip(u.group, |u.kids|);
      KidsRoundTrip(u.kids, tail);
      UsisRoundTrip(us[1..], rest);
      ReadUsiCons(c, u.start, a[0], a[1], kids, u, tail, |us|);
      UsiSplit(us, c, a, rest);
      assert [u] + us[1..] == us;
    }
  }

  lemma {:induction false} UsiSplit(us: seq<Usi>, c: byte, a: seq<byte>, rest: seq<byte>)
    requires us != [] && us[0].start < 256
    requires a == AddrBytes(us[0].addr, us[0].cls) && c == Bits35(us[0].group, |us[0].kids|)
    ensures UsisBytes(us) + rest == [c, us[0].start, a[0], a[1]] + KidBytes(us[0].kids) + (UsisBytes(us[1..]) + rest)
  {
    hide Low, Bits35, AddrBytes, KidBytes, UsisSize;
    LowIs(us[0].start);
    var head, k, t := [c, us[0].start], KidBytes(us[0].kids), UsisBytes(us[1..]);
    assert head + a == [c, us[0].start, a[0], a[1]];
    Regroup(head + a, k, t, rest);
  }

  lemma {:induction false} Regroup(h: seq<byte>, k: seq<byte>, t: seq<byte>, rest: seq<byte>)
    ensures ((h + k) + t) + rest == (h + k) + (t + rest)
  {
  }

  /** What the bytes in front of the items of a command message say. */
  ghost predicate CmHeadSays(h: seq<byte>, mac: Mac, m: Cm) {
    var n := mac.channels;
    && |h| == 10 + n
    && h[0] / 16 == MSG_CM && ReadMac(h[5], h[6]) == mac
    && FromLe16(h[7], h[8]) == m.seqNo
    && ReadLasts(h[9..9 + n]) == m.lasts
    && h[9 + n] / 2 % 16 == |m.items|
  }

  lemma {:induction false} CmHeadRoundTrip(mac: Mac, m: Cm)
    requires MacOk(mac) && CmOk(m) && |m.lasts| == mac.channels
    ensures CmHeadSays(CmHead(mac, m), mac, m)
  {
    var h, n := CmHead(mac, m), mac.channels;
    HeaderRoundTrip(MSG_CM, mac);
    Le16RoundTrip(m.seqNo);
    LastsRoundTrip(m.lasts);
    assert h[9..9 + n] == LastBytes(m.lasts);
    assert h[9 + n] == CmCtrl(|m.items|);
    CmCtrlRoundTrip(|m.items|);
  }

  lemma {:induction false} CmCtrlRoundTrip(n: nat)
    requires n < 16
    ensures CmCtrl(n) / 2 % 16 == n && (CmCtrl(n) % 2 == 1 <==> n > 0)
  {
  }

  lemma {:induction false} ReadCmParts(h: seq<byte>, t: seq<byte>, mac: Mac, m: Cm)
    requires CmHeadSays(h, mac, m) && ReadUsis(t, |m.items|) == Some((m.items, []))
    ensures ReadCm(h + t) == Some((mac, m))
  {
    var b, n := h + t, mac.channels;
    assert b[10 + n..] == t && b[9..9 + n] == h[9..9 + n] && b[9 + n] == h[9 + n];
  }

  /** An end node reads back exactly the command message the server meant to send; every child count
      is the number of children written behind it, or the reader would lose its place. */
  lemma {:induction false} CmRoundTrip(mac: Mac, m: Cm)
    requires MacOk(mac) && CmOk(m) && |m.lasts| == mac.channels
    ensures ReadCm(CmBytes(mac, m)) == Some((mac, m))
  {
    CmHeadRoundTrip(mac, m);
    UsisRoundTrip(m.items, []);
    assert UsisBytes(m.items) + [] == UsisBytes(m.items);
    ReadCmParts(CmHead(mac, m), UsisBytes(m.items), mac, m);
  }

  /** At most eight bytes for an item. */
  lemma {:induction false} UsisLength(us: seq<Usi>)
    requires forall i | 0 <= i < |us| :: |us[i].kids| <= 2
    ensures UsisSize(us) <= 8 * |us|
  {
    if us != [] { UsisLength(us[1..]); }
  }

  // ---------------------------------------------------------------- registration lists

  /** A registration node list: the addresses of newly registered nodes. */
  datatype Rnl = Rnl(seqNo: nat, ready: bool, added: seq<Kid>)

  predicate RnlOk(m: Rnl) {
    && m.seqNo < 0x10000 && |m.added| <= MAX_IN_RNL
    && forall i | 0 <= i < |m.added| :: m.added[i].addr < 8192 && m.added[i].cls < 8
  }

  /** The rnlCtrl byte: the network-ready flag and the number of nodes. */
  function RnlCtrl(ready: bool, n: nat): byte {
    (if ready then 1 else 0) + 2 * Cut(n, 128)
  }

  lemma {:induction false} RnlCtrlRoundTrip(ready: bool, n: nat)
    requires n < 128
    ensures RnlCtrl(ready, n) / 2 == n && (RnlCtrl(ready, n) % 2 == 1 <==> ready)
  {
  }

  function RnlHead(mac: Mac, m: Rnl): (b: seq<byte>)
    ensures |b| == 10
  {
    Header(MSG_RNL, mac) + Le16(m.seqNo) + [RnlCtrl(m.ready, |m.added|)]
  }

  function RnlBytes(mac: Mac, m: Rnl): (b: seq<byte>)
    ensures |b| == 10 + 2 * |m.added|
  {
    RnlHead(mac, m) + KidBytes(m.added)
  }

  function ReadRnl(b: seq<byte>): Option<(Mac, Rnl)> {
    if |b| < 10 || b[0] / 16 != MSG_RNL then None else
    match ReadKids(b[10..], b[9] / 2)
    case None => None
    case Some((ks, rest)) =>
      if rest != [] then None else Some((ReadMac(b[5], b[6]), Rnl(FromLe16(b[7], b[8]), b[9] % 2 == 1, ks)))
  }

  ghost predicate RnlHeadSays(h: seq<byte>, mac: Mac, m: Rnl) {
    && |h| == 10
    && h[0] / 16 == MSG_RNL && ReadMac(h[5], h[6]) == mac
    && FromLe16(h[7], h[8]) == m.seqNo
    && h[9] / 2 == |m.added| && (h[9] % 2 == 1 <==> m.ready)
  }

  lemma {:induction false} RnlHeadRoundTrip(mac: Mac, m: Rnl)
    requires MacOk(mac) && RnlOk(m)
    ensures RnlHeadSays(RnlHead(mac, m), mac, m)
  {
    HeaderRoundTrip(MSG_RNL, mac);
    Le16RoundTrip(m.seqNo);
    RnlCtrlRoundTrip(m.ready, |m.added|);
  }

  lemma {:induction false} RnlRoundTrip(mac: Mac, m: Rnl)
    requires MacOk(mac) && RnlOk(m)
    ensures ReadRnl(RnlBytes(mac, m)) == Some((mac, m))
  {
    RnlHeadRoundTrip(mac, m);
    KidsRoundTrip(m.added, []);
    assert KidBytes(m.added) + [] == KidBytes(m.added);
    ReadRnlParts(RnlHead(mac, m), KidBytes(m.added), mac, m);
  }

  lemma {:induction false} ReadRnlParts(h: seq<byte>, t: seq<byte>, mac: Mac, m: Rnl)
    requires RnlHeadSays(h, mac, m) && ReadKids(t, |m.added|) == Some((m.added, []))
    ensures ReadRnl(h + t) == Some((mac, m))
  {
    assert (h + t)[10..] == t;
  }
}
