/**
  * The downlink messages against their declarations: rtlora_mac.c packs every message out of bit fields, the first field
  * in the least significant bits.  A message is the bits of its fields, one after the other, whatever the values are; a
  * field keeps the low bits of a value that does not fit.
  */
module Layout {
  import opened Bytes
  import opened Wire

  /** A bit field and what is assigned to it. */
  datatype Field = Field(width: nat, value: nat)

  /** The n low bits of a number, from the least significant. */
  function Bools(x: nat, n: nat): (b: seq<bool>)
    ensures |b| == n
  {
    if n == 0 then [] else [x % 2 == 1] + Bools(x / 2, n - 1)
  }

  /** The bits of the bytes, each from its least significant. */
  function BitsOf(s: seq<byte>): seq<bool> {
    if s == [] then [] else Bools(s[0], 8) + BitsOf(s[1..])
  }

  /** The bits of the fields in the order of their declaration. */
  function Pack(fs: seq<Field>): seq<bool> {
    if fs == [] then [] else Bools(fs[0].value, fs[0].width) + Pack(fs[1..])
  }

  predicate Packs(s: seq<byte>, fs: seq<Field>) {
    BitsOf(s) == Pack(fs)
  }

  // ---------------------------------------------------------------- the declarations

  function HeaderFields(kind: nat, m: Mac): seq<Field> {
    [Field(4, 0), Field(4, kind), Field(16, 0xAEBE), Field(16, 0xCAFE),
     Field(3, m.factor), Field(5, m.ul), Field(5, m.dl), Field(3, m.channels)]
  }

  function AddrFields(addr: nat, cls: nat): seq<Field> {
    [Field(13, addr), Field(3, cls)]
  }

  function NodeFields(ns: seq<SmNode>): seq<Field> {
    if ns == [] then [] else AddrFields(ns[0].addr, ns[0].cls) + [Field(8, ns[0].demand)] + NodeFields(ns[1..])
  }

  function SmFields(mac: Mac, m: Sm): seq<Field> {
    HeaderFields(1, mac)
    + [Field(4, m.count), Field(4, 15), Field(8, m.sch2), Field(8, m.relays), Field(3, m.group), Field(5, |m.nodes|),
       Field(8, m.start)]
    + NodeFields(m.nodes)
  }

  function KidFields(ks: seq<Kid>): seq<Field> {
    if ks == [] then [] else AddrFields(ks[0].addr, ks[0].cls) + KidFields(ks[1..])
  }

  function ItemFields(u: Usi): seq<Field> {
    [Field(3, u.group), Field(5, |u.kids|), Field(8, u.start)] + AddrFields(u.addr, u.cls) + KidFields(u.kids)
  }

  function ItemsFields(us: seq<Usi>): seq<Field> {
    if us == [] then [] else ItemFields(us[0]) + ItemsFields(us[1..])
  }

  function LastFields(ls: seq<nat>): seq<Field> {
    if ls == [] then [] else [Field(8, ls[0])] + LastFields(ls[1..])
  }

  function CmFields(mac: Mac, m: Cm): seq<Field> {
    HeaderFields(2, mac) + [Field(16, m.seqNo)] + LastFields(m.lasts)
    + [Field(1, if m.items == [] then 0 else 1), Field(4, |m.items|), Field(3, 0)]
    + ItemsFields(m.items)
  }

  function RnlFields(mac: Mac, m: Rnl): seq<Field> {
    HeaderFields(0, mac) + [Field(16, m.seqNo), Field(1, if m.ready then 1 else 0), Field(7, |m.added|)]
    + KidFields(m.added)
  }

  // ---------------------------------------------------------------- numbers as bits

  function Pow2(n: nat): (r: nat)
    ensures r > 0
  {
    if n == 0 then 1 else 2 * Pow2(n - 1)
  }

  lemma {:induction false} Halves(a: nat, q: nat)
    ensures (a + 2 * q) % 2 == a % 2 && (a + 2 * q) / 2 == a / 2 + q
  {
  }

  lemma {:induction false} Doubled(n: nat, b: nat)
    requires n > 0
    ensures Pow2(n) * b == 2 * (Pow2(n - 1) * b) >= 0
  {
  }

  lemma {:induction false} Joined(a: nat, b: nat, n: nat, m: nat)
    requires a < Pow2(n)
    ensures Pow2(n) * b >= 0 && Bools(a + Pow2(n) * b, n + m) == Bools(a, n) + Bools(b, m)
  {
    hide Bools;
    if n == 0 {
      NoBits(a);
      assert a + Pow2(0) * b == b;
    } else {
      var q := Pow2(n - 1) * b;
      Doubled(n, b);
      Halves(a, q);
      Joined(a / 2, b, n - 1, m);
      FirstBit(a + 2 * q, n + m);
      FirstBit(a, n);
    }
  }

  lemma {:induction false} FirstBit(x: nat, n: nat)
    requires n > 0
    ensures Bools(x, n) == [x % 2 == 1] + Bools(x / 2, n - 1)
  {
  }

  lemma {:induction false} DivMod(x: nat, p: nat)
    requires p > 0
    ensures x % p < p && x == x % p + p * (x / p) && x / p >= 0
  {
  }

  lemma {:induction false} CutBits(x: nat, n: nat)
    ensures Bools(Cut(x, Pow2(n)), n) == Bools(x, n) && Cut(x, Pow2(n)) < Pow2(n)
  {
    hide Bools, Pow2;
    var p := Pow2(n);
    DivMod(x, p);
    Joined(x % p, x / p, n, 0);
    NoBits(x / p);
  }

  lemma {:induction false} NoBits(x: nat)
    ensures Bools(x, 0) == []
  {
  }

  /** A number is its low byte and the rest. */
  lemma {:induction false} Split(x: nat, m: nat)
    ensures Bools(x, 8 + m) == Bools(x, 8) + Bools(x / 256, m)
  {
    hide Bools, Pow2;
    Powers();
    DivMod(x, 256);
    Joined(x % 256, x / 256, 8, m);
    CutBits(x, 8);
  }

  /** A byte of two fields. */
  lemma {:induction false} TwoFields(a: nat, b: nat, n: nat, m: nat)
    requires n + m == 8
    ensures Bools(Cut(a, Pow2(n)) + Pow2(n) * Cut(b, Pow2(m)), 8) == Bools(a, n) + Bools(b, m)
  {
    hide Bools, Cut;
    CutBits(a, n);
    CutBits(b, m);
    Joined(Cut(a, Pow2(n)), Cut(b, Pow2(m)), n, m);
  }

  lemma {:induction false} Powers()
    ensures Pow2(1) == 2 && Pow2(3) == 8 && Pow2(4) == 16 && Pow2(5) == 32 && Pow2(7) == 128 && Pow2(8) == 256
  {
    assert Pow2(2) == 4;
    assert Pow2(3) == 8;
    assert Pow2(4) == 16;
    assert Pow2(5) == 32;
    assert Pow2(6) == 64;
    assert Pow2(7) == 128;
  }

  // ---------------------------------------------------------------- pieces of a message

  lemma {:induction false} BitsAppend(s: seq<byte>, t: seq<byte>)
    ensures BitsOf(s + t) == BitsOf(s) + BitsOf(t)
  {
    if s == [] {
      assert s + t == t;
    } else {
      assert (s + t)[1..] == s[1..] + t;
      BitsAppend(s[1..], t);
    }
  }

  lemma {:induction false} PackAppend(fs: seq<Field>, gs: seq<Field>)
    ensures Pack(fs + gs) == Pack(fs) + Pack(gs)
  {
    if fs == [] {
      assert fs + gs == gs;
    } else {
      assert (fs + gs)[1..] == fs[1..] + gs;
      PackAppend(fs[1..], gs);
    }
  }

  lemma {:induction false} Append(s: seq<byte>, fs: seq<Field>, t: seq<byte>, gs: seq<Field>)
    requires Packs(s, fs) && Packs(t, gs)
    ensures Packs(s + t, fs + gs)
  {
    hide BitsOf, Pack;
    BitsAppend(s, t);
    PackAppend(fs, gs);
  }

  lemma {:induction false} OneByte(x: byte)
    ensures BitsOf([x]) == Bools(x, 8)
  {
    hide Bools;
    assert [x][1..] == [];
  }

  lemma {:induction false} OneField(x: byte, f: Field)
    requires Bools(x, 8) == Bools(f.value, f.width)
    ensures Packs([x], [f])
  {
    hide Bools;
    OneByte(x);
    OnePacked(f);
  }

  lemma {:induction false} PairOfFields(x: byte, f: Field, g: Field)
    requires Bools(x, 8) == Bools(f.value, f.width) + Bools(g.value, g.width)
    ensures Packs([x], [f, g])
  {
    hide Bools;
    OneByte(x);
    OnePacked(g);
    assert [f, g][1..] == [g];
  }

  lemma {:induction false} OnePacked(f: Field)
    ensures Pack([f]) == Bools(f.value, f.width)
  {
    hide Bools;
    assert [f][1..] == [];
  }

  lemma {:induction false} LowPacks(x: nat)
    ensures Packs([Low(x)], [Field(8, x)])
  {
    hide Bools, Packs;
    Powers();
    CutBits(x, 8);
    OneField(Low(x), Field(8, x));
  }

  lemma {:induction false} Bits35Packs(a: nat, b: nat)
    ensures Packs([Bits35(a, b)], [Field(3, a), Field(5, b)])
  {
    hide Bools, Packs, Cut;
    Powers();
    TwoFields(a, b, 3, 5);
    PairOfFields(Bits35(a, b), Field(3, a), Field(5, b));
  }

  lemma {:induction false} Bits44Packs(a: nat, b: nat)
    ensures Packs([Bits44(a, b)], [Field(4, a), Field(4, b)])
  {
    hide Bools, Packs, Cut;
    Powers();
    TwoFields(a, b, 4, 4);
    PairOfFields(Bits44(a, b), Field(4, a), Field(4, b));
  }

  lemma {:induction false} Bits53Packs(a: nat, b: nat)
    ensures Packs([Bits53(a, b)], [Field(5, a), Field(3, b)])
  {
    hide Bools, Packs, Cut;
    Powers();
    TwoFields(a, b, 5, 3);
    PairOfFields(Bits53(a, b), Field(5, a), Field(3, b));
  }

  /** A field that goes on in a second byte. */
  lemma {:induction false} Wider(s: seq<byte>, x: nat, m: nat, gs: seq<Field>)
    requires Packs(s, [Field(8, x), Field(m, x / 256)] + gs)
    ensures Packs(s, [Field(8 + m, x)] + gs)
  {
    hide Bools, BitsOf;
    Powers();
    Split(x, m);
    PackAppend([Field(8, x), Field(m, x / 256)], gs);
    PackAppend([Field(8 + m, x)], gs);
    OnePacked(Field(8 + m, x));
    OnePacked(Field(8, x));
    OnePacked(Field(m, x / 256));
    PackAppend([Field(8, x)], [Field(m, x / 256)]);
    assert [Field(8, x)] + [Field(m, x / 256)] == [Field(8, x), Field(m, x / 256)];
  }

  lemma {:induction false} Le16Packs(x: nat)
    ensures Packs(Le16(x), [Field(16, x)])
  {
    hide Packs;
    LowPacks(x);
    LowPacks(x / 256);
    Append([Low(x)], [Field(8, x)], [Low(x / 256)], [Field(8, x / 256)]);
    assert [Low(x)] + [Low(x / 256)] == Le16(x);
    assert [Field(8, x)] + [Field(8, x / 256)] == [Field(8, x), Field(8, x / 256)] + [];
    Wider(Le16(x), x, 8, []);
    assert [Field(16, x)] + [] == [Field(16, x)];
  }

  lemma {:induction false} AddrPacks(addr: nat, cls: nat)
    ensures Packs(AddrBytes(addr, cls), AddrFields(addr, cls))
  {
    hide Packs, Low, Bits53;
    LowPacks(addr);
    Bits53Packs(addr / 256, cls);
    Append([Low(addr)], [Field(8, addr)], [Bits53(addr / 256, cls)], [Field(5, addr / 256), Field(3, cls)]);
    assert [Low(addr)] + [Bits53(addr / 256, cls)] == AddrBytes(addr, cls);
    assert [Field(8, addr)] + [Field(5, addr / 256), Field(3, cls)] == [Field(8, addr), Field(5, addr / 256)] + [Field(3, cls)];
    Wider(AddrBytes(addr, cls), addr, 5, [Field(3, cls)]);
    assert [Field(13, addr)] + [Field(3, cls)] == AddrFields(addr, cls);
  }

  lemma {:induction false} HeaderPacks(kind: nat, m: Mac)
    ensures Packs(Header(kind, m), HeaderFields(kind, m))
  {
    hide Packs, Le16, Bits35, Bits44, Bits53;
    Bits44Packs(0, kind);
    Le16Packs(0xAEBE);
    Le16Packs(0xCAFE);
    Bits35Packs(m.factor, m.ul);
    Bits53Packs(m.dl, m.channels);
    var s, fs := [Bits44(0, kind)], [Field(4, 0), Field(4, kind)];
    Append(s, fs, Le16(0xAEBE), [Field(16, 0xAEBE)]);
    s, fs := s + Le16(0xAEBE), fs + [Field(16, 0xAEBE)];
    Append(s, fs, Le16(0xCAFE), [Field(16, 0xCAFE)]);
    s, fs := s + Le16(0xCAFE), fs + [Field(16, 0xCAFE)];
    Append([Bits35(m.factor, m.ul)], [Field(3, m.factor), Field(5, m.ul)],
           [Bits53(m.dl, m.channels)], [Field(5, m.dl), Field(3, m.channels)]);
    assert [Bits35(m.factor, m.ul)] + [Bits53(m.dl, m.channels)] == MacBytes(m);
    var gs := [Field(3, m.factor), Field(5, m.ul)] + [Field(5, m.dl), Field(3, m.channels)];
    Append(s, fs, MacBytes(m), gs);
    assert fs + gs == HeaderFields(kind, m);
  }

  // ---------------------------------------------------------------- the messages

  lemma {:induction false} NothingPacks()
    ensures Packs([], [])
  {
  }

  lemma {:induction false} NodesPack(ns: seq<SmNode>)
    ensures Packs(SmNodeBytes(ns), NodeFields(ns))
  {
    hide Packs, AddrBytes, AddrFields, Low;
    if ns == [] {
      NothingPacks();
    } else {
      var a, f := AddrBytes(ns[0].addr, ns[0].cls), AddrFields(ns[0].addr, ns[0].cls);
      AddrPacks(ns[0].addr, ns[0].cls);
      LowPacks(ns[0].demand);
      Append(a, f, [Low(ns[0].demand)], [Field(8, ns[0].demand)]);
      NodesPack(ns[1..]);
      Append(a + [Low(ns[0].demand)], f + [Field(8, ns[0].demand)], SmNodeBytes(ns[1..]), NodeFields(ns[1..]));
    }
  }

  lemma {:induction false} SmControlPacks(m: Sm)
    ensures Packs([Bits44(m.count, SCH1_SLOTS), Low(m.sch2), Low(m.relays), Bits35(m.group, |m.nodes|), Low(m.start)],
                  [Field(4, m.count), Field(4, 15), Field(8, m.sch2), Field(8, m.relays), Field(3, m.group),
                   Field(5, |m.nodes|), Field(8, m.start)])
  {
    hide Packs, Bits44, Bits35, Low;
    Bits44Packs(m.count, SCH1_SLOTS);
    LowPacks(m.sch2);
    LowPacks(m.relays);
    Bits35Packs(m.group, |m.nodes|);
    LowPacks(m.start);
    var s, fs := [Bits44(m.count, SCH1_SLOTS)], [Field(4, m.count), Field(4, 15)];
    Append(s, fs, [Low(m.sch2)], [Field(8, m.sch2)]);
    Append(s + [Low(m.sch2)], fs + [Field(8, m.sch2)], [Low(m.relays)], [Field(8, m.relays)]);
    var t, gs := [Bits35(m.group, |m.nodes|)], [Field(3, m.group), Field(5, |m.nodes|)];
    Append(t, gs, [Low(m.start)], [Field(8, m.start)]);
    Append(s + [Low(m.sch2)] + [Low(m.relays)], fs + [Field(8, m.sch2)] + [Field(8, m.relays)],
           t + [Low(m.start)], gs + [Field(8, m.start)]);
    assert s + [Low(m.sch2)] + [Low(m.relays)] + (t + [Low(m.start)])
           == [Bits44(m.count, SCH1_SLOTS), Low(m.sch2), Low(m.relays), Bits35(m.group, |m.nodes|), Low(m.start)];
    assert fs + [Field(8, m.sch2)] + [Field(8, m.relays)] + (gs + [Field(8, m.start)])
           == [Field(4, m.count), Field(4, 15), Field(8, m.sch2), Field(8, m.relays), Field(3, m.group),
               Field(5, |m.nodes|), Field(8, m.start)];
  }

  /** The bytes of a schedule message. */
  lemma {:induction false} SmLayout(mac: Mac, m: Sm)
    ensures BitsOf(SmBytes(mac, m)) == Pack(SmFields(mac, m))
  {
    hide BitsOf, Pack, Header, HeaderFields, SmNodeBytes, NodeFields, Bits44, Bits35, Low;
    HeaderPacks(MSG_SM, mac);
    SmControlPacks(m);
    NodesPack(m.nodes);
    var s, fs := Header(MSG_SM, mac), HeaderFields(1, mac);
    var t := [Bits44(m.count, SCH1_SLOTS), Low(m.sch2), Low(m.relays), Bits35(m.group, |m.nodes|), Low(m.start)];
    var gs := [Field(4, m.count), Field(4, 15), Field(8, m.sch2), Field(8, m.relays), Field(3, m.group),
               Field(5, |m.nodes|), Field(8, m.start)];
    Append(s, fs, t, gs);
    Append(s + t, fs + gs, SmNodeBytes(m.nodes), NodeFields(m.nodes));
  }

  lemma {:induction false} KidsPack(ks: seq<Kid>)
    ensures Packs(KidBytes(ks), KidFields(ks))
  {
    hide Packs, AddrBytes, AddrFields;
    if ks == [] {
      NothingPacks();
    } else {
      AddrPacks(ks[0].addr, ks[0].cls);
      KidsPack(ks[1..]);
      Append(AddrBytes(ks[0].addr, ks[0].cls), AddrFields(ks[0].addr, ks[0].cls), KidBytes(ks[1..]), KidFields(ks[1..]));
    }
  }

  lemma {:induction false} ItemPacks(u: Usi)
    ensures Packs(UsiBytes(u), ItemFields(u))
  {
    hide Packs, AddrBytes, AddrFields, KidBytes, KidFields, Bits35, Low;
    Bits35Packs(u.group, |u.kids|);
    LowPacks(u.start);
    AddrPacks(u.addr, u.cls);
    KidsPack(u.kids);
    var s, fs := [Bits35(u.group, |u.kids|)], [Field(3, u.group), Field(5, |u.kids|)];
    Append(s, fs, [Low(u.start)], [Field(8, u.start)]);
    assert s + [Low(u.start)] == [Bits35(u.group, |u.kids|), Low(u.start)];
    assert fs + [Field(8, u.start)] == [Field(3, u.group), Field(5, |u.kids|), Field(8, u.start)];
    s, fs := s + [Low(u.start)], fs + [Field(8, u.start)];
    Append(s, fs, AddrBytes(u.addr, u.cls), AddrFields(u.addr, u.cls));
    Append(s + AddrBytes(u.addr, u.cls), fs + AddrFields(u.addr, u.cls), KidBytes(u.kids), KidFields(u.kids));
  }

  lemma {:induction false} ItemsPack(us: seq<Usi>)
    ensures Packs(UsisBytes(us), ItemsFields(us))
  {
    hide Packs, UsiBytes, ItemFields;
    if us == [] {
      NothingPacks();
    } else {
      ItemPacks(us[0]);
      ItemsPack(us[1..]);
      Append(UsiBytes(us[0]), ItemFields(us[0]), UsisBytes(us[1..]), ItemsFields(us[1..]));
    }
  }

  lemma {:induction false} LastsPack(ls: seq<nat>)
    ensures Packs(LastBytes(ls), LastFields(ls))
  {
    hide Packs, Low;
    if ls == [] {
      NothingPacks();
    } else {
      LowPacks(ls[0]);
      LastsPack(ls[1..]);
      Append([Low(ls[0])], [Field(8, ls[0])], LastBytes(ls[1..]), LastFields(ls[1..]));
    }
  }

  /** cmCtrl: one bit, four bits, three bits that are zero. */
  lemma {:induction false} CmCtrlPacks(n: nat)
    ensures Packs([CmCtrl(n)], [Field(1, if n == 0 then 0 else 1), Field(4, n), Field(3, 0)])
  {
    hide Bools, Packs;
    Powers();
    var flag, c := if n == 0 then 0 else 1, Cut(n, 16);
    CutBits(n, 4);
    Joined(flag, c, 1, 7);
    Joined(c, 0, 4, 3);
    ThreeFields(CmCtrl(n), Field(1, flag), Field(4, n), Field(3, 0));
  }

  lemma {:induction false} ThreeFields(x: byte, f: Field, g: Field, h: Field)
    requires Bools(x, 8) == Bools(f.value, f.width) + (Bools(g.value, g.width) + Bools(h.value, h.width))
    ensures Packs([x], [f, g, h])
  {
    hide Bools;
    OneByte(x);
    OnePacked(h);
    assert [f, g, h][1..] == [g, h] && [g, h][1..] == [h];
    assert Pack([g, h]) == Bools(g.value, g.width) + Pack([h]);
  }

  lemma {:induction false} RnlCtrlPacks(ready: bool, n: nat)
    ensures Packs([RnlCtrl(ready, n)], [Field(1, if ready then 1 else 0), Field(7, n)])
  {
    hide Bools, Packs;
    Powers();
    var flag := if ready then 1 else 0;
    CutBits(n, 7);
    Joined(flag, Cut(n, 128), 1, 7);
    PairOfFields(RnlCtrl(ready, n), Field(1, flag), Field(7, n));
  }

  /** The bytes of a command message. */
  lemma {:induction false} CmLayout(mac: Mac, m: Cm)
    ensures BitsOf(CmBytes(mac, m)) == Pack(CmFields(mac, m))
  {
    hide BitsOf, Pack, Header, HeaderFields, Le16, LastBytes, LastFields, CmCtrl, UsisBytes, UsisSize, ItemsFields;
    HeaderPacks(MSG_CM, mac);
    Le16Packs(m.seqNo);
    LastsPack(m.lasts);
    CmCtrlPacks(|m.items|);
    ItemsPack(m.items);
    var s, fs := Header(MSG_CM, mac), HeaderFields(2, mac);
    Append(s, fs, Le16(m.seqNo), [Field(16, m.seqNo)]);
    s, fs := s + Le16(m.seqNo), fs + [Field(16, m.seqNo)];
    Append(s, fs, LastBytes(m.lasts), LastFields(m.lasts));
    s, fs := s + LastBytes(m.lasts), fs + LastFields(m.lasts);
    var gs := [Field(1, if m.items == [] then 0 else 1), Field(4, |m.items|), Field(3, 0)];
    Append(s, fs, [CmCtrl(|m.items|)], gs);
    Append(s + [CmCtrl(|m.items|)], fs + gs, UsisBytes(m.items), ItemsFields(m.items));
  }

  /** The bytes of a registration list. */
  lemma {:induction false} RnlLayout(mac: Mac, m: Rnl)
    ensures BitsOf(RnlBytes(mac, m)) == Pack(RnlFields(mac, m))
  {
    hide BitsOf, Pack, Header, HeaderFields, Le16, RnlCtrl, KidBytes, KidFields;
    HeaderPacks(MSG_RNL, mac);
    Le16Packs(m.seqNo);
    RnlCtrlPacks(m.ready, |m.added|);
    KidsPack(m.added);
    var s, fs := Header(MSG_RNL, mac), HeaderFields(0, mac);
    Append(s, fs, Le16(m.seqNo), [Field(16, m.seqNo)]);
    s, fs := s + Le16(m.seqNo), fs + [Field(16, m.seqNo)];
    var gs := [Field(1, if m.ready then 1 else 0), Field(7, |m.added|)];
    Append(s, fs, [RnlCtrl(m.ready, |m.added|)], gs);
    Append(s + [RnlCtrl(m.ready, |m.added|)], fs + gs, KidBytes(m.added), KidFields(m.added));
    assert fs + gs == HeaderFields(0, mac) + [Field(16, m.seqNo), Field(1, if m.ready then 1 else 0), Field(7, |m.added|)];
  }
}
