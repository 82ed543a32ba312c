/**
  * aes_cmac.c: the message authentication code of RFC 4493, first as a function of the message, then as the code
  * computes it with byte-wise carries and a running block.
  */
module Cmac {
  import opened AesBytes
  import opened Aes
  import opened AesState
  import Cbc

  // ---------------------------------------------------------------- blocks as bytes

  const ZERO := Block(Word(0, 0, 0, 0), Word(0, 0, 0, 0), Word(0, 0, 0, 0), Word(0, 0, 0, 0))

  function WordBytes(w: Word): seq<bv8> {
    [w.a, w.b, w.c, w.d]
  }

  function Bytes(b: Block): (s: seq<bv8>)
    ensures |s| == BLOCK_BYTES
  {
    WordBytes(b.c0) + WordBytes(b.c1) + WordBytes(b.c2) + WordBytes(b.c3)
  }

  lemma {:induction false} BytesOfBlock(s: seq<bv8>, p: nat)
    requires p + BLOCK_BYTES <= |s|
    ensures Bytes(BlockAt(s, p)) == s[p..p + BLOCK_BYTES]
  {
  }

  lemma {:induction false} BlockOfBytes(b: Block)
    ensures BlockAt(Bytes(b), 0) == b
  {
  }

  // ---------------------------------------------------------------- doubling, section 2.3

  /** The left shift by one bit, byte by byte. */
  function ShiftLeft(s: seq<bv8>): (t: seq<bv8>)
    ensures |t| == |s|
  {
    seq(|s|, i requires 0 <= i < |s| => Carried(s[i], i + 1 < |s| && HighBit(s[i + 1])))
  }

  predicate HighBit(x: bv8) {
    x & 0x80 != 0
  }

  function Carried(x: bv8, carry: bool): bv8 {
    (x << 1) | (if carry then 1 else 0)
  }

  /** Bit k of a byte, from the most significant. */
  predicate Bit(x: bv8, k: nat)
    requires k < 8
  {
    var m: bv8 := if k == 0 then 0x80 else if k == 1 then 0x40 else if k == 2 then 0x20 else if k == 3 then 0x10
                  else if k == 4 then 8 else if k == 5 then 4 else if k == 6 then 2 else 1;
    x & m != 0
  }

  /** A byte string as a bit string. */
  function Bits(s: seq<bv8>): (b: seq<bool>)
    ensures |b| == 8 * |s|
  {
    seq(8 * |s|, i requires 0 <= i < 8 * |s| => Bit(s[i / 8], i % 8))
  }

  lemma {:induction false} CarriedBits(x: bv8, carry: bool, k: nat)
    requires k < 8
    ensures Bit(Carried(x, carry), k) == if k < 7 then Bit(x, k + 1) else carry
  {
  }

  lemma {:induction false} HighBitIsFirst(x: bv8)
    ensures HighBit(x) == Bit(x, 0)
  {
  }

  /** The byte-wise carries shift the bit string: the first bit disappears and a zero comes in at the end. */
  lemma {:induction false} ShiftLeftShiftsBits(s: seq<bv8>)
    requires s != []
    ensures Bits(ShiftLeft(s)) == Bits(s)[1..] + [false]
  {
    hide Bit, Bits, ShiftLeft;
    var want := Bits(s)[1..] + [false];
    forall i | 0 <= i < 8 * |s|
      ensures Bits(ShiftLeft(s))[i] == want[i]
    {
      ShiftedBit(s, i);
    }
  }

  lemma {:induction false} BitAt(s: seq<bv8>, j: nat, k: nat)
    requires j < |s| && k < 8
    ensures Bits(s)[8 * j + k] == Bit(s[j], k)
  {
    hide Bit;
    assert (8 * j + k) / 8 == j && (8 * j + k) % 8 == k;
  }

  lemma {:induction false} ShiftedBit(s: seq<bv8>, i: nat)
    requires i < 8 * |s|
    ensures Bits(ShiftLeft(s))[i] == if i + 1 < 8 * |s| then Bits(s)[i + 1] else false
  {
    hide Bit, Bits, ShiftLeft, Carried, HighBit;
    var j, k := i / 8, i % 8;
    var carry := j + 1 < |s| && HighBit(s[j + 1]);
    BitAt(ShiftLeft(s), j, k);
    ShiftedAt(s, j);
    CarriedBits(s[j], carry, k);
    if k < 7 {
      BitAt(s, j, k + 1);
    } else if j + 1 < |s| {
      HighBitIsFirst(s[j + 1]);
      BitAt(s, j + 1, 0);
    }
  }

  /** const_Rb. */
  const RB: seq<bv8> := [0, 0, 0, 0, 0, 0, 0, 0, 0, 0, 0, 0, 0, 0, 0, 0x87]

  function XorBytes(s: seq<bv8>, t: seq<bv8>): (u: seq<bv8>)
    requires |s| == |t|
    ensures |u| == |s|
  {
    seq(|s|, i requires 0 <= i < |s| => Add(s[i], t[i]))
  }

  /** Multiplication by x in the field of 2^128 elements. */
  function Double(s: seq<bv8>): (t: seq<bv8>)
    requires |s| == BLOCK_BYTES
    ensures |t| == BLOCK_BYTES
  {
    if HighBit(s[0]) then XorBytes(ShiftLeft(s), RB) else ShiftLeft(s)
  }

  function L(w: Schedule): (s: seq<bv8>)
    ensures |s| == BLOCK_BYTES
  {
    Bytes(Cipher(w, ZERO))
  }

  function K1(w: Schedule): (s: seq<bv8>)
    ensures |s| == BLOCK_BYTES
  {
    Double(L(w))
  }

  function K2(w: Schedule): (s: seq<bv8>)
    ensures |s| == BLOCK_BYTES
  {
    Double(K1(w))
  }

  /** p times x: every coefficient moves up by one, and x^128, when there is one, becomes x^7 + x^2 + x + 1. */
  predicate TimesX(r: seq<bool>, p: seq<bool>) {
    && |r| == 128 == |p|
    && forall i | 0 <= i < 128 :: r[i] == ((i < 127 && p[i + 1]) != (p[0] && i in {120, 125, 126, 127}))
  }

  /** The bits of const_Rb. */
  lemma {:induction false} ReductionBits(i: nat)
    requires i < 128
    ensures Bit(RB[i / 8], i % 8) == (i in {120, 125, 126, 127})
  {
    if i < 120 {
      assert i / 8 < 15;
      ZeroBits(i % 8);
    } else {
      assert i / 8 == 15;
      LastReduction(i % 8);
    }
  }

  lemma {:induction false} ZeroBits(k: nat)
    requires k < 8
    ensures !Bit(0, k)
  {
  }

  lemma {:induction false} LastReduction(k: nat)
    requires k < 8
    ensures Bit(0x87, k) == (k == 0 || k >= 5)
  {
  }

  lemma {:induction false} AddBits(x: bv8, y: bv8, k: nat)
    requires k < 8
    ensures Bit(Add(x, y), k) == (Bit(x, k) != Bit(y, k))
  {
    hide Add;
    var m: bv8 := if k == 0 then 0x80 else if k == 1 then 0x40 else if k == 2 then 0x20 else if k == 3 then 0x10
                  else if k == 4 then 8 else if k == 5 then 4 else if k == 6 then 2 else 1;
    AddMasks(x, y, m);
  }

  lemma {:induction false} AddMasks(x: bv8, y: bv8, m: bv8)
    requires m == 1 || m == 2 || m == 4 || m == 8 || m == 0x10 || m == 0x20 || m == 0x40 || m == 0x80
    ensures (Add(x, y) & m != 0) == ((x & m != 0) != (y & m != 0))
  {
  }

  lemma {:induction false} BitOf(s: seq<bv8>, i: nat)
    requires i < 8 * |s|
    ensures Bits(s)[i] == Bit(s[i / 8], i % 8)
  {
    hide Bit;
  }

  /** One bit of a double. */
  lemma {:induction false} DoubledBit(s: seq<bv8>, i: nat)
    requires |s| == BLOCK_BYTES && i < 128
    ensures Bits(Double(s))[i] == ((i < 127 && Bits(s)[i + 1]) != (Bits(s)[0] && i in {120, 125, 126, 127}))
  {
    hide Bit, Bits, ShiftLeft, HighBit, Add, XorBytes;
    var t := ShiftLeft(s);
    ShiftedBit(s, i);
    HighBitIsFirst(s[0]);
    BitOf(s, 0);
    BitOf(t, i);
    if HighBit(s[0]) {
      XoredAt(t, RB, i / 8);
      BitOf(XorBytes(t, RB), i);
      AddBits(t[i / 8], RB[i / 8], i % 8);
      ReductionBits(i);
    }
  }

  lemma {:induction false} XoredAt(s: seq<bv8>, t: seq<bv8>, j: nat)
    requires |s| == |t| && j < |s|
    ensures XorBytes(s, t)[j] == Add(s[j], t[j])
  {
    hide Add;
  }

  /** Double is the product with x. */
  lemma {:induction false} DoubleIsTimesX(s: seq<bv8>)
    requires |s| == BLOCK_BYTES
    ensures TimesX(Bits(Double(s)), Bits(s))
  {
    hide Double, Bits;
    forall i | 0 <= i < 128
      ensures Bits(Double(s))[i] == ((i < 127 && Bits(s)[i + 1]) != (Bits(s)[0] && i in {120, 125, 126, 127}))
    {
      DoubledBit(s, i);
    }
  }

  // ---------------------------------------------------------------- the code, section 2.4

  /** The number of blocks: at least one. */
  function Count(length: nat): (n: nat)
    ensures n >= 1 && BLOCK_BYTES * (n - 1) <= length <= BLOCK_BYTES * n
  {
    if length == 0 then 1 else (length + 15) / 16
  }

  /** One bit set, then zeros. */
  function Pad(r: seq<bv8>): (s: seq<bv8>)
    requires |r| < BLOCK_BYTES
    ensures |s| == BLOCK_BYTES
  {
    seq(BLOCK_BYTES, i requires 0 <= i < BLOCK_BYTES => if i < |r| then r[i] else if i == |r| then 0x80 else 0)
  }

  predicate Complete(m: seq<bv8>) {
    m != [] && |m| % BLOCK_BYTES == 0
  }

  /** M_last. */
  function LastBlock(w: Schedule, m: seq<bv8>): Block {
    if Complete(m) then AddRoundKey(BlockAt(m, |m| - BLOCK_BYTES), BlockAt(K1(w), 0))
    else AddRoundKey(BlockAt(Pad(m[BLOCK_BYTES * (Count(|m|) - 1)..]), 0), BlockAt(K2(w), 0))
  }

  /** The block X after n rounds of step 6. */
  function Chain(w: Schedule, m: seq<bv8>, n: nat): Block
    requires BLOCK_BYTES * n <= |m|
  {
    if n == 0 then ZERO
    else Cipher(w, AddRoundKey(BlockAt(m, BLOCK_BYTES * (n - 1)), Chain(w, m, n - 1)))
  }

  function Mac(w: Schedule, m: seq<bv8>): Block {
    Cipher(w, AddRoundKey(LastBlock(w, m), Chain(w, m, Count(|m|) - 1)))
  }

  /** The chain is cipher block chaining from the zero block. */
  lemma {:induction false} ChainIsCbc(w: Schedule, m: seq<bv8>, n: nat)
    requires BLOCK_BYTES * n <= |m|
    ensures Chain(w, m, n) == Cbc.Last(ZERO, Cbc.Encrypt(w, ZERO, BlocksAt(m, n)))
  {
    hide Cipher, AddRoundKey, BlockAt;
    if n > 0 {
      ChainIsCbc(w, m, n - 1);
      assert BlocksAt(m, n) == BlocksAt(m, n - 1) + [BlockAt(m, BLOCK_BYTES * (n - 1))];
      Cbc.EncryptSnoc(w, ZERO, BlocksAt(m, n - 1), BlockAt(m, BLOCK_BYTES * (n - 1)));
    }
  }

  /** The code is the last block of the chained encryption of the message with its last block replaced. */
  lemma {:induction false} MacIsCbc(w: Schedule, m: seq<bv8>)
    ensures Mac(w, m) == Cbc.Last(ZERO, Cbc.Encrypt(w, ZERO, BlocksAt(m, Count(|m|) - 1) + [LastBlock(w, m)]))
  {
    hide Cipher, AddRoundKey, LastBlock, BlocksAt;
    ChainIsCbc(w, m, Count(|m|) - 1);
    Cbc.EncryptSnoc(w, ZERO, BlocksAt(m, Count(|m|) - 1), LastBlock(w, m));
    MacUnfolds(w, m);
  }

  lemma {:induction false} MacUnfolds(w: Schedule, m: seq<bv8>)
    ensures Mac(w, m) == Cipher(w, AddRoundKey(LastBlock(w, m), Chain(w, m, Count(|m|) - 1)))
  {
    hide Cipher, AddRoundKey, LastBlock, Chain;
  }

  lemma {:induction false} PadSeparates(r: seq<bv8>, s: seq<bv8>)
    requires |r| < |s| < BLOCK_BYTES
    ensures Pad(r) != Pad(s)
  {
    assert Pad(s)[|s|] == 0x80;
    assert Pad(r)[|s|] == 0;
  }

  /** No two tails pad to the same block. */
  lemma {:induction false} PadInjective(r: seq<bv8>, s: seq<bv8>)
    requires |r| < BLOCK_BYTES && |s| < BLOCK_BYTES
    ensures Pad(r) == Pad(s) <==> r == s
  {
    if |r| < |s| {
      PadSeparates(r, s);
    } else if |s| < |r| {
      PadSeparates(s, r);
    } else if r != s {
      var i :| 0 <= i < |r| && r[i] != s[i];
      assert Pad(r)[i] != Pad(s)[i];
    }
  }

  // ---------------------------------------------------------------- the last block, section 2.4

  /** A string is fixed by its bits. */
  lemma {:induction false} BitsFix(s: seq<bv8>, t: seq<bv8>)
    requires Bits(s) == Bits(t)
    ensures s == t
  {
    hide Bit, Bits;
    assert |Bits(s)| == |Bits(t)|;
    forall j | 0 <= j < |s| ensures s[j] == t[j] {
      forall k | 0 <= k < 8 ensures Bit(s[j], k) == Bit(t[j], k) {
        BitAt(s, j, k);
        BitAt(t, j, k);
      }
      SameBits(s[j], t[j]);
    }
  }

  lemma {:induction false} SameBits(x: bv8, y: bv8)
    requires forall k | 0 <= k < 8 :: Bit(x, k) == Bit(y, k)
    ensures x == y
  {
    assert Bit(x, 0) == Bit(y, 0) && Bit(x, 1) == Bit(y, 1) && Bit(x, 2) == Bit(y, 2) && Bit(x, 3) == Bit(y, 3);
    assert Bit(x, 4) == Bit(y, 4) && Bit(x, 5) == Bit(y, 5) && Bit(x, 6) == Bit(y, 6) && Bit(x, 7) == Bit(y, 7);
  }

  lemma {:induction false} TimesXIsDouble(k: seq<bv8>, s: seq<bv8>)
    requires |s| == BLOCK_BYTES && TimesX(Bits(k), Bits(s))
    ensures k == Double(s)
  {
    hide Bits, Double;
    DoubleIsTimesX(s);
    SameProduct(Bits(k), Bits(Double(s)), Bits(s));
    BitsFix(k, Double(s));
  }

  lemma {:induction false} SameProduct(q: seq<bool>, r: seq<bool>, p: seq<bool>)
    requires TimesX(q, p) && TimesX(r, p)
    ensures q == r
  {
  }

  /** What is left of a message behind its whole blocks. */
  function Tail(m: seq<bv8>): (r: seq<bv8>)
    ensures |r| == |m| % BLOCK_BYTES
  {
    m[|m| - |m| % BLOCK_BYTES..]
  }

  /** A block that holds r, a one and zeros. */
  predicate IsPadded(block: seq<bv8>, r: seq<bv8>) {
    && |block| == BLOCK_BYTES && |r| < BLOCK_BYTES
    && Bits(block) == Bits(r) + [true] + seq(127 - 8 * |r|, _ => false)
  }

  /** M_last: the last block plus the first key for a message of whole blocks, otherwise the padded rest plus the second. */
  ghost predicate IsLast(last: seq<bv8>, m: seq<bv8>, k1: seq<bv8>, k2: seq<bv8>) {
    && |k1| == BLOCK_BYTES == |k2|
    && if Complete(m) then last == XorBytes(LastOf(m), k1)
       else exists padded :: IsPadded(padded, Tail(m)) && last == XorBytes(padded, k2)
  }

  /** The last block of a message of whole blocks. */
  function LastOf(m: seq<bv8>): (r: seq<bv8>)
    requires Complete(m)
    ensures |r| == BLOCK_BYTES
  {
    m[|m| - BLOCK_BYTES..]
  }

  /** The keys are x times and x^2 times L, the cipher of the zero block. */
  lemma {:induction false} LastBlockIs(w: Schedule, m: seq<bv8>, k1: seq<bv8>, k2: seq<bv8>)
    requires TimesX(Bits(k1), Bits(L(w))) && TimesX(Bits(k2), Bits(k1))
    ensures IsLast(Bytes(LastBlock(w, m)), m, k1, k2)
  {
    hide Bits, Double, Bytes, Cipher, AddRoundKey, BlockAt, Add, XorBytes, Pad, LastBlock, IsPadded, Complete, Tail, LastOf, L;
    TimesXIsDouble(k1, L(w));
    TimesXIsDouble(k2, k1);
    LastBlockKeys(w, m);
    if !Complete(m) {
      PadBits(Tail(m));
    }
  }

  lemma {:induction false} LastBlockKeys(w: Schedule, m: seq<bv8>)
    ensures Bytes(LastBlock(w, m)) == if Complete(m) then XorBytes(LastOf(m), K1(w)) else XorBytes(Pad(Tail(m)), K2(w))
  {
    hide Double, Bytes, Cipher, AddRoundKey, BlockAt, Add, XorBytes, Pad, L, K1, K2;
    if Complete(m) {
      BytesOfSum(LastOf(m), K1(w));
      BlockOfSuffix(m, |m| - 16);
    } else {
      TailStarts(m);
      BytesOfSum(Pad(Tail(m)), K2(w));
    }
  }

  lemma {:induction false} TailStarts(m: seq<bv8>)
    requires !Complete(m)
    ensures m[BLOCK_BYTES * (Count(|m|) - 1)..] == Tail(m)
  {
  }

  lemma {:induction false} BlockOfSuffix(m: seq<bv8>, p: nat)
    requires p + BLOCK_BYTES == |m|
    ensures BlockAt(m[p..], 0) == BlockAt(m, p)
  {
  }

  lemma {:induction false} BytesOfSum(s: seq<bv8>, t: seq<bv8>)
    requires |s| == BLOCK_BYTES == |t|
    ensures Bytes(AddRoundKey(BlockAt(s, 0), BlockAt(t, 0))) == XorBytes(s, t)
  {
    hide Bytes, AddRoundKey, BlockAt, XorBytes;
    XorIsAddRoundKey(s, t);
    WholeBlock(XorBytes(s, t));
  }

  /** The padding: the rest of the message, a one, zeros. */
  lemma {:induction false} PadBits(r: seq<bv8>)
    requires |r| < BLOCK_BYTES
    ensures IsPadded(Pad(r), r)
  {
    hide Bit, Bits, Pad;
    var want := Bits(r) + [true] + seq(127 - 8 * |r|, _ => false);
    forall i | 0 <= i < 128 ensures Bits(Pad(r))[i] == want[i] {
      PadBytes(r);
      BitOf(Pad(r), i);
      if i < 8 * |r| {
        BitOf(r, i);
      } else if i / 8 == |r| {
        FirstBit(i % 8);
      } else {
        ZeroBits(i % 8);
      }
    }
  }

  lemma {:induction false} FirstBit(k: nat)
    requires k < 8
    ensures Bit(0x80, k) == (k == 0)
  {
  }

  // ---------------------------------------------------------------- the code of aes_cmac.c

  lemma {:induction false} ShiftedAt(s: seq<bv8>, k: nat)
    requires k < |s|
    ensures ShiftLeft(s)[k] == Carried(s[k], k + 1 < |s| && HighBit(s[k + 1]))
  {
  }

  /** The loop that shifts src into dst, from the last byte to the first. */
  method Shift(dst: array<bv8>, src: array<bv8>)
    requires dst.Length == BLOCK_BYTES == src.Length && dst != src
    modifies dst
    ensures dst[..] == ShiftLeft(src[..])
  {
    hide HighBit, Carried, ShiftLeft;
    ghost var s := src[..];
    var overflow: bv8 := 0;
    var loopCnt := 15;
    while loopCnt >= 0
      invariant -1 <= loopCnt <= 15
      invariant overflow == if loopCnt < 15 && HighBit(src[loopCnt + 1]) then 1 else 0
      invariant forall k | loopCnt < k < BLOCK_BYTES :: dst[k] == ShiftLeft(s)[k]
    {
      ShiftedAt(s, loopCnt);
      CarriedOr(src[loopCnt], overflow);
      dst[loopCnt] := src[loopCnt] << 1;
      dst[loopCnt] := dst[loopCnt] | overflow;
      overflow := if HighBit(src[loopCnt]) then 1 else 0;
      loopCnt := loopCnt - 1;
    }
  }

  lemma {:induction false} CarriedOr(x: bv8, overflow: bv8)
    requires overflow == 0 || overflow == 1
    ensures (x << 1) | overflow == Carried(x, overflow == 1)
  {
  }

  /** One of the two halves of SubkeyGeneration: dst becomes the double of src. */
  method DoubleInto(dst: array<bv8>, src: array<bv8>)
    requires dst.Length == BLOCK_BYTES == src.Length && dst != src
    modifies dst
    ensures dst[..] == Double(src[..]) && TimesX(Bits(dst[..]), Bits(src[..]))
  {
    hide HighBit, Add, ShiftLeft, Bits, TimesX;
    DoubleIsTimesX(src[..]);
    if !HighBit(src[0]) {
      Shift(dst, src);
    } else {
      var keyTmp := new bv8[BLOCK_BYTES];
      Shift(keyTmp, src);
      for loopCnt := 0 to BLOCK_BYTES
        invariant keyTmp[..] == ShiftLeft(src[..])
        invariant forall k | 0 <= k < loopCnt :: dst[k] == Add(keyTmp[k], RB[k])
      {
        dst[loopCnt] := Add(keyTmp[loopCnt], RB[loopCnt]);
      }
    }
  }

  method SubkeyGeneration(aes: Engine, key: array<bv8>, keyOne: array<bv8>, keyTwo: array<bv8>)
    requires aes.Valid() && key.Length >= BLOCK_BYTES && key != aes.roundKey
    requires keyOne.Length == BLOCK_BYTES == keyTwo.Length && keyOne != keyTwo && key != keyOne && key != keyTwo
    requires keyOne != aes.roundKey && keyTwo != aes.roundKey
    modifies aes, aes.roundKey, keyOne, keyTwo
    ensures aes.Valid() && aes.Keys() == Expand(BlockAt(key[..], 0))
    ensures keyOne[..] == K1(aes.Keys())
    ensures keyTwo[..] == K2(aes.Keys())
    ensures TimesX(Bits(keyOne[..]), Bits(Bytes(Cipher(aes.Keys(), ZERO)))) && TimesX(Bits(keyTwo[..]), Bits(keyOne[..]))
  {
    hide Bits, TimesX, Cipher, Expand, ScheduleOf, Double, Bytes, BlockAt, SameOutside;
    var l := new bv8[BLOCK_BYTES];
    var zero := new bv8[BLOCK_BYTES](_ => 0);
    ZeroBlock(zero[..]);
    aes.AESEncryptBlock(zero, l, key);
    WholeBlock(l[..]);
    DoubleInto(keyOne, l);
    DoubleInto(keyTwo, keyOne);
  }

  lemma {:induction false} ZeroBlock(s: seq<bv8>)
    requires |s| == BLOCK_BYTES && forall i | 0 <= i < BLOCK_BYTES :: s[i] == 0
    ensures BlockAt(s, 0) == ZERO
  {
  }

  lemma {:induction false} WholeBlock(s: seq<bv8>)
    requires |s| == BLOCK_BYTES
    ensures s == Bytes(BlockAt(s, 0))
  {
  }

  /** One turn of the loop that builds Y and one call of the block cipher: X becomes the cipher of X plus a block. */
  method Absorb(aes: Engine, key: array<bv8>, block: array<bv8>, p: nat, x: array<bv8>, y: array<bv8>)
    requires aes.Valid() && key.Length >= BLOCK_BYTES && p + BLOCK_BYTES <= block.Length
    requires x.Length == BLOCK_BYTES == y.Length && x != y && block != x && block != y
    requires key != aes.roundKey && key != x && key != y
    requires x != aes.roundKey && y != aes.roundKey && block != aes.roundKey
    modifies aes, aes.roundKey, x, y
    ensures aes.Valid() && aes.Keys() == Expand(BlockAt(key[..], 0))
    ensures BlockAt(x[..], 0) == Cipher(aes.Keys(), AddRoundKey(BlockAt(block[..], p), old(BlockAt(x[..], 0))))
  {
    hide Cipher, Expand, ScheduleOf, BlockAt, SameOutside, AddRoundKey, Add;
    ghost var s, t := block[p..p + BLOCK_BYTES], x[..];
    for loopCnt := 0 to BLOCK_BYTES
      modifies y
      invariant forall k | 0 <= k < loopCnt :: y[k] == Add(s[k], t[k])
    {
      y[loopCnt] := Add(block[p + loopCnt], x[loopCnt]);
    }
    assert y[..] == XorBytes(s, t);
    XorIsAddRoundKey(s, t);
    SliceBlock(block[..], p);
    aes.AESEncryptBlock(y, x, key);
  }

  lemma {:induction false} XorIsAddRoundKey(s: seq<bv8>, t: seq<bv8>)
    requires |s| == BLOCK_BYTES == |t|
    ensures BlockAt(XorBytes(s, t), 0) == AddRoundKey(BlockAt(s, 0), BlockAt(t, 0))
  {
    hide Add;
  }

  lemma {:induction false} SliceBlock(s: seq<bv8>, p: nat)
    requires p + BLOCK_BYTES <= |s|
    ensures BlockAt(s[p..p + BLOCK_BYTES], 0) == BlockAt(s, p)
  {
  }

  /** The last block when it is complete. */
  method AddKey(msg: array<bv8>, p: nat, key: array<bv8>, mLast: array<bv8>)
    requires p + BLOCK_BYTES <= msg.Length && key.Length == BLOCK_BYTES == mLast.Length && mLast != msg && mLast != key
    modifies mLast
    ensures mLast[..] == XorBytes(msg[p..p + BLOCK_BYTES], key[..])
  {
    hide Add;
    for loopCnt := 0 to 16
      invariant forall k | 0 <= k < loopCnt :: mLast[k] == Add(msg[p + k], key[k])
    {
      mLast[loopCnt] := Add(msg[p + loopCnt], key[loopCnt]);
    }
  }

  /** The last block when it has to be padded. */
  method PadAndAddKey(msg: array<bv8>, p: nat, remainingSize: nat, key: array<bv8>, mLast: array<bv8>)
    requires remainingSize < BLOCK_BYTES && p + remainingSize <= msg.Length
    requires key.Length == BLOCK_BYTES == mLast.Length && mLast != msg && mLast != key
    modifies mLast
    ensures mLast[..] == XorBytes(Pad(msg[p..p + remainingSize]), key[..])
  {
    hide Add, Pad;
    ghost var padded := Pad(msg[p..p + remainingSize]);
    PadBytes(msg[p..p + remainingSize]);
    for loopCnt := 0 to 16
      invariant forall k | 0 <= k < loopCnt :: mLast[k] == Add(padded[k], key[k])
    {
      if loopCnt < remainingSize {
        mLast[loopCnt] := msg[p + loopCnt];
      } else if loopCnt == remainingSize {
        mLast[loopCnt] := 0x80;
      } else {
        mLast[loopCnt] := 0;
      }
      mLast[loopCnt] := Add(mLast[loopCnt], key[loopCnt]);
    }
  }

  /** Step 4: M_last, from the last block or the padded tail. */
  method BuildLast(msg: array<bv8>, size: nat, keyOne: array<bv8>, keyTwo: array<bv8>, mLast: array<bv8>, ghost w: Schedule)
    requires size <= msg.Length && size < 256
    requires keyOne[..] == K1(w) && keyTwo[..] == K2(w)
    requires mLast.Length == BLOCK_BYTES && mLast != msg && mLast != keyOne && mLast != keyTwo
    modifies mLast
    ensures BlockAt(mLast[..], 0) == LastBlock(w, msg[..size])
  {
    hide BlockAt, Add, AddRoundKey, K1, K2, Pad;
    var nBlock := (size + 15) / 16;
    var remainingSize := size % 16;
    var completeFlag := true;
    if nBlock == 0 {
      nBlock := 1;
      completeFlag := false;
    } else if remainingSize != 0 {
      completeFlag := false;
    }
    ghost var m, p := msg[..size], 16 * (nBlock - 1);
    if completeFlag {
      assert m[p..p + 16] == msg[p..p + 16];
      AddKey(msg, 16 * (nBlock - 1), keyOne, mLast);
      XorIsAddRoundKey(m[p..p + 16], K1(w));
      SliceBlock(m, p);
    } else {
      assert m[p..] == msg[p..p + remainingSize];
      PadAndAddKey(msg, 16 * (nBlock - 1), remainingSize, keyTwo, mLast);
      XorIsAddRoundKey(Pad(m[p..]), K2(w));
    }
  }

  lemma {:induction false} PadBytes(r: seq<bv8>)
    requires |r| < BLOCK_BYTES
    ensures forall i | 0 <= i < BLOCK_BYTES :: Pad(r)[i] == if i < |r| then r[i] else if i == |r| then 0x80 else 0
  {
  }

  /** Steps 5 and 6: the chain over all blocks but the last. */
  method RunChain(aes: Engine, key: array<bv8>, msg: array<bv8>, size: nat, nBlock: nat, x: array<bv8>, y: array<bv8>)
    requires aes.Valid() && key.Length >= BLOCK_BYTES && aes.Keys() == Expand(BlockAt(key[..], 0))
    requires size <= msg.Length && nBlock == Count(size)
    requires x.Length == BLOCK_BYTES == y.Length && x != y && msg != x && msg != y
    requires key != aes.roundKey && key != x && key != y
    requires x != aes.roundKey && y != aes.roundKey && msg != aes.roundKey
    requires BlockAt(x[..], 0) == ZERO
    modifies aes, aes.roundKey, x, y
    ensures aes.Valid() && aes.Keys() == old(aes.Keys())
    ensures BlockAt(x[..], 0) == Chain(aes.Keys(), msg[..size], nBlock - 1)
  {
    hide Cipher, Expand, ScheduleOf, BlockAt, AddRoundKey;
    ghost var w, m := aes.Keys(), msg[..size];
    for blockCnt := 0 to nBlock - 1
      invariant aes.Valid() && aes.Keys() == w
      invariant BlockAt(x[..], 0) == Chain(w, m, blockCnt)
    {
      PrefixBlock(msg[..], size, 16 * blockCnt);
      Absorb(aes, key, msg, 16 * blockCnt, x, y);
    }
  }

  /** Step 7: the first four bytes are the code. */
  method CopyMic(x: array<bv8>, mic: array<bv8>)
    requires x.Length == BLOCK_BYTES && mic.Length >= 4 && x != mic
    modifies mic
    ensures mic[..] == x[..4] + old(mic[4..])
  {
    ghost var was := mic[..];
    for loopCnt := 0 to 4
      invariant forall k | 0 <= k < mic.Length :: mic[k] == if k < loopCnt then x[k] else was[k]
    {
      mic[loopCnt] := x[loopCnt];
    }
  }

  /** The code is the first four bytes of the message authentication code, for every message of up to 255 bytes. */
  method AES128_CMAC(aes: Engine, key: array<bv8>, msg: array<bv8>, size: nat, mic: array<bv8>)
    requires aes.Valid() && key.Length >= BLOCK_BYTES && key != aes.roundKey
    requires size < 256 && size <= msg.Length && msg != aes.roundKey
    requires mic.Length >= 4 && mic != aes.roundKey
    modifies aes, aes.roundKey, mic
    ensures aes.Valid() && aes.Keys() == Expand(old(BlockAt(key[..], 0)))
    ensures mic[..] == Bytes(Mac(aes.Keys(), old(msg[..size])))[..4] + old(mic[4..])
  {
    hide Cipher, Expand, ScheduleOf, BlockAt, Bytes, AddRoundKey, LastBlock, K1, K2, Mac;
    ghost var m := msg[..size];
    var keyOne := new bv8[BLOCK_BYTES];
    var keyTwo := new bv8[BLOCK_BYTES];
    SubkeyGeneration(aes, key, keyOne, keyTwo);
    ghost var w := aes.Keys();
    var mLast := new bv8[BLOCK_BYTES];
    BuildLast(msg, size, keyOne, keyTwo, mLast, w);
    var nBlock := if size == 0 then 1 else (size + 15) / 16;
    var x := new bv8[BLOCK_BYTES](_ => 0);
    var y := new bv8[BLOCK_BYTES];
    ZeroBlock(x[..]);
    RunChain(aes, key, msg, size, nBlock, x, y);
    Absorb(aes, key, mLast, 0, x, y);
    MacUnfolds(w, m);
    WholeBlock(x[..]);
    assert x[..] == Bytes(Mac(w, m));
    CopyMic(x, mic);
  }

  lemma {:induction false} PrefixBlock(s: seq<bv8>, n: nat, p: nat)
    requires p + BLOCK_BYTES <= n <= |s|
    ensures BlockAt(s[..n], p) == BlockAt(s, p)
  {
  }
}
