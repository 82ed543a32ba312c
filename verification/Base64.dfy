/**
  * base64.c: the encoding of section 4 of RFC 4648, with and without padding, as functions of the bytes, and as
  * the loops that fill an output buffer.
  */
module Base64 {
  import opened Wrappers

  const PAD: bv8 := 0x3D

  // ---------------------------------------------------------------- one character

  /** The character of a code below 64. */
  function CodeToChar(x: bv8): bv8
    requires x < 64
  {
    if x <= 25 then 0x41 + x
    else if x <= 51 then 0x61 + (x - 26)
    else if x <= 61 then 0x30 + (x - 52)
    else if x == 62 then 0x2B
    else 0x2F
  }

  /** The code of a character; the code ends the program on any other character. */
  function CharToCode(x: bv8): Option<bv8> {
    if 0x41 <= x <= 0x5A then Some(x - 0x41)
    else if 0x61 <= x <= 0x7A then Some(x - 0x61 + 26)
    else if 0x30 <= x <= 0x39 then Some(x - 0x30 + 52)
    else if x == 0x2B then Some(62)
    else if x == 0x2F then Some(63)
    else None
  }

  lemma {:induction false} CharRoundTrip(x: bv8)
    requires x < 64
    ensures CharToCode(CodeToChar(x)) == Some(x)
    ensures CodeToChar(x) != PAD && CodeToChar(x) != 0
  {
  }

  lemma {:induction false} CodeRoundTrip(c: bv8)
    ensures CharToCode(c).Some? ==> CharToCode(c).value < 64 && CodeToChar(CharToCode(c).value) == c
    ensures CharToCode(PAD).None? && CharToCode(0).None?
  {
  }

  /** The alphabet of section 4 of RFC 4648: A to Z, a to z, 0 to 9, + and /, without gaps in the three runs. */
  lemma {:induction false} Alphabet(x: bv8)
    requires x < 64
    ensures CodeToChar(0) == 0x41 && CodeToChar(25) == 0x5A && CodeToChar(26) == 0x61 && CodeToChar(51) == 0x7A
    ensures CodeToChar(52) == 0x30 && CodeToChar(61) == 0x39 && CodeToChar(62) == 0x2B && CodeToChar(63) == 0x2F
    ensures x !in {25, 51, 61, 62, 63} ==> CodeToChar(x + 1) == CodeToChar(x) + 1
  {
  }

  // ---------------------------------------------------------------- one block

  /** Three bytes in the 32-bit work variable. */
  function Join(x: bv8, y: bv8, z: bv8): bv32 {
    ((x as bv32) << 16) | ((y as bv32) << 8) | (z as bv32)
  }

  /** Four codes in the work variable. */
  function Gather(p: bv8, q: bv8, r: bv8, s: bv8): bv32 {
    (((0x3F & p) as bv32) << 18) | (((0x3F & q) as bv32) << 12) | (((0x3F & r) as bv32) << 6) | ((0x3F & s) as bv32)
  }

  function Code0(b: bv32): (c: bv8)
    ensures c < 64
  {
    ((b >> 18) & 0x3F) as bv8
  }

  function Code1(b: bv32): (c: bv8)
    ensures c < 64
  {
    ((b >> 12) & 0x3F) as bv8
  }

  function Code2(b: bv32): (c: bv8)
    ensures c < 64
  {
    ((b >> 6) & 0x3F) as bv8
  }

  function Code3(b: bv32): (c: bv8)
    ensures c < 64
  {
    (b & 0x3F) as bv8
  }

  function Byte0(b: bv32): bv8 {
    ((b >> 16) & 0xFF) as bv8
  }

  function Byte1(b: bv32): bv8 {
    ((b >> 8) & 0xFF) as bv8
  }

  function Byte2(b: bv32): bv8 {
    (b & 0xFF) as bv8
  }

  lemma {:induction false} JoinGather(x: bv8, y: bv8, z: bv8)
    ensures var b := Join(x, y, z); Gather(Code0(b), Code1(b), Code2(b), Code3(b)) == b
    ensures var b := Join(x, y, z); Byte0(b) == x && Byte1(b) == y && Byte2(b) == z
  {
  }

  lemma {:induction false} GatherJoin(p: bv8, q: bv8, r: bv8, s: bv8)
    requires p < 64 && q < 64 && r < 64 && s < 64
    ensures var b := Gather(p, q, r, s); Join(Byte0(b), Byte1(b), Byte2(b)) == b
    ensures var b := Gather(p, q, r, s); Code0(b) == p && Code1(b) == q && Code2(b) == r && Code3(b) == s
  {
  }

  // ---------------------------------------------------------------- strings of bytes and of characters

  function At(s: seq<bv8>, i: nat): bv8 {
    if i < |s| then s[i] else 0
  }

  /** The first block of bytes; missing bytes are zero. */
  function FirstBytes(s: seq<bv8>): bv32 {
    Join(At(s, 0), At(s, 1), At(s, 2))
  }

  /** The encoding without padding: the last block has one character more than it has bytes. */
  function Encode(s: seq<bv8>): (t: seq<bv8>)
    ensures |t| == EncodedLength(|s|)
  {
    var b := FirstBytes(s);
    if |s| == 0 then []
    else if |s| == 1 then [CodeToChar(Code0(b)), CodeToChar(Code1(b))]
    else if |s| == 2 then [CodeToChar(Code0(b)), CodeToChar(Code1(b)), CodeToChar(Code2(b))]
    else [CodeToChar(Code0(b)), CodeToChar(Code1(b)), CodeToChar(Code2(b)), CodeToChar(Code3(b))] + Encode(s[3..])
  }

  function EncodedLength(n: nat): nat {
    4 * (n / 3) + if n % 3 == 0 then 0 else n % 3 + 1
  }

  predicate AllValid(t: seq<bv8>) {
    forall i | 0 <= i < |t| :: CharToCode(t[i]).Some?
  }

  function CodeAt(t: seq<bv8>, i: nat): bv8 {
    if i < |t| && CharToCode(t[i]).Some? then CharToCode(t[i]).value else 0
  }

  function FirstCodes(t: seq<bv8>): bv32 {
    Gather(CodeAt(t, 0), CodeAt(t, 1), CodeAt(t, 2), CodeAt(t, 3))
  }

  /** The bytes of a string whose length is not one more than a multiple of four. */
  function Decode(t: seq<bv8>): (s: seq<bv8>)
    requires |t| % 4 != 1
    ensures |s| == DecodedLength(|t|)
  {
    var b := FirstCodes(t);
    if |t| == 0 then []
    else if |t| == 2 then [Byte0(b)]
    else if |t| == 3 then [Byte0(b), Byte1(b)]
    else [Byte0(b), Byte1(b), Byte2(b)] + Decode(t[4..])
  }

  function DecodedLength(n: nat): nat
    requires n % 4 != 1
  {
    3 * (n / 4) + if n % 4 == 0 then 0 else n % 4 - 1
  }

  lemma {:induction false} AllValidJoins(t: seq<bv8>, u: seq<bv8>)
    ensures AllValid(t + u) <==> AllValid(t) && AllValid(u)
  {
    hide CharToCode;
    if AllValid(t + u) {
      forall i | 0 <= i < |t|
        ensures CharToCode(t[i]).Some?
      {
        assert (t + u)[i] == t[i];
      }
      forall i | 0 <= i < |u|
        ensures CharToCode(u[i]).Some?
      {
        assert (t + u)[|t| + i] == u[i];
      }
    }
  }

  lemma {:induction false} EncodedIsValid(s: seq<bv8>)
    ensures AllValid(Encode(s)) && |Encode(s)| % 4 != 1
  {
    hide CharToCode, CodeToChar, FirstBytes, Code0, Code1, Code2, Code3, Encode;
    var b := FirstBytes(s);
    EncodeUnfolds(s);
    CharRoundTrip(Code0(b));
    CharRoundTrip(Code1(b));
    CharRoundTrip(Code2(b));
    CharRoundTrip(Code3(b));
    if |s| >= 3 {
      EncodedIsValid(s[3..]);
      AllValidJoins([CodeToChar(Code0(b)), CodeToChar(Code1(b)), CodeToChar(Code2(b)), CodeToChar(Code3(b))], Encode(s[3..]));
    }
  }

  /** Decoding undoes encoding, for every string of bytes. */
  lemma {:induction false} DecodeEncode(s: seq<bv8>)
    ensures |Encode(s)| % 4 != 1 && Decode(Encode(s)) == s
  {
    hide CharToCode, CodeToChar, Code0, Code1, Code2, Code3, Byte0, Byte1, Byte2, Gather, Join;
    EncodedIsValid(s);
    if s != [] {
      FirstBlockDecodes(s);
      if |s| >= 3 {
        DecodeEncode(s[3..]);
        assert Encode(s)[4..] == Encode(s[3..]);
      }
    }
  }

  lemma {:induction false} FirstBlockDecodes(s: seq<bv8>)
    requires s != []
    ensures var b := FirstCodes(Encode(s)); Byte0(b) == s[0] && Byte1(b) == At(s, 1) && Byte2(b) == At(s, 2)
  {
    hide CharToCode, CodeToChar, Code0, Code1, Code2, Code3, Byte0, Byte1, Byte2, Gather, Join;
    var b := FirstBytes(s);
    CharRoundTrip(Code0(b));
    CharRoundTrip(Code1(b));
    CharRoundTrip(Code2(b));
    CharRoundTrip(Code3(b));
    JoinGather(s[0], At(s, 1), At(s, 2));
    if |s| == 1 {
      ShortJoin(s[0], 0);
    } else if |s| == 2 {
      ShortJoin(s[0], s[1]);
    }
  }

  lemma {:induction false} ShortJoin(x: bv8, y: bv8)
    ensures Code3(Join(x, y, 0)) == 0
    ensures Code2(Join(x, 0, 0)) == 0
  {
  }

  /** The bits of the last character that carry no data are zero; the code only prints a warning when they are not. */
  predicate Canonical(t: seq<bv8>) {
    (|t| % 4 == 2 ==> CodeAt(t, |t| - 1) & 0x0F == 0) &&
    (|t| % 4 == 3 ==> CodeAt(t, |t| - 1) & 0x03 == 0)
  }

  /** Encoding gives a decoded string back exactly when its unused bits are zero. */
  lemma {:induction false} EncodeDecodeIff(t: seq<bv8>)
    requires AllValid(t) && |t| % 4 != 1
    ensures Encode(Decode(t)) == t <==> Canonical(t)
  {
    hide CharToCode, AllValid, Encode, Decode, Canonical;
    if |t| == 0 {
      NoCharacters(t);
    } else if |t| == 2 {
      TwoCharacters(t);
    } else if |t| == 3 {
      ThreeCharacters(t);
    } else {
      assert t == t[..4] + t[4..];
      AllValidJoins(t[..4], t[4..]);
      EncodeDecodeIff(t[4..]);
      MoreCharacters(t);
    }
  }

  lemma {:induction false} NoCharacters(t: seq<bv8>)
    requires |t| == 0
    ensures Encode(Decode(t)) == t && Canonical(t)
  {
  }

  lemma {:induction false} DecodedHead(t: seq<bv8>)
    requires |t| >= 4 && |t| % 4 != 1
    ensures var b := FirstCodes(t);
            && |Decode(t)| >= 3 && Decode(t)[3..] == Decode(t[4..])
            && FirstBytes(Decode(t)) == Join(Byte0(b), Byte1(b), Byte2(b))
  {
    hide Byte0, Byte1, Byte2, FirstCodes, Join;
  }

  lemma {:induction false} MoreCharacters(t: seq<bv8>)
    requires AllValid(t) && |t| >= 4 && |t| % 4 != 1
    ensures Encode(Decode(t)) == t[..4] + Encode(Decode(t[4..]))
    ensures Canonical(t) <==> Canonical(t[4..])
  {
    hide CharToCode, CodeToChar, Code0, Code1, Code2, Code3, Byte0, Byte1, Byte2, Gather, Join, Encode, AllValid,
         Decode, FirstBytes, FirstCodes;
    FourCharacters(t);
    DecodedHead(t);
    EncodeUnfolds(Decode(t));
    if |t| > 4 {
      assert CodeAt(t, |t| - 1) == CodeAt(t[4..], |t[4..]| - 1);
    }
  }

  lemma {:induction false} EncodeUnfolds(s: seq<bv8>)
    ensures var b := FirstBytes(s);
            Encode(s) ==
            if |s| == 0 then []
            else if |s| == 1 then [CodeToChar(Code0(b)), CodeToChar(Code1(b))]
            else if |s| == 2 then [CodeToChar(Code0(b)), CodeToChar(Code1(b)), CodeToChar(Code2(b))]
            else [CodeToChar(Code0(b)), CodeToChar(Code1(b)), CodeToChar(Code2(b)), CodeToChar(Code3(b))] + Encode(s[3..])
  {
    hide CodeToChar, FirstBytes, Code0, Code1, Code2, Code3;
  }

  lemma {:induction false} FourCharacters(t: seq<bv8>)
    requires AllValid(t) && |t| >= 4
    ensures var b := FirstCodes(t);
            [CodeToChar(Code0(Join(Byte0(b), Byte1(b), Byte2(b)))), CodeToChar(Code1(Join(Byte0(b), Byte1(b), Byte2(b)))),
             CodeToChar(Code2(Join(Byte0(b), Byte1(b), Byte2(b)))), CodeToChar(Code3(Join(Byte0(b), Byte1(b), Byte2(b))))] == t[..4]
  {
    hide CharToCode, CodeToChar, Code0, Code1, Code2, Code3, Byte0, Byte1, Byte2, Gather, Join;
    CodeRoundTrip(t[0]);
    CodeRoundTrip(t[1]);
    CodeRoundTrip(t[2]);
    CodeRoundTrip(t[3]);
    GatherJoin(CodeAt(t, 0), CodeAt(t, 1), CodeAt(t, 2), CodeAt(t, 3));
  }

  lemma {:induction false} ShortGather(p: bv8, q: bv8, r: bv8)
    requires p < 64 && q < 64 && r < 64
    ensures var b := Gather(p, q, 0, 0); Code0(Join(Byte0(b), 0, 0)) == p && (Code1(Join(Byte0(b), 0, 0)) == q <==> q & 0x0F == 0)
    ensures var b := Gather(p, q, r, 0); Code0(Join(Byte0(b), Byte1(b), 0)) == p && Code1(Join(Byte0(b), Byte1(b), 0)) == q
    ensures var b := Gather(p, q, r, 0); Code2(Join(Byte0(b), Byte1(b), 0)) == r <==> r & 0x03 == 0
  {
  }

  /** Different codes have different characters. */
  lemma {:induction false} CharInjective(x: bv8, y: bv8)
    requires x < 64 && y < 64
    ensures CodeToChar(x) == CodeToChar(y) <==> x == y
  {
    hide CharToCode, CodeToChar;
    CharRoundTrip(x);
    CharRoundTrip(y);
  }

  lemma {:induction false} TwoCharacters(t: seq<bv8>)
    requires AllValid(t) && |t| == 2
    ensures Encode(Decode(t)) == t <==> Canonical(t)
  {
    hide CharToCode, CodeToChar, Code0, Code1, Code2, Code3, Byte0, Byte1, Byte2, Gather, Join, Encode;
    var b := FirstCodes(t);
    CodeRoundTrip(t[0]);
    CodeRoundTrip(t[1]);
    ShortGather(CodeAt(t, 0), CodeAt(t, 1), 0);
    EncodeUnfolds(Decode(t));
    CharInjective(Code1(Join(Byte0(b), 0, 0)), CodeAt(t, 1));
  }

  lemma {:induction false} ThreeCharacters(t: seq<bv8>)
    requires AllValid(t) && |t| == 3
    ensures Encode(Decode(t)) == t <==> Canonical(t)
  {
    hide CharToCode, CodeToChar, Code0, Code1, Code2, Code3, Byte0, Byte1, Byte2, Gather, Join, Encode;
    var b := FirstCodes(t);
    CodeRoundTrip(t[0]);
    CodeRoundTrip(t[1]);
    CodeRoundTrip(t[2]);
    ShortGather(CodeAt(t, 0), CodeAt(t, 1), CodeAt(t, 2));
    EncodeUnfolds(Decode(t));
    CharInjective(Code2(Join(Byte0(b), Byte1(b), 0)), CodeAt(t, 2));
  }

  // ---------------------------------------------------------------- the bit string

  /** Bit k of a byte and of a code, from the most significant. */
  predicate ByteBit(x: bv8, k: nat)
    requires k < 8
  {
    x & (if k == 0 then 0x80 else if k == 1 then 0x40 else if k == 2 then 0x20 else if k == 3 then 0x10
         else if k == 4 then 8 else if k == 5 then 4 else if k == 6 then 2 else 1) != 0
  }

  predicate CodeBit(x: bv8, k: nat)
    requires k < 6
  {
    ByteBit(x, k + 2)
  }

  /** Bit k of the bytes, with zeros behind them. */
  predicate BitOfBytes(s: seq<bv8>, k: nat) {
    k / 8 < |s| && ByteBit(s[k / 8], k % 8)
  }

  predicate BitOfCodes(t: seq<bv8>, k: nat) {
    k / 6 < |t| && CodeBit(CodeAt(t, k / 6), k % 6)
  }

  lemma {:induction false} FirstCodeBits(x: bv8, y: bv8, z: bv8, k: nat)
    requires k < 6
    ensures CodeBit(Code0(Join(x, y, z)), k) == ByteBit(x, k)
  {
  }

  lemma {:induction false} SecondCodeBits(x: bv8, y: bv8, z: bv8, k: nat)
    requires k < 6
    ensures CodeBit(Code1(Join(x, y, z)), k) == if k < 2 then ByteBit(x, k + 6) else ByteBit(y, k - 2)
  {
  }

  lemma {:induction false} ThirdCodeBits(x: bv8, y: bv8, z: bv8, k: nat)
    requires k < 6
    ensures CodeBit(Code2(Join(x, y, z)), k) == if k < 4 then ByteBit(y, k + 4) else ByteBit(z, k - 4)
  {
  }

  lemma {:induction false} FourthCodeBits(x: bv8, y: bv8, z: bv8, k: nat)
    requires k < 6
    ensures CodeBit(Code3(Join(x, y, z)), k) == ByteBit(z, k + 2)
  {
  }

  lemma {:induction false} BlockBits(x: bv8, y: bv8, z: bv8, k: nat)
    requires k < 24
    ensures var b := Join(x, y, z);
            CodeBit(if k < 6 then Code0(b) else if k < 12 then Code1(b) else if k < 18 then Code2(b) else Code3(b), k % 6) ==
            ByteBit(if k < 8 then x else if k < 16 then y else z, k % 8)
  {
    hide CodeBit, ByteBit, Code0, Code1, Code2, Code3, Join;
    if k < 6 {
      FirstCodeBits(x, y, z, k);
    } else if k < 12 {
      SecondCodeBits(x, y, z, k - 6);
    } else if k < 18 {
      ThirdCodeBits(x, y, z, k - 12);
    } else {
      FourthCodeBits(x, y, z, k - 18);
    }
  }

  /** The codes of the characters, six bits each, are the bytes' bit string followed by zeros. */
  lemma {:induction false} SameBits(s: seq<bv8>, k: nat)
    ensures BitOfCodes(Encode(s), k) == BitOfBytes(s, k)
  {
    hide CharToCode, CodeToChar, Code0, Code1, Code2, Code3, Join, ByteBit, CodeBit, Encode;
    EncodeUnfolds(s);
    EncodedIsValid(s);
    if s == [] {
    } else if k >= 24 && |s| > 3 {
      SameBits(s[3..], k - 24);
      assert Encode(s[3..]) == Encode(s)[4..];
      assert (k - 24) / 8 == k / 8 - 3 && (k - 24) / 6 == k / 6 - 4;
    } else if k < 24 {
      FirstBlockBits(s, k);
    }
  }

  lemma {:induction false} FirstBlockBits(s: seq<bv8>, k: nat)
    requires s != [] && k < 24
    ensures BitOfCodes(Encode(s), k) == BitOfBytes(s, k)
  {
    hide CharToCode, CodeToChar, Code0, Code1, Code2, Code3, Join, ByteBit, CodeBit, Encode;
    EncodeUnfolds(s);
    var b := FirstBytes(s);
    CharRoundTrip(Code0(b));
    CharRoundTrip(Code1(b));
    CharRoundTrip(Code2(b));
    CharRoundTrip(Code3(b));
    BlockBits(s[0], At(s, 1), At(s, 2), k);
    ZeroBits(k % 8);
    ZeroCodeBits(k % 6);
    ShortJoin(s[0], At(s, 1));
  }

  lemma {:induction false} ZeroBits(k: nat)
    requires k < 8
    ensures !ByteBit(0, k)
  {
  }

  lemma {:induction false} ZeroCodeBits(k: nat)
    requires k < 6
    ensures !CodeBit(0, k)
  {
  }

  // ---------------------------------------------------------------- padding

  /** The encoding filled up to whole blocks of four characters. */
  function Padded(s: seq<bv8>): (t: seq<bv8>)
    ensures |t| == 4 * ((|s| + 2) / 3)
  {
    Encode(s) + if |s| % 3 == 1 then [PAD, PAD] else if |s| % 3 == 2 then [PAD] else []
  }

  /** The examples f, fo, foo and foob of section 10 of RFC 4648. */
  lemma {:induction false} PaddedExamples()
    ensures Padded([0x66]) == [0x5A, 0x67, 0x3D, 0x3D] && Padded([0x66, 0x6F]) == [0x5A, 0x6D, 0x38, 0x3D]
    ensures Padded([0x66, 0x6F, 0x6F]) == [0x5A, 0x6D, 0x39, 0x76]
    ensures Padded([0x66, 0x6F, 0x6F, 0x62]) == [0x5A, 0x6D, 0x39, 0x76, 0x59, 0x67, 0x3D, 0x3D]
  {
    assert [0x66, 0x6F, 0x6F][3..] == [] && [0x66, 0x6F, 0x6F, 0x62][3..] == [0x62];
  }

  /** The part of a string the decoder looks at. */
  function Unpadded(t: seq<bv8>): seq<bv8> {
    if |t| % 4 == 0 && |t| >= 4 then
      if t[|t| - 2] == PAD then t[..|t| - 2]
      else if t[|t| - 1] == PAD then t[..|t| - 1]
      else t
    else t
  }

  /** A valid string has no padding to take off. */
  lemma {:induction false} ValidIsUnpadded(t: seq<bv8>)
    requires AllValid(t)
    ensures Unpadded(t) == t
  {
    hide CharToCode;
    CodeRoundTrip(PAD);
  }

  /** The decoder takes off what the encoder put on, and nothing from an encoding without padding. */
  lemma {:induction false} UnpaddedPadded(s: seq<bv8>)
    ensures Unpadded(Padded(s)) == Encode(s)
    ensures Unpadded(Encode(s)) == Encode(s)
    ensures |Unpadded(Padded(s))| % 4 != 1 && Decode(Unpadded(Padded(s))) == s
  {
    hide CharToCode, Encode, Decode;
    EncodedIsValid(s);
    ValidIsUnpadded(Encode(s));
    CodeRoundTrip(PAD);
    DecodeEncode(s);
    var t := Padded(s);
    if |s| % 3 == 2 {
      assert t[|t| - 2] == Encode(s)[|t| - 2];
      assert t[..|t| - 1] == Encode(s);
    } else if |s| % 3 == 1 {
      assert t[..|t| - 2] == Encode(s);
    } else {
      assert t == Encode(s);
    }
  }

  // ---------------------------------------------------------------- block by block

  lemma {:induction false} FirstBytesOf(s: seq<bv8>, t: seq<bv8>)
    requires |s| >= 3
    ensures FirstBytes(s + t) == FirstBytes(s)
  {
    hide Join;
  }

  lemma {:induction false} FirstCodesOf(s: seq<bv8>, t: seq<bv8>)
    requires |s| >= 4
    ensures FirstCodes(s + t) == FirstCodes(s)
  {
    hide Gather, CharToCode;
  }

  lemma {:induction false} JoinedTwice(a: seq<bv8>, b: seq<bv8>, c: seq<bv8>)
    ensures a + (b + c) == (a + b) + c
  {
  }

  /** Encodings may be joined behind whole blocks of three bytes. */
  lemma {:induction false} EncodeJoins(s: seq<bv8>, t: seq<bv8>)
    requires |s| % 3 == 0
    ensures Encode(s + t) == Encode(s) + Encode(t)
  {
    hide CodeToChar, Code0, Code1, Code2, Code3, FirstBytes, Encode;
    if s == [] {
      assert s + t == t;
      EncodeUnfolds(s);
      assert [] + Encode(t) == Encode(t);
    } else {
      EncodeJoins(s[3..], t);
      assert (s + t)[3..] == s[3..] + t;
      EncodeUnfolds(s);
      EncodeUnfolds(s + t);
      var b := FirstBytes(s);
      FirstBytesOf(s, t);
      JoinedTwice([CodeToChar(Code0(b)), CodeToChar(Code1(b)), CodeToChar(Code2(b)), CodeToChar(Code3(b))], Encode(s[3..]), Encode(t));
    }
  }

  lemma {:induction false} DecodeUnfolds(t: seq<bv8>)
    requires |t| % 4 != 1
    ensures var b := FirstCodes(t);
            Decode(t) ==
            if |t| == 0 then []
            else if |t| == 2 then [Byte0(b)]
            else if |t| == 3 then [Byte0(b), Byte1(b)]
            else [Byte0(b), Byte1(b), Byte2(b)] + Decode(t[4..])
  {
    hide FirstCodes, Byte0, Byte1, Byte2;
  }

  lemma {:induction false} DecodeJoins(s: seq<bv8>, t: seq<bv8>)
    requires |s| % 4 == 0 && |t| % 4 != 1
    ensures Decode(s + t) == Decode(s) + Decode(t)
  {
    hide FirstCodes, Byte0, Byte1, Byte2, Decode;
    if s == [] {
      assert s + t == t;
      DecodeUnfolds(s);
      assert [] + Decode(t) == Decode(t);
    } else {
      DecodeJoins(s[4..], t);
      assert (s + t)[4..] == s[4..] + t;
      DecodeUnfolds(s);
      DecodeUnfolds(s + t);
      var b := FirstCodes(s);
      FirstCodesOf(s, t);
      JoinedTwice([Byte0(b), Byte1(b), Byte2(b)], Decode(s[4..]), Decode(t));
    }
  }

  /** The four characters of a full block. */
  function FourChars(b: bv32): (t: seq<bv8>)
    ensures |t| == 4
  {
    [CodeToChar(Code0(b)), CodeToChar(Code1(b)), CodeToChar(Code2(b)), CodeToChar(Code3(b))]
  }

  function ThreeBytes(b: bv32): (s: seq<bv8>)
    ensures |s| == 3
  {
    [Byte0(b), Byte1(b), Byte2(b)]
  }

  lemma {:induction false} EncodeStep(s: seq<bv8>, i: nat)
    requires 3 * i + 3 <= |s|
    ensures Encode(s[..3 * i + 3]) == Encode(s[..3 * i]) + FourChars(Join(s[3 * i], s[3 * i + 1], s[3 * i + 2]))
  {
    hide CodeToChar, Code0, Code1, Code2, Code3, Join, Encode;
    var t := s[3 * i..3 * i + 3];
    assert s[..3 * i + 3] == s[..3 * i] + t;
    EncodeJoins(s[..3 * i], t);
    EncodeUnfolds(t);
    EncodeUnfolds(t[3..]);
  }

  lemma {:induction false} EncodeTail(s: seq<bv8>, i: nat)
    requires |s| == 3 * i + 1 || |s| == 3 * i + 2
    ensures var b := Join(s[3 * i], At(s, 3 * i + 1), 0);
            Encode(s) == Encode(s[..3 * i]) + if |s| == 3 * i + 1 then FourChars(b)[..2] else FourChars(b)[..3]
  {
    hide CodeToChar, Code0, Code1, Code2, Code3, Join, Encode;
    var t := s[3 * i..];
    assert s == s[..3 * i] + t;
    EncodeJoins(s[..3 * i], t);
    EncodeUnfolds(t);
  }

  lemma {:induction false} DecodeStep(t: seq<bv8>, i: nat)
    requires 4 * i + 4 <= |t|
    ensures Decode(t[..4 * i + 4]) == Decode(t[..4 * i]) + ThreeBytes(FirstCodes(t[4 * i..4 * i + 4]))
  {
    hide Byte0, Byte1, Byte2, Decode, FirstCodes;
    var u := t[4 * i..4 * i + 4];
    assert t[..4 * i + 4] == t[..4 * i] + u;
    DecodeJoins(t[..4 * i], u);
    DecodeUnfolds(u);
    DecodeUnfolds(u[4..]);
  }

  lemma {:induction false} DecodeTail(t: seq<bv8>, i: nat)
    requires |t| == 4 * i + 2 || |t| == 4 * i + 3
    ensures var b := FirstCodes(t[4 * i..]);
            Decode(t) == Decode(t[..4 * i]) + ThreeBytes(b)[..|t| - 4 * i - 1]
  {
    hide Byte0, Byte1, Byte2, Decode, FirstCodes;
    var u := t[4 * i..];
    assert t == t[..4 * i] + u;
    DecodeJoins(t[..4 * i], u);
    DecodeUnfolds(u);
  }

  // ---------------------------------------------------------------- the code

  /** What a decoding call does: it returns a length or -1, or a bad character ends the program. */
  datatype Outcome = Returned(length: int) | Exited

  /** A buffer that held `was` and got the characters or bytes t at its start. */
  predicate Holds(now: seq<bv8>, was: seq<bv8>, t: seq<bv8>) {
    |t| <= |was| && now == t + was[|t|..]
  }

  lemma {:induction false} HoldsNothing(was: seq<bv8>)
    ensures Holds(was, was, [])
  {
  }

  /** The next bytes of a buffer are written behind those it holds. */
  lemma {:induction false} HoldsMore(now: seq<bv8>, was: seq<bv8>, t: seq<bv8>, more: seq<bv8>, next: seq<bv8>)
    requires Holds(now, was, t) && |t| + |more| <= |was|
    requires Wrote(now, next, |t|, more)
    ensures Holds(next, was, t + more)
  {
  }

  /** The bytes of `more` were written at position p. */
  predicate Wrote(now: seq<bv8>, next: seq<bv8>, p: nat, more: seq<bv8>) {
    p + |more| <= |now| && next == now[..p] + more + now[p + |more|..]
  }

  lemma {:induction false} HoldsBounds(now: seq<bv8>, was: seq<bv8>, t: seq<bv8>)
    requires Holds(now, was, t)
    ensures |now| == |was| && |t| <= |was|
  {
  }

  /** Writing two, three or four bytes in a row. */
  lemma {:induction false} WroteInARow(s: seq<bv8>, p: nat, w: bv8, x: bv8, y: bv8, z: bv8)
    requires p + 2 <= |s|
    ensures Wrote(s, s[p := w][p + 1 := x], p, [w, x])
    ensures p + 3 <= |s| ==> Wrote(s, s[p := w][p + 1 := x][p + 2 := y], p, [w, x, y])
    ensures p + 4 <= |s| ==> Wrote(s, s[p := w][p + 1 := x][p + 2 := y][p + 3 := z], p, [w, x, y, z])
  {
  }

  lemma {:induction false} FourCharsAre(b: bv32)
    ensures FourChars(b)[..2] == [CodeToChar(Code0(b)), CodeToChar(Code1(b))]
    ensures FourChars(b)[..3] == [CodeToChar(Code0(b)), CodeToChar(Code1(b)), CodeToChar(Code2(b))]
    ensures FourChars(b)[..4] == [CodeToChar(Code0(b)), CodeToChar(Code1(b)), CodeToChar(Code2(b)), CodeToChar(Code3(b))]
  {
    hide CodeToChar, Code0, Code1, Code2, Code3;
  }

  /** Writes the first n characters of one block at position p. */
  method PutChars(out: array<bv8>, p: nat, b: bv32, n: nat)
    requires 2 <= n <= 4 && p + n <= out.Length
    modifies out
    ensures Wrote(old(out[..]), out[..], p, FourChars(b)[..n])
  {
    hide CodeToChar, Code0, Code1, Code2, Code3, FourChars, Wrote;
    FourCharsAre(b);
    WroteInARow(out[..], p, CodeToChar(Code0(b)), CodeToChar(Code1(b)), CodeToChar(Code2(b)), CodeToChar(Code3(b)));
    out[p] := CodeToChar(Code0(b));
    out[p + 1] := CodeToChar(Code1(b));
    if n == 2 {
      return;
    }
    out[p + 2] := CodeToChar(Code2(b));
    if n == 3 {
      return;
    }
    out[p + 3] := CodeToChar(Code3(b));
  }

  /** One turn of the loop over the full blocks. */
  method EncodeBlock(input: array<bv8>, out: array<bv8>, i: nat, ghost was: seq<bv8>)
    requires input != out && 3 * i + 3 <= input.Length && 4 * i + 4 <= out.Length
    requires Holds(out[..], was, Encode(input[..3 * i]))
    modifies out
    ensures Holds(out[..], was, Encode(input[..3 * i + 3]))
  {
    hide Join, FourChars, Encode, Holds, Wrote;
    ghost var now, b := out[..], Join(input[3 * i], input[3 * i + 1], input[3 * i + 2]);
    HoldsBounds(now, was, Encode(input[..3 * i]));
    PutChars(out, 4 * i, Join(input[3 * i], input[3 * i + 1], input[3 * i + 2]), 4);
    EncodeStep(input[..], i);
    Whole(FourChars(b), 4);
    HoldsMore(now, was, Encode(input[..3 * i]), FourChars(b), out[..]);
  }

  /** The loop over the full blocks. */
  method EncodeBlocks(input: array<bv8>, size: nat, out: array<bv8>, fullBlocks: nat)
    requires input != out && fullBlocks == size / 3 && size <= input.Length && 4 * fullBlocks <= out.Length
    modifies out
    ensures Holds(out[..], old(out[..]), Encode(input[..3 * fullBlocks]))
  {
    hide Encode, Holds;
    ghost var was := out[..];
    HoldsNothing(was);
    EncodeUnfolds(input[..0]);
    var i := 0;
    while i < fullBlocks
      invariant 0 <= i <= fullBlocks
      invariant Holds(out[..], was, Encode(input[..3 * i]))
    {
      EncodeBlock(input, out, i, was);
      i := i + 1;
    }
  }

  lemma {:induction false} Whole(s: seq<bv8>, n: nat)
    requires n == |s|
    ensures s[..n] == s
  {
  }

  /** The last block, of one or two bytes, and nothing when the blocks are all full. */
  method EncodeLast(input: array<bv8>, size: nat, out: array<bv8>, i: nat, lastChars: nat, ghost was: seq<bv8>)
    requires input != out && i == size / 3 && size <= input.Length && EncodedLength(size) <= out.Length
    requires lastChars == EncodedLength(size) - 4 * i
    requires Holds(out[..], was, Encode(input[..3 * i]))
    modifies out
    ensures Holds(out[..], was, Encode(input[..size]))
  {
    hide Join, FourChars, Encode, Holds, Wrote;
    ghost var s, now := input[..size], out[..];
    assert s[..3 * i] == input[..3 * i];
    HoldsBounds(now, was, Encode(s[..3 * i]));
    if lastChars == 2 {
      EncodeTail(s, i);
      PutChars(out, 4 * i, Join(input[3 * i], 0, 0), 2);
      HoldsMore(now, was, Encode(s[..3 * i]), FourChars(Join(s[3 * i], 0, 0))[..2], out[..]);
    } else if lastChars == 3 {
      EncodeTail(s, i);
      PutChars(out, 4 * i, Join(input[3 * i], input[3 * i + 1], 0), 3);
      HoldsMore(now, was, Encode(s[..3 * i]), FourChars(Join(s[3 * i], s[3 * i + 1], 0))[..3], out[..]);
    } else {
      Whole(s, 3 * i);
    }
  }

  /** bin_to_b64_nopad: -1 exactly on a null argument or a short buffer, else the encoding and its terminator. */
  method BinToB64Nopad(input: array?<bv8>, size: nat, out: array?<bv8>, maxLen: int) returns (ret: int)
    requires input != null ==> size <= input.Length
    requires out != null ==> out != input && maxLen <= out.Length && (size == 0 ==> out.Length > 0)
    modifies out
    ensures ret == -1 <==> input == null || out == null || (size > 0 && maxLen < EncodedLength(size) + 1)
    ensures ret == -1 && out != null ==> out[..] == old(out[..])
    ensures ret != -1 ==> ret == EncodedLength(size) && Holds(out[..], old(out[..]), Encode(input[..size]) + [0])
  {
    hide Join, FourChars, Encode, Holds;
    if out == null || input == null {
      return -1;
    }
    ghost var was := out[..];
    if size == 0 {
      out[0] := 0;
      EmptyEncoded(input[..size], was, out[..]);
      return 0;
    }
    var fullBlocks := size / 3;
    var lastBytes := size % 3;
    var lastChars := if lastBytes == 0 then 0 else if lastBytes == 1 then 2 else 3;
    var resultLen := 4 * fullBlocks + lastChars;
    if maxLen < resultLen + 1 {
      return -1;
    }
    EncodeBlocks(input, size, out, fullBlocks);
    EncodeLast(input, size, out, fullBlocks, lastChars, was);
    ghost var now := out[..];
    out[resultLen] := 0;
    HoldsMore(now, was, Encode(input[..size]), [0], out[..]);
    ret := resultLen;
  }

  lemma {:induction false} EmptyEncoded(s: seq<bv8>, was: seq<bv8>, now: seq<bv8>)
    requires s == [] && was != [] && now == was[0 := 0]
    ensures Holds(now, was, Encode(s) + [0])
  {
  }

  /** bin_to_b64: the padded encoding; the unpadded one stays in the buffer when only the padding does not fit. */
  method BinToB64(input: array?<bv8>, size: nat, out: array?<bv8>, maxLen: int) returns (ret: int)
    requires input != null ==> size <= input.Length
    requires out != null ==> out != input && maxLen <= out.Length && (size == 0 ==> out.Length > 0)
    modifies out
    ensures ret == -1 <==> input == null || out == null || (size > 0 && maxLen < 4 * ((size + 2) / 3) + 1)
    ensures ret != -1 ==>
              ret == 4 * ((size + 2) / 3) && Holds(out[..], old(out[..]), Padded(input[..size]) + [0])
    ensures ret == -1 && out != null && !(input != null && maxLen > EncodedLength(size)) ==> out[..] == old(out[..])
    ensures ret == -1 && input != null && out != null && maxLen > EncodedLength(size) ==>
              Holds(out[..], old(out[..]), Encode(input[..size]) + [0])
  {
    hide Encode, Holds;
    ret := BinToB64Nopad(input, size, out, maxLen);
    if ret == -1 {
      return -1;
    }
    ghost var s, now, was := input[..size], out[..], old(out[..]);
    PaddedLength(size);
    if ret % 4 == 0 {
      NoPadding(s);
    } else if ret % 4 == 2 {
      if maxLen < ret + 2 + 1 {
        return -1;
      }
      out[ret] := PAD;
      out[ret + 1] := PAD;
      out[ret + 2] := 0;
      PaddingAdded(s, now, was, [PAD, PAD, 0], out[..]);
      ret := ret + 2;
    } else {
      if maxLen < ret + 1 + 1 {
        return -1;
      }
      out[ret] := PAD;
      out[ret + 1] := 0;
      PaddingAdded(s, now, was, [PAD, 0], out[..]);
      ret := ret + 1;
    }
  }

  lemma {:induction false} PaddedLength(n: nat)
    ensures EncodedLength(n) % 4 == (if n % 3 == 0 then 0 else n % 3 + 1)
    ensures 4 * ((n + 2) / 3) == EncodedLength(n) + if n % 3 == 0 then 0 else 3 - n % 3
  {
  }

  lemma {:induction false} NoPadding(s: seq<bv8>)
    requires |s| % 3 == 0
    ensures Padded(s) == Encode(s)
  {
    hide Encode;
  }

  /** The terminator is overwritten by the padding and a new terminator. */
  lemma {:induction false} PaddingAdded(s: seq<bv8>, now: seq<bv8>, was: seq<bv8>, end: seq<bv8>, next: seq<bv8>)
    requires Holds(now, was, Encode(s) + [0])
    requires end == if |s| % 3 == 1 then [PAD, PAD, 0] else [PAD, 0]
    requires |s| % 3 != 0 && |Encode(s)| + |end| <= |was| && |next| == |now|
    requires Wrote(now, next, |Encode(s)|, end)
    ensures Holds(next, was, Padded(s) + [0])
  {
    hide Encode;
    var e := Encode(s);
    assert e + end == Padded(s) + [0];
    assert now[..|e|] == e;
    assert now[|e| + |end|..] == was[|e| + |end|..];
  }

  // ---------------------------------------------------------------- decoding

  /** The characters of one block in the work variable, or nothing when one of them is no code. */
  method GatherChars(input: array<bv8>, p: nat, n: nat) returns (r: Option<bv32>)
    requires 2 <= n <= 4 && p + n <= input.Length
    ensures r.Some? <==> AllValid(input[p..p + n])
    ensures r.Some? ==> r.value == FirstCodes(input[p..p + n])
  {
    hide CharToCode, Gather;
    ghost var t := input[p..p + n];
    var c0, c1 := CharToCode(input[p]), CharToCode(input[p + 1]);
    assert t[0] == input[p] && t[1] == input[p + 1];
    if c0.None? || c1.None? {
      return None;
    }
    var c2, c3 := 0, 0;
    if n > 2 {
      assert t[2] == input[p + 2];
      var c := CharToCode(input[p + 2]);
      if c.None? {
        return None;
      }
      c2 := c.value;
    }
    if n > 3 {
      assert t[3] == input[p + 3];
      var c := CharToCode(input[p + 3]);
      if c.None? {
        return None;
      }
      c3 := c.value;
    }
    return Some(Gather(c0.value, c1.value, c2, c3));
  }

  lemma {:induction false} ThreeBytesAre(b: bv32)
    ensures ThreeBytes(b)[..1] == [Byte0(b)]
    ensures ThreeBytes(b)[..2] == [Byte0(b), Byte1(b)]
    ensures ThreeBytes(b)[..3] == [Byte0(b), Byte1(b), Byte2(b)]
  {
    hide Byte0, Byte1, Byte2;
  }

  /** Writes the first n bytes of one block at position p. */
  method PutBytes(out: array<bv8>, p: nat, b: bv32, n: nat)
    requires 1 <= n <= 3 && p + n <= out.Length
    modifies out
    ensures Wrote(old(out[..]), out[..], p, ThreeBytes(b)[..n])
  {
    hide Byte0, Byte1, Byte2, ThreeBytes;
    ThreeBytesAre(b);
    out[p] := Byte0(b);
    if n == 1 {
      return;
    }
    out[p + 1] := Byte1(b);
    if n == 2 {
      return;
    }
    out[p + 2] := Byte2(b);
  }

  /** One turn of the loop over the full blocks. */
  method DecodeBlock(input: array<bv8>, out: array<bv8>, i: nat, ghost was: seq<bv8>) returns (ok: bool)
    requires input != out && 4 * i + 4 <= input.Length && 3 * i + 3 <= out.Length
    requires Holds(out[..], was, Decode(input[..4 * i]))
    modifies out
    ensures ok <==> AllValid(input[4 * i..4 * i + 4])
    ensures ok ==> Holds(out[..], was, Decode(input[..4 * i + 4]))
  {
    hide AllValid, ThreeBytes, FirstCodes, Decode, Holds, Wrote;
    ghost var now := out[..];
    HoldsBounds(now, was, Decode(input[..4 * i]));
    var b := GatherChars(input, 4 * i, 4);
    if b.None? {
      return false;
    }
    PutBytes(out, 3 * i, b.value, 3);
    DecodeStep(input[..], i);
    Whole(ThreeBytes(b.value), 3);
    HoldsMore(now, was, Decode(input[..4 * i]), ThreeBytes(b.value), out[..]);
    return true;
  }

  /** The loop over the full blocks; it stops the program at the first bad character. */
  method DecodeBlocks(input: array<bv8>, size: nat, out: array<bv8>, fullBlocks: nat) returns (ok: bool)
    requires input != out && fullBlocks == size / 4 && size <= input.Length && 3 * fullBlocks <= out.Length
    modifies out
    ensures ok <==> AllValid(input[..4 * fullBlocks])
    ensures ok ==> Holds(out[..], old(out[..]), Decode(input[..4 * fullBlocks]))
  {
    hide AllValid, Decode, Holds;
    ghost var was := out[..];
    HoldsNothing(was);
    NoneToDecode(input[..0]);
    var i := 0;
    while i < fullBlocks
      invariant 0 <= i <= fullBlocks
      invariant AllValid(input[..4 * i])
      invariant Holds(out[..], was, Decode(input[..4 * i]))
    {
      SplitValid(input[..], 4 * i, 4);
      var more := DecodeBlock(input, out, i, was);
      if !more {
        SplitValid(input[..4 * fullBlocks], 4 * i + 4, 4 * fullBlocks - 4 * i - 4);
        assert input[..4 * fullBlocks][..4 * i + 4] == input[..4 * i + 4];
        Whole(input[..4 * fullBlocks], 4 * fullBlocks);
        return false;
      }
      i := i + 1;
    }
    return true;
  }

  lemma {:induction false} NoneToDecode(t: seq<bv8>)
    requires t == []
    ensures Decode(t) == [] && AllValid(t)
  {
  }

  lemma {:induction false} SplitValid(t: seq<bv8>, p: nat, n: nat)
    requires p + n <= |t|
    ensures AllValid(t[..p + n]) <==> AllValid(t[..p]) && AllValid(t[p..p + n])
  {
    hide AllValid;
    assert t[..p + n] == t[..p] + t[p..p + n];
    AllValidJoins(t[..p], t[p..p + n]);
  }

  /** The last characters: two of them give one byte, three give two. */
  method DecodeLast(input: array<bv8>, size: nat, out: array<bv8>, i: nat, lastBytes: nat, ghost was: seq<bv8>)
    returns (ok: bool)
    requires input != out && i == size / 4 && size % 4 != 1 && size <= input.Length && DecodedLength(size) <= out.Length
    requires lastBytes == DecodedLength(size) - 3 * i
    requires Holds(out[..], was, Decode(input[..4 * i]))
    modifies out
    ensures ok <==> AllValid(input[4 * i..size])
    ensures ok ==> Holds(out[..], was, Decode(input[..size]))
  {
    hide AllValid, ThreeBytes, FirstCodes, Decode, Holds, Wrote;
    ghost var t, now := input[..size], out[..];
    assert t[..4 * i] == input[..4 * i];
    HoldsBounds(now, was, Decode(t[..4 * i]));
    if lastBytes == 0 {
      NoneToDecode(input[4 * i..size]);
      Whole(t, 4 * i);
      return true;
    }
    var b := GatherChars(input, 4 * i, lastBytes + 1);
    if b.None? {
      return false;
    }
    assert t[4 * i..] == input[4 * i..size];
    DecodeTail(t, i);
    PutBytes(out, 3 * i, b.value, lastBytes);
    HoldsMore(now, was, Decode(t[..4 * i]), ThreeBytes(b.value)[..lastBytes], out[..]);
    return true;
  }

  /** b64_to_bin_nopad. */
  method B64ToBinNopad(input: array?<bv8>, size: nat, out: array?<bv8>, maxLen: int) returns (r: Outcome)
    requires input != null ==> size <= input.Length
    requires out != null ==> out != input && maxLen <= out.Length
    modifies out
    ensures r == Returned(-1) <==> input == null || out == null || Refused(size, maxLen)
    ensures r == Returned(-1) && out != null ==> out[..] == old(out[..])
    ensures r.Exited? <==> input != null && out != null && !Refused(size, maxLen) && !AllValid(input[..size])
    ensures r.Returned? && r.length != -1 ==>
              r.length == DecodedLength(size) && Holds(out[..], old(out[..]), Decode(input[..size]))
  {
    hide AllValid, Decode, Holds;
    if out == null || input == null {
      return Returned(-1);
    }
    ghost var was := out[..];
    if size == 0 {
      NoneToDecode(input[..size]);
      HoldsNothing(was);
      return Returned(0);
    }
    var fullBlocks := size / 4;
    var lastChars := size % 4;
    if lastChars == 1 {
      return Returned(-1);
    }
    var lastBytes := if lastChars == 0 then 0 else if lastChars == 2 then 1 else 2;
    var resultLen := 3 * fullBlocks + lastBytes;
    if maxLen < resultLen {
      return Returned(-1);
    }
    SplitValid(input[..], 4 * fullBlocks, size - 4 * fullBlocks);
    var ok := DecodeBlocks(input, size, out, fullBlocks);
    if !ok {
      return Exited;
    }
    ok := DecodeLast(input, size, out, fullBlocks, lastBytes, was);
    if !ok {
      return Exited;
    }
    return Returned(resultLen);
  }

  /** The sizes the decoder turns down before it looks at a character. */
  predicate Refused(size: nat, maxLen: int) {
    size > 0 && (size % 4 == 1 || maxLen < DecodedLength(size))
  }

  /** b64_to_bin: takes the padding off and decodes the rest. */
  method B64ToBin(input: array?<bv8>, size: nat, out: array?<bv8>, maxLen: int) returns (r: Outcome)
    requires input != null ==> size <= input.Length
    requires out != null ==> out != input && maxLen <= out.Length
    modifies out
    ensures r == Returned(-1) <==> input == null || out == null || Refused(|Unpadded(input[..size])|, maxLen)
    ensures r == Returned(-1) && out != null ==> out[..] == old(out[..])
    ensures input != null && out != null && r.Exited? ==> !AllValid(Unpadded(input[..size]))
    ensures r.Returned? && r.length != -1 ==>
              AllValid(Unpadded(input[..size])) && r.length == DecodedLength(|Unpadded(input[..size])|) &&
              Holds(out[..], old(out[..]), Decode(Unpadded(input[..size])))
  {
    hide AllValid, Decode, Holds;
    if input == null {
      return Returned(-1);
    }
    ghost var t := input[..size];
    assert t[..size] == t;
    if size % 4 == 0 && size >= 4 {
      assert t[..size - 2] == input[..size - 2];
      assert t[..size - 1] == input[..size - 1];
      if input[size - 2] == PAD {
        r := B64ToBinNopad(input, size - 2, out, maxLen);
      } else if input[size - 1] == PAD {
        r := B64ToBinNopad(input, size - 1, out, maxLen);
      } else {
        r := B64ToBinNopad(input, size, out, maxLen);
      }
    } else {
      r := B64ToBinNopad(input, size, out, maxLen);
    }
  }
}
