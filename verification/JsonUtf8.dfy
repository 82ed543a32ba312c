/**
  * UTF-8 in parson.c: the check of a byte sequence accepts exactly the encodings of Unicode scalar
  * values, and every \u escape that the parser accepts is turned into one of them.
  */
module JsonUtf8 {
  import opened Wrappers
  import opened Bytes
  import opened Json

  predicate IsCont(c: byte) {
    0x80 <= c < 0xC0
  }

  /** num_bytes_in_utf8_sequence */
  function NumBytes(c: byte): (n: nat)
    ensures n <= 4
  {
    if c == 0xC0 || c == 0xC1 || c > 0xF4 || IsCont(c) then 0
    else if c < 0x80 then 1
    else if c < 0xE0 then 2
    else if c < 0xF0 then 3
    else 4
  }

  /** The byte k behind the cursor, 0 from the end of the string on. */
  function At(s: bytes, k: nat): byte {
    if k < |s| then s[k] else 0
  }

  /** The code point written in the first n bytes, without any check. */
  function CodePoint(s: bytes, n: nat): nat {
    var a, b, c, d := At(s, 0), At(s, 1), At(s, 2), At(s, 3);
    if n == 1 then a
    else if n == 2 then 64 * (a % 32) + b % 64
    else if n == 3 then 4096 * (a % 16) + 64 * (b % 64) + c % 64
    else 262144 * (a % 8) + 4096 * (b % 64) + 64 * (c % 64) + d % 64
  }

  /** verify_utf8_sequence: the length of the sequence at the cursor, 0 when it is not valid. */
  function Verify(s: bytes): (n: nat)
    ensures n <= 4 && (s != [] ==> n <= |s|)
  {
    var n := NumBytes(At(s, 0));
    if n == 0
       || (n > 1 && !IsCont(At(s, 1))) || (n > 2 && !IsCont(At(s, 2))) || (n > 3 && !IsCont(At(s, 3)))
    then 0 else
    var cp := CodePoint(s, n);
    if (cp < 0x80 && n > 1) || (cp < 0x800 && n > 2) || (cp < 0x10000 && n > 3) then 0
    else if cp > 0x10FFFF then 0
    else if 0xD800 <= cp <= 0xDFFF then 0
    else n
  }

  predicate Scalar(cp: nat) {
    cp < 0x110000 && !(0xD800 <= cp <= 0xDFFF)
  }

  lemma {:induction false} Two(x: nat, y: nat)
    requires 2 <= x < 32 && y < 64
    ensures NumBytes(0xC0 + x) == 2 && IsCont(0x80 + y)
    ensures (0xC0 + x) % 32 == x && (0x80 + y) % 64 == y
  {
  }

  lemma {:induction false} Three(x: nat, y: nat, z: nat)
    requires x < 16 && y < 64 && z < 64
    ensures NumBytes(0xE0 + x) == 3 && IsCont(0x80 + y) && IsCont(0x80 + z)
    ensures (0xE0 + x) % 16 == x && (0x80 + y) % 64 == y && (0x80 + z) % 64 == z
  {
  }

  lemma {:induction false} Four(w: nat, x: nat, y: nat, z: nat)
    requires w <= 4 && x < 64 && y < 64 && z < 64
    ensures NumBytes(0xF0 + w) == 4 && IsCont(0x80 + x) && IsCont(0x80 + y) && IsCont(0x80 + z)
    ensures (0xF0 + w) % 8 == w && (0x80 + x) % 64 == x && (0x80 + y) % 64 == y && (0x80 + z) % 64 == z
  {
  }

  /** The digits of a number in base 64. */
  lemma {:induction false} InBase64(cp: nat)
    ensures cp == 64 * (cp / 64) + cp % 64
    ensures cp == 4096 * (cp / 4096) + 64 * (cp / 64 % 64) + cp % 64
    ensures cp == 262144 * (cp / 262144) + 4096 * (cp / 4096 % 64) + 64 * (cp / 64 % 64) + cp % 64
  {
    assert cp / 4096 == cp / 64 / 64 && cp / 262144 == cp / 4096 / 64;
  }

  /** Four bytes of a supplementary code point. */
  lemma {:induction false} FourAccepted(w: nat, x: nat, y: nat, z: nat, rest: bytes)
    requires x < 64 && y < 64 && z < 64 && w <= 4
    requires 0x10000 <= 262144 * w + 4096 * x + 64 * y + z < 0x110000
    ensures var s := [0xF0 + w, 0x80 + x, 0x80 + y, 0x80 + z] + rest;
            Verify(s) == 4 && CodePoint(s, 4) == 262144 * w + 4096 * x + 64 * y + z
  {
    hide NumBytes, IsCont;
    var s := [0xF0 + w, 0x80 + x, 0x80 + y, 0x80 + z] + rest;
    assert At(s, 0) == 0xF0 + w && At(s, 1) == 0x80 + x && At(s, 2) == 0x80 + y && At(s, 3) == 0x80 + z;
    Four(w, x, y, z);
  }

  /** Three bytes of a code point that is no surrogate. */
  lemma {:induction false} OneAccepted(x: nat, rest: bytes)
    requires x < 0x80
    ensures Verify([x] + rest) == 1 && CodePoint([x] + rest, 1) == x
  {
    hide NumBytes;
    OneByte(x);
    assert At([x] + rest, 0) == x;
  }

  lemma {:induction false} TwoAccepted(x: nat, y: nat, rest: bytes)
    requires 2 <= x < 32 && y < 64
    ensures var s := [0xC0 + x, 0x80 + y] + rest;
            Verify(s) == 2 && CodePoint(s, 2) == 64 * x + y
  {
    hide NumBytes, IsCont;
    var s := [0xC0 + x, 0x80 + y] + rest;
    assert At(s, 0) == 0xC0 + x && At(s, 1) == 0x80 + y;
    Two(x, y);
  }

  lemma {:induction false} ThreeAccepted(x: nat, y: nat, z: nat, rest: bytes)
    requires x < 16 && y < 64 && z < 64
    requires 0x800 <= 4096 * x + 64 * y + z && Scalar(4096 * x + 64 * y + z)
    ensures var s := [0xE0 + x, 0x80 + y, 0x80 + z] + rest;
            Verify(s) == 3 && CodePoint(s, 3) == 4096 * x + 64 * y + z
  {
    hide NumBytes, IsCont;
    var s := [0xE0 + x, 0x80 + y, 0x80 + z] + rest;
    assert At(s, 0) == 0xE0 + x && At(s, 1) == 0x80 + y && At(s, 2) == 0x80 + z;
    Three(x, y, z);
  }

  /** The encoding of a scalar value is accepted with its full length. */
  lemma {:induction false} EncodingIsValid(cp: nat, rest: bytes)
    requires Scalar(cp)
    ensures Verify(Utf8(cp) + rest) == |Utf8(cp)|
    ensures CodePoint(Utf8(cp) + rest, |Utf8(cp)|) == cp
  {
    hide NumBytes, IsCont, Verify, CodePoint;
    InBase64(cp);
    if cp < 0x80 {
      OneAccepted(cp, rest);
    } else if cp < 0x800 {
      TwoAccepted(cp / 64, cp % 64, rest);
    } else if cp < 0x10000 {
      ThreeAccepted(cp / 4096, cp / 64 % 64, cp % 64, rest);
    } else {
      FourAccepted(cp / 262144, cp / 4096 % 64, cp / 64 % 64, cp % 64, rest);
    }
  }

  lemma {:induction false} OneByte(x: nat)
    requires x < 0x80
    ensures NumBytes(x) == 1
  {
  }

  lemma {:induction false} TwoBytes(a: byte, b: byte)
    requires 0xC2 <= a < 0xE0 && IsCont(b)
    ensures Utf8(64 * (a % 32) + b % 64) == [a, b]
  {
    var cp := 64 * (a % 32) + b % 64;
    assert a % 32 == a - 0xC0 && b % 64 == b - 0x80;
    assert cp / 64 == a % 32 && cp % 64 == b % 64;
  }

  /** ... and the number from its digits. */
  lemma {:induction false} Digits(w: nat, x: nat, y: nat, z: nat)
    requires x < 64 && y < 64 && z < 64
    ensures var cp := 262144 * w + 4096 * x + 64 * y + z;
            cp / 262144 == w && cp / 4096 % 64 == x && cp / 64 % 64 == y && cp % 64 == z
  {
    var cp := 262144 * w + 4096 * x + 64 * y + z;
    assert cp / 64 == 4096 * w + 64 * x + y;
    assert cp / 4096 == 64 * w + x;
  }

  lemma {:induction false} ThreeWritten(x: nat, y: nat, z: nat)
    requires x < 16 && y < 64 && z < 64 && 4096 * x + 64 * y + z >= 0x800
    ensures Utf8(4096 * x + 64 * y + z) == [0xE0 + x, 0x80 + y, 0x80 + z]
  {
    Digits(0, x, y, z);
  }

  lemma {:induction false} ThreeBytes(a: byte, b: byte, c: byte)
    requires 0xE0 <= a < 0xF0 && IsCont(b) && IsCont(c)
    requires 4096 * (a % 16) + 64 * (b % 64) + c % 64 >= 0x800
    ensures Utf8(4096 * (a % 16) + 64 * (b % 64) + c % 64) == [a, b, c]
  {
    hide Utf8;
    ThreeWritten(a % 16, b % 64, c % 64);
  }

  lemma {:induction false} FourWritten(w: nat, x: nat, y: nat, z: nat)
    requires x < 64 && y < 64 && z < 64
    requires 0x10000 <= 262144 * w + 4096 * x + 64 * y + z < 0x110000
    ensures Utf8(262144 * w + 4096 * x + 64 * y + z) == [0xF0 + w, 0x80 + x, 0x80 + y, 0x80 + z]
  {
    Digits(w, x, y, z);
  }

  lemma {:induction false} LowBits(a: byte, b: byte)
    requires 0xF0 <= a <= 0xF4 && IsCont(b)
    ensures a % 8 == a - 0xF0 && b % 64 == b - 0x80
  {
  }

  lemma {:induction false} FourBytes(a: byte, b: byte, c: byte, d: byte)
    requires 0xF0 <= a <= 0xF4 && IsCont(b) && IsCont(c) && IsCont(d)
    requires 0x10000 <= 262144 * (a % 8) + 4096 * (b % 64) + 64 * (c % 64) + d % 64 < 0x110000
    ensures Utf8(262144 * (a % 8) + 4096 * (b % 64) + 64 * (c % 64) + d % 64) == [a, b, c, d]
  {
    hide Utf8, IsCont;
    LowBits(a, b);
    LowBits(a, c);
    LowBits(a, d);
    FourWritten(a - 0xF0, b % 64, c % 64, d % 64);
  }

  /** Whatever is accepted is the encoding of a scalar value. */
  lemma {:induction false} ValidIsEncoding(s: bytes)
    requires s != [] && s[0] != 0 && Verify(s) > 0
    ensures var n := Verify(s);
            && n <= |s| && Scalar(CodePoint(s, n))
            && s[..n] == Utf8(CodePoint(s, n))
  {
    var n := Verify(s);
    if n == 1 {
      assert s[..1] == [s[0]];
    } else if n == 2 {
      TwoBytes(s[0], s[1]);
      assert s[..2] == [s[0], s[1]];
    } else if n == 3 {
      ThreeBytes(s[0], s[1], s[2]);
      assert s[..3] == [s[0], s[1], s[2]];
    } else {
      FourBytes(s[0], s[1], s[2], s[3]);
      assert s[..4] == [s[0], s[1], s[2], s[3]];
    }
  }

  // ---------------------------------------------------------------- whole strings

  /** is_valid_utf8 */
  predicate IsValid(s: bytes) {
    s == [] || (Verify(s) > 0 && IsValid(s[Verify(s)..]))
  }

  function EncodeAll(cps: seq<nat>): bytes
    requires Scalars(cps)
  {
    if cps == [] then [] else Utf8(cps[0]) + EncodeAll(cps[1..])
  }

  predicate Scalars(cps: seq<nat>) {
    forall i | 0 <= i < |cps| :: Scalar(cps[i])
  }

  lemma {:induction false} EncodedIsValid(cps: seq<nat>)
    requires Scalars(cps)
    ensures IsValid(EncodeAll(cps))
  {
    if cps != [] {
      var u, more := Utf8(cps[0]), EncodeAll(cps[1..]);
      EncodedIsValid(cps[1..]);
      EncodingIsValid(cps[0], more);
      assert (u + more)[|u|..] == more;
    }
  }

  lemma {:induction false} ValidDecodes(s: bytes) returns (cps: seq<nat>)
    requires IsValid(s) && forall i | 0 <= i < |s| :: s[i] != 0
    ensures Scalars(cps) && EncodeAll(cps) == s
    decreases |s|
  {
    if s == [] {
      cps := [];
    } else {
      var n := Verify(s);
      ValidIsEncoding(s);
      var more := ValidDecodes(s[n..]);
      var cp := CodePoint(s, n);
      cps := [cp] + more;
      assert cps[1..] == more;
      assert s == s[..n] + s[n..];
    }
  }

  /** A string without a zero is accepted exactly when it encodes some scalar values. */
  lemma {:induction false} ValidIff(s: bytes)
    requires forall i | 0 <= i < |s| :: s[i] != 0
    ensures IsValid(s) <==> exists cps: seq<nat> :: Scalars(cps) && EncodeAll(cps) == s
  {
    if IsValid(s) {
      var cps := ValidDecodes(s);
    }
    if exists cps: seq<nat> :: Scalars(cps) && EncodeAll(cps) == s {
      var cps: seq<nat> :| Scalars(cps) && EncodeAll(cps) == s;
      EncodedIsValid(cps);
    }
  }

  lemma {:induction false} HexBound(s: bytes)
    ensures Hex4(s).Some? ==> Hex4(s).value < 0x10000
  {
  }

  /** A \u escape, or a pair of them, that the parser accepts stands for a valid UTF-8 sequence. */
  lemma {:induction false} EscapeIsValid(s: bytes, rest: bytes)
    requires ReadUtf16(s).Some?
    ensures var u := ReadUtf16(s).value.0; Verify(u + rest) == |u|
  {
    HexBound(s);
    var cp := Hex4(s).value;
    if cp < 0xD800 || cp > 0xDFFF {
      EncodingIsValid(cp, rest);
    } else {
      var trail := Hex4(s[6..]).value;
      var full := 0x10000 + 1024 * (cp - 0xD800) + (trail - 0xDC00);
      assert 0x10000 <= full < 0x110000;
      EncodingIsValid(full, rest);
    }
  }

  /** is_valid_utf8, as the program runs it. */
  method CheckUtf8(s: bytes) returns (valid: bool)
    ensures valid == IsValid(s)
  {
    var i := 0;
    assert s[0..] == s;
    while i < |s|
      invariant i <= |s| && IsValid(s[i..]) == IsValid(s)
    {
      var n := Verify(s[i..]);
      if n == 0 {
        return false;
      }
      assert s[i..][n..] == s[i + n..];
      i := i + n;
    }
    return true;
  }
}
