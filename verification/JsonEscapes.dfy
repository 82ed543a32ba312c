/**
  * The escapes of JSON strings against section 7 of RFC 8259: a code point is written with one \u escape, or with the
  * surrogate pair of UTF-16 above 0xFFFF, four hexadecimal digits of either case for each 16-bit unit.  The parser of
  * parson.c accepts exactly these, and each becomes the UTF-8 bytes of its code point.
  */
module JsonEscapes {
  import opened Wrappers
  import opened Bytes
  import opened Json
  import opened JsonUtf8

  // ---------------------------------------------------------------- hexadecimal digits

  const LOWER: string := "0123456789abcdef"
  const UPPER: string := "0123456789ABCDEF"

  /** The character c is the hexadecimal digit d. */
  predicate Shows(c: byte, d: nat) {
    d < 16 && (c == LOWER[d] as int || c == UPPER[d] as int)
  }

  /** The text t is the 16-bit unit u, its most significant digit first. */
  ghost predicate Writes(t: bytes, u: nat) {
    && |t| == 4
    && exists d3: nat, d2: nat, d1: nat, d0: nat :: Shows(t[0], d3) && Shows(t[1], d2) && Shows(t[2], d1) && Shows(t[3], d0)
                                && u == ((d3 * 16 + d2) * 16 + d1) * 16 + d0
  }

  lemma {:induction false} DigitIff(c: byte, d: nat)
    ensures HexDigit(c) == Some(d) <==> Shows(c, d)
  {
  }

  lemma {:induction false} HexAt(s: bytes)
    ensures Hex4(s).Some? <==> |s| >= 4 && HexDigit(s[0]).Some? && HexDigit(s[1]).Some?
                               && HexDigit(s[2]).Some? && HexDigit(s[3]).Some?
    ensures Hex4(s).Some? ==> Hex4(s).value == 4096 * HexDigit(s[0]).value + 256 * HexDigit(s[1]).value
                                               + 16 * HexDigit(s[2]).value + HexDigit(s[3]).value
  {
    hide HexDigit;
  }

  /** The number read is the number written. */
  lemma {:induction false} HexIff(s: bytes, u: nat)
    ensures Hex4(s) == Some(u) <==> |s| >= 4 && Writes(s[..4], u)
  {
    hide HexDigit, Hex4, Shows;
    HexAt(s);
    if |s| >= 4 {
      var t := s[..4];
      if Hex4(s).Some? {
        var d3, d2, d1, d0 := HexDigit(s[0]).value, HexDigit(s[1]).value, HexDigit(s[2]).value, HexDigit(s[3]).value;
        DigitIff(t[0], d3);
        DigitIff(t[1], d2);
        DigitIff(t[2], d1);
        DigitIff(t[3], d0);
        assert Writes(t, ((d3 * 16 + d2) * 16 + d1) * 16 + d0);
      }
      if Writes(t, u) {
        var d3: nat, d2: nat, d1: nat, d0: nat :| Shows(t[0], d3) && Shows(t[1], d2) && Shows(t[2], d1) && Shows(t[3], d0)
                              && u == ((d3 * 16 + d2) * 16 + d1) * 16 + d0;
        DigitIff(t[0], d3);
        DigitIff(t[1], d2);
        DigitIff(t[2], d1);
        DigitIff(t[3], d0);
      }
    }
  }

  // ---------------------------------------------------------------- \u escapes

  predicate High(u: nat) {
    0xD800 <= u < 0xDC00
  }

  predicate Low(u: nat) {
    0xDC00 <= u < 0xE000
  }

  /** The text t is an escape of the code point cp: its one unit, or the two units whose low ten bits
      make up the number of cp above 0x10000. */
  ghost predicate Escapes(t: bytes, cp: nat) {
    && Scalar(cp)
    && (if cp < 0x10000 then |t| == 6 && t[..2] == [BACKSLASH, 117] && Writes(t[2..], cp)
        else
          && |t| == 12 && t[..2] == [BACKSLASH, 117] && t[6..8] == [BACKSLASH, 117]
          && exists high: nat, low: nat :: High(high) && Low(low) && Writes(t[2..6], high) && Writes(t[8..], low)
                                 && cp - 0x10000 == (high - 0xD800) * 0x400 + (low - 0xDC00))
  }

  lemma {:induction false} HexOf(s: bytes, t: bytes, u: nat)
    requires |s| >= 4 && t == s[..4] && Writes(t, u)
    ensures Hex4(s) == Some(u)
  {
    hide Hex4, Writes;
    HexIff(s, u);
  }

  /** Whatever follows an escape, reading it yields the code point in UTF-8 and takes the escape, no more. */
  lemma {:induction false} EscapeReads(t: bytes, cp: nat, rest: bytes)
    requires Escapes(t, cp)
    ensures |t| >= 2 && ReadUtf16(t[2..] + rest) == Some((Utf8(cp), |t| - 2))
  {
    hide Hex4, Writes, Utf8;
    var s := t[2..] + rest;
    if cp < 0x10000 {
      HexOf(s, t[2..], cp);
    } else {
      var high: nat, low: nat :| High(high) && Low(low) && Writes(t[2..6], high) && Writes(t[8..], low)
                       && cp - 0x10000 == (high - 0xD800) * 0x400 + (low - 0xDC00);
      assert s[..4] == t[2..6] && s[4..6] == t[6..8] && s[6..][..4] == t[8..];
      assert s[4] == t[6..8][0] && s[5] == t[6..8][1];
      HexOf(s, t[2..6], high);
      HexOf(s[6..], t[8..], low);
    }
  }

  /** An escape in a string: processed into the UTF-8 bytes of its code point, and the rest of the string is
      processed behind it. */
  lemma {:induction false} UnicodeEscape(t: bytes, cp: nat, rest: bytes)
    requires Escapes(t, cp)
    ensures Process(t + rest) == Prepend(Utf8(cp), Process(rest))
    ensures Process(t) == Some(Utf8(cp))
  {
    hide Process, Utf8, Writes;
    ProcessOne(t, cp, rest);
    ProcessOne(t, cp, []);
    NothingProcessed([]);
    assert Utf8(cp) + [] == Utf8(cp);
    assert t + [] == t;
  }

  lemma {:induction false} NothingProcessed(c: bytes)
    requires c == []
    ensures Process(c) == Some(c)
  {
  }

  lemma {:induction false} ProcessOne(t: bytes, cp: nat, rest: bytes)
    requires Escapes(t, cp)
    ensures Process(t + rest) == Prepend(Utf8(cp), Process(rest))
  {
    hide ReadUtf16, Utf8, Writes, Unescape;
    EscapeReads(t, cp, rest);
    var c := t + rest;
    assert t[..2][0] == BACKSLASH && t[..2][1] == 117;
    assert c[2..] == t[2..] + rest;
    assert c[2 + (|t| - 2)..] == rest;
  }

  /** The parser accepts nothing else behind \u. */
  lemma {:induction false} EscapeIff(s: bytes, r: bytes, n: nat)
    ensures ReadUtf16(s) == Some((r, n))
            <==> exists cp: nat :: n <= |s| && Escapes([BACKSLASH, 117] + s[..n], cp) && r == Utf8(cp)
  {
    hide Writes, Hex4, Utf8;
    if ReadUtf16(s) == Some((r, n)) {
      AcceptedIsEscape(s);
    }
    if exists cp: nat :: n <= |s| && Escapes([BACKSLASH, 117] + s[..n], cp) && r == Utf8(cp) {
      var cp: nat :| n <= |s| && Escapes([BACKSLASH, 117] + s[..n], cp) && r == Utf8(cp);
      var t := [BACKSLASH, 117] + s[..n];
      EscapeReads(t, cp, s[n..]);
      assert t[2..] + s[n..] == s;
    }
  }

  lemma {:induction false} AcceptedIsEscape(s: bytes)
    requires ReadUtf16(s).Some?
    ensures var (r, n) := ReadUtf16(s).value;
            exists cp: nat :: Escapes([BACKSLASH, 117] + s[..n], cp) && r == Utf8(cp)
  {
    hide Writes, Hex4, Utf8;
    var n := ReadUtf16(s).value.1;
    var t := [BACKSLASH, 117] + s[..n];
    var u := Hex4(s).value;
    HexIff(s, u);
    HexBound(s);
    assert t[..2] == [BACKSLASH, 117];
    if u < 0xD800 || u > 0xDFFF {
      assert t[2..] == s[..4];
      assert Escapes(t, u);
    } else {
      var low := Hex4(s[6..]).value;
      HexIff(s[6..], low);
      assert t[2..6] == s[..4] && t[6..8] == s[4..6] && t[8..] == s[6..][..4];
      assert High(u) && Low(low);
      assert Escapes(t, 0x10000 + 1024 * (u - 0xD800) + (low - 0xDC00));
    }
  }

  /** A surrogate is accepted exactly as the high half in front of the escape of a low half. */
  lemma {:induction false} SurrogateIff(s: bytes, u: nat, rest: bytes)
    requires |s| == 4 && Writes(s, u) && (High(u) || Low(u))
    ensures ReadUtf16(s + rest).Some?
            <==> High(u) && |rest| >= 6 && rest[..2] == [BACKSLASH, 117] && exists low: nat :: Low(low) && Writes(rest[2..6], low)
  {
    hide Writes, Hex4, Utf8;
    var all := s + rest;
    HexOf(all, s, u);
    if |rest| >= 6 {
      assert all[6..] == rest[2..] && all[4] == rest[..2][0] && all[5] == rest[..2][1] && rest[2..][..4] == rest[2..6];
      if Hex4(rest[2..]).Some? {
        HexIff(rest[2..], Hex4(rest[2..]).value);
      }
      if exists low: nat :: Low(low) && Writes(rest[2..6], low) {
        var low: nat :| Low(low) && Writes(rest[2..6], low);
        HexIff(rest[2..], low);
      }
    } else if ReadUtf16(all).Some? {
      ShortTail(all);
    }
  }

  lemma {:induction false} ShortTail(s: bytes)
    requires 4 <= |s| < 10
    ensures Hex4(s[if |s| < 6 then |s| else 6..]).None?
  {
  }

  /** An unpaired surrogate in a string is refused, whatever follows it. */
  lemma {:induction false} UnpairedRefused(s: bytes, u: nat, rest: bytes)
    requires |s| == 4 && Writes(s, u) && (High(u) || Low(u))
    requires High(u) ==> |rest| < 6 || rest[..2] != [BACKSLASH, 117] || forall low: nat | Low(low) :: !Writes(rest[2..6], low)
    ensures Process([BACKSLASH, 117] + s + rest).None?
  {
    hide Writes, ReadUtf16, High, Low;
    SurrogateIff(s, u, rest);
    var c := [BACKSLASH, 117] + s + rest;
    assert c[2..] == s + rest;
  }

  // ---------------------------------------------------------------- examples of the standards

  /** The G clef of section 7 of RFC 8259. */
  lemma {:induction false} ClefExample()
    ensures Process(Ascii("\\uD834\\udd1E")) == Some([0xF0, 0x9D, 0x84, 0x9E])
  {
    hide Process, Escapes, Ascii;
    var t := Ascii("\\uD834\\udd1E");
    Shown(t, 0x1D11E, 0xD834, 0xDD1E);
    UnicodeEscape(t, 0x1D11E, []);
  }

  /** Characters of section 7 of RFC 3629. */
  lemma {:induction false} Utf8Examples()
    ensures Utf8(0x41) == [0x41] && Utf8(0x391) == [0xCE, 0x91]
    ensures Utf8(0x2262) == [0xE2, 0x89, 0xA2] && Utf8(0x233B4) == [0xF0, 0xA3, 0x8E, 0xB4]
  {
  }

  lemma {:induction false} Shown(t: bytes, cp: nat, high: nat, low: nat)
    requires t == Ascii("\\uD834\\udd1E") && cp == 0x1D11E && high == 0xD834 && low == 0xDD1E
    ensures Escapes(t, cp)
  {
    assert Shows(t[2], 13) && Shows(t[3], 8) && Shows(t[4], 3) && Shows(t[5], 4);
    assert Shows(t[8], 13) && Shows(t[9], 13) && Shows(t[10], 1) && Shows(t[11], 14);
    assert high == ((13 * 16 + 8) * 16 + 3) * 16 + 4;
    assert low == ((13 * 16 + 13) * 16 + 1) * 16 + 14;
    assert Writes(t[2..6], high);
    assert Writes(t[8..], low);
  }

  /** The bytes of an ASCII text. */
  function Ascii(s: string): bytes {
    seq(|s|, i requires 0 <= i < |s| => if s[i] < 128 as char then s[i] as int else 0)
  }
}
