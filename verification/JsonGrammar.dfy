/**
  * The language that the parser of parson.c accepts, as a grammar, and the proof that it accepts exactly this language and
  * reads exactly these values.  Every rule relates what stands at the cursor, the value, and what stands behind its text.
  *
  * Where the parser is more liberal than RFC 8259 the grammar is, too: vertical tab and form feed are white space, the
  * first character of a member name is skipped whatever it is, -0 is the integer 0, and a string ends at its first zero.
  */
module JsonGrammar {
  import opened Wrappers
  import opened Bytes
  import opened Json
  import opened JsonUtf8
  import opened JsonEscapes

  // ---------------------------------------------------------------- the grammar

  /** t stands in s behind nothing but white space. */
  predicate Blank(s: bytes, t: bytes) {
    && |t| <= |s| && s[|s| - |t|..] == t
    && forall i | 0 <= i < |s| - |t| :: s[i] in {9, 10, 11, 12, 13, 32}
  }

  const LETTERS: string := "\"\\/bfnrt"
  const MEANINGS: bytes := [34, 92, 47, 8, 12, 10, 13, 9]

  /** One character of a string as it is written, and the bytes it stands for. */
  ghost predicate Piece(p: bytes, b: bytes) {
    || (|p| == 1 && p[0] >= 0x20 && p[0] != QUOTE && p[0] != BACKSLASH && b == p)
    || (|p| == 2 && p[0] == BACKSLASH && exists i :: 0 <= i < 8 && p[1] == LETTERS[i] as int && b == [MEANINGS[i]])
    || exists cp: nat :: Escapes(p, cp) && b == Utf8(cp)
  }

  /** The characters between two quotes, and their bytes. */
  ghost predicate Content(c: bytes, raw: bytes)
    decreases |c|
  {
    if c == [] then raw == []
    else exists k, j :: 0 < k <= |c| && 0 <= j <= |raw| && Piece(c[..k], raw[..j]) && Content(c[k..], raw[j..])
  }

  /** What a C string keeps of some bytes. */
  predicate CutAtZero(str: bytes, raw: bytes) {
    && |str| <= |raw| && raw[..|str|] == str
    && (forall i | 0 <= i < |str| :: str[i] != 0)
    && (|str| < |raw| ==> raw[|str|] == 0)
  }

  /** A string behind its first character; something has to follow the closing quote. */
  ghost predicate QuotedAt(s: bytes, str: bytes, rest: bytes) {
    && s != [] && rest != []
    && exists c, raw :: s[1..] == c + [QUOTE] + rest && Content(c, raw) && CutAtZero(str, raw)
  }

  /** The number that decimal digits write, from the most significant. */
  function Horner(ds: bytes, acc: nat): nat {
    if ds == [] then acc else Horner(ds[1..], 10 * acc + (if 48 <= ds[0] <= 57 then ds[0] - 48 else 0))
  }

  predicate Numeral(ds: bytes, m: nat) {
    && ds != [] && (forall i | 0 <= i < |ds| :: 48 <= ds[i] <= 57)
    && (|ds| > 1 ==> ds[0] != 48)
    && Horner(ds, 0) == m
  }

  /** What may follow an integer: no further digit, fraction, exponent or x. */
  predicate EndsNumber(rest: bytes) {
    rest != [] ==> !(48 <= rest[0] <= 57) && rest[0] !in {46, 69, 101, 88, 120}
  }

  ghost predicate NumberAt(s: bytes, n: int, rest: bytes) {
    && -0x20000000000000 <= n <= 0x20000000000000 && EndsNumber(rest)
    && exists ds :: (n >= 0 && Numeral(ds, n) && s == ds + rest) || (n <= 0 && Numeral(ds, -n) && s == [MINUS] + ds + rest)
  }

  predicate DistinctKeys(ms: seq<Member>) {
    forall i, j | 0 <= i < j < |ms| :: ms[i].key != ms[j].key
  }

  /** A value with d containers around it: at most 19. */
  ghost predicate ValueAt(s: bytes, v: Value, rest: bytes, d: nat)
    decreases v, Width(v) + 1
  {
    && d <= 19
    && match v
       case Null => s == Ascii("null") + rest
       case Bool(b) => s == Ascii(if b then "true" else "false") + rest
       case Number(n) => NumberAt(s, n, rest)
       case Str(str) => QuotedAt(s, str, rest) && s[0] == QUOTE
       case Arr(items) =>
         && s != [] && s[0] == OPEN_ARRAY && |items| <= 122880
         && exists t :: Blank(s[1..], t) && if items == [] then t == [CLOSE_ARRAY] + rest else ItemsAt(t, v, 0, rest, d + 1)
       case Obj(members) =>
         && s != [] && s[0] == OPEN_OBJECT && |members| <= 960 && DistinctKeys(members)
         && exists t :: Blank(s[1..], t) && if members == [] then t == [CLOSE_OBJECT] + rest
                                            else t != [] && t[0] != CLOSE_OBJECT && MembersAt(t, v, 0, rest, d + 1)
  }

  /** The items from number i on: a value, then a comma and the next ones, or the closing bracket. */
  ghost predicate ItemsAt(s: bytes, v: Value, i: nat, rest: bytes, d: nat)
    requires v.Arr? && i < |v.items|
    decreases v, |v.items| - i
  {
    exists s1, s2 :: ValueAt(s, v.items[i], s1, d) && Blank(s1, s2)
      && if i + 1 == |v.items| then s2 == [CLOSE_ARRAY] + rest
         else s2 != [] && s2[0] == COMMA && exists t :: Blank(s2[1..], t) && ItemsAt(t, v, i + 1, rest, d)
  }

  /** A member: a name that does not begin with white space, a colon and a value; what stands behind the name, at the
      colon, at the value, behind it, and at the comma or bracket that ends the member. */
  ghost predicate MemberAt(s: bytes, m: Member, s1: bytes, s2: bytes, s3: bytes, s4: bytes, s5: bytes, d: nat)
    decreases m, 0
  {
    && QuotedAt(s, m.key, s1) && s[0] !in {9, 10, 11, 12, 13, 32}
    && Blank(s1, s2) && s2 != [] && s2[0] == COLON && Blank(s2[1..], s3)
    && ValueAt(s3, m.value, s4, d) && Blank(s4, s5)
  }

  /** The members from number i on. */
  ghost predicate MembersAt(s: bytes, v: Value, i: nat, rest: bytes, d: nat)
    requires v.Obj? && i < |v.members|
    decreases v, |v.members| - i
  {
    exists s1, s2, s3, s4, s5 :: MemberAt(s, v.members[i], s1, s2, s3, s4, s5, d)
      && if i + 1 == |v.members| then s5 == [CLOSE_OBJECT] + rest
         else s5 != [] && s5[0] == COMMA && exists t :: Blank(s5[1..], t) && MembersAt(t, v, i + 1, rest, d)
  }

  // ---------------------------------------------------------------- white space

  lemma {:induction false} SkipIs(s: bytes, t: bytes)
    requires Blank(s, t) && (t != [] ==> !IsSpace(t[0]))
    ensures SkipSpaces(s) == t
  {
    if |s| > |t| {
      assert s[0] in {9, 10, 11, 12, 13, 32};
      assert s[1..][|s| - 1 - |t|..] == t;
      assert forall i | 0 <= i < |s| - 1 - |t| :: s[1..][i] == s[i + 1];
      SkipIs(s[1..], t);
    } else {
      assert s == t;
    }
  }

  lemma {:induction false} BlankCons(s: bytes, t: bytes)
    requires s != [] && s[0] in {9, 10, 11, 12, 13, 32} && Blank(s[1..], t)
    ensures Blank(s, t)
  {
    assert s[|s| - |t|..] == s[1..][|s| - 1 - |t|..];
    forall i | 0 <= i < |s| - |t| ensures s[i] in {9, 10, 11, 12, 13, 32} {
      if i > 0 { assert s[i] == s[1..][i - 1]; }
    }
  }

  lemma {:induction false} SkipBlank(s: bytes)
    ensures Blank(s, SkipSpaces(s))
    ensures SkipSpaces(s) != [] ==> !IsSpace(SkipSpaces(s)[0])
  {
    if s != [] && IsSpace(s[0]) {
      hide Blank;
      SkipBlank(s[1..]);
      BlankCons(s, SkipSpaces(s[1..]));
    } else {
      BlankSelf(s);
    }
  }

  lemma {:induction false} BlankSelf(s: bytes)
    ensures Blank(s, s)
  {
  }

  // ---------------------------------------------------------------- strings

  lemma {:induction false} ShortEscape(c: byte, b: byte)
    ensures Unescape(c) == Some(b) <==> exists i :: 0 <= i < 8 && c == LETTERS[i] as int && b == MEANINGS[i]
  {
    if Unescape(c) == Some(b) {
      var i := if c == 34 then 0 else if c == 92 then 1 else if c == 47 then 2 else if c == 98 then 3
               else if c == 102 then 4 else if c == 110 then 5 else if c == 114 then 6 else 7;
      assert c == LETTERS[i] as int && b == MEANINGS[i];
    }
  }

  lemma {:induction false} PlainPiece(p: bytes, rest: bytes)
    requires |p| == 1 && p[0] >= 0x20 && p[0] != QUOTE && p[0] != BACKSLASH
    ensures Process(p + rest) == Prepend(p, Process(rest)) && SkipQuotes(p + rest) == SkipQuotes(rest)
  {
    assert (p + rest)[1..] == rest && [(p + rest)[0]] == p;
  }

  lemma {:induction false} ShortPiece(p: bytes, b: byte, rest: bytes)
    requires |p| == 2 && p[0] == BACKSLASH && Unescape(p[1]) == Some(b)
    ensures Process(p + rest) == Prepend([b], Process(rest)) && SkipQuotes(p + rest) == SkipQuotes(rest)
  {
    assert (p + rest)[2..] == rest && (p + rest)[1] == p[1];
  }

  /** A character that is neither a quote nor a backslash. */
  predicate Harmless(c: byte) {
    c != QUOTE && c != BACKSLASH
  }

  lemma {:induction false} HexHarmless(t: bytes, u: nat)
    requires Writes(t, u)
    ensures |t| == 4 && Harmless(t[0]) && Harmless(t[1]) && Harmless(t[2]) && Harmless(t[3])
  {
    hide Shows, Harmless;
    var d3: nat, d2: nat, d1: nat, d0: nat :| Shows(t[0], d3) && Shows(t[1], d2) && Shows(t[2], d1) && Shows(t[3], d0)
                                              && u == ((d3 * 16 + d2) * 16 + d1) * 16 + d0;
    DigitHarmless(t[0], d3);
    DigitHarmless(t[1], d2);
    DigitHarmless(t[2], d1);
    DigitHarmless(t[3], d0);
  }

  lemma {:induction false} DigitHarmless(c: byte, d: nat)
    requires Shows(c, d)
    ensures Harmless(c)
  {
  }

  lemma {:induction false} SkipHarmless(s: bytes)
    requires s != [] && Harmless(s[0])
    ensures SkipQuotes(s) == SkipQuotes(s[1..])
  {
  }

  lemma {:induction false} SkipEscape(p: bytes, u: nat, rest: bytes)
    requires |p| == 6 && p[..2] == [BACKSLASH, 117] && Writes(p[2..], u)
    ensures SkipQuotes(p + rest) == SkipQuotes(rest)
  {
    hide Writes, SkipQuotes;
    var s := p + rest;
    HexHarmless(p[2..], u);
    SkipBackslash(s, p);
    assert s[2..][0] == p[2..][0] && s[3..][0] == p[2..][1] && s[4..][0] == p[2..][2] && s[5..][0] == p[2..][3];
    SkipHarmless(s[2..]);
    SkipHarmless(s[3..]);
    SkipHarmless(s[4..]);
    SkipHarmless(s[5..]);
    assert s[2..][1..] == s[3..] && s[3..][1..] == s[4..] && s[4..][1..] == s[5..] && s[5..][1..] == rest;
  }

  lemma {:induction false} SkipBackslash(s: bytes, p: bytes)
    requires |s| >= 2 && |p| >= 2 && s[0] == p[0] && p[..2] == [BACKSLASH, 117]
    ensures SkipQuotes(s) == SkipQuotes(s[2..])
  {
    assert p[0] == p[..2][0];
  }

  /** A \u piece: read whole, and skipped whole. */
  lemma {:induction false} UnicodePiece(p: bytes, cp: nat, rest: bytes)
    requires Escapes(p, cp)
    ensures Process(p + rest) == Prepend(Utf8(cp), Process(rest)) && SkipQuotes(p + rest) == SkipQuotes(rest)
  {
    hide Writes, SkipQuotes, Process, Utf8;
    UnicodeEscape(p, cp, rest);
    if cp < 0x10000 {
      SkipEscape(p, cp, rest);
    } else {
      var high: nat, low: nat :| High(high) && Low(low) && Writes(p[2..6], high) && Writes(p[8..], low)
                       && cp - 0x10000 == (high - 0xD800) * 0x400 + (low - 0xDC00);
      assert p[..6][..2] == p[..2] && p[..6][2..] == p[2..6] && p[6..][..2] == p[6..8] && p[6..][2..] == p[8..];
      SkipEscape(p[..6], high, p[6..] + rest);
      SkipEscape(p[6..], low, rest);
      assert p + rest == p[..6] + (p[6..] + rest);
    }
  }

  lemma {:induction false} PieceReads(p: bytes, b: bytes, rest: bytes)
    requires Piece(p, b)
    ensures Process(p + rest) == Prepend(b, Process(rest)) && SkipQuotes(p + rest) == SkipQuotes(rest)
  {
    hide Process, SkipQuotes, Writes, Utf8, Unescape;
    if |p| == 1 && p[0] >= 0x20 && p[0] != QUOTE && p[0] != BACKSLASH && b == p {
      PlainPiece(p, rest);
    } else if |p| == 2 && p[0] == BACKSLASH && exists i :: 0 <= i < 8 && p[1] == LETTERS[i] as int && b == [MEANINGS[i]] {
      ShortEscape(p[1], b[0]);
      ShortPiece(p, b[0], rest);
    } else {
      var cp: nat :| Escapes(p, cp) && b == Utf8(cp);
      UnicodePiece(p, cp, rest);
    }
  }

  lemma {:induction false} ContentSplits(c: bytes, raw: bytes) returns (k: nat, j: nat)
    requires Content(c, raw) && c != []
    ensures 0 < k <= |c| && j <= |raw| && Piece(c[..k], raw[..j]) && Content(c[k..], raw[j..])
    ensures c == c[..k] + c[k..] && raw == raw[..j] + raw[j..]
  {
    hide Piece;
    k, j :| 0 < k <= |c| && 0 <= j <= |raw| && Piece(c[..k], raw[..j]) && Content(c[k..], raw[j..]);
  }

  lemma {:induction false} ContentReads(c: bytes, raw: bytes, rest: bytes)
    requires Content(c, raw)
    ensures Process(c) == Some(raw) && SkipQuotes(c + ([QUOTE] + rest)) == rest
    decreases |c|
  {
    hide Piece, Process, SkipQuotes, Content;
    if c == [] {
      NoContent(raw);
      NothingProcessed(c);
      assert c + ([QUOTE] + rest) == [QUOTE] + rest;
      ClosingQuote(rest);
    } else {
      var k, j := ContentSplits(c, raw);
      var p, more := c[..k], c[k..];
      ContentReads(more, raw[j..], rest);
      PieceReads(p, raw[..j], more);
      PieceReads(p, raw[..j], more + ([QUOTE] + rest));
      Assoc(p, more, [QUOTE] + rest);
    }
  }

  lemma {:induction false} NoContent(raw: bytes)
    requires Content([], raw)
    ensures raw == []
  {
  }

  lemma {:induction false} ClosingQuote(rest: bytes)
    ensures SkipQuotes([QUOTE] + rest) == rest
  {
    assert ([QUOTE] + rest)[1..] == rest;
  }

  /** The first piece of characters that can be processed. */
  lemma {:induction false} FirstPiece(c: bytes, raw: bytes) returns (k: nat, j: nat)
    requires c != [] && c[0] != QUOTE && Process(c) == Some(raw)
    ensures 0 < k <= |c| && j <= |raw| && Piece(c[..k], raw[..j]) && Process(c[k..]) == Some(raw[j..])
  {
    hide ReadUtf16, Unescape, Writes, Utf8;
    if c[0] == BACKSLASH {
      if c[1] == 117 {
        var (bs, n) := ReadUtf16(c[2..]).value;
        EscapeIff(c[2..], bs, n);
        var cp: nat :| n <= |c[2..]| && Escapes([BACKSLASH, 117] + c[2..][..n], cp) && bs == Utf8(cp);
        k, j := 2 + n, |bs|;
        assert c[..k] == [BACKSLASH, 117] + c[2..][..n];
        assert raw[..j] == bs;
        assert c[2 + n..] == c[k..];
      } else {
        var b := Unescape(c[1]).value;
        ShortEscape(c[1], b);
        k, j := 2, 1;
        assert raw[..1] == [b];
      }
    } else {
      k, j := 1, 1;
      assert c[..1] == [c[0]] && raw[..1] == [c[0]];
    }
  }

  lemma {:induction false} ReadContent(c: bytes, raw: bytes, rest: bytes)
    requires Process(c) == Some(raw) && SkipQuotes(c + ([QUOTE] + rest)) == rest
    ensures Content(c, raw)
    decreases |c|
  {
    hide Piece, Process, SkipQuotes;
    var tail := [QUOTE] + rest;
    if c == [] {
      NothingProcessed(c);
    } else {
      NoQuoteFirst(c, rest);
      var k, j := FirstPiece(c, raw);
      PieceReads(c[..k], raw[..j], c[k..] + tail);
      assert c + tail == c[..k] + (c[k..] + tail);
      ReadContent(c[k..], raw[j..], rest);
    }
  }

  lemma {:induction false} NoQuoteFirst(c: bytes, rest: bytes)
    requires c != [] && SkipQuotes(c + ([QUOTE] + rest)) == rest
    ensures c[0] != QUOTE
  {
    if c[0] == QUOTE { EndsTooSoon(c, rest); }
  }

  lemma {:induction false} EndsTooSoon(c: bytes, rest: bytes)
    requires c != [] && c[0] == QUOTE
    ensures SkipQuotes(c + ([QUOTE] + rest)) != rest
  {
    assert |(c + ([QUOTE] + rest))[1..]| > |rest|;
  }

  /** What skip_quotes stops behind is a quote. */
  lemma {:induction false} StopsAtQuote(s: bytes) returns (c: bytes)
    requires SkipQuotes(s) != []
    ensures s == c + ([QUOTE] + SkipQuotes(s))
    decreases |s|
  {
    if s[0] == QUOTE {
      c := [];
      assert s == [] + ([QUOTE] + s[1..]);
    } else {
      var k := if s[0] == BACKSLASH then 2 else 1;
      var more := StopsAtQuote(s[k..]);
      c := s[..k] + more;
      Assoc(s[..k], more, [QUOTE] + SkipQuotes(s));
      assert s == s[..k] + s[k..];
    }
  }

  lemma {:induction false} CutIs(str: bytes, raw: bytes)
    ensures CutAtZero(str, raw) <==> str == UpToZero(raw)
  {
    if raw != [] && raw[0] != 0 {
      CutIs(str[if str == [] then 0 else 1..], raw[1..]);
      if str == UpToZero(raw) {
        assert str[1..] == UpToZero(raw[1..]);
        assert raw[..|str|] == [raw[0]] + raw[1..][..|str| - 1];
      }
      if CutAtZero(str, raw) {
        assert str != [];
        assert raw[1..][..|str| - 1] == str[1..];
        assert str == [str[0]] + str[1..];
      }
    }
  }

  lemma {:induction false} QuotedIs(s: bytes, str: bytes, rest: bytes)
    requires s != [] && ReadQuoted(s) == Some((str, rest))
    ensures QuotedAt(s, str, rest)
  {
    hide SkipQuotes, Process, Content, CutAtZero, UpToZero;
    var c := StopsAtQuote(s[1..]);
    Assoc(c, [QUOTE], rest);
    assert s[1..|s| - |rest| - 1] == s[1..][..|c|] == c;
    var raw := Process(c).value;
    ReadContent(c, raw, rest);
    CutIs(str, raw);
  }

  lemma {:induction false} QuotedReads(s: bytes, c: bytes, raw: bytes, rest: bytes)
    requires s != [] && rest != [] && s[1..] == c + [QUOTE] + rest && Content(c, raw)
    ensures ReadQuoted(s) == Some((UpToZero(raw), rest))
  {
    hide SkipQuotes, Process, Content, UpToZero;
    ContentReads(c, raw, rest);
    Assoc(c, [QUOTE], rest);
    assert s[1..|s| - |rest| - 1] == s[1..][..|c|] == c;
  }

  /** get_quoted_string. */
  lemma {:induction false} QuotedIff(s: bytes, str: bytes, rest: bytes)
    requires s != []
    ensures ReadQuoted(s) == Some((str, rest)) <==> QuotedAt(s, str, rest)
  {
    hide ReadQuoted, Content, CutAtZero, UpToZero;
    if ReadQuoted(s) == Some((str, rest)) {
      QuotedIs(s, str, rest);
    }
    if QuotedAt(s, str, rest) {
      var c, raw :| s[1..] == c + [QUOTE] + rest && Content(c, raw) && CutAtZero(str, raw);
      QuotedReads(s, c, raw, rest);
      CutIs(str, raw);
    }
  }

  // ---------------------------------------------------------------- numbers

  lemma {:induction false} HornerSnoc(ds: bytes, d: byte, acc: nat)
    requires 48 <= d <= 57
    ensures Horner(ds + [d], acc) == 10 * Horner(ds, acc) + (d - 48)
  {
    if ds == [] {
      assert [] + [d] == [d] && [d][1..] == [];
      assert Horner([d][1..], 10 * acc + (d - 48)) == 10 * acc + (d - 48);
    } else {
      assert (ds + [d])[1..] == ds[1..] + [d];
      HornerSnoc(ds[1..], d, 10 * acc + (if 48 <= ds[0] <= 57 then ds[0] - 48 else 0));
    }
  }

  lemma {:induction false} HornerIsDecimal(ds: bytes)
    requires forall i | 0 <= i < |ds| :: 48 <= ds[i] <= 57
    ensures Horner(ds, 0) == Decimal(ds)
  {
    if ds != [] {
      var k := |ds| - 1;
      HornerIsDecimal(ds[..k]);
      HornerSnoc(ds[..k], ds[k], 0);
      assert ds == ds[..k] + [ds[k]];
    }
  }

  lemma {:induction false} DigitsEndAt(ds: bytes, rest: bytes)
    requires (forall i | 0 <= i < |ds| :: 48 <= ds[i] <= 57) && EndsNumber(rest)
    ensures DigitsEnd(ds + rest) == |ds|
  {
    if ds == [] {
      assert ds + rest == rest;
    } else {
      assert (ds + rest)[1..] == ds[1..] + rest;
      DigitsEndAt(ds[1..], rest);
    }
  }

  /** parse_number_value behind its sign. */
  function Unsigned(t: bytes): Option<(nat, bytes)> {
    var k := DigitsEnd(t);
    if k == 0 || (k > 1 && t[0] == 48) || !EndsNumber(t[k..]) || Horner(t[..k], 0) > 0x20000000000000 then None
    else Some((Horner(t[..k], 0), t[k..]))
  }

  lemma {:induction false} SignedIs(s: bytes)
    ensures var neg := Peek(s) == MINUS;
            var u := Unsigned(if neg then s[1..] else s);
            ReadNumber(s) == if u.None? then None else Some((if neg then 0 - u.value.0 else u.value.0, u.value.1))
  {
    hide Horner, Decimal, DigitsEnd;
    var t := if Peek(s) == MINUS then s[1..] else s;
    HornerIsDecimal(t[..DigitsEnd(t)]);
    EndOfDigits(t);
  }

  lemma {:induction false} EndOfDigits(t: bytes)
    ensures var k := DigitsEnd(t);
            k <= |t| && (EndsNumber(t[k..]) <==> !(k < |t| && t[k] in {46, 69, 101, 88, 120}))
            && forall i | 0 <= i < k :: 48 <= t[i] <= 57
  {
  }

  /** The digits in front of the cursor are the numeral. */
  lemma {:induction false} UnsignedIff(t: bytes, m: nat, rest: bytes)
    ensures Unsigned(t) == Some((m, rest))
            <==> EndsNumber(rest) && m <= 0x20000000000000 && exists ds :: Numeral(ds, m) && t == ds + rest
  {
    hide Horner, DigitsEnd, EndsNumber;
    if Unsigned(t) == Some((m, rest)) {
      EndOfDigits(t);
      assert Numeral(t[..DigitsEnd(t)], m);
    }
    if EndsNumber(rest) && m <= 0x20000000000000 && exists ds :: Numeral(ds, m) && t == ds + rest {
      var ds :| Numeral(ds, m) && t == ds + rest;
      DigitsEndAt(ds, rest);
      assert t[..|ds|] == ds && t[|ds|..] == rest && t[0] == ds[0];
    }
  }

  lemma {:induction false} SignOf(s: bytes, ds: bytes, m: nat, rest: bytes)
    requires Numeral(ds, m)
    ensures s == ds + rest ==> Peek(s) != MINUS
    ensures s == [MINUS] + ds + rest ==> Peek(s) == MINUS && s[1..] == ds + rest
  {
    hide Horner;
  }

  /** parse_number_value on integers. */
  lemma {:induction false} NumberIff(s: bytes, n: int, rest: bytes)
    ensures ReadNumber(s) == Some((n, rest)) <==> NumberAt(s, n, rest)
  {
    hide ReadNumber, Unsigned, Numeral, EndsNumber;
    SignedIs(s);
    if ReadNumber(s) == Some((n, rest)) {
      var t := if Peek(s) == MINUS then s[1..] else s;
      var m := Unsigned(t).value.0;
      UnsignedIff(t, m, rest);
      var ds :| Numeral(ds, m) && t == ds + rest;
      if Peek(s) == MINUS { assert s == [MINUS] + ds + rest; }
    }
    if NumberAt(s, n, rest) {
      var ds :| (n >= 0 && Numeral(ds, n) && s == ds + rest) || (n <= 0 && Numeral(ds, -n) && s == [MINUS] + ds + rest);
      if n >= 0 && Numeral(ds, n) && s == ds + rest {
        SignOf(s, ds, n, rest);
        UnsignedIff(s, n, rest);
      } else {
        SignOf(s, ds, -n, rest);
        UnsignedIff(s[1..], -n, rest);
      }
    }
  }

  // ---------------------------------------------------------------- values

  /** The texts of null, true and false. */
  lemma {:induction false} Words()
    ensures NULL == Ascii("null") && TRUE == Ascii("true") && FALSE == Ascii("false")
  {
  }

  lemma {:induction false} WordIff(w: bytes, t: bytes, rest: bytes)
    ensures w <= t && t[|w|..] == rest <==> t == w + rest
  {
  }

  predicate IsScalar(v: Value) {
    v.Null? || v.Bool? || v.Number? || v.Str?
  }

  /** How the text of a value begins. */
  predicate Begins(c: byte, v: Value) {
    match v
    case Null => c == 110
    case Bool(b) => c == if b then 116 else 102
    case Number(_) => c == MINUS || IsDigit(c)
    case Str(_) => c == QUOTE
    case Arr(_) => c == OPEN_ARRAY
    case Obj(_) => c == OPEN_OBJECT
  }

  lemma {:induction false} NumberBegins(s: bytes, n: int, rest: bytes)
    requires NumberAt(s, n, rest)
    ensures s != [] && (s[0] == MINUS || IsDigit(s[0]))
  {
    hide Numeral;
    var ds :| (n >= 0 && Numeral(ds, n) && s == ds + rest) || (n <= 0 && Numeral(ds, -n) && s == [MINUS] + ds + rest);
    if n >= 0 && Numeral(ds, n) && s == ds + rest {
      NumeralBegins(ds, n);
    }
  }

  lemma {:induction false} ValueBegins(s: bytes, v: Value, rest: bytes, d: nat)
    requires ValueAt(s, v, rest, d)
    ensures s != [] && Begins(s[0], v) && !IsSpace(s[0]) && d <= 19
  {
    hide NumberAt, QuotedAt, ItemsAt, MembersAt;
    Words();
    match v
    case Bool(b) => assert s == (if b then TRUE else FALSE) + rest;
    case Number(n) => NumberBegins(s, n, rest);
    case Str(str) => QuotedBegins(s, str, rest);
    case _ =>
  }

  lemma {:induction false} QuotedBegins(s: bytes, str: bytes, rest: bytes)
    requires QuotedAt(s, str, rest)
    ensures s != []
  {
  }

  lemma {:induction false} NumeralBegins(ds: bytes, m: nat)
    requires Numeral(ds, m)
    ensures ds != [] && IsDigit(ds[0])
  {
  }

  // ---------------------------------------------------------------- every text of the grammar is read

  lemma {:induction false} Stays(s: bytes)
    requires s != [] ==> !IsSpace(s[0])
    ensures SkipSpaces(s) == s
  {
  }

  lemma {:induction false} ScalarReads(s: bytes, v: Value, rest: bytes, d: nat)
    requires IsScalar(v) && ValueAt(s, v, rest, d)
    ensures ReadValue(s, d) == Some((v, rest))
  {
    hide NumberAt, QuotedAt, ReadQuoted, ReadNumber, SkipSpaces, ReadArray, ReadObject;
    ValueBegins(s, v, rest, d);
    Stays(s);
    Words();
    match v
    case Null => WordIff(NULL, s, rest);
    case Bool(b) => WordIff(if b then TRUE else FALSE, s, rest);
    case Number(n) => NumberIff(s, n, rest);
    case Str(str) => QuotedIff(s, str, rest);
  }

  lemma {:induction false} ArrayStep(s: bytes, t: bytes, v: Value, rest: bytes, d: nat)
    requires s != [] && s[0] == OPEN_ARRAY && d <= 19 && SkipSpaces(s[1..]) == t
    requires if Peek(t) == CLOSE_ARRAY then v == Arr([]) && rest == t[1..] else ReadItems(t, d + 1, []) == Some((v, rest))
    ensures ReadValue(s, d) == Some((v, rest))
  {
    hide SkipSpaces, ReadItems, ReadObject, ReadQuoted, ReadNumber;
    Stays(s);
  }

  lemma {:induction false} ItemStep(s: bytes, d: nat, acc: seq<Value>, x: Value, s1: bytes, s2: bytes)
    requires ReadValue(s, d) == Some((x, s1)) && |acc| < 122880 && s2 == SkipSpaces(s1)
    ensures Peek(s2) == CLOSE_ARRAY ==> ReadItems(s, d, acc) == Some((Arr(acc + [x]), s2[1..]))
    ensures Peek(s2) == COMMA ==> ReadItems(s, d, acc) == ReadItems(SkipSpaces(s2[1..]), d, acc + [x])
  {
    hide SkipSpaces, ReadValue;
  }

  lemma {:induction false} ItemsBegin(s: bytes, v: Value, i: nat, rest: bytes, d: nat)
    requires v.Arr? && i < |v.items| && ItemsAt(s, v, i, rest, d)
    ensures s != [] && !IsSpace(s[0]) && s[0] != CLOSE_ARRAY
  {
    hide ValueAt;
    var s1, s2 :| ValueAt(s, v.items[i], s1, d) && Blank(s1, s2)
      && if i + 1 == |v.items| then s2 == [CLOSE_ARRAY] + rest
         else s2 != [] && s2[0] == COMMA && exists t :: Blank(s2[1..], t) && ItemsAt(t, v, i + 1, rest, d);
    ValueBegins(s, v.items[i], s1, d);
  }

  lemma {:induction false} ValueReads(s: bytes, v: Value, rest: bytes, d: nat)
    requires ValueAt(s, v, rest, d)
    ensures ReadValue(s, d) == Some((v, rest))
    decreases v, Width(v) + 1
  {
    hide ItemsAt, MembersAt, ReadItems, ReadMembers, ReadValue, SkipSpaces, Blank, QuotedAt, NumberAt;
    if IsScalar(v) {
      ScalarReads(s, v, rest, d);
    } else if v.Arr? {
      var t :| Blank(s[1..], t) && if v.items == [] then t == [CLOSE_ARRAY] + rest else ItemsAt(t, v, 0, rest, d + 1);
      if v.items != [] {
        ItemsBegin(t, v, 0, rest, d + 1);
        ItemsRead(t, v, 0, rest, d + 1);
        assert v.items[..0] == [];
      }
      SkipIs(s[1..], t);
      ArrayStep(s, t, v, rest, d);
    } else {
      var t :| Blank(s[1..], t) && if v.members == [] then t == [CLOSE_OBJECT] + rest
                                   else t != [] && t[0] != CLOSE_OBJECT && MembersAt(t, v, 0, rest, d + 1);
      if v.members != [] {
        MembersBegin(t, v, 0, rest, d + 1);
        MembersRead(t, v, 0, rest, d + 1);
        assert v.members[..0] == [];
      }
      SkipIs(s[1..], t);
      ObjectStep(s, t, v, rest, d);
    }
  }

  lemma {:induction false} ItemsRead(s: bytes, v: Value, i: nat, rest: bytes, d: nat)
    requires v.Arr? && i < |v.items| <= 122880 && ItemsAt(s, v, i, rest, d)
    ensures ReadItems(s, d, v.items[..i]) == Some((v, rest))
    decreases v, |v.items| - i
  {
    hide ValueAt, ReadItems, ReadValue, SkipSpaces, Blank;
    var s1, s2 :| ValueAt(s, v.items[i], s1, d) && Blank(s1, s2)
      && if i + 1 == |v.items| then s2 == [CLOSE_ARRAY] + rest
         else s2 != [] && s2[0] == COMMA && exists t :: Blank(s2[1..], t) && ItemsAt(t, v, i + 1, rest, d);
    ValueReads(s, v.items[i], s1, d);
    SkipIs(s1, s2);
    ItemStep(s, d, v.items[..i], v.items[i], s1, s2);
    assert v.items[..i] + [v.items[i]] == v.items[..i + 1];
    if i + 1 < |v.items| {
      var t :| Blank(s2[1..], t) && ItemsAt(t, v, i + 1, rest, d);
      ItemsBegin(t, v, i + 1, rest, d);
      SkipIs(s2[1..], t);
      ItemsRead(t, v, i + 1, rest, d);
    } else {
      assert v == Arr(v.items[..i + 1]);
    }
  }

  lemma {:induction false} ObjectStep(s: bytes, t: bytes, v: Value, rest: bytes, d: nat)
    requires s != [] && s[0] == OPEN_OBJECT && d <= 19 && SkipSpaces(s[1..]) == t
    requires if Peek(t) == CLOSE_OBJECT then v == Obj([]) && rest == t[1..] else ReadMembers(t, d + 1, []) == Some((v, rest))
    ensures ReadValue(s, d) == Some((v, rest))
  {
    hide SkipSpaces, ReadMembers, ReadArray, ReadQuoted, ReadNumber;
    Stays(s);
  }

  lemma {:induction false} MemberStep(s: bytes, d: nat, acc: seq<Member>, m: Member, s1: bytes, s2: bytes, s4: bytes, s5: bytes)
    requires s != [] && ReadQuoted(s) == Some((m.key, s1)) && s2 == SkipSpaces(s1) && Peek(s2) == COLON
    requires ReadValue(s2[1..], d) == Some((m.value, s4)) && s5 == SkipSpaces(s4) && |acc| < 960 && !HasKey(acc, m.key)
    ensures Peek(s5) == CLOSE_OBJECT ==> ReadMembers(s, d, acc) == Some((Obj(acc + [m]), s5[1..]))
    ensures Peek(s5) == COMMA ==> ReadMembers(s, d, acc) == ReadMembers(SkipSpaces(s5[1..]), d, acc + [m])
  {
    hide SkipSpaces, ReadValue, ReadQuoted, HasKey;
  }

  lemma {:induction false} MembersBegin(s: bytes, v: Value, i: nat, rest: bytes, d: nat)
    requires v.Obj? && i < |v.members| && MembersAt(s, v, i, rest, d)
    ensures s != [] && !IsSpace(s[0])
  {
    hide ValueAt;
  }

  lemma {:induction false} SameRead(s: bytes, t: bytes, d: nat)
    requires SkipSpaces(s) == SkipSpaces(t)
    ensures ReadValue(s, d) == ReadValue(t, d)
  {
    hide SkipSpaces, ReadArray, ReadObject, ReadQuoted, ReadNumber;
  }

  lemma {:induction false} NewKey(ms: seq<Member>, i: nat)
    requires DistinctKeys(ms) && i < |ms|
    ensures !HasKey(ms[..i], ms[i].key)
  {
  }

  /** One member is read. */
  lemma {:induction false} MemberReads(s: bytes, v: Value, i: nat, s1: bytes, s2: bytes, s3: bytes, s4: bytes, s5: bytes, d: nat)
    requires v.Obj? && i < |v.members| <= 960 && DistinctKeys(v.members) && MemberAt(s, v.members[i], s1, s2, s3, s4, s5, d)
    requires s5 != [] && (s5[0] == COMMA || s5[0] == CLOSE_OBJECT)
    ensures s5[0] == CLOSE_OBJECT ==> ReadMembers(s, d, v.members[..i]) == Some((Obj(v.members[..i + 1]), s5[1..]))
    ensures s5[0] == COMMA ==> ReadMembers(s, d, v.members[..i]) == ReadMembers(SkipSpaces(s5[1..]), d, v.members[..i + 1])
    decreases v, |v.members| - i, 0
  {
    hide ValueAt, ReadMembers, ReadValue, SkipSpaces, Blank, QuotedAt, ReadQuoted, DistinctKeys, HasKey;
    var m := v.members[i];
    QuotedBegins(s, m.key, s1);
    QuotedIff(s, m.key, s1);
    SkipIs(s1, s2);
    ValueReads(s3, m.value, s4, d);
    ValueBegins(s3, m.value, s4, d);
    SkipIs(s2[1..], s3);
    Stays(s3);
    SameRead(s2[1..], s3, d);
    SkipIs(s4, s5);
    NewKey(v.members, i);
    MemberStep(s, d, v.members[..i], m, s1, s2, s4, s5);
    assert v.members[..i] + [m] == v.members[..i + 1];
  }

  lemma {:induction false} MembersRead(s: bytes, v: Value, i: nat, rest: bytes, d: nat)
    requires v.Obj? && i < |v.members| <= 960 && DistinctKeys(v.members) && MembersAt(s, v, i, rest, d)
    ensures ReadMembers(s, d, v.members[..i]) == Some((v, rest))
    decreases v, |v.members| - i, 1
  {
    hide MemberAt, ReadMembers, SkipSpaces, Blank, DistinctKeys;
    var s1, s2, s3, s4, s5 :| MemberAt(s, v.members[i], s1, s2, s3, s4, s5, d)
      && if i + 1 == |v.members| then s5 == [CLOSE_OBJECT] + rest
         else s5 != [] && s5[0] == COMMA && exists t :: Blank(s5[1..], t) && MembersAt(t, v, i + 1, rest, d);
    MemberReads(s, v, i, s1, s2, s3, s4, s5, d);
    if i + 1 < |v.members| {
      var t :| Blank(s5[1..], t) && MembersAt(t, v, i + 1, rest, d);
      MembersBegin(t, v, i + 1, rest, d);
      SkipIs(s5[1..], t);
      MembersRead(t, v, i + 1, rest, d);
    } else {
      assert v == Obj(v.members[..i + 1]);
    }
  }

  // ---------------------------------------------------------------- nothing else is read

  /** What the head of a text decides. */
  lemma {:induction false} ReadHead(s: bytes, d: nat)
    requires ReadValue(s, d).Some?
    ensures var t := SkipSpaces(s);
            && d <= 19 && t != [] && |t| <= |s|
            && (t[0] == OPEN_ARRAY ==> ReadValue(s, d) == ReadArray(t, d + 1))
            && (t[0] == OPEN_OBJECT ==> ReadValue(s, d) == ReadObject(t, d + 1))
  {
    hide SkipSpaces, ReadArray, ReadObject, ReadQuoted, ReadNumber;
    SkipShorter(s);
  }

  lemma {:induction false} SkipShorter(s: bytes)
    ensures |SkipSpaces(s)| <= |s|
  {
  }

  lemma {:induction false} ReadScalar(s: bytes, d: nat, v: Value, rest: bytes)
    requires ReadValue(s, d) == Some((v, rest))
    requires SkipSpaces(s) != [] && SkipSpaces(s)[0] != OPEN_ARRAY && SkipSpaces(s)[0] != OPEN_OBJECT
    ensures ValueAt(SkipSpaces(s), v, rest, d)
  {
    hide NumberAt, QuotedAt, ReadQuoted, ReadNumber, SkipSpaces, ReadArray, ReadObject, ItemsAt, MembersAt;
    Words();
    var t := SkipSpaces(s);
    var c := t[0];
    if c == QUOTE {
      QuotedIff(t, v.s, rest);
    } else if c == 102 || c == 116 {
      WordIff(if v.b then TRUE else FALSE, t, rest);
      assert t == Ascii(if v.b then "true" else "false") + rest;
    } else if c == MINUS || IsDigit(c) {
      NumberIff(t, v.n, rest);
    } else {
      WordIff(NULL, t, rest);
    }
  }

  lemma {:induction false} ReadIsValue(s: bytes, d: nat, v: Value, rest: bytes)
    requires ReadValue(s, d) == Some((v, rest))
    ensures ValueAt(SkipSpaces(s), v, rest, d)
    decreases |s|, 2
  {
    hide ReadValue, ReadItems, ReadMembers, SkipSpaces, Blank, ItemsAt, MembersAt, QuotedAt, NumberAt, DistinctKeys;
    var t := SkipSpaces(s);
    ReadHead(s, d);
    if t[0] == OPEN_ARRAY {
      var u := SkipSpaces(t[1..]);
      SkipBlank(t[1..]);
      SkipShorter(t[1..]);
      if Peek(u) == CLOSE_ARRAY {
        assert u == [CLOSE_ARRAY] + u[1..];
      } else {
        ItemsAre(u, d + 1, [], v, rest);
      }
    } else if t[0] == OPEN_OBJECT {
      var u := SkipSpaces(t[1..]);
      SkipBlank(t[1..]);
      SkipShorter(t[1..]);
      if Peek(u) == CLOSE_OBJECT {
        assert u == [CLOSE_OBJECT] + u[1..];
        NoKeys();
      } else {
        NoKeys();
        MembersAre(u, d + 1, [], v, rest);
      }
    } else {
      ReadScalar(s, d, v, rest);
    }
  }

  lemma {:induction false} NoKeys()
    ensures DistinctKeys([])
  {
  }

  /** What one turn of the loop over the items has read. */
  lemma {:induction false} ItemTurn(s: bytes, d: nat, acc: seq<Value>, w: Value, rest: bytes)
    requires ReadItems(s, d, acc) == Some((w, rest))
    ensures ReadValue(s, d).Some? && |acc| < 122880
    ensures var (x, s1) := ReadValue(s, d).value;
            var s2 := SkipSpaces(s1);
            && |s1| < |s| && s2 != []
            && (|| (s2[0] == COMMA && ReadItems(SkipSpaces(s2[1..]), d, acc + [x]) == Some((w, rest)))
                || (s2[0] == CLOSE_ARRAY && w == Arr(acc + [x]) && rest == s2[1..]))
  {
    hide SkipSpaces, ReadValue;
    var r := ReadValue(s, d);
  }

  lemma {:induction false} ItemsAre(s: bytes, d: nat, acc: seq<Value>, w: Value, rest: bytes)
    requires ReadItems(s, d, acc) == Some((w, rest)) && (s != [] ==> !IsSpace(s[0]))
    ensures w.Arr? && |acc| < |w.items| <= 122880 && acc == w.items[..|acc|]
    ensures ItemsAt(s, w, |acc|, rest, d)
    decreases |s|, 3
  {
    hide ReadValue, ReadItems, SkipSpaces, Blank, ValueAt;
    ItemTurn(s, d, acc, w, rest);
    var (x, s1) := ReadValue(s, d).value;
    var s2 := SkipSpaces(s1);
    Stays(s);
    ReadIsValue(s, d, x, s1);
    SkipBlank(s1);
    SkipShorter(s1);
    if s2[0] == COMMA {
      var t := SkipSpaces(s2[1..]);
      SkipBlank(s2[1..]);
      SkipShorter(s2[1..]);
      ItemsAre(t, d, acc + [x], w, rest);
      assert acc == w.items[..|acc| + 1][..|acc|];
      assert w.items[|acc|] == (acc + [x])[|acc|];
    } else {
      assert s2 == [CLOSE_ARRAY] + rest;
      assert acc == (acc + [x])[..|acc|] && w.items[|acc|] == x;
    }
  }

  lemma {:induction false} MemberTurn(s: bytes, d: nat, acc: seq<Member>, w: Value, rest: bytes)
    requires ReadMembers(s, d, acc) == Some((w, rest))
    ensures s != [] && ReadQuoted(s).Some? && |acc| < 960
    ensures var (key, s1) := ReadQuoted(s).value;
            var s2 := SkipSpaces(s1);
            && !HasKey(acc, key) && |s1| < |s| && s2 != [] && s2[0] == COLON && ReadValue(s2[1..], d).Some?
            && var (x, s4) := ReadValue(s2[1..], d).value;
               var s5 := SkipSpaces(s4);
               && |s4| < |s2| && s5 != []
               && (|| (s5[0] == COMMA && ReadMembers(SkipSpaces(s5[1..]), d, acc + [Member(key, x)]) == Some((w, rest)))
                   || (s5[0] == CLOSE_OBJECT && w == Obj(acc + [Member(key, x)]) && rest == s5[1..]))
  {
    hide SkipSpaces, ReadValue, ReadQuoted, HasKey;
  }

  lemma {:induction false} KeyAdded(acc: seq<Member>, m: Member)
    requires DistinctKeys(acc) && !HasKey(acc, m.key)
    ensures DistinctKeys(acc + [m])
  {
  }

  lemma {:induction false} MembersAre(s: bytes, d: nat, acc: seq<Member>, w: Value, rest: bytes)
    requires ReadMembers(s, d, acc) == Some((w, rest)) && (s != [] ==> !IsSpace(s[0])) && DistinctKeys(acc)
    ensures w.Obj? && |acc| < |w.members| <= 960 && acc == w.members[..|acc|] && DistinctKeys(w.members)
    ensures MembersAt(s, w, |acc|, rest, d)
    decreases |s|, 3
  {
    hide ReadValue, ReadMembers, ReadQuoted, SkipSpaces, Blank, ValueAt, QuotedAt, DistinctKeys, HasKey;
    MemberTurn(s, d, acc, w, rest);
    var (key, s1) := ReadQuoted(s).value;
    var s2 := SkipSpaces(s1);
    var (x, s4) := ReadValue(s2[1..], d).value;
    var s3, s5, m := SkipSpaces(s2[1..]), SkipSpaces(s4), Member(key, x);
    QuotedIff(s, key, s1);
    SkipBlank(s1);
    SkipShorter(s1);
    ReadIsValue(s2[1..], d, x, s4);
    SkipBlank(s2[1..]);
    SkipBlank(s4);
    SkipShorter(s4);
    KeyAdded(acc, m);
    assert MemberAt(s, m, s1, s2, s3, s4, s5, d);
    if s5[0] == COMMA {
      var t := SkipSpaces(s5[1..]);
      SkipBlank(s5[1..]);
      SkipShorter(s5[1..]);
      MembersAre(t, d, acc + [m], w, rest);
      assert acc == w.members[..|acc| + 1][..|acc|];
      assert w.members[|acc|] == (acc + [m])[|acc|];
    } else {
      assert s5 == [CLOSE_OBJECT] + rest;
      assert acc == (acc + [m])[..|acc|] && w.members[|acc|] == m;
    }
  }

  // ---------------------------------------------------------------- the language of the parser

  /** parse_value reads v and stops at rest exactly when a text of v stands at the cursor behind white space. */
  lemma {:induction false} ReadsIff(s: bytes, d: nat, v: Value, rest: bytes)
    ensures ReadValue(s, d) == Some((v, rest)) <==> exists t :: Blank(s, t) && ValueAt(t, v, rest, d)
  {
    hide ReadValue, SkipSpaces, Blank, ValueAt;
    if ReadValue(s, d) == Some((v, rest)) {
      ReadIsValue(s, d, v, rest);
      SkipBlank(s);
    }
    if exists t :: Blank(s, t) && ValueAt(t, v, rest, d) {
      var t :| Blank(s, t) && ValueAt(t, v, rest, d);
      ValueReads(t, v, rest, d);
      ValueBegins(t, v, rest, d);
      SkipIs(s, t);
      Stays(t);
      SameRead(s, t, d);
    }
  }

  /** json_parse_string, the root of which is an object or an array. */
  lemma {:induction false} ParsesIff(s: bytes, v: Value, rest: bytes)
    ensures Parse(s) == Some((v, rest)) <==> (v.Arr? || v.Obj?) && exists t :: Blank(s, t) && ValueAt(t, v, rest, 0)
  {
    hide ReadValue, SkipSpaces, Blank, ValueAt;
    var t := SkipSpaces(s);
    SkipBlank(s);
    Stays(t);
    SameRead(s, t, 0);
    ReadsIff(s, 0, v, rest);
    if exists u :: Blank(s, u) && ValueAt(u, v, rest, 0) {
      var u :| Blank(s, u) && ValueAt(u, v, rest, 0);
      ValueBegins(u, v, rest, 0);
      SkipIs(s, u);
    }
    if Parse(s) == Some((v, rest)) {
      ReadsIff(t, 0, v, rest);
    }
  }

  // ---------------------------------------------------------------- the printer

  /** The printer escapes exactly the characters that have a short escape. */
  lemma {:induction false} PrinterEscapes(c: byte, k: nat)
    requires k < 8
    ensures Escape(c) == [BACKSLASH, LETTERS[k] as int] <==> c == MEANINGS[k]
    ensures c !in MEANINGS ==> Escape(c) == [c]
  {
  }

  /** The lines of an array of two items and of an object of one member. */
  lemma {:induction false} TwoItems(x: Value, y: Value, level: nat, pretty: bool)
    ensures Print(Arr([x, y]), level, pretty)
            == ([OPEN_ARRAY] + Break(pretty))
               + (Indent(level + 1, pretty) + (Print(x, level + 1, pretty) + (([COMMA] + Break(pretty))
               + (Indent(level + 1, pretty) + (Print(y, level + 1, pretty) + (([] + Break(pretty))
               + (Indent(level, pretty) + [CLOSE_ARRAY])))))))
  {
    hide Indent, Break;
    var v := Arr([x, y]);
    assert PrintItems(v, 2, level, pretty) == Indent(level, pretty) + [CLOSE_ARRAY];
    assert PrintItems(v, 1, level, pretty)
           == Indent(level + 1, pretty)
              + (Print(y, level + 1, pretty) + (([] + Break(pretty)) + (Indent(level, pretty) + [CLOSE_ARRAY])));
  }

  lemma {:induction false} OneMember(key: bytes, x: Value, level: nat, pretty: bool)
    ensures Print(Obj([Member(key, x)]), level, pretty)
            == ([OPEN_OBJECT] + Break(pretty))
               + (Indent(level + 1, pretty) + (Quoted(key) + (Colon(pretty) + (Print(x, level + 1, pretty) + (([] + Break(pretty))
               + (Indent(level, pretty) + [CLOSE_OBJECT]))))))
  {
    hide Indent, Break, Quoted, Colon;
    var v := Obj([Member(key, x)]);
    assert PrintMembers(v, 1, level, pretty) == Indent(level, pretty) + [CLOSE_OBJECT];
  }

  lemma {:induction false} Pieces()
    ensures Print(Number(-12), 2, true) == Ascii("-12") && Print(Null, 2, true) == Ascii("null")
    ensures [OPEN_ARRAY] + Break(true) == Ascii("[\n") && [COMMA] + Break(true) == Ascii(",\n") && [] + Break(true) == Ascii("\n")
    ensures [OPEN_OBJECT] + Break(true) == Ascii("{\n") && Colon(true) == Ascii(": ")
    ensures Indent(2, true) == Ascii("        ") && Indent(1, true) == Ascii("    ")
    ensures Indent(1, true) + [CLOSE_ARRAY] == Ascii("    ]") && Indent(0, true) + [CLOSE_OBJECT] == Ascii("}")
    ensures Quoted(Ascii("b")) == Ascii("\"b\"")
  {
    assert PrintNumber(-12) == [45, 49, 50];
    assert Ascii("b") == [98] && [98][1..] == [];
    assert EscapeAll([98]) == [98];
  }

  /** A text of two levels: an object whose member b is the array of -12 and null. */
  lemma {:induction false} PrintExample()
    ensures Print(Obj([Member(Ascii("b"), Arr([Number(-12), Null]))]), 0, true)
            == Ascii("{\n")
               + (Ascii("    ") + (Ascii("\"b\"") + (Ascii(": ")
               + ((Ascii("[\n")
                  + (Ascii("        ") + (Ascii("-12") + (Ascii(",\n")
                  + (Ascii("        ") + (Ascii("null") + (Ascii("\n")
                  + Ascii("    ]")))))))) + (Ascii("\n")
               + Ascii("}"))))))
  {
    hide Print, Indent, Quoted, Break, Colon, Ascii;
    OneMember(Ascii("b"), Arr([Number(-12), Null]), 0, true);
    TwoItems(Number(-12), Null, 1, true);
    Pieces();
  }
}
