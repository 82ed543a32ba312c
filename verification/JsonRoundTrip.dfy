/**
  * Reading back what was printed.  For every value that the library can build, parsing its compact or
  * pretty text gives the value back and consumes all of it, exactly when no value sits deeper than
  * the nesting limit and no string holds a control character without an escape of its own.
  */
module JsonRoundTrip {
  import opened Wrappers
  import opened Bytes
  import opened Json

  // ---------------------------------------------------------------- conditions

  /** No string of the library holds a zero. */
  predicate NoZero(s: bytes) {
    forall i | 0 <= i < |s| :: s[i] != 0
  }

  predicate UniqueKeys(ms: seq<Member>) {
    forall i, j | 0 <= i < j < |ms| :: ms[i].key != ms[j].key
  }

  /** What json_object_add and json_array_add let a program build, with numbers that print as "%d". */
  ghost predicate Built(v: Value) {
    match v
    case Number(n) => -0x8000_0000 <= n < 0x8000_0000
    case Str(s) => NoZero(s)
    case Arr(items) => |items| <= 122880 && forall i | 0 <= i < |items| :: Built(items[i])
    case Obj(members) =>
      && |members| <= 960 && UniqueKeys(members)
      && forall i | 0 <= i < |members| :: NoZero(members[i].key) && Built(members[i].value)
    case _ => true
  }

  /** Every control character has an escape. */
  predicate Clean(s: bytes) {
    forall i | 0 <= i < |s| :: s[i] >= 0x20 || |Escape(s[i])| == 2
  }

  ghost predicate Readable(v: Value, depth: nat) {
    && depth <= 19
    && match v
       case Str(s) => Clean(s)
       case Arr(items) => forall i | 0 <= i < |items| :: Readable(items[i], depth + 1)
       case Obj(members) =>
         forall i | 0 <= i < |members| :: Clean(members[i].key) && Readable(members[i].value, depth + 1)
       case _ => true
  }

  // ---------------------------------------------------------------- strings

  lemma {:induction false} EscapeReads(c: byte, more: bytes)
    ensures |Escape(c)| == 2 ==> Escape(c)[0] == BACKSLASH && Escape(c)[1] != 117 && Unescape(Escape(c)[1]) == Some(c)
    ensures |Escape(c)| == 1 ==> Escape(c)[0] == c && c != BACKSLASH && c != QUOTE
    ensures |Escape(c)| == 1 || |Escape(c)| == 2
    ensures (Escape(c) + more)[|Escape(c)|..] == more
  {
  }

  /** Unescaping undoes escaping, unless a bare control character is in the way. */
  lemma {:induction false} ProcessEscaped(s: bytes)
    ensures Process(EscapeAll(s)) == if Clean(s) then Some(s) else None
  {
    if s != [] {
      var c, more := s[0], EscapeAll(s[1..]);
      EscapeReads(c, more);
      ProcessEscaped(s[1..]);
      CleanTail(s);
      var t := Escape(c) + more;
      assert [c] + s[1..] == s;
      if |Escape(c)| == 2 {
        assert t[0] == BACKSLASH && t[1] == Escape(c)[1] && t[2..] == more;
      } else {
        assert t[0] == c && t[1..] == more;
      }
    }
  }

  lemma {:induction false} CleanTail(s: bytes)
    requires s != []
    ensures Clean(s) <==> (s[0] >= 0x20 || |Escape(s[0])| == 2) && Clean(s[1..])
  {
    if Clean(s[1..]) && (s[0] >= 0x20 || |Escape(s[0])| == 2) {
      forall i | 0 <= i < |s| ensures s[i] >= 0x20 || |Escape(s[i])| == 2 {
        if i > 0 { assert s[i] == s[1..][i - 1]; }
      }
    }
  }

  lemma {:induction false} SkipEscaped(s: bytes, rest: bytes)
    ensures SkipQuotes(EscapeAll(s) + ([QUOTE] + rest)) == rest
  {
    if s == [] {
      assert [] + ([QUOTE] + rest) == [QUOTE] + rest;
      assert ([QUOTE] + rest)[1..] == rest;
    } else {
      var c, more := s[0], EscapeAll(s[1..]) + ([QUOTE] + rest);
      EscapeReads(c, more);
      SkipEscaped(s[1..], rest);
      Assoc(Escape(c), EscapeAll(s[1..]), [QUOTE] + rest);
      var t := Escape(c) + more;
      if |Escape(c)| == 2 {
        assert t[0] == BACKSLASH && t[2..] == more;
      } else {
        assert t[0] == c && t[1..] == more;
      }
    }
  }

  lemma {:induction false} AllOfIt(s: bytes)
    requires NoZero(s)
    ensures UpToZero(s) == s
  {
    if s != [] {
      AllOfIt(s[1..]);
      assert [s[0]] + s[1..] == s;
    }
  }

  lemma {:induction false} QuotedParts(e: bytes, rest: bytes)
    ensures var t := ([QUOTE] + e + [QUOTE]) + rest;
            && t[1..] == e + ([QUOTE] + rest) && t[0] == QUOTE
            && t[1..|t| - |rest| - 1] == e
  {
  }

  lemma {:induction false} QuotedReads(s: bytes, rest: bytes)
    requires NoZero(s) && rest != []
    ensures ReadQuoted(Quoted(s) + rest) == if Clean(s) then Some((s, rest)) else None
  {
    QuotedParts(EscapeAll(s), rest);
    SkipEscaped(s, rest);
    ProcessEscaped(s);
    AllOfIt(s);
  }

  // ---------------------------------------------------------------- numbers

  lemma {:induction false} DigitsAre(n: nat)
    ensures Digits(n) != [] && (forall i | 0 <= i < |Digits(n)| :: IsDigit(Digits(n)[i]))
    ensures Decimal(Digits(n)) == n
    ensures n > 0 ==> Digits(n)[0] != 48
    ensures n == 0 ==> Digits(n) == [48]
  {
    if n < 10 {
      assert [48 + n][..0] == [];
      assert Decimal([48 + n]) == 10 * Decimal([]) + n;
    } else {
      DigitsAre(n / 10);
      var d := Digits(n / 10);
      assert (d + [48 + n % 10])[..|d|] == d;
    }
  }

  lemma {:induction false} DigitsEndIs(ds: bytes, rest: bytes)
    requires forall i | 0 <= i < |ds| :: IsDigit(ds[i])
    requires rest != [] ==> !IsDigit(rest[0])
    ensures DigitsEnd(ds + rest) == |ds|
  {
    if ds == [] {
      assert ds + rest == rest;
    } else {
      assert (ds + rest)[1..] == ds[1..] + rest;
      DigitsEndIs(ds[1..], rest);
    }
  }

  /** The text behind a value inside an array or an object. */
  predicate Delimited(rest: bytes) {
    rest != [] && (rest[0] == COMMA || rest[0] == NEWLINE || rest[0] == CLOSE_ARRAY || rest[0] == CLOSE_OBJECT)
  }

  /** The digits of a number in front of a delimiter are one token. */
  lemma {:induction false} TokenReads(m: nat, rest: bytes)
    requires Delimited(rest)
    ensures var ds := Digits(m);
            var t := ds + rest;
            && DigitsEnd(t) == |ds| && 0 < |ds| < |t| && t[..|ds|] == ds && t[|ds|..] == rest && Decimal(ds) == m
            && t[0] != MINUS && (|ds| > 1 ==> t[0] != 48)
            && t[|ds|] != 46 && t[|ds|] != 69 && t[|ds|] != 101 && t[|ds|] != 88 && t[|ds|] != 120
  {
    hide Decimal, Digits, DigitsEnd;
    var ds := Digits(m);
    DigitsAre(m);
    DigitsEndIs(ds, rest);
    var t := ds + rest;
    assert t[0] == ds[0] && t[|ds|] == rest[0];
  }

  /** An integer token that ends after k digits is read whole. */
  lemma {:induction false} TokenIsRead(s: bytes, t: bytes, k: nat, neg: bool)
    requires neg == (Peek(s) == MINUS) && (neg ==> s != []) && t == (if neg then s[1..] else s)
    requires DigitsEnd(t) == k && 0 < k < |t| && (k > 1 ==> t[0] != 48) && Decimal(t[..k]) <= 0x20000000000000
    requires t[k] != 46 && t[k] != 69 && t[k] != 101 && t[k] != 88 && t[k] != 120
    ensures ReadNumber(s) == Some((if neg then -Decimal(t[..k]) else Decimal(t[..k]), t[k..]))
  {
    hide Decimal, DigitsEnd;
  }

  lemma {:induction false} NumberReads(n: int, rest: bytes)
    requires -0x8000_0000 <= n < 0x8000_0000 && Delimited(rest)
    ensures ReadNumber(PrintNumber(n) + rest) == Some((n, rest))
  {
    hide Decimal, Digits, DigitsEnd, Delimited, ReadNumber;
    var m := if n < 0 then -n else n;
    TokenReads(m, rest);
    var s, t := PrintNumber(n) + rest, Digits(m) + rest;
    if n < 0 {
      assert s == [MINUS] + t && s[1..] == t;
    }
    TokenIsRead(s, t, |Digits(m)|, n < 0);
  }

  // ---------------------------------------------------------------- spaces

  lemma {:induction false} SkipsSpaces(ws: bytes, t: bytes)
    requires forall i | 0 <= i < |ws| :: IsSpace(ws[i])
    ensures SkipSpaces(ws + t) == SkipSpaces(t)
  {
    if ws == [] {
      assert ws + t == t;
    } else {
      assert (ws + t)[1..] == ws[1..] + t;
      SkipsSpaces(ws[1..], t);
    }
  }

  lemma {:induction false} StaysPut(t: bytes)
    requires t != [] && !IsSpace(t[0])
    ensures SkipSpaces(t) == t
  {
  }

  /** How the text of a value begins. */
  predicate Starts(c: byte) {
    c == QUOTE || c == MINUS || IsDigit(c) || c == OPEN_ARRAY || c == OPEN_OBJECT || c == 110 || c == 116 || c == 102
  }

  lemma {:induction false} PrintStarts(v: Value, level: nat, pretty: bool)
    ensures Print(v, level, pretty) != [] && Starts(Print(v, level, pretty)[0]) && !IsSpace(Print(v, level, pretty)[0])
  {
    if v.Number? { DigitsAre(if v.n < 0 then -v.n else v.n); }
  }

  lemma {:induction false} LayoutSkips(level: nat, pretty: bool, t: bytes)
    requires t != [] && !IsSpace(t[0])
    ensures SkipSpaces(Break(pretty) + t) == t
    ensures SkipSpaces(Indent(level, pretty) + t) == t
    ensures SkipSpaces(Break(pretty) + (Indent(level, pretty) + t)) == t
  {
    SkipsSpaces(Break(pretty), t);
    SkipsSpaces(Indent(level, pretty), t);
    SkipsSpaces(Break(pretty), Indent(level, pretty) + t);
    StaysPut(t);
  }

  // ---------------------------------------------------------------- values

  ghost predicate ItemsReadable(v: Value, i: nat, depth: nat)
    requires v.Arr?
  {
    forall j | i <= j < |v.items| :: Readable(v.items[j], depth)
  }

  ghost predicate MembersReadable(v: Value, i: nat, depth: nat)
    requires v.Obj?
  {
    forall j | i <= j < |v.members| :: Clean(v.members[j].key) && Readable(v.members[j].value, depth)
  }

  lemma {:induction false} Assoc4(a: bytes, b: bytes, c: bytes, d: bytes, rest: bytes)
    ensures (a + (b + (c + d))) + rest == a + (b + (c + (d + rest)))
  {
  }

  /** What follows an item or a member: a comma and the next one, or the end of the container. */
  lemma {:induction false} TailDelimits(more: bool, level: nat, pretty: bool, close: byte, next: bytes)
    requires close == CLOSE_ARRAY || close == CLOSE_OBJECT
    requires !more ==> Indent(level, pretty) + [close] <= next
    ensures Delimited(Separator(more, pretty) + next)
  {
    if !more && !pretty {
      assert next[0] == (Indent(level, pretty) + [close])[0];
    }
  }

  /** Behind a value that is not the last: the loop finds the comma and skips to the next one. */
  lemma {:induction false} TailGoesOn(pretty: bool, next: bytes)
    ensures var t := SkipSpaces(Separator(true, pretty) + next);
            Peek(t) == COMMA && SkipSpaces(t[1..]) == SkipSpaces(next)
  {
    var t := Separator(true, pretty) + next;
    StaysPut(t);
    assert t[1..] == Break(pretty) + next;
    SkipsSpaces(Break(pretty), next);
  }

  /** Behind the last value: the loop finds the closing bracket. */
  lemma {:induction false} TailEnds(level: nat, pretty: bool, close: byte, rest: bytes)
    requires close == CLOSE_ARRAY || close == CLOSE_OBJECT
    ensures var t := SkipSpaces(Separator(false, pretty) + ((Indent(level, pretty) + [close]) + rest));
            Peek(t) == close && t[1..] == rest
  {
    var t := [close] + rest;
    assert (Indent(level, pretty) + [close]) + rest == Indent(level, pretty) + t;
    assert Separator(false, pretty) + (Indent(level, pretty) + t) == Break(pretty) + (Indent(level, pretty) + t);
    LayoutSkips(level, pretty, t);
  }

  /** The text at the head of the loop, without the indentation in front of it. */
  lemma {:induction false} ItemText(v: Value, i: nat, level: nat, pretty: bool, rest: bytes)
    requires v.Arr? && i < |v.items|
    ensures SkipSpaces(PrintItems(v, i, level, pretty) + rest)
            == Print(v.items[i], level + 1, pretty)
               + (Separator(i + 1 < |v.items|, pretty) + (PrintItems(v, i + 1, level, pretty) + rest))
  {
    hide Indent, Separator;
    var p, sep, next := Print(v.items[i], level + 1, pretty), Separator(i + 1 < |v.items|, pretty), PrintItems(v, i + 1, level, pretty);
    Assoc4(Indent(level + 1, pretty), p, sep, next, rest);
    PrintStarts(v.items[i], level + 1, pretty);
    LayoutSkips(level + 1, pretty, p + (sep + (next + rest)));
  }

  lemma {:induction false} ReadsBack(v: Value, level: nat, pretty: bool, depth: nat, rest: bytes)
    requires Built(v) && (v.Arr? || v.Obj? || Delimited(rest))
    ensures ReadValue(Print(v, level, pretty) + rest, depth) == if Readable(v, depth) then Some((v, rest)) else None
    decreases v, Width(v) + 2
  {
    var t := Print(v, level, pretty) + rest;
    PrintStarts(v, level, pretty);
    StaysPut(t);
    if depth <= MAX_NESTING {
      match v
      case Null => assert NULL <= t && t[4..] == rest;
      case Bool(b) =>
        if b {
          assert TRUE <= t && t[4..] == rest;
        } else {
          assert FALSE <= t && t[5..] == rest && t[0] != TRUE[0];
        }
      case Number(n) => NumberReads(n, rest);
      case Str(s) => QuotedReads(s, rest);
      case Arr(items) => ArrayReadsBack(v, level, pretty, depth, rest);
      case Obj(members) => ObjectReadsBack(v, level, pretty, depth, rest);
    }
  }

  lemma {:induction false} ArrayReadsBack(v: Value, level: nat, pretty: bool, depth: nat, rest: bytes)
    requires Built(v) && v.Arr? && depth <= MAX_NESTING
    ensures ReadArray(Print(v, level, pretty) + rest, depth + 1) == if Readable(v, depth) then Some((v, rest)) else None
    decreases v, Width(v) + 1
  {
    hide PrintItems, Readable, ItemsReadable, Built, ReadValue, ReadItems, Break;
    var t := Print(v, level, pretty) + rest;
    if v.items == [] {
      EmptyReadable(v, depth);
      assert t[1..] == [CLOSE_ARRAY] + rest;
      assert v == Arr([]);
    } else {
      ArrayText(v, level, pretty, rest);
      ContainerReadable(v, depth);
      SpacesBefore(pretty, PrintItems(v, 0, level, pretty) + rest);
      ItemText(v, 0, level, pretty, rest);
      PrintStarts(v.items[0], level + 1, pretty);
      ItemsReadBack(v, 0, level, pretty, depth + 1, rest);
      assert v.items[..0] == [];
    }
  }

  lemma {:induction false} ItemsEnd(v: Value, i: nat, level: nat, pretty: bool, rest: bytes)
    requires v.Arr? && i < |v.items|
    ensures var next := PrintItems(v, i + 1, level, pretty) + rest;
            && Delimited(Separator(i + 1 < |v.items|, pretty) + next)
            && (i + 1 == |v.items| ==> next == (Indent(level, pretty) + [CLOSE_ARRAY]) + rest)
  {
    hide Indent, Separator;
    TailDelimits(i + 1 < |v.items|, level, pretty, CLOSE_ARRAY, PrintItems(v, i + 1, level, pretty) + rest);
  }

  lemma {:induction false} FirstItem(v: Value, i: nat, depth: nat)
    requires Built(v) && v.Arr? && i < |v.items|
    ensures Built(v.items[i]) && |v.items| <= ARRAY_MAX
    ensures ItemsReadable(v, i, depth) <==> Readable(v.items[i], depth) && ItemsReadable(v, i + 1, depth)
  {
  }

  lemma {:induction false} ItemsReadBack(v: Value, i: nat, level: nat, pretty: bool, depth: nat, rest: bytes)
    requires Built(v) && v.Arr? && i < |v.items|
    ensures ReadItems(SkipSpaces(PrintItems(v, i, level, pretty) + rest), depth, v.items[..i])
            == if ItemsReadable(v, i, depth) then Some((v, rest)) else None
    decreases v, |v.items| - i
  {
    hide Print, PrintItems, Separator, SkipSpaces, Readable, Indent, ReadValue, Built, ItemsReadable;
    var x, more, next := v.items[i], i + 1 < |v.items|, PrintItems(v, i + 1, level, pretty) + rest;
    var tail := Separator(more, pretty) + next;
    FirstItem(v, i, depth);
    ItemText(v, i, level, pretty, rest);
    ItemsEnd(v, i, level, pretty, rest);
    ReadsBack(x, level + 1, pretty, depth, tail);
    if Readable(x, depth) {
      assert v.items[..i] + [x] == v.items[..i + 1];
      if more {
        TailGoesOn(pretty, next);
        ItemsReadBack(v, i + 1, level, pretty, depth, rest);
      } else {
        NoMoreItems(v, depth);
        TailEnds(level, pretty, CLOSE_ARRAY, rest);
        assert v == Arr(v.items[..i + 1]);
      }
    }
  }

  lemma {:induction false} NoMoreItems(v: Value, depth: nat)
    ensures v.Arr? ==> ItemsReadable(v, |v.items|, depth)
    ensures v.Obj? ==> MembersReadable(v, |v.members|, depth)
  {
  }

  lemma {:induction false} Assoc6(a: bytes, b: bytes, c: bytes, d: bytes, e: bytes, f: bytes, rest: bytes)
    ensures (a + (b + (c + (d + (e + f))))) + rest == a + (b + (c + (d + (e + (f + rest)))))
  {
    Assoc4(a, b, c, d + (e + f), rest);
    Assoc(d, e + f, rest);
    Assoc(e, f, rest);
    Assoc(d, e, f + rest);
  }

  lemma {:induction false} MemberText(v: Value, i: nat, level: nat, pretty: bool, rest: bytes)
    requires v.Obj? && i < |v.members|
    ensures SkipSpaces(PrintMembers(v, i, level, pretty) + rest)
            == Quoted(v.members[i].key) + (Colon(pretty) + (Print(v.members[i].value, level + 1, pretty)
               + (Separator(i + 1 < |v.members|, pretty) + (PrintMembers(v, i + 1, level, pretty) + rest))))
  {
    hide Indent, Separator, Colon, EscapeAll;
    var k, col, p, sep, next := Quoted(v.members[i].key), Colon(pretty), Print(v.members[i].value, level + 1, pretty),
                                Separator(i + 1 < |v.members|, pretty), PrintMembers(v, i + 1, level, pretty);
    Assoc6(Indent(level + 1, pretty), k, col, p, sep, next, rest);
    LayoutSkips(level + 1, pretty, k + (col + (p + (sep + (next + rest)))));
  }

  /** Behind a key: the colon, and then the value. */
  lemma {:induction false} ColonReads(pretty: bool, t: bytes, nesting: nat)
    requires t != [] && !IsSpace(t[0])
    ensures var s := SkipSpaces(Colon(pretty) + t);
            Peek(s) == COLON && ReadValue(s[1..], nesting) == ReadValue(t, nesting)
  {
    var s := Colon(pretty) + t;
    StaysPut(s);
    StaysPut(t);
    if pretty {
      assert s[1..] == [SPACE] + t;
      SkipsSpaces([SPACE], t);
    } else {
      assert s[1..] == t;
    }
  }

  lemma {:induction false} ObjectReadsBack(v: Value, level: nat, pretty: bool, depth: nat, rest: bytes)
    requires Built(v) && v.Obj? && depth <= MAX_NESTING
    ensures ReadObject(Print(v, level, pretty) + rest, depth + 1) == if Readable(v, depth) then Some((v, rest)) else None
    decreases v, Width(v) + 1
  {
    hide PrintMembers, Readable, MembersReadable, EscapeAll, Built, ReadValue, ReadMembers, Break;
    var t := Print(v, level, pretty) + rest;
    if v.members == [] {
      EmptyReadable(v, depth);
      assert t[1..] == [CLOSE_OBJECT] + rest;
      assert v == Obj([]);
    } else {
      var body := PrintMembers(v, 0, level, pretty);
      ObjectText(v, level, pretty, rest);
      ContainerReadable(v, depth);
      SpacesBefore(pretty, body + rest);
      MemberText(v, 0, level, pretty, rest);
      MembersReadBack(v, 0, level, pretty, depth + 1, rest);
      assert v.members[..0] == [];
    }
  }

  lemma {:induction false} EmptyReadable(v: Value, depth: nat)
    requires v == Arr([]) || v == Obj([])
    ensures Readable(v, depth) <==> depth <= MAX_NESTING
  {
  }

  lemma {:induction false} Opening(open: byte, a: bytes, b: bytes, rest: bytes)
    ensures var t := ([open] + a + b) + rest; t[0] == open && t[1..] == a + (b + rest)
  {
  }

  lemma {:induction false} ObjectText(v: Value, level: nat, pretty: bool, rest: bytes)
    requires v.Obj? && v.members != []
    ensures var t := Print(v, level, pretty) + rest;
            t[0] == OPEN_OBJECT && t[1..] == Break(pretty) + (PrintMembers(v, 0, level, pretty) + rest)
  {
    hide PrintMembers, Break;
    Opening(OPEN_OBJECT, Break(pretty), PrintMembers(v, 0, level, pretty), rest);
  }

  lemma {:induction false} ArrayText(v: Value, level: nat, pretty: bool, rest: bytes)
    requires v.Arr? && v.items != []
    ensures var t := Print(v, level, pretty) + rest;
            t[0] == OPEN_ARRAY && t[1..] == Break(pretty) + (PrintItems(v, 0, level, pretty) + rest)
  {
    hide PrintItems, Break;
    Opening(OPEN_ARRAY, Break(pretty), PrintItems(v, 0, level, pretty), rest);
  }

  lemma {:induction false} ContainerReadable(v: Value, depth: nat)
    requires depth <= MAX_NESTING
    ensures v.Arr? ==> (Readable(v, depth) <==> ItemsReadable(v, 0, depth + 1))
    ensures v.Obj? ==> (Readable(v, depth) <==> MembersReadable(v, 0, depth + 1))
  {
  }

  lemma {:induction false} SpacesBefore(pretty: bool, t: bytes)
    ensures SkipSpaces(Break(pretty) + t) == SkipSpaces(t)
  {
    SkipsSpaces(Break(pretty), t);
  }

  lemma {:induction false} NewKey(ms: seq<Member>, i: nat)
    requires UniqueKeys(ms) && i < |ms|
    ensures !HasKey(ms[..i], ms[i].key)
  {
  }

  lemma {:induction false} MembersEnd(v: Value, i: nat, level: nat, pretty: bool, rest: bytes)
    requires v.Obj? && i < |v.members|
    ensures var next := PrintMembers(v, i + 1, level, pretty) + rest;
            && Delimited(Separator(i + 1 < |v.members|, pretty) + next)
            && (i + 1 == |v.members| ==> next == (Indent(level, pretty) + [CLOSE_OBJECT]) + rest)
  {
    hide Indent, Separator;
    TailDelimits(i + 1 < |v.members|, level, pretty, CLOSE_OBJECT, PrintMembers(v, i + 1, level, pretty) + rest);
  }

  /** A key, its colon, and a value that the text t begins with. */
  lemma {:induction false} KeyReads(key: bytes, pretty: bool, t: bytes, nesting: nat)
    requires NoZero(key) && t != [] && !IsSpace(t[0])
    ensures var r := ReadQuoted(Quoted(key) + (Colon(pretty) + t));
            if Clean(key) then
              && r.Some? && r.value.0 == key
              && Peek(SkipSpaces(r.value.1)) == COLON
              && ReadValue(SkipSpaces(r.value.1)[1..], nesting) == ReadValue(t, nesting)
            else r.None?
  {
    hide ReadValue, Process, UpToZero;
    QuotedReads(key, Colon(pretty) + t);
    ColonReads(pretty, t, nesting);
  }

  lemma {:induction false} FirstMember(v: Value, i: nat, depth: nat)
    requires Built(v) && v.Obj? && i < |v.members|
    ensures Built(v.members[i].value) && NoZero(v.members[i].key) && |v.members| <= OBJECT_MAX
    ensures !HasKey(v.members[..i], v.members[i].key)
    ensures MembersReadable(v, i, depth)
            <==> Clean(v.members[i].key) && Readable(v.members[i].value, depth) && MembersReadable(v, i + 1, depth)
  {
    NewKey(v.members, i);
  }

  lemma {:induction false} MembersReadBack(v: Value, i: nat, level: nat, pretty: bool, depth: nat, rest: bytes)
    requires Built(v) && v.Obj? && i < |v.members|
    ensures ReadMembers(SkipSpaces(PrintMembers(v, i, level, pretty) + rest), depth, v.members[..i])
            == if MembersReadable(v, i, depth) then Some((v, rest)) else None
    decreases v, |v.members| - i
  {
    hide Print, PrintMembers, Separator, SkipSpaces, Readable, Indent, ReadValue, Built, MembersReadable, Quoted, Colon,
         ReadQuoted, HasKey, Clean, NoZero, IsSpace;
    var m, more, next := v.members[i], i + 1 < |v.members|, PrintMembers(v, i + 1, level, pretty) + rest;
    var tail := Separator(more, pretty) + next;
    var p := Print(m.value, level + 1, pretty);
    FirstMember(v, i, depth);
    MemberText(v, i, level, pretty, rest);
    MembersEnd(v, i, level, pretty, rest);
    PrintStarts(m.value, level + 1, pretty);
    KeyReads(m.key, pretty, p + tail, depth);
    ReadsBack(m.value, level + 1, pretty, depth, tail);
    if Clean(m.key) && Readable(m.value, depth) {
      assert v.members[..i] + [Member(m.key, m.value)] == v.members[..i + 1];
      if more {
        TailGoesOn(pretty, next);
        MembersReadBack(v, i + 1, level, pretty, depth, rest);
      } else {
        NoMoreItems(v, depth);
        TailEnds(level, pretty, CLOSE_OBJECT, rest);
        assert v == Obj(v.members[..i + 1]);
      }
    }
  }

  /** The round trip of a whole text, compact or pretty. */
  lemma {:induction false} TextReadsBack(v: Value, pretty: bool)
    requires Built(v) && (v.Arr? || v.Obj?)
    ensures Parse(Print(v, 0, pretty)) == if Readable(v, 0) then Some((v, [])) else None
  {
    var t := Print(v, 0, pretty);
    PrintStarts(v, 0, pretty);
    StaysPut(t);
    ReadsBack(v, 0, pretty, 0, []);
    assert t + [] == t;
  }
}
