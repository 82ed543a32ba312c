/**
  * The printer of parson.c at work: one recursive function that writes into a buffer, or only counts
  * when there is no buffer.  Both modes return the length of the text, so that a buffer of the counted
  * size is never overrun and holds the text and its terminator.
  */
module JsonPrinter {
  import opened Wrappers
  import opened Bytes
  import opened Json
  import opened JsonRoundTrip

  /** `now` is `was` with the text t written at position at; the byte behind t may have changed. */
  ghost predicate Extends(now: bytes, was: bytes, at: nat, t: bytes) {
    && |now| == |was| && at + |t| < |was|
    && now[..at] == was[..at]
    && now[at..at + |t|] == t
    && now[at + |t| + 1..] == was[at + |t| + 1..]
  }

  lemma {:induction false} ExtendsOn(now: bytes, mid: bytes, was: bytes, at: nat, t: bytes, u: bytes)
    requires Extends(mid, was, at, t) && Extends(now, mid, at + |t|, u)
    ensures Extends(now, was, at, t + u)
  {
    assert now[..at] == now[..at + |t|][..at] == mid[..at];
    assert now[at..at + |t|] == now[..at + |t|][at..] == mid[at..at + |t|];
    assert now[at..at + |t + u|] == now[at..at + |t|] + now[at + |t|..at + |t| + |u|];
    assert mid[at + |t| + |u| + 1..] == mid[at + |t| + 1..][|u|..];
    assert was[at + |t| + |u| + 1..] == was[at + |t| + 1..][|u|..];
  }

  predicate Fits(buf: array?<byte>, at: nat, t: bytes) {
    buf != null ==> at + |t| < buf.Length
  }

  /** `total` bytes were printed at position at, namely the text t; in a buffer that held `was`. */
  ghost predicate Progress(buf: array?<byte>, was: bytes, at: nat, t: bytes, total: nat)
    reads buf
  {
    total == |t| && (buf != null ==> Extends(buf[..], was, at, t))
  }

  ghost function Content(buf: array?<byte>): bytes
    reads buf
  {
    if buf == null then [] else buf[..]
  }

  // ---------------------------------------------------------------- strings and layout

  /** append_string: sprintf with its terminator, or strlen. */
  method AppendString(buf: array?<byte>, at: nat, s: bytes) returns (written: nat)
    requires Fits(buf, at, s)
    modifies buf
    ensures written == |s|
    ensures buf != null ==> Extends(buf[..], old(buf[..]), at, s) && buf[at + |s|] == 0
  {
    if buf == null {
      return |s|;
    }
    ghost var was := buf[..];
    var i := 0;
    while i < |s|
      invariant i <= |s|
      invariant buf[..at] == was[..at] && buf[at..at + i] == s[..i] && buf[at + i..] == was[at + i..]
    {
      buf[at + i] := s[i];
      assert buf[at..at + i + 1] == buf[at..at + i] + [s[i]];
      i := i + 1;
    }
    buf[at + i] := 0;
    written := i;
  }

  /** APPEND_STRING: one more piece behind the text printed so far. */
  method Append(buf: array?<byte>, at: nat, s: bytes, total: nat, ghost was: bytes, ghost t: bytes) returns (total': nat)
    requires Fits(buf, at, t + s) && Progress(buf, was, at, t, total)
    modifies buf
    ensures Progress(buf, was, at, t + s, total') && (buf != null ==> buf[at + total'] == 0)
  {
    ghost var mid := Content(buf);
    var written := AppendString(buf, at + total, s);
    total' := total + written;
    if buf != null { ExtendsOn(buf[..], mid, was, at, t, s); }
  }

  /** append_indent: four spaces for each level. */
  method AppendIndent(buf: array?<byte>, at: nat, level: nat, total: nat, ghost was: bytes, ghost t: bytes) returns (total': nat)
    requires Fits(buf, at, t + Spaces(4 * level)) && Progress(buf, was, at, t, total)
    modifies buf
    ensures Progress(buf, was, at, t + Spaces(4 * level), total')
  {
    total' := total;
    var i := 0;
    assert t + Spaces(0) == t;
    while i < level
      invariant i <= level && Progress(buf, was, at, t + Spaces(4 * i), total')
    {
      assert t + Spaces(4 * i) + Spaces(4) == t + Spaces(4 * (i + 1));
      total' := Append(buf, at, [SPACE, SPACE, SPACE, SPACE], total', was, t + Spaces(4 * i));
      assert [SPACE, SPACE, SPACE, SPACE] == Spaces(4);
      i := i + 1;
    }
  }

  /** The default case of json_serialize_string: a plain byte, without a terminator. */
  method AppendByte(buf: array?<byte>, at: nat, c: byte, total: nat, ghost was: bytes, ghost t: bytes) returns (total': nat)
    requires Fits(buf, at, t + [c]) && Progress(buf, was, at, t, total)
    modifies buf
    ensures Progress(buf, was, at, t + [c], total')
  {
    ghost var mid := Content(buf);
    if buf != null {
      buf[at + total] := c;
      ExtendsByte(buf[..], mid, at + total, c);
      ExtendsOn(buf[..], mid, was, at, t, [c]);
    }
    total' := total + 1;
  }

  lemma {:induction false} ExtendsByte(now: bytes, was: bytes, k: nat, c: byte)
    requires k + 1 < |was| && now == was[k := c]
    ensures Extends(now, was, k, [c])
  {
  }

  lemma {:induction false} EscapeStep(s: bytes, i: nat)
    requires i < |s|
    ensures EscapeAll(s[..i + 1]) == EscapeAll(s[..i]) + Escape(s[i])
  {
    if i == 0 {
      assert s[..1][1..] == [];
      assert EscapeAll(s[..1]) == Escape(s[0]) + EscapeAll([]);
      assert EscapeAll([]) == [];
    } else {
      assert s[..i + 1][1..] == s[1..][..i] && s[..i][1..] == s[1..][..i - 1];
      EscapeStep(s[1..], i - 1);
      Assoc(Escape(s[0]), EscapeAll(s[1..][..i - 1]), Escape(s[i]));
    }
  }

  lemma {:induction false} EscapeLength(s: bytes, i: nat)
    requires i <= |s|
    ensures |EscapeAll(s[..i])| <= |EscapeAll(s)|
    decreases |s| - i
  {
    if i < |s| {
      EscapeStep(s, i);
      EscapeLength(s, i + 1);
    } else {
      assert s[..i] == s;
    }
  }

  /** json_serialize_string */
  method SerializeString(buf: array?<byte>, at: nat, s: bytes, ghost was: bytes) returns (total: nat)
    requires Fits(buf, at, Quoted(s)) && was == Content(buf)
    modifies buf
    ensures Progress(buf, was, at, Quoted(s), total) && (buf != null ==> buf[at + total] == 0)
  {
    hide EscapeAll, Extends;
    Nothing(buf, at, was);
    total := Append(buf, at, [QUOTE], 0, was, []);
    assert [] + [QUOTE] == [QUOTE] + EscapeAll(s[..0]) by { NoEscape(); assert s[..0] == []; }
    var i := 0;
    while i < |s|
      invariant i <= |s| && Progress(buf, was, at, [QUOTE] + EscapeAll(s[..i]), total)
    {
      EscapeLength(s, i + 1);
      EscapeStep(s, i);
      Assoc([QUOTE], EscapeAll(s[..i]), Escape(s[i]));
      var c := s[i];
      if c == QUOTE || c == BACKSLASH || c == SLASH || c == 8 || c == 12 || c == 10 || c == 13 || c == 9 {
        total := Append(buf, at, Escape(c), total, was, [QUOTE] + EscapeAll(s[..i]));
      } else {
        total := AppendByte(buf, at, c, total, was, [QUOTE] + EscapeAll(s[..i]));
      }
      i := i + 1;
    }
    assert s[..i] == s;
    total := Append(buf, at, [QUOTE], total, was, [QUOTE] + EscapeAll(s));
  }

  lemma {:induction false} NoEscape()
    ensures EscapeAll([]) == []
  {
  }

  lemma {:induction false} Nothing(buf: array?<byte>, at: nat, was: bytes)
    requires was == Content(buf) && (buf != null ==> at < buf.Length)
    ensures Progress(buf, was, at, [], 0)
  {
  }

  // ---------------------------------------------------------------- values

  /** The indentation and the line breaks of the pretty mode. */
  method IndentIf(pretty: bool, buf: array?<byte>, at: nat, level: nat, total: nat, ghost was: bytes, ghost t: bytes)
      returns (total': nat)
    requires Fits(buf, at, t + Indent(level, pretty)) && Progress(buf, was, at, t, total)
    modifies buf
    ensures Progress(buf, was, at, t + Indent(level, pretty), total')
  {
    hide Extends;
    total' := total;
    if pretty {
      total' := AppendIndent(buf, at, level, total, was, t);
    } else {
      assert t + [] == t;
    }
  }

  method BreakIf(pretty: bool, buf: array?<byte>, at: nat, total: nat, ghost was: bytes, ghost t: bytes) returns (total': nat)
    requires Fits(buf, at, t + Break(pretty)) && Progress(buf, was, at, t, total)
    modifies buf
    ensures Progress(buf, was, at, t + Break(pretty), total')
  {
    hide Extends;
    total' := total;
    if pretty {
      total' := Append(buf, at, [NEWLINE], total, was, t);
    } else {
      assert t + [] == t;
    }
  }

  /** The comma and the line break behind an item. */
  method Separate(more: bool, pretty: bool, buf: array?<byte>, at: nat, total: nat, ghost was: bytes, ghost t: bytes)
      returns (total': nat)
    requires Fits(buf, at, t + Separator(more, pretty)) && Progress(buf, was, at, t, total)
    modifies buf
    ensures Progress(buf, was, at, t + Separator(more, pretty), total')
  {
    hide Extends, Break;
    total' := total;
    ghost var comma: bytes := if more then [COMMA] else [];
    Assoc(t, comma, Break(pretty));
    if more {
      total' := Append(buf, at, [COMMA], total', was, t);
    } else {
      assert t + [] == t;
    }
    total' := BreakIf(pretty, buf, at, total', was, t + comma);
  }

  /** A value behind the text printed so far. */
  method AppendValue(v: Value, buf: array?<byte>, at: nat, level: nat, pretty: bool, total: nat,
                     ghost was: bytes, ghost t: bytes) returns (total': nat)
    requires Built(v) && Fits(buf, at, t + Print(v, level, pretty)) && Progress(buf, was, at, t, total)
    modifies buf
    ensures Progress(buf, was, at, t + Print(v, level, pretty), total')
    decreases v, 7
  {
    hide Print, Built;
    ghost var mid := Content(buf);
    var written := SerializeValue(v, buf, at + total, level, pretty, mid);
    total' := total + written;
    if buf != null { ExtendsOn(buf[..], mid, was, at, t, Print(v, level, pretty)); }
  }

  lemma {:induction false} PiecesRegroup(t: bytes, a: bytes, b: bytes, c: bytes, d: bytes)
    ensures t + (a + (b + (c + d))) == (((t + a) + b) + c) + d
  {
    Assoc(t, a, b + (c + d));
    Assoc(t + a, b, c + d);
    Assoc(t + a + b, c, d);
  }

  /** What is left of an array text when its items up to i were printed. */
  ghost predicate LeftItems(v: Value, i: nat, level: nat, pretty: bool, t: bytes)
    requires v.Arr? && i <= |v.items|
  {
    t + PrintItems(v, i, level, pretty) == Print(v, level, pretty)
  }

  lemma {:induction false} ItemPieces(v: Value, i: nat, level: nat, pretty: bool, t: bytes)
    requires v.Arr? && i < |v.items| && LeftItems(v, i, level, pretty, t)
    ensures var a, b, c := Indent(level + 1, pretty), Print(v.items[i], level + 1, pretty), Separator(i + 1 < |v.items|, pretty);
            && LeftItems(v, i + 1, level, pretty, t + a + b + c)
            && |t| + |a| + |b| + |c| <= |Print(v, level, pretty)|
  {
    hide Print, Indent, Separator;
    PiecesRegroup(t, Indent(level + 1, pretty), Print(v.items[i], level + 1, pretty), Separator(i + 1 < |v.items|, pretty),
            PrintItems(v, i + 1, level, pretty));
  }

  /** One round of the loop over an array. */
  method SerializeItem(v: Value, i: nat, buf: array?<byte>, at: nat, level: nat, pretty: bool, total: nat,
                       ghost was: bytes, ghost t: bytes) returns (total': nat, ghost t': bytes)
    requires Built(v) && v.Arr? && i < |v.items| && Fits(buf, at, Print(v, level, pretty))
    requires Progress(buf, was, at, t, total) && LeftItems(v, i, level, pretty, t)
    modifies buf
    ensures Progress(buf, was, at, t', total') && LeftItems(v, i + 1, level, pretty, t')
    decreases v, 4
  {
    hide Extends, Print, Indent, Separator, LeftItems, Built;
    FirstItem(v, i, 0);
    ItemPieces(v, i, level, pretty, t);
    ghost var a, b := Indent(level + 1, pretty), Print(v.items[i], level + 1, pretty);
    total' := IndentIf(pretty, buf, at, level + 1, total, was, t);
    total' := AppendValue(v.items[i], buf, at, level + 1, pretty, total', was, t + a);
    total' := Separate(i + 1 < |v.items|, pretty, buf, at, total', was, t + a + b);
    t' := t + a + b + Separator(i + 1 < |v.items|, pretty);
  }

  lemma {:induction false} ArrayPieces(v: Value, level: nat, pretty: bool)
    requires v.Arr? && v.items != []
    ensures LeftItems(v, 0, level, pretty, [OPEN_ARRAY] + Break(pretty))
    ensures |[OPEN_ARRAY] + Break(pretty)| <= |Print(v, level, pretty)|
  {
    hide PrintItems, Break;
  }

  lemma {:induction false} ArrayEnd(v: Value, level: nat, pretty: bool, t: bytes)
    requires v.Arr? && LeftItems(v, |v.items|, level, pretty, t)
    ensures Print(v, level, pretty) == t + Indent(level, pretty) + [CLOSE_ARRAY]
  {
    hide Print, Indent;
    Assoc(t, Indent(level, pretty), [CLOSE_ARRAY]);
  }

  /** The array case of json_serialize_to_buffer_r. */
  method SerializeArray(v: Value, buf: array?<byte>, at: nat, level: nat, pretty: bool, ghost was: bytes) returns (total: nat)
    requires Built(v) && v.Arr? && Fits(buf, at, Print(v, level, pretty)) && was == Content(buf)
    modifies buf
    ensures Progress(buf, was, at, Print(v, level, pretty), total) && (buf != null ==> buf[at + total] == 0)
    decreases v, 5
  {
    hide Extends, PrintItems, Indent, LeftItems, Built, Break;
    Nothing(buf, at, was);
    ghost var t: bytes := [] + [OPEN_ARRAY];
    total := Append(buf, at, [OPEN_ARRAY], 0, was, []);
    if v.items == [] {
      assert [] + [OPEN_ARRAY] + [CLOSE_ARRAY] == [OPEN_ARRAY, CLOSE_ARRAY];
    } else {
      ArrayPieces(v, level, pretty);
      assert [] + [OPEN_ARRAY] == [OPEN_ARRAY];
      total := BreakIf(pretty, buf, at, total, was, t);
      t := t + Break(pretty);
      var i := 0;
      while i < |v.items|
        invariant i <= |v.items| && Progress(buf, was, at, t, total) && LeftItems(v, i, level, pretty, t)
      {
        total, t := SerializeItem(v, i, buf, at, level, pretty, total, was, t);
        i := i + 1;
      }
      ArrayEnd(v, level, pretty, t);
      total := IndentIf(pretty, buf, at, level, total, was, t);
      t := t + Indent(level, pretty);
    }
    total := Append(buf, at, [CLOSE_ARRAY], total, was, t);
  }

  /** What is left of an object text when its members up to i were printed. */
  ghost predicate LeftMembers(v: Value, i: nat, level: nat, pretty: bool, t: bytes)
    requires v.Obj? && i <= |v.members|
  {
    t + PrintMembers(v, i, level, pretty) == Print(v, level, pretty)
  }

  lemma {:induction false} MemberPieces(v: Value, i: nat, level: nat, pretty: bool, t: bytes)
    requires v.Obj? && i < |v.members| && LeftMembers(v, i, level, pretty, t)
    ensures var a, k, c := Indent(level + 1, pretty), Quoted(v.members[i].key), Colon(pretty);
            var b, d := Print(v.members[i].value, level + 1, pretty), Separator(i + 1 < |v.members|, pretty);
            && LeftMembers(v, i + 1, level, pretty, t + a + k + c + b + d)
            && |t| + |a| + |k| + |c| + |b| + |d| <= |Print(v, level, pretty)|
  {
    hide Print, Indent, Separator, Quoted, Colon;
    var a, k, c := Indent(level + 1, pretty), Quoted(v.members[i].key), Colon(pretty);
    var b, d := Print(v.members[i].value, level + 1, pretty), Separator(i + 1 < |v.members|, pretty);
    var next := PrintMembers(v, i + 1, level, pretty);
    Assoc(t, a, k + (c + (b + (d + next))));
    Assoc(t + a, k, c + (b + (d + next)));
    Assoc(t + a + k, c, b + (d + next));
    Assoc(t + a + k + c, b, d + next);
    Assoc(t + a + k + c + b, d, next);
  }

  /** json_object_get_value: the value of the first member with the key. */
  method GetValue(ms: seq<Member>, key: bytes) returns (v: Option<Value>)
    ensures v.Some? <==> HasKey(ms, key)
    ensures v.Some? ==> exists i :: 0 <= i < |ms| && ms[i] == Member(key, v.value) && !HasKey(ms[..i], key)
  {
    var i := 0;
    while i < |ms|
      invariant i <= |ms| && !HasKey(ms[..i], key)
    {
      if ms[i].key == key {
        assert ms[i] == Member(key, ms[i].value);
        return Some(ms[i].value);
      }
      i := i + 1;
    }
    assert ms[..i] == ms;
    return None;
  }

  lemma {:induction false} OnlyMember(ms: seq<Member>, i: nat, v: Value)
    requires UniqueKeys(ms) && i < |ms|
    requires exists j :: 0 <= j < |ms| && ms[j] == Member(ms[i].key, v)
    ensures v == ms[i].value
  {
    var j :| 0 <= j < |ms| && ms[j] == Member(ms[i].key, v);
    assert ms[j].key == ms[i].key;
  }

  /** The colon behind a key. */
  method AppendColon(pretty: bool, buf: array?<byte>, at: nat, total: nat, ghost was: bytes, ghost t: bytes) returns (total': nat)
    requires Fits(buf, at, t + Colon(pretty)) && Progress(buf, was, at, t, total)
    modifies buf
    ensures Progress(buf, was, at, t + Colon(pretty), total')
  {
    hide Extends;
    assert pretty ==> t + [COLON] + [SPACE] == t + Colon(pretty);
    total' := Append(buf, at, [COLON], total, was, t);
    if pretty {
      total' := Append(buf, at, [SPACE], total', was, t + [COLON]);
    }
  }

  /** A key behind the text printed so far. */
  method AppendKey(key: bytes, buf: array?<byte>, at: nat, total: nat, ghost was: bytes, ghost t: bytes) returns (total': nat)
    requires Fits(buf, at, t + Quoted(key)) && Progress(buf, was, at, t, total)
    modifies buf
    ensures Progress(buf, was, at, t + Quoted(key), total')
  {
    hide Quoted;
    ghost var mid := Content(buf);
    var written := SerializeString(buf, at + total, key, mid);
    total' := total + written;
    if buf != null { ExtendsOn(buf[..], mid, was, at, t, Quoted(key)); }
  }

  /** One round of the loop over an object; the value is looked up by its key. */
  method SerializeMember(v: Value, i: nat, buf: array?<byte>, at: nat, level: nat, pretty: bool, total: nat,
                         ghost was: bytes, ghost t: bytes) returns (total': nat, ghost t': bytes)
    requires Built(v) && v.Obj? && i < |v.members| && Fits(buf, at, Print(v, level, pretty))
    requires Progress(buf, was, at, t, total) && LeftMembers(v, i, level, pretty, t)
    modifies buf
    ensures Progress(buf, was, at, t', total') && LeftMembers(v, i + 1, level, pretty, t')
    decreases v, 4
  {
    hide Extends, Print, Indent, Separator, LeftMembers, Built, Quoted, Colon, UniqueKeys;
    FirstMember(v, i, 0);
    MemberPieces(v, i, level, pretty, t);
    var key := v.members[i].key;
    ghost var a, k, c := Indent(level + 1, pretty), Quoted(key), Colon(pretty);
    ghost var b := Print(v.members[i].value, level + 1, pretty);
    total' := IndentIf(pretty, buf, at, level + 1, total, was, t);
    total' := AppendKey(key, buf, at, total', was, t + a);
    total' := AppendColon(pretty, buf, at, total', was, t + a + k);
    var value := GetMember(v, i);
    total' := AppendValue(value, buf, at, level + 1, pretty, total', was, t + a + k + c);
    total' := Separate(i + 1 < |v.members|, pretty, buf, at, total', was, t + a + k + c + b);
    t' := t + a + k + c + b + Separator(i + 1 < |v.members|, pretty);
  }

  /** Looking up the key of member i finds the value of member i. */
  method GetMember(v: Value, i: nat) returns (value: Value)
    requires Built(v) && v.Obj? && i < |v.members|
    ensures value == v.members[i].value
  {
    var found := GetValue(v.members, v.members[i].key);
    OnlyMember(v.members, i, found.value);
    value := found.value;
  }

  lemma {:induction false} ObjectPieces(v: Value, level: nat, pretty: bool)
    requires v.Obj? && v.members != []
    ensures LeftMembers(v, 0, level, pretty, [OPEN_OBJECT] + Break(pretty))
    ensures |[OPEN_OBJECT] + Break(pretty)| <= |Print(v, level, pretty)|
  {
    hide PrintMembers, Break;
  }

  lemma {:induction false} ObjectEnd(v: Value, level: nat, pretty: bool, t: bytes)
    requires v.Obj? && LeftMembers(v, |v.members|, level, pretty, t)
    ensures Print(v, level, pretty) == t + Indent(level, pretty) + [CLOSE_OBJECT]
  {
    hide Print, Indent;
    Assoc(t, Indent(level, pretty), [CLOSE_OBJECT]);
  }

  /** The object case of json_serialize_to_buffer_r. */
  method SerializeObject(v: Value, buf: array?<byte>, at: nat, level: nat, pretty: bool, ghost was: bytes) returns (total: nat)
    requires Built(v) && v.Obj? && Fits(buf, at, Print(v, level, pretty)) && was == Content(buf)
    modifies buf
    ensures Progress(buf, was, at, Print(v, level, pretty), total) && (buf != null ==> buf[at + total] == 0)
    decreases v, 5
  {
    hide Extends, PrintMembers, Indent, LeftMembers, Built, Break;
    Nothing(buf, at, was);
    ghost var t: bytes := [] + [OPEN_OBJECT];
    total := Append(buf, at, [OPEN_OBJECT], 0, was, []);
    if v.members == [] {
      assert [] + [OPEN_OBJECT] + [CLOSE_OBJECT] == [OPEN_OBJECT, CLOSE_OBJECT];
    } else {
      ObjectPieces(v, level, pretty);
      assert [] + [OPEN_OBJECT] == [OPEN_OBJECT];
      total := BreakIf(pretty, buf, at, total, was, t);
      t := t + Break(pretty);
      var i := 0;
      while i < |v.members|
        invariant i <= |v.members| && Progress(buf, was, at, t, total) && LeftMembers(v, i, level, pretty, t)
      {
        total, t := SerializeMember(v, i, buf, at, level, pretty, total, was, t);
        i := i + 1;
      }
      ObjectEnd(v, level, pretty, t);
      total := IndentIf(pretty, buf, at, level, total, was, t);
      t := t + Indent(level, pretty);
    }
    total := Append(buf, at, [CLOSE_OBJECT], total, was, t);
  }

  /** The remaining cases of json_serialize_to_buffer_r. */
  method SerializeScalar(v: Value, buf: array?<byte>, at: nat, level: nat, pretty: bool, ghost was: bytes) returns (total: nat)
    requires !v.Arr? && !v.Obj? && Fits(buf, at, Print(v, level, pretty)) && was == Content(buf)
    modifies buf
    ensures Progress(buf, was, at, Print(v, level, pretty), total) && (buf != null ==> buf[at + total] == 0)
  {
    hide Extends, Quoted, Digits;
    Nothing(buf, at, was);
    match v
    case Null =>
      assert [] + NULL == NULL;
      total := Append(buf, at, NULL, 0, was, []);
    case Bool(b) =>
      assert [] + TRUE == TRUE && [] + FALSE == FALSE;
      total := Append(buf, at, if b then TRUE else FALSE, 0, was, []);
    case Number(n) =>
      assert [] + PrintNumber(n) == PrintNumber(n);
      total := Append(buf, at, PrintNumber(n), 0, was, []);
    case Str(s) =>
      total := SerializeString(buf, at, s, was);
  }

  /** json_serialize_to_buffer_r: with or without a buffer the result is the length of the text. */
  method SerializeValue(v: Value, buf: array?<byte>, at: nat, level: nat, pretty: bool, ghost was: bytes) returns (total: nat)
    requires Built(v) && Fits(buf, at, Print(v, level, pretty)) && was == Content(buf)
    modifies buf
    ensures Progress(buf, was, at, Print(v, level, pretty), total) && (buf != null ==> buf[at + total] == 0)
    decreases v, 6
  {
    hide Extends, Print, Built;
    if v.Arr? {
      total := SerializeArray(v, buf, at, level, pretty, was);
    } else if v.Obj? {
      total := SerializeObject(v, buf, at, level, pretty, was);
    } else {
      total := SerializeScalar(v, buf, at, level, pretty, was);
    }
  }

  // ---------------------------------------------------------------- sizes

  /** json_serialization_size and its pretty variant: the text and its terminator. */
  method SerializationSize(v: Value, pretty: bool) returns (size: nat)
    requires Built(v)
    ensures size == |Print(v, 0, pretty)| + 1
  {
    hide Print, Built;
    var res := SerializeValue(v, null, 0, 0, pretty, []);
    size := res + 1;
  }

  /** json_serialize_to_buffer: it fails exactly when the buffer is shorter than the counted size, and
      then leaves it alone; otherwise the buffer holds the text and its terminator, and nothing behind
      them is touched. */
  method SerializeToBuffer(v: Value, pretty: bool, buf: array<byte>) returns (ok: bool)
    requires Built(v)
    modifies buf
    ensures ok <==> |Print(v, 0, pretty)| + 1 <= buf.Length
    ensures !ok ==> buf[..] == old(buf[..])
    ensures ok ==> buf[..] == Print(v, 0, pretty) + [0] + old(buf[..])[|Print(v, 0, pretty)| + 1..]
  {
    hide Print, Built;
    var needed := SerializationSize(v, pretty);
    if buf.Length < needed {
      return false;
    }
    ghost var was, t := buf[..], Print(v, 0, pretty);
    var written := SerializeValue(v, buf, 0, 0, pretty, was);
    assert buf[..] == buf[0..|t|] + [buf[|t|]] + buf[|t| + 1..];
    return true;
  }

  /** json_serialize_to_string: a buffer of the counted size always suffices, and the string in it
      reads back as JsonRoundTrip says. */
  method SerializeToString(v: Value, pretty: bool) returns (buf: array<byte>)
    requires Built(v)
    ensures fresh(buf) && buf[..] == Print(v, 0, pretty) + [0]
  {
    hide Print, Built;
    var size := SerializationSize(v, pretty);
    buf := new byte[size];
    var ok := SerializeToBuffer(v, pretty, buf);
  }
}
