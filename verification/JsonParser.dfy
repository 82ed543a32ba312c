/**
  * The parser of parson.c at work: a cursor that moves along the text, and tables that double their
  * capacity.  Every method is tied to the function of Json that says what it reads.
  */
module JsonParser {
  import opened Wrappers
  import opened Bytes
  import opened Json
  import opened JsonRoundTrip

  const STARTING_CAPACITY := 15

  // ---------------------------------------------------------------- tables

  function Max(a: nat, b: nat): nat {
    if a > b then a else b
  }

  /** The capacity after one growth step. */
  function Grown(capacity: nat): nat {
    Max(capacity * 2, STARTING_CAPACITY)
  }

  /** The entries of an array or an object: `count` of them in a buffer of some capacity. */
  class Table<T(0)> {
    var buffer: array<T>
    var count: nat
    const limit: nat

    ghost predicate Valid()
      reads this, buffer
    {
      count <= buffer.Length
    }

    ghost function Entries(): (s: seq<T>)
      requires Valid()
      reads this, buffer
      ensures |s| == count
    {
      buffer[..count]
    }

    constructor (max: nat)
      ensures Valid() && fresh(buffer) && Entries() == [] && limit == max && buffer.Length == 0
    {
      buffer := new T[0];
      count, limit := 0, max;
    }

    /** json_array_resize, json_object_resize: the entries move to a buffer of the given capacity. */
    method Resize(capacity: nat)
      requires Valid() && count <= capacity
      modifies this
      ensures Valid() && fresh(buffer) && buffer.Length == capacity && Entries() == old(Entries())
    {
      var b := new T[capacity];
      var i := 0;
      while i < count
        invariant count == old(count) && buffer == old(buffer) && Valid()
        invariant i <= count && b[..i] == buffer[..i]
      {
        b[i] := buffer[i];
        i := i + 1;
      }
      buffer := b;
    }

    /** Room for one more entry: it fails exactly when the buffer is full and must not grow. */
    method Reserve() returns (ok: bool)
      requires Valid()
      modifies this
      ensures Valid() && (buffer == old(buffer) || fresh(buffer)) && Entries() == old(Entries())
      ensures ok <==> count < old(buffer.Length) || Grown(old(buffer.Length)) <= limit
      ensures ok ==> count < buffer.Length
      ensures buffer.Length == if count < old(buffer.Length) || !ok then old(buffer.Length) else Grown(old(buffer.Length))
    {
      if count >= buffer.Length {
        var capacity := Grown(buffer.Length);
        if capacity > limit {
          return false;
        }
        Resize(capacity);
      }
      return true;
    }

    method Append(x: T)
      requires Valid() && count < buffer.Length
      modifies this`count, buffer
      ensures Valid() && Entries() == old(Entries()) + [x]
    {
      buffer[count] := x;
      count := count + 1;
    }
  }

  /** The capacities that growth from an empty table goes through. */
  ghost predicate Doubled(capacity: nat) {
    capacity == 0 || (exists k: nat :: capacity == Times15(k))
  }

  function Times15(k: nat): nat {
    if k == 0 then STARTING_CAPACITY else 2 * Times15(k - 1)
  }

  lemma {:induction false} Times15Grows(k: nat, m: nat)
    requires k < m
    ensures Times15(k) * 2 <= Times15(m)
  {
    if k + 1 < m { Times15Grows(k, m - 1); }
  }

  /** A table that was only added to takes exactly `limit` entries, for the limits of both kinds. */
  lemma {:induction false} GrowthStops(count: nat, capacity: nat, m: nat)
    requires Doubled(capacity) && count <= capacity <= Times15(m)
    ensures Doubled(Grown(capacity))
    ensures count < capacity || Grown(capacity) <= Times15(m) <==> count < Times15(m)
    ensures count < capacity || Grown(capacity) <= Times15(m) ==> capacity <= Times15(m)
  {
    if capacity == 0 {
      assert Grown(0) == Times15(0);
      if m > 0 { Times15Grows(0, m); }
    } else {
      var k: nat :| capacity == Times15(k);
      Times15Least(k);
      assert Grown(capacity) == Times15(k + 1);
      if k < m {
        Times15Grows(k, m);
      } else if k > m {
        Times15Grows(m, k);
      }
    }
  }

  lemma {:induction false} Times15Least(k: nat)
    ensures Times15(k) >= STARTING_CAPACITY
  {
    if k > 0 { Times15Least(k - 1); }
  }

  lemma {:induction false} Limits()
    ensures Times15(6) == OBJECT_MAX && Times15(13) == ARRAY_MAX
  {
    assert Times15(3) == 2 * (2 * (2 * Times15(0)));
    assert Times15(6) == 2 * (2 * (2 * Times15(3)));
    assert Times15(9) == 2 * (2 * (2 * Times15(6)));
    assert Times15(12) == 2 * (2 * (2 * Times15(9)));
  }

  // ---------------------------------------------------------------- the cursor

  class Cursor {
    const text: bytes
    var pos: nat

    ghost predicate Valid()
      reads this
    {
      pos <= |text| && NoZero(text)
    }

    /** What is still to be read. */
    ghost function Rest(): bytes
      requires Valid()
      reads this
    {
      text[pos..]
    }

    constructor (s: bytes)
      requires NoZero(s)
      ensures Valid() && text == s && Rest() == s
    {
      text, pos := s, 0;
    }

    function Here(): (c: byte)
      requires Valid()
      reads this
      ensures c == Peek(Rest())
    {
      if pos < |text| then text[pos] else 0
    }

    lemma {:induction false} AtEnd()
      requires Valid()
      ensures Here() == 0 <==> Rest() == []
    {
    }

    method SkipChar()
      requires Valid() && Rest() != []
      modifies this
      ensures Valid() && Rest() == old(Rest())[1..]
    {
      pos := pos + 1;
    }

    /** SKIP_WHITESPACES */
    method SkipSpaces()
      requires Valid()
      modifies this
      ensures Valid() && Rest() == Json.SkipSpaces(old(Rest()))
    {
      ghost var s := Rest();
      while IsSpace(Here())
        invariant Valid() && Json.SkipSpaces(Rest()) == Json.SkipSpaces(s)
        decreases |text| - pos
      {
        SkipChar();
      }
    }

    /** skip_quotes: over one character, and on behind the next unescaped quote. */
    method SkipQuotes()
      requires Valid() && Rest() != []
      modifies this
      ensures Valid() && Rest() == Json.SkipQuotes(old(Rest())[1..])
    {
      SkipChar();
      ghost var s := Rest();
      while Here() != QUOTE
        invariant Valid() && Json.SkipQuotes(Rest()) == Json.SkipQuotes(s)
        decreases |text| - pos
      {
        AtEnd();
        if Here() == 0 {
          return;
        }
        if Here() == BACKSLASH {
          SkipChar();
          AtEnd();
          if Here() == 0 {
            return;
          }
        }
        SkipChar();
      }
      SkipChar();
    }
  }

  // ---------------------------------------------------------------- strings

  lemma {:induction false} PrependTwice(a: bytes, b: bytes, r: Option<bytes>)
    ensures Prepend(a, Prepend(b, r)) == Prepend(a + b, r)
  {
    if r.Some? { Assoc(a, b, r.value); }
  }

  /** process_string */
  method ProcessString(input: bytes) returns (output: Option<bytes>)
    ensures output == match Process(input) case None => None case Some(t) => Some(UpToZero(t))
  {
    var out: bytes := [];
    var i := 0;
    assert input[0..] == input;
    NothingBefore(Process(input));
    while i < |input|
      invariant i <= |input| && Process(input) == Prepend(out, Process(input[i..]))
    {
      ghost var c := input[i..];
      if input[i] == BACKSLASH {
        if i + 1 == |input| {
          return None;
        }
        if input[i + 1] == 117 {
          assert c[2..] == input[i + 2..];
          var u := ReadUtf16(input[i + 2..]);
          if u.None? {
            return None;
          }
          assert c[2 + u.value.1..] == input[i + 2 + u.value.1..];
          PrependTwice(out, u.value.0, Process(input[i + 2 + u.value.1..]));
          out := out + u.value.0;
          i := i + 2 + u.value.1;
        } else {
          var b := Unescape(input[i + 1]);
          if b.None? {
            return None;
          }
          assert c[2..] == input[i + 2..];
          PrependTwice(out, [b.value], Process(input[i + 2..]));
          out := out + [b.value];
          i := i + 2;
        }
      } else if input[i] < 0x20 {
        return None;
      } else {
        assert c[1..] == input[i + 1..];
        PrependTwice(out, [input[i]], Process(input[i + 1..]));
        out := out + [input[i]];
        i := i + 1;
      }
    }
    assert out + [] == out;
    return Some(UpToZero(out));
  }

  lemma {:induction false} NothingBefore(r: Option<bytes>)
    ensures Prepend([], r) == r
  {
    if r.Some? { assert [] + r.value == r.value; }
  }

  /** What a reading step says about its result and the cursor behind it. */
  ghost predicate Reads<T>(r: Option<T>, rest: bytes, spec: Option<(T, bytes)>) {
    match spec
    case None => r == None
    case Some((x, t)) => r == Some(x) && rest == t
  }

  /** get_quoted_string */
  method GetQuotedString(c: Cursor, ghost s: bytes) returns (r: Option<bytes>)
    requires c.Valid() && s == c.Rest() && s != []
    modifies c
    ensures c.Valid() && Reads(r, c.Rest(), ReadQuoted(s))
  {
    hide Json.SkipQuotes, Process, UpToZero;
    var start := c.pos;
    c.SkipQuotes();
    c.AtEnd();
    if c.Here() == 0 {
      return None;
    }
    var len := c.pos - start - 2;
    assert c.text[start + 1..start + 1 + len] == s[1..|s| - |c.Rest()| - 1];
    r := ProcessString(c.text[start + 1..start + 1 + len]);
  }

  // ---------------------------------------------------------------- numbers and words

  /** The number of digits at the cursor, without moving it. */
  method CountDigits(s: bytes) returns (k: nat)
    ensures k == DigitsEnd(s)
  {
    k := 0;
    assert s[0..] == s;
    while k < |s| && IsDigit(s[k])
      invariant k <= |s| && k + DigitsEnd(s[k..]) == DigitsEnd(s)
    {
      assert s[k..][1..] == s[k + 1..];
      k := k + 1;
    }
    assert k < |s| ==> s[k..][0] == s[k];
  }

  /** The value of a run of digits. */
  method Evaluate(ds: bytes) returns (n: int)
    ensures n == Decimal(ds)
  {
    n := 0;
    var i := 0;
    while i < |ds|
      invariant i <= |ds| && n == Decimal(ds[..i])
    {
      var d: int := ds[i];
      assert ds[..i + 1][..i] == ds[..i];
      n := 10 * n + d - 48;
      i := i + 1;
    }
    assert ds[..i] == ds;
  }

  /** parse_number_value on integer tokens */
  method ParseNumber(c: Cursor, ghost s: bytes) returns (r: Option<int>)
    requires c.Valid() && s == c.Rest()
    modifies c
    ensures c.Valid() && Reads(r, c.Rest(), ReadNumber(s))
  {
    var neg := c.Here() == MINUS;
    var start := if neg then c.pos + 1 else c.pos;
    var t := c.text[start..];
    assert t == if neg then s[1..] else s;
    var k := CountDigits(t);
    if k == 0 || (k > 1 && t[0] == 48) {
      return None;
    }
    if k < |t| && (t[k] == 46 || t[k] == 69 || t[k] == 101 || t[k] == 88 || t[k] == 120) {
      return None;
    }
    var n := Evaluate(t[..k]);
    if n > 0x20000000000000 {
      return None;
    }
    c.pos := start + k;
    return Some(if neg then -n else n);
  }

  /** strncmp with one of the words, and over it when it is there. */
  method Accept(c: Cursor, word: bytes, ghost s: bytes) returns (ok: bool)
    requires c.Valid() && s == c.Rest()
    modifies c
    ensures c.Valid() && ok == (word <= s)
    ensures c.Rest() == if ok then s[|word|..] else s
  {
    var t := c.text[c.pos..];
    ok := |word| <= |t| && t[..|word|] == word;
    if ok {
      c.pos := c.pos + |word|;
    }
  }

  // ---------------------------------------------------------------- values

  lemma {:induction false} SkipTwice(s: bytes)
    ensures SkipSpaces(SkipSpaces(s)) == SkipSpaces(s)
  {
    if s != [] && IsSpace(s[0]) { SkipTwice(s[1..]); }
  }

  /** Values without inner values: strings, words and numbers, from a cursor that skipped spaces. */
  method ParseScalar(c: Cursor, ghost s: bytes, nesting: nat) returns (r: Option<Value>)
    requires c.Valid() && s == c.Rest() && nesting <= MAX_NESTING
    requires SkipSpaces(s) == s && Peek(s) != OPEN_OBJECT && Peek(s) != OPEN_ARRAY
    modifies c
    ensures c.Valid() && Reads(r, c.Rest(), ReadValue(s, nesting))
  {
    hide ReadQuoted, ReadNumber, SkipSpaces;
    var h := c.Here();
    if h == QUOTE {
      var str := GetQuotedString(c, s);
      if str.None? {
        return None;
      }
      return Some(Str(str.value));
    } else if h == 102 || h == 116 {
      var yes := Accept(c, TRUE, s);
      if yes {
        return Some(Bool(true));
      }
      var no := Accept(c, FALSE, s);
      return if no then Some(Bool(false)) else None;
    } else if h == MINUS || IsDigit(h) {
      var n := ParseNumber(c, s);
      if n.None? {
        return None;
      }
      return Some(Number(n.value));
    } else if h == 110 {
      var nil := Accept(c, NULL, s);
      return if nil then Some(Null) else None;
    } else {
      return None;
    }
  }

  /** parse_value */
  method ParseValue(c: Cursor, nesting: nat, ghost s: bytes) returns (r: Option<Value>)
    requires c.Valid() && s == c.Rest()
    modifies c
    ensures c.Valid() && Reads(r, c.Rest(), ReadValue(s, nesting))
    decreases |s|, 2
  {
    hide ReadArray, ReadObject, SkipSpaces;
    if nesting > MAX_NESTING {
      return None;
    }
    c.SkipSpaces();
    ghost var t := c.Rest();
    SkipTwice(s);
    SameValue(s, t, nesting);
    if c.Here() == OPEN_OBJECT {
      r := ParseObject(c, nesting + 1, t);
    } else if c.Here() == OPEN_ARRAY {
      r := ParseArray(c, nesting + 1, t);
    } else {
      r := ParseScalar(c, t, nesting);
    }
  }

  lemma {:induction false} SameValue(s: bytes, t: bytes, nesting: nat)
    requires t == SkipSpaces(s)
    ensures ReadValue(s, nesting) == ReadValue(t, nesting)
    ensures |t| <= |s|
  {
    SkipTwice(s);
  }

  /** The table of an array or object under construction: never shrunk, within its limit. */
  ghost predicate Growing(capacity: nat, limit: nat) {
    Doubled(capacity) && capacity <= limit && exists m: nat :: limit == Times15(m)
  }

  /** On a table under construction there is room exactly below the limit. */
  method ReserveIn<T(0)>(table: Table<T>) returns (ok: bool)
    requires table.Valid() && Growing(table.buffer.Length, table.limit)
    modifies table
    ensures table.Valid() && Growing(table.buffer.Length, table.limit)
    ensures table.buffer == old(table.buffer) || fresh(table.buffer)
    ensures ok <==> table.count < table.limit
    ensures ok ==> table.count < table.buffer.Length
    ensures table.Entries() == old(table.Entries())
  {
    ghost var m: nat :| table.limit == Times15(m);
    GrowthStops(table.count, table.buffer.Length, m);
    ok := table.Reserve();
  }

  /** json_array_add */
  method ArrayAdd(table: Table<Value>, v: Value) returns (ok: bool)
    requires table.Valid() && Growing(table.buffer.Length, table.limit)
    modifies table, table.buffer
    ensures table.Valid() && Growing(table.buffer.Length, table.limit)
    ensures table.buffer == old(table.buffer) || fresh(table.buffer)
    ensures ok <==> |old(table.Entries())| < table.limit
    ensures table.Entries() == if ok then old(table.Entries()) + [v] else old(table.Entries())
  {
    ok := ReserveIn(table);
    if ok {
      table.Append(v);
    }
  }

  lemma {:induction false} EmptyGrowing()
    ensures Growing(0, ARRAY_MAX) && Growing(0, OBJECT_MAX)
  {
    Limits();
  }

  /** Reading the items from here on, with those in the table, gives what the array reads as. */
  ghost predicate ArrayLoop(rest: bytes, nesting: nat, acc: seq<Value>, goal: Option<(Value, bytes)>) {
    ReadItems(rest, nesting, acc) == goal
  }

  /** One round of the loop in parse_array_value: an item and what separates it from the next one. */
  method ParseItem(c: Cursor, nesting: nat, table: Table<Value>, ghost s: bytes, ghost goal: Option<(Value, bytes)>)
      returns (ok: bool, more: bool)
    requires c.Valid() && s == c.Rest() && table.Valid()
    requires Growing(table.buffer.Length, table.limit) && table.limit == ARRAY_MAX
    requires ArrayLoop(s, nesting, table.Entries(), goal)
    modifies c, table, table.buffer
    ensures c.Valid() && table.Valid() && Growing(table.buffer.Length, table.limit)
    ensures table.buffer == old(table.buffer) || fresh(table.buffer)
    ensures !ok ==> goal == None
    ensures ok ==> |c.Rest()| < |s|
    ensures ok && more ==> ArrayLoop(c.Rest(), nesting, table.Entries(), goal)
    ensures ok && !more ==> c.Rest() == SkipSpaces(c.Rest())
                            && goal == if Peek(c.Rest()) == CLOSE_ARRAY then Some((Arr(table.Entries()), c.Rest()[1..])) else None
    decreases |s|, 3
  {
    hide SkipSpaces, ReadValue, Growing;
    ghost var acc := table.Entries();
    var v := ParseValue(c, nesting, s);
    if v.None? {
      return false, false;
    }
    ok := ArrayAdd(table, v.value);
    if !ok {
      return false, false;
    }
    SkipTwice(c.Rest());
    c.SkipSpaces();
    if c.Here() != COMMA {
      return true, false;
    }
    c.SkipChar();
    c.SkipSpaces();
    return true, true;
  }

  /** parse_array_value */
  method ParseArray(c: Cursor, nesting: nat, ghost s: bytes) returns (r: Option<Value>)
    requires c.Valid() && s == c.Rest() && s != []
    modifies c
    ensures c.Valid() && Reads(r, c.Rest(), ReadArray(s, nesting))
    decreases |s|, 1
  {
    hide SkipSpaces, ReadItems, Growing;
    var table := new Table<Value>(ARRAY_MAX);
    EmptyGrowing();
    c.SkipChar();
    c.SkipSpaces();
    if c.Here() == CLOSE_ARRAY {
      c.SkipChar();
      return Some(Arr([]));
    }
    ghost var goal := ReadArray(s, nesting);
    var more := true;
    while more && c.Here() != 0
      invariant c.Valid() && table.Valid() && fresh(table) && fresh(table.buffer)
      invariant Growing(table.buffer.Length, table.limit) && table.limit == ARRAY_MAX && |c.Rest()| < |s|
      invariant more ==> ArrayLoop(c.Rest(), nesting, table.Entries(), goal)
      invariant !more ==> c.Rest() == SkipSpaces(c.Rest())
                          && goal == if Peek(c.Rest()) == CLOSE_ARRAY then Some((Arr(table.Entries()), c.Rest()[1..])) else None
      decreases more, |c.Rest()|
    {
      var ok;
      ok, more := ParseItem(c, nesting, table, c.Rest(), goal);
      if !ok {
        return None;
      }
    }
    c.AtEnd();
    if more {
      NothingLeft(nesting, table.Entries());
    }
    r := CloseArray(c, table);
  }

  /** The end of parse_array_value: the closing bracket, and the table cut to its size. */
  method CloseArray(c: Cursor, table: Table<Value>) returns (r: Option<Value>)
    requires c.Valid() && table.Valid()
    modifies c, table
    ensures c.Valid()
    ensures var t := SkipSpaces(old(c.Rest()));
            if Peek(t) == CLOSE_ARRAY then r == Some(Arr(old(table.Entries()))) && c.Rest() == t[1..] else r == None
  {
    hide SkipSpaces;
    c.SkipSpaces();
    c.AtEnd();
    if c.Here() != CLOSE_ARRAY {
      return None;
    }
    table.Resize(table.count);
    assert table.buffer[..] == table.Entries();
    c.SkipChar();
    return Some(Arr(table.buffer[..]));
  }

  lemma {:induction false} NothingLeft(nesting: nat, acc: seq<Value>)
    ensures SkipSpaces([]) == [] && ReadItems([], nesting, acc) == None
  {
  }

  // ---------------------------------------------------------------- objects

  ghost predicate ObjectLoop(rest: bytes, nesting: nat, acc: seq<Member>, goal: Option<(Value, bytes)>) {
    ReadMembers(rest, nesting, acc) == goal
  }

  /** json_object_get_value, asked whether the key is known. */
  method Knows(table: Table<Member>, key: bytes) returns (known: bool)
    requires table.Valid()
    ensures known == HasKey(table.Entries(), key)
  {
    var i := 0;
    while i < table.count
      invariant i <= table.count && !HasKey(table.Entries()[..i], key)
    {
      if table.buffer[i].key == key {
        assert table.Entries()[i].key == key;
        return true;
      }
      i := i + 1;
    }
    assert table.Entries()[..i] == table.Entries();
    return false;
  }

  /** json_object_add: room first, then the key. */
  method ObjectAdd(table: Table<Member>, m: Member) returns (ok: bool)
    requires table.Valid() && Growing(table.buffer.Length, table.limit)
    modifies table, table.buffer
    ensures table.Valid() && Growing(table.buffer.Length, table.limit)
    ensures table.buffer == old(table.buffer) || fresh(table.buffer)
    ensures ok <==> |old(table.Entries())| < table.limit && !HasKey(old(table.Entries()), m.key)
    ensures table.Entries() == if ok then old(table.Entries()) + [m] else old(table.Entries())
  {
    hide HasKey;
    ok := ReserveIn(table);
    if !ok {
      return false;
    }
    var known := Knows(table, m.key);
    if known {
      return false;
    }
    table.Append(m);
  }

  /** A key and the colon behind it. */
  method ParseKey(c: Cursor, ghost s: bytes) returns (key: Option<bytes>)
    requires c.Valid() && s == c.Rest() && s != []
    modifies c
    ensures c.Valid()
    ensures match ReadQuoted(s)
            case None => key == None
            case Some((k, s0)) =>
              var s1 := SkipSpaces(s0);
              if Peek(s1) != COLON then key == None else key == Some(k) && c.Rest() == s1[1..] && |c.Rest()| < |s|
  {
    hide SkipSpaces, ReadQuoted;
    key := GetQuotedString(c, s);
    if key.None? {
      return None;
    }
    c.SkipSpaces();
    c.AtEnd();
    if c.Here() != COLON {
      return None;
    }
    c.SkipChar();
  }

  /** One round of the loop in parse_object_value. */
  method ParseMember(c: Cursor, nesting: nat, table: Table<Member>, ghost s: bytes, ghost goal: Option<(Value, bytes)>)
      returns (ok: bool, more: bool)
    requires c.Valid() && s == c.Rest() && s != [] && table.Valid()
    requires Growing(table.buffer.Length, table.limit) && table.limit == OBJECT_MAX
    requires ObjectLoop(s, nesting, table.Entries(), goal)
    modifies c, table, table.buffer
    ensures c.Valid() && table.Valid() && Growing(table.buffer.Length, table.limit)
    ensures table.buffer == old(table.buffer) || fresh(table.buffer)
    ensures !ok ==> goal == None
    ensures ok ==> |c.Rest()| < |s|
    ensures ok && more ==> ObjectLoop(c.Rest(), nesting, table.Entries(), goal)
    ensures ok && !more ==> c.Rest() == SkipSpaces(c.Rest())
                            && goal == if Peek(c.Rest()) == CLOSE_OBJECT then Some((Obj(table.Entries()), c.Rest()[1..])) else None
    decreases |s|, 3
  {
    hide SkipSpaces, ReadValue, Growing, ReadQuoted, HasKey;
    ghost var acc := table.Entries();
    var key := ParseKey(c, s);
    if key.None? {
      return false, false;
    }
    var v := ParseValue(c, nesting, c.Rest());
    if v.None? {
      return false, false;
    }
    ok := ObjectAdd(table, Member(key.value, v.value));
    if !ok {
      return false, false;
    }
    SkipTwice(c.Rest());
    c.SkipSpaces();
    if c.Here() != COMMA {
      return true, false;
    }
    c.SkipChar();
    c.SkipSpaces();
    return true, true;
  }

  /** parse_object_value */
  method ParseObject(c: Cursor, nesting: nat, ghost s: bytes) returns (r: Option<Value>)
    requires c.Valid() && s == c.Rest() && s != []
    modifies c
    ensures c.Valid() && Reads(r, c.Rest(), ReadObject(s, nesting))
    decreases |s|, 1
  {
    hide SkipSpaces, ReadMembers, Growing;
    var table := new Table<Member>(OBJECT_MAX);
    EmptyGrowing();
    c.SkipChar();
    c.SkipSpaces();
    if c.Here() == CLOSE_OBJECT {
      c.SkipChar();
      return Some(Obj([]));
    }
    ghost var goal := ReadObject(s, nesting);
    var more := true;
    while more && c.Here() != 0
      invariant c.Valid() && table.Valid() && fresh(table) && fresh(table.buffer)
      invariant Growing(table.buffer.Length, table.limit) && table.limit == OBJECT_MAX && |c.Rest()| < |s|
      invariant more ==> ObjectLoop(c.Rest(), nesting, table.Entries(), goal)
      invariant !more ==> c.Rest() == SkipSpaces(c.Rest())
                          && goal == if Peek(c.Rest()) == CLOSE_OBJECT then Some((Obj(table.Entries()), c.Rest()[1..])) else None
      decreases more, |c.Rest()|
    {
      c.AtEnd();
      var ok;
      ok, more := ParseMember(c, nesting, table, c.Rest(), goal);
      if !ok {
        return None;
      }
    }
    c.AtEnd();
    if more {
      NoMemberLeft(nesting, table.Entries());
    }
    r := CloseObject(c, table);
  }

  /** The end of parse_object_value: the closing bracket, and the table cut to its size. */
  method CloseObject(c: Cursor, table: Table<Member>) returns (r: Option<Value>)
    requires c.Valid() && table.Valid()
    modifies c, table
    ensures c.Valid()
    ensures var t := SkipSpaces(old(c.Rest()));
            if Peek(t) == CLOSE_OBJECT then r == Some(Obj(old(table.Entries()))) && c.Rest() == t[1..] else r == None
  {
    hide SkipSpaces;
    c.SkipSpaces();
    c.AtEnd();
    if c.Here() != CLOSE_OBJECT {
      return None;
    }
    table.Resize(table.count);
    assert table.buffer[..] == table.Entries();
    c.SkipChar();
    return Some(Obj(table.buffer[..]));
  }

  lemma {:induction false} NoMemberLeft(nesting: nat, acc: seq<Member>)
    ensures SkipSpaces([]) == [] && ReadMembers([], nesting, acc) == None
  {
  }

  /** json_parse_string */
  method ParseString(text: bytes) returns (r: Option<Value>)
    requires NoZero(text)
    ensures r == match Parse(text) case None => None case Some((v, _)) => Some(v)
  {
    hide ReadValue, SkipSpaces;
    var c := new Cursor(text);
    c.SkipSpaces();
    if c.Here() != OPEN_OBJECT && c.Here() != OPEN_ARRAY {
      return None;
    }
    r := ParseValue(c, 0, c.Rest());
  }
}
