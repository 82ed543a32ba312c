/**
  * parson.c: what its parser and its printer compute.  A C string is the sequence of the bytes before
  * its terminator; reading the terminator is reading past the end of the sequence.
  *
  * Numbers are integers.  Number tokens with a fraction or an exponent, and magnitudes above 2^53,
  * are outside the model: ReadNumber yields no value for them.
  */
module Json {
  import opened Wrappers
  import opened Bytes

  const MAX_NESTING := 19
  const ARRAY_MAX := 122880
  const OBJECT_MAX := 960

  datatype Value =
    | Null
    | Bool(b: bool)
    | Number(n: int)
    | Str(s: bytes)
    | Arr(items: seq<Value>)
    | Obj(members: seq<Member>)

  datatype Member = Member(key: bytes, value: Value)

  // ---------------------------------------------------------------- characters

  const QUOTE: byte := 34
  const SPACE: byte := 32
  const NEWLINE: byte := 10
  const COMMA: byte := 44
  const MINUS: byte := 45
  const SLASH: byte := 47
  const COLON: byte := 58
  const OPEN_ARRAY: byte := 91
  const BACKSLASH: byte := 92
  const CLOSE_ARRAY: byte := 93
  const OPEN_OBJECT: byte := 123
  const CLOSE_OBJECT: byte := 125

  const TRUE: bytes := [116, 114, 117, 101]
  const FALSE: bytes := [102, 97, 108, 115, 101]
  const NULL: bytes := [110, 117, 108, 108]

  /** The byte at the cursor, 0 at the end of the string. */
  function Peek(s: bytes): byte {
    if s == [] then 0 else s[0]
  }

  predicate IsSpace(c: byte) {
    c == SPACE || 9 <= c <= 13
  }

  function SkipSpaces(s: bytes): (r: bytes)
    ensures |r| <= |s|
  {
    if s != [] && IsSpace(s[0]) then SkipSpaces(s[1..]) else s
  }

  predicate IsDigit(c: byte) {
    48 <= c <= 57
  }

  // ---------------------------------------------------------------- strings

  /** The letter of a two-character escape, and the byte it stands for. */
  function Unescape(c: byte): Option<byte> {
    if c == QUOTE || c == BACKSLASH || c == SLASH then Some(c)
    else if c == 98 then Some(8)
    else if c == 102 then Some(12)
    else if c == 110 then Some(10)
    else if c == 114 then Some(13)
    else if c == 116 then Some(9)
    else None
  }

  function HexDigit(c: byte): Option<nat> {
    if IsDigit(c) then Some(c - 48)
    else if 65 <= c <= 70 then Some(c - 55)
    else if 97 <= c <= 102 then Some(c - 87)
    else None
  }

  /** The number written with the first four characters, when they are hexadecimal digits. */
  function Hex4(s: bytes): Option<nat> {
    if |s| < 4 then None else
    var a, b, c, d := HexDigit(s[0]), HexDigit(s[1]), HexDigit(s[2]), HexDigit(s[3]);
    if a.None? || b.None? || c.None? || d.None? then None
    else Some(4096 * a.value + 256 * b.value + 16 * c.value + d.value)
  }

  /** The UTF-8 bytes of a code point, as parse_utf_16 writes them. */
  function Utf8(cp: nat): (r: bytes)
    requires cp < 0x110000
    ensures 1 <= |r| <= 4
  {
    if cp < 0x80 then [cp]
    else if cp < 0x800 then [0xC0 + cp / 64, 0x80 + cp % 64]
    else if cp < 0x10000 then [0xE0 + cp / 4096, 0x80 + cp / 64 % 64, 0x80 + cp % 64]
    else [0xF0 + cp / 262144, 0x80 + cp / 4096 % 64, 0x80 + cp / 64 % 64, 0x80 + cp % 64]
  }

  /** parse_utf_16 behind the letter u: the UTF-8 bytes and the number of characters read. */
  function ReadUtf16(s: bytes): (r: Option<(bytes, nat)>)
    ensures r.Some? ==> 4 <= r.value.1 <= |s|
  {
    match Hex4(s)
    case None => None
    case Some(cp) =>
      if cp < 0xD800 || cp > 0xDFFF then (if cp < 0x10000 then Some((Utf8(cp), 4)) else None)
      else if cp > 0xDBFF then None
      else if |s| < 6 || s[4] != BACKSLASH || s[5] != 117 then None
      else
        match Hex4(s[6..])
        case None => None
        case Some(trail) =>
          if trail < 0xDC00 || trail > 0xDFFF then None
          else Some((Utf8(0x10000 + 1024 * (cp - 0xD800) + (trail - 0xDC00)), 10))
  }

  /** process_string: the bytes that the characters between two quotes stand for. */
  function Process(c: bytes): Option<bytes>
    decreases |c|
  {
    if c == [] then Some([])
    else if c[0] == BACKSLASH then
      if |c| < 2 then None
      else if c[1] == 117 then
        match ReadUtf16(c[2..])
        case None => None
        case Some((bs, n)) => Prepend(bs, Process(c[2 + n..]))
      else
        match Unescape(c[1])
        case None => None
        case Some(b) => Prepend([b], Process(c[2..]))
    else if c[0] < 0x20 then None
    else Prepend([c[0]], Process(c[1..]))
  }

  function Prepend(bs: bytes, r: Option<bytes>): Option<bytes> {
    if r.None? then None else Some(bs + r.value)
  }

  /** A byte string as C reads it: up to its first zero. */
  function UpToZero(s: bytes): bytes {
    if s == [] || s[0] == 0 then [] else [s[0]] + UpToZero(s[1..])
  }

  /** skip_quotes behind the first character: what follows the closing quote. */
  function SkipQuotes(s: bytes): (r: bytes)
    ensures |r| <= |s| && (r != [] ==> |r| < |s|)
    decreases |s|
  {
    if s == [] then []
    else if s[0] == QUOTE then s[1..]
    else if s[0] == BACKSLASH then (if |s| < 2 then [] else SkipQuotes(s[2..]))
    else SkipQuotes(s[1..])
  }

  /** get_quoted_string: the first character is skipped whatever it is, and at least one character
      has to follow the closing quote. */
  function ReadQuoted(s: bytes): (r: Option<(bytes, bytes)>)
    requires s != []
    ensures r.Some? ==> |r.value.1| < |s|
  {
    var rest := SkipQuotes(s[1..]);
    if rest == [] then None else
    match Process(s[1..|s| - |rest| - 1])
    case None => None
    case Some(t) => Some((UpToZero(t), rest))
  }

  // ---------------------------------------------------------------- numbers

  function DigitsEnd(s: bytes): (k: nat)
    ensures k <= |s|
    ensures forall i | 0 <= i < k :: IsDigit(s[i])
    ensures k < |s| ==> !IsDigit(s[k])
  {
    if s == [] || !IsDigit(s[0]) then 0 else 1 + DigitsEnd(s[1..])
  }

  function Decimal(ds: bytes): int {
    if ds == [] then 0 else
    var last: int := ds[|ds| - 1];
    10 * Decimal(ds[..|ds| - 1]) + last - 48
  }

  /** parse_number_value on integer tokens: no leading zero, no fraction, exponent or hexadecimal
      form behind the digits. */
  function ReadNumber(s: bytes): (r: Option<(int, bytes)>)
    ensures r.Some? ==> |r.value.1| < |s|
  {
    var neg := Peek(s) == MINUS;
    var t := if neg then s[1..] else s;
    var k := DigitsEnd(t);
    if k == 0 || (k > 1 && t[0] == 48) then None
    else if k < |t| && (t[k] == 46 || t[k] == 69 || t[k] == 101 || t[k] == 88 || t[k] == 120) then None
    else
      var n := Decimal(t[..k]);
      if n > 0x20000000000000 then None else Some((if neg then -n else n, t[k..]))
  }

  // ---------------------------------------------------------------- values

  predicate HasKey(ms: seq<Member>, key: bytes) {
    exists i :: 0 <= i < |ms| && ms[i].key == key
  }

  /** parse_value: nesting counts the containers around the value. */
  function ReadValue(s: bytes, nesting: nat): (r: Option<(Value, bytes)>)
    ensures r.Some? ==> |r.value.1| < |s|
    decreases |s|, 2
  {
    if nesting > MAX_NESTING then None else
    var t := SkipSpaces(s);
    var c := Peek(t);
    if c == OPEN_OBJECT then ReadObject(t, nesting + 1)
    else if c == OPEN_ARRAY then ReadArray(t, nesting + 1)
    else if c == QUOTE then
      match ReadQuoted(t)
      case None => None
      case Some((str, rest)) => Some((Str(str), rest))
    else if c == 102 || c == 116 then
      if TRUE <= t then Some((Bool(true), t[4..]))
      else if FALSE <= t then Some((Bool(false), t[5..]))
      else None
    else if c == MINUS || IsDigit(c) then
      match ReadNumber(t)
      case None => None
      case Some((n, rest)) => Some((Number(n), rest))
    else if c == 110 then (if NULL <= t then Some((Null, t[4..])) else None)
    else None
  }

  /** parse_array_value */
  function ReadArray(s: bytes, nesting: nat): (r: Option<(Value, bytes)>)
    requires s != []
    ensures r.Some? ==> |r.value.1| < |s|
    decreases |s|, 1
  {
    var t := SkipSpaces(s[1..]);
    if Peek(t) == CLOSE_ARRAY then Some((Arr([]), t[1..])) else ReadItems(t, nesting, [])
  }

  /** The loop of parse_array_value, with the items read so far. */
  function ReadItems(s: bytes, nesting: nat, acc: seq<Value>): (r: Option<(Value, bytes)>)
    ensures r.Some? ==> |r.value.1| < |s|
    decreases |s|, 3
  {
    match ReadValue(s, nesting)
    case None => None
    case Some((v, s1)) =>
      if |acc| >= ARRAY_MAX then None else
      var t := SkipSpaces(s1);
      if Peek(t) == COMMA then ReadItems(SkipSpaces(t[1..]), nesting, acc + [v])
      else if Peek(t) == CLOSE_ARRAY then Some((Arr(acc + [v]), t[1..]))
      else None
  }

  /** parse_object_value */
  function ReadObject(s: bytes, nesting: nat): (r: Option<(Value, bytes)>)
    requires s != []
    ensures r.Some? ==> |r.value.1| < |s|
    decreases |s|, 1
  {
    var t := SkipSpaces(s[1..]);
    if Peek(t) == CLOSE_OBJECT then Some((Obj([]), t[1..])) else ReadMembers(t, nesting, [])
  }

  /** The loop of parse_object_value; json_object_add refuses a known key and the 961st member. */
  function ReadMembers(s: bytes, nesting: nat, acc: seq<Member>): (r: Option<(Value, bytes)>)
    ensures r.Some? ==> |r.value.1| < |s|
    decreases |s|, 3
  {
    if s == [] then None else
    match ReadQuoted(s)
    case None => None
    case Some((key, s0)) =>
      var s1 := SkipSpaces(s0);
      if Peek(s1) != COLON then None else
      match ReadValue(s1[1..], nesting)
      case None => None
      case Some((v, s2)) =>
        if |acc| >= OBJECT_MAX || HasKey(acc, key) then None else
        var t := SkipSpaces(s2);
        if Peek(t) == COMMA then ReadMembers(SkipSpaces(t[1..]), nesting, acc + [Member(key, v)])
        else if Peek(t) == CLOSE_OBJECT then Some((Obj(acc + [Member(key, v)]), t[1..]))
        else None
  }

  /** json_parse_string: only objects and arrays are texts; what follows them is ignored. */
  function Parse(s: bytes): Option<(Value, bytes)> {
    var t := SkipSpaces(s);
    if Peek(t) != OPEN_OBJECT && Peek(t) != OPEN_ARRAY then None else ReadValue(t, 0)
  }

  // ---------------------------------------------------------------- printing

  function Escape(c: byte): (r: bytes)
    ensures r != []
  {
    if c == QUOTE || c == BACKSLASH || c == SLASH then [BACKSLASH, c]
    else if c == 8 then [BACKSLASH, 98]
    else if c == 12 then [BACKSLASH, 102]
    else if c == 10 then [BACKSLASH, 110]
    else if c == 13 then [BACKSLASH, 114]
    else if c == 9 then [BACKSLASH, 116]
    else [c]
  }

  function EscapeAll(s: bytes): bytes {
    if s == [] then [] else Escape(s[0]) + EscapeAll(s[1..])
  }

  function Quoted(s: bytes): bytes {
    [QUOTE] + EscapeAll(s) + [QUOTE]
  }

  function Digits(n: nat): bytes {
    if n < 10 then [48 + n] else Digits(n / 10) + [48 + n % 10]
  }

  /** sprintf("%d", n) */
  function PrintNumber(n: int): bytes {
    if n < 0 then [MINUS] + Digits(-n) else Digits(n)
  }

  function Spaces(n: nat): bytes {
    seq(n, i => SPACE)
  }

  function Indent(level: nat, pretty: bool): bytes {
    if pretty then Spaces(4 * level) else []
  }

  function Break(pretty: bool): bytes {
    if pretty then [NEWLINE] else []
  }

  function Width(v: Value): nat {
    match v
    case Arr(items) => |items|
    case Obj(members) => |members|
    case _ => 0
  }

  /** json_serialize_to_buffer_r */
  function Print(v: Value, level: nat, pretty: bool): bytes
    decreases v, Width(v) + 2
  {
    match v
    case Null => NULL
    case Bool(b) => if b then TRUE else FALSE
    case Number(n) => PrintNumber(n)
    case Str(s) => Quoted(s)
    case Arr(items) =>
      if items == [] then [OPEN_ARRAY, CLOSE_ARRAY]
      else [OPEN_ARRAY] + Break(pretty) + PrintItems(v, 0, level, pretty)
    case Obj(members) =>
      if members == [] then [OPEN_OBJECT, CLOSE_OBJECT]
      else [OPEN_OBJECT] + Break(pretty) + PrintMembers(v, 0, level, pretty)
  }

  /** The items from number i on and the closing bracket. */
  function PrintItems(v: Value, i: nat, level: nat, pretty: bool): bytes
    requires v.Arr? && i <= |v.items|
    decreases v, |v.items| - i + 1
  {
    if i == |v.items| then Indent(level, pretty) + [CLOSE_ARRAY]
    else Indent(level + 1, pretty) + (Print(v.items[i], level + 1, pretty)
         + (Separator(i + 1 < |v.items|, pretty) + PrintItems(v, i + 1, level, pretty)))
  }

  function PrintMembers(v: Value, i: nat, level: nat, pretty: bool): bytes
    requires v.Obj? && i <= |v.members|
    decreases v, |v.members| - i + 1
  {
    if i == |v.members| then Indent(level, pretty) + [CLOSE_OBJECT]
    else Indent(level + 1, pretty) + (Quoted(v.members[i].key) + (Colon(pretty) + (Print(v.members[i].value, level + 1, pretty)
         + (Separator(i + 1 < |v.members|, pretty) + PrintMembers(v, i + 1, level, pretty)))))
  }

  function Separator(more: bool, pretty: bool): bytes {
    (if more then [COMMA] else []) + Break(pretty)
  }

  function Colon(pretty: bool): bytes {
    if pretty then [COLON, SPACE] else [COLON]
  }
}
