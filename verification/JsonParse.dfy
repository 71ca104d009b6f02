/** The grammar that the recursive parser of cJSON.c accepts and the value it builds, as functions
    of the text (with its terminating NUL), an offset and the nesting depth so far. */
module JsonParse {
  import opened Options
  import opened JsonText
  import Utf8

  /** A C string with its terminator: strlen + 1 bytes. */
  predicate CString(c: Bytes) {
    |c| > 0 && c[|c| - 1] == NUL
  }

  datatype Parsed<+T> = Fail | Done(value: T, end: nat)

  /** buffer_skip_whitespace: anything up to 32, the NUL too, but it steps back onto the last byte. */
  function Skip(c: Bytes, o: nat): (r: nat)
    requires o < |c|
    ensures o <= r < |c|
    decreases |c| - o
  {
    if c[o] <= 32 && o + 1 < |c| then Skip(c, o + 1) else o
  }

  predicate StartsWith(c: Bytes, o: nat, t: Bytes) {
    o + |t| <= |c| && c[o..o + |t|] == t
  }

  // ---------- strings

  function HexValue(b: bv8): Option<bv32> {
    if 0x30 <= b <= 0x39 then Some((b - 0x30) as bv32)
    else if 0x41 <= b <= 0x46 then Some((b - 0x41) as bv32 + 10)
    else if 0x61 <= b <= 0x66 then Some((b - 0x61) as bv32 + 10)
    else None
  }

  function Nibble(h: bv32): bv32 { h << 4 }

  function Plus(h: bv32, d: bv32): bv32 { h + d }

  function AddDigit(h: bv32, d: bv32): bv32 { Plus(Nibble(h), d) }

  /** Four hexadecimal digits; 0 if any of them is not one. */
  function Hex4(c: Bytes, i: nat): bv32
    requires i + 4 <= |c|
  {
    match (HexValue(c[i]), HexValue(c[i + 1]), HexValue(c[i + 2]), HexValue(c[i + 3]))
    case (Some(d3), Some(d2), Some(d1), Some(d0)) => AddDigit(AddDigit(AddDigit(AddDigit(0, d3), d2), d1), d0)
    case _ => 0
  }

  predicate HighSurrogate(u: bv32) { 0xD800 <= u <= 0xDBFF }

  predicate LowSurrogate(u: bv32) { 0xDC00 <= u <= 0xDFFF }

  function FromSurrogates(hi: bv32, lo: bv32): bv32 {
    0x1_0000 + ((hi - 0xD800) << 10) + (lo - 0xDC00)
  }

  /** A \u escape at i, or a surrogate pair of them: its code point and how long the escape is. */
  function Literal16(c: Bytes, i: nat, end: nat): Parsed<bv32>
    requires i <= end <= |c|
  {
    if end - i < 6 then Fail
    else
      var first := Hex4(c, i + 2);
      if LowSurrogate(first) then Fail
      else if HighSurrogate(first) then
        if end - i < 12 || c[i + 6] != BACKSLASH || c[i + 7] != 0x75 then Fail
        else
          var second := Hex4(c, i + 8);
          if LowSurrogate(second) then Done(FromSurrogates(first, second), i + 12) else Fail
      else Done(first, i + 6)
  }

  function Unshort(e: bv8): Option<bv8> {
    if e == QUOTE || e == BACKSLASH || e == 0x2F then Some(e)
    else if e == 0x62 then Some(8)
    else if e == 0x66 then Some(12)
    else if e == 0x6E then Some(10)
    else if e == 0x72 then Some(13)
    else if e == 0x74 then Some(9)
    else None
  }

  /** Where the string literal that started before i ends: the next quote not behind a backslash. */
  function FindQuote(c: Bytes, i: nat): (r: Option<nat>)
    requires i <= |c|
    ensures r.Some? ==> i <= r.value < |c| && c[r.value] == QUOTE
    decreases |c| - i
  {
    if i >= |c| then None
    else if c[i] == QUOTE then Some(i)
    else if c[i] == BACKSLASH then
      if i + 1 >= |c| then None else FindQuote(c, i + 2)
    else FindQuote(c, i + 1)
  }

  /** The bytes of the literal between i and end, whose closing quote is at end. */
  function Unescape(c: Bytes, i: nat, end: nat): Option<Bytes>
    requires end < |c|
    decreases |c| - i
  {
    if i >= end then Some([])
    else if c[i] != BACKSLASH then Prefixed([c[i]], Unescape(c, i + 1, end))
    else if c[i + 1] == 0x75 then
      match Literal16(c, i, end)
      case Fail => None
      case Done(cp, next) => Prefixed(Utf8.Encode(cp), Unescape(c, next, end))
    else
      match Unshort(c[i + 1])
      case None => None
      case Some(b) => Prefixed([b], Unescape(c, i + 2, end))
  }

  function Prefixed(p: Bytes, rest: Option<Bytes>): Option<Bytes> {
    match rest
    case None => None
    case Some(t) => Some(p + t)
  }

  /** Bytes as the C string they are read as: a \\u0000 in the text ends it early. */
  function CStr(s: Bytes): (r: Bytes)
    ensures NulFree(r) && r <= s
    ensures NulFree(s) ==> r == s
  {
    if s == [] || s[0] == NUL then [] else [s[0]] + CStr(s[1..])
  }

  function ParseString(c: Bytes, o: nat): (r: Parsed<Bytes>)
    requires CString(c) && o < |c|
    ensures r.Done? ==> o < r.end < |c|
  {
    if c[o] != QUOTE then Fail
    else
      match FindQuote(c, o + 1)
      case None => Fail
      case Some(end) =>
        match Unescape(c, o + 1, end)
        case None => Fail
        case Some(s) => Done(CStr(s), end + 1)
  }

  // ---------- numbers

  const NUMBER_BUFFER := 64

  function NumberEnd(c: Bytes, o: nat, limit: nat): (r: nat)
    requires o <= |c|
    ensures o <= r <= |c| && r <= o + limit
    decreases limit
  {
    if limit > 0 && o < |c| && IsNumberChar(c[o]) then NumberEnd(c, o + 1, limit - 1) else o
  }

  function ParseNumber(c: Bytes, o: nat): (r: Parsed<Value>)
    requires CString(c) && o < |c|
    ensures r.Done? ==> o < r.end < |c|
  {
    var run := c[o..NumberEnd(c, o, NUMBER_BUFFER - 1)];
    var n := Strtod(run);
    NumberStops(c, o, NUMBER_BUFFER - 1);
    if n == 0 then Fail else Done(Number(run[..n]), o + n)
  }

  lemma NumberStops(c: Bytes, o: nat, limit: nat)
    requires CString(c) && o < |c|
    ensures NumberEnd(c, o, limit) < |c|
    decreases limit
  {
    if limit > 0 && IsNumberChar(c[o]) {
      NumberStops(c, o + 1, limit - 1);
    }
  }

  // ---------- values

  function ParseValue(c: Bytes, o: nat, depth: nat): (r: Parsed<Value>)
    requires CString(c) && o < |c|
    ensures r.Done? ==> o < r.end < |c|
    decreases |c| - o, 2
  {
    if StartsWith(c, o, NULL_TEXT) then Word(c, o, NULL_TEXT, Null)
    else if StartsWith(c, o, FALSE_TEXT) then Word(c, o, FALSE_TEXT, False)
    else if StartsWith(c, o, TRUE_TEXT) then Word(c, o, TRUE_TEXT, True)
    else if c[o] == QUOTE then
      match ParseString(c, o)
      case Fail => Fail
      case Done(s, end) => Done(String(s), end)
    else if c[o] == 0x2D || IsDigit(c[o]) then ParseNumber(c, o)
    else if c[o] == LBRACKET then ParseArray(c, o, depth)
    else if c[o] == LBRACE then ParseObject(c, o, depth)
    else Fail
  }

  function Word(c: Bytes, o: nat, t: Bytes, v: Value): (r: Parsed<Value>)
    requires CString(c) && StartsWith(c, o, t) && |t| > 0 && NulFree(t)
    ensures r == Done(v, o + |t|) && o < r.end < |c|
  {
    assert c[o..o + |t|][|t| - 1] == t[|t| - 1];
    Done(v, o + |t|)
  }

  function ParseArray(c: Bytes, o: nat, depth: nat): (r: Parsed<Value>)
    requires CString(c) && o < |c| && c[o] == LBRACKET
    ensures r.Done? ==> o < r.end < |c|
    decreases |c| - o, 1
  {
    if depth >= NESTING_LIMIT then Fail
    else
      var first := Skip(c, o + 1);
      if c[first] == RBRACKET then Done(Array([]), first + 1)
      else
        match ParseItems(c, first, depth + 1)
        case Fail => Fail
        case Done(items, end) => Done(Array(items), end)
  }

  /** The elements from o on, up to and including the closing bracket. */
  function ParseItems(c: Bytes, o: nat, depth: nat): (r: Parsed<seq<Value>>)
    requires CString(c) && o < |c|
    ensures r.Done? ==> o < r.end < |c|
    decreases |c| - o, 3
  {
    match ParseValue(c, Skip(c, o), depth)
    case Fail => Fail
    case Done(v, end) =>
      var next := Skip(c, end);
      if c[next] == COMMA then
        match ParseItems(c, next + 1, depth)
        case Fail => Fail
        case Done(rest, stop) => Done([v] + rest, stop)
      else if c[next] == RBRACKET then Done([v], next + 1)
      else Fail
  }

  function ParseObject(c: Bytes, o: nat, depth: nat): (r: Parsed<Value>)
    requires CString(c) && o < |c| && c[o] == LBRACE
    ensures r.Done? ==> o < r.end < |c|
    decreases |c| - o, 1
  {
    if depth >= NESTING_LIMIT then Fail
    else
      var first := Skip(c, o + 1);
      if c[first] == RBRACE then Done(Object([]), first + 1)
      else
        match ParseMembers(c, first, depth + 1)
        case Fail => Fail
        case Done(members, end) => Done(Object(members), end)
  }

  function ParseMember(c: Bytes, o: nat, depth: nat): (r: Parsed<Member>)
    requires CString(c) && o < |c|
    ensures r.Done? ==> o < r.end < |c|
    decreases |c| - o, 3
  {
    match ParseString(c, Skip(c, o))
    case Fail => Fail
    case Done(key, end) =>
      var colon := Skip(c, end);
      if c[colon] != COLON then Fail
      else
        match ParseValue(c, Skip(c, colon + 1), depth)
        case Fail => Fail
        case Done(v, stop) => Done(Member(key, v), stop)
  }

  function ParseMembers(c: Bytes, o: nat, depth: nat): (r: Parsed<seq<Member>>)
    requires CString(c) && o < |c|
    ensures r.Done? ==> o < r.end < |c|
    decreases |c| - o, 4
  {
    match ParseMember(c, o, depth)
    case Fail => Fail
    case Done(m, end) =>
      var next := Skip(c, end);
      if c[next] == COMMA then
        match ParseMembers(c, next + 1, depth)
        case Fail => Fail
        case Done(rest, stop) => Done([m] + rest, stop)
      else if c[next] == RBRACE then Done([m], next + 1)
      else Fail
  }

  const BOM: Bytes := [0xEF, 0xBB, 0xBF]

  /** cJSON_ParseWithOpts on a C string: the value and where parsing stopped. */
  function Parse(c: Bytes, requireNul: bool): Parsed<Value>
    requires CString(c)
  {
    var start := if |c| > 4 && StartsWith(c, 0, BOM) then 3 else 0;
    match ParseValue(c, Skip(c, start), 0)
    case Fail => Fail
    case Done(v, end) =>
      if !requireNul then Done(v, end)
      else
        var stop := Skip(c, end);
        if c[stop] == NUL then Done(v, stop) else Fail
  }
}
