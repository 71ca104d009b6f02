/** JSON values and the text that json_parse/jsonlibC/cJSON.c prints for them. Numbers are the
    text sprintf makes of them; strings are the bytes before the terminating NUL. */
module JsonText {
  import opened Options
  import N = JsonNumbers

  type Bytes = seq<bv8>

  datatype Value =
    | Null
    | False
    | True
    | Number(text: Bytes)
    | String(str: Bytes)
    | Array(items: seq<Value>)
    | Object(members: seq<Member>)

  datatype Member = Member(key: Bytes, value: Value)

  const NUL: bv8 := 0
  const TAB: bv8 := 9
  const LF: bv8 := 10
  const SPACE: bv8 := 32
  const QUOTE: bv8 := 0x22
  const BACKSLASH: bv8 := 0x5C
  const COMMA: bv8 := 0x2C
  const COLON: bv8 := 0x3A
  const LBRACKET: bv8 := 0x5B
  const RBRACKET: bv8 := 0x5D
  const LBRACE: bv8 := 0x7B
  const RBRACE: bv8 := 0x7D
  const NULL_TEXT: Bytes := [0x6E, 0x75, 0x6C, 0x6C]
  const FALSE_TEXT: Bytes := [0x66, 0x61, 0x6C, 0x73, 0x65]
  const TRUE_TEXT: Bytes := [0x74, 0x72, 0x75, 0x65]

  const NESTING_LIMIT := 1000
  const MAX_NUMBER_TEXT := 25

  predicate NulFree(s: Bytes) {
    forall i :: 0 <= i < |s| ==> s[i] != NUL
  }

  // ---------- strings

  function HexChar(n: bv8): bv8 {
    if n < 10 then 0x30 + n else 0x61 + (n - 10)
  }

  /** sprintf "u%04x" for a byte below 32. */
  function HexEscape(c: bv8): Bytes {
    [0x75, 0x30, 0x30, HexChar(c >> 4), HexChar(c & 0xF)]
  }

  function ShortEscape(c: bv8): Option<bv8> {
    if c == BACKSLASH || c == QUOTE then Some(c)
    else if c == 8 then Some(0x62)
    else if c == 12 then Some(0x66)
    else if c == 10 then Some(0x6E)
    else if c == 13 then Some(0x72)
    else if c == 9 then Some(0x74)
    else None
  }

  function EscapeByte(c: bv8): (r: Bytes)
    ensures NulFree(r)
    ensures 1 <= |r| <= 6
  {
    if c > 31 && c != QUOTE && c != BACKSLASH then [c]
    else
      match ShortEscape(c)
      case Some(e) => [BACKSLASH, e]
      case None => [BACKSLASH] + HexEscape(c)
  }

  function Escape(s: Bytes): (r: Bytes)
    ensures NulFree(r)
  {
    if s == [] then [] else EscapeByte(s[0]) + Escape(s[1..])
  }

  function RenderString(s: Bytes): (r: Bytes)
    ensures NulFree(r) && |r| >= 2
  {
    [QUOTE] + Escape(s) + [QUOTE]
  }

  // ---------- values

  function Tabs(n: nat): (r: Bytes)
    ensures |r| == n && NulFree(r)
  {
    seq(n, _ => TAB)
  }

  /** What print_value writes at nesting depth depth. */
  function Render(v: Value, fmt: bool, depth: nat): Bytes
    decreases v, 1
  {
    match v
    case Null => NULL_TEXT
    case False => FALSE_TEXT
    case True => TRUE_TEXT
    case Number(text) => text
    case String(s) => RenderString(s)
    case Array(items) => [LBRACKET] + RenderItems(items, fmt, depth + 1) + [RBRACKET]
    case Object(members) =>
      [LBRACE] + (if fmt then [LF] else []) + RenderMembers(members, fmt, depth + 1)
      + (if fmt then Tabs(depth) else []) + [RBRACE]
  }

  function ItemSeparator(fmt: bool): Bytes {
    if fmt then [COMMA, SPACE] else [COMMA]
  }

  function RenderItems(items: seq<Value>, fmt: bool, depth: nat): Bytes
    decreases items, 0
  {
    if items == [] then []
    else
      Render(items[0], fmt, depth)
      + (if |items| > 1 then ItemSeparator(fmt) else [])
      + RenderItems(items[1..], fmt, depth)
  }

  function KeySeparator(fmt: bool): Bytes {
    if fmt then [COLON, TAB] else [COLON]
  }

  function MemberEnd(last: bool, fmt: bool): Bytes {
    (if last then [] else [COMMA]) + (if fmt then [LF] else [])
  }

  function RenderMembers(members: seq<Member>, fmt: bool, depth: nat): Bytes
    decreases members, 0
  {
    if members == [] then []
    else
      (if fmt then Tabs(depth) else [])
      + RenderString(members[0].key) + KeySeparator(fmt) + Render(members[0].value, fmt, depth)
      + MemberEnd(|members| == 1, fmt)
      + RenderMembers(members[1..], fmt, depth)
  }

  // ---------- well-formed trees

  predicate IsDigit(c: bv8) { 0x30 <= c <= 0x39 }

  predicate IsNumberChar(c: bv8) {
    IsDigit(c) || c == 0x2B || c == 0x2D || c == 0x65 || c == 0x45 || c == 0x2E
  }

  function DigitsFrom(s: Bytes, i: nat): (j: nat)
    requires i <= |s|
    ensures i <= j <= |s|
    decreases |s| - i
  {
    if i < |s| && IsDigit(s[i]) then DigitsFrom(s, i + 1) else i
  }

  /** How much of s strtod takes: sign, digits with at most one point, and a complete exponent if any. */
  function Strtod(s: Bytes): (n: nat)
    ensures n <= |s|
  {
    var a := if |s| > 0 && (s[0] == 0x2B || s[0] == 0x2D) then 1 else 0;
    var b := DigitsFrom(s, a);
    var c := if b < |s| && s[b] == 0x2E then DigitsFrom(s, b + 1) else b;
    var digits := if c > b then c - a - 1 else b - a;
    if digits == 0 then 0 else StrtodExponent(s, c)
  }

  function StrtodExponent(s: Bytes, c: nat): (n: nat)
    requires c <= |s|
    ensures c <= n <= |s|
  {
    if c < |s| && (s[c] == 0x65 || s[c] == 0x45) then
      var d := if c + 1 < |s| && (s[c + 1] == 0x2B || s[c + 1] == 0x2D) then c + 2 else c + 1;
      var e := DigitsFrom(s, d);
      if e > d then e else c
    else c
  }

  /** The text of a number as sprintf prints it. */
  ghost predicate NumberText(t: Bytes) {
    |t| <= MAX_NUMBER_TEXT && exists n: N.Numeral :: N.LegalNumeral(n) && N.Figures(n) == t
  }

  lemma NumberChars(n: N.Numeral)
    requires N.LegalNumeral(n)
    ensures var t := N.Figures(n);
            |t| > 0 && (t[0] == 0x2D || IsDigit(t[0])) && forall i :: 0 <= i < |t| ==> IsNumberChar(t[i])
  {
  }

  lemma NumberTextChars(t: Bytes)
    requires NumberText(t)
    ensures |t| > 0 && (t[0] == 0x2D || IsDigit(t[0])) && NulFree(t)
    ensures forall i :: 0 <= i < |t| ==> IsNumberChar(t[i])
  {
    var n: N.Numeral :| N.LegalNumeral(n) && N.Figures(n) == t;
    NumberChars(n);
  }

  ghost predicate WellFormed(v: Value)
    decreases v, 1
  {
    match v
    case Number(t) => NumberText(t)
    case String(s) => NulFree(s)
    case Array(items) => forall i :: 0 <= i < |items| ==> WellFormed(items[i])
    case Object(members) => forall i :: 0 <= i < |members| ==> NulFree(members[i].key) && WellFormed(members[i].value)
    case _ => true
  }

  function Max(a: nat, b: nat): nat { if a > b then a else b }

  function Depth(v: Value): nat
    decreases v, 1
  {
    match v
    case Array(items) => 1 + ItemsDepth(items)
    case Object(members) => 1 + MembersDepth(members)
    case _ => 0
  }

  function ItemsDepth(items: seq<Value>): nat
    decreases items, 0
  {
    if items == [] then 0 else Max(Depth(items[0]), ItemsDepth(items[1..]))
  }

  function MembersDepth(members: seq<Member>): nat
    decreases members, 0
  {
    if members == [] then 0 else Max(Depth(members[0].value), MembersDepth(members[1..]))
  }

  /** Printed text holds no NUL, so strlen measures it. */
  lemma {:induction false} RenderNulFree(v: Value, fmt: bool, depth: nat)
    requires WellFormed(v)
    ensures NulFree(Render(v, fmt, depth)) && |Render(v, fmt, depth)| > 0
    decreases v, 1
  {
    match v
    case Number(t) => NumberTextChars(t);
    case Array(items) => ItemsNulFree(items, fmt, depth + 1);
    case Object(members) => MembersNulFree(members, fmt, depth + 1);
    case _ =>
  }

  lemma {:induction false} ItemsNulFree(items: seq<Value>, fmt: bool, depth: nat)
    requires forall i :: 0 <= i < |items| ==> WellFormed(items[i])
    ensures NulFree(RenderItems(items, fmt, depth))
    decreases items, 0
  {
    if items != [] {
      RenderNulFree(items[0], fmt, depth);
      ItemsNulFree(items[1..], fmt, depth);
    }
  }

  lemma {:induction false} MembersNulFree(members: seq<Member>, fmt: bool, depth: nat)
    requires forall i :: 0 <= i < |members| ==> NulFree(members[i].key) && WellFormed(members[i].value)
    ensures NulFree(RenderMembers(members, fmt, depth))
    decreases members, 0
  {
    if members != [] {
      RenderNulFree(members[0].value, fmt, depth);
      MembersNulFree(members[1..], fmt, depth);
      MemberNulFree(members, fmt, depth);
    }
  }

  lemma MemberNulFree(members: seq<Member>, fmt: bool, depth: nat)
    requires members != [] && NulFree(members[0].key) && NulFree(Render(members[0].value, fmt, depth))
    requires NulFree(RenderMembers(members[1..], fmt, depth))
    ensures NulFree(RenderMembers(members, fmt, depth))
  {
  }
}
