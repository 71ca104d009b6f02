/** What the string parser of json_parse/jsonlibC/cJSON.c makes of any literal that section 7 of RFC 8259
    allows, however its characters are written: plain, with a short escape, or as \u escapes. */
module JsonLiterals {
  import opened Options
  import opened JsonText
  import opened JsonParse
  import opened JsonSlices
  import Utf8

  // ---------- hexadecimal digits

  function LowerDigit(d: bv32): bv8
    requires d < 16
  {
    if d < 10 then 0x30 + d as bv8 else 0x61 + (d - 10) as bv8
  }

  function UpperDigit(d: bv32): bv8
    requires d < 16
  {
    if d < 10 then 0x30 + d as bv8 else 0x41 + (d - 10) as bv8
  }

  /** b is the digit d, in either case. */
  predicate Spells(b: bv8, d: bv32) {
    d < 16 && (b == LowerDigit(d) || b == UpperDigit(d))
  }

  function Digit(u: bv32, n: bv6): (d: bv32)
    requires n <= 12
    ensures d < 16
  {
    (u >> n) & 0xF
  }

  /** Four digits that write a UTF-16 code unit. */
  predicate Writes(t: Bytes, u: bv32) {
    && |t| == 4 && u < 0x1_0000
    && Spells(t[0], Digit(u, 12)) && Spells(t[1], Digit(u, 8)) && Spells(t[2], Digit(u, 4)) && Spells(t[3], Digit(u, 0))
  }

  lemma SpellsValue(b: bv8, d: bv32)
    requires Spells(b, d)
    ensures HexValue(b) == Some(d)
  {
  }

  lemma DigitsValue(u: bv32)
    requires u < 0x1_0000
    ensures AddDigit(AddDigit(AddDigit(AddDigit(0, Digit(u, 12)), Digit(u, 8)), Digit(u, 4)), Digit(u, 0)) == u
  {
  }

  lemma WritesValue(c: Bytes, i: nat, t: Bytes, u: bv32)
    requires Writes(t, u) && StartsWith(c, i, t)
    ensures Hex4(c, i) == u
  {
    assert t == c[i..i + 4];
    assert c[i] == t[0] && c[i + 1] == t[1] && c[i + 2] == t[2] && c[i + 3] == t[3];
    SpellsValue(t[0], Digit(u, 12));
    SpellsValue(t[1], Digit(u, 8));
    SpellsValue(t[2], Digit(u, 4));
    SpellsValue(t[3], Digit(u, 0));
    DigitsValue(u);
    hide HexValue, AddDigit, Digit, Spells;
  }

  // ---------- one character of a literal

  const ESCAPE_U: Bytes := [BACKSLASH, 0x75]

  /** A byte as it is, a short escape, or a code point as one \u escape or a pair of them. */
  datatype Piece = Plain(b: bv8) | Short(e: bv8) | CodePoint(cp: bv32, digits: Bytes, more: Bytes)

  function HighOf(cp: bv32): bv32 { 0xD800 + ((cp - 0x1_0000) >> 10) }

  function LowOf(cp: bv32): bv32 { 0xDC00 + ((cp - 0x1_0000) & 0x3FF) }

  predicate Valid(p: Piece) {
    match p
    case Plain(b) => b != QUOTE && b != BACKSLASH && b != NUL
    case Short(e) => Unshort(e).Some?
    case CodePoint(cp, digits, more) =>
      && cp < 0x11_0000 && !HighSurrogate(cp) && !LowSurrogate(cp)
      && if cp < 0x1_0000 then Writes(digits, cp) && more == []
         else Writes(digits, HighOf(cp)) && Writes(more, LowOf(cp))
  }

  function Text(p: Piece): Bytes {
    match p
    case Plain(b) => [b]
    case Short(e) => [BACKSLASH, e]
    case CodePoint(cp, digits, more) => ESCAPE_U + digits + if cp < 0x1_0000 then [] else ESCAPE_U + more
  }

  /** The letters behind a backslash that stand for a byte, and those bytes: quote, backslash, slash,
      backspace, form feed, line feed, carriage return and tab. */
  lemma ShortEscapes(e: bv8)
    ensures Unshort(0x22) == Some(0x22) && Unshort(0x5C) == Some(0x5C) && Unshort(0x2F) == Some(0x2F)
    ensures Unshort(0x62) == Some(8) && Unshort(0x66) == Some(12) && Unshort(0x6E) == Some(10)
    ensures Unshort(0x72) == Some(13) && Unshort(0x74) == Some(9)
    ensures Unshort(e).Some? <==> e in [0x22, 0x5C, 0x2F, 0x62, 0x66, 0x6E, 0x72, 0x74]
  {
  }

  /** The bytes the character is to become; a code point its UTF-8 form (section 3 of RFC 3629). */
  function Meaning(p: Piece): Bytes
    requires Valid(p)
  {
    match p
    case Plain(b) => [b]
    case Short(e) => [Unshort(e).value]
    case CodePoint(cp, _, _) => Utf8.Encode(cp)
  }

  /** One escape of a code unit and what follows it. */
  lemma UnitRead(c: Bytes, i: nat, digits: Bytes, u: bv32, rest: Bytes)
    requires Writes(digits, u) && StartsWith(c, i, ESCAPE_U + digits + rest)
    ensures i + 6 <= |c| && c[i] == BACKSLASH && c[i + 1] == 0x75 && Hex4(c, i + 2) == u
    ensures StartsWith(c, i + 6, rest) && FindQuote(c, i) == FindQuote(c, i + 6)
  {
    hide Hex4, FindQuote, Spells, Digit;
    assert ESCAPE_U + digits + rest == ESCAPE_U + (digits + rest);
    Split(c, i, ESCAPE_U, digits + rest);
    Split(c, i + 2, digits, rest);
    ByteAt(c, i, ESCAPE_U, 0);
    ByteAt(c, i, ESCAPE_U, 1);
    WritesValue(c, i + 2, digits, u);
    PastEscape(c, i);
    DigitsAreNoQuotes(digits, u);
    QuoteBehind(c, i + 2, digits);
  }

  lemma PastEscape(c: Bytes, i: nat)
    requires i + 1 < |c| && c[i] == BACKSLASH
    ensures FindQuote(c, i) == FindQuote(c, i + 2)
  {
  }

  lemma DigitIsNoQuote(b: bv8, d: bv32)
    requires Spells(b, d)
    ensures b != QUOTE && b != BACKSLASH
  {
  }

  lemma DigitsAreNoQuotes(t: Bytes, u: bv32)
    requires Writes(t, u)
    ensures forall k :: 0 <= k < |t| ==> t[k] != QUOTE && t[k] != BACKSLASH
  {
    DigitIsNoQuote(t[0], Digit(u, 12));
    DigitIsNoQuote(t[1], Digit(u, 8));
    DigitIsNoQuote(t[2], Digit(u, 4));
    DigitIsNoQuote(t[3], Digit(u, 0));
    hide Spells, Digit;
  }

  /** Bytes that are neither quote nor backslash do not end a literal. */
  lemma {:induction false} QuoteBehind(c: Bytes, i: nat, t: Bytes)
    requires StartsWith(c, i, t) && forall k :: 0 <= k < |t| ==> t[k] != QUOTE && t[k] != BACKSLASH
    ensures FindQuote(c, i) == FindQuote(c, i + |t|)
    decreases |t|
  {
    if t != [] {
      ByteAt(c, i, t, 0);
      assert t == [t[0]] + t[1..];
      Split(c, i, [t[0]], t[1..]);
      QuoteBehind(c, i + 1, t[1..]);
    }
  }

  lemma SurrogatesBack(cp: bv32)
    requires 0x1_0000 <= cp < 0x11_0000
    ensures var hi, lo := 0xD800 + ((cp - 0x1_0000) >> 10), 0xDC00 + ((cp - 0x1_0000) & 0x3FF);
            HighSurrogate(hi) && LowSurrogate(lo) && FromSurrogates(hi, lo) == cp && !LowSurrogate(hi)
  {
  }

  /** The two code units of a code point from 0x10000 on. */
  lemma Pair(cp: bv32)
    requires 0x1_0000 <= cp < 0x11_0000
    ensures HighSurrogate(HighOf(cp)) && !LowSurrogate(HighOf(cp)) && LowSurrogate(LowOf(cp))
    ensures FromSurrogates(HighOf(cp), LowOf(cp)) == cp
  {
    SurrogatesBack(cp);
  }

  /** Every code point outside the surrogate range, written as one \u escape or as a pair of them with
      digits in either case, is read as that code point, up to the very end of the literal. */
  lemma CodePointRead(c: Bytes, i: nat, p: Piece, end: nat)
    requires p.CodePoint? && Valid(p) && StartsWith(c, i, Text(p)) && i + |Text(p)| <= end <= |c|
    ensures Literal16(c, i, end) == Done(p.cp, i + |Text(p)|) && c[i] == BACKSLASH && c[i + 1] == 0x75
    ensures FindQuote(c, i) == FindQuote(c, i + |Text(p)|)
  {
    hide Hex4, FromSurrogates, HighOf, LowOf, Spells, Digit, FindQuote;
    if p.cp < 0x1_0000 {
      UnitRead(c, i, p.digits, p.cp, []);
    } else {
      Pair(p.cp);
      hide HighSurrogate, LowSurrogate;
      UnitRead(c, i, p.digits, HighOf(p.cp), ESCAPE_U + p.more);
      assert ESCAPE_U + p.more + [] == ESCAPE_U + p.more;
      UnitRead(c, i + 6, p.more, LowOf(p.cp), []);
    }
  }

  lemma PlainRead(c: Bytes, i: nat, b: bv8, end: nat)
    requires b != QUOTE && b != BACKSLASH && StartsWith(c, i, [b]) && i + 1 <= end < |c|
    ensures Unescape(c, i, end) == Prefixed([b], Unescape(c, i + 1, end)) && FindQuote(c, i) == FindQuote(c, i + 1)
  {
    ByteAt(c, i, [b], 0);
    hide Literal16, Unshort;
  }

  lemma ShortRead(c: Bytes, i: nat, e: bv8, end: nat)
    requires Unshort(e).Some? && StartsWith(c, i, [BACKSLASH, e]) && i + 2 <= end < |c|
    ensures Unescape(c, i, end) == Prefixed([Unshort(e).value], Unescape(c, i + 2, end))
    ensures FindQuote(c, i) == FindQuote(c, i + 2)
  {
    ByteAt(c, i, [BACKSLASH, e], 0);
    ByteAt(c, i, [BACKSLASH, e], 1);
    hide Literal16;
  }

  lemma EscapeUnread(c: Bytes, i: nat, end: nat)
    requires i + 2 <= end < |c| && c[i] == BACKSLASH && c[i + 1] == 0x75 && Literal16(c, i, end).Done?
    ensures var l := Literal16(c, i, end);
            Unescape(c, i, end) == Prefixed(Utf8.Encode(l.value), Unescape(c, l.end, end))
  {
    hide Literal16, Utf8.Encode, Unshort;
  }

  /** The bytes gained by a character are those it is to become. */
  lemma PieceBack(c: Bytes, i: nat, p: Piece, end: nat)
    requires Valid(p) && StartsWith(c, i, Text(p)) && i + |Text(p)| <= end < |c|
    ensures Unescape(c, i, end) == Prefixed(Meaning(p), Unescape(c, i + |Text(p)|, end))
    ensures FindQuote(c, i) == FindQuote(c, i + |Text(p)|)
  {
    hide Literal16, Writes, FindQuote, Unescape, Utf8.Encode, Unshort, HighOf, LowOf, HighSurrogate, LowSurrogate;
    match p
    case Plain(b) => PlainRead(c, i, b, end);
    case Short(e) => ShortRead(c, i, e, end);
    case CodePoint(_, _, _) =>
      CodePointRead(c, i, p, end);
      EscapeUnread(c, i, end);
  }

  // ---------- literals

  function Texts(ps: seq<Piece>): Bytes {
    if ps == [] then [] else Text(ps[0]) + Texts(ps[1..])
  }

  predicate AllValid(ps: seq<Piece>) {
    forall i :: 0 <= i < |ps| ==> Valid(ps[i])
  }

  function Meanings(ps: seq<Piece>): Bytes
    requires AllValid(ps)
  {
    if ps == [] then [] else Meaning(ps[0]) + Meanings(ps[1..])
  }

  lemma AtQuote(c: Bytes, i: nat)
    requires StartsWith(c, i, [] + [QUOTE])
    ensures FindQuote(c, i) == Some(i) && Unescape(c, i, i) == Some([])
  {
    ByteAt(c, i, [QUOTE], 0);
  }

  lemma {:induction false} PiecesBack(c: Bytes, i: nat, ps: seq<Piece>)
    requires AllValid(ps) && StartsWith(c, i, Texts(ps) + [QUOTE])
    ensures FindQuote(c, i) == Some(i + |Texts(ps)|)
    ensures Unescape(c, i, i + |Texts(ps)|) == Some(Meanings(ps))
    decreases |ps|
  {
    hide FindQuote, Unescape, Valid, Text, Meaning, StartsWith;
    if ps == [] {
      AtQuote(c, i);
      assert [] + [QUOTE] == [QUOTE];
    } else {
      var t, rest := Text(ps[0]), Texts(ps[1..]);
      var end := i + |Texts(ps)|;
      assert Texts(ps) + [QUOTE] == t + (rest + [QUOTE]);
      Split(c, i, Texts(ps), [QUOTE]);
      ByteAt(c, end, [QUOTE], 0);
      Room(c, end, [QUOTE]);
      Split(c, i, t, rest + [QUOTE]);
      PiecesBack(c, i + |t|, ps[1..]);
      PieceBack(c, i, ps[0], end);
    }
  }

  lemma Room(c: Bytes, o: nat, t: Bytes)
    requires StartsWith(c, o, t)
    ensures o + |t| <= |c|
  {
  }

  /** A literal of any such characters is read as all they stand for, up to a zero byte if one of them is
      the code point 0. */
  lemma LiteralBack(c: Bytes, o: nat, ps: seq<Piece>)
    requires CString(c) && AllValid(ps) && StartsWith(c, o, [QUOTE] + (Texts(ps) + [QUOTE]))
    ensures ParseString(c, o) == Done(CStr(Meanings(ps)), o + |Texts(ps)| + 2)
  {
    hide FindQuote, Unescape, Valid, Text, Meaning;
    Here(c, o, QUOTE, Texts(ps) + [QUOTE]);
    PiecesBack(c, o + 1, ps);
  }

  /** Half a pair is refused: a low surrogate first, or a high one without a low one behind it. */
  lemma HalfPairRefused(c: Bytes, i: nat, end: nat, digits: Bytes, u: bv32)
    requires i + 6 <= end <= |c| && StartsWith(c, i, ESCAPE_U + digits) && Writes(digits, u)
    requires LowSurrogate(u) || (HighSurrogate(u) && (end < i + 12 || c[i + 6] != BACKSLASH || c[i + 7] != 0x75
                                                      || !LowSurrogate(Hex4(c, i + 8))))
    ensures Literal16(c, i, end) == Fail
  {
    hide Hex4, Spells, Digit;
    assert ESCAPE_U + digits + [] == ESCAPE_U + digits;
    UnitRead(c, i, digits, u, []);
  }

  /** Not refused is an escape with something else among its digits: it is read as code point 0. */
  lemma BadDigits(c: Bytes, i: nat, end: nat, k: nat)
    requires i + 6 <= end <= |c| && 2 <= k < 6 && HexValue(c[i + k]).None?
    ensures Literal16(c, i, end) == Done(0, i + 6)
  {
    hide HexValue, AddDigit;
  }

  /** For example e with an acute accent, alone in its literal. */
  lemma AcuteE(c: Bytes)
    requires c == [0x22, 0x5C, 0x75, 0x30, 0x30, 0x65, 0x39, 0x22, 0]
    ensures ParseString(c, 0) == Done([0xC3, 0xA9], 8)
  {
    var digits: Bytes := [0x30, 0x30, 0x65, 0x39];
    var p := CodePoint(0xE9, digits, []);
    var t: Bytes := [BACKSLASH, 0x75, 0x30, 0x30, 0x65, 0x39];
    SpelledAcute();
    OnePiece(p);
    hide Valid, Meaning, Text, Texts, Meanings, AllValid, ParseString;
    assert c[0..8] == [QUOTE] + (t + [QUOTE]);
    assert NulFree([0xC3, 0xA9]);
    LiteralBack(c, 0, [p]);
  }

  lemma SpelledAcute()
    ensures var p := CodePoint(0xE9, [0x30, 0x30, 0x65, 0x39], []);
            && Valid(p) && Meaning(p) == [0xC3, 0xA9]
            && Text(p) == [BACKSLASH, 0x75, 0x30, 0x30, 0x65, 0x39]
  {
    assert Digit(0xE9, 12) == 0 && Digit(0xE9, 8) == 0 && Digit(0xE9, 4) == 14 && Digit(0xE9, 0) == 9;
  }

  lemma OnePiece(p: Piece)
    requires Valid(p)
    ensures AllValid([p]) && Texts([p]) == Text(p) && Meanings([p]) == Meaning(p)
  {
    hide Valid, Text, Meaning;
    assert Texts([]) == [] && Meanings([]) == [];
  }
}
