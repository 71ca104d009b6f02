/** What the parser of json_parse/jsonlibC/cJSON.c makes of any text that RFC 8259 allows. */
module JsonReading {
  import opened Options
  import opened JsonText
  import opened JsonParse
  import opened JsonSlices
  import opened JsonLiterals
  import opened JsonNumbers
  import G = JsonGrammar

  // ---------- numbers

  lemma {:induction false} DigitsRun(s: Bytes, i: nat, t: Bytes)
    requires StartsWith(s, i, t) && Digits(t) && (i + |t| == |s| || !IsDigit(s[i + |t|]))
    ensures DigitsFrom(s, i) == i + |t|
    decreases |t|
  {
    if t != [] {
      ByteAt(s, i, t, 0);
      assert t == [t[0]] + t[1..];
      Split(s, i, [t[0]], t[1..]);
      DigitsRun(s, i + 1, t[1..]);
    }
  }

  /** What follows the digits of a numeral does not begin with one. */
  function AfterWhole(n: Numeral): Bytes { FractionText(n.fraction) + ExponentText(n.exponent) }

  function Sign(n: Numeral): Bytes { if n.minus then [0x2D] else [] }

  lemma FiguresLayout(n: Numeral)
    ensures Figures(n) == Sign(n) + (n.whole + AfterWhole(n))
  {
  }

  lemma SignTaken(n: Numeral)
    requires LegalNumeral(n)
    ensures var s, a := Figures(n), |Sign(n)|;
            && |s| > 0 && a == (if s[0] == 0x2B || s[0] == 0x2D then 1 else 0)
            && StartsWith(s, a, n.whole) && StartsWith(s, a + |n.whole|, AfterWhole(n))
            && a + |n.whole| + |AfterWhole(n)| == |s|
  {
    hide Figures, AfterWhole, StartsWith, Digits, FractionText, ExponentText;
    var s, rest := Figures(n), n.whole + AfterWhole(n);
    FiguresLayout(n);
    AtStart(s);
    Split(s, 0, Sign(n), rest);
    Split(s, |Sign(n)|, n.whole, AfterWhole(n));
    FirstDigit(n.whole);
    ByteAt(s, |Sign(n)|, n.whole, 0);
    if n.minus {
      ByteAt(s, 0, Sign(n), 0);
    }
  }

  lemma AtStart(s: Bytes)
    ensures StartsWith(s, 0, s)
  {
    assert s[0..|s|] == s;
  }

  lemma FirstDigit(t: Bytes)
    requires t != [] && Digits(t)
    ensures t[0] != 0x2B && t[0] != 0x2D
  {
  }

  lemma ExponentTaken(s: Bytes, c: nat, e: Option<Exponent>)
    requires StartsWith(s, c, ExponentText(e)) && c + |ExponentText(e)| == |s|
    requires e.Some? ==> LegalExponent(e.value)
    ensures StrtodExponent(s, c) == |s|
    ensures c == |s| || (s[c] != 0x2E && !IsDigit(s[c]))
  {
    if e.Some? {
      ExponentPlaces(s, c, e.value);
      hide StartsWith, LegalExponent;
    }
  }

  lemma ExponentPlaces(s: Bytes, c: nat, x: Exponent)
    requires LegalExponent(x) && StartsWith(s, c, ExponentText(Some(x))) && c + |ExponentText(Some(x))| == |s|
    ensures var d := c + 1 + |x.sign|;
            && d < |s| && s[c] == x.letter && DigitsFrom(s, d) == |s|
            && d == if s[c + 1] == 0x2B || s[c + 1] == 0x2D then c + 2 else c + 1
  {
    hide StartsWith, DigitsFrom, ExponentText;
    var d := c + 1 + |x.sign|;
    ExponentParts(s, c, x);
    ByteAt(s, d, x.digits, 0);
    DigitsRun(s, d, x.digits);
    if x.sign != [] {
      ByteAt(s, c + 1, x.sign, 0);
    }
  }

  lemma ExponentParts(s: Bytes, c: nat, x: Exponent)
    requires StartsWith(s, c, ExponentText(Some(x)))
    ensures c < |s| && s[c] == x.letter && StartsWith(s, c + 1, x.sign) && StartsWith(s, c + 1 + |x.sign|, x.digits)
    ensures |ExponentText(Some(x))| == 1 + |x.sign| + |x.digits|
  {
    assert ExponentText(Some(x)) == [x.letter] + (x.sign + x.digits);
    hide StartsWith;
    Here(s, c, x.letter, x.sign + x.digits);
    Split(s, c + 1, x.sign, x.digits);
  }

  lemma FractionTaken(s: Bytes, b: nat, f: Option<Bytes>, e: Option<Exponent>)
    requires StartsWith(s, b, FractionText(f) + ExponentText(e))
    requires b + |FractionText(f)| + |ExponentText(e)| == |s|
    requires f.Some? ==> f.value != [] && Digits(f.value)
    requires e.Some? ==> LegalExponent(e.value)
    ensures var c := b + |FractionText(f)|;
            && c == (if b < |s| && s[b] == 0x2E then DigitsFrom(s, b + 1) else b)
            && (c > b ==> c > b + 1) && StrtodExponent(s, c) == |s|
    ensures b == |s| || !IsDigit(s[b])
  {
    var c := b + |FractionText(f)|;
    Split(s, b, FractionText(f), ExponentText(e));
    ExponentTaken(s, c, e);
    hide ExponentText, StrtodExponent, LegalExponent;
    if f.Some? {
      Split(s, b, [0x2E], f.value);
      ByteAt(s, b, [0x2E], 0);
      DigitsRun(s, b + 1, f.value);
    }
  }

  /** strtod takes every number of the grammar whole. */
  lemma StrtodWhole(n: Numeral)
    requires LegalNumeral(n)
    ensures Strtod(Figures(n)) == |Figures(n)|
  {
    hide StrtodExponent, Figures, FractionText, ExponentText, LegalExponent, StartsWith, DigitsFrom;
    SignTaken(n);
    var s, b := Figures(n), |Sign(n)| + |n.whole|;
    FractionTaken(s, b, n.fraction, n.exponent);
    DigitsRun(s, |Sign(n)|, n.whole);
  }

  lemma {:induction false} NumberEndLong(c: Bytes, o: nat, t: Bytes, limit: nat)
    requires StartsWith(c, o, t) && (forall i :: 0 <= i < |t| ==> IsNumberChar(t[i])) && limit <= |t|
    ensures NumberEnd(c, o, limit) == o + limit
    decreases limit
  {
    if limit > 0 {
      ByteAt(c, o, t, 0);
      assert t == [t[0]] + t[1..];
      Split(c, o, [t[0]], t[1..]);
      NumberEndLong(c, o + 1, t[1..], limit - 1);
    }
  }

  /** Whatever is left of a number, some of it is taken. */
  lemma PartTaken(n: Numeral, run: Bytes)
    requires LegalNumeral(n) && run <= Figures(n) && |run| >= 2
    ensures Strtod(run) > 0
  {
    SignTaken(n);
    ByteAt(Figures(n), |Sign(n)|, n.whole, 0);
    hide LegalNumeral, Figures, StartsWith, StrtodExponent;
    var a := |Sign(n)|;
    assert IsDigit(run[a]);
    assert DigitsFrom(run, a) >= a + 1;
  }

  lemma ShortRead(c: Bytes, o: nat, t: Bytes)
    requires CString(c) && StartsWith(c, o, t) && |t| <= 63 && Strtod(t) == |t| > 0
    requires forall i :: 0 <= i < |t| ==> IsNumberChar(t[i])
    requires o + |t| < |c| && !IsNumberChar(c[o + |t|])
    ensures o < |c| && ParseNumber(c, o) == Done(Number(t), o + |t|)
  {
    hide Strtod, IsNumberChar;
    NumberEndBack(c, o, t, NUMBER_BUFFER - 1);
    assert c[o..o + |t|] == t && t[..|t|] == t;
  }

  lemma LongRead(c: Bytes, o: nat, t: Bytes)
    requires CString(c) && StartsWith(c, o, t) && |t| > 63 && Strtod(t[..63]) > 0
    requires forall i :: 0 <= i < |t| ==> IsNumberChar(t[i])
    ensures o < |c| && var r := ParseNumber(c, o); r.Done? && r.end < o + |t| && IsNumberChar(c[r.end])
  {
    hide Strtod, IsNumberChar;
    NumberEndLong(c, o, t, NUMBER_BUFFER - 1);
    assert c[o..o + 63] == t[..63];
    ByteAt(c, o, t, Strtod(t[..63]));
  }

  /** A number of up to 63 characters is read whole; of a longer one only a part is. */
  lemma NumberRead(c: Bytes, o: nat, n: Numeral)
    requires CString(c) && LegalNumeral(n) && StartsWith(c, o, Figures(n))
    requires var end := o + |Figures(n)|; end < |c| && !IsNumberChar(c[end])
    ensures o < |c|
    ensures var r, end := ParseNumber(c, o), o + |Figures(n)|;
            if |Figures(n)| <= 63 then r == Done(Number(Figures(n)), end)
            else r.Done? && r.end < end && IsNumberChar(c[r.end])
  {
    var t := Figures(n);
    NumberChars(n);
    hide LegalNumeral, Figures, Strtod, IsNumberChar, ParseNumber, StartsWith;
    if |t| <= 63 {
      StrtodWhole(n);
      ShortRead(c, o, t);
    } else {
      PartTaken(n, t[..63]);
      LongRead(c, o, t);
    }
  }

  // ---------- values

  /** The first byte of a value says what it is. */
  lemma FirstByte(doc: G.Doc)
    requires G.Legal(doc)
    ensures var t := G.Spelled(doc);
            && |t| > 0 && t[0] > 32 && t[0] != RBRACKET && t[0] != RBRACE && t[0] != 0xEF
            && (doc.Number? <==> t[0] == 0x2D || IsDigit(t[0]))
            && (doc.Null? ==> t[0] == 0x6E) && (doc.False? ==> t[0] == 0x66) && (doc.True? ==> t[0] == 0x74)
            && (doc.String? ==> t[0] == QUOTE) && (doc.Array? ==> t[0] == LBRACKET) && (doc.Object? ==> t[0] == LBRACE)
            && (doc.Empty? ==> t[0] == if doc.braces then LBRACE else LBRACKET)
  {
    match doc
    case Number(n) => NumberChars(n);
    case _ =>
  }

  /** Not taken for a whole value: refused, or left in the middle of a number. */
  ghost predicate Refused(c: Bytes, r: Parsed<Value>) {
    r.Done? ==> r.end < |c| && IsNumberChar(c[r.end])
  }

  ghost predicate Taken(c: Bytes, r: Parsed<Value>, ok: bool, v: Value, end: nat) {
    if ok then r == Done(v, end) else Refused(c, r)
  }

  ghost predicate Fits(doc: G.Doc, d: nat)
    requires G.Legal(doc)
  {
    G.ShortNumbers(doc) && d + Depth(G.Meant(doc)) <= NESTING_LIMIT
  }

  /** Any text of the grammar, followed by anything that is not part of a number, is read as the tree it
      stands for exactly if it is not nested too deeply and all its numbers are short enough. */
  lemma {:induction false} DocRead(c: Bytes, o: nat, doc: G.Doc, d: nat)
    requires CString(c) && G.Legal(doc) && StartsWith(c, o, G.Spelled(doc)) && d <= NESTING_LIMIT
    requires var end := o + |G.Spelled(doc)|; end < |c| && !IsNumberChar(c[end])
    ensures o < |c| && Taken(c, ParseValue(c, o, d), Fits(doc, d), G.Meant(doc), o + |G.Spelled(doc)|)
    ensures var r := ParseValue(c, o, d);
            !Fits(doc, d) ==> if doc.Number? then r.Done? && r.end < o + |G.Spelled(doc)| else r == Fail
    decreases doc, 3
  {
    hide ParseArray, ParseObject, ParseString, ParseNumber, Skip, Figures, LegalNumeral, IsNumberChar;
    hide G.ElementsText, G.PairsText, G.MeantAll, G.MeantPairs, CStr, Meanings, Texts;
    FirstByte(doc);
    var t := G.Spelled(doc);
    ByteAt(c, o, t, 0);
    match doc
    case Null =>
    case False =>
      NotWord(c, o, NULL_TEXT);
    case True =>
      NotWord(c, o, NULL_TEXT);
      NotWord(c, o, FALSE_TEXT);
    case Number(n) =>
      NotWords(c, o);
      NumberRead(c, o, n);
    case String(ps) =>
      NotWords(c, o);
      LiteralBack(c, o, ps);
    case Empty(braces, blanks) =>
      NotWords(c, o);
      EmptyRead(c, o, braces, blanks, d);
    case Array(es) =>
      NotWords(c, o);
      ArrayRead(c, o, es, d);
    case Object(ps) =>
      NotWords(c, o);
      ObjectRead(c, o, ps, d);
  }

  lemma EmptyRead(c: Bytes, o: nat, braces: bool, blanks: Bytes, d: nat)
    requires CString(c) && o < |c| && G.Blanks(blanks) && d <= NESTING_LIMIT
    requires StartsWith(c, o, G.Spelled(G.Empty(braces, blanks)))
    ensures !braces ==> c[o] == LBRACKET
                        && ParseArray(c, o, d) == Outcome(d + 1 <= NESTING_LIMIT, Array([]), o + |blanks| + 2)
    ensures braces ==> c[o] == LBRACE
                       && ParseObject(c, o, d) == Outcome(d + 1 <= NESTING_LIMIT, Object([]), o + |blanks| + 2)
  {
    hide Skip;
    var last := if braces then RBRACE else RBRACKET;
    Here(c, o, if braces then LBRACE else LBRACKET, blanks + [last]);
    Passed(c, o + 1, blanks, [last]);
    ByteAt(c, o + 1 + |blanks|, [last], 0);
  }

  /** Blanks are passed over up to a byte that is none. */
  lemma Passed(c: Bytes, o: nat, blanks: Bytes, t: Bytes)
    requires G.Blanks(blanks) && StartsWith(c, o, blanks + t) && |t| > 0 && t[0] > 32
    ensures o < |c| && Skip(c, o) == o + |blanks| < |c| && c[o + |blanks|] == t[0]
    ensures Skip(c, o + |blanks|) == o + |blanks| && StartsWith(c, o + |blanks|, t)
  {
    Split(c, o, blanks, t);
    ByteAt(c, o + |blanks|, t, 0);
    SkipBlank(c, o, blanks);
    SkipNothing(c, o + |blanks|);
  }

  // ---------- arrays

  lemma {:induction false} ArrayRead(c: Bytes, o: nat, es: seq<G.Element>, d: nat)
    requires CString(c) && es != [] && G.LegalElements(es) && StartsWith(c, o, [LBRACKET] + G.ElementsText(es))
    requires o < |c| && c[o] == LBRACKET && d <= NESTING_LIMIT
    ensures ParseArray(c, o, d)
         == Outcome(Fits(G.Array(es), d), Array(G.MeantAll(es)), o + 1 + |G.ElementsText(es)|)
    decreases es, 2
  {
    hide Skip, ParseItems, G.Spelled, G.ElementsText, G.MeantAll, StartsWith, Fits, FitAll, G.LegalElements, Behind;
    ArrayFits(es, d);
    Here(c, o, LBRACKET, G.ElementsText(es));
    if d < NESTING_LIMIT {
      FirstElement(c, o + 1, es);
      ElementsRead(c, o + 1 + |es[0].before|, o + 1, es, d + 1);
    }
  }

  lemma ArrayFits(es: seq<G.Element>, d: nat)
    requires es != [] && G.LegalElements(es) && d <= NESTING_LIMIT
    ensures Fits(G.Array(es), d) <==> d < NESTING_LIMIT && FitAll(es, d + 1)
  {
    hide G.MeantAll, G.ShortElements, ItemsDepth, G.LegalElements;
  }

  /** What follows an element: its blanks, then a comma and the rest or the bracket. */
  function Behind(es: seq<G.Element>): Bytes
    requires es != []
  {
    (if |es| > 1 then [COMMA] else []) + G.ElementsText(es[1..])
  }

  lemma BehindIs(es: seq<G.Element>)
    requires es != []
    ensures |Behind(es)| > 0 && !IsNumberChar(Behind(es)[0])
    ensures Behind(es)[0] == if |es| > 1 then COMMA else RBRACKET
    ensures Behind(es) == if |es| == 1 then [RBRACKET] else [COMMA] + G.ElementsText(es[1..])
    ensures |Behind(es)| == 1 + if |es| == 1 then 0 else |G.ElementsText(es[1..])|
    ensures G.ElementsText(es) == es[0].before + (G.Spelled(es[0].doc) + (es[0].after + Behind(es)))
    ensures |G.ElementsText(es)| == |es[0].before| + |G.Spelled(es[0].doc)| + |es[0].after| + |Behind(es)|
  {
    hide G.Spelled;
  }

  lemma FirstElement(c: Bytes, o: nat, es: seq<G.Element>)
    requires es != [] && G.LegalElements(es) && StartsWith(c, o, G.ElementsText(es))
    ensures var q, t := o + |es[0].before|, G.Spelled(es[0].doc);
            && |t| > 0 && o < |c| && q < |c| && Skip(c, o) == q && Skip(c, q) == q
            && c[q] == t[0] && t[0] != RBRACKET
            && StartsWith(c, q, t) && StartsWith(c, q + |t|, es[0].after + Behind(es))
  {
    hide Skip, StartsWith, G.Spelled, Behind, G.ElementsText, G.Legal;
    BehindIs(es);
    FirstByte(es[0].doc);
    var t, more := G.Spelled(es[0].doc), es[0].after + Behind(es);
    Passed(c, o, es[0].before, t + more);
    Split(c, o + |es[0].before|, t, more);
  }

  /** Behind a value come blanks and then a byte that is neither blank nor part of a number. */
  lemma ValueEnds(c: Bytes, end: nat, blanks: Bytes, more: Bytes)
    requires G.Blanks(blanks) && StartsWith(c, end, blanks + more)
    requires more != [] && more[0] > 32 && !IsNumberChar(more[0])
    ensures end < |c| && !IsNumberChar(c[end]) && Skip(c, end) == end + |blanks| < |c|
    ensures c[end + |blanks|] == more[0] && StartsWith(c, end + |blanks|, more)
  {
    hide Skip;
    Passed(c, end, blanks, more);
    if blanks != [] {
      ByteAt(c, end, blanks + more, 0);
    }
  }

  lemma {:induction false} ElementsRead(c: Bytes, p: nat, o: nat, es: seq<G.Element>, d: nat)
    requires CString(c) && es != [] && G.LegalElements(es) && StartsWith(c, o, G.ElementsText(es))
    requires p < |c| && Skip(c, p) == o + |es[0].before| && d <= NESTING_LIMIT
    ensures ParseItems(c, p, d)
         == Outcome(FitAll(es, d), G.MeantAll(es), o + |G.ElementsText(es)|)
    decreases es, 1
  {
    hide Skip, StartsWith, G.Spelled, Behind, G.ElementsText, G.Legal, G.Meant, G.MeantAll, ParseValue, ParseItems;
    hide Fits, FitAll, IsNumberChar, Taken, Outcome;
    hide G.LegalElements;
    ElementsLegal(es);
    var q := o + |es[0].before|;
    var end := q + |G.Spelled(es[0].doc)|;
    var next := end + |es[0].after|;
    ElementPlaces(c, o, es);
    DocRead(c, q, es[0].doc, d);
    if |es| > 1 {
      FirstElement(c, next + 1, es[1..]);
      ElementsRead(c, next + 1, next + 1, es[1..], d);
    }
    ElementsStep(c, p, q, d, end, next, es, o + |G.ElementsText(es)|);
  }

  lemma ElementsLegal(es: seq<G.Element>)
    requires es != [] && G.LegalElements(es)
    ensures G.Blanks(es[0].before) && G.Blanks(es[0].after) && G.Legal(es[0].doc) && G.LegalElements(es[1..])
  {
    hide G.Legal, G.Blanks;
  }

  /** Where the first element ends, and the rest begins. */
  lemma ElementPlaces(c: Bytes, o: nat, es: seq<G.Element>)
    requires es != [] && G.LegalElements(es) && StartsWith(c, o, G.ElementsText(es))
    ensures var q, t := o + |es[0].before|, G.Spelled(es[0].doc);
            var end := q + |t|;
            var next := end + |es[0].after|;
            && StartsWith(c, q, t) && end < |c| && !IsNumberChar(c[end]) && Skip(c, end) == next < |c|
            && c[next] == (if |es| > 1 then COMMA else RBRACKET)
            && (|es| > 1 ==> StartsWith(c, next + 1, G.ElementsText(es[1..])))
            && o + |G.ElementsText(es)| == next + 1 + if |es| > 1 then |G.ElementsText(es[1..])| else 0
  {
    hide Skip, StartsWith, G.Spelled, Behind, G.ElementsText, G.Legal, G.LegalElements, IsNumberChar, G.Blanks;
    ElementsLegal(es);
    var end := o + |es[0].before| + |G.Spelled(es[0].doc)|;
    FirstElement(c, o, es);
    BehindIs(es);
    ValueEnds(c, end, es[0].after, Behind(es));
    if |es| > 1 {
      Here(c, end + |es[0].after|, COMMA, G.ElementsText(es[1..]));
    }
  }

  /** The first element has been read, and so has the rest if there is any. */
  lemma ElementsStep(c: Bytes, p: nat, q: nat, d: nat, end: nat, next: nat, es: seq<G.Element>, stop: nat)
    requires CString(c) && es != [] && G.LegalElements(es) && d <= NESTING_LIMIT
    requires p < |c| && Skip(c, p) == q && end < |c| && Skip(c, end) == next
    requires Taken(c, ParseValue(c, q, d), Fits(es[0].doc, d), G.Meant(es[0].doc), end)
    requires if |es| == 1 then c[next] == RBRACKET && stop == next + 1
             else c[next] == COMMA && next + 1 < |c|
                  && ParseItems(c, next + 1, d) == Outcome(FitAll(es[1..], d), G.MeantAll(es[1..]), stop)
    ensures ParseItems(c, p, d) == Outcome(FitAll(es, d), G.MeantAll(es), stop)
  {
    hide Skip, ParseValue, ParseItems, G.Legal, G.LegalElements, G.Meant, G.MeantAll, Fits, FitAll, IsNumberChar;
    ItemsStep(c, p, q, d, end, next);
    ElementsMean(es);
    ElementsFit(es, d);
  }

  ghost predicate FitAll(es: seq<G.Element>, d: nat)
    requires G.LegalElements(es)
  {
    G.ShortElements(es) && d + ItemsDepth(G.MeantAll(es)) <= NESTING_LIMIT
  }

  lemma ElementsMean(es: seq<G.Element>)
    requires es != [] && G.LegalElements(es)
    ensures G.MeantAll(es) == [G.Meant(es[0].doc)] + G.MeantAll(es[1..])
    ensures es[1..] == [] ==> G.MeantAll(es) == [G.Meant(es[0].doc)]
  {
    hide G.Meant;
  }

  lemma ElementsFit(es: seq<G.Element>, d: nat)
    requires es != [] && G.LegalElements(es) && d <= NESTING_LIMIT
    ensures FitAll(es, d) <==> Fits(es[0].doc, d) && FitAll(es[1..], d)
    ensures es[1..] == [] ==> FitAll(es[1..], d)
  {
    hide G.Meant, Depth, G.ShortNumbers;
    ElementsMean(es);
    assert ([G.Meant(es[0].doc)] + G.MeantAll(es[1..]))[1..] == G.MeantAll(es[1..]);
  }

  /** The value at q is refused and so are the elements; or it is followed by a bracket or a comma. */
  lemma ItemsStep(c: Bytes, p: nat, q: nat, d: nat, end: nat, next: nat)
    requires CString(c) && p < |c| && Skip(c, p) == q && end < |c| && Skip(c, end) == next
    ensures Refused(c, ParseValue(c, q, d)) ==> ParseItems(c, p, d) == Fail
    ensures var first := ParseValue(c, q, d);
            first.Done? && first.end == end && c[next] == RBRACKET ==>
              ParseItems(c, p, d) == Done([first.value], next + 1)
    ensures var first := ParseValue(c, q, d);
            first.Done? && first.end == end && c[next] == COMMA ==>
              next + 1 < |c| && ParseItems(c, p, d) == match ParseItems(c, next + 1, d)
                                                       case Fail => Fail
                                                       case Done(rest, stop) => Done([first.value] + rest, stop)
  {
    hide ParseValue;
  }

  // ---------- objects

  lemma {:induction false} ObjectRead(c: Bytes, o: nat, ps: seq<G.Pair>, d: nat)
    requires CString(c) && ps != [] && G.LegalPairs(ps) && StartsWith(c, o, [LBRACE] + G.PairsText(ps))
    requires o < |c| && c[o] == LBRACE && d <= NESTING_LIMIT
    ensures ParseObject(c, o, d)
         == Outcome(Fits(G.Object(ps), d), Object(G.MeantPairs(ps)), o + 1 + |G.PairsText(ps)|)
    decreases ps, 2
  {
    hide Skip, ParseMembers, G.Quoted, G.PairsText, G.MeantPairs, StartsWith, Fits, FitPairs, G.LegalPairs, FromColon;
    ObjectFits(ps, d);
    Here(c, o, LBRACE, G.PairsText(ps));
    if d < NESTING_LIMIT {
      NameAt(c, o + 1, ps);
      PairsRead(c, o + 1 + |ps[0].before|, o + 1, ps, d + 1);
    }
  }

  lemma ObjectFits(ps: seq<G.Pair>, d: nat)
    requires ps != [] && G.LegalPairs(ps) && d <= NESTING_LIMIT
    ensures Fits(G.Object(ps), d) <==> d < NESTING_LIMIT && FitPairs(ps, d + 1)
  {
    hide G.MeantPairs, G.ShortPairs, MembersDepth, G.LegalPairs;
  }

  /** What follows a member: a comma and the rest, or the brace. */
  function BehindPair(ps: seq<G.Pair>): Bytes
    requires ps != []
  {
    (if |ps| > 1 then [COMMA] else []) + G.PairsText(ps[1..])
  }

  lemma BehindPairIs(ps: seq<G.Pair>)
    requires ps != []
    ensures |BehindPair(ps)| > 0 && !IsNumberChar(BehindPair(ps)[0])
    ensures BehindPair(ps)[0] == if |ps| > 1 then COMMA else RBRACE
    ensures BehindPair(ps) == if |ps| == 1 then [RBRACE] else [COMMA] + G.PairsText(ps[1..])
    ensures G.PairsText(ps) == ps[0].before + (G.Quoted(ps[0].name) + (ps[0].mid + FromColon(ps)))
  {
    hide G.Spelled, G.Quoted;
    var p := ps[0];
    Regroup(p.before, G.Quoted(p.name), p.mid, [COLON], p.colon, G.Spelled(p.doc), p.after, BehindPair(ps));
  }

  lemma Regroup(a: Bytes, b: Bytes, c: Bytes, d: Bytes, e: Bytes, f: Bytes, g: Bytes, h: Bytes)
    ensures a + (b + (c + (d + (e + (f + g))))) + h == a + (b + (c + (d + (e + (f + (g + h))))))
  {
  }

  /** From the colon to the end of the object. */
  function FromColon(ps: seq<G.Pair>): Bytes
    requires ps != []
  {
    [COLON] + (ps[0].colon + (G.Spelled(ps[0].doc) + (ps[0].after + BehindPair(ps))))
  }

  /** Where the value of the first member begins. */
  function ValuePlace(o: nat, ps: seq<G.Pair>): nat
    requires ps != []
  {
    var p := ps[0];
    o + |p.before| + |G.Quoted(p.name)| + |p.mid| + 1 + |p.colon|
  }

  /** The blanks before the first name are passed over. */
  lemma NameAt(c: Bytes, o: nat, ps: seq<G.Pair>)
    requires ps != [] && G.LegalPairs(ps) && StartsWith(c, o, G.PairsText(ps))
    ensures var q := o + |ps[0].before|;
            && o < |c| && q < |c| && Skip(c, o) == q && Skip(c, q) == q && c[q] == QUOTE
            && StartsWith(c, q, G.Quoted(ps[0].name))
            && StartsWith(c, q + |G.Quoted(ps[0].name)|, ps[0].mid + FromColon(ps))
  {
    hide Skip, StartsWith, FromColon, BehindPair, G.PairsText, G.Legal;
    BehindPairIs(ps);
    var name, more := G.Quoted(ps[0].name), ps[0].mid + FromColon(ps);
    Passed(c, o, ps[0].before, name + more);
    Split(c, o + |ps[0].before|, name, more);
  }

  /** So are those before and behind the colon. */
  lemma ColonAt(c: Bytes, k: nat, ps: seq<G.Pair>)
    requires ps != [] && G.LegalPairs(ps) && StartsWith(c, k, ps[0].mid + FromColon(ps))
    ensures var colon, v, t := k + |ps[0].mid|, k + |ps[0].mid| + 1 + |ps[0].colon|, G.Spelled(ps[0].doc);
            && k < |c| && Skip(c, k) == colon && colon + 1 < |c| && c[colon] == COLON && Skip(c, colon + 1) == v < |c|
            && StartsWith(c, v, t) && StartsWith(c, v + |t|, ps[0].after + BehindPair(ps))
  {
    hide Skip, StartsWith, G.Spelled, BehindPair, G.Legal;
    var t, more := G.Spelled(ps[0].doc), ps[0].after + BehindPair(ps);
    FirstByte(ps[0].doc);
    Passed(c, k, ps[0].mid, FromColon(ps));
    Here(c, k + |ps[0].mid|, COLON, ps[0].colon + (t + more));
    Passed(c, k + |ps[0].mid| + 1, ps[0].colon, t + more);
    Split(c, k + |ps[0].mid| + 1 + |ps[0].colon|, t, more);
  }

  /** One member: name, colon, value. */
  lemma {:induction false} MemberRead(c: Bytes, p: nat, o: nat, ps: seq<G.Pair>, d: nat)
    requires CString(c) && ps != [] && G.LegalPairs(ps) && StartsWith(c, o, G.PairsText(ps))
    requires p < |c| && Skip(c, p) == o + |ps[0].before| && d <= NESTING_LIMIT
    ensures var r, end := ParseMember(c, p, d), ValuePlace(o, ps) + |G.Spelled(ps[0].doc)|;
            && StartsWith(c, end, ps[0].after + BehindPair(ps))
            && if Fits(ps[0].doc, d) then r == Done(Member(CStr(Meanings(ps[0].name)), G.Meant(ps[0].doc)), end)
               else r.Done? ==> r.end < |c| && IsNumberChar(c[r.end])
    decreases ps, 0
  {
    hide Skip, StartsWith, G.Spelled, BehindPair, FromColon, G.PairsText, G.Legal, G.Meant, Fits, G.Quoted;
    hide ParseValue, ParseString, ParseMember, Meanings, CStr, IsNumberChar;
    hide G.LegalPairs;
    PairsLegal(ps);
    var q, k := o + |ps[0].before|, o + |ps[0].before| + |G.Quoted(ps[0].name)|;
    var v := k + |ps[0].mid| + 1 + |ps[0].colon|;
    PairPlaces(c, o, ps);
    NameRead(c, q, ps[0].name);
    DocRead(c, v, ps[0].doc, d);
    MemberStep(c, p, q, k, k + |ps[0].mid|, v, d);
  }

  lemma PairsLegal(ps: seq<G.Pair>)
    requires ps != [] && G.LegalPairs(ps)
    ensures AllValid(ps[0].name) && G.Blanks(ps[0].after) && G.Legal(ps[0].doc) && G.LegalPairs(ps[1..])
  {
    hide G.Legal, G.Blanks, AllValid;
  }

  /** Where the name, the colon and the value of the first member are. */
  lemma PairPlaces(c: Bytes, o: nat, ps: seq<G.Pair>)
    requires ps != [] && G.LegalPairs(ps) && StartsWith(c, o, G.PairsText(ps))
    ensures var q, t := o + |ps[0].before|, G.Spelled(ps[0].doc);
            var k := q + |G.Quoted(ps[0].name)|;
            var colon := k + |ps[0].mid|;
            var v := colon + 1 + |ps[0].colon|;
            && q < |c| && StartsWith(c, q, G.Quoted(ps[0].name)) && k < |c| && Skip(c, k) == colon
            && colon + 1 < |c| && c[colon] == COLON && Skip(c, colon + 1) == v && StartsWith(c, v, t)
            && v + |t| < |c| && !IsNumberChar(c[v + |t|]) && StartsWith(c, v + |t|, ps[0].after + BehindPair(ps))
  {
    hide Skip, StartsWith, G.Spelled, BehindPair, FromColon, G.PairsText, G.Quoted, IsNumberChar;
    PairsLegal(ps);
    var k := o + |ps[0].before| + |G.Quoted(ps[0].name)|;
    NameAt(c, o, ps);
    ColonAt(c, k, ps);
    BehindPairIs(ps);
    ValueEnds(c, k + |ps[0].mid| + 1 + |ps[0].colon| + |G.Spelled(ps[0].doc)|, ps[0].after, BehindPair(ps));
  }

  lemma NameRead(c: Bytes, q: nat, name: seq<Piece>)
    requires CString(c) && q < |c| && AllValid(name) && StartsWith(c, q, G.Quoted(name))
    ensures ParseString(c, q) == Done(CStr(Meanings(name)), q + |G.Quoted(name)|)
  {
    hide ParseString, CStr, Meanings, StartsWith;
    LiteralBack(c, q, name);
  }

  lemma MemberStep(c: Bytes, p: nat, q: nat, k: nat, colon: nat, v: nat, d: nat)
    requires CString(c) && p < |c| && Skip(c, p) == q && ParseString(c, q).Done? && ParseString(c, q).end == k
    requires k < |c| && Skip(c, k) == colon && c[colon] == COLON && colon + 1 < |c| && Skip(c, colon + 1) == v
    ensures ParseMember(c, p, d) == match ParseValue(c, v, d)
                                    case Fail => Fail
                                    case Done(value, stop) => Done(Member(ParseString(c, q).value, value), stop)
  {
    hide Skip, ParseString, ParseValue;
  }

  lemma {:induction false} PairsRead(c: Bytes, p: nat, o: nat, ps: seq<G.Pair>, d: nat)
    requires CString(c) && ps != [] && G.LegalPairs(ps) && StartsWith(c, o, G.PairsText(ps))
    requires p < |c| && Skip(c, p) == o + |ps[0].before| && d <= NESTING_LIMIT
    ensures ParseMembers(c, p, d)
         == Outcome(FitPairs(ps, d), G.MeantPairs(ps), o + |G.PairsText(ps)|)
    decreases ps, 1
  {
    hide Skip, StartsWith, G.Spelled, BehindPair, FromColon, G.PairsText, G.Legal, G.Meant, G.MeantPairs, ValuePlace;
    hide ParseMember, ParseMembers, Meanings, CStr, G.Quoted, Fits, FitPairs, IsNumberChar, Outcome;
    var end := ValuePlace(o, ps) + |G.Spelled(ps[0].doc)|;
    var next := end + |ps[0].after|;
    MemberRead(c, p, o, ps, d);
    BehindPairIs(ps);
    PairsLength(o, ps);
    ValueEnds(c, end, ps[0].after, BehindPair(ps));
    if |ps| > 1 {
      Here(c, next, COMMA, G.PairsText(ps[1..]));
      NameAt(c, next + 1, ps[1..]);
      PairsRead(c, next + 1, next + 1, ps[1..], d);
    }
    PairsStep(c, p, d, end, next, ps, o + |G.PairsText(ps)|);
  }

  /** The first member has been read, and so has the rest if there is any. */
  lemma PairsStep(c: Bytes, p: nat, d: nat, end: nat, next: nat, ps: seq<G.Pair>, stop: nat)
    requires CString(c) && ps != [] && G.LegalPairs(ps) && d <= NESTING_LIMIT
    requires p < |c| && end < |c| && Skip(c, end) == next
    requires var r := ParseMember(c, p, d);
             if Fits(ps[0].doc, d) then r == Done(Member(CStr(Meanings(ps[0].name)), G.Meant(ps[0].doc)), end)
             else r.Done? ==> r.end < |c| && IsNumberChar(c[r.end])
    requires if |ps| == 1 then c[next] == RBRACE && stop == next + 1
             else c[next] == COMMA && next + 1 < |c|
                  && ParseMembers(c, next + 1, d) == Outcome(FitPairs(ps[1..], d), G.MeantPairs(ps[1..]), stop)
    ensures ParseMembers(c, p, d) == Outcome(FitPairs(ps, d), G.MeantPairs(ps), stop)
  {
    hide Skip, ParseMember, ParseMembers, G.Legal, G.LegalPairs, G.Meant, G.MeantPairs, Fits, FitPairs, IsNumberChar;
    hide Meanings, CStr;
    MembersStep(c, p, d, end, next);
    PairsMean(ps);
    PairsFit(ps, d);
  }

  ghost predicate FitPairs(ps: seq<G.Pair>, d: nat)
    requires G.LegalPairs(ps)
  {
    G.ShortPairs(ps) && d + MembersDepth(G.MeantPairs(ps)) <= NESTING_LIMIT
  }

  lemma MembersStep(c: Bytes, p: nat, d: nat, end: nat, next: nat)
    requires CString(c) && p < |c| && end < |c| && Skip(c, end) == next
    ensures var first := ParseMember(c, p, d);
            (first.Done? ==> first.end < |c| && IsNumberChar(c[first.end])) ==> ParseMembers(c, p, d) == Fail
    ensures var first := ParseMember(c, p, d);
            first.Done? && first.end == end && c[next] == RBRACE ==>
              ParseMembers(c, p, d) == Done([first.value], next + 1)
    ensures var first := ParseMember(c, p, d);
            first.Done? && first.end == end && c[next] == COMMA ==>
              next + 1 < |c| && ParseMembers(c, p, d) == match ParseMembers(c, next + 1, d)
                                                         case Fail => Fail
                                                         case Done(rest, stop) => Done([first.value] + rest, stop)
  {
    hide ParseMember;
  }

  lemma PairsLength(o: nat, ps: seq<G.Pair>)
    requires ps != []
    ensures o + |G.PairsText(ps)|
         == ValuePlace(o, ps) + |G.Spelled(ps[0].doc)| + |ps[0].after| + |BehindPair(ps)|
  {
    hide G.Spelled, G.Quoted, G.PairsText, BehindPair;
    BehindPairIs(ps);
  }

  lemma PairsMean(ps: seq<G.Pair>)
    requires ps != [] && G.LegalPairs(ps)
    ensures var m := Member(CStr(Meanings(ps[0].name)), G.Meant(ps[0].doc));
            G.MeantPairs(ps) == [m] + G.MeantPairs(ps[1..]) && (ps[1..] == [] ==> G.MeantPairs(ps) == [m])
  {
    hide G.Meant, CStr, Meanings;
  }

  lemma PairsFit(ps: seq<G.Pair>, d: nat)
    requires ps != [] && G.LegalPairs(ps) && d <= NESTING_LIMIT
    ensures FitPairs(ps, d) <==> Fits(ps[0].doc, d) && FitPairs(ps[1..], d)
    ensures ps[1..] == [] ==> FitPairs(ps[1..], d)
  {
    hide G.Meant, Depth, G.ShortNumbers, CStr, Meanings;
    PairsMean(ps);
    var m := Member(CStr(Meanings(ps[0].name)), G.Meant(ps[0].doc));
    assert ([m] + G.MeantPairs(ps[1..]))[1..] == G.MeantPairs(ps[1..]);
  }

  // ---------- whole texts

  lemma BlanksAreBlank(s: Bytes)
    requires G.Blanks(s)
    ensures Blank(s)
  {
  }

  lemma {:induction false} SkipToEnd(c: Bytes, o: nat, s: Bytes)
    requires StartsWith(c, o, s + [NUL]) && Blank(s) && o + |s| + 1 == |c|
    ensures Skip(c, o) == o + |s| && c[o + |s|] == NUL
    decreases |s|
  {
    ByteAt(c, o, s + [NUL], 0);
    if s != [] {
      assert s + [NUL] == [s[0]] + (s[1..] + [NUL]);
      Split(c, o, [s[0]], s[1..] + [NUL]);
      SkipToEnd(c, o + 1, s[1..]);
    }
  }

  /** Where the value lies, the parser finds it: behind a byte order mark and blanks. */
  lemma ValueFound(bom: bool, before: Bytes, doc: G.Doc, after: Bytes)
    requires G.Legal(doc) && G.Blanks(before) && G.Blanks(after)
    ensures var c := G.FileText(bom, before, doc, after) + [NUL];
            var start, o := if bom then 3 else 0, (if bom then 3 else 0) + |before|;
            && CString(c) && o + |G.Spelled(doc)| + |after| + 1 == |c|
            && start == (if |c| > 4 && StartsWith(c, 0, BOM) then 3 else 0) && Skip(c, start) == o
            && StartsWith(c, o, G.Spelled(doc)) && StartsWith(c, o + |G.Spelled(doc)|, after + [NUL])
  {
    hide G.Spelled, Skip, G.Legal, StartsWith, G.FileText, G.Blanks, Mark, CString;
    FirstByte(doc);
    FileLayout(bom, before, doc, after);
    TextFound(G.FileText(bom, before, doc, after) + [NUL], bom, before, G.Spelled(doc), after + [NUL]);
  }

  lemma TextFound(c: Bytes, bom: bool, before: Bytes, t: Bytes, rest: Bytes)
    requires c == Mark(bom) + (before + (t + rest)) && StartsWith(c, 0, c) && G.Blanks(before)
    requires |t| > 0 && t[0] > 32 && t[0] != 0xEF && |rest| > 0
    ensures var start := if bom then 3 else 0;
            var o := start + |before|;
            && start == (if |c| > 4 && StartsWith(c, 0, BOM) then 3 else 0) && start < |c| && Skip(c, start) == o
            && StartsWith(c, o, t) && StartsWith(c, o + |t|, rest)
  {
    hide Skip, StartsWith, G.Blanks, Mark;
    Split(c, 0, Mark(bom), before + (t + rest));
    Passed(c, |Mark(bom)|, before, t + rest);
    Split(c, |Mark(bom)| + |before|, t, rest);
    MarkSeen(bom, before, t + rest);
  }

  function Mark(bom: bool): (m: Bytes)
    ensures |m| == if bom then 3 else 0
  {
    if bom then [0xEF, 0xBB, 0xBF] else []
  }

  lemma FileLayout(bom: bool, before: Bytes, doc: G.Doc, after: Bytes)
    ensures var c := G.FileText(bom, before, doc, after) + [NUL];
            && c == Mark(bom) + (before + (G.Spelled(doc) + (after + [NUL]))) && StartsWith(c, 0, c) && CString(c)
            && |c| == |Mark(bom)| + |before| + |G.Spelled(doc)| + |after| + 1
  {
    hide G.Spelled, StartsWith;
    AtStart(G.FileText(bom, before, doc, after) + [NUL]);
    InFour(Mark(bom), before, G.Spelled(doc), after);
  }

  lemma InFour(a: Bytes, b: Bytes, c: Bytes, d: Bytes)
    ensures a + b + c + d + [NUL] == a + (b + (c + (d + [NUL])))
  {
  }

  lemma MarkSeen(bom: bool, before: Bytes, t: Bytes)
    requires G.Blanks(before) && |t| >= 2 && t[0] != 0xEF
    ensures var c := Mark(bom) + (before + t); bom <==> |c| > 4 && StartsWith(c, 0, BOM)
  {
    var c := Mark(bom) + (before + t);
    if !bom {
      assert c[0] == if before != [] then before[0] else t[0];
      NotWord(c, 0, BOM);
    } else {
      assert c[0..3] == BOM;
    }
  }

  /** cJSON_ParseWithOpts on any text of RFC 8259: the tree it stands for and where it stopped, exactly if
      the nesting is within the limit and no number has more than 63 characters. Otherwise it is refused,
      except that a number alone, without the demand for an end, is cut short. */
  lemma FileRead(bom: bool, before: Bytes, doc: G.Doc, after: Bytes, requireNul: bool)
    requires G.Legal(doc) && G.Blanks(before) && G.Blanks(after)
    ensures var c := G.FileText(bom, before, doc, after) + [NUL];
            var r, fits := Parse(c, requireNul), G.ShortNumbers(doc) && Depth(G.Meant(doc)) <= 1000;
            && (fits ==> r == Done(G.Meant(doc), |c| - 1 - if requireNul then 0 else |after|))
            && (!fits ==> if doc.Number? && !requireNul then r.Done? && r.end < |c| - 1 - |after| else r == Fail)
  {
    hide G.Spelled, Skip, G.Legal, ParseValue, Depth, G.Meant, G.ShortNumbers, StartsWith, G.FileText;
    var c := G.FileText(bom, before, doc, after) + [NUL];
    var o := (if bom then 3 else 0) + |before|;
    var end := o + |G.Spelled(doc)|;
    ValueFound(bom, before, doc, after);
    AfterValue(c, end, after);
    DocRead(c, o, doc, 0);
    NumberGoesOn(c, ParseValue(c, o, 0));
  }

  lemma AfterValue(c: Bytes, end: nat, after: Bytes)
    requires G.Blanks(after) && StartsWith(c, end, after + [NUL]) && end + |after| + 1 == |c|
    ensures !IsNumberChar(c[end]) && Skip(c, end) == |c| - 1 && c[|c| - 1] == NUL
  {
    ByteAt(c, end, after + [NUL], 0);
    BlanksAreBlank(after);
    SkipToEnd(c, end, after);
  }

  lemma NumberGoesOn(c: Bytes, r: Parsed<Value>)
    ensures r.Done? && r.end < |c| && IsNumberChar(c[r.end]) ==> Skip(c, r.end) == r.end && c[r.end] != NUL
  {
  }
}
