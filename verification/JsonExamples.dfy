/** Texts that the printer of cJSON.c does not write, and what its parser makes of them. */
module JsonExamples {
  import opened Options
  import opened JsonNumbers
  import opened JsonText
  import opened JsonParse
  import opened JsonLiterals
  import G = JsonGrammar
  import JsonReading

  /** A digit, and an exponent of one digit or none. */
  function OneDigit(d: bv8, e: Option<Exponent>): Numeral { Numeral(false, [d], Option.None, e) }

  /** [1e5] */
  lemma ExponentInArray(c: Bytes, requireNul: bool)
    requires c == [0x5B, 0x31, 0x65, 0x35, 0x5D, NUL]
    ensures Parse(c, requireNul) == Done(Array([Number([0x31, 0x65, 0x35])]), 5)
  {
    hide Parse;
    var n := OneDigit(0x31, Some(Exponent(0x65, [], [0x35])));
    assert Figures(n) == [0x31, 0x65, 0x35];
    var es := [G.Element([], G.Number(n), [])];
    OneElement(es);
    assert G.FileText(false, [], G.Array(es), []) + [NUL] == c;
    JsonReading.FileRead(false, [], G.Array(es), [], requireNul);
  }

  lemma OneElement(es: seq<G.Element>)
    requires |es| == 1 && es[0].doc.Number? && G.Blanks(es[0].before) && G.Blanks(es[0].after)
    requires LegalNumeral(es[0].doc.numeral) && |Figures(es[0].doc.numeral)| <= 63
    ensures var t := Figures(es[0].doc.numeral);
            && G.Legal(G.Array(es)) && G.Meant(G.Array(es)) == Array([Number(t)])
            && JsonReading.Fits(G.Array(es), 0)
            && G.Spelled(G.Array(es)) == [0x5B] + (G.ElementText(es[0]) + [0x5D])
  {
    assert es[1..] == [];
    assert G.LegalElements(es[1..]) && G.ElementsText(es[1..]) == [0x5D];
    assert G.Meant(es[0].doc) == Number(Figures(es[0].doc.numeral));
    assert JsonReading.Fits(es[0].doc, 1);
    JsonReading.ElementsMean(es);
    JsonReading.ElementsFit(es, 1);
    JsonReading.ArrayFits(es, 0);
    hide Figures, LegalNumeral;
  }

  /** -0.25 behind a byte order mark, with blanks around it. */
  lemma MarkAndBlanks(c: Bytes)
    requires c == [0xEF, 0xBB, 0xBF, 0x20, 0x2D, 0x30, 0x2E, 0x32, 0x35, 0x0A, NUL]
    ensures Parse(c, true) == Done(Number([0x2D, 0x30, 0x2E, 0x32, 0x35]), 10)
  {
    hide Parse;
    var n := Numeral(true, [0x30], Some([0x32, 0x35]), Option.None);
    assert Figures(n) == [0x2D, 0x30, 0x2E, 0x32, 0x35];
    assert G.FileText(true, [0x20], G.Number(n), [0x0A]) + [NUL] == c;
    JsonReading.FileRead(true, [0x20], G.Number(n), [0x0A], true);
  }

  /** [ ] */
  lemma EmptyWithBlank(c: Bytes, requireNul: bool)
    requires c == [0x5B, 0x20, 0x5D, NUL]
    ensures Parse(c, requireNul) == Done(Array([]), 3)
  {
    hide Parse;
    assert G.FileText(false, [], G.Empty(false, [0x20]), []) + [NUL] == c;
    JsonReading.FileRead(false, [], G.Empty(false, [0x20]), [], requireNul);
  }

  /** {"a" : 1} */
  lemma BlanksAroundColon(c: Bytes, requireNul: bool)
    requires c == [0x7B, 0x22, 0x61, 0x22, 0x20, 0x3A, 0x20, 0x31, 0x7D, NUL]
    ensures Parse(c, requireNul) == Done(Object([Member([0x61], Number([0x31]))]), 9)
  {
    hide Parse, G.PairText, Figures, G.Spelled, G.Meant, Depth, G.ShortNumbers, G.Legal, Meanings, CStr;
    var n := OneDigit(0x31, Option.None);
    var ps := [G.Pair([], [Plain(0x61)], [0x20], [0x20], G.Number(n), [])];
    NamedA();
    OnePair(ps);
    NameAndValue(ps[0]);
    FileTextIs(G.Object(ps), c);
    JsonReading.FileRead(false, [], G.Object(ps), [], requireNul);
  }

  lemma NamedA()
    ensures AllValid([Plain(0x61)]) && Meanings([Plain(0x61)]) == [0x61] && CStr([0x61]) == [0x61]
    ensures var n := OneDigit(0x31, Option.None); LegalNumeral(n) && Figures(n) == [0x31]
  {
    OnePiece(Plain(0x61));
    assert NulFree([0x61]);
    assert Figures(OneDigit(0x31, Option.None)) == [0x31];
  }

  lemma FileTextIs(doc: G.Doc, c: Bytes)
    requires c == G.Spelled(doc) + [NUL]
    ensures G.FileText(false, [], doc, []) + [NUL] == c
  {
    hide G.Spelled;
  }

  lemma NameAndValue(p: G.Pair)
    requires p == G.Pair([], [Plain(0x61)], [0x20], [0x20], G.Number(OneDigit(0x31, Option.None)), [])
    ensures G.PairText(p) == [0x22, 0x61, 0x22, 0x20, 0x3A, 0x20, 0x31]
  {
    OnePiece(Plain(0x61));
    assert Figures(OneDigit(0x31, Option.None)) == [0x31];
  }

  lemma OnePair(ps: seq<G.Pair>)
    requires |ps| == 1 && ps[0].doc.Number? && G.LegalName(ps[0])
    requires LegalNumeral(ps[0].doc.numeral) && |Figures(ps[0].doc.numeral)| <= 63
    ensures G.Legal(ps[0].doc) && G.LegalPairs(ps[1..]) && G.Legal(G.Object(ps))
    ensures var t, m := Figures(ps[0].doc.numeral), G.Meant(G.Object(ps));
            && m == Object([Member(CStr(Meanings(ps[0].name)), Number(t))])
            && JsonReading.Fits(G.Object(ps), 0)
            && G.Spelled(G.Object(ps)) == [0x7B] + (G.PairText(ps[0]) + [0x7D])
  {
    hide Figures, LegalNumeral, CStr, Meanings, AllValid, G.Quoted;
    assert ps[1..] == [];
    assert G.LegalPairs(ps[1..]) && G.PairsText(ps[1..]) == [0x7D];
    assert G.Meant(ps[0].doc) == Number(Figures(ps[0].doc.numeral));
    assert JsonReading.Fits(ps[0].doc, 1);
    JsonReading.PairsMean(ps);
    JsonReading.PairsFit(ps, 1);
    JsonReading.ObjectFits(ps, 0);
  }

  /** A number of sixty-four digits is refused if nothing may follow it. */
  lemma SixtyFourDigits(c: Bytes)
    requires c == seq(64, _ => 0x31) + [NUL]
    ensures Parse(c, true) == Fail
  {
    hide Parse;
    var n := Numeral(false, seq(64, _ => 0x31), Option.None, Option.None);
    assert Figures(n) == seq(64, _ => 0x31);
    assert G.FileText(false, [], G.Number(n), []) + [NUL] == c;
    JsonReading.FileRead(false, [], G.Number(n), [], true);
  }
}
