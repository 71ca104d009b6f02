/** What the printer of json_parse/jsonlibC/cJSON.c writes is a text of RFC 8259, with blanks in fixed places
    or none, and parsing it gives the tree back. */
module JsonRoundTrip {
  import opened Options
  import opened JsonNumbers
  import opened JsonText
  import opened JsonParse
  import opened JsonSlices
  import opened JsonLiterals
  import G = JsonGrammar
  import JsonReading
  import Utf8

  // ---------- strings

  /** How a byte is written: as it is unless it is a control character, quote or backslash; with a short
      escape if it has one; else with four digits in lower case. A slash is written as it is. */
  function PieceOf(b: bv8): Piece {
    if b > 31 && b != 0x22 && b != 0x5C then Plain(b)
    else if b == 0x22 || b == 0x5C then Short(b)
    else if b == 8 then Short(0x62)
    else if b == 9 then Short(0x74)
    else if b == 10 then Short(0x6E)
    else if b == 12 then Short(0x66)
    else if b == 13 then Short(0x72)
    else ControlPiece(b)
  }

  function ControlPiece(b: bv8): Piece {
    CodePoint(b as bv32, [0x30, 0x30, LowerDigit(Digit(b as bv32, 4)), LowerDigit(Digit(b as bv32, 0))], [])
  }

  function PiecesOf(s: Bytes): seq<Piece> {
    if s == [] then [] else [PieceOf(s[0])] + PiecesOf(s[1..])
  }

  lemma HexIs(b: bv8)
    requires b < 32
    ensures LowerDigit(Digit(b as bv32, 4)) == HexChar(b >> 4) && LowerDigit(Digit(b as bv32, 0)) == HexChar(b & 0xF)
  {
  }

  lemma ByteIs(b: bv8)
    ensures EscapeByte(b) == Text(PieceOf(b))
  {
    if b <= 31 {
      HexIs(b);
    }
    hide HexChar, LowerDigit, Digit;
  }

  lemma ControlValid(b: bv8)
    requires b < 32
    ensures Valid(ControlPiece(b)) && Meaning(ControlPiece(b)) == [b]
  {
    assert Digit(b as bv32, 12) == 0 && Digit(b as bv32, 8) == 0;
  }

  lemma ByteMeans(b: bv8)
    requires b != NUL
    ensures Valid(PieceOf(b)) && Meaning(PieceOf(b)) == [b]
  {
    if b < 32 {
      ControlValid(b);
    }
    hide ControlPiece;
  }

  lemma {:induction false} StringIs(s: Bytes)
    ensures RenderString(s) == G.Quoted(PiecesOf(s))
  {
    EscapeIs(s);
  }

  lemma {:induction false} EscapeIs(s: Bytes)
    ensures Escape(s) == Texts(PiecesOf(s))
  {
    hide EscapeByte, Text, PieceOf;
    if s != [] {
      ByteIs(s[0]);
      EscapeIs(s[1..]);
    }
  }

  lemma {:induction false} StringMeans(s: Bytes)
    requires NulFree(s)
    ensures AllValid(PiecesOf(s)) && Meanings(PiecesOf(s)) == s
  {
    hide Valid, Meaning, PieceOf;
    if s != [] {
      ByteMeans(s[0]);
      StringMeans(s[1..]);
      assert [s[0]] + s[1..] == s;
    }
  }

  // ---------- values

  ghost function NumeralOf(t: Bytes): (n: Numeral)
    requires NumberText(t)
    ensures LegalNumeral(n) && Figures(n) == t && |t| <= 63
  {
    var n :| LegalNumeral(n) && Figures(n) == t;
    n
  }

  /** A new line with so many tabs. */
  function Line(fmt: bool, tabs: nat): (s: Bytes)
    ensures G.Blanks(s)
  {
    if fmt then [0x0A] + seq(tabs, _ => 0x09) else []
  }

  /** The text written for a value: unformatted without any blank; formatted with a space behind each comma
      of an array, each member of an object on its own line, indented by tabs, a tab behind its colon, and
      the closing brace on a line of its own. */
  ghost function DocOf(v: Value, fmt: bool, depth: nat): G.Doc
    requires WellFormed(v)
    decreases v, 1
  {
    match v
    case Null => G.Null
    case False => G.False
    case True => G.True
    case Number(t) => G.Number(NumeralOf(t))
    case String(s) => G.String(PiecesOf(s))
    case Array(items) => if items == [] then G.Empty(false, []) else G.Array(ElementsOf(items, fmt, depth + 1, true))
    case Object(members) =>
      if members == [] then G.Empty(true, Line(fmt, depth)) else G.Object(PairsOf(members, fmt, depth + 1))
  }

  ghost function ElementsOf(items: seq<Value>, fmt: bool, depth: nat, first: bool): (es: seq<G.Element>)
    requires forall i :: 0 <= i < |items| ==> WellFormed(items[i])
    ensures |es| == |items|
    decreases items, 0
  {
    if items == [] then []
    else
      [G.Element(if fmt && !first then [0x20] else [], DocOf(items[0], fmt, depth), [])]
      + ElementsOf(items[1..], fmt, depth, false)
  }

  ghost function PairsOf(members: seq<Member>, fmt: bool, depth: nat): (ps: seq<G.Pair>)
    requires forall i :: 0 <= i < |members| ==> NulFree(members[i].key) && WellFormed(members[i].value)
    requires depth > 0
    ensures |ps| == |members|
    decreases members, 0
  {
    if members == [] then []
    else
      var m := members[0];
      [G.Pair(Line(fmt, depth), PiecesOf(m.key), [], if fmt then [0x09] else [], DocOf(m.value, fmt, depth),
              if |members| == 1 then Line(fmt, depth - 1) else [])]
      + PairsOf(members[1..], fmt, depth)
  }

  /** The text is just that. */
  lemma {:induction false} RenderIs(v: Value, fmt: bool, depth: nat)
    requires WellFormed(v)
    ensures Render(v, fmt, depth) == G.Spelled(DocOf(v, fmt, depth))
    decreases v, 3
  {
    hide RenderString, RenderItems, RenderMembers, G.Quoted, G.ElementsText, G.PairsText, WellFormed;
    match v
    case String(s) => StringIs(s);
    case Array(items) => ArrayIs(v, fmt, depth);
    case Object(members) => ObjectIs(v, fmt, depth);
    case _ =>
  }

  lemma {:induction false} ArrayIs(v: Value, fmt: bool, depth: nat)
    requires v.Array? && WellFormed(v)
    ensures Render(v, fmt, depth) == G.Spelled(DocOf(v, fmt, depth))
    decreases v, 2
  {
    hide G.ElementsText, ElementsOf, RenderItems, WellFormed;
    ArrayLayout(v, fmt, depth);
    if v.items == [] {
      NoItems(fmt, depth + 1);
    } else {
      ItemsFine(v);
      ItemsAre(v.items, fmt, depth + 1, true);
      Nothing(RenderItems(v.items, fmt, depth + 1) + [RBRACKET]);
    }
  }

  lemma ArrayLayout(v: Value, fmt: bool, depth: nat)
    requires v.Array?
    ensures Render(v, fmt, depth) == [LBRACKET] + (RenderItems(v.items, fmt, depth + 1) + [RBRACKET])
  {
    hide RenderItems;
  }

  lemma ItemsFine(v: Value)
    requires v.Array? && WellFormed(v)
    ensures forall i :: 0 <= i < |v.items| ==> WellFormed(v.items[i])
  {
  }

  lemma NoItems(fmt: bool, depth: nat)
    ensures RenderItems([], fmt, depth) == []
  {
  }

  lemma {:induction false} ItemsAre(items: seq<Value>, fmt: bool, depth: nat, first: bool)
    requires items != [] && forall i :: 0 <= i < |items| ==> WellFormed(items[i])
    ensures (if fmt && !first then [0x20] else []) + (RenderItems(items, fmt, depth) + [RBRACKET])
         == G.ElementsText(ElementsOf(items, fmt, depth, first))
    decreases items, 4
  {
    hide Render, RenderItems, G.Spelled, DocOf, WellFormed, G.ElementsText, ElementsOf;
    RenderIs(items[0], fmt, depth);
    if |items| > 1 {
      ItemsAre(items[1..], fmt, depth, false);
    }
    ItemsJoined(items, fmt, depth, first);
  }

  /** The first item is the same on both sides, and so is what follows it. */
  lemma {:induction false} ItemsJoined(items: seq<Value>, fmt: bool, depth: nat, first: bool)
    requires items != [] && forall i :: 0 <= i < |items| ==> WellFormed(items[i])
    requires Render(items[0], fmt, depth) == G.Spelled(DocOf(items[0], fmt, depth))
    requires |items| > 1 ==>
               (if fmt then [0x20] else []) + (RenderItems(items[1..], fmt, depth) + [RBRACKET])
               == G.ElementsText(ElementsOf(items[1..], fmt, depth, false))
    ensures (if fmt && !first then [0x20] else []) + (RenderItems(items, fmt, depth) + [RBRACKET])
         == G.ElementsText(ElementsOf(items, fmt, depth, first))
  {
    hide Render, RenderItems, G.Spelled, DocOf, WellFormed, G.ElementsText, ElementsOf, JsonReading.Behind;
    var es := ElementsOf(items, fmt, depth, first);
    ItemsLayout(items, fmt, depth);
    JsonReading.BehindIs(es);
    FirstOfItems(items, fmt, depth, first);
    Nothing(JsonReading.Behind(es));
  }

  lemma FirstOfItems(items: seq<Value>, fmt: bool, depth: nat, first: bool)
    requires items != [] && forall i :: 0 <= i < |items| ==> WellFormed(items[i])
    ensures var es := ElementsOf(items, fmt, depth, first);
            && es[0] == G.Element(if fmt && !first then [0x20] else [], DocOf(items[0], fmt, depth), [])
            && es[1..] == ElementsOf(items[1..], fmt, depth, false)
  {
    hide DocOf, WellFormed;
  }

  lemma ItemsLayout(items: seq<Value>, fmt: bool, depth: nat)
    requires items != []
    ensures RenderItems(items, fmt, depth) + [RBRACKET]
         == Render(items[0], fmt, depth)
            + if |items| == 1 then [0x5D]
              else [0x2C] + ((if fmt then [0x20] else []) + (RenderItems(items[1..], fmt, depth) + [RBRACKET]))
  {
    hide Render;
    var t, rest := Render(items[0], fmt, depth), RenderItems(items[1..], fmt, depth);
    if |items| == 1 {
      assert rest == [];
      assert t + [] + rest + [RBRACKET] == t + [0x5D];
    } else {
      var space: Bytes := if fmt then [0x20] else [];
      assert ItemSeparator(fmt) == [0x2C] + space;
      ItemsRegrouped(t, space, rest);
    }
  }

  lemma ItemsRegrouped(t: Bytes, space: Bytes, rest: Bytes)
    ensures t + ([0x2C] + space) + rest + [RBRACKET] == t + ([0x2C] + (space + (rest + [RBRACKET])))
  {
  }

  lemma {:induction false} ObjectIs(v: Value, fmt: bool, depth: nat)
    requires v.Object? && WellFormed(v)
    ensures Render(v, fmt, depth) == G.Spelled(DocOf(v, fmt, depth))
    decreases v, 2
  {
    hide G.PairsText, PairsOf, RenderMembers, Close, LineFeed, Line, Tabs, WellFormed;
    ObjectLayout(v, fmt, depth);
    if v.members == [] {
      NoMembers(fmt, depth);
    } else {
      KeysFine(v);
      MembersAre(v.members, fmt, depth + 1);
    }
  }

  lemma KeysFine(v: Value)
    requires v.Object? && WellFormed(v)
    ensures forall i :: 0 <= i < |v.members| ==> NulFree(v.members[i].key) && WellFormed(v.members[i].value)
  {
  }

  lemma ObjectLayout(v: Value, fmt: bool, depth: nat)
    requires v.Object?
    ensures Render(v, fmt, depth)
         == [LBRACE] + (LineFeed(fmt) + (RenderMembers(v.members, fmt, depth + 1) + Close(fmt, depth + 1)))
  {
    hide RenderMembers, Tabs;
    InFive([LBRACE], LineFeed(fmt), RenderMembers(v.members, fmt, depth + 1), TabsIf(fmt, depth), [RBRACE]);
  }

  lemma InFive(a: Bytes, b: Bytes, c: Bytes, d: Bytes, e: Bytes)
    ensures a + b + c + d + e == a + (b + (c + (d + e)))
  {
  }

  lemma NoMembers(fmt: bool, depth: nat)
    ensures LineFeed(fmt) + (RenderMembers([], fmt, depth + 1) + Close(fmt, depth + 1)) == Line(fmt, depth) + [0x7D]
  {
    hide Close, LineFeed, Line;
    assert RenderMembers([], fmt, depth + 1) == [];
    Nothing(Close(fmt, depth + 1));
    LineIs(fmt, depth + 1);
  }

  function LineFeed(fmt: bool): Bytes { if fmt then [LF] else [] }

  /** The end of an object whose members are at depth. */
  function Close(fmt: bool, depth: nat): Bytes
    requires depth > 0
  {
    (if fmt then Tabs(depth - 1) else []) + [RBRACE]
  }

  lemma {:induction false} MembersAre(members: seq<Member>, fmt: bool, depth: nat)
    requires members != [] && depth > 0
    requires forall i :: 0 <= i < |members| ==> NulFree(members[i].key) && WellFormed(members[i].value)
    ensures LineFeed(fmt) + (RenderMembers(members, fmt, depth) + Close(fmt, depth))
         == G.PairsText(PairsOf(members, fmt, depth))
    decreases members, 4
  {
    hide LineFeed, RenderMembers, Close, G.PairsText, PairsOf, DocOf, RenderString, G.Quoted, Render, G.Spelled;
    hide WellFormed, NulFree;
    RenderIs(members[0].value, fmt, depth);
    StringIs(members[0].key);
    if |members| > 1 {
      MembersAre(members[1..], fmt, depth);
    }
    MembersJoined(members, fmt, depth);
  }

  /** The first member is the same on both sides, and so is what follows it. */
  lemma {:induction false} MembersJoined(members: seq<Member>, fmt: bool, depth: nat)
    requires members != [] && depth > 0
    requires forall i :: 0 <= i < |members| ==> NulFree(members[i].key) && WellFormed(members[i].value)
    requires Render(members[0].value, fmt, depth) == G.Spelled(DocOf(members[0].value, fmt, depth))
    requires RenderString(members[0].key) == G.Quoted(PiecesOf(members[0].key))
    requires |members| > 1 ==>
               LineFeed(fmt) + (RenderMembers(members[1..], fmt, depth) + Close(fmt, depth))
               == G.PairsText(PairsOf(members[1..], fmt, depth))
    ensures LineFeed(fmt) + (RenderMembers(members, fmt, depth) + Close(fmt, depth))
         == G.PairsText(PairsOf(members, fmt, depth))
  {
    hide LineFeed, RenderMembers, Close, G.PairsText, PairsOf, DocOf, RenderString, G.Quoted, Render, G.Spelled;
    hide WellFormed, NulFree, PiecesOf, MembersMore, KeySeparator, TabsIf, Line, JsonReading.BehindPair;
    var ps := PairsOf(members, fmt, depth);
    LineIs(fmt, depth);
    MembersLayout(members, fmt, depth);
    PairsLayout(ps);
    MoreMembers(members, fmt, depth);
    FirstPair(members, fmt, depth);
    Nothing(JsonReading.BehindPair(ps));
    Nothing(KeySeparator(fmt) + (Render(members[0].value, fmt, depth) + MembersMore(members, fmt, depth)));
  }

  lemma Nothing(s: Bytes)
    ensures [] + s == s
  {
  }

  lemma MembersLayout(members: seq<Member>, fmt: bool, depth: nat)
    requires members != [] && depth > 0
    ensures LineFeed(fmt) + (RenderMembers(members, fmt, depth) + Close(fmt, depth))
         == (LineFeed(fmt) + TabsIf(fmt, depth))
            + (RenderString(members[0].key)
               + (KeySeparator(fmt) + (Render(members[0].value, fmt, depth) + MembersMore(members, fmt, depth))))
  {
    hide Render, RenderString, LineFeed, KeySeparator, MemberEnd, Close, Tabs;
    var m := members[0];
    Grouped(LineFeed(fmt), TabsIf(fmt, depth), RenderString(m.key), KeySeparator(fmt),
            Render(m.value, fmt, depth), MemberEnd(|members| == 1, fmt), RenderMembers(members[1..], fmt, depth),
            Close(fmt, depth));
  }

  function TabsIf(fmt: bool, depth: nat): Bytes { if fmt then Tabs(depth) else [] }

  /** What follows the value of the first member, to the end of the object. */
  function MembersMore(members: seq<Member>, fmt: bool, depth: nat): Bytes
    requires members != [] && depth > 0
  {
    MemberEnd(|members| == 1, fmt) + (RenderMembers(members[1..], fmt, depth) + Close(fmt, depth))
  }

  lemma Grouped(l: Bytes, t: Bytes, k: Bytes, s: Bytes, v: Bytes, e: Bytes, r: Bytes, c: Bytes)
    ensures l + (t + k + s + v + e + r + c) == (l + t) + (k + (s + (v + (e + (r + c)))))
  {
  }

  lemma PairsLayout(ps: seq<G.Pair>)
    requires ps != []
    ensures G.PairsText(ps)
         == ps[0].before
            + (G.Quoted(ps[0].name)
               + (ps[0].mid
                  + (([0x3A] + ps[0].colon) + (G.Spelled(ps[0].doc) + (ps[0].after + JsonReading.BehindPair(ps))))))
  {
    JsonReading.BehindPairIs(ps);
    hide G.Spelled, G.Quoted, G.PairsText, JsonReading.BehindPair;
    var more := G.Spelled(ps[0].doc) + (ps[0].after + JsonReading.BehindPair(ps));
    assert [COLON] + (ps[0].colon + more) == ([COLON] + ps[0].colon) + more;
  }

  lemma LineIs(fmt: bool, depth: nat)
    ensures LineFeed(fmt) + TabsIf(fmt, depth) == Line(fmt, depth)
    ensures KeySeparator(fmt) == [0x3A] + if fmt then [0x09] else []
    ensures depth > 0 ==> LineFeed(fmt) + Close(fmt, depth) == Line(fmt, depth - 1) + [0x7D]
  {
    assert LineFeed(fmt) + TabsIf(fmt, depth) == Line(fmt, depth);
    if depth > 0 {
      assert LineFeed(fmt) + TabsIf(fmt, depth - 1) == Line(fmt, depth - 1);
      assert LineFeed(fmt) + (TabsIf(fmt, depth - 1) + [RBRACE]) == (LineFeed(fmt) + TabsIf(fmt, depth - 1)) + [RBRACE];
    }
  }

  lemma MoreMembers(members: seq<Member>, fmt: bool, depth: nat)
    requires members != [] && depth > 0
    ensures MembersMore(members, fmt, depth)
         == if |members| == 1 then Line(fmt, depth - 1) + [0x7D]
            else [0x2C] + (LineFeed(fmt) + (RenderMembers(members[1..], fmt, depth) + Close(fmt, depth)))
  {
    hide Render, RenderString, Close, Line, Tabs;
    LineIs(fmt, depth);
    if |members| == 1 {
      assert RenderMembers(members[1..], fmt, depth) == [];
      assert [] + Close(fmt, depth) == Close(fmt, depth);
    } else {
      hide RenderMembers;
    }
  }

  lemma FirstPair(members: seq<Member>, fmt: bool, depth: nat)
    requires members != [] && depth > 0
    requires forall i :: 0 <= i < |members| ==> NulFree(members[i].key) && WellFormed(members[i].value)
    ensures var p, m, rest := PairsOf(members, fmt, depth)[0], members[0], PairsOf(members[1..], fmt, depth);
            && PairsOf(members, fmt, depth)[1..] == rest
            && p == G.Pair(Line(fmt, depth), PiecesOf(m.key), [], if fmt then [0x09] else [],
                           DocOf(m.value, fmt, depth), if |members| == 1 then Line(fmt, depth - 1) else [])
            && JsonReading.BehindPair(PairsOf(members, fmt, depth))
               == if |members| == 1 then [0x7D] else [0x2C] + G.PairsText(rest)
  {
    JsonReading.BehindPairIs(PairsOf(members, fmt, depth));
    hide DocOf, WellFormed, Line, PiecesOf, G.PairsText, JsonReading.BehindPair;
  }

  /** It is a text of the grammar and stands for the value; its numbers are short. */
  lemma {:induction false} DocMeans(v: Value, fmt: bool, depth: nat)
    requires WellFormed(v)
    ensures var doc := DocOf(v, fmt, depth); G.Legal(doc) && G.Meant(doc) == v && G.ShortNumbers(doc)
    decreases v, 3
  {
    match v
    case String(s) => StringMeans(s);
    case Array(items) =>
      if items != [] {
        ElementsMean(items, fmt, depth + 1, true);
      }
    case Object(members) =>
      if members != [] {
        PairsMean(members, fmt, depth + 1);
      }
    case _ =>
  }

  lemma {:induction false} ElementsMean(items: seq<Value>, fmt: bool, depth: nat, first: bool)
    requires forall i :: 0 <= i < |items| ==> WellFormed(items[i])
    ensures var es := ElementsOf(items, fmt, depth, first);
            G.LegalElements(es) && G.MeantAll(es) == items && G.ShortElements(es)
    decreases items, 2
  {
    hide DocOf, WellFormed, G.Legal, G.Meant, G.ShortNumbers;
    if items != [] {
      DocMeans(items[0], fmt, depth);
      ElementsMean(items[1..], fmt, depth, false);
      assert [items[0]] + items[1..] == items;
    }
  }

  lemma {:induction false} PairsMean(members: seq<Member>, fmt: bool, depth: nat)
    requires forall i :: 0 <= i < |members| ==> NulFree(members[i].key) && WellFormed(members[i].value)
    requires depth > 0
    ensures var ps := PairsOf(members, fmt, depth);
            G.LegalPairs(ps) && G.MeantPairs(ps) == members && G.ShortPairs(ps)
    decreases members, 2
  {
    hide DocOf, WellFormed, G.Legal, G.Meant, G.ShortNumbers, AllValid, Meanings, PiecesOf, NulFree, Line;
    if members != [] {
      DocMeans(members[0].value, fmt, depth);
      StringMeans(members[0].key);
      PairsMean(members[1..], fmt, depth);
      assert [members[0]] + members[1..] == members;
    }
  }

  /** Printing, formatted or not, and parsing: the same tree exactly when the nesting is within the
      limit the parser enforces, and a refusal otherwise; the text is used up to its terminator. */
  lemma RoundTrip(v: Value, fmt: bool, requireNul: bool)
    requires WellFormed(v)
    ensures Parse(Render(v, fmt, 0) + [NUL], requireNul) ==
            Outcome(Depth(v) <= NESTING_LIMIT, v, |Render(v, fmt, 0)|)
  {
    hide Render, Parse, Depth, DocOf, WellFormed, G.Legal, G.Meant, G.ShortNumbers;
    RenderIs(v, fmt, 0);
    DocMeans(v, fmt, 0);
    var doc := DocOf(v, fmt, 0);
    assert G.FileText(false, [], doc, []) == Render(v, fmt, 0);
    if doc.Number? {
      NumberDepth(doc);
    }
    JsonReading.FileRead(false, [], doc, [], requireNul);
  }

  lemma NumberDepth(doc: G.Doc)
    requires G.Legal(doc) && doc.Number?
    ensures Depth(G.Meant(doc)) == 0
  {
  }
}
