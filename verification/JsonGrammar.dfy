/** The texts of sections 2 to 7 of RFC 8259, said without any parser, and what they mean. */
module JsonGrammar {
  import opened Options
  import opened JsonNumbers
  import opened JsonText
  import opened JsonParse
  import opened JsonLiterals

  // ---------- documents

  /** The blanks of section 2. */
  predicate Blanks(s: Bytes) {
    forall i :: 0 <= i < |s| ==> s[i] == 0x20 || s[i] == 0x09 || s[i] == 0x0A || s[i] == 0x0D
  }

  datatype Doc =
    | Null
    | False
    | True
    | Number(numeral: Numeral)
    | String(pieces: seq<Piece>)
    | Empty(braces: bool, blanks: Bytes)
    | Array(elements: seq<Element>)       // at least one
    | Object(pairs: seq<Pair>)

  /** A value in an array, with the blanks around it. */
  datatype Element = Element(before: Bytes, doc: Doc, after: Bytes)

  /** A member of an object, with the blanks before the name, before and behind the colon, and at the end. */
  datatype Pair = Pair(before: Bytes, name: seq<Piece>, mid: Bytes, colon: Bytes, doc: Doc, after: Bytes)

  predicate Legal(doc: Doc)
    decreases doc, 1
  {
    match doc
    case Number(n) => LegalNumeral(n)
    case String(ps) => AllValid(ps)
    case Empty(_, blanks) => Blanks(blanks)
    case Array(elements) => elements != [] && LegalElements(elements)
    case Object(pairs) => pairs != [] && LegalPairs(pairs)
    case _ => true
  }

  predicate LegalElements(es: seq<Element>)
    decreases es, 0
  {
    es == [] || (Blanks(es[0].before) && Blanks(es[0].after) && Legal(es[0].doc) && LegalElements(es[1..]))
  }

  predicate LegalPairs(ps: seq<Pair>)
    decreases ps, 0
  {
    ps == [] || (LegalName(ps[0]) && Legal(ps[0].doc) && LegalPairs(ps[1..]))
  }

  predicate LegalName(p: Pair) {
    Blanks(p.before) && Blanks(p.mid) && Blanks(p.colon) && Blanks(p.after) && AllValid(p.name)
  }

  function Quoted(ps: seq<Piece>): Bytes { [0x22] + (Texts(ps) + [0x22]) }

  function Spelled(doc: Doc): Bytes
    decreases doc, 2
  {
    match doc
    case Null => [0x6E, 0x75, 0x6C, 0x6C]
    case False => [0x66, 0x61, 0x6C, 0x73, 0x65]
    case True => [0x74, 0x72, 0x75, 0x65]
    case Number(n) => Figures(n)
    case String(ps) => Quoted(ps)
    case Empty(braces, blanks) => if braces then [0x7B] + (blanks + [0x7D]) else [0x5B] + (blanks + [0x5D])
    case Array(elements) => [0x5B] + ElementsText(elements)
    case Object(pairs) => [0x7B] + PairsText(pairs)
  }

  /** Elements with commas between them, and the closing bracket. */
  function ElementsText(es: seq<Element>): Bytes
    decreases es, 0
  {
    if es == [] then [0x5D]
    else ElementText(es[0]) + ((if |es| > 1 then [0x2C] else []) + ElementsText(es[1..]))
  }

  function ElementText(e: Element): Bytes
    decreases e, 3
  {
    e.before + (Spelled(e.doc) + e.after)
  }

  function PairsText(ps: seq<Pair>): Bytes
    decreases ps, 0
  {
    if ps == [] then [0x7D]
    else PairText(ps[0]) + ((if |ps| > 1 then [0x2C] else []) + PairsText(ps[1..]))
  }

  function PairText(p: Pair): Bytes
    decreases p, 3
  {
    p.before + (Quoted(p.name) + (p.mid + ([0x3A] + (p.colon + (Spelled(p.doc) + p.after)))))
  }

  /** The tree a document stands for; names and strings end at a code point 0. */
  function Meant(doc: Doc): Value
    requires Legal(doc)
    decreases doc, 1
  {
    match doc
    case Null => Value.Null
    case False => Value.False
    case True => Value.True
    case Number(n) => Value.Number(Figures(n))
    case String(ps) => Value.String(CStr(Meanings(ps)))
    case Empty(braces, _) => if braces then Value.Object([]) else Value.Array([])
    case Array(elements) => Value.Array(MeantAll(elements))
    case Object(pairs) => Value.Object(MeantPairs(pairs))
  }

  function MeantAll(es: seq<Element>): seq<Value>
    requires LegalElements(es)
    decreases es, 0
  {
    if es == [] then [] else [Meant(es[0].doc)] + MeantAll(es[1..])
  }

  function MeantPairs(ps: seq<Pair>): seq<Member>
    requires LegalPairs(ps)
    decreases ps, 0
  {
    if ps == [] then []
    else [Member(CStr(Meanings(ps[0].name)), Meant(ps[0].doc))] + MeantPairs(ps[1..])
  }

  /** No number has more than 63 characters, which is what the parser copies of one. */
  predicate ShortNumbers(doc: Doc)
    decreases doc, 1
  {
    match doc
    case Number(n) => |Figures(n)| <= 63
    case Array(elements) => ShortElements(elements)
    case Object(pairs) => ShortPairs(pairs)
    case _ => true
  }

  predicate ShortElements(es: seq<Element>)
    decreases es, 0
  {
    es == [] || (ShortNumbers(es[0].doc) && ShortElements(es[1..]))
  }

  predicate ShortPairs(ps: seq<Pair>)
    decreases ps, 0
  {
    ps == [] || (ShortNumbers(ps[0].doc) && ShortPairs(ps[1..]))
  }

  /** The text of a whole file: a byte order mark or none, and blanks around the value. */
  function FileText(bom: bool, before: Bytes, doc: Doc, after: Bytes): Bytes {
    (if bom then [0xEF, 0xBB, 0xBF] else []) + before + Spelled(doc) + after
  }
}
