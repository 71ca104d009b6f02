/** The recursive-descent parser of cJSON.c, with its offset and depth counters, proved to compute the
    functions of JsonParse. Child lists are sequences here: their links are not part of this model. */
module JsonParser {
  import opened Options
  import opened JsonText
  import opened JsonParse
  import Utf8

  // ---------- how much parse_string allocates

  /** j is the byte behind an escaping backslash, for the scan that starts at start. */
  predicate Escaped(c: Bytes, start: nat, j: nat)
    requires j <= |c|
  {
    j > start && !Escaped(c, start, j - 1) && c[j - 1] == BACKSLASH
  }

  /** The bytes of c[start..j] that the scan does not subtract as escaping backslashes. */
  function Kept(c: Bytes, start: nat, j: nat): nat
    requires start <= j <= |c|
  {
    if j == start then 0
    else Kept(c, start, j - 1) + if !Escaped(c, start, j - 1) && c[j - 1] == BACKSLASH then 0 else 1
  }

  lemma KeptOne(c: Bytes, start: nat, i: nat)
    requires start <= i < |c|
    ensures Kept(c, start, i) <= Kept(c, start, i + 1)
    ensures c[i] != BACKSLASH || !Escaped(c, start, i + 1) ==> Kept(c, start, i + 1) == Kept(c, start, i) + 1
  {
  }

  /** Escaping backslashes are never adjacent: every other byte at least is kept. */
  lemma {:induction false} KeptPairs(c: Bytes, start: nat, i: nat, n: nat)
    requires start <= i && i + 2 * n <= |c|
    ensures Kept(c, start, i + 2 * n) >= Kept(c, start, i) + n
    decreases n
  {
    if n > 0 {
      KeptPairs(c, start, i + 2, n - 1);
    }
  }

  lemma {:induction false} KeptGrows(c: Bytes, start: nat, i: nat, j: nat)
    requires start <= i <= j <= |c|
    ensures Kept(c, start, i) <= Kept(c, start, j)
    decreases j - i
  {
    if i < j {
      KeptOne(c, start, i);
      KeptGrows(c, start, i + 1, j);
    }
  }

  // ---------- bytes of a code point, as the loop makes them

  lemma TrailByte(x: bv32)
    ensures ((x | 0x80) & 0xBF) as bv8 == Utf8.Trail(x)
  {
  }

  function Shifted(x: bv32): bv32 { x >> 6 }

  function LeadMark(n: nat): bv32 {
    if n == 1 then 0 else if n == 2 then 0xC0 else if n == 3 then 0xE0 else 0xF0
  }

  function LeadByte(x: bv32, mark: bv32): bv8 {
    ((x | mark) & 0xFF) as bv8
  }

  function Utf8Length(cp: bv32): (n: nat)
    ensures 1 <= n <= 4
  {
    if cp < 0x80 then 1 else if cp < 0x800 then 2 else if cp < 0x1_0000 then 3 else 4
  }

  /** The form the loop builds from the back is that of RFC 3629. */
  lemma EncodedBackwards(cp: bv32)
    requires cp < 0x20_0000
    ensures var n, c1, c2, c3 := Utf8Length(cp), Shifted(cp), Shifted(Shifted(cp)), Shifted(Shifted(Shifted(cp)));
            Utf8.Encode(cp) ==
            if n == 1 then [(cp & 0x7F) as bv8]
            else if n == 2 then [LeadByte(c1, 0xC0), Utf8.Trail(cp)]
            else if n == 3 then [LeadByte(c2, 0xE0), Utf8.Trail(c1), Utf8.Trail(cp)]
            else [LeadByte(c3, 0xF0), Utf8.Trail(c2), Utf8.Trail(c1), Utf8.Trail(cp)]
  {
  }

  /** Encode as UTF-8, last byte first. */
  method WriteUtf8(output: array<bv8>, at: nat, cp: bv32) returns (n: nat)
    requires cp < 0x20_0000 && at + Utf8Length(cp) <= output.Length
    modifies output
    ensures n == Utf8Length(cp) && output[at..at + n] == Utf8.Encode(cp)
    ensures forall i :: 0 <= i < at ==> output[i] == old(output[i])
  {
    hide Utf8.Trail, Utf8.Encode, Shifted, LeadByte, Utf8Length;
    var codepoint := cp;
    n := Utf8Length(cp);
    var mark := LeadMark(n);
    var position := n - 1;
    ghost var c1, c2, c3 := Shifted(cp), Shifted(Shifted(cp)), Shifted(Shifted(Shifted(cp)));
    EncodedBackwards(cp);
    while position > 0
      invariant 0 <= position < n
      invariant forall i :: 0 <= i < at ==> output[i] == old(output[i])
      invariant codepoint == if position == n - 1 then cp else if position == n - 2 then c1
                             else if position == n - 3 then c2 else c3
      invariant position < n - 1 ==> output[at + n - 1] == Utf8.Trail(cp)
      invariant position < n - 2 ==> output[at + n - 2] == Utf8.Trail(c1)
      invariant position < n - 3 ==> output[at + n - 3] == Utf8.Trail(c2)
    {
      TrailByte(codepoint);
      output[at + position] := ((codepoint | 0x80) & 0xBF) as bv8;
      codepoint := Shifted(codepoint);
      position := position - 1;
    }
    output[at] := if n > 1 then LeadByte(codepoint, mark) else (codepoint & 0x7F) as bv8;
    UpToFour(output[at..at + n]);
  }

  lemma UpToFour<T>(s: seq<T>)
    ensures |s| == 1 ==> s == [s[0]]
    ensures |s| == 2 ==> s == [s[0], s[1]]
    ensures |s| == 3 ==> s == [s[0], s[1], s[2]]
    ensures |s| == 4 ==> s == [s[0], s[1], s[2], s[3]]
  {
  }

  /** One character of a literal. */
  lemma UnescapeCases(c: Bytes, i: nat, end: nat)
    requires i < end < |c|
    ensures c[i] != BACKSLASH ==> Unescape(c, i, end) == Prefixed([c[i]], Unescape(c, i + 1, end))
    ensures c[i] == BACKSLASH && c[i + 1] == 0x75 ==>
              Unescape(c, i, end) == match Literal16(c, i, end)
                                     case Fail => None
                                     case Done(cp, next) => Prefixed(Utf8.Encode(cp), Unescape(c, next, end))
    ensures c[i] == BACKSLASH && c[i + 1] != 0x75 ==>
              Unescape(c, i, end) == match Unshort(c[i + 1])
                                     case None => None
                                     case Some(b) => Prefixed([b], Unescape(c, i + 2, end))
  {
    hide Literal16, Unshort, Utf8.Encode, Prefixed;
  }

  lemma ScanAligned(c: Bytes, start: nat, i: nat)
    requires start <= i < |c| && !Escaped(c, start, i)
    ensures c[i] != BACKSLASH ==> !Escaped(c, start, i + 1)
    ensures c[i] == BACKSLASH && i + 2 <= |c| ==>
              !Escaped(c, start, i + 2) && Kept(c, start, i + 2) == Kept(c, start, i) + 1
  {
  }

  class ParseBuffer {
    const content: Bytes
    var offset: nat
    var depth: nat

    ghost predicate Valid()
      reads this`offset
    {
      CString(content) && offset < |content|
    }

    constructor (text: Bytes)
      requires CString(text)
      ensures Valid() && content == text && offset == 0 && depth == 0
    {
      content, offset, depth := text, 0, 0;
    }

    method SkipWhitespace()
      requires Valid()
      modifies this`offset
      ensures Valid() && offset == Skip(content, old(offset))
    {
      while offset < |content| && content[offset] <= 32
        invariant old(offset) <= offset <= |content|
        invariant offset < |content| ==> Skip(content, offset) == Skip(content, old(offset))
        invariant offset == |content| ==> Skip(content, old(offset)) == |content| - 1
        decreases |content| - offset
      {
        offset := offset + 1;
      }
      if offset == |content| {
        offset := offset - 1;
      }
    }

    /** parse_hex4: shift and add, digit by digit. */
    method ParseHex4(i: nat) returns (h: bv32)
      requires i + 4 <= |content|
      ensures h == Hex4(content, i)
    {
      ghost var d3, d2 := HexValue(content[i]), HexValue(content[i + 1]);
      ghost var d1, d0 := HexValue(content[i + 2]), HexValue(content[i + 3]);
      NibbleZero();
      hide HexValue, Nibble, Plus;
      h := 0;
      for k := 0 to 4
        invariant k == 0 ==> h == Nibble(0)
        invariant k >= 1 ==> d3.Some?
        invariant k >= 2 ==> d2.Some?
        invariant k >= 3 ==> d1.Some?
        invariant k >= 4 ==> d0.Some?
        invariant k == 1 ==> h == Nibble(AddDigit(0, d3.value))
        invariant k == 2 ==> h == Nibble(AddDigit(AddDigit(0, d3.value), d2.value))
        invariant k == 3 ==> h == Nibble(AddDigit(AddDigit(AddDigit(0, d3.value), d2.value), d1.value))
        invariant k == 4 ==> h == AddDigit(AddDigit(AddDigit(AddDigit(0, d3.value), d2.value), d1.value), d0.value)
      {
        var digit := HexValue(content[i + k]);
        if digit.None? {
          return 0;
        }
        h := Plus(h, digit.value);
        if k < 3 {
          h := Nibble(h);
        }
      }
    }

    /** utf16_literal_to_utf8: 0 for a malformed escape. */
    method Utf16Literal(i: nat, end: nat, output: array<bv8>, at: nat) returns (sequenceLength: nat, written: nat)
      requires i <= end <= |content| && at <= output.Length
      requires Literal16(content, i, end).Done? ==> at + Utf8Length(Literal16(content, i, end).value) <= output.Length
      modifies output
      ensures sequenceLength == 0 <==> Literal16(content, i, end).Fail?
      ensures sequenceLength > 0 ==>
                var l := Literal16(content, i, end);
                i + sequenceLength == l.end && written == Utf8Length(l.value)
                && at + written <= output.Length && output[at..at + written] == Utf8.Encode(l.value)
      ensures forall j :: 0 <= j < at ==> output[j] == old(output[j])
    {
      hide Utf8.Encode, Hex4, Utf8Length;
      sequenceLength, written := 0, 0;
      if end - i < 6 {
        return;
      }
      var first := ParseHex4(i + 2);
      Hex4Bound(content, i + 2);
      if LowSurrogate(first) {
        return;
      }
      var codepoint := first;
      if HighSurrogate(first) {
        if end - i < 12 || content[i + 6] != BACKSLASH || content[i + 7] != 0x75 {
          return;
        }
        var second := ParseHex4(i + 8);
        if !LowSurrogate(second) {
          return;
        }
        codepoint := 0x1_0000 + (((first & 0x3FF) << 10) | (second & 0x3FF));
        PairFormula(first, second);
        sequenceLength := 12;
      } else {
        sequenceLength := 6;
      }
      written := WriteUtf8(output, at, codepoint);
    }

    /** The first loop of parse_string: where the literal ends and how many bytes escaping costs. */
    method MeasureString(start: nat) returns (inputEnd: Option<nat>, skipped: nat)
      requires start <= |content|
      ensures inputEnd == FindQuote(content, start)
      ensures inputEnd.Some? ==> start <= inputEnd.value < |content| && !Escaped(content, start, inputEnd.value)
      ensures inputEnd.Some? ==> (inputEnd.value - start) - skipped == Kept(content, start, inputEnd.value)
    {
      var end := start;
      skipped := 0;
      while end < |content| && content[end] != QUOTE
        invariant start <= end <= |content| && !Escaped(content, start, end)
        invariant FindQuote(content, end) == FindQuote(content, start)
        invariant (end - start) - skipped == Kept(content, start, end)
        decreases |content| - end
      {
        ScanAligned(content, start, end);
        KeptOne(content, start, end);
        if content[end] == BACKSLASH {
          if end + 1 >= |content| {
            return None, skipped;
          }
          skipped := skipped + 1;
          end := end + 1;
        }
        end := end + 1;
      }
      if end >= |content| || content[end] != QUOTE {
        return None, skipped;
      }
      inputEnd := Some(end);
    }

    /** One turn of the second loop: what is written never outgrows what the first loop counted. */
    method DecodeOne(ghost start: nat, i: nat, end: nat, output: array<bv8>, out: nat)
      returns (ok: bool, next: nat, written: nat)
      requires start <= i < end < |content| && !Escaped(content, start, end)
      requires out <= Kept(content, start, i) && Kept(content, start, end) < output.Length && out < output.Length
      modifies output
      ensures !ok ==> Unescape(content, i, end).None?
      ensures ok ==> i < next <= end + 1 && out < written
      ensures ok ==> written <= Kept(content, start, if next <= end then next else end)
      ensures ok ==> written < output.Length
      ensures ok ==> Unescape(content, i, end) == Prefixed(output[out..written], Unescape(content, next, end))
      ensures forall j :: 0 <= j < out ==> output[j] == old(output[j])
    {
      hide Literal16, Kept, Escaped, Unescape, Prefixed, Unshort;
      ok, next, written := true, i + 1, out + 1;
      RoomFor(content, start, i, end);
      UnescapeCases(content, i, end);
      if content[i] != BACKSLASH {
        output[out] := content[i];
        assert output[out..written] == [content[i]];
        return;
      }
      if content[i + 1] == 0x75 {
        LiteralRoom(content, start, i, end);
        var sequenceLength, n := Utf16Literal(i, end, output, out);
        ok, next, written := sequenceLength > 0, i + sequenceLength, out + n;
        return;
      }
      var e := Unshort(content[i + 1]);
      if e.None? {
        ok := false;
        return;
      }
      output[out] := e.value;
      assert output[out..written] == [e.value];
      next := i + 2;
    }

    /** parse_string, without its item: the literal's bytes. */
    method ParseString() returns (r: Option<Bytes>)
      requires Valid()
      modifies this`offset
      ensures r.Some? <==> JsonParse.ParseString(content, old(offset)).Done?
      ensures r.Some? ==> Valid() && JsonParse.ParseString(content, old(offset)) == Done(r.value, offset)
    {
      hide Unescape, FindQuote, Kept, Escaped;
      if content[offset] != QUOTE {
        return None;
      }
      var start := offset + 1;
      var inputEnd, skipped := MeasureString(start);
      if inputEnd.None? {
        return None;
      }
      var end := inputEnd.value;
      var allocation := (end - offset) - skipped;
      var output := new bv8[allocation + 1];
      var i, out := start, 0;
      NothingKept(content, start);
      assert output[..0] == [];
      PrefixNothing(Unescape(content, start, end));
      while i < end
        invariant start <= i <= end + 1 && out < output.Length
        invariant out <= Kept(content, start, if i <= end then i else end)
        invariant Unescape(content, start, end) == Prefixed(output[..out], Unescape(content, i, end))
        decreases end + 1 - i
      {
        ghost var before := output[..out];
        var ok, next, written := DecodeOne(start, i, end, output, out);
        if !ok {
          return None;
        }
        assert output[..out] == before;
        assert output[..written] == before + output[out..written];
        PrefixTwice(before, output[out..written], Unescape(content, next, end));
        i, out := next, written;
      }
      UnescapeEnds(content, i, end);
      output[out] := NUL;
      assert output[..out] + [] == output[..out];
      offset := end + 1;
      r := Some(CStr(output[..out]));
    }

    /** parse_number: up to 63 characters are copied and strtod takes what it can of them. */
    method ParseNumber() returns (r: Option<Value>)
      requires Valid()
      modifies this`offset
      ensures r.Some? <==> JsonParse.ParseNumber(content, old(offset)).Done?
      ensures r.Some? ==> Valid() && JsonParse.ParseNumber(content, old(offset)) == Done(r.value, offset)
    {
      var i := 0;
      while i < NUMBER_BUFFER - 1 && offset + i < |content| && IsNumberChar(content[offset + i])
        invariant 0 <= i <= NUMBER_BUFFER - 1 && offset + i <= |content|
        invariant NumberEnd(content, offset, NUMBER_BUFFER - 1) == NumberEnd(content, offset + i, NUMBER_BUFFER - 1 - i)
      {
        i := i + 1;
      }
      var run := content[offset..offset + i];
      var n := Strtod(run);
      NumberStops(content, offset, NUMBER_BUFFER - 1);
      if n == 0 {
        return None;
      }
      offset := offset + n;
      r := Some(Number(run[..n]));
    }

    predicate LooksAt(t: Bytes)
      reads this`offset
    {
      StartsWith(content, offset, t)
    }

    method ParseValue() returns (r: Option<Value>)
      requires Valid()
      modifies this`offset, this`depth
      ensures r.Some? <==> JsonParse.ParseValue(content, old(offset), old(depth)).Done?
      ensures r.Some? ==> Valid() && JsonParse.ParseValue(content, old(offset), old(depth)) == Done(r.value, offset)
      ensures r.Some? ==> depth == old(depth)
      decreases |content| - offset, 2
    {
      hide JsonParse.ParseString, JsonParse.ParseNumber, JsonParse.ParseArray, JsonParse.ParseObject;
      if LooksAt(NULL_TEXT) {
        offset := offset + 4;
        return Some(Null);
      }
      if LooksAt(FALSE_TEXT) {
        offset := offset + 5;
        return Some(False);
      }
      if LooksAt(TRUE_TEXT) {
        offset := offset + 4;
        return Some(True);
      }
      if offset < |content| && content[offset] == QUOTE {
        var s := ParseString();
        return match s case None => None case Some(bytes) => Some(String(bytes));
      }
      if offset < |content| && (content[offset] == 0x2D || IsDigit(content[offset])) {
        r := ParseNumber();
        return;
      }
      if offset < |content| && content[offset] == LBRACKET {
        r := ParseArray();
        return;
      }
      if offset < |content| && content[offset] == LBRACE {
        r := ParseObject();
        return;
      }
      r := None;
    }

    method ParseArray() returns (r: Option<Value>)
      requires Valid() && content[offset] == LBRACKET
      modifies this`offset, this`depth
      ensures r.Some? <==> JsonParse.ParseArray(content, old(offset), old(depth)).Done?
      ensures r.Some? ==> Valid() && JsonParse.ParseArray(content, old(offset), old(depth)) == Done(r.value, offset)
      ensures r.Some? ==> depth == old(depth)
      decreases |content| - offset, 1
    {
      hide Skip, JsonParse.ParseItems;
      if depth >= NESTING_LIMIT {
        return None;
      }
      depth := depth + 1;
      offset := offset + 1;
      SkipWhitespace();
      if offset < |content| && content[offset] == RBRACKET {
        depth := depth - 1;
        offset := offset + 1;
        return Some(Array([]));
      }
      var items := ParseElements();
      if items.None? {
        return None;
      }
      depth := depth - 1;
      r := Some(Array(items.value));
    }

    /** The loop of parse_array over comma separated elements, and the closing bracket. */
    method ParseElements() returns (r: Option<seq<Value>>)
      requires Valid()
      modifies this`offset, this`depth
      ensures r.Some? <==> JsonParse.ParseItems(content, old(offset), old(depth)).Done?
      ensures r.Some? ==> Valid() && JsonParse.ParseItems(content, old(offset), old(depth)) == Done(r.value, offset)
      ensures r.Some? ==> depth == old(depth)
      decreases |content| - offset, 3
    {
      hide Skip, JsonParse.ParseValue;
      var items: seq<Value> := [];
      ghost var whole := JsonParse.ParseItems(content, offset, depth);
      Prepended(items, whole);
      while true
        invariant Valid() && old(offset) <= offset && depth == old(depth)
        invariant whole == Prepend(items, JsonParse.ParseItems(content, offset, depth))
        decreases |content| - offset
      {
        ghost var here := offset;
        SkipWhitespace();
        var v := ParseValue();
        if v.None? {
          return None;
        }
        SkipWhitespace();
        items := items + [v.value];
        if !(offset < |content| && content[offset] == COMMA) {
          break;
        }
        ghost var rest := JsonParse.ParseItems(content, offset + 1, depth);
        PrependTwice(items[..|items| - 1], v.value, rest);
        offset := offset + 1;
      }
      if offset >= |content| || content[offset] != RBRACKET {
        return None;
      }
      offset := offset + 1;
      r := Some(items);
    }

    method ParseObject() returns (r: Option<Value>)
      requires Valid() && content[offset] == LBRACE
      modifies this`offset, this`depth
      ensures r.Some? <==> JsonParse.ParseObject(content, old(offset), old(depth)).Done?
      ensures r.Some? ==> Valid() && JsonParse.ParseObject(content, old(offset), old(depth)) == Done(r.value, offset)
      ensures r.Some? ==> depth == old(depth)
      decreases |content| - offset, 1
    {
      hide Skip, JsonParse.ParseMembers;
      if depth >= NESTING_LIMIT {
        return None;
      }
      depth := depth + 1;
      offset := offset + 1;
      SkipWhitespace();
      if offset < |content| && content[offset] == RBRACE {
        depth := depth - 1;
        offset := offset + 1;
        return Some(Object([]));
      }
      var members := ParseMembers();
      if members.None? {
        return None;
      }
      depth := depth - 1;
      r := Some(Object(members.value));
    }

    /** One name, colon and value. */
    method ParseMember() returns (r: Option<Member>)
      requires Valid()
      modifies this`offset, this`depth
      ensures r.Some? <==> JsonParse.ParseMember(content, old(offset), old(depth)).Done?
      ensures r.Some? ==> Valid() && JsonParse.ParseMember(content, old(offset), old(depth)) == Done(r.value, offset)
      ensures r.Some? ==> depth == old(depth)
      decreases |content| - offset, 3
    {
      hide Skip, JsonParse.ParseString, JsonParse.ParseValue;
      SkipWhitespace();
      var key := ParseString();
      if key.None? {
        return None;
      }
      SkipWhitespace();
      if offset >= |content| || content[offset] != COLON {
        return None;
      }
      offset := offset + 1;
      SkipWhitespace();
      var v := ParseValue();
      if v.None? {
        return None;
      }
      r := Some(Member(key.value, v.value));
    }

    /** The loop of parse_object, and the closing brace. */
    method ParseMembers() returns (r: Option<seq<Member>>)
      requires Valid()
      modifies this`offset, this`depth
      ensures r.Some? <==> JsonParse.ParseMembers(content, old(offset), old(depth)).Done?
      ensures r.Some? ==> Valid() && JsonParse.ParseMembers(content, old(offset), old(depth)) == Done(r.value, offset)
      ensures r.Some? ==> depth == old(depth)
      decreases |content| - offset, 4
    {
      hide Skip, JsonParse.ParseMember;
      var members: seq<Member> := [];
      ghost var whole := JsonParse.ParseMembers(content, offset, depth);
      Prepended(members, whole);
      while true
        invariant Valid() && old(offset) <= offset && depth == old(depth)
        invariant whole == Prepend(members, JsonParse.ParseMembers(content, offset, depth))
        decreases |content| - offset
      {
        var m := ParseMember();
        if m.None? {
          return None;
        }
        SkipWhitespace();
        members := members + [m.value];
        if !(offset < |content| && content[offset] == COMMA) {
          break;
        }
        ghost var rest := JsonParse.ParseMembers(content, offset + 1, depth);
        PrependTwice(members[..|members| - 1], m.value, rest);
        offset := offset + 1;
      }
      if offset >= |content| || content[offset] != RBRACE {
        return None;
      }
      offset := offset + 1;
      r := Some(members);
    }
  }

  lemma NibbleZero()
    ensures Nibble(0) == 0
  {
  }

  lemma Hex4Bound(c: Bytes, i: nat)
    requires i + 4 <= |c|
    ensures Hex4(c, i) < 0x1_0000
  {
    HexRange(c[i]);
    HexRange(c[i + 1]);
    HexRange(c[i + 2]);
    HexRange(c[i + 3]);
    match (HexValue(c[i]), HexValue(c[i + 1]), HexValue(c[i + 2]), HexValue(c[i + 3]))
    case (Some(d3), Some(d2), Some(d1), Some(d0)) =>
      hide HexValue;
      FourDigits(d3, d2, d1, d0);
    case _ =>
  }

  lemma HexRange(b: bv8)
    ensures HexValue(b).Some? ==> HexValue(b).value < 16
  {
  }

  lemma FourDigits(d3: bv32, d2: bv32, d1: bv32, d0: bv32)
    requires d3 < 16 && d2 < 16 && d1 < 16 && d0 < 16
    ensures AddDigit(AddDigit(AddDigit(AddDigit(0, d3), d2), d1), d0) < 0x1_0000
  {
  }

  /** Masking and shifting the halves is subtracting the surrogate bases. */
  lemma PairFormula(first: bv32, second: bv32)
    requires HighSurrogate(first) && LowSurrogate(second)
    ensures 0x1_0000 + (((first & 0x3FF) << 10) | (second & 0x3FF)) == FromSurrogates(first, second)
    ensures 0x1_0000 <= FromSurrogates(first, second) < 0x11_0000
  {
  }

  lemma NothingKept(c: Bytes, start: nat)
    requires start <= |c|
    ensures Kept(c, start, start) == 0
  {
  }

  /** Room for the byte of a plain or two-byte escape, which may end one past the literal's end. */
  lemma RoomFor(c: Bytes, start: nat, i: nat, end: nat)
    requires start <= i < end < |c| && !Escaped(c, start, end)
    ensures Kept(c, start, i) < Kept(c, start, end)
    ensures c[i] != BACKSLASH ==> Kept(c, start, i) < Kept(c, start, i + 1)
    ensures i + 2 <= end ==> Kept(c, start, i) < Kept(c, start, i + 2)
    ensures Kept(c, start, i + 1) <= Kept(c, start, end)
  {
    KeptOne(c, start, i);
    KeptGrows(c, start, i + 1, end);
    if i + 2 <= end {
      KeptPairs(c, start, i, 1);
      KeptGrows(c, start, i + 2, end);
    }
  }

  /** Six bytes of escape leave room for three, twelve for four. */
  lemma LiteralRoom(c: Bytes, start: nat, i: nat, end: nat)
    requires start <= i < end < |c|
    ensures var l := Literal16(c, i, end);
            l.Done? ==>
              i < l.end <= end
              && Kept(c, start, i) + Utf8Length(l.value) <= Kept(c, start, l.end) <= Kept(c, start, end)
  {
    var l := Literal16(c, i, end);
    if l.Done? {
      hide HexValue;
      Hex4Bound(c, i + 2);
      if l.end == i + 6 {
        KeptPairs(c, start, i, 3);
      } else {
        KeptPairs(c, start, i, 6);
      }
      KeptGrows(c, start, l.end, end);
    }
  }

  lemma PrefixNothing(rest: Option<Bytes>)
    ensures Prefixed([], rest) == rest
  {
    match rest
    case None =>
    case Some(t) => assert [] + t == t;
  }

  lemma PrefixTwice(p: Bytes, q: Bytes, rest: Option<Bytes>)
    ensures Prefixed(p, Prefixed(q, rest)) == Prefixed(p + q, rest)
  {
    match rest
    case None =>
    case Some(t) => assert p + (q + t) == (p + q) + t;
  }

  lemma UnescapeEnds(c: Bytes, i: nat, end: nat)
    requires end <= i && end < |c|
    ensures Unescape(c, i, end) == Some([])
  {
  }

  function Prepend<T>(xs: seq<T>, p: Parsed<seq<T>>): Parsed<seq<T>> {
    match p
    case Fail => Fail
    case Done(ys, end) => Done(xs + ys, end)
  }

  lemma Prepended<T>(xs: seq<T>, p: Parsed<seq<T>>)
    requires xs == []
    ensures Prepend(xs, p) == p
  {
    match p
    case Fail =>
    case Done(ys, end) => assert xs + ys == ys;
  }

  lemma PrependTwice<T>(xs: seq<T>, x: T, p: Parsed<seq<T>>)
    ensures Prepend(xs, Prepend([x], p)) == Prepend(xs + [x], p)
  {
    match p
    case Fail =>
    case Done(ys, end) => assert xs + ([x] + ys) == (xs + [x]) + ys;
  }

  /** cJSON_ParseWithOpts on a C string: the tree and where its text ended. */
  method ParseWithOpts(text: Bytes, requireNul: bool) returns (r: Parsed<Value>)
    requires CString(text)
    ensures r == Parse(text, requireNul)
  {
    hide JsonParse.ParseValue, Skip;
    var buffer := new ParseBuffer(text);
    if 4 < |text| && StartsWith(text, 0, BOM) {
      buffer.offset := 3;
    }
    buffer.SkipWhitespace();
    var v := buffer.ParseValue();
    if v.None? {
      return Fail;
    }
    if requireNul {
      buffer.SkipWhitespace();
      if buffer.offset >= |text| || text[buffer.offset] != NUL {
        return Fail;
      }
    }
    r := Done(v.value, buffer.offset);
  }
}
