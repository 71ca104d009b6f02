/** Pieces of a text at an offset, and what the parser of cJSON.c passes over. */
module JsonSlices {
  import opened JsonText
  import opened JsonParse

  lemma Split(c: Bytes, o: nat, s: Bytes, t: Bytes)
    requires StartsWith(c, o, s + t)
    ensures StartsWith(c, o, s) && StartsWith(c, o + |s|, t)
  {
    assert c[o..o + |s|] == (s + t)[..|s|];
    assert c[o + |s|..o + |s| + |t|] == (s + t)[|s|..];
  }

  lemma Here(c: Bytes, o: nat, b: bv8, t: Bytes)
    requires StartsWith(c, o, [b] + t)
    ensures o < |c| && c[o] == b && StartsWith(c, o + 1, t)
  {
    Split(c, o, [b], t);
    assert c[o..o + 1][0] == b;
  }

  lemma ByteAt(c: Bytes, o: nat, t: Bytes, k: nat)
    requires StartsWith(c, o, t) && k < |t|
    ensures o + k < |c| && c[o + k] == t[k]
  {
    assert c[o..o + |t|][k] == t[k];
  }

  lemma NotWord(c: Bytes, o: nat, w: Bytes)
    requires o < |c| && |w| > 0 && c[o] != w[0]
    ensures !StartsWith(c, o, w)
  {
    if o + |w| <= |c| {
      assert c[o..o + |w|][0] == c[o];
    }
  }

  lemma NotWords(c: Bytes, o: nat)
    requires o < |c| && c[o] != NULL_TEXT[0] && c[o] != FALSE_TEXT[0] && c[o] != TRUE_TEXT[0]
    ensures !StartsWith(c, o, NULL_TEXT) && !StartsWith(c, o, FALSE_TEXT) && !StartsWith(c, o, TRUE_TEXT)
  {
    NotWord(c, o, NULL_TEXT);
    NotWord(c, o, FALSE_TEXT);
    NotWord(c, o, TRUE_TEXT);
  }

  predicate Blank(s: Bytes) {
    forall i :: 0 <= i < |s| ==> s[i] <= 32
  }

  lemma {:induction false} SkipBlank(c: Bytes, o: nat, s: Bytes)
    requires StartsWith(c, o, s) && Blank(s) && o + |s| < |c| && c[o + |s|] > 32
    ensures Skip(c, o) == o + |s|
    decreases |s|
  {
    if s != [] {
      ByteAt(c, o, s, 0);
      assert s == [s[0]] + s[1..];
      Split(c, o, [s[0]], s[1..]);
      SkipBlank(c, o + 1, s[1..]);
    }
  }

  lemma SkipNothing(c: Bytes, o: nat)
    requires o < |c| && c[o] > 32
    ensures Skip(c, o) == o
  {
  }

  lemma {:induction false} NumberEndBack(c: Bytes, o: nat, t: Bytes, limit: nat)
    requires StartsWith(c, o, t) && (forall i :: 0 <= i < |t| ==> IsNumberChar(t[i])) && |t| <= limit
    requires o + |t| < |c| && !IsNumberChar(c[o + |t|])
    ensures NumberEnd(c, o, limit) == o + |t|
    decreases |t|
  {
    if t != [] {
      ByteAt(c, o, t, 0);
      assert t == [t[0]] + t[1..];
      Split(c, o, [t[0]], t[1..]);
      NumberEndBack(c, o + 1, t[1..], limit - 1);
    }
  }

  function Outcome<T>(ok: bool, v: T, end: nat): Parsed<T> {
    if ok then Done(v, end) else Fail
  }
}
