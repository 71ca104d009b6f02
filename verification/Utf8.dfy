/** UTF-8 as section 3 of RFC 3629 defines it, and its inverse. */
module Utf8 {
  function Low(x: bv32): bv8 {
    (x & 0xFF) as bv8
  }

  /** Trailing byte 10xxxxxx with the lowest six bits of x. */
  function Trail(x: bv32): bv8 {
    0x80 | Low(x & 0x3F)
  }

  function Lead2(cp: bv32): bv8 { 0xC0 | Low((cp >> 6) & 0x1F) }

  function Lead3(cp: bv32): bv8 { 0xE0 | Low((cp >> 12) & 0xF) }

  function Lead4(cp: bv32): bv8 { 0xF0 | Low((cp >> 18) & 7) }

  /** The encoded form of a code point below 0x200000. */
  function Encode(cp: bv32): (r: seq<bv8>)
    ensures 1 <= |r| <= 4
  {
    if cp < 0x80 then [Low(cp)]
    else if cp < 0x800 then [Lead2(cp), Trail(cp)]
    else if cp < 0x1_0000 then [Lead3(cp), Trail(cp >> 6), Trail(cp)]
    else [Lead4(cp), Trail(cp >> 12), Trail(cp >> 6), Trail(cp)]
  }

  function Join1(a: bv8): bv32 { a as bv32 }

  function Join2(a: bv8, b: bv8): bv32 {
    (((a & 0x1F) as bv32) << 6) | ((b & 0x3F) as bv32)
  }

  function Join3(a: bv8, b: bv8, c: bv8): bv32 {
    (((a & 0xF) as bv32) << 12) | (((b & 0x3F) as bv32) << 6) | ((c & 0x3F) as bv32)
  }

  function Join4(a: bv8, b: bv8, c: bv8, d: bv8): bv32 {
    (((a & 7) as bv32) << 18) | (((b & 0x3F) as bv32) << 12) | (((c & 0x3F) as bv32) << 6) | ((d & 0x3F) as bv32)
  }

  /** The code point a whole encoded sequence stands for. */
  function Decode(s: seq<bv8>): bv32
    requires 1 <= |s| <= 4
  {
    if |s| == 1 then Join1(s[0])
    else if |s| == 2 then Join2(s[0], s[1])
    else if |s| == 3 then Join3(s[0], s[1], s[2])
    else Join4(s[0], s[1], s[2], s[3])
  }

  lemma JoinSplit2(cp: bv32)
    requires cp < 0x800
    ensures Join2(Lead2(cp), Trail(cp)) == cp
  {
  }

  lemma JoinSplit3(cp: bv32)
    requires cp < 0x1_0000
    ensures Join3(Lead3(cp), Trail(cp >> 6), Trail(cp)) == cp
  {
  }

  lemma JoinSplit4(cp: bv32)
    requires cp < 0x20_0000
    ensures Join4(Lead4(cp), Trail(cp >> 12), Trail(cp >> 6), Trail(cp)) == cp
  {
  }

  lemma DecodeEncode(cp: bv32)
    requires cp < 0x20_0000
    ensures Decode(Encode(cp)) == cp
  {
    if cp < 0x80 {
      assert Join1(Low(cp)) == cp;
    } else if cp < 0x800 {
      JoinSplit2(cp);
    } else if cp < 0x1_0000 {
      JoinSplit3(cp);
    } else {
      JoinSplit4(cp);
    }
    hide Join1, Join2, Join3, Join4, Low, Lead2, Lead3, Lead4, Trail;
  }

  /** Lead and trailing bytes can be told apart, and neither is an ASCII byte. */
  lemma ByteRanges(cp: bv32)
    requires 0x80 <= cp < 0x20_0000
    ensures var e := Encode(cp);
            0xC0 <= e[0] < 0xF8 && forall i :: 1 <= i < |e| ==> 0x80 <= e[i] < 0xC0
  {
  }
}
