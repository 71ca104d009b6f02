/** The 31-bit UTF-8 conversions of obj_zip/zip30/fileio.c. Strings are read up to their terminating
    zero; shifts and masks are written as division and remainder. */
module Ucs4 {
  import opened Options

  type Byte = x: int | 0 <= x < 256

  const MAX := 0x7FFF_FFFF

  /** ch shifted right by k groups of six bits. */
  function Top(ch: nat, k: nat): nat {
    if k == 0 then ch else Top(ch, k - 1) / 64
  }

  // ---------- one character, encoded

  /** The payload of a lead byte with k trailing bytes is below this. */
  function LeadRoom(k: nat): (r: nat)
    requires k <= 6
    ensures r > 0
  {
    match k case 0 => 64 case 1 => 32 case 2 => 16 case 3 => 8 case 4 => 4 case 5 => 2 case _ => 1
  }

  function LeadMask(k: nat): nat {
    if k == 0 then 0x80 else LeadMask(k - 1) / 2 + 0x80
  }

  lemma Leads()
    ensures LeadRoom(1) == 32 && LeadRoom(2) == 16 && LeadRoom(3) == 8 && LeadRoom(4) == 4 && LeadRoom(5) == 2
    ensures LeadMask(1) == 0xC0 && LeadMask(2) == 0xE0 && LeadMask(3) == 0xF0 && LeadMask(4) == 0xF8
    ensures LeadMask(5) == 0xFC
  {
  }

  /** The number of trailing bytes: the least, from one up, that leaves room in the lead byte. */
  function Trailing(ch: nat): (k: nat)
    requires ch <= MAX
    ensures 1 <= k <= 5
  {
    if ch < 0x800 then 1 else if ch < 0x1_0000 then 2 else if ch < 0x20_0000 then 3
    else if ch < 0x400_0000 then 4 else 5
  }

  lemma Tops(ch: nat)
    ensures Top(ch, 1) == ch / 64 && Top(ch, 2) == ch / 64 / 64 && Top(ch, 3) == ch / 64 / 64 / 64
    ensures Top(ch, 4) == ch / 64 / 64 / 64 / 64 && Top(ch, 5) == ch / 64 / 64 / 64 / 64 / 64
  {
  }

  /** Below this a character has room with k trailing bytes. */
  function Limit(k: nat): nat
    requires 1 <= k <= 5
  {
    match k case 1 => 0x800 case 2 => 0x1_0000 case 3 => 0x20_0000 case 4 => 0x400_0000 case _ => 0x8000_0000
  }

  lemma RoomIff(ch: nat, k: nat)
    requires 1 <= k <= 5
    ensures Top(ch, k) < LeadRoom(k) <==> ch < Limit(k)
  {
    Leads();
    Tops(ch);
  }

  lemma TrailingLeast(ch: nat)
    requires ch <= MAX
    ensures Top(ch, Trailing(ch)) < LeadRoom(Trailing(ch))
    ensures forall k :: 1 <= k < Trailing(ch) ==> Top(ch, k) >= LeadRoom(k)
  {
    RoomIff(ch, Trailing(ch));
    hide Top, LeadRoom;
    forall k | 1 <= k < Trailing(ch)
      ensures Top(ch, k) >= LeadRoom(k)
    {
      RoomIff(ch, k);
    }
  }

  /** The k low groups of six bits, highest first. */
  function Trails(ch: nat, k: nat): (r: seq<Byte>)
    ensures |r| == k
  {
    if k == 0 then [] else [0x80 + Top(ch, k - 1) % 64] + Trails(ch, k - 1)
  }

  function EncodeChar(ch: nat): (r: seq<Byte>)
    requires ch <= MAX
    ensures |r| >= 1
  {
    if ch < 0x7F then [ch]
    else
      LeadFits(ch);
      [LeadMask(Trailing(ch)) + Top(ch, Trailing(ch))] + Trails(ch, Trailing(ch))
  }

  lemma LeadFits(ch: nat)
    requires ch <= MAX
    ensures LeadMask(Trailing(ch)) + Top(ch, Trailing(ch)) < 256
  {
    TrailingLeast(ch);
    Leads();
    hide Top;
  }

  // ---------- one character, decoded

  /** The length that a lead byte announces, -1 for a byte that leads nothing. */
  function LeadBytes(lead: Byte): int {
    if lead < 0x80 then 1 else if lead < 0xC0 then -1 else if lead < 0xE0 then 2 else if lead < 0xF0 then 3
    else if lead < 0xF8 then 4 else if lead < 0xFC then 5 else if lead < 0xFE then 6 else -1
  }

  predicate IsTrail(b: Byte) { 0x80 <= b < 0xC0 }

  /** The length of the character at p, or -1 where the bytes are ill-formed. */
  function CharBytes(s: seq<Byte>, p: nat): (r: int)
    requires p < |s|
    ensures r == -1 || (1 <= r <= 6 && p + r <= |s|)
  {
    var r := LeadBytes(s[p]);
    if r > 0 && p + r <= |s| && forall i :: p < i < p + r ==> IsTrail(s[i]) then r else -1
  }

  /** Each trailing byte adds six bits. */
  function Fold(v: nat, t: seq<Byte>): nat
    decreases |t|
  {
    if t == [] then v else Fold(v, t[..|t| - 1]) * 64 + t[|t| - 1] % 64
  }

  function LeadValue(lead: Byte, r: nat): nat
    requires 1 <= r <= 6
  {
    if r == 1 then lead else lead % LeadRoom(r - 1)
  }

  function CharValue(s: seq<Byte>, p: nat): nat
    requires p < |s| && CharBytes(s, p) > 0
  {
    var r := CharBytes(s, p);
    Fold(LeadValue(s[p], r), s[p + 1..p + r])
  }

  lemma {:induction false} FoldFront(v: nat, b: Byte, t: seq<Byte>)
    ensures Fold(v, [b] + t) == Fold(v * 64 + b % 64, t)
    decreases |t|
  {
    if t != [] {
      assert ([b] + t)[..|t|] == [b] + t[..|t| - 1];
      FoldFront(v, b, t[..|t| - 1]);
    } else {
      assert ([b] + t)[..0] == [];
    }
  }

  lemma {:induction false} FoldTrails(ch: nat, k: nat)
    ensures Fold(Top(ch, k), Trails(ch, k)) == ch
    decreases k
  {
    if k > 0 {
      var top := Top(ch, k - 1);
      FoldFront(top / 64, 0x80 + top % 64, Trails(ch, k - 1));
      FoldTrails(ch, k - 1);
    }
  }

  lemma {:induction false} TopFirst(ch: nat, k: nat)
    requires k > 0
    ensures Top(ch, k) == Top(ch / 64, k - 1)
  {
    if k > 1 {
      TopFirst(ch, k - 1);
    } else {
      assert Top(ch, 0) == ch;
    }
  }

  lemma {:induction false} TrailsLast(ch: nat, k: nat)
    requires k > 0
    ensures Trails(ch, k) == Trails(ch / 64, k - 1) + [0x80 + ch % 64]
  {
    if k > 1 {
      TrailsLast(ch, k - 1);
      TopFirst(ch, k - 1);
    } else {
      assert Trails(ch, 0) == [] && Top(ch, 0) == ch;
    }
  }

  lemma {:induction false} TrailsTrail(ch: nat, k: nat)
    ensures forall b <- Trails(ch, k) :: IsTrail(b)
    decreases k
  {
    if k > 0 {
      TrailsTrail(ch, k - 1);
    }
  }

  /** A character encoded is decoded to itself, whatever stands before and after it. */
  lemma CharBack(s: seq<Byte>, p: nat, ch: nat)
    requires ch <= MAX && p + |EncodeChar(ch)| <= |s| && s[p..p + |EncodeChar(ch)|] == EncodeChar(ch)
    ensures CharBytes(s, p) == |EncodeChar(ch)| && CharValue(s, p) == ch
  {
    var e := EncodeChar(ch);
    assert s[p] == e[0];
    if ch >= 0x7F {
      var k := Trailing(ch);
      var t := Trails(ch, k);
      TrailingLeast(ch);
      LeadByte(ch);
      TrailsTrail(ch, k);
      FoldTrails(ch, k);
      hide Trails, Fold, Top, LeadRoom, LeadMask, Trailing;
      assert |e| == k + 1 && t == e[1..];
      assert s[p + 1..p + 1 + k] == t;
      forall i | p < i < p + (k + 1)
        ensures IsTrail(s[i])
      {
        assert s[i] == e[i - p] == t[i - p - 1];
      }
    }
  }

  lemma LeadByte(ch: nat)
    requires 0x7F <= ch <= MAX
    ensures var k, lead := Trailing(ch), EncodeChar(ch)[0];
            LeadBytes(lead) == k + 1 && LeadValue(lead, k + 1) == Top(ch, k)
  {
    Leads();
    TrailingLeast(ch);
    hide Top, Trails;
  }

  // ---------- strings

  predicate Encodable(u: seq<nat>) { forall i :: 0 <= i < |u| ==> u[i] <= MAX }

  function EncodeString(u: seq<nat>): seq<Byte>
    requires Encodable(u)
  {
    if u == [] then [] else EncodeChar(u[0]) + EncodeString(u[1..])
  }

  /** The characters from p up to one of value zero; nothing when the bytes are ill-formed. */
  function DecodeFrom(s: seq<Byte>, p: nat): Option<seq<nat>>
    requires p < |s| && s[|s| - 1] == 0
    decreases |s| - p
  {
    if CharBytes(s, p) < 0 then None
    else if CharValue(s, p) == 0 then Some([])
    else
      MoreThere(s, p);
      match DecodeFrom(s, p + CharBytes(s, p))
      case None => None
      case Some(u) => Some([CharValue(s, p)] + u)
  }

  /** A character that is not the terminator lies before it. */
  lemma MoreThere(s: seq<Byte>, p: nat)
    requires p < |s| && s[|s| - 1] == 0 && CharBytes(s, p) > 0
    ensures CharValue(s, p) != 0 ==> p + CharBytes(s, p) < |s|
    ensures p + CharBytes(s, p) <= |s|
  {
  }

  /** Every zero-free string of 31-bit characters comes back from its UTF-8 form. */
  lemma {:induction false} StringBack(u: seq<nat>, s: seq<Byte>, p: nat)
    requires Encodable(u) && 0 !in u
    requires p <= |s| && s[p..] == EncodeString(u) + [0]
    ensures p < |s| && s[|s| - 1] == 0 && DecodeFrom(s, p) == Some(u)
    decreases |u|
  {
    hide EncodeChar, CharBytes, CharValue, DecodeFrom;
    if u == [] {
      EmptyBack(s, p);
    } else {
      var e, more := EncodeChar(u[0]), EncodeString(u[1..]);
      assert EncodeString(u) + [0] == e + (more + [0]);
      Cut(s, p, e, more + [0]);
      hide EncodeString;
      CharBack(s, p, u[0]);
      StringBack(u[1..], s, p + |e|);
      DecodeStep([], s, p);
      assert u[0] in u && [] + [u[0]] + u[1..] == u;
    }
  }

  lemma EmptyBack(s: seq<Byte>, p: nat)
    requires p <= |s| && s[p..] == EncodeString([]) + [0]
    ensures p == |s| - 1 && s[p] == 0 && DecodeFrom(s, p) == Some([]) && EncodeString([]) == []
  {
  }

  lemma Cut(s: seq<Byte>, p: nat, e: seq<Byte>, more: seq<Byte>)
    requires p <= |s| && s[p..] == e + more
    ensures p + |e| <= |s| && s[p..p + |e|] == e && s[p + |e|..] == more
  {
  }

  /** The bytes of an accepted character are those the encoder would write exactly when it needs that many:
      for one byte a value below 0x7F, for two any other they hold above, and for more one too large for a
      byte less. The rest are 0x7F in one byte and the overlong forms. */
  lemma ReencodedIff(s: seq<Byte>, p: nat)
    requires p < |s| && CharBytes(s, p) > 0
    ensures CharValue(s, p) <= MAX
    ensures var r, ch := CharBytes(s, p), CharValue(s, p);
            EncodeChar(ch) == s[p..p + r]
            <==> if r == 1 then ch < 0x7F else if r == 2 then ch >= 0x7F else ch >= Limit(r - 2)
  {
    var r := CharBytes(s, p);
    var v, t := LeadValue(s[p], r), s[p + 1..p + r];
    LeadValueBound(s[p]);
    assert s[p..p + r] == [s[p]] + t;
    if r == 1 {
      assert t == [];
      LongerThanOne(s[p]);
    } else {
      forall i | 0 <= i < |t|
        ensures IsTrail(t[i])
      {
        assert t[i] == s[p + 1 + i];
      }
      Reencoded(s[p], v, t);
    }
  }

  lemma LongerThanOne(b: Byte)
    requires b < 0x80
    ensures EncodeChar(b) == [b] <==> b < 0x7F
  {
    hide Trails, LeadMask, Top;
  }

  lemma Reencoded(lead: Byte, v: nat, t: seq<Byte>)
    requires 1 <= |t| <= 5 && v < LeadRoom(|t|) && lead == LeadMask(|t|) + v
    requires forall i :: 0 <= i < |t| ==> IsTrail(t[i])
    ensures Fold(v, t) <= MAX
    ensures EncodeChar(Fold(v, t)) == [lead] + t
            <==> if |t| == 1 then Fold(v, t) >= 0x7F else Fold(v, t) >= Limit(|t| - 1)
  {
    FoldInverse(v, t);
    RoomIff(Fold(v, t), |t|);
    hide Top, LeadRoom, LeadMask, Fold, Trails;
  }

  lemma LeadValueBound(lead: Byte)
    requires LeadBytes(lead) > 0
    ensures var r := LeadBytes(lead);
            if r == 1 then LeadValue(lead, r) < 0x80
            else LeadValue(lead, r) < LeadRoom(r - 1) && lead == LeadMask(r - 1) + LeadValue(lead, r)
  {
    Leads();
  }

  lemma {:induction false} FoldInverse(v: nat, t: seq<Byte>)
    requires forall i :: 0 <= i < |t| ==> IsTrail(t[i])
    ensures Top(Fold(v, t), |t|) == v && Trails(Fold(v, t), |t|) == t
    decreases |t|
  {
    if t != [] {
      var before, b := t[..|t| - 1], t[|t| - 1];
      FoldInverse(v, before);
      TopFirst(Fold(v, t), |t|);
      TrailsLast(Fold(v, t), |t|);
      assert b == 0x80 + b % 64 && t == before + [b];
    }
  }

  /** 0x7F is accepted in one byte and written in two. */
  lemma DelInTwo()
    ensures CharBytes([0x7F, 0], 0) == 1 && CharValue([0x7F, 0], 0) == 0x7F && EncodeChar(0x7F) == [0xC1, 0xBF]
  {
    var s: seq<Byte> := [0x7F, 0];
    assert s[1..1] == [];
    Leads();
    Tops(0x7F);
    assert Trails(0x7F, 1) == [0xBF] + Trails(0x7F, 0) && Top(0x7F, 0) == 0x7F;
  }

  /** Two bytes may stand for what one byte would: they are taken, and even as a terminator. */
  lemma LongZero()
    ensures CharBytes([0xC0, 0x80, 0], 0) == 2 && DecodeFrom([0xC0, 0x80, 0], 0) == Some([])
  {
  }

  // ---------- the converters

  /** utf8_char_bytes */
  method Utf8CharBytes(s: seq<Byte>, p: nat) returns (r: int)
    requires p < |s| && s[|s| - 1] == 0
    ensures r == CharBytes(s, p)
  {
    var lead := s[p];
    if lead < 0x80 {
      r := 1;
    } else if lead < 0xC0 {
      return -1;
    } else if lead < 0xE0 {
      r := 2;
    } else if lead < 0xF0 {
      r := 3;
    } else if lead < 0xF8 {
      r := 4;
    } else if lead < 0xFC {
      r := 5;
    } else if lead < 0xFE {
      r := 6;
    } else {
      return -1;
    }
    for t := 1 to r
      invariant p + t <= |s| && forall i :: p < i < p + t ==> IsTrail(s[i])
    {
      if p + t == |s| || s[p + t] < 0x80 || s[p + t] >= 0xC0 {
        return -1;      // the terminator at the latest ends the loop
      }
    }
  }

  /** ucs4_char_from_utf8; 0x7F >> bytes is one less than the room in the lead byte. */
  method Ucs4CharFromUtf8(s: seq<Byte>, p: nat) returns (ch: int, next: nat)
    requires p < |s| && s[|s| - 1] == 0
    ensures if CharBytes(s, p) < 0 then ch == -1 && next == p
            else ch == CharValue(s, p) && next == p + CharBytes(s, p)
  {
    var bytes := Utf8CharBytes(s, p);
    if bytes <= 0 {
      return -1, p;
    }
    ch := if bytes == 1 then s[p] else s[p] % LeadRoom(bytes - 1);
    next := p + 1;
    assert s[p + 1..next] == [];
    for t := 1 to bytes
      invariant next == p + t && ch == Fold(LeadValue(s[p], bytes), s[p + 1..next])
    {
      assert s[p + 1..next + 1][..t - 1] == s[p + 1..next];
      ch := ch * 64 + s[next] % 64;
      next := next + 1;
    }
  }

  /** utf8_from_ucs4_char */
  method Utf8FromUcs4Char(buf: array<Byte>, ch: nat) returns (ret: int)
    requires buf.Length == 6
    modifies buf
    ensures if ch > MAX then ret == -1
            else 1 <= ret <= 6 && ret == |EncodeChar(ch)| && buf[..ret] == EncodeChar(ch)
  {
    if ch > MAX {
      return -1;
    }
    if ch < 0x7F {
      buf[0] := ch;
      return 1;
    }
    var trailing: nat, leadmask: nat := LeadOf(ch);
    ret := trailing + 1;
    LeadFits(ch);
    hide Top;
    buf[0] := leadmask + Top(ch, trailing);
    assert buf[..1] == [leadmask + Top(ch, trailing)];
    PutTrails(buf, ch, trailing);
  }

  /** The trailing bytes, high group first. */
  method PutTrails(buf: array<Byte>, ch: nat, n: nat)
    requires buf.Length == 6 && n <= 5
    modifies buf
    ensures buf[..n + 1] == old(buf[..1]) + Trails(ch, n)
  {
    hide Top;
    var trailing, at := n, 1;
    ghost var all := old(buf[..1]) + Trails(ch, n);
    while trailing > 0
      invariant 0 <= trailing && at + trailing == n + 1 && all == buf[..at] + Trails(ch, trailing)
    {
      trailing := trailing - 1;
      ghost var was := buf[..at];
      buf[at] := 0x80 + Top(ch, trailing) % 64;
      assert buf[..at + 1] == was + [buf[at]];
      assert all == was + ([buf[at]] + Trails(ch, trailing));
      at := at + 1;
    }
  }

  /** The loop that finds the lead byte; leadbits is all ones, so a bit outside it means a larger value. */
  method LeadOf(ch: nat) returns (trailing: nat, leadmask: nat)
    requires ch <= MAX
    ensures trailing == Trailing(ch) && leadmask == LeadMask(trailing)
  {
    TrailingLeast(ch);
    hide Trailing;
    var leadbits: nat, tch: nat := 0x3F, ch;
    trailing, leadmask := 0, 0x80;
    while true
      invariant trailing < Trailing(ch) && leadmask == LeadMask(trailing) && leadbits == LeadRoom(trailing) - 1
      invariant tch == Top(ch, trailing)
      decreases Trailing(ch) - trailing
    {
      trailing := trailing + 1;
      leadmask := leadmask / 2 + 0x80;
      leadbits := leadbits / 2;
      tch := tch / 64;
      if tch <= leadbits {
        break;
      }
    }
  }

  function Count<T>(r: Option<seq<T>>): int {
    match r case None => -1 case Some(u) => |u|
  }

  /** What a buffer of n places holds of a string and its terminator. */
  ghost predicate Holds(buf: seq<nat>, n: int, u: seq<nat>) {
    forall i :: 0 <= i < |u| + 1 && i < n ==> i < |buf| && buf[i] == (u + [0])[i]
  }

  function Behind(done: seq<nat>, r: Option<seq<nat>>): Option<seq<nat>> {
    match r case None => None case Some(u) => Some(done + u)
  }

  lemma DecodeStep(done: seq<nat>, s: seq<Byte>, p: nat)
    requires p < |s| && s[|s| - 1] == 0
    ensures CharBytes(s, p) < 0 ==> DecodeFrom(s, p) == None
    ensures CharBytes(s, p) > 0 && CharValue(s, p) == 0 ==>
              DecodeFrom(s, p) == Some([]) && Behind(done, Some([])) == Some(done)
    ensures CharBytes(s, p) > 0 && CharValue(s, p) > 0 ==>
              && p + CharBytes(s, p) < |s|
              && Behind(done, DecodeFrom(s, p)) == Behind(done + [CharValue(s, p)], DecodeFrom(s, p + CharBytes(s, p)))
    ensures Behind([], DecodeFrom(s, p)) == DecodeFrom(s, p)
  {
    hide CharBytes, CharValue;
    MoreThereIf(s, p);
    assert done + [] == done;
    if CharBytes(s, p) > 0 && CharValue(s, p) > 0 && DecodeFrom(s, p + CharBytes(s, p)).Some? {
      var u := DecodeFrom(s, p + CharBytes(s, p)).value;
      assert done + ([CharValue(s, p)] + u) == done + [CharValue(s, p)] + u;
    }
    if DecodeFrom(s, p).Some? {
      assert [] + DecodeFrom(s, p).value == DecodeFrom(s, p).value;
    }
  }

  lemma MoreThereIf(s: seq<Byte>, p: nat)
    requires p < |s| && s[|s| - 1] == 0
    ensures CharBytes(s, p) > 0 && CharValue(s, p) != 0 ==> p + CharBytes(s, p) < |s|
  {
  }

  /** utf8_to_ucs4_string: the count does not depend on the buffer, which gets as much as it holds. */
  method Utf8ToUcs4String(utf8: Option<seq<Byte>>, ucs4buf: array?<nat>, buflen: int) returns (count: int)
    requires utf8.Some? ==> utf8.value != [] && utf8.value[|utf8.value| - 1] == 0
    requires ucs4buf != null ==> buflen <= ucs4buf.Length
    modifies if ucs4buf == null then {} else {ucs4buf}
    ensures utf8.None? ==> count == -1
    ensures utf8.Some? ==>
              var d := DecodeFrom(utf8.value, 0);
              count == Count(d) && (d.Some? && ucs4buf != null ==> Holds(ucs4buf[..], buflen, d.value))
  {
    if utf8.None? {
      return -1;
    }
    hide CharBytes, CharValue, DecodeFrom;
    var s := utf8.value;
    DecodeStep([], s, 0);
    var p: nat := 0;
    ghost var done: seq<nat> := [];
    count := 0;
    while true
      invariant p < |s| && count == |done|
      invariant DecodeFrom(s, 0) == Behind(done, DecodeFrom(s, p))
      invariant ucs4buf != null ==> forall i :: 0 <= i < count && i < buflen ==> ucs4buf[i] == done[i]
      decreases |s| - p
    {
      var ch, next := Ucs4CharFromUtf8(s, p);
      if ch == -1 {
        DecodeStep(done, s, p);
        return -1;
      }
      MoreThere(s, p);
      DecodeStep(done, s, p);
      if ucs4buf != null && count < buflen {
        ucs4buf[count] := ch;
      }
      if ch == 0 {
        return count;
      }
      done := done + [ch];
      p := next;
      count := count + 1;
    }
  }

  /** The characters before the terminator. */
  function UntilZero(u: seq<nat>): (r: seq<nat>)
    ensures r <= u
    ensures 0 in u ==> |r| < |u| && u[|r|] == 0
    ensures 0 !in r
  {
    if u == [] || u[0] == 0 then [] else [u[0]] + UntilZero(u[1..])
  }

  lemma {:induction false} EncodeMore(u: seq<nat>, c: nat)
    requires Encodable(u) && c <= MAX
    ensures Encodable(u + [c]) && EncodeString(u + [c]) == EncodeString(u) + EncodeChar(c)
  {
    hide EncodeChar;
    if u != [] {
      assert (u + [c])[1..] == u[1..] + [c];
      EncodeMore(u[1..], c);
    } else {
      assert u + [c] == [c] && EncodeString([]) == [];
    }
  }

  /** ucs4_string_to_utf8, likewise; -1 exactly when some character has no UTF-8 form. */
  method Ucs4StringToUtf8(ucs4: Option<seq<nat>>, utf8buf: array?<Byte>, buflen: int) returns (count: int)
    requires ucs4.Some? ==> 0 in ucs4.value
    requires utf8buf != null ==> buflen <= utf8buf.Length
    modifies if utf8buf == null then {} else {utf8buf}
    ensures ucs4.None? ==> count == -1
    ensures ucs4.Some? ==>
              var u := UntilZero(ucs4.value);
              if !Encodable(u) then count == -1
              else count == |EncodeString(u)| && (utf8buf != null ==> Holds(utf8buf[..], buflen, EncodeString(u)))
  {
    hide EncodeChar, EncodeString, Encodable, Holds, Begun;
    if ucs4.None? {
      return -1;
    }
    ghost var u := UntilZero(ucs4.value);
    BeforeZero(ucs4.value);
    hide UntilZero;
    var mb, i: nat := new Byte[6], 0;
    ghost var done: seq<Byte> := [];
    EncodeNothing();
    if utf8buf != null {
      NothingBegun(utf8buf[..], buflen);
    }
    count := 0;
    while true
      invariant i <= |u| < |ucs4.value| && Encodable(u[..i]) && done == EncodeString(u[..i]) && count == |done|
      invariant utf8buf != null ==> Begun(utf8buf[..], buflen, done)
      decreases |u| - i
    {
      var ch := ucs4.value[i];
      var mbl := Utf8FromUcs4Char(mb, ch);
      if mbl <= 0 {
        NotEncodable(u, i);
        return -1;
      }
      OneByte(ch);
      if utf8buf != null {
        Store(utf8buf, buflen, count, mb, mbl, done);
      }
      if mbl == 1 && mb[0] == 0 {
        assert u[..i] == u;
        if utf8buf != null {
          assert mb[..mbl] == [0];
          HoldsAll(utf8buf[..], buflen, done, done + mb[..mbl]);
        }
        return count;
      }
      OneCharMore(u, i);
      done := done + EncodeChar(ch);
      i := i + 1;
      count := count + mbl;
    }
  }

  lemma BeforeZero(s: seq<nat>)
    requires 0 in s
    ensures var u := UntilZero(s); |u| < |s| && s[|u|] == 0 && 0 !in u && forall i :: 0 <= i < |u| ==> u[i] == s[i]
  {
  }

  lemma OneCharMore(u: seq<nat>, i: nat)
    requires i < |u| && u[i] <= MAX && Encodable(u[..i])
    ensures Encodable(u[..i + 1]) && EncodeString(u[..i + 1]) == EncodeString(u[..i]) + EncodeChar(u[i])
  {
    hide EncodeChar, EncodeString;
    assert u[..i + 1] == u[..i] + [u[i]];
    EncodeMore(u[..i], u[i]);
  }

  lemma NotEncodable(u: seq<nat>, i: nat)
    requires i < |u| && u[i] > MAX
    ensures !Encodable(u)
  {
  }

  /** A buffer of n places begins with done, as far as it goes. */
  ghost predicate Begun(buf: seq<nat>, n: int, done: seq<nat>) {
    n <= |buf| && forall i :: 0 <= i < |done| && i < n ==> buf[i] == done[i]
  }

  lemma HoldsAll(buf: seq<nat>, n: int, u: seq<nat>, all: seq<nat>)
    requires Begun(buf, n, all) && all == u + [0]
    ensures Holds(buf, n, u)
  {
  }

  lemma NothingBegun(buf: seq<nat>, n: int)
    requires n <= |buf|
    ensures Begun(buf, n, [])
  {
  }

  lemma EncodeNothing()
    ensures Encodable([]) && EncodeString([]) == []
  {
  }

  lemma OneByte(ch: nat)
    requires ch <= MAX
    ensures |EncodeChar(ch)| == 1 && EncodeChar(ch)[0] == 0 <==> ch == 0
  {
  }

  /** As much of a character as there is room for. */
  method Store(buf: array<Byte>, buflen: int, count: nat, mb: array<Byte>, mbl: nat, ghost done: seq<Byte>)
    requires buf != mb && mbl <= mb.Length && |done| == count && Begun(buf[..], buflen, done)
    modifies buf
    ensures Begun(buf[..], buflen, done + mb[..mbl])
  {
    if count < buflen {
      var c := buflen - count;
      if mbl < c {
        c := mbl;
      }
      StrNCpy(buf, count, mb, c);
    }
  }

  /** strncpy of c bytes, none of which but the last is zero. */
  method StrNCpy(dst: array<Byte>, from: nat, src: array<Byte>, c: nat)
    requires dst != src && from + c <= dst.Length && c <= src.Length
    modifies dst
    ensures forall j :: 0 <= j < dst.Length ==>
              dst[j] == if from <= j < from + c then src[j - from] else old(dst[j])
  {
    for k := 0 to c
      invariant forall j :: 0 <= j < dst.Length ==>
                  dst[j] == if from <= j < from + k then src[j - from] else old(dst[j])
    {
      dst[from + k] := src[k];
    }
  }

  /** There and back: the first converter told the size, the second the string. */
  method ThereAndBack(u: seq<nat>) returns (back: array<nat>, count: int)
    requires Encodable(u) && 0 !in u
    ensures count == |u| && back.Length == |u| + 1 && back[..|u|] == u && back[|u|] == 0
  {
    UntilEnd(u);
    var size: nat := Ucs4StringToUtf8(Some(u + [0]), null, 0);
    var utf8 := new Byte[size + 1];
    var _ := Ucs4StringToUtf8(Some(u + [0]), utf8, size + 1);
    assert utf8[..] == EncodeString(u) + [0];
    StringBack(u, utf8[..], 0);
    count := Utf8ToUcs4String(Some(utf8[..]), null, 0);
    back := new nat[count + 1];
    count := Utf8ToUcs4String(Some(utf8[..]), back, count + 1);
  }

  lemma UntilEnd(u: seq<nat>)
    requires 0 !in u
    ensures UntilZero(u + [0]) == u
  {
  }
}
