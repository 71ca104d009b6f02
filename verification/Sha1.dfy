/** SHA-1 of mongoose_boj/mongoose/mongoose.c: the compression with its circular word schedule and its
    renamed registers, the streaming update, and the padding. The reference is FIPS 180-4. */
module Sha1 {
  import opened Division

  type Byte = bv8
  type Word = bv32

  datatype State = State(a: Word, b: Word, c: Word, d: Word, e: Word)

  const Initial := State(0x67452301, 0xEFCDAB89, 0x98BADCFE, 0x10325476, 0xC3D2E1F0)

  function Rol(x: Word, n: bv6): Word
    requires n < 32
  {
    (x << n) | (x >> (32 - n))
  }

  // ---------- the reference: sections 4.1.1, 4.2.1, 5.1.1 and 6.1.2 of FIPS 180-4

  function F(t: nat, x: Word, y: Word, z: Word): Word {
    if t < 20 then (x & y) ^ (!x & z)
    else if t < 40 then x ^ y ^ z
    else if t < 60 then (x & y) ^ (x & z) ^ (y & z)
    else x ^ y ^ z
  }

  function K(t: nat): Word {
    if t < 20 then 0x5A827999 else if t < 40 then 0x6ED9EBA1 else if t < 60 then 0x8F1BBCDC else 0xCA62C1D6
  }

  function BigEndian(b0: Byte, b1: Byte, b2: Byte, b3: Byte): Word {
    ((b0 as Word) << 24) | ((b1 as Word) << 16) | ((b2 as Word) << 8) | (b3 as Word)
  }

  function Expanded(w3: Word, w8: Word, w14: Word, w16: Word): Word { Rol(w3 ^ w8 ^ w14 ^ w16, 1) }

  function W(block: seq<Byte>, t: nat): Word
    requires |block| == 64
  {
    if t < 16 then BigEndian(block[4 * t], block[4 * t + 1], block[4 * t + 2], block[4 * t + 3])
    else Expanded(W(block, t - 3), W(block, t - 8), W(block, t - 14), W(block, t - 16))
  }

  function Sum5(a: Word, f: Word, e: Word, k: Word, w: Word): Word { a + f + e + k + w }

  function Round(s: State, t: nat, w: Word): State {
    State(Sum5(Rol(s.a, 5), F(t, s.b, s.c, s.d), s.e, K(t), w), s.a, Rol(s.b, 30), s.c, s.d)
  }

  function Rounds(s: State, block: seq<Byte>, t: nat): State
    requires |block| == 64
  {
    if t == 0 then s else Round(Rounds(s, block, t - 1), t - 1, W(block, t - 1))
  }

  function Added(s: State, r: State): State {
    State(s.a + r.a, s.b + r.b, s.c + r.c, s.d + r.d, s.e + r.e)
  }

  function Compress(s: State, block: seq<Byte>): State
    requires |block| == 64
  {
    Added(s, Rounds(s, block, 80))
  }

  /** The state after all whole blocks of m. */
  function Fold(s: State, m: seq<Byte>): State
    decreases |m|
  {
    if |m| < 64 then s else Fold(Compress(s, m[..64]), m[64..])
  }

  function Zeros(n: nat): (z: seq<Byte>)
    ensures |z| == n
  {
    seq(n, _ => 0)
  }

  function Low(x: nat): Byte { (x % 256) as Byte }

  /** The n low bytes of a number, high byte first. */
  function BytesOf(x: nat, n: nat): (r: seq<Byte>)
    ensures |r| == n
  {
    if n == 0 then [] else BytesOf(x / 256, n - 1) + [Low(x)]
  }

  /** 256 to the n. */
  function Power(n: nat): (p: nat)
    ensures p > 0
  {
    if n == 0 then 1 else 256 * Power(n - 1)
  }

  function Padded(m: seq<Byte>): seq<Byte> {
    m + [0x80] + Zeros((55 - |m|) % 64) + BytesOf(8 * |m| % (M32 * M32), 8)
  }

  function Digest(s: State): seq<Byte> {
    WordBytes(s.a) + WordBytes(s.b) + WordBytes(s.c) + WordBytes(s.d) + WordBytes(s.e)
  }

  function WordBytes(w: Word): seq<Byte> {
    [((w >> 24) & 255) as Byte, ((w >> 16) & 255) as Byte, ((w >> 8) & 255) as Byte, (w & 255) as Byte]
  }

  function Hash(m: seq<Byte>): seq<Byte> { Digest(Fold(Initial, Padded(m))) }

  function Concat(chunks: seq<seq<Byte>>): seq<Byte> {
    if chunks == [] then [] else Concat(chunks[..|chunks| - 1]) + chunks[|chunks| - 1]
  }

  // ---------- the compression

  function LittleEndian(b0: Byte, b1: Byte, b2: Byte, b3: Byte): Word {
    ((b3 as Word) << 24) | ((b2 as Word) << 16) | ((b1 as Word) << 8) | (b0 as Word)
  }

  /** blk0: the byte swap of a word loaded on a little-endian machine. */
  function Swapped(x: Word): Word { (Rol(x, 24) & 0xFF00FF00) | (Rol(x, 8) & 0x00FF00FF) }

  lemma SwapIsBigEndian(b0: Byte, b1: Byte, b2: Byte, b3: Byte)
    ensures Swapped(LittleEndian(b0, b1, b2, b3)) == BigEndian(b0, b1, b2, b3)
  {
  }

  /** The Boolean functions as the round macros compute them. */
  function Mix(t: nat, w: Word, x: Word, y: Word): Word {
    if t < 20 then (w & (x ^ y)) ^ y
    else if t < 40 then w ^ x ^ y
    else if t < 60 then ((w | x) & y) | (w & x)
    else w ^ x ^ y
  }

  lemma MixIsF(t: nat, w: Word, x: Word, y: Word)
    ensures Mix(t, w, x, y) == F(t, w, x, y)
  {
    Choose(w, x, y);
    Majority(w, x, y);
  }

  lemma Choose(w: Word, x: Word, y: Word)
    ensures (w & (x ^ y)) ^ y == (w & x) ^ (!w & y)
  {
  }

  lemma Majority(w: Word, x: Word, y: Word)
    ensures ((w | x) & y) | (w & x) == (w & x) ^ (w & y) ^ (x & y)
  {
  }

  /** The schedule words that a circular buffer of sixteen still holds when round i begins. */
  ghost predicate Scheduled(l: seq<Word>, block: seq<Byte>, i: nat)
    requires |l| == 16 && |block| == 64
  {
    && (forall k :: i <= k < 16 ==>
          l[k] == LittleEndian(block[4 * k], block[4 * k + 1], block[4 * k + 2], block[4 * k + 3]))
    && (forall k :: 0 <= k < 16 && k < i ==> l[k] == W(block, Latest(i, k)))
  }

  /** The last round before i whose word lies at place k. */
  function Latest(i: nat, k: nat): (t: nat)
    requires k < 16 && k < i
    ensures t < i && t % 16 == k && i <= t + 16
  {
    k + (i - 1 - k) / 16 * 16
  }

  /** Where the register called a, b, c, d or e (k from 0 to 4) lies in round i. */
  function At(k: int, i: nat): (p: nat)
    ensures p < 5
  {
    (k - i) % 5
  }

  lemma Turned(i: nat)
    ensures At(0, i + 1) == At(4, i) && At(1, i + 1) == At(0, i) && At(2, i + 1) == At(1, i)
    ensures At(3, i + 1) == At(2, i) && At(4, i + 1) == At(3, i)
    ensures At(4, i) != At(0, i) && At(4, i) != At(1, i) && At(4, i) != At(2, i) && At(4, i) != At(3, i)
    ensures At(1, i) != At(0, i) && At(1, i) != At(2, i) && At(1, i) != At(3, i)
  {
    Shifted(0 - (i + 1), 5, 1);
    ResiduesDiffer(4 - i, 0 - i, 5);
    ResiduesDiffer(4 - i, 1 - i, 5);
    ResiduesDiffer(4 - i, 2 - i, 5);
    ResiduesDiffer(4 - i, 3 - i, 5);
    ResiduesDiffer(1 - i, 0 - i, 5);
    ResiduesDiffer(1 - i, 2 - i, 5);
    ResiduesDiffer(1 - i, 3 - i, 5);
  }

  /** The registers under the names they have in round i. */
  function Named(r: seq<Word>, i: nat): State
    requires |r| == 5
  {
    State(r[At(0, i)], r[At(1, i)], r[At(2, i)], r[At(3, i)], r[At(4, i)])
  }

  method Load(block: seq<Byte>, l: array<Word>)
    requires |block| == 64 && l.Length == 16
    modifies l
    ensures Scheduled(l[..], block, 0)
  {
    hide LittleEndian;
    for k := 0 to 16
      invariant forall j :: 0 <= j < k ==>
                  l[j] == LittleEndian(block[4 * j], block[4 * j + 1], block[4 * j + 2], block[4 * j + 3])
    {
      l[k] := LittleEndian(block[4 * k], block[4 * k + 1], block[4 * k + 2], block[4 * k + 3]);
    }
  }

  lemma LatestIs(i: nat, k: nat, t: nat)
    requires k < 16 && t < i <= t + 16 && t % 16 == k
    ensures Latest(i, k) == t
  {
    var q := t / 16;
    Quotient(i - 1 - k, 16, q, i - 1 - t);
  }

  /** The word of some rounds back is still there. */
  lemma WordBack(l: seq<Word>, block: seq<Byte>, i: nat, back: nat)
    requires |l| == 16 && |block| == 64 && 1 <= back <= 16 <= i && Scheduled(l, block, i)
    ensures l[(i + 16 - back) % 16] == W(block, i - back)
  {
    Shifted(i - back, 16, 1);
    LatestIs(i, (i + 16 - back) % 16, i - back);
    hide W, LittleEndian, Latest;
  }

  lemma RawWord(l: seq<Word>, block: seq<Byte>, i: nat)
    requires |l| == 16 && |block| == 64 && i < 16 && Scheduled(l, block, i)
    ensures Swapped(l[i]) == W(block, i)
  {
    SwapIsBigEndian(block[4 * i], block[4 * i + 1], block[4 * i + 2], block[4 * i + 3]);
    hide Swapped, LittleEndian, BigEndian;
  }

  lemma WordStored(was: seq<Word>, block: seq<Byte>, i: nat)
    requires |was| == 16 && |block| == 64 && Scheduled(was, block, i)
    ensures Scheduled(was[i % 16 := W(block, i)], block, i + 1)
  {
    hide W, LittleEndian, Latest;
    var at := i % 16;
    if i < 16 {
      Quotient(i, 16, 0, i);
    }
    forall k: nat | k < 16 && k < i + 1
      ensures k == at ==> Latest(i + 1, k) == i
      ensures k != at ==> k < i && Latest(i + 1, k) == Latest(i, k)
    {
      if k == at {
        LatestIs(i + 1, k, i);
      } else {
        StillThere(i, k);
      }
    }
    WordStoredAt(was, block, i, at);
  }

  lemma WordStoredAt(was: seq<Word>, block: seq<Byte>, i: nat, at: nat)
    requires |was| == 16 && |block| == 64 && at < 16 && Scheduled(was, block, i) && (i < 16 ==> at == i)
    requires forall k: nat :: k < 16 && k < i + 1 ==>
               if k == at then Latest(i + 1, k) == i else k < i && Latest(i + 1, k) == Latest(i, k)
    ensures Scheduled(was[at := W(block, i)], block, i + 1)
  {
    hide W, LittleEndian, Latest;
  }

  lemma StillThere(i: nat, k: nat)
    requires k < 16 && k < i + 1 && k != i % 16
    ensures k < i && Latest(i + 1, k) == Latest(i, k)
  {
    if k == i {
      Quotient(i, 16, 0, i);
    }
    var t := Latest(i, k);
    if t + 16 == i {
      Shifted(t, 16, 1);
    }
    LatestIs(i + 1, k, t);
  }

  lemma ExpandedWord(block: seq<Byte>, i: nat)
    requires |block| == 64 && i >= 16
    ensures W(block, i) == Expanded(W(block, i - 3), W(block, i - 8), W(block, i - 14), W(block, i - 16))
  {
    hide Expanded;
  }

  /** blk0 and blk: the word of round i, stored over the word of round i - 16. */
  method NextWord(ghost block: seq<Byte>, l: array<Word>, i: nat) returns (w: Word)
    requires |block| == 64 && l.Length == 16 && Scheduled(l[..], block, i)
    modifies l
    ensures w == W(block, i) && Scheduled(l[..], block, i + 1)
  {
    hide Expanded, Swapped, W, Scheduled;
    ghost var was := l[..];
    var at := i % 16;
    WordStored(was, block, i);
    if i < 16 {
      RawWord(was, block, i);
      Quotient(i, 16, 0, i);
      w := Swapped(l[i]);
    } else {
      WordBack(was, block, i, 3);
      WordBack(was, block, i, 8);
      WordBack(was, block, i, 14);
      WordBack(was, block, i, 16);
      ExpandedWord(block, i);
      w := Expanded(l[(i + 13) % 16], l[(i + 8) % 16], l[(i + 2) % 16], l[at]);
    }
    l[at] := w;
    assert l[..] == was[at := w];
  }

  /** z += f + w + k + a */
  function Summed(z: Word, f: Word, w: Word, k: Word, a: Word): Word { z + (f + w + k + a) }

  /** One round macro: two registers are rewritten, none moves. */
  method Step(r: array<Word>, i: nat, word: Word)
    requires r.Length == 5
    modifies r
    ensures Named(r[..], i + 1) == Round(Named(old(r[..]), i), i, word)
  {
    ghost var s := Named(r[..], i);
    MixIsF(i, s.b, s.c, s.d);
    hide Mix, F, Rol, K, At, Sum5, Summed;
    Turned(i);
    var v, w, x, y, z := At(0, i), At(1, i), At(2, i), At(3, i), At(4, i);
    SumOrder(Rol(s.a, 5), F(i, s.b, s.c, s.d), s.e, K(i), word);
    r[z] := Summed(r[z], Mix(i, r[w], r[x], r[y]), word, K(i), Rol(r[v], 5));
    r[w] := Rol(r[w], 30);
  }

  lemma SumOrder(a: Word, f: Word, e: Word, k: Word, w: Word)
    ensures Summed(e, f, w, k, a) == Sum5(a, f, e, k, w)
  {
  }

  lemma NamedAtEnds(r: seq<Word>)
    requires |r| == 5
    ensures Named(r, 0) == Named(r, 80) == State(r[0], r[1], r[2], r[3], r[4])
  {
  }

  /** mg_sha1_transform computes the compression of the standard. */
  method Transform(state: State, block: seq<Byte>) returns (next: State)
    requires |block| == 64
    ensures next == Compress(state, block)
  {
    var l, r := new Word[16], new Word[5];
    Load(block, l);
    r[0], r[1], r[2], r[3], r[4] := state.a, state.b, state.c, state.d, state.e;
    AllRounds(l, r, block);
    hide *;
    next := Compressed(r, state, block);
  }

  method AllRounds(l: array<Word>, r: array<Word>, ghost block: seq<Byte>)
    requires l != r && l.Length == 16 && r.Length == 5 && |block| == 64 && Scheduled(l[..], block, 0)
    modifies l, r
    ensures State(r[0], r[1], r[2], r[3], r[4])
            == Rounds(old(State(r[0], r[1], r[2], r[3], r[4])), block, 80)
  {
    hide W, Round, Scheduled, Named;
    NamedAtEnds(r[..]);
    ghost var first := Named(r[..], 0);
    for i := 0 to 80
      invariant Scheduled(l[..], block, i)
      invariant Named(r[..], i) == Rounds(first, block, i)
    {
      var w := NextWord(block, l, i);
      Step(r, i, w);
    }
    NamedAtEnds(r[..]);
  }

  method Compressed(r: array<Word>, state: State, ghost block: seq<Byte>) returns (next: State)
    requires r.Length == 5 && |block| == 64
    requires State(r[0], r[1], r[2], r[3], r[4]) == Rounds(state, block, 80)
    ensures next == Compress(state, block)
  {
    hide Rounds;
    next := Added(state, State(r[0], r[1], r[2], r[3], r[4]));
  }

  // ---------- folding over blocks

  lemma {:induction false} FoldConcat(s: State, m: seq<Byte>, n: seq<Byte>)
    requires |m| % 64 == 0
    ensures Fold(s, m + n) == Fold(Fold(s, m), n)
    decreases |m|
  {
    hide Compress;
    if m == [] {
      assert m + n == n;
    } else {
      assert (m + n)[..64] == m[..64] && (m + n)[64..] == m[64..] + n;
      FoldConcat(Compress(s, m[..64]), m[64..], n);
    }
  }

  function Whole(n: nat): (w: nat)
    ensures w <= n && w % 64 == 0 && n - w == n % 64
  {
    n / 64 * 64
  }

  lemma SameWhole(n: nat, w: nat)
    requires w % 64 == 0 && w <= n < w + 64
    ensures Whole(n) == w && n % 64 == n - w
  {
  }

  lemma FoldWhole(s: State, m: seq<Byte>)
    ensures Fold(s, m) == Fold(s, m[..Whole(|m|)])
  {
    FoldConcat(s, m[..Whole(|m|)], m[Whole(|m|)..]);
    assert m[..Whole(|m|)] + m[Whole(|m|)..] == m;
  }

  /** One more block after whole blocks. */
  lemma FoldBlock(m: seq<Byte>, n: seq<Byte>, block: seq<Byte>)
    requires |m| % 64 == 0 && |block| == 64 && n == m + block
    ensures Fold(Initial, n) == Compress(Fold(Initial, m), block)
  {
    hide Compress;
    FoldConcat(Initial, m, block);
    assert block[..64] == block && block[64..] == [];
  }

  // ---------- the bit counter

  const M32 := 0x1_0000_0000

  /** The two count words after n bytes. */
  ghost predicate Counts(low: nat, high: nat, n: nat) {
    low < M32 && high < M32 && low + M32 * high == 8 * n % (M32 * M32)
  }

  lemma CountsSplit(low: nat, high: nat, n: nat)
    ensures Counts(low, high, n) <==> low == 8 * n % M32 && high == 8 * n / M32 % M32
  {
    DivMod(8 * n);
  }

  lemma DivMod(b: nat)
    ensures b % (M32 * M32) == b % M32 + M32 * (b / M32 % M32)
  {
    var q := b / M32;
    Quotient(b, M32 * M32, q / M32, M32 * (q % M32) + b % M32);
  }

  /** The low word, its carry, and the high part of the length. */
  lemma CountUp(low: nat, high: nat, n: nat, len: nat)
    requires Counts(low, high, n)
    ensures var low' := (low + len * 8 % M32) % M32;
            var carry := if low' < low then 1 else 0;
            Counts(low', ((high + carry) % M32 + (len / 0x2000_0000) % M32) % M32, n + len)
  {
    var low' := (low + len * 8 % M32) % M32;
    var carry: nat := if low' < low then 1 else 0;
    var high' := ((high + carry) % M32 + (len / 0x2000_0000) % M32) % M32;
    CountsSplit(low, high, n);
    EightTimes(len);
    AddLow(8 * n, 8 * len);
    AddHigh(8 * n / M32, carry, 8 * len / M32);
    CountsSplit(low', high', n + len);
  }

  lemma EightTimes(len: nat)
    ensures 8 * len / M32 == len / 0x2000_0000
  {
    Quotient(8 * len, M32, len / 0x2000_0000, 8 * (len % 0x2000_0000));
  }

  /** The sum of two low words, with the carry that shows in its being less than one of them. */
  lemma AddLow(c: nat, d: nat)
    ensures var low := (c % M32 + d % M32) % M32;
            var carry := if low < c % M32 then 1 else 0;
            (c + d) % M32 == low && (c + d) / M32 == c / M32 + carry + d / M32
  {
    var s := c % M32 + d % M32;
    if s < M32 {
      Quotient(s, M32, 0, s);
      Quotient(c + d, M32, c / M32 + d / M32, s);
    } else {
      Quotient(s, M32, 1, s - M32);
      Quotient(c + d, M32, c / M32 + 1 + d / M32, s - M32);
    }
  }

  lemma AddHigh(a: nat, carry: nat, c: nat)
    ensures ((a % M32 + carry) % M32 + c % M32) % M32 == (a + carry + c) % M32
  {
    ReducedFirst(a, carry, M32);
    ReducedFirst(c, (a + carry) % M32, M32);
    ReducedFirst(a + carry, c, M32);
  }

  lemma Eighth(n: nat)
    ensures 8 * n % M32 / 8 % 64 == n % 64
  {
    var q, r := n / 0x2000_0000, n % 0x2000_0000;
    Quotient(8 * n, M32, q, 8 * r);
    Quotient(8 * r, 8, r, 0);
    Shifted(r, 64, 0x80_0000 * q);
  }

  lemma Place(low: nat, high: nat, n: nat)
    requires Counts(low, high, n)
    ensures low / 8 % 64 == n % 64
  {
    CountsSplit(low, high, n);
    Eighth(n);
  }

  // ---------- the context

  /** The buffered rest of a and the head of d are the next block of a + d. */
  lemma FirstBlock(buffer: seq<Byte>, a: seq<Byte>, d: seq<Byte>, w: nat)
    requires |buffer| == 64 && w <= |a| < w + 64 <= |a| + |d| && w == Whole(|a|)
    requires buffer == a[w..] + d[..w + 64 - |a|]
    ensures Fold(Initial, (a + d)[..w + 64]) == Compress(Fold(Initial, a), buffer)
  {
    hide Fold, Compress;
    FoldWhole(Initial, a);
    Spliced(a, d, w, w + 64);
    FoldBlock(a[..w], (a + d)[..w + 64], buffer);
  }

  lemma Spliced<T>(a: seq<T>, d: seq<T>, from: nat, to: nat)
    requires from <= |a| <= to <= |a| + |d|
    ensures (a + d)[..to] == a[..from] + (a[from..] + d[..to - |a|])
    ensures (a + d)[|a|..] == d && (a + d)[to..] == d[to - |a|..]
    ensures (a + d)[from..] == a[from..] + d && (a + d)[..from] == a[..from]
  {
  }

  class Context {
    var state: State
    var low: nat                // count[0]
    var high: nat               // count[1]
    const buffer: array<Byte>
    ghost var absorbed: seq<Byte>

    ghost predicate Valid()
      reads this, buffer
    {
      && buffer.Length == 64
      && Counts(low, high, |absorbed|)
      && state == Fold(Initial, absorbed)
      && buffer[..|absorbed| % 64] == absorbed[Whole(|absorbed|)..]
    }

    /** mg_sha1_init */
    constructor ()
      ensures Valid() && absorbed == [] && fresh(buffer)
    {
      buffer := new Byte[64];
      state, low, high := Initial, 0, 0;
      absorbed := [];
    }

    /** memcpy(&buffer[j], &data[i], n) */
    method CopyIn(j: nat, data: seq<Byte>, i: nat, n: nat)
      requires j + n <= buffer.Length && i + n <= |data|
      modifies buffer
      ensures buffer[..] == old(buffer[..j]) + data[i..i + n] + old(buffer[j + n..])
      ensures buffer[..j + n] == old(buffer[..j]) + data[i..i + n]
    {
      for k := 0 to n
        invariant forall m :: 0 <= m < j ==> buffer[m] == old(buffer[m])
        invariant forall m :: j <= m < j + k ==> buffer[m] == data[i + (m - j)]
        invariant forall m :: j + k <= m < buffer.Length ==> buffer[m] == old(buffer[m])
      {
        buffer[j + k] := data[i + k];
      }
      assert buffer[j..j + n] == data[i..i + n];
      Three(buffer[..], j, j + n);
    }

    lemma Three<T>(s: seq<T>, a: nat, b: nat)
      requires a <= b <= |s|
      ensures s == s[..a] + s[a..b] + s[b..] && s[..b] == s[..a] + s[a..b]
    {
    }

    method AddLength(len: nat)
      requires Counts(low, high, |absorbed|)
      modifies this`low, this`high
      ensures Counts(low, high, |absorbed| + len)
    {
      hide Counts;
      CountUp(low, high, |absorbed|, len);
      NoCarry(low, high, |absorbed|);
      var j := low;
      low := (low + len * 8 % M32) % M32;
      if low < j {
        high := (high + 1) % M32;
      }
      ghost var carry := if low < j then 1 else 0;
      assert high == (old(high) + carry) % M32;
      high := (high + len / 0x2000_0000 % M32) % M32;
    }

    lemma NoCarry(low: nat, high: nat, n: nat)
      requires Counts(low, high, n)
      ensures high == (high + 0) % M32
    {
    }

    /** mg_sha1_update appends the data to what has been absorbed, however it lies to the blocks. */
    method Update(data: seq<Byte>)
      requires Valid()
      modifies this, buffer
      ensures Valid() && absorbed == old(absorbed) + data
    {
      hide Fold, Compress, Counts, Whole;
      Place(low, high, |absorbed|);
      var j: nat := low / 8 % 64;
      AddLength(|data|);
      ghost var w := Take(data, j, absorbed, Whole(|absorbed|));
      absorbed := absorbed + data;
      SameWhole(|absorbed|, w);
      FoldWhole(Initial, absorbed);
    }

    method Take(data: seq<Byte>, j: nat, ghost was: seq<Byte>, ghost w: nat) returns (ghost done: nat)
      requires buffer.Length == 64 && j == |was| % 64 && w == Whole(|was|)
      requires state == Fold(Initial, was) && buffer[..j] == was[w..]
      modifies this`state, buffer
      ensures done % 64 == 0 && done <= |was + data| < done + 64
      ensures state == Fold(Initial, (was + data)[..done])
      ensures buffer[..|was + data| - done] == (was + data)[done..]
    {
      if j + |data| > 63 {
        done := TakeBlocks(data, j, was, w);
      } else {
        hide Fold, Compress, Whole;
        FoldWhole(Initial, was);
        Spliced(was, data, w, |was + data|);
        CopyIn(j, data, 0, |data|);
        done := w;
      }
    }

    method TakeBlocks(data: seq<Byte>, j: nat, ghost was: seq<Byte>, ghost w: nat) returns (ghost done: nat)
      requires buffer.Length == 64 && j == |was| % 64 && w == Whole(|was|) && j + |data| > 63
      requires state == Fold(Initial, was) && buffer[..j] == was[w..]
      modifies this`state, buffer
      ensures done % 64 == 0 && done <= |was + data| < done + 64
      ensures state == Fold(Initial, (was + data)[..done])
      ensures buffer[..|was + data| - done] == (was + data)[done..]
    {
      hide Fold, Compress, Whole;
      Spliced(was, data, w, |was + data|);
      var i := Fill(j, data, was, w);
      i := Blocks(data, i, was + data, |was|);
      Spliced(was, data, w, |was| + i);
      CopyIn(0, data, i, |data| - i);
      done := |was| + i;
    }

    /** The block that the buffered bytes begin. */
    method Fill(j: nat, data: seq<Byte>, ghost was: seq<Byte>, ghost w: nat) returns (i: nat)
      requires buffer.Length == 64 && j < 64 <= j + |data|
      requires w == Whole(|was|) && |was| == w + j && buffer[..j] == was[w..] && state == Fold(Initial, was)
      modifies this`state, buffer
      ensures i == 64 - j && state == Fold(Initial, (was + data)[..w + 64])
    {
      hide Fold, Compress, Whole;
      i := 64 - j;
      CopyIn(j, data, 0, i);
      FirstBlock(buffer[..], was, data, w);
      state := Transform(state, buffer[..]);
    }

    /** The loop over the blocks that lie wholly in data, which begins n bytes into all. */
    method Blocks(data: seq<Byte>, i0: nat, ghost all: seq<Byte>, ghost n: nat) returns (i: nat)
      requires i0 <= |data| && (n + i0) % 64 == 0 && n <= |all| && all[n..] == data
      requires state == Fold(Initial, all[..n + i0])
      modifies this`state
      ensures i0 <= i <= |data| < i + 64 && (n + i) % 64 == 0
      ensures state == Fold(Initial, all[..n + i])
    {
      hide Fold, Compress;
      i := i0;
      while i + 63 < |data|
        invariant i0 <= i <= |data| && (n + i) % 64 == 0
        invariant state == Fold(Initial, all[..n + i])
      {
        NextBlock(all, n, data, i);
        state := Transform(state, data[i..i + 64]);
        i := i + 64;
      }
    }

    lemma NextBlock(all: seq<Byte>, n: nat, data: seq<Byte>, i: nat)
      requires n <= |all| && all[n..] == data && i + 64 <= |data| && (n + i) % 64 == 0
      ensures Fold(Initial, all[..n + (i + 64)]) == Compress(Fold(Initial, all[..n + i]), data[i..i + 64])
      ensures (n + (i + 64)) % 64 == 0
    {
      hide Fold, Compress;
      Shifted(n + i, 64, 1);
      Block(all, n, data, i);
      FoldBlock(all[..n + i], all[..n + (i + 64)], data[i..i + 64]);
    }

    lemma Block<T>(all: seq<T>, n: nat, data: seq<T>, i: nat)
      requires n <= |all| && all[n..] == data && i + 64 <= |data|
      ensures all[..n + (i + 64)] == all[..n + i] + data[i..i + 64]
    {
    }

    /** mg_sha1_final: the digest of everything absorbed; the context is erased. */
    method Final() returns (digest: seq<Byte>)
      requires Valid()
      modifies this, buffer
      ensures digest == Hash(old(absorbed))
      ensures state == State(0, 0, 0, 0, 0) && low == high == 0 && buffer[..] == Zeros(64)
    {
      hide Fold, Compress, Counts, BytesOf, Digest;
      ghost var m := absorbed;
      var finalcount := CountBytes();
      Update([0x80]);
      assert absorbed == m + [0x80] + Zeros(0);
      Pad(m);
      Update(finalcount);
      digest := Digest(state);
      state, low, high := State(0, 0, 0, 0, 0), 0, 0;
      forall i | 0 <= i < 64 {
        buffer[i] := 0;
      }
    }

    /** finalcount: the two count words, high byte first. */
    method CountBytes() returns (r: seq<Byte>)
      requires Counts(low, high, |absorbed|)
      ensures r == BytesOf(8 * |absorbed| % (M32 * M32), 8)
    {
      LengthByWords(low, high);
      hide BytesOf;
      r := CountByte(high) + CountByte(low);
    }

    /** The loop that brings the message to 8 bytes short of whole blocks. */
    method Pad(ghost m: seq<Byte>)
      requires Valid() && absorbed == m + [0x80] + Zeros(0)
      modifies this, buffer
      ensures Valid() && absorbed == m + [0x80] + Zeros((55 - |m|) % 64)
    {
      hide Fold, Compress, Counts, Whole, Zeros;
      ghost var k: nat, want := 0, (55 - |m|) % 64;
      Place(low, high, |absorbed|);
      while low / 8 % 64 != 56
        invariant Valid() && k <= want && absorbed == m + [0x80] + Zeros(k)
        invariant low / 8 % 64 == |absorbed| % 64
        decreases want - k
      {
        PadMore(|m|, k);
        OneZero(k);
        Update([0]);
        k := k + 1;
        Place(low, high, |absorbed|);
      }
      PadMore(|m|, k);
    }
  }

  lemma OneZero(k: nat)
    ensures Zeros(k) + [0] == Zeros(k + 1)
  {
  }

  lemma PadMore(n: nat, k: nat)
    requires k <= (55 - n) % 64
    ensures (n + 1 + k) % 64 == 56 <==> k == (55 - n) % 64
  {
    var want, q := (55 - n) % 64, (55 - n) / 64;
    Quotient(n + 1 + want, 64, -q, 56);
    if k != want {
      ResiduesDiffer(n + 1 + k, n + 1 + want, 64);
    }
  }

  function CountByte(word: nat): seq<Byte> {
    [Low(word / 0x100_0000), Low(word / 0x1_0000), Low(word / 0x100), Low(word)]
  }

  lemma CountByteIs(w: nat)
    requires w < M32
    ensures CountByte(w) == BytesOf(w, 4)
  {
    hide Low;
    var x, y, z := w / 256, w / 0x1_0000, w / 0x100_0000;
    assert x / 256 == y && y / 256 == z;
    assert BytesOf(z, 1) == [Low(z)] by {
      assert BytesOf(z / 256, 0) == [];
    }
    assert BytesOf(y, 2) == BytesOf(z, 1) + [Low(y)];
    assert BytesOf(x, 3) == BytesOf(y, 2) + [Low(x)];
  }

  lemma {:induction false} BytesSplit(low: nat, high: nat, k: nat, n: nat)
    requires low < Power(k)
    ensures BytesOf(low + Power(k) * high, k + n) == BytesOf(high, n) + BytesOf(low, k)
  {
    hide Low;
    if k > 0 {
      var p := Power(k - 1) * high;
      PowerUp(low, high, k);
      ByteSplit(low, p);
      BytesSplit(low / 256, high, k - 1, n);
      hide Power;
      BytesUp(low + 256 * p, k + n);
      BytesUp(low, k);
      assert (BytesOf(high, n) + BytesOf(low / 256, k - 1)) + [Low(low)]
          == BytesOf(high, n) + (BytesOf(low / 256, k - 1) + [Low(low)]);
    } else {
      NoBytes(low, high);
    }
  }

  lemma NoBytes(low: nat, high: nat)
    requires low < Power(0)
    ensures low + Power(0) * high == high && BytesOf(low, 0) == []
  {
  }

  lemma BytesUp(x: nat, n: nat)
    requires n > 0
    ensures BytesOf(x, n) == BytesOf(x / 256, n - 1) + [Low(x)]
  {
    hide Low;
  }

  lemma PowerUp(low: nat, high: nat, k: nat)
    requires k > 0 && low < Power(k)
    ensures Power(k) * high == 256 * (Power(k - 1) * high) && low / 256 < Power(k - 1)
  {
    var p := Power(k - 1);
    assert 256 * p * high == 256 * (p * high);
  }

  lemma ByteSplit(low: nat, p: nat)
    ensures (low + 256 * p) / 256 == low / 256 + p && Low(low + 256 * p) == Low(low)
  {
    Shifted(low, 256, p);
  }

  lemma LengthByWords(low: nat, high: nat)
    requires low < M32 && high < M32
    ensures BytesOf(low + M32 * high, 8) == CountByte(high) + CountByte(low)
  {
    assert Power(4) == M32 by {
      assert Power(1) == 256 && Power(2) == 0x1_0000 && Power(3) == 0x100_0000;
    }
    CountByteIs(low);
    CountByteIs(high);
    BytesSplit(low, high, 4, 4);
  }

  // ---------- the theorem

  /** Any cutting of the message into updates gives the digest of the standard. */
  method HashChunks(chunks: seq<seq<Byte>>) returns (digest: seq<Byte>)
    ensures digest == Hash(Concat(chunks))
  {
    hide Hash;
    var context := new Context();
    for i := 0 to |chunks|
      invariant context.Valid() && fresh(context) && fresh(context.buffer)
      invariant context.absorbed == Concat(chunks[..i])
    {
      assert chunks[..i + 1][..i] == chunks[..i];
      context.Update(chunks[i]);
    }
    assert chunks[..|chunks|] == chunks;
    digest := context.Final();
  }

  /** The padded message is whole blocks, and no shorter run of zeros would make it so. */
  lemma PaddedIsWhole(m: seq<Byte>, k: nat)
    ensures |Padded(m)| % 64 == 0 && m + [0x80] <= Padded(m)
    ensures (|m| + 1 + k + 8) % 64 == 0 ==> k >= (55 - |m|) % 64
  {
    hide BytesOf, Zeros;
    var n := |m|;
    PadWhole(n);
    if (n + 1 + k + 8) % 64 == 0 {
      PadLeast(n, k);
    }
  }

  lemma PadWhole(n: nat)
    ensures (n + 1 + (55 - n) % 64 + 8) % 64 == 0
  {
    var want, q := (55 - n) % 64, (55 - n) / 64;
    Quotient(n + 9 + want, 64, 1 - q, 0);
  }

  lemma PadLeast(n: nat, k: nat)
    requires (n + 1 + k + 8) % 64 == 0
    ensures k >= (55 - n) % 64
  {
    var j := (n + 1 + k + 8) / 64;
    Shifted(k, 64, 1 - j);
    assert 55 - n == k + 64 * (1 - j);
    Quotient(k, 64, k / 64, k % 64);
  }
}
