/** The CRC-32 of obj_zip/zip30/crc32.c and crc32.h (table made by loops, unrolled steps, four tables at
    a time) against the bit-by-bit one of mongoose_boj/mongoose/mongoose.c. */
module Crc {
  type Byte = bv8
  type Word = bv32

  const POLY: Word := 0xEDB8_8320

  // ---------- the operators

  function Xor(a: Word, b: Word): Word { a ^ b }

  function Not(a: Word): Word { !a }

  function Half(a: Word): Word { a >> 1 }

  function Odd(a: Word): bool { a & 1 == 1 }

  function Low(c: Word): (r: Word)
    ensures r < 256
  {
    c & 0xff
  }

  function High(c: Word): (r: Word)
    ensures r < 0x100_0000
  {
    c >> 8
  }

  function Up(c: Word): Word { c << 8 }

  function Wide(b: Byte): (r: Word)
    ensures r < 256
  {
    b as Word
  }

  lemma XorAssoc(a: Word, b: Word, c: Word)
    ensures Xor(a, Xor(b, c)) == Xor(Xor(a, b), c)
  {
  }

  lemma XorComm(a: Word, b: Word)
    ensures Xor(a, b) == Xor(b, a)
  {
  }

  lemma XorSelf(p: Word, a: Word)
    ensures Xor(p, p) == 0 && Xor(0, a) == a
  {
  }

  lemma XorCancel(p: Word, a: Word, b: Word)
    ensures Xor(Xor(p, a), Xor(p, b)) == Xor(a, b)
  {
    XorAssoc(Xor(p, a), p, b);
    XorComm(p, Xor(p, a));
    XorAssoc(p, p, a);
    XorSelf(p, a);
    hide Xor;
  }

  lemma NotNot(c: Word)
    ensures Not(Not(c)) == c && Not(c) == Xor(c, 0xFFFF_FFFF)
  {
  }

  lemma LowHigh(c: Word)
    ensures Xor(Low(c), Up(High(c))) == c
  {
  }

  // ---------- one bit, one byte

  function Bit(c: Word): Word { if Odd(c) then Xor(POLY, Half(c)) else Half(c) }

  function Bits(c: Word, n: nat): Word
    decreases n
  {
    if n == 0 then c else Bit(Bits(c, n - 1))
  }

  /** The register after a byte has been added and shifted out. */
  function Feed(c: Word, b: Byte): Word { Bits(Xor(c, Wide(b)), 8) }

  /** The register after all of s, bit by bit. */
  function Slow(c: Word, s: seq<Byte>): Word
    decreases |s|
  {
    if s == [] then c else Feed(Slow(c, s[..|s| - 1]), s[|s| - 1])
  }

  /** The CRC of s continued from a CRC of what came before. */
  function Crc32(crc: Word, s: seq<Byte>): Word { Not(Slow(Not(crc), s)) }

  lemma {:induction false} SlowConcat(c: Word, s: seq<Byte>, t: seq<Byte>)
    ensures Slow(c, s + t) == Slow(Slow(c, s), t)
    decreases |t|
  {
    hide Feed;
    if t == [] {
      assert s + t == s;
    } else {
      assert (s + t)[..|s + t| - 1] == s + t[..|t| - 1];
      SlowConcat(c, s, t[..|t| - 1]);
    }
  }

  /** The CRC of a concatenation is the CRC of the second part continued from that of the first. */
  lemma CrcConcat(crc: Word, s: seq<Byte>, t: seq<Byte>)
    ensures Crc32(crc, s + t) == Crc32(Crc32(crc, s), t)
  {
    SlowConcat(Not(crc), s, t);
    NotNot(Slow(Not(crc), s));
    hide Not, Slow;
  }

  // ---------- linearity

  lemma OddXor(a: Word, b: Word)
    ensures Odd(Xor(a, b)) <==> Odd(a) != Odd(b)
    ensures Half(Xor(a, b)) == Xor(Half(a), Half(b))
  {
  }

  lemma BitXor(a: Word, b: Word)
    ensures Bit(Xor(a, b)) == Xor(Bit(a), Bit(b))
  {
    OddXor(a, b);
    var ha, hb := Half(a), Half(b);
    XorCancel(POLY, ha, hb);
    XorAssoc(POLY, ha, hb);
    XorAssoc(ha, POLY, hb);
    XorComm(POLY, ha);
    hide Odd, Xor, Half;
  }

  lemma {:induction false} BitsXor(a: Word, b: Word, n: nat)
    ensures Bits(Xor(a, b), n) == Xor(Bits(a, n), Bits(b, n))
    decreases n
  {
    hide Bit, Xor;
    if n > 0 {
      BitsXor(a, b, n - 1);
      BitXor(Bits(a, n - 1), Bits(b, n - 1));
    }
  }

  function Double(x: Word): Word { x << 1 }

  function Doubles(x: Word, n: nat): Word
    decreases n
  {
    if n == 0 then x else Doubles(Double(x), n - 1)
  }

  predicate Room(x: Word, n: nat)
    decreases n
  {
    n > 0 ==> x < 0x8000_0000 && Room(Double(x), n - 1)
  }

  lemma BitDouble(x: Word)
    requires x < 0x8000_0000
    ensures Bit(Double(x)) == x
  {
  }

  lemma {:induction false} ShiftOutMany(x: Word, n: nat)
    requires Room(x, n)
    ensures Bits(Doubles(x, n), n) == x
    decreases n
  {
    hide Bit, Double;
    if n > 0 {
      ShiftOutMany(Double(x), n - 1);
      BitDouble(x);
    }
  }

  /** Eight zero bits at the low end are simply shifted out. */
  lemma ShiftOut(x: Word)
    requires x < 0x100_0000
    ensures Bits(Up(x), 8) == x
  {
  }

  /** What makes one table enough: a byte step by look-up. */
  lemma ByTable(c: Word)
    ensures Bits(c, 8) == Xor(Bits(Low(c), 8), High(c))
  {
    LowHigh(c);
    BitsXor(Low(c), Up(High(c)), 8);
    ShiftOut(High(c));
    hide Xor, Low, High, Up, Bits;
  }

  lemma HighXor(c: Word, b: Byte)
    ensures High(Xor(c, Wide(b))) == High(c)
  {
  }

  /** CRC32(c, b, crctab) with the table in place of the eight bits. */
  lemma FeedByTable(c: Word, b: Byte)
    ensures Feed(c, b) == Xor(Bits(Low(Xor(c, Wide(b))), 8), High(c))
  {
    ByTable(Xor(c, Wide(b)));
    HighXor(c, b);
    hide Xor, Low, High, Wide;
  }

  lemma {:induction false} BitsAdd(c: Word, m: nat, n: nat)
    ensures Bits(c, m + n) == Bits(Bits(c, m), n)
    decreases n
  {
    hide Bit;
    if n > 0 {
      BitsAdd(c, m, n - 1);
    }
  }

  // ---------- four bytes at a time

  function Ups(x: Word, k: nat): Word
    decreases k
  {
    if k == 0 then x else Up(Ups(x, k - 1))
  }

  lemma UpSmall(x: Word)
    ensures x < 256 ==> Up(x) < 0x1_0000
    ensures x < 0x1_0000 ==> Up(x) < 0x100_0000
  {
  }

  /** A byte k places up needs 8 * k bits more to come down. */
  lemma ComeDown(x: Word, k: nat, n: nat)
    requires x < 256 && k <= 3
    ensures Bits(Ups(x, k), 8 * k + n) == Bits(x, n)
    decreases k
  {
    if k > 0 {
      UpSmall(x);
      UpSmall(Up(x));
      var y := Ups(x, k - 1);
      assert y < 0x100_0000 by {
        hide Up;
        assert Ups(x, 0) == x && Ups(x, 1) == Up(x) && Ups(x, 2) == Up(Up(x));
      }
      ShiftOut(y);
      hide Up, Bits;
      BitsAdd(Up(y), 8, 8 * (k - 1) + n);
      ComeDown(x, k - 1, n);
    }
  }

  /** The word whose bytes in memory, low address first, are those given. */
  function LittleEndian(b0: Word, b1: Word, b2: Word, b3: Word): Word {
    Xor(Xor(Xor(b0, Ups(b1, 1)), Ups(b2, 2)), Ups(b3, 3))
  }

  lemma LoadedBytes(x: Word)
    ensures LittleEndian(Low(x), Low(High(x)), Low(High(High(x))), High(High(High(x)))) == x
    ensures High(High(High(x))) < 256
  {
  }

  /** Thirty-two bits of a word are four look-ups, each byte in its own table. */
  lemma FourTables(x0: Word, x1: Word, x2: Word, x3: Word)
    requires x0 < 256 && x1 < 256 && x2 < 256 && x3 < 256
    ensures Bits(LittleEndian(x0, x1, x2, x3), 32)
            == Xor(Xor(Xor(Bits(x0, 32), Bits(x1, 24)), Bits(x2, 16)), Bits(x3, 8))
  {
    hide Xor, Ups, Bits;
    BitsXor(Xor(Xor(x0, Ups(x1, 1)), Ups(x2, 2)), Ups(x3, 3), 32);
    BitsXor(Xor(x0, Ups(x1, 1)), Ups(x2, 2), 32);
    BitsXor(x0, Ups(x1, 1), 32);
    ComeDown(x1, 1, 24);
    ComeDown(x2, 2, 16);
    ComeDown(x3, 3, 8);
  }

  /** Four bytes fed one after the other are a word added and thirty-two bits shifted out. */
  lemma FourBytes(c: Word, b0: Byte, b1: Byte, b2: Byte, b3: Byte)
    ensures Feed(Feed(Feed(Feed(c, b0), b1), b2), b3)
            == Bits(Xor(c, LittleEndian(Wide(b0), Wide(b1), Wide(b2), Wide(b3))), 32)
  {
    hide Xor, Wide, Ups, Bits;
    var c1 := Xor(c, Wide(b0));
    var c2, c3 := Xor(c1, Ups(Wide(b1), 1)), Xor(Xor(c1, Ups(Wide(b1), 1)), Ups(Wide(b2), 2));
    BitsOf0(c1);
    FeedLater(c1, 1, b1);
    FeedLater(c2, 2, b2);
    FeedLater(c3, 3, b3);
    var w1 := Xor(Wide(b0), Ups(Wide(b1), 1));
    var w2 := Xor(w1, Ups(Wide(b2), 2));
    XorAssoc(c, Wide(b0), Ups(Wide(b1), 1));
    XorAssoc(c, w1, Ups(Wide(b2), 2));
    XorAssoc(c, w2, Ups(Wide(b3), 3));
  }

  lemma BitsOf0(c: Word)
    ensures Bits(c, 0) == c
  {
  }

  lemma FeedLater(c: Word, k: nat, b: Byte)
    requires k <= 3
    ensures Feed(Bits(c, 8 * k), b) == Bits(Xor(c, Ups(Wide(b), k)), 8 * (k + 1))
  {
    ComeDown(Wide(b), k, 0);
    BitsOf0(Wide(b));
    BitsXor(c, Ups(Wide(b), k), 8 * k);
    hide Xor, Wide, Ups, Bits;
    BitsAdd(Xor(c, Ups(Wide(b), k)), 8 * k, 8);
  }

  // ---------- the tables

  lemma Index(c: Word)
    requires c < 256
    ensures 0 <= c as int < 256 && Entry(c as int) == c
  {
  }

  function Entry(n: nat): Word
    requires n < 256
  {
    n as Word
  }

  /** Table k holds, for every byte, the register after that byte and k zero bytes. */
  ghost predicate TableOf(t: seq<Word>, k: nat) {
    256 * k + 256 <= |t| && forall n: nat :: n < 256 ==> t[256 * k + n] == Bits(Entry(n), 8 * k + 8)
  }

  /** The one table, or the four of the unfolded build. */
  ghost predicate Tables(t: seq<Word>, unfolded: bool) {
    TableOf(t, 0) && (unfolded ==> TableOf(t, 1) && TableOf(t, 2) && TableOf(t, 3))
  }

  lemma LookUp(t: seq<Word>, k: nat, c: Word)
    requires c < 256 && TableOf(t, k)
    ensures 0 <= c as int < 256 && t[256 * k + c as int] == Bits(c, 8 * k + 8)
  {
    Index(c);
    hide Bits;
  }

  /** make_crc_table: the one-byte table bit by bit, and in the unfolded build three more from it. */
  method MakeCrcTable(unfolded: bool) returns (t: array<Word>)
    ensures fresh(t) && Tables(t[..], unfolded)
  {
    hide Bit, Xor, Low, High, Bits, Entry;
    t := new Word[if unfolded then 1024 else 256];
    for n: nat := 0 to 256
      invariant forall m: nat :: m < n ==> t[m] == Bits(Entry(m), 8)
    {
      t[n] := EightBits(Entry(n));
    }
    if unfolded {
      UnfoldAll(t);
    }
  }

  method UnfoldAll(t: array<Word>)
    requires t.Length == 1024 && forall m: nat :: m < 256 ==> t[m] == Bits(Entry(m), 8)
    modifies t
    ensures Tables(t[..], true)
  {
    hide Bits, Entry;
    for n: nat := 0 to 256
      invariant forall m: nat :: m < 256 ==> t[m] == Bits(Entry(m), 8)
      invariant Filled(t, 256, n, 16) && Filled(t, 512, n, 24) && Filled(t, 768, n, 32)
    {
      Unfold(t, n);
    }
  }

  /** The register after each of the first n bytes and some bits, from a place of the array on. */
  ghost predicate Filled(t: array<Word>, from: nat, n: nat, bits: nat)
    reads t
  {
    from + n <= t.Length && n <= 256 && forall m: nat :: m < n ==> t[from + m] == Bits(Entry(m), bits)
  }

  /** A byte followed by one, two and three zeros. */
  method Unfold(t: array<Word>, n: nat)
    requires t.Length == 1024 && n < 256 && forall m: nat :: m < 256 ==> t[m] == Bits(Entry(m), 8)
    requires Filled(t, 256, n, 16) && Filled(t, 512, n, 24) && Filled(t, 768, n, 32)
    modifies t
    ensures forall m: nat :: m < 256 ==> t[m] == Bits(Entry(m), 8)
    ensures Filled(t, 256, n + 1, 16) && Filled(t, 512, n + 1, 24) && Filled(t, 768, n + 1, 32)
  {
    hide Bits, Entry;
    var c1 := ByteStep(t, t[n], 8, Entry(n));
    var c2 := ByteStep(t, c1, 16, Entry(n));
    var c3 := ByteStep(t, c2, 24, Entry(n));
    Store(t, 256, n, 16, c1);
    Store(t, 512, n, 24, c2);
    Store(t, 768, n, 32, c3);
  }

  method Store(t: array<Word>, from: nat, n: nat, bits: nat, c: Word)
    requires from + n < t.Length && n < 256 && Filled(t, from, n, bits) && c == Bits(Entry(n), bits)
    modifies t
    ensures Filled(t, from, n + 1, bits)
    ensures forall i :: 0 <= i < t.Length && i != from + n ==> t[i] == old(t[i])
  {
    hide Bits, Entry;
    t[from + n] := c;
  }

  method EightBits(c0: Word) returns (c: Word)
    ensures c == Bits(c0, 8)
  {
    hide Odd, Xor, Half;
    c := c0;
    for k := 0 to 8
      invariant c == Bits(c0, k)
    {
      c := if Odd(c) then Xor(POLY, Half(c)) else Half(c);
    }
  }

  /** CRC32(c, 0, crctab_p) */
  method ByteStep(t: array<Word>, c: Word, n: nat, ghost c0: Word) returns (r: Word)
    requires t.Length == 1024 && (forall m: nat :: m < 256 ==> t[m] == Bits(Entry(m), 8)) && c == Bits(c0, n)
    ensures r == Bits(c0, n + 8)
  {
    ByTable(c);
    BitsAdd(c0, n, 8);
    XorZero(c);
    LookUp(t[..], 0, Low(c));
    hide Bits, Xor, Low, High;
    r := Xor(t[Low(Xor(c, 0)) as int], High(c));
  }

  lemma XorZero(c: Word)
    ensures Xor(c, 0) == c
  {
  }

  /** DO1 */
  method Do1(t: array<Word>, c: Word, b: Byte) returns (r: Word)
    requires TableOf(t[..], 0)
    ensures r == Feed(c, b)
  {
    FeedByTable(c, b);
    LookUp(t[..], 0, Low(Xor(c, Wide(b))));
    hide Bits, Xor, Low, High, Wide, Feed;
    r := Xor(t[Low(Xor(c, Wide(b))) as int], High(c));
  }

  /** DO_OPT4: a word of the buffer, which lies at a multiple of four, added at once; then four look-ups
      in as many tables, or four steps by the one. */
  method DoOpt4(t: array<Word>, unfolded: bool, c: Word, b0: Byte, b1: Byte, b2: Byte, b3: Byte) returns (r: Word)
    requires Tables(t[..], unfolded)
    ensures r == Feed(Feed(Feed(Feed(c, b0), b1), b2), b3)
  {
    FourBytes(c, b0, b1, b2, b3);
    hide Bits, Xor, Wide, Feed, LittleEndian;
    var x := Xor(c, LittleEndian(Wide(b0), Wide(b1), Wide(b2), Wide(b3)));
    if unfolded {
      r := FourLookUps(t, x);
    } else {
      r := FourUpdates(t, x);
    }
  }

  /** CRC32UPD, four times */
  method FourUpdates(t: array<Word>, x: Word) returns (r: Word)
    requires TableOf(t[..], 0)
    ensures r == Bits(x, 32)
  {
    hide Bits;
    BitsAdd(x, 8, 8);
    BitsAdd(x, 16, 8);
    BitsAdd(x, 24, 8);
    r := Crc32Upd(t, x);
    r := Crc32Upd(t, r);
    r := Crc32Upd(t, r);
    r := Crc32Upd(t, r);
  }

  method Crc32Upd(t: array<Word>, c: Word) returns (r: Word)
    requires TableOf(t[..], 0)
    ensures r == Bits(c, 8)
  {
    ByTable(c);
    LookUp(t[..], 0, Low(c));
    hide Bits, Xor, Low, High;
    r := Xor(t[Low(c) as int], High(c));
  }

  method FourLookUps(t: array<Word>, x: Word) returns (r: Word)
    requires Tables(t[..], true)
    ensures r == Bits(x, 32)
  {
    LoadedBytes(x);
    var x0, x1, x2, x3 := Low(x), Low(High(x)), Low(High(High(x))), High(High(High(x)));
    hide Bits, Xor, Low, High, LittleEndian;
    FourTables(x0, x1, x2, x3);
    LookUp(t[..], 3, x0);
    LookUp(t[..], 2, x1);
    LookUp(t[..], 1, x2);
    LookUp(t[..], 0, x3);
    r := Xor(Xor(Xor(t[3 * 256 + x0 as int], t[2 * 256 + x1 as int]), t[256 + x2 as int]), t[x3 as int]);
  }

  lemma SlowMore(c: Word, s: seq<Byte>, p: nat)
    requires p < |s|
    ensures Slow(c, s[..p + 1]) == Feed(Slow(c, s[..p]), s[p])
  {
    assert s[..p + 1][..p] == s[..p];
    hide Feed;
  }

  lemma SlowFour(c: Word, s: seq<Byte>, p: nat)
    requires p + 4 <= |s|
    ensures Slow(c, s[..p + 4]) == Feed(Feed(Feed(Feed(Slow(c, s[..p]), s[p]), s[p + 1]), s[p + 2]), s[p + 3])
  {
    hide Slow, Feed;
    SlowMore(c, s, p);
    SlowMore(c, s, p + 1);
    SlowMore(c, s, p + 2);
    SlowMore(c, s, p + 3);
  }

  /** Where a run over a buffer stands. */
  ghost predicate At(c: Word, crc: Word, buf: array<Byte>, pos: nat)
    reads buf
  {
    pos <= buf.Length && c == Slow(Not(crc), buf[..][..pos])
  }

  /** A run of n single steps; DO8 is eight of them. */
  method Singles(t: array<Word>, c0: Word, ghost crc: Word, buf: array<Byte>, pos: nat, n: nat) returns (c: Word)
    requires TableOf(t[..], 0) && At(c0, crc, buf, pos) && pos + n <= buf.Length
    ensures At(c, crc, buf, pos + n)
  {
    hide Slow, Feed, Tables, TableOf, Not;
    c := c0;
    for i: nat := 0 to n
      invariant At(c, crc, buf, pos + i)
    {
      SlowMore(Not(crc), buf[..], pos + i);
      c := Do1(t, c, buf[pos + i]);
    }
  }

  method Words(t: array<Word>, unfolded: bool, c0: Word, ghost crc: Word, buf: array<Byte>, pos: nat, n: nat)
    returns (c: Word)
    requires Tables(t[..], unfolded) && At(c0, crc, buf, pos) && pos + 4 * n <= buf.Length
    ensures At(c, crc, buf, pos + 4 * n)
  {
    hide Slow, Feed, Tables, TableOf, Not;
    c := c0;
    for i: nat := 0 to n
      invariant pos + 4 * i <= buf.Length && At(c, crc, buf, pos + 4 * i)
    {
      var p: nat := pos + 4 * i;
      SlowFour(Not(crc), buf[..], p);
      c := DoOpt4(t, unfolded, c, buf[p], buf[p + 1], buf[p + 2], buf[p + 3]);
    }
  }

  lemma StartAndEnd(crc: Word, s: seq<Byte>)
    ensures Xor(crc, 0xFFFF_FFFF) == Slow(Not(crc), s[..0])
    ensures forall c :: c == Slow(Not(crc), s) ==> Xor(c, 0xFFFF_FFFF) == Crc32(crc, s)
  {
  }

  /** crc32 in its plain build: eight single steps to a turn, then the rest one by one. */
  method Crc32Unrolled(t: array<Word>, crc: Word, buf: array?<Byte>, size: nat) returns (r: Word)
    requires TableOf(t[..], 0) && (buf != null ==> size == buf.Length)
    ensures r == if buf == null then 0 else Crc32(crc, buf[..])
  {
    hide Slow, Xor, Not, TableOf, Crc32;
    if buf == null {
      return 0;
    }
    StartAndEnd(crc, buf[..]);
    var c, len := Eights(t, Xor(crc, 0xFFFF_FFFF), crc, buf);
    c := Singles(t, c, crc, buf, size - len, len);
    assert buf[..][..size] == buf[..];
    r := Xor(c, 0xFFFF_FFFF);
  }

  method Eights(t: array<Word>, c0: Word, ghost crc: Word, buf: array<Byte>) returns (c: Word, len: nat)
    requires TableOf(t[..], 0) && At(c0, crc, buf, 0)
    ensures len < 8 && len <= buf.Length && At(c, crc, buf, buf.Length - len)
  {
    hide At, Tables, TableOf;
    c, len := c0, buf.Length;
    while len >= 8
      invariant len <= buf.Length && At(c, crc, buf, buf.Length - len)
    {
      c := Singles(t, c, crc, buf, buf.Length - len, 8);
      len := len - 8;
    }
  }

  /** crc32 in its little-endian builds, for a buffer at address addr: single steps up to a word boundary,
      then sixteen and four bytes by words, with one table or four, then single steps. */
  method Crc32ByWords(t: array<Word>, unfolded: bool, crc: Word, buf: array?<Byte>, addr: nat, size: nat)
    returns (r: Word)
    requires Tables(t[..], unfolded) && (buf != null ==> size == buf.Length)
    ensures r == if buf == null then 0 else Crc32(crc, buf[..])
  {
    hide Slow, Xor, Not, Tables, TableOf, Crc32;
    if buf == null {
      return 0;
    }
    OneTable(t[..], unfolded);
    StartAndEnd(crc, buf[..]);
    var c, len := Align(t, Xor(crc, 0xFFFF_FFFF), crc, buf, addr);
    c, len := Bulk(t, unfolded, c, crc, buf, len);
    c := Singles(t, c, crc, buf, size - len, len);
    assert buf[..][..size] == buf[..];
    r := Xor(c, 0xFFFF_FFFF);
  }

  lemma OneTable(t: seq<Word>, unfolded: bool)
    requires Tables(t, unfolded)
    ensures TableOf(t, 0)
  {
  }

  method Align(t: array<Word>, c0: Word, ghost crc: Word, buf: array<Byte>, addr: nat) returns (c: Word, len: nat)
    requires TableOf(t[..], 0) && At(c0, crc, buf, 0)
    ensures len <= buf.Length && At(c, crc, buf, buf.Length - len)
    ensures len == 0 || (addr + (buf.Length - len)) % 4 == 0
  {
    hide At, Tables, TableOf;
    c, len := c0, buf.Length;
    while len > 0 && (addr + (buf.Length - len)) % 4 != 0
      invariant len <= buf.Length && At(c, crc, buf, buf.Length - len)
    {
      c := Singles(t, c, crc, buf, buf.Length - len, 1);
      len := len - 1;
    }
  }

  method Bulk(t: array<Word>, unfolded: bool, c0: Word, ghost crc: Word, buf: array<Byte>, len0: nat)
    returns (c: Word, len: nat)
    requires Tables(t[..], unfolded) && len0 <= buf.Length && At(c0, crc, buf, buf.Length - len0)
    ensures len < 4 && len <= buf.Length && At(c, crc, buf, buf.Length - len)
  {
    hide At, Tables, TableOf;
    c, len := c0, len0;
    while len >= 16
      invariant len <= buf.Length && At(c, crc, buf, buf.Length - len)
    {
      c := Words(t, unfolded, c, crc, buf, buf.Length - len, 4);
      len := len - 16;
    }
    while len >= 4
      invariant len <= buf.Length && At(c, crc, buf, buf.Length - len)
    {
      c := Words(t, unfolded, c, crc, buf, buf.Length - len, 1);
      len := len - 4;
    }
  }

  /** mg_crc32, bit by bit. */
  method MgCrc32(crc0: Word, buf: array<Byte>) returns (crc: Word)
    ensures crc == Crc32(crc0, buf[..])
  {
    hide Slow, Not, Xor, Wide, Odd, Half;
    StartSlow(Not(crc0));
    crc := Not(crc0);
    for p := 0 to buf.Length
      invariant crc == Slow(Not(crc0), buf[..][..p])
    {
      SlowMore(Not(crc0), buf[..], p);
      crc := Xor(crc, Wide(buf[p]));
      ghost var c := crc;
      for i := 0 to 8
        invariant crc == Bits(c, i)
      {
        XorComm(Half(crc), POLY);
        crc := if Odd(crc) then Xor(Half(crc), POLY) else Half(crc);
      }
    }
    assert buf[..][..buf.Length] == buf[..];
    crc := Not(crc);
  }

  lemma StartSlow(c: Word)
    ensures Slow(c, []) == c
  {
  }

  // ---------- known answer

  lemma SlowNext(c: Word, s: seq<Byte>, b: Byte)
    ensures Slow(c, s + [b]) == Feed(Slow(c, s), b)
  {
    hide Feed;
    assert (s + [b])[..|s|] == s;
  }

  lemma Digits1To3()
    ensures Feed(0xffff_ffff, 0x31) == 0x7c23_1048
    ensures Feed(0x7c23_1048, 0x32) == 0xb0ac_bb32
    ensures Feed(0xb0ac_bb32, 0x33) == 0x77b7_9c2d
  {
  }

  lemma Digits4To6()
    ensures Feed(0x77b7_9c2d, 0x34) == 0x641c_1f5c
    ensures Feed(0x641c_1f5c, 0x35) == 0x340a_c5e3
    ensures Feed(0x340a_c5e3, 0x36) == 0xf68d_2c9e
  {
  }

  lemma Digits7To9()
    ensures Feed(0xf68d_2c9e, 0x37) == 0xaffc_9660
    ensures Feed(0xaffc_9660, 0x38) == 0x651f_2550
    ensures Feed(0x651f_2550, 0x39) == 0x340b_c6d9
  {
  }

  /** The check value of this CRC: the digits 1 to 9 in ASCII give 0xCBF43926. */
  lemma CheckValue()
    ensures Crc32(0, [0x31, 0x32, 0x33, 0x34, 0x35, 0x36, 0x37, 0x38, 0x39]) == 0xcbf4_3926
  {
    hide Feed;
    Digits1To3();
    Digits4To6();
    Digits7To9();
    var s: seq<Byte> := [];
    SlowNext(0xffff_ffff, s, 0x31);
    s := s + [0x31];
    SlowNext(0xffff_ffff, s, 0x32);
    s := s + [0x32];
    SlowNext(0xffff_ffff, s, 0x33);
    s := s + [0x33];
    SlowNext(0xffff_ffff, s, 0x34);
    s := s + [0x34];
    SlowNext(0xffff_ffff, s, 0x35);
    s := s + [0x35];
    SlowNext(0xffff_ffff, s, 0x36);
    s := s + [0x36];
    SlowNext(0xffff_ffff, s, 0x37);
    s := s + [0x37];
    SlowNext(0xffff_ffff, s, 0x38);
    s := s + [0x38];
    SlowNext(0xffff_ffff, s, 0x39);
    s := s + [0x39];
    assert s == [0x31, 0x32, 0x33, 0x34, 0x35, 0x36, 0x37, 0x38, 0x39];
    NotValues();
  }

  lemma NotValues()
    ensures Not(0) == 0xffff_ffff && Not(0x340b_c6d9) == 0xcbf4_3926
  {
  }
}
