/** The key stream of the cipher in whole numbers, and known answers for the whole generator. */
module Keystream {
  import opened Crypt
  import opened Division
  import Crc

  // ---------- words by halves and bytes

  function Upper(x: Word): bv16 { (x >> 16) as bv16 }

  function Lower(x: Word): bv16 { (x & 0xffff) as bv16 }

  function Second(x: Word): Byte { ((x >> 8) & 0xff) as Byte }

  function First(x: Word): Byte { (x & 0xff) as Byte }

  function BitSet(b: Byte): Byte { b | 2 }

  function BitFlipped(b: Byte): Byte { b ^ 1 }

  /** The number of two halves, and of two bytes. */
  function Joined(h: bv16, l: bv16): int { (((h as Word) << 16) | (l as Word)) as int }

  function Paired(h: Byte, l: Byte): int { (((h as Word) << 8) | (l as Word)) as int }

  lemma JoinedIs(h: bv16, l: bv16)
    ensures Joined(h, l) == 0x1_0000 * (h as int) + l as int && 0 <= l as int < 0x1_0000
  {
  }

  lemma PairedIs(h: Byte, l: Byte)
    ensures Paired(h, l) == 0x100 * (h as int) + l as int
  {
  }

  lemma WordJoined(x: Word)
    ensures Joined((x >> 16) as bv16, (x & 0xffff) as bv16) == x as int
  {
  }

  lemma WordIs(x: Word)
    ensures Joined(Upper(x), Lower(x)) == x as int
  {
    hide Joined;
    WordJoined(x);
  }

  lemma HalfPaired(x: Word)
    ensures Paired(((x >> 8) & 0xff) as Byte, (x & 0xff) as Byte) == ((x & 0xffff) as bv16) as int
  {
  }

  lemma HalfIs(x: Word)
    ensures Paired(Second(x), First(x)) == Lower(x) as int
  {
    hide Paired;
    HalfPaired(x);
  }

  lemma SecondBit(l: Byte)
    ensures BitSet(l) as int == l as int + if (l as int) / 2 % 2 == 0 then 2 else 0
  {
    assert (l | 2) as int == l as int + if (l as int) / 2 % 2 == 0 then 2 else 0;
  }

  lemma FirstBit(l: Byte)
    ensures BitFlipped(l) as int == if (l as int) % 2 == 0 then l as int + 1 else l as int - 1
  {
    assert (l ^ 1) as int == if (l as int) % 2 == 0 then l as int + 1 else l as int - 1;
  }

  // ---------- the key stream byte

  function Factor(k2: Word): int { ((k2 & 0xffff) | 2) as int }

  function Cofactor(k2: Word): int { (((k2 & 0xffff) | 2) ^ 1) as int }

  lemma MixedByFactors(k2: Word)
    ensures Mixed(k2) == (Factor(k2) * Cofactor(k2) / 0x100 % 0x100) as Byte
  {
  }

  lemma FactorsPaired(k2: Word)
    ensures ((k2 & 0xffff) | 2) as int == Paired(((k2 >> 8) & 0xff) as Byte, ((k2 & 0xff) as Byte) | 2)
    ensures (((k2 & 0xffff) | 2) ^ 1) as int == Paired(((k2 >> 8) & 0xff) as Byte, (((k2 & 0xff) as Byte) | 2) ^ 1)
  {
  }

  /** Both factors have the second byte of the key for their upper one. */
  lemma FactorsAre(k2: Word)
    ensures Factor(k2) == Paired(Second(k2), BitSet(First(k2)))
    ensures Cofactor(k2) == Paired(Second(k2), BitFlipped(BitSet(First(k2))))
  {
    hide Paired;
    FactorsPaired(k2);
  }

  /** The key stream byte in whole numbers: the low sixteen bits of the third key with the second bit
      set, times the number that differs from it in the first bit alone, without its lowest byte and
      modulo 256. */
  function StreamByte(key: int): (b: int)
    ensures 0 <= b < 256
  {
    var n := key % 0x1_0000;
    var t := if n / 2 % 2 == 0 then n + 2 else n;
    var u := if t % 2 == 0 then t + 1 else t - 1;
    t * u / 256 % 256
  }

  lemma ByteOf(key: int, n: int, t: int, u: int)
    requires n == key % 0x1_0000 && t == n + if n / 2 % 2 == 0 then 2 else 0
    requires u == if t % 2 == 0 then t + 1 else t - 1
    ensures StreamByte(key) == t * u / 0x100 % 0x100
  {
  }

  /** The lowest two bits of a number are those of its lower byte. */
  lemma BitsInPlace(h: int, l: int, m: int)
    ensures (0x100 * h + l) / 2 % 2 == l / 2 % 2 && (0x100 * h + m) % 2 == m % 2
  {
    Shifted(l, 2, 0x80 * h);
    Shifted(l / 2, 2, 0x40 * h);
    Shifted(m, 2, 0x80 * h);
  }

  lemma LowIs(k2: Word)
    ensures Lower(k2) as int == (k2 as int) % 0x1_0000
  {
    hide Upper, Lower, Joined;
    WordIs(k2);
    JoinedIs(Upper(k2), Lower(k2));
    Quotient(k2 as int, 0x1_0000, Upper(k2) as int, Lower(k2) as int);
  }

  lemma FactorsFromLow(k2: Word)
    ensures var n := Lower(k2) as int;
            && Factor(k2) == n + (if n / 2 % 2 == 0 then 2 else 0)
            && Cofactor(k2) == if Factor(k2) % 2 == 0 then Factor(k2) + 1 else Factor(k2) - 1
  {
    hide Upper, Lower, Second, First, BitSet, BitFlipped, Joined, Paired, Factor, Cofactor;
    FactorsAre(k2);
    var h, l := Second(k2), First(k2);
    PairedIs(h, l);
    PairedIs(h, BitSet(l));
    PairedIs(h, BitFlipped(BitSet(l)));
    SecondBit(l);
    FirstBit(BitSet(l));
    HalfIs(k2);
    BitsInPlace(h as int, l as int, BitSet(l) as int);
  }

  lemma MixedIs(k2: Word)
    ensures Mixed(k2) == StreamByte(k2 as int) as Byte
  {
    hide Mixed, Lower, Factor, Cofactor, StreamByte;
    MixedByFactors(k2);
    LowIs(k2);
    FactorsFromLow(k2);
    ByteOf(k2 as int, Lower(k2) as int, Factor(k2), Cofactor(k2));
  }

  // ---------- known answers

  lemma FeedsA()
    ensures Crc.Feed(0x1234_5678, 0x61) == 0x6479_9c96 && Crc.Feed(0x3456_7890, 0xb3) == 0xa253_270a
  {
  }

  lemma KeysA()
    ensures Update(Start, 0x61)
         == Keys(0x6479_9c96, 0xb303_049c, 0xa253_270a)
  {
    hide Crc.Feed;
    FeedsA();
  }

  lemma FeedsB()
    ensures Crc.Feed(0x6479_9c96, 0x62) == 0xbab4_4f99 && Crc.Feed(0xa253_270a, 0xdf) == 0xf61b_757c
  {
  }

  lemma KeysB()
    ensures Update(Keys(0x6479_9c96, 0xb303_049c, 0xa253_270a), 0x62)
         == Keys(0xbab4_4f99, 0xdf66_6e0a, 0xf61b_757c)
  {
    hide Crc.Feed;
    FeedsB();
  }

  lemma FeedsZ()
    ensures Crc.Feed(0xbab4_4f99, 0x7a) == 0x39b9_078d && Crc.Feed(0xf61b_757c, 0x5a) == 0xd2fb_9e88
  {
  }

  lemma KeysZ()
    ensures Update(Keys(0xbab4_4f99, 0xdf66_6e0a, 0xf61b_757c), 0x7a)
         == Keys(0x39b9_078d, 0x5abe_04f4, 0xd2fb_9e88)
  {
    hide Crc.Feed;
    FeedsZ();
  }

  lemma FeedsI()
    ensures Crc.Feed(0x39b9_078d, 0x69) == 0xa75e_9f66 && Crc.Feed(0xd2fb_9e88, 0xbb) == 0xbf02_9a88
  {
  }

  lemma KeysI()
    ensures Update(Keys(0x39b9_078d, 0x5abe_04f4, 0xd2fb_9e88), 0x69)
         == Keys(0xa75e_9f66, 0xbb48_82c3, 0xbf02_9a88)
  {
    hide Crc.Feed;
    FeedsI();
  }

  /** The bytes taken out of a word are its four bytes. */
  lemma FourBytes(w: Word)
    ensures w == ((TopByte(w) as Word) << 24) | ((NextTop(w) as Word) << 16)
               | ((SecondByte(w) as Word) << 8) | LowByte(w)
    ensures LowByte(w) < 0x100
  {
  }

  lemma KeysMore(k: Keys, s: seq<Byte>, c: Byte)
    ensures KeysAfter(k, s + [c]) == Update(KeysAfter(k, s), c)
  {
    hide Update;
    assert (s + [c])[..|s|] == s;
  }

  lemma EncryptMore(k: Keys, s: seq<Byte>, c: Byte)
    ensures Encrypt(k, s + [c]) == Encrypt(k, s) + [XorByte(Mixed(KeysAfter(k, s).k2), c)]
  {
    hide Update, Mixed, XorByte;
    assert (s + [c])[..|s|] == s;
  }

  lemma ByteIs(k2: Word, key: int, b: int)
    requires k2 as int == key && StreamByte(key) == b
    ensures 0 <= b < 256 && Mixed(k2) == b as Byte
  {
    hide Mixed, StreamByte;
    MixedIs(k2);
  }

  lemma NumberS()
    ensures (878082192 as Word) as int == 878082192
  {
  }

  lemma StreamS()
    ensures StreamByte(878082192) == 0xab
  {
  }

  /** The first key stream byte of the empty password. */
  lemma FirstByte()
    ensures Mixed(Start.k2) == 0xab
  {
    hide Mixed, StreamByte;
    NumberS();
    StreamS();
    ByteIs(Start.k2, 878082192, 0xab);
  }

  /** The keys of the password ab. */
  lemma PasswordAb()
    ensures KeysOf([0x61, 0x62]) == Keys(0xbab4_4f99, 0xdf66_6e0a, 0xf61b_757c)
  {
    hide Update;
    KeysMore(Start, [], 0x61);
    KeysMore(Start, [0x61], 0x62);
    assert [] + [0x61] == [0x61];
    assert [0x61] + [0x62] == [0x61, 0x62];
    KeysA();
    KeysB();
  }

  lemma NumberZ()
    ensures (0xf61b_757c as Word) as int == 0xf61b_757c
  {
  }

  lemma StreamZ()
    ensures StreamByte(0xf61b_757c) == 0xdf
  {
  }

  lemma CipherZ()
    ensures XorByte(Mixed(0xf61b_757c), 0x7a) == 0xa5
  {
    hide Mixed, StreamByte;
    NumberZ();
    StreamZ();
    ByteIs(0xf61b_757c, 0xf61b_757c, 0xdf);
  }

  lemma NumberI()
    ensures (0xd2fb_9e88 as Word) as int == 0xd2fb_9e88
  {
  }

  lemma StreamI()
    ensures StreamByte(0xd2fb_9e88) == 0x40
  {
  }

  lemma CipherI()
    ensures XorByte(Mixed(0xd2fb_9e88), 0x69) == 0x29
  {
    hide Mixed, StreamByte;
    NumberI();
    StreamI();
    ByteIs(0xd2fb_9e88, 0xd2fb_9e88, 0x40);
  }

  lemma NumberP()
    ensures (0xbf02_9a88 as Word) as int == 0xbf02_9a88
  {
  }

  lemma StreamP()
    ensures StreamByte(0xbf02_9a88) == 0xec
  {
  }

  lemma CipherP()
    ensures XorByte(Mixed(0xbf02_9a88), 0x70) == 0x9c
  {
    hide Mixed, StreamByte;
    NumberP();
    StreamP();
    ByteIs(0xbf02_9a88, 0xbf02_9a88, 0xec);
  }

  /** Under that password the bytes of zip are written as A5 29 9C. */
  lemma ZipUnderAb()
    ensures Encrypt(KeysOf([0x61, 0x62]), [0x7a, 0x69, 0x70]) == [0xa5, 0x29, 0x9c]
  {
    hide Update, Mixed, XorByte;
    PasswordAb();
    var k := KeysOf([0x61, 0x62]);
    EncryptMore(k, [], 0x7a);
    EncryptMore(k, [0x7a], 0x69);
    EncryptMore(k, [0x7a, 0x69], 0x70);
    KeysMore(k, [], 0x7a);
    KeysMore(k, [0x7a], 0x69);
    assert [] + [0x7a] == [0x7a];
    assert [0x7a] + [0x69] == [0x7a, 0x69];
    assert [0x7a, 0x69] + [0x70] == [0x7a, 0x69, 0x70];
    KeysZ();
    KeysI();
    CipherZ();
    CipherI();
    CipherP();
  }
}
