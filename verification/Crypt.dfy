/** The stream cipher of obj_zip/zip30/crypt.c and crypt.h (PKWARE traditional encryption, section 6.1 of
    the APPNOTE), and the loops that encrypt and decrypt an archive entry. */
module Crypt {
  import Crc

  type Byte = bv8
  type Word = bv32

  const HEAD := 12      // RAND_HEAD_LEN

  // ---------- the generator

  datatype Keys = Keys(k0: Word, k1: Word, k2: Word)

  const Start := Keys(305419896, 591751049, 878082192)

  function LowByte(w: Word): Word { w & 0xff }

  function Multiplied(k1: Word, b: Word): Word { (k1 + b) * 134775813 + 1 }

  function TopByte(w: Word): Byte { (w >> 24) as Byte }

  function NextTop(w: Word): Byte { ((w >> 16) & 0xff) as Byte }

  function SecondByte(w: Word): Byte { ((w >> 8) & 0xff) as Byte }

  /** The product of two numbers of sixteen bits, which a word holds whole; its second byte is kept. */
  function Mixed(k2: Word): Byte {
    var temp := (k2 & 0xffff) | 2;
    ((temp as int * (temp ^ 1) as int) / 0x100 % 0x100) as Byte
  }

  function XorByte(a: Byte, b: Byte): Byte { a ^ b }

  lemma XorTwice(a: Byte, b: Byte)
    ensures XorByte(XorByte(a, b), a) == b && XorByte(a, XorByte(b, a)) == b && XorByte(a, b) == XorByte(b, a)
  {
  }

  /** The keys after one byte of plain text. */
  function Update(k: Keys, c: Byte): Keys {
    var k0 := Crc.Feed(k.k0, c);
    var k1 := Multiplied(k.k1, LowByte(k0));
    Keys(k0, k1, Crc.Feed(k.k2, TopByte(k1)))
  }

  function KeysAfter(k: Keys, plain: seq<Byte>): Keys
    decreases |plain|
  {
    if plain == [] then k else Update(KeysAfter(k, plain[..|plain| - 1]), plain[|plain| - 1])
  }

  // ---------- streams

  function Encrypt(k: Keys, plain: seq<Byte>): (r: seq<Byte>)
    ensures |r| == |plain|
    decreases |plain|
  {
    if plain == [] then []
    else
      var before := plain[..|plain| - 1];
      Encrypt(k, before) + [XorByte(Mixed(KeysAfter(k, before).k2), plain[|plain| - 1])]
  }

  /** The keys follow the plain text as it comes out. */
  function Decrypt(k: Keys, cipher: seq<Byte>): (r: seq<Byte>)
    ensures |r| == |cipher|
    decreases |cipher|
  {
    if cipher == [] then []
    else
      var plain := Decrypt(k, cipher[..|cipher| - 1]);
      plain + [XorByte(cipher[|cipher| - 1], Mixed(KeysAfter(k, plain).k2))]
  }

  lemma {:induction false} DecryptEncrypt(k: Keys, plain: seq<Byte>)
    ensures Decrypt(k, Encrypt(k, plain)) == plain
    decreases |plain|
  {
    hide XorByte, Mixed, Update;
    if plain != [] {
      var before := plain[..|plain| - 1];
      DecryptEncrypt(k, before);
      assert Encrypt(k, plain)[..|plain| - 1] == Encrypt(k, before);
      XorTwice(Mixed(KeysAfter(k, before).k2), plain[|plain| - 1]);
    }
  }

  lemma {:induction false} EncryptDecrypt(k: Keys, cipher: seq<Byte>)
    ensures Encrypt(k, Decrypt(k, cipher)) == cipher
    decreases |cipher|
  {
    hide XorByte, Mixed, Update;
    if cipher != [] {
      var before := cipher[..|cipher| - 1];
      EncryptDecrypt(k, before);
      assert Decrypt(k, cipher)[..|cipher| - 1] == Decrypt(k, before);
      XorTwice(Mixed(KeysAfter(k, Decrypt(k, before)).k2), cipher[|cipher| - 1]);
    }
  }

  lemma {:induction false} KeysConcat(k: Keys, s: seq<Byte>, t: seq<Byte>)
    ensures KeysAfter(k, s + t) == KeysAfter(KeysAfter(k, s), t)
    decreases |t|
  {
    hide Update;
    if t == [] {
      assert s + t == s;
    } else {
      assert (s + t)[..|s + t| - 1] == s + t[..|t| - 1];
      KeysConcat(k, s, t[..|t| - 1]);
    }
  }

  lemma {:induction false} EncryptConcat(k: Keys, s: seq<Byte>, t: seq<Byte>)
    ensures Encrypt(k, s + t) == Encrypt(k, s) + Encrypt(KeysAfter(k, s), t)
    decreases |t|
  {
    hide Update, XorByte, Mixed;
    if t == [] {
      assert s + t == s;
    } else {
      assert (s + t)[..|s + t| - 1] == s + t[..|t| - 1];
      EncryptConcat(k, s, t[..|t| - 1]);
      KeysConcat(k, s, t[..|t| - 1]);
    }
  }

  /** Decryption of a beginning does not depend on what follows. */
  lemma DecryptPart(k: Keys, s: seq<Byte>, t: seq<Byte>)
    ensures Decrypt(k, Encrypt(k, s + t)[..|s|]) == s
  {
    EncryptConcat(k, s, t);
    DecryptEncrypt(k, s);
    assert Encrypt(k, s + t)[..|s|] == Encrypt(k, s);
  }

  function KeysOf(passwd: seq<Byte>): Keys { KeysAfter(Start, passwd) }

  /** The header before its own encryption: encrypted random bytes, then the high half of the CRC. */
  function HeaderText(passwd: seq<Byte>, random: seq<Byte>, crc: Word): seq<Byte> {
    Encrypt(KeysOf(passwd), random) + [NextTop(crc), TopByte(crc)]
  }

  // ---------- the cipher in place

  class Cipher {
    var keys: Keys
    const crctab: array<Word>

    ghost predicate Valid()
      reads this, crctab
    {
      Crc.TableOf(crctab[..], 0)
    }

    constructor (table: array<Word>)
      requires Crc.TableOf(table[..], 0)
      ensures Valid()
    {
      crctab, keys := table, Start;
    }

    method DecryptByte() returns (t: Byte)
      ensures t == Mixed(keys.k2)
    {
      t := Mixed(keys.k2);
    }

    method UpdateKeys(c: Byte)
      requires Valid()
      modifies this`keys
      ensures keys == Update(old(keys), c)
    {
      hide Crc.Feed, Crc.TableOf, LowByte, Multiplied, TopByte;
      var k0 := Crc.Do1(crctab, keys.k0, c);
      keys := keys.(k0 := k0);
      keys := keys.(k1 := Multiplied(keys.k1, LowByte(keys.k0)));
      var keyshift := TopByte(keys.k1);
      var k2 := Crc.Do1(crctab, keys.k2, keyshift);
      keys := keys.(k2 := k2);
    }

    method InitKeys(passwd: seq<Byte>)
      requires Valid()
      modifies this`keys
      ensures keys == KeysOf(passwd)
    {
      hide Update;
      keys := Start;
      for i := 0 to |passwd|
        invariant keys == KeysAfter(Start, passwd[..i])
      {
        UpdateKeys(passwd[i]);
        assert passwd[..i + 1][..i] == passwd[..i];
      }
      assert passwd[..|passwd|] == passwd;
    }

    /** zencode */
    method Encode(c: Byte, ghost k: Keys, ghost done: seq<Byte>) returns (e: Byte)
      requires Valid() && keys == KeysAfter(k, done)
      modifies this`keys
      ensures keys == KeysAfter(k, done + [c]) && Encrypt(k, done + [c]) == Encrypt(k, done) + [e]
    {
      hide Update, Mixed, XorByte;
      var t := DecryptByte();
      UpdateKeys(c);
      e := XorByte(t, c);
      assert (done + [c])[..|done|] == done;
    }

    /** zdecode */
    method Decode(c0: Byte, ghost k: Keys, ghost done: seq<Byte>) returns (c: Byte)
      requires Valid() && keys == KeysAfter(k, Decrypt(k, done))
      modifies this`keys
      ensures Decrypt(k, done + [c0]) == Decrypt(k, done) + [c]
      ensures keys == KeysAfter(k, Decrypt(k, done + [c0]))
    {
      hide Update, Mixed, XorByte;
      var t := DecryptByte();
      c := XorByte(c0, t);
      UpdateKeys(c);
      assert (done + [c0])[..|done|] == done;
      assert (Decrypt(k, done) + [c])[..|done|] == Decrypt(k, done);
    }

    /** A run of zencode over some bytes. */
    method EncodeAll(s: seq<Byte>, ghost k: Keys, ghost done: seq<Byte>) returns (r: seq<Byte>)
      requires Valid() && keys == KeysAfter(k, done)
      modifies this`keys
      ensures keys == KeysAfter(k, done + s) && Encrypt(k, done + s) == Encrypt(k, done) + r
    {
      hide KeysAfter, Encrypt;
      r := [];
      assert done + s[..0] == done;
      for n := 0 to |s|
        invariant keys == KeysAfter(k, done + s[..n]) && Encrypt(k, done + s[..n]) == Encrypt(k, done) + r
      {
        var e := Encode(s[n], k, done + s[..n]);
        assert done + s[..n] + [s[n]] == done + s[..n + 1];
        r := r + [e];
      }
      assert s[..|s|] == s;
    }

    /** crypthead: the encrypted header, and the keys ready for the data. */
    method CryptHead(passwd: seq<Byte>, random: seq<Byte>, crc: Word) returns (header: seq<Byte>)
      requires Valid() && |random| == HEAD - 2
      modifies this`keys
      ensures header == Encrypt(KeysOf(passwd), HeaderText(passwd, random, crc)) && |header| == HEAD
      ensures keys == KeysAfter(KeysOf(passwd), HeaderText(passwd, random, crc))
    {
      hide KeysAfter, Encrypt, NextTop, TopByte;
      ghost var k := KeysOf(passwd);
      KeysAfterNone(k);
      InitKeys(passwd);
      var r := EncodeAll(random, k, []);
      assert [] + random == random;
      InitKeys(passwd);
      header := EncodeAll(r, k, []);
      assert [] + r == r;
      var e := Encode(NextTop(crc), k, r);
      var f := Encode(TopByte(crc), k, r + [NextTop(crc)]);
      header := header + [e, f];
      assert r + [NextTop(crc)] + [TopByte(crc)] == HeaderText(passwd, random, crc);
    }
  }

  lemma KeysAfterNone(k: Keys)
    ensures KeysAfter(k, []) == k && Encrypt(k, []) == [] && Decrypt(k, []) == []
  {
  }

  // ---------- archive entries

  class Entry {
    var siz: nat
    var crc: Word
    var tim: Word
    var encrypted: bool     // flag 1
    var extended: bool      // flag 8

    constructor (siz: nat, crc: Word, tim: Word, extended: bool)
      ensures this.siz == siz && this.crc == crc && this.tim == tim && !encrypted && this.extended == extended
    {
      this.siz, this.crc, this.tim, this.encrypted, this.extended := siz, crc, tim, false, extended;
    }
  }

  datatype Code = Ok | Eof | Miss | CopyFailed

  /** The write buffer of 1024 bytes in front of bfwrite. */
  class Writer {
    const buf: array<Byte>
    var b: nat
    var out: seq<Byte>

    ghost predicate Valid()
      reads this, buf
    {
      buf.Length == 1024 && b < 1024
    }

    /** Everything handed over, written or still in the buffer. */
    ghost function Written(): seq<Byte>
      requires Valid()
      reads this, buf
    {
      out + buf[..b]
    }

    constructor ()
      ensures Valid() && fresh(buf) && Written() == []
    {
      buf, b, out := new Byte[1024], 0, [];
    }

    method Put(c: Byte)
      requires Valid()
      modifies this`b, this`out, buf
      ensures Valid() && Written() == old(Written()) + [c]
    {
      ghost var was := buf[..b];
      buf[b] := c;
      b := b + 1;
      assert buf[..b] == was + [c];
      if b >= 1024 {
        out, b := out + buf[..b], 0;
      }
    }

    method Flush()
      requires Valid()
      modifies this`b, this`out
      ensures Valid() && Written() == old(Written()) == out
    {
      if b > 0 {
        out := out + buf[..b];
        b := 0;
      }
    }
  }

  /** zipcloak: what is written is the encryption of a header and the data, in pieces of 1024. */
  method ZipCloak(c: Cipher, z: Entry, passwd: seq<Byte>, random: seq<Byte>, input: seq<Byte>)
    returns (res: Code, out: seq<Byte>)
    requires c.Valid() && |random| == HEAD - 2
    modifies c`keys, z
    ensures z.siz == old(z.siz) + HEAD && z.encrypted && !z.extended && z.crc == old(z.crc) && z.tim == old(z.tim)
    ensures res == if |input| < old(z.siz) then Eof else Ok
    ensures res == Ok ==> out == Encrypt(KeysOf(passwd), HeaderText(passwd, random, z.crc) + input[..old(z.siz)])
  {
    hide Encrypt, KeysAfter, HeaderText, KeysOf, Crc.TableOf;
    ghost var size := z.siz;
    z.encrypted, z.extended, z.siz := true, false, z.siz + HEAD;
    var header := c.CryptHead(passwd, random, z.crc);
    ghost var k, text := KeysOf(passwd), HeaderText(passwd, random, z.crc);
    assert z.siz - HEAD == size;
    res, out := CloakData(c, z.siz - HEAD, k, text, header, input);
  }

  /** The data loop of zipcloak, after the header. */
  method CloakData(c: Cipher, size: nat, ghost k: Keys, ghost text: seq<Byte>, header: seq<Byte>, input: seq<Byte>)
    returns (res: Code, out: seq<Byte>)
    requires c.Valid() && c.keys == KeysAfter(k, text) && header == Encrypt(k, text)
    modifies c`keys
    ensures res == if |input| < size then Eof else Ok
    ensures res == Ok ==> out == Encrypt(k, text + input[..size])
  {
    hide KeysAfter, Encrypt, Crc.TableOf;
    var w := new Writer();
    var n: nat := size;
    ghost var done := text;
    assert text + input[..0] == text && header + [] == header;
    while n > 0
      invariant n <= size && size - n <= |input| && w.Valid() && fresh(w) && fresh(w.buf)
      invariant c.keys == KeysAfter(k, done) && done == text + input[..size - n]
      invariant Encrypt(k, done) == header + w.Written()
    {
      var pos: nat := size - n;
      if pos >= |input| {
        return Eof, header + w.out;
      }
      var e := c.Encode(input[pos], k, done);
      OneMore(text, input, pos, done);
      done := done + [input[pos]];
      assert header + w.Written() + [e] == header + (w.Written() + [e]);
      w.Put(e);
      n := n - 1;
    }
    w.Flush();
    res, out := Ok, header + w.out;
  }

  lemma OneMore<T>(text: seq<T>, input: seq<T>, pos: nat, done: seq<T>)
    requires pos < |input| && done == text + input[..pos]
    ensures done + [input[pos]] == text + input[..pos + 1]
  {
  }

  /** The byte zipbare compares with the last of the header. */
  function CheckByte(extended: bool, crc: Word, tim: Word): Byte {
    if extended then SecondByte(tim) else TopByte(crc)
  }

  /** An unsigned 64-bit size less that of the encryption header; a smaller one wraps round. */
  function LessHeader(siz: nat): nat {
    if siz >= HEAD then siz - HEAD else siz + 0x1_0000_0000_0000_0000 - HEAD
  }

  /** zipbare: unless the header's last byte tells of another password, what is written is the
      decryption of the data; else the entry, as long as it says it is, is copied. */
  method ZipBare(c: Cipher, z: Entry, passwd: seq<Byte>, input: seq<Byte>) returns (res: Code, out: seq<Byte>)
    requires c.Valid()
    modifies c`keys, z
    ensures z.crc == old(z.crc) && z.tim == old(z.tim)
    ensures |input| < HEAD ==>
              res == Eof && z.siz == old(z.siz) && z.encrypted == old(z.encrypted) && z.extended == old(z.extended)
    ensures |input| >= HEAD ==>
              var plain := Decrypt(KeysOf(passwd), input);
              if plain[HEAD - 1] != CheckByte(old(z.extended), z.crc, z.tim) then
                && (if |input| < old(z.siz) then res == CopyFailed else res == Miss && out == input[..old(z.siz)])
                && z.siz == old(z.siz) && z.encrypted == old(z.encrypted) && z.extended == old(z.extended)
              else
                && z.siz == LessHeader(old(z.siz)) && !z.encrypted && !z.extended
                && res == (if |input| < z.siz + HEAD then Eof else Ok)
                && (res == Ok ==> out == plain[HEAD..z.siz + HEAD])
  {
    hide KeysAfter, Decrypt, CheckByte;
    ghost var k := KeysOf(passwd);
    var enough, c1 := BareHead(c, passwd, input);
    if !enough {
      return Eof, [];
    }
    DecryptPrefix(k, input, HEAD);
    if c1 != CheckByte(z.extended, z.crc, z.tim) {
      res, out := ZipCopy(z.siz, input);
      return;
    }
    z.siz := LessHeader(z.siz);
    z.encrypted, z.extended := false, false;
    res, out := BareData(c, z.siz, k, input);
  }

  /** zipcopy, which copies as many bytes as the entry has, or fails; and the answer to it. */
  method ZipCopy(siz: nat, input: seq<Byte>) returns (res: Code, out: seq<Byte>)
    ensures if |input| < siz then res == CopyFailed else res == Miss && out == input[..siz]
  {
    if |input| < siz {
      return CopyFailed, input;
    }
    res, out := Miss, input[..siz];
  }

  /** The header loop of zipbare, which keeps the last byte. */
  method BareHead(c: Cipher, passwd: seq<Byte>, input: seq<Byte>) returns (enough: bool, c1: Byte)
    requires c.Valid()
    modifies c`keys
    ensures enough == (|input| >= HEAD)
    ensures enough ==> c1 == Decrypt(KeysOf(passwd), input[..HEAD])[HEAD - 1]
    ensures enough ==> c.keys == KeysAfter(KeysOf(passwd), Decrypt(KeysOf(passwd), input[..HEAD]))
  {
    ghost var k := KeysOf(passwd);
    KeysAfterNone(k);
    hide KeysAfter, Decrypt;
    c.InitKeys(passwd);
    c1 := 0;
    assert input[..0] == [];
    for pos: nat := 0 to HEAD
      invariant pos <= |input| && c.keys == KeysAfter(k, Decrypt(k, input[..pos]))
      invariant pos > 0 ==> c1 == Decrypt(k, input[..pos])[pos - 1]
    {
      if pos >= |input| {
        return false, c1;
      }
      c1 := c.Decode(input[pos], k, input[..pos]);
      assert input[..pos] + [input[pos]] == input[..pos + 1];
    }
    enough := true;
  }

  /** The data loop of zipbare. */
  method BareData(c: Cipher, siz: nat, ghost k: Keys, input: seq<Byte>) returns (res: Code, out: seq<Byte>)
    requires c.Valid() && HEAD <= |input| && c.keys == KeysAfter(k, Decrypt(k, input[..HEAD]))
    modifies c`keys
    ensures res == if |input| < siz + HEAD then Eof else Ok
    ensures res == Ok ==> out == Decrypt(k, input)[HEAD..siz + HEAD]
  {
    hide KeysAfter, Decrypt, Crc.TableOf;
    ghost var head := Decrypt(k, input[..HEAD]);
    SameLength(k, input[..HEAD]);
    SameLength(k, input);
    var w := new Writer();
    var size: nat := siz;
    ghost var done := input[..HEAD];
    assert head + [] == head;
    while size > 0
      invariant size <= siz && HEAD + siz - size <= |input| && w.Valid() && fresh(w) && fresh(w.buf)
      invariant c.keys == KeysAfter(k, Decrypt(k, done)) && done == input[..HEAD + siz - size]
      invariant Decrypt(k, done) == head + w.Written()
    {
      var pos: nat := HEAD + siz - size;
      if pos >= |input| {
        return Eof, w.out;
      }
      var c1 := c.Decode(input[pos], k, done);
      OneMore([], input, pos, done);
      done := done + [input[pos]];
      assert head + w.Written() + [c1] == head + (w.Written() + [c1]);
      w.Put(c1);
      size := size - 1;
    }
    w.Flush();
    res, out := Ok, w.out;
    DecryptPrefix(k, input, HEAD + siz);
    Behind(head, out, Decrypt(k, input), siz);
  }

  lemma SameLength(k: Keys, s: seq<Byte>)
    ensures |Decrypt(k, s)| == |s|
  {
  }

  lemma Behind<T>(head: seq<T>, out: seq<T>, all: seq<T>, siz: nat)
    requires |head| == HEAD && HEAD + siz <= |all| && all[..HEAD + siz] == head + out
    ensures out == all[HEAD..siz + HEAD]
  {
  }

  lemma {:induction false} DecryptPrefix(k: Keys, s: seq<Byte>, n: nat)
    requires n <= |s|
    ensures Decrypt(k, s[..n]) == Decrypt(k, s)[..n]
    decreases |s|
  {
    hide XorByte, Mixed, KeysAfter;
    if n == |s| {
      assert s[..n] == s;
    } else {
      var t := s[..|s| - 1];
      DecryptPrefix(k, t, n);
      assert t[..n] == s[..n];
    }
  }

  /** Whatever the password, the random bytes and the data, what zipcloak writes passes the check of
      zipbare, which gives the data back. */
  method CloakAndBare(z: Entry, passwd: seq<Byte>, random: seq<Byte>, data: seq<Byte>) returns (out: seq<Byte>)
    requires |random| == HEAD - 2 && z.siz == |data|
    modifies z
    ensures out == data && z.siz == |data| && !z.encrypted
  {
    hide KeysOf, Encrypt, Decrypt, TopByte, HeaderText, KeysAfter, Crc.TableOf;
    var table := Crc.MakeCrcTable(false);
    JustTheTable(table[..]);
    var c := new Cipher(table);
    var res, hidden := ZipCloak(c, z, passwd, random, data);
    RestoresEntry(passwd, random, z.crc, data);
    assert data[..|data|] == data;
    var d := new Cipher(table);
    res, out := ZipBare(d, z, passwd, hidden);
  }

  lemma JustTheTable(t: seq<Word>)
    requires Crc.Tables(t, false)
    ensures Crc.TableOf(t, 0)
  {
  }

  /** The bytes zipcloak writes: header check and data. */
  lemma RestoresEntry(passwd: seq<Byte>, random: seq<Byte>, crc: Word, data: seq<Byte>)
    requires |random| == HEAD - 2
    ensures var k, text := KeysOf(passwd), HeaderText(passwd, random, crc);
            var written := Encrypt(k, text + data);
            var plain := Decrypt(k, written);
            && |written| == |plain| == HEAD + |data|
            && plain[HEAD - 1] == TopByte(crc) && plain[HEAD..HEAD + |data|] == data
  {
    DecryptEncrypt(KeysOf(passwd), HeaderText(passwd, random, crc) + data);
    hide TopByte, NextTop, KeysOf;
  }
}
