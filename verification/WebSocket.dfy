/** The WebSocket framing of mongoose_boj/mongoose/mongoose.c (sections 5.2 and 5.3 of RFC 6455): sending,
    taking frames out of a receive buffer that fills in pieces, and unmasking in place. */
module WebSocket {
  import opened Options

  type Byte = x: int | 0 <= x < 256

  const FIN := 128
  const PONG := 10
  const PING := 9
  const CLOSE := 8
  const IO_SIZE := 512
  const MAX_RECV := 3 * 1024 * 1024
  const M32 := 0x1_0000_0000

  // ---------- masking

  /** Exclusive or, bit by bit from the low end. */
  function XorLow(a: nat, b: nat, bits: nat): (r: nat) {
    if bits == 0 then 0 else (a + b) % 2 + 2 * XorLow(a / 2, b / 2, bits - 1)
  }

  function Xor(a: Byte, b: Byte): Byte {
    XorSize(a, b, 8);
    XorLow(a, b, 8)
  }

  function Power2(n: nat): nat { if n == 0 then 1 else 2 * Power2(n - 1) }

  lemma XorSize(a: nat, b: nat, bits: nat)
    ensures XorLow(a, b, bits) < Power2(bits) && Power2(8) == 256
  {
  }

  lemma LowBit(a: nat, b: nat, x: nat)
    ensures var r := (a + b) % 2 + 2 * x;
            r / 2 == x && (r + b) % 2 + 2 * (a / 2) == a
  {
  }

  lemma {:induction false} XorLowTwice(a: nat, b: nat, bits: nat)
    requires a < Power2(bits)
    ensures XorLow(XorLow(a, b, bits), b, bits) == a
  {
    if bits > 0 {
      XorLowTwice(a / 2, b / 2, bits - 1);
      LowBit(a, b, XorLow(a / 2, b / 2, bits - 1));
    }
  }

  lemma XorTwice(a: Byte, b: Byte)
    ensures Xor(Xor(a, b), b) == a
  {
    XorSize(a, b, 8);
    XorLowTwice(a, b, 8);
  }

  /** An empty mask changes nothing. */
  function Masked(p: seq<Byte>, mask: seq<Byte>): (r: seq<Byte>)
    requires |mask| == 0 || |mask| == 4
    ensures |r| == |p|
  {
    if mask == [] then p else seq(|p|, i requires 0 <= i < |p| => Xor(p[i], mask[i % 4]))
  }

  lemma MaskedTwice(p: seq<Byte>, mask: seq<Byte>)
    requires |mask| == 0 || |mask| == 4
    ensures Masked(Masked(p, mask), mask) == p
  {
    hide Xor;
    if mask != [] {
      forall i | 0 <= i < |p|
        ensures Masked(Masked(p, mask), mask)[i] == p[i]
      {
        XorTwice(p[i], mask[i % 4]);
      }
    }
  }

  // ---------- frames on the wire

  /** How the payload length is written. */
  datatype Form = Short | Medium | Long

  datatype Frame = Frame(flags: Byte, form: Form, mask: seq<Byte>, payload: seq<Byte>) {
    predicate Valid() {
      && (|mask| == 0 || |mask| == 4)
      && |payload| < match form case Short => 126 case Medium => 0x1_0000 case Long => M32 * M32
    }

    function Opcode(): int { flags % 16 }
  }

  function Word(x: nat): seq<Byte>
    requires x < M32
  {
    [x / 0x100_0000, x / 0x1_0000 % 256, x / 256 % 256, x % 256]
  }

  function LengthCode(f: Frame): (r: nat)
    requires f.Valid()
    ensures r < 128
  {
    match f.form case Short => |f.payload| case Medium => 126 case Long => 127
  }

  function ExtendedLength(f: Frame): seq<Byte>
    requires f.Valid()
  {
    var n := |f.payload|;
    match f.form
    case Short => []
    case Medium => [n / 256, n % 256]
    case Long => Word(n / M32) + Word(n % M32)
  }

  function Head(f: Frame): seq<Byte>
    requires f.Valid()
  {
    [f.flags, LengthCode(f) + if f.mask == [] then 0 else 128] + ExtendedLength(f) + f.mask
  }

  function Wire(f: Frame): seq<Byte>
    requires f.Valid()
  {
    Head(f) + Masked(f.payload, f.mask)
  }

  // ---------- reading a frame

  function ReadWord(b: seq<Byte>, i: nat): nat
    requires i + 4 <= |b|
  {
    (b[i] as int) * 0x100_0000 + (b[i + 1] as int) * 0x1_0000 + (b[i + 2] as int) * 256 + b[i + 3]
  }

  lemma ReadBack(b: seq<Byte>, i: nat, x: nat)
    requires i + 4 <= |b| && x < M32 && b[i] == Word(x)[0] && b[i + 1] == Word(x)[1]
    requires b[i + 2] == Word(x)[2] && b[i + 3] == Word(x)[3]
    ensures ReadWord(b, i) == x
  {
    var y, z := x / 256, x / 0x1_0000;
    assert y / 256 == z && z / 256 == x / 0x100_0000;
    assert x == 256 * y + x % 256 && y == 256 * z + y % 256 && z == 256 * (z / 256) + z % 256;
  }

  lemma WrittenBack(b: seq<Byte>, i: nat)
    requires i + 4 <= |b|
    ensures ReadWord(b, i) < M32 && Word(ReadWord(b, i)) == b[i..i + 4]
  {
    var x := ReadWord(b, i);
    assert x < M32;
    Digits(b[i], b[i + 1], b[i + 2], b[i + 3]);
  }

  lemma Digits(a: Byte, b: Byte, c: Byte, d: Byte)
    ensures var x := (a as int) * 0x100_0000 + (b as int) * 0x1_0000 + (c as int) * 256 + d;
            x / 0x100_0000 == a && x / 0x1_0000 % 256 == b && x / 256 % 256 == c && x % 256 == d
  {
    var x, y := (a as int) * 0x100_0000 + (b as int) * 0x1_0000 + (c as int) * 256 + d, (a as int) * 256 + b;
    assert x / 256 == y * 256 + c;
    assert x / 0x1_0000 == y;
  }

  /** struct ws_msg, with the mask length beside it. */
  datatype Msg = Msg(flags: Byte, headerLen: nat, dataLen: nat, maskLen: nat)

  /** The header part of ws_process. */
  function ReadHeader(b: seq<Byte>): (m: Msg) {
    if |b| < 2 then Msg(0, 0, 0, 0)
    else
      var n := b[1] % 128;
      var maskLen := if b[1] >= FIN then 4 else 0;
      if n < 126 && |b| >= maskLen then Msg(b[0], 2 + maskLen, n, maskLen)
      else if n == 126 && |b| >= 4 + maskLen then Msg(b[0], 4 + maskLen, (b[2] as int) * 256 + b[3], maskLen)
      else if |b| >= 10 + maskLen then Msg(b[0], 10 + maskLen, ReadWord(b, 2) * M32 + ReadWord(b, 6), maskLen)
      else Msg(b[0], 0, 0, maskLen)
  }

  function FormOf(headerLen: nat, maskLen: nat): Form {
    if headerLen == 2 + maskLen then Short else if headerLen == 4 + maskLen then Medium else Long
  }

  /** The frame at the head of a buffer, if all of it has arrived. */
  function FrameAt(b: seq<Byte>): Option<Frame> {
    var m := ReadHeader(b);
    var end := m.headerLen + m.dataLen;
    if m.headerLen == 0 || end > |b| then None
    else
      var mask := b[m.headerLen - m.maskLen..m.headerLen];
      Some(Frame(m.flags, FormOf(m.headerLen, m.maskLen), mask, Masked(b[m.headerLen..end], mask)))
  }

  /** What follows the frame at the head of a buffer. */
  function Behind(b: seq<Byte>): seq<Byte>
    requires FrameAt(b).Some?
  {
    b[ReadHeader(b).headerLen + ReadHeader(b).dataLen..]
  }

  /** A frame sent is the frame found, whatever follows it. */
  lemma FrameAtWire(f: Frame, rest: seq<Byte>)
    requires f.Valid()
    ensures FrameAt(Wire(f) + rest) == Some(f)
    ensures var m := ReadHeader(Wire(f) + rest);
            m.flags == f.flags && m.headerLen == |Head(f)| && m.dataLen == |f.payload| && m.maskLen == |f.mask|
  {
    var b := Wire(f) + rest;
    HeaderOfWire(f, b);
    hide ReadHeader, Word, Xor;
    var h, n := |Head(f)|, |f.payload|;
    assert b[h..h + n] == Masked(f.payload, f.mask);
    assert b[h - |f.mask|..h] == f.mask;
    MaskedTwice(f.payload, f.mask);
  }

  lemma HeaderOfWire(f: Frame, b: seq<Byte>)
    requires f.Valid() && Head(f) <= b
    ensures ReadHeader(b) == Msg(f.flags, |Head(f)|, |f.payload|, |f.mask|)
    ensures FormOf(|Head(f)|, |f.mask|) == f.form
  {
    var n := |f.payload|;
    var h := Head(f);
    assert b[0] == h[0] && b[1] == h[1];
    match f.form {
      case Short =>
      case Medium =>
        assert b[2] == h[2] == n / 256 && b[3] == h[3] == n % 256;
      case Long =>
        var w, v := Word(n / M32), Word(n % M32);
        hide Word, ReadWord;
        assert b[2] == h[2] == w[0] && b[3] == h[3] == w[1] && b[4] == h[4] == w[2] && b[5] == h[5] == w[3];
        assert b[6] == h[6] == v[0] && b[7] == h[7] == v[1] && b[8] == h[8] == v[2] && b[9] == h[9] == v[3];
        ReadBack(b, 2, n / M32);
        ReadBack(b, 6, n % M32);
    }
  }

  /** A frame found is a frame that was sent: the buffer begins with its bytes. */
  lemma WireOfFrameAt(b: seq<Byte>)
    requires FrameAt(b).Some?
    ensures var f := FrameAt(b).value;
            && f.Valid() && Wire(f) <= b
            && ReadHeader(b) == Msg(f.flags, |Head(f)|, |f.payload|, |f.mask|)
  {
    hide ReadHeader, FrameAt, Masked, Word, ReadWord, Xor, Head, Frame.Valid;
    var m, f := ReadHeader(b), FrameAt(b).value;
    var h := m.headerLen;
    HeadOfFrame(b);
    PartsOfFrame(b);
    MaskedTwice(b[h..h + m.dataLen], f.mask);
    assert b[..h] + b[h..h + m.dataLen] == b[..h + m.dataLen];
  }

  lemma PartsOfFrame(b: seq<Byte>)
    requires FrameAt(b).Some?
    ensures var m, f := ReadHeader(b), FrameAt(b).value;
            var h, n := m.headerLen, m.headerLen + m.dataLen;
            && n <= |b| && (|f.mask| == 0 || |f.mask| == 4) && f.payload == Masked(b[h..n], f.mask)
            && f.flags == m.flags && |f.payload| == m.dataLen && |f.mask| == m.maskLen
  {
    HeaderBytes(b);
    hide ReadHeader, Xor;
  }

  lemma HeadOfFrame(b: seq<Byte>)
    requires FrameAt(b).Some?
    ensures var m, f := ReadHeader(b), FrameAt(b).value;
            f.Valid() && Head(f) == b[..m.headerLen]
  {
    hide Xor;
    var m, f := ReadHeader(b), FrameAt(b).value;
    ExtensionOfFrame(b);
    var h, e := m.headerLen, m.headerLen - m.maskLen;
    assert f.mask == b[e..h] && [f.flags, b[1]] == b[..2];
    assert b[..h] == (b[..2] + b[2..e]) + b[e..h];
  }

  lemma ExtensionOfFrame(b: seq<Byte>)
    requires FrameAt(b).Some?
    ensures var m, f := ReadHeader(b), FrameAt(b).value;
            && f.Valid() && 2 <= m.headerLen - m.maskLen <= |b|
            && b[1] == LengthCode(f) + (if f.mask == [] then 0 else 128)
            && ExtendedLength(f) == b[2..m.headerLen - m.maskLen]
  {
    HeaderBytes(b);
    hide ReadHeader, Xor, ReadWord, Word, Masked;
    var m, f := ReadHeader(b), FrameAt(b).value;
    assert |f.payload| == m.dataLen && |f.mask| == m.maskLen;
    hide FrameAt;
    if f.form == Long {
      LongLength(b, m.dataLen);
    }
  }

  lemma LongLength(b: seq<Byte>, n: nat)
    requires |b| >= 10 && n == ReadWord(b, 2) * M32 + ReadWord(b, 6)
    ensures n < M32 * M32 && Word(n / M32) + Word(n % M32) == b[2..10]
  {
    WrittenBack(b, 2);
    WrittenBack(b, 6);
    hide *;
    assert n / M32 == ReadWord(b, 2) && n % M32 == ReadWord(b, 6);
    assert b[2..6] + b[6..10] == b[2..10];
  }

  lemma HeaderBytes(b: seq<Byte>)
    requires |b| >= 2
    ensures var m := ReadHeader(b);
            var e := m.headerLen - m.maskLen;
            && m.flags == b[0] && m.maskLen == (if b[1] >= FIN then 4 else 0)
            && (m.headerLen > 0 ==> e == 2 || e == 4 || e == 10)
            && (m.headerLen > 0 && e == 2 ==>
                  m.dataLen < 126 && b[1] == m.dataLen + (if m.maskLen == 0 then 0 else FIN))
            && (e == 4 ==> |b| >= 4 && m.dataLen == (b[2] as int) * 256 + b[3]
                           && b[1] == 126 + if m.maskLen == 0 then 0 else FIN)
            && (e == 10 ==> |b| >= 10 && m.dataLen == ReadWord(b, 2) * M32 + ReadWord(b, 6)
                            && b[1] == 127 + if m.maskLen == 0 then 0 else FIN)
  {
  }

  /** No frame is a proper beginning of another: bytes can be cut into frames in one way only. */
  lemma WirePrefixFree(f: Frame, g: Frame, a: seq<Byte>, b: seq<Byte>)
    requires f.Valid() && g.Valid() && Wire(f) + a == Wire(g) + b
    ensures f == g && a == b
  {
    FrameAtWire(f, a);
    FrameAtWire(g, b);
    assert a == (Wire(f) + a)[|Wire(f)|..];
  }

  lemma FrameAtMore(b: seq<Byte>, c: seq<Byte>)
    requires FrameAt(b).Some?
    ensures FrameAt(b + c) == FrameAt(b)
  {
    hide *;
    WireOfFrameAt(b);
    var w := Wire(FrameAt(b).value);
    Regroup(w, b, c);
    FrameAtWire(FrameAt(b).value, b[|w|..] + c);
  }

  lemma Regroup<T>(w: seq<T>, b: seq<T>, c: seq<T>)
    requires w <= b
    ensures b + c == w + (b[|w|..] + c)
  {
  }

  // ---------- the sum of the lengths in 64 bits

  /** What ws_process returns when header and payload length are added in 64 bits, as the program does. */
  function ProcessedIn64(b: seq<Byte>): nat {
    var m := ReadHeader(b);
    var sum := (m.headerLen + m.dataLen) % (M32 * M32);
    if sum > |b| then 0 else sum
  }

  /** What it returns when they are added without bound, as in this model. */
  function Processed(b: seq<Byte>): nat {
    var m := ReadHeader(b);
    if FrameAt(b).None? then 0 else m.headerLen + m.dataLen
  }

  /** Both agree exactly when the sum does not wrap, or wraps to nothing or to more than has arrived. */
  lemma SumWraps(b: seq<Byte>)
    requires |b| < M32 * M32
    ensures var m := ReadHeader(b);
            var sum := m.headerLen + m.dataLen;
            ProcessedIn64(b) == Processed(b)
            <==> sum < M32 * M32 || sum % (M32 * M32) == 0 || sum % (M32 * M32) > |b|
  {
    var m := ReadHeader(b);
    HeaderBytesIf(b);
    hide ReadHeader, Masked;
    assert m.headerLen == 0 ==> m.dataLen == 0;
  }

  lemma HeaderBytesIf(b: seq<Byte>)
    ensures ReadHeader(b).headerLen == 0 ==> ReadHeader(b).dataLen == 0
  {
  }

  /** For example a length of all ones, unmasked: no frame has arrived, and yet nine bytes are taken. */
  lemma AllOnes()
    ensures var b: seq<Byte> := [0x82, 127, 255, 255, 255, 255, 255, 255, 255, 255];
            Processed(b) == 0 && ProcessedIn64(b) == 9
  {
    var b: seq<Byte> := [0x82, 127, 255, 255, 255, 255, 255, 255, 255, 255];
    assert ReadWord(b, 2) == M32 - 1 && ReadWord(b, 6) == M32 - 1;
    assert ReadHeader(b) == Msg(0x82, 10, M32 * M32 - 1, 0);
  }

  // ---------- what a stream of bytes delivers

  datatype Event = Control(flags: Byte, data: seq<Byte>) | Message(flags: Byte, data: seq<Byte>)

  function EventOf(f: Frame): Event {
    if f.Opcode() == PING || f.Opcode() == PONG || f.Opcode() == CLOSE then Control(f.flags, f.payload)
    else Message(f.flags, f.payload)
  }

  datatype Outcome = Outcome(events: seq<Event>, rest: seq<Byte>, closed: bool)

  /** What is delivered of the bytes received so far, and what stays in the buffer. After a close
      frame nothing more is delivered. */
  function Deliver(b: seq<Byte>): Outcome
    decreases |b|
  {
    if FrameAt(b).None? then Outcome([], b, false)
    else
      WireOfFrameAt(b);
      var f := FrameAt(b).value;
      if f.Opcode() == CLOSE then Outcome([EventOf(f)], b[|Wire(f)|..], true)
      else
        assert |b[|Wire(f)|..]| < |b|;
        var d := Deliver(b[|Wire(f)|..]);
        Outcome([EventOf(f)] + d.events, d.rest, d.closed)
  }

  /** It makes no difference where the stream is cut. */
  lemma {:induction false} DeliverMore(b: seq<Byte>, c: seq<Byte>)
    ensures var d := Deliver(b);
            if d.closed then Deliver(b + c) == Outcome(d.events, d.rest + c, true)
            else var e := Deliver(d.rest + c);
                 Deliver(b + c) == Outcome(d.events + e.events, e.rest, e.closed)
    decreases |b|
  {
    hide *;
    if FrameAt(b).Some? {
      DeliverStep(b, c);
      var f := FrameAt(b).value;
      var rest := b[|Wire(f)|..];
      DeliverMore(rest, c);
      var d, e := Deliver(rest), Deliver(Deliver(rest).rest + c);
      assert ([EventOf(f)] + d.events) + e.events == [EventOf(f)] + (d.events + e.events);
    } else {
      DeliverNothing(b);
    }
  }

  lemma DeliverNothing(b: seq<Byte>)
    requires FrameAt(b).None?
    ensures Deliver(b) == Outcome([], b, false)
  {
  }

  lemma DeliverStep(b: seq<Byte>, c: seq<Byte>)
    requires FrameAt(b).Some?
    ensures var f := FrameAt(b).value;
            && f.Valid() && |Wire(f)| <= |b| && |b[|Wire(f)|..]| < |b|
            && (var e, rest := EventOf(f), b[|Wire(f)|..];
                if f.Opcode() == CLOSE then
                  Deliver(b) == Outcome([e], rest, true) && Deliver(b + c) == Outcome([e], rest + c, true)
                else
                  var d, d' := Deliver(rest), Deliver(rest + c);
                  && Deliver(b) == Outcome([e] + d.events, d.rest, d.closed)
                  && Deliver(b + c) == Outcome([e] + d'.events, d'.rest, d'.closed))
  {
    WireOfFrameAt(b);
    FrameAtMore(b, c);
    hide FrameAt, Head, EventOf, Frame.Opcode, Wire, Masked;
    var w := Wire(FrameAt(b).value);
    Drop(w, b, c);
  }

  lemma Drop<T>(w: seq<T>, b: seq<T>, c: seq<T>)
    requires w <= b
    ensures (b + c)[|w|..] == b[|w|..] + c
  {
  }

  function Wires(frames: seq<Frame>): seq<Byte>
    requires forall f <- frames :: f.Valid()
  {
    if frames == [] then [] else Wire(frames[0]) + Wires(frames[1..])
  }

  /** The frames that are heard: all up to the first close, and that one. */
  function Heard(frames: seq<Frame>): seq<Event> {
    if frames == [] then []
    else [EventOf(frames[0])] + if frames[0].Opcode() == CLOSE then [] else Heard(frames[1..])
  }

  predicate HasClose(frames: seq<Frame>) {
    exists f <- frames :: f.Opcode() == CLOSE
  }

  /** Frames on the wire are delivered one by one, up to the first close. */
  lemma {:induction false} DeliverWires(frames: seq<Frame>)
    requires forall f <- frames :: f.Valid()
    ensures var d := Deliver(Wires(frames));
            d.events == Heard(frames) && d.closed == HasClose(frames) && (!d.closed ==> d.rest == [])
  {
    if frames != [] {
      var f, more := frames[0], frames[1..];
      FrameAtWire(f, Wires(more));
      DeliverWires(more);
      hide FrameAt, Wire, Head, Masked, ReadHeader, Frame.Valid;
      assert Wires(frames) == Wire(f) + Wires(more);
      assert Wires(frames)[|Wire(f)|..] == Wires(more);
      CloseAhead(frames);
    }
  }

  lemma CloseAhead(frames: seq<Frame>)
    requires frames != []
    ensures HasClose(frames) <==> frames[0].Opcode() == CLOSE || HasClose(frames[1..])
  {
  }

  /** What a part of the stream delivers is the beginning of what all of it does. */
  lemma DeliverPart(part: seq<Byte>, frames: seq<Frame>)
    requires (forall f <- frames :: f.Valid()) && part <= Wires(frames)
    ensures Deliver(part).events <= Heard(frames)
  {
    DeliverMore(part, Wires(frames)[|part|..]);
    assert part + Wires(frames)[|part|..] == Wires(frames);
    DeliverWires(frames);
  }

  // ---------- buffers

  lemma MaskedAt(p: seq<Byte>, mask: seq<Byte>, i: nat)
    requires |mask| == 4 && i < |p|
    ensures Masked(p, mask)[i] == Xor(p[i], mask[i % 4])
  {
    hide Xor;
  }

  lemma Replaced<T>(was: seq<T>, now: seq<T>, part: seq<T>, start: nat)
    requires start + |part| <= |was| == |now|
    requires forall k :: start <= k < start + |part| ==> now[k] == part[k - start]
    requires forall k :: 0 <= k < start || start + |part| <= k < |was| ==> now[k] == was[k]
    ensures now == was[..start] + part + was[start + |part|..]
  {
  }

  class IoBuf {
    var buf: array<Byte>      // size is its length
    var len: nat

    ghost predicate Valid()
      reads this, buf
    {
      len <= buf.Length
    }

    ghost function Contents(): seq<Byte>
      requires Valid()
      reads this, buf
    {
      buf[..len]
    }

    constructor ()
      ensures Valid() && Contents() == [] && fresh(buf)
    {
      buf, len := new Byte[0], 0;
    }

    /** mg_iobuf_resize to a size that holds what there is: a zeroed block takes the bytes over, and
        the old one is cleared. */
    method Grow(size: nat)
      requires Valid() && size >= len
      modifies this`buf, buf
      ensures Valid() && buf.Length == size && Contents() == old(Contents())
      ensures buf == old(buf) || fresh(buf)
    {
      if size != buf.Length {
        var p, was := new Byte[size](_ => 0), buf;
        for i := 0 to len
          invariant p[..i] == was[..i] && was[..] == old(buf[..])
        {
          p[i] := was[i];
        }
        forall i | 0 <= i < was.Length {
          was[i] := 0;
        }
        buf := p;
      }
    }

    /** mg_iobuf_append */
    method Append(data: seq<Byte>)
      requires Valid()
      modifies this, buf
      ensures Valid() && Contents() == old(Contents()) + data
      ensures buf == old(buf) || fresh(buf)
    {
      var size: nat := len + |data|;
      if size > buf.Length {
        size := size + IO_SIZE;
        size := size - size % IO_SIZE;
        Grow(size);
      }
      CopyIn(data);
    }

    /** The bytes placed after the contents become part of them. */
    method CopyIn(data: seq<Byte>)
      requires Valid() && len + |data| <= buf.Length
      modifies this`len, buf
      ensures Valid() && Contents() == old(Contents()) + data
    {
      var n := len;
      for i := 0 to |data|
        invariant len == n && buf[..n + i] == old(buf[..n]) + data[..i]
      {
        buf[n + i] := data[i];
      }
      len := n + |data|;
    }

    /** mg_iobuf_delete */
    method Delete(n0: nat) returns (n: nat)
      requires Valid()
      modifies this`len, buf
      ensures Valid() && n == (if n0 > old(len) then 0 else n0) && Contents() == old(Contents())[n..]
      ensures forall k :: len <= k < old(len) ==> buf[k] == 0
    {
      n := if n0 > len then 0 else n0;
      ghost var was := Contents();
      var rest: nat := len - n;
      for i := 0 to rest
        invariant forall k :: 0 <= k < i ==> buf[k] == was[n + k]
        invariant forall k :: i <= k < rest + n ==> buf[k] == was[k]
      {
        buf[i] := buf[n + i];
      }
      assert buf[..rest] == was[n..];
      forall k | rest <= k < rest + n {
        buf[k] := 0;
      }
      len := rest;
    }

    /** p[i] ^= m[i & 3], for the n bytes from start on and the mask just before them. */
    method MaskInPlace(start: nat, n: nat)
      requires Valid() && 4 <= start && start + n <= len
      modifies buf
      ensures Valid()
      ensures Contents() == var b := old(Contents());
                            b[..start] + Masked(b[start..start + n], b[start - 4..start]) + b[start + n..]
    {
      hide Xor, Masked;
      ghost var was := Contents();
      ghost var mask, p := was[start - 4..start], was[start..start + n];
      ghost var q := Masked(p, mask);
      for i := 0 to n
        invariant forall k :: start <= k < start + i ==> buf[k] == q[k - start]
        invariant forall k :: start + i <= k < len ==> buf[k] == was[k]
        invariant forall k :: 0 <= k < start ==> buf[k] == was[k]
      {
        MaskedAt(p, mask, i);
        assert p[i] == was[start + i] && mask[i % 4] == was[start - 4 + i % 4];
        buf[start + i] := Xor(buf[start + i], buf[start - 4 + i % 4]);
      }
      Replaced(was, Contents(), q, start);
    }

    function Slice(i: nat, n: nat): seq<Byte>
      requires len <= buf.Length && i + n <= len
      reads this, buf
    {
      buf[..len][i..i + n]
    }
  }

  // ---------- the pieces of a stream

  lemma DeliverOne(b: seq<Byte>)
    requires FrameAt(b).Some?
    ensures var f := FrameAt(b).value;
            && f.Valid() && Wire(f) <= b && |b[|Wire(f)|..]| < |b| && Behind(b) == b[|Wire(f)|..]
            && (if f.Opcode() == CLOSE then Deliver(b) == Outcome([EventOf(f)], b[|Wire(f)|..], true)
                else
                  var d := Deliver(b[|Wire(f)|..]);
                  Deliver(b) == Outcome([EventOf(f)] + d.events, d.rest, d.closed))
  {
    WireOfFrameAt(b);
    hide FrameAt, Head, EventOf, Frame.Opcode, Wire, Masked;
  }

  /** A frame cut short is no frame. */
  lemma CutShort(part: seq<Byte>, f: Frame, more: seq<Byte>)
    requires f.Valid() && part <= Wire(f) + more && |part| < |Wire(f)|
    ensures FrameAt(part).None?
  {
    if FrameAt(part).Some? {
      WireOfFrameAt(part);
      var g := FrameAt(part).value;
      hide *;
      var rest := (Wire(f) + more)[|Wire(g)|..];
      assert Wire(g) + rest == Wire(f) + more;
      WirePrefixFree(g, f, rest, more);
    }
  }

  /** What waits in the buffer is less than a frame, wherever the stream was cut. */
  lemma {:induction false} LittleWaits(part: seq<Byte>, frames: seq<Frame>, bound: nat)
    requires bound > 0 && forall f <- frames :: f.Valid() && |Wire(f)| <= bound
    requires part <= Wires(frames)
    ensures var d := Deliver(part); !d.closed ==> |d.rest| < bound
  {
    hide FrameAt, Head, EventOf, Frame.Opcode, Wire, Masked, Frame.Valid;
    if frames == [] {
      DeliverEmpty();
    } else {
      var f, more := frames[0], frames[1..];
      if |part| < |Wire(f)| {
        CutShort(part, f, Wires(more));
        DeliverNothing(part);
      } else {
        var part' := part[|Wire(f)|..];
        assert part == Wire(f) + part' && part' <= Wires(more);
        FrameAtWire(f, part');
        DeliverOne(part);
        LittleWaits(part', more, bound);
      }
    }
  }

  lemma DeliverEmpty()
    ensures FrameAt([]).None? && Deliver([]) == Outcome([], [], false)
  {
  }

  /** Where the parts of the frame at the head of a buffer lie. */
  lemma Plain(b: seq<Byte>)
    requires FrameAt(b).Some?
    ensures var m, f := ReadHeader(b), FrameAt(b).value;
            var h, n := m.headerLen, m.headerLen + m.dataLen;
            && f.Valid() && Wire(f) <= b && |f.payload| < M32 * M32
            && m == Msg(f.flags, |Head(f)|, |f.payload|, |f.mask|) && n == |Wire(f)| > 0 && b[..h] == Head(f)
            && (m.maskLen == 0 || m.maskLen == 4) && m.maskLen <= h && n <= |b|
            && Masked(b[h..n], b[h - m.maskLen..h]) == f.payload
            && (m.maskLen == 0 ==> b[h..n] == f.payload)
  {
    WireOfFrameAt(b);
    HeadOfFrame(b);
    hide ReadHeader, Head;
  }

  // ---------- the connection

  function FormFor(n: nat): Form { if n < 126 then Short else if n < 65536 then Medium else Long }

  /** What mg_ws_send is to put on the wire, in the shortest form. */
  function FrameFor(op: int, mask: seq<Byte>, data: seq<Byte>): Frame {
    Frame(op % FIN + FIN, FormFor(|data|), mask, data)
  }

  function PingData(events: seq<Event>): seq<seq<Byte>> {
    if events == [] then []
    else (if events[0].flags % 16 == PING then [events[0].data] else []) + PingData(events[1..])
  }

  lemma {:induction false} PingDataMore(a: seq<Event>, e: Event)
    ensures PingData(a + [e]) == PingData(a) + if e.flags % 16 == PING then [e.data] else []
  {
    if a != [] {
      assert (a + [e])[1..] == a[1..] + [e];
      PingDataMore(a[1..], e);
    } else {
      assert a + [e] == [e];
    }
  }

  /** One pong for every ping, in order, with the ping's own data. */
  ghost predicate Answers(replies: seq<Frame>, events: seq<Event>, isClient: bool) {
    var pings := PingData(events);
    && |replies| == |pings|
    && forall i :: 0 <= i < |pings| ==>
         replies[i] == FrameFor(PONG, replies[i].mask, pings[i]) && |replies[i].mask| == if isClient then 4 else 0
  }

  lemma {:induction false} WiresAppend(frames: seq<Frame>, f: Frame)
    requires f.Valid() && forall g <- frames :: g.Valid()
    ensures forall g <- frames + [f] :: g.Valid()
    ensures Wires(frames + [f]) == Wires(frames) + Wire(f)
  {
    if frames != [] {
      hide Wire, Masked, Frame.Valid;
      assert (frames + [f])[1..] == frames[1..] + [f];
      WiresAppend(frames[1..], f);
    } else {
      assert frames + [f] == [f];
    }
  }

  /** The header that mg_ws_send builds, without the mask. */
  method SendHeader(n: nat, op: int, isClient: bool) returns (header: seq<Byte>)
    requires n < M32 * M32
    ensures forall mask: seq<Byte>, data: seq<Byte> :: |mask| == (if isClient then 4 else 0) && |data| == n ==>
              FrameFor(op, mask, data).Valid() && Head(FrameFor(op, mask, data)) == header + mask
  {
    var first := op % FIN + FIN;
    if n < 126 {
      header := [first, n];
    } else if n < 65536 {
      header := [first, 126] + [n / 256, n % 256];
    } else {
      header := [first, 127] + Word(n / M32) + Word(n % M32);
    }
    if isClient {
      header := header[1 := header[1] + 128];
    }
  }

  class Connection {
    const isClient: bool
    var isClosing: bool
    const recv: IoBuf
    const send: IoBuf
    var events: seq<Event>        // what the handlers have been given
    ghost var taken: seq<Byte>    // every byte received
    ghost var sent: seq<Frame>    // every frame sent

    ghost predicate Buffers()
      reads this, recv, send, recv.buf, send.buf
    {
      recv != send && recv.buf != send.buf && recv.Valid() && send.Valid()
    }

    /** Everything written so far is whole frames. */
    ghost predicate Outgoing()
      reads this`sent, send, send.buf
    {
      send.Valid() && (forall f <- sent :: f.Valid()) && send.Contents() == Wires(sent)
    }

    /** Holds between any two calls: what has been delivered and what waits are those of the bytes
        received, whatever pieces they came in. */
    ghost predicate Valid()
      reads this, recv, send, recv.buf, send.buf
    {
      && Buffers()
      && Outgoing()
      && Deliver(taken).events == events
      && (Deliver(taken).closed ==> isClosing)
      && (!isClosing ==> Deliver(taken).rest == recv.Contents())
    }

    constructor (client: bool)
      ensures Valid() && fresh(recv) && fresh(send) && fresh(recv.buf) && fresh(send.buf)
      ensures isClient == client && !isClosing && events == [] && taken == [] && sent == []
    {
      isClient, isClosing, events := client, false, [];
      recv := new IoBuf();
      send := new IoBuf();
      taken, sent := [], [];
      new;
      DeliverEmpty();
    }

    /** mg_ws_send */
    method WsSend(data: seq<Byte>, op: int) returns (n: nat)
      requires recv != send && recv.buf != send.buf && send.Valid() && |data| < M32 * M32
      requires Outgoing()
      modifies this`sent, send, send.buf
      ensures recv.buf != send.buf && send.Valid() && (send.buf == old(send.buf) || fresh(send.buf))
      ensures Outgoing()
      ensures |sent| == |old(sent)| + 1 && sent[..|old(sent)|] == old(sent)
      ensures var f := sent[|old(sent)|];
              f == FrameFor(op, f.mask, data) && |f.mask| == (if isClient then 4 else 0) && n == |Wire(f)|
    {
      hide Wires, FrameFor, Frame.Valid, Masked, Head;
      ghost var was := send.Contents();
      var headLen: nat, mask: seq<Byte>, f := PutHead(|data|, op, data);
      PutPayload(data, mask, f);
      n := headLen + |data|;
      assert (was + Head(f)) + Masked(data, mask) == was + Wire(f);
      WiresAppend(sent, f);
      sent := sent + [f];
    }

    /** The header, and for a client a random mask. */
    method PutHead(n: nat, op: int, ghost data: seq<Byte>) returns (headLen: nat, mask: seq<Byte>, ghost f: Frame)
      requires recv != send && recv.buf != send.buf && send.Valid() && n == |data| < M32 * M32
      modifies send, send.buf
      ensures recv.buf != send.buf && send.Valid() && (send.buf == old(send.buf) || fresh(send.buf))
      ensures |mask| == if isClient then 4 else 0
      ensures f.Valid() && f == FrameFor(op, mask, data) && f.mask == mask && f.payload == data
      ensures headLen == |Head(f)| && send.Contents() == old(send.Contents()) + Head(f)
    {
      var header: seq<Byte> := SendHeader(n, op, isClient);
      send.Append(header);
      mask := [];
      if isClient {
        var m0: Byte, m1: Byte, m2: Byte, m3: Byte := *, *, *, *;
        mask := [m0, m1, m2, m3];
        send.Append(mask);
      }
      headLen, f := |header| + |mask|, FrameFor(op, mask, data);
      hide Head;
      assert send.Contents() == old(send.Contents()) + (header + mask);
    }

    method PutPayload(data: seq<Byte>, mask: seq<Byte>, ghost f: Frame)
      requires recv != send && recv.buf != send.buf && send.Valid()
      requires f.Valid() && f.payload == data && f.mask == mask && |mask| == if isClient then 4 else 0
      requires exists was: seq<Byte> :: send.Contents() == was + Head(f)
      modifies send, send.buf
      ensures recv.buf != send.buf && send.Valid() && (send.buf == old(send.buf) || fresh(send.buf))
      ensures send.Contents() == old(send.Contents()) + Masked(data, mask)
    {
      ghost var was: seq<Byte> :| send.Contents() == was + Head(f);
      ghost var before := was + Head(f)[..|Head(f)| - |mask|];
      assert Head(f)[|Head(f)| - |mask|..] == mask;
      hide Masked, Head;
      assert send.Contents() == before + mask;
      send.Append(data);
      if isClient {
        MaskSent(before, mask, data);
      }
    }

    /** The last bytes of the send buffer are masked where they lie. */
    method MaskSent(ghost before: seq<Byte>, ghost mask: seq<Byte>, data: seq<Byte>)
      requires send.Valid() && |mask| == 4 && send.Contents() == before + mask + data
      modifies send.buf
      ensures send.Valid() && send.Contents() == before + mask + Masked(data, mask)
    {
      hide Masked;
      ghost var b := send.Contents();
      var start: nat := send.len - |data|;
      send.MaskInPlace(start, |data|);
      LastPart(before, mask, data, b, start);
    }

    lemma LastPart<T>(before: seq<T>, mask: seq<T>, data: seq<T>, b: seq<T>, start: nat)
      requires |mask| == 4 && b == before + mask + data && start == |b| - |data|
      ensures b[..start] == before + mask && b[start..start + |data|] == data
      ensures b[start - 4..start] == mask && b[start + |data|..] == []
    {
    }

    /** ws_process: the length of the frame at the head of the receive buffer, whose payload is now
        unmasked, or 0 and the buffer as it was. */
    method WsProcess(ghost b: seq<Byte>) returns (n: nat, m: Msg)
      requires recv.Valid() && recv.Contents() == b
      modifies recv.buf
      ensures recv.Valid()
      ensures FrameAt(b).None? ==> n == 0 && recv.Contents() == b
      ensures FrameAt(b).Some? ==>
                var f := FrameAt(b).value;
                && f.Valid() && Wire(f) <= b && |f.payload| < M32 * M32
                && n == |Wire(f)| == |Head(f)| + |f.payload| > 0 && m == Msg(f.flags, |Head(f)|, |f.payload|, |f.mask|)
                && recv.Contents() == Head(f) + f.payload + Behind(b)
    {
      m := ParseHeader();
      if m.headerLen + m.dataLen > recv.len {
        return 0, m;
      }
      if m.headerLen == 0 {
        return 0, m;      // the mask loop has nothing to do
      }
      Plain(b);
      hide ReadHeader, Head, FrameAt, Wire, Masked, Frame.Valid;
      n := m.headerLen + m.dataLen;
      if m.maskLen > 0 {
        Unmask(m, b);
      } else {
        assert b == b[..m.headerLen] + b[m.headerLen..n] + b[n..];
      }
    }

    method ParseHeader() returns (m: Msg)
      requires recv.Valid()
      ensures m == ReadHeader(recv.Contents())
    {
      ghost var b := recv.Contents();
      m := Msg(0, 0, 0, 0);
      if recv.len >= 2 {
        var n: nat, maskLen: nat := recv.buf[1] % 128, if recv.buf[1] >= FIN then 4 else 0;
        m := Msg(recv.buf[0], 0, 0, maskLen);
        if n < 126 && recv.len >= maskLen {
          m := m.(dataLen := n, headerLen := 2 + maskLen);
        } else if n == 126 && recv.len >= 4 + maskLen {
          m := m.(headerLen := 4 + maskLen, dataLen := (recv.buf[2] as int) * 256 + recv.buf[3]);
        } else if recv.len >= 10 + maskLen {
          m := m.(headerLen := 10 + maskLen, dataLen := ReadWord(recv.buf[..], 2) * M32 + ReadWord(recv.buf[..], 6));
        }
      }
    }

    method Unmask(m: Msg, ghost b: seq<Byte>)
      requires recv.Valid() && recv.Contents() == b && m.maskLen == 4
      requires 4 <= m.headerLen && m.headerLen + m.dataLen <= recv.len
      modifies recv.buf
      ensures recv.Valid()
      ensures recv.Contents() == b[..m.headerLen]
                                 + Masked(b[m.headerLen..m.headerLen + m.dataLen], b[m.headerLen - 4..m.headerLen])
                                 + b[m.headerLen + m.dataLen..]
    {
      hide Masked;
      recv.MaskInPlace(m.headerLen, m.dataLen);
    }

    /** One turn of the frame loop: the frame at the head of the buffer goes to the handlers, a ping is
        answered, and the frame is removed unless it was a close. */
    method Turn(ghost b: seq<Byte>) returns (more: bool)
      requires Buffers() && recv.Contents() == b && Outgoing()
      modifies this`events, this`isClosing, this`sent, recv`len, recv.buf, send, send.buf
      ensures Buffers() && (send.buf == old(send.buf) || fresh(send.buf))
      ensures Outgoing()
      ensures FrameAt(b).None? ==>
                !more && events == old(events) && isClosing == old(isClosing) && sent == old(sent)
                && recv.Contents() == b
      ensures FrameAt(b).Some? ==>
                var f := FrameAt(b).value;
                && events == old(events) + [EventOf(f)]
                && Replied(old(sent), sent, f, isClient)
                && more == (f.Opcode() != CLOSE) && (more ==> isClosing == old(isClosing)) && (!more ==> isClosing)
                && (more ==> recv.Contents() == Behind(b))
    {
      hide Connection.Outgoing, Wires, Wire, Head, ReadHeader, FrameAt, FrameFor, Frame.Valid, Replied, EventOf,
           Frame.Opcode;
      var n, msg := WsProcess(b);
      if n == 0 {
        return false;
      }
      var s := recv.Slice(msg.headerLen, msg.dataLen);
      ghost var f := FrameAt(b).value;
      Parts(Head(f), f.payload, Behind(b), recv.Contents());
      more := Dispatch(msg.flags, s, f);
      if more {
        var _ := recv.Delete(n);
      }
    }

    lemma Parts<T>(head: seq<T>, payload: seq<T>, rest: seq<T>, b: seq<T>)
      requires b == head + payload + rest
      ensures b[|head|..|head| + |payload|] == payload && b[|head| + |payload|..] == rest
    {
    }

    /** The switch on the opcode. */
    method Dispatch(flags: Byte, s: seq<Byte>, ghost f: Frame) returns (more: bool)
      requires recv != send && recv.buf != send.buf && send.Valid() && |s| < M32 * M32
      requires Outgoing()
      requires f.flags == flags && f.payload == s
      modifies this`events, this`isClosing, this`sent, send, send.buf
      ensures recv.buf != send.buf && send.Valid() && (send.buf == old(send.buf) || fresh(send.buf))
      ensures Outgoing()
      ensures events == old(events) + [EventOf(f)]
      ensures Replied(old(sent), sent, f, isClient)
      ensures more == (f.Opcode() != CLOSE) && isClosing == (old(isClosing) || !more)
    {
      hide Wires, FrameFor, Frame.Valid;
      more := true;
      var op := flags % 16;
      if op == PING {
        var _ := WsSend(s, PONG);
        events := events + [Control(flags, s)];
      } else if op == PONG {
        events := events + [Control(flags, s)];
      } else if op == CLOSE {
        events := events + [Control(flags, s)];
        isClosing := true;
        more := false;
      } else {
        events := events + [Message(flags, s)];
      }
    }

    /** The frame loop delivers the whole frames that are in the buffer and leaves the rest. */
    method FrameLoop(ghost b: seq<Byte>)
      requires Buffers() && recv.Contents() == b && Outgoing()
      modifies this`events, this`isClosing, this`sent, recv`len, recv.buf, send, send.buf
      ensures Buffers() && (send.buf == old(send.buf) || fresh(send.buf))
      ensures Outgoing()
      ensures var d := Deliver(b);
              && events == old(events) + d.events
              && isClosing == (old(isClosing) || d.closed)
              && (!d.closed ==> recv.Contents() == d.rest)
              && old(sent) <= sent && Answers(sent[|old(sent)|..], d.events, isClient)
    {
      hide Connection.Outgoing, Wires, Wire, Head, FrameAt, FrameFor, Frame.Valid, Frame.Opcode, EventOf;
      hide Answers, Replied, Deliver;
      ghost var said, heard := sent, [];
      ghost var d := Deliver(b);
      AnswersNothing(isClient);
      assert sent[|said|..] == [];
      var more := true;
      while more
        invariant Buffers() && (send.buf == old(send.buf) || fresh(send.buf))
        invariant Outgoing()
        invariant events == old(events) + heard && said <= sent && Answers(sent[|said|..], heard, isClient)
        invariant more ==> isClosing == old(isClosing)
                           && (var e := Deliver(recv.Contents()); d == Outcome(heard + e.events, e.rest, e.closed))
        invariant !more ==> heard == d.events && isClosing == (old(isClosing) || d.closed)
                            && (!d.closed ==> recv.Contents() == d.rest)
        decreases more, |recv.Contents()|
      {
        ghost var was, now := recv.Contents(), sent;
        more := Turn(was);
        if FrameAt(was).Some? {
          DeliverOne(was);
          ghost var f := FrameAt(was).value;
          AnswersMore(said, now, sent, heard, f, isClient);
          heard := heard + [EventOf(f)];
        } else {
          DeliverNothing(was);
        }
      }
    }

    /** read_conn and the event it raises, when bytes have arrived: some of them, as many as the network
        has and the room allows, are taken. A buffer that is already full is an error. */
    method ReadConn(stream: seq<Byte>) returns (n: nat)
      requires Valid() && !isClosing && stream != []
      modifies this, recv, recv.buf, send, send.buf
      ensures Valid()
      ensures (send.buf == old(send.buf) || fresh(send.buf)) && (recv.buf == old(recv.buf) || fresh(recv.buf))
      ensures n <= |stream| && taken == old(taken) + stream[..n]
      ensures if old(|recv.Contents()|) >= MAX_RECV then n == 0 && isClosing && sent == old(sent)
              else n > 0 && isClosing == Deliver(taken).closed
                   && Answered(old(sent), sent, old(events), events, isClient)
    {
      hide Deliver, Wires, Answers;
      if recv.len >= MAX_RECV {
        isClosing := true;
        assert stream[..0] == [];
        return 0;
      }
      if recv.buf.Length - recv.len < IO_SIZE {
        recv.Grow(recv.buf.Length + IO_SIZE);
      }
      var room := recv.buf.Length - recv.len;
      n :| 0 < n <= room && n <= |stream|;
      recv.CopyIn(stream[..n]);
      DeliverMore(taken, stream[..n]);
      taken := taken + stream[..n];
      FrameLoop(recv.Contents());
    }
  }

  /** What was sent between two points answers the pings heard between them. */
  ghost predicate Answered(said: seq<Frame>, sent: seq<Frame>, heard: seq<Event>, events: seq<Event>, isClient: bool) {
    said <= sent && heard <= events && Answers(sent[|said|..], events[|heard|..], isClient)
  }

  lemma AnswersNothing(isClient: bool)
    ensures Answers([], [], isClient)
  {
  }

  lemma AnswersMore(said: seq<Frame>, now: seq<Frame>, sent: seq<Frame>, heard: seq<Event>, f: Frame, isClient: bool)
    requires said <= now && Answers(now[|said|..], heard, isClient) && Replied(now, sent, f, isClient)
    ensures said <= sent && Answers(sent[|said|..], heard + [EventOf(f)], isClient)
  {
    PingDataMore(heard, EventOf(f));
    hide FrameFor;
    assert sent[|said|..] == now[|said|..] + sent[|now|..];
  }

  ghost predicate Replied(before: seq<Frame>, after: seq<Frame>, f: Frame, isClient: bool) {
    if f.Opcode() != PING then after == before
    else
      && |after| == |before| + 1 && before <= after
      && (var g := after[|before|];
          g == FrameFor(PONG, g.mask, f.payload) && |g.mask| == if isClient then 4 else 0)
  }

  // ---------- a whole session

  /** Whatever pieces the stream of some frames arrives in, the handlers are given those frames up to
      the first close, every ping is answered, and the connection closes if there was a close. */
  method ReceiveAll(c: Connection, stream: seq<Byte>, ghost frames: seq<Frame>)
    requires c.Valid() && c.taken == [] && !c.isClosing && c.sent == []
    requires (forall f <- frames :: f.Valid() && |Wire(f)| <= MAX_RECV) && stream == Wires(frames)
    modifies c, c.recv, c.recv.buf, c.send, c.send.buf
    ensures c.Valid() && c.events == Heard(frames) && c.isClosing == HasClose(frames)
    ensures Answers(c.sent, c.events, c.isClient)
  {
    hide Deliver, Wires, Wire, Heard, Answers, HasClose, Frame.Valid;
    var pos: nat := 0;
    StartOfSession(c.isClient, frames);
    while pos < |stream| && !c.isClosing
      invariant pos <= |stream| && c.taken == stream[..pos] && c.Valid()
      invariant c.send.buf == old(c.send.buf) || fresh(c.send.buf)
      invariant c.recv.buf == old(c.recv.buf) || fresh(c.recv.buf)
      invariant c.isClosing == Deliver(c.taken).closed
      invariant Answers(c.sent, c.events, c.isClient)
      decreases |stream| - pos, !c.isClosing
    {
      ghost var said, heard := c.sent, c.events;
      LittleWaits(c.taken, frames, MAX_RECV);
      var n := c.ReadConn(stream[pos..]);
      assert stream[..pos] + stream[pos..][..n] == stream[..pos + n];
      pos := pos + n;
      AnswersJoin(said, c.sent, heard, c.events, c.isClient);
    }
    DeliverWires(frames);
    if pos == |stream| {
      assert c.taken == stream;
    } else {
      DeliverMore(c.taken, stream[pos..]);
      assert c.taken + stream[pos..] == stream;
    }
  }

  lemma StartOfSession(isClient: bool, frames: seq<Frame>)
    ensures Answers([], [], isClient) && Deliver([]) == Outcome([], [], false) && Wires([]) == []
  {
  }

  lemma {:induction false} PingDataJoin(a: seq<Event>, b: seq<Event>)
    ensures PingData(a + b) == PingData(a) + PingData(b)
  {
    if a == [] {
      assert a + b == b;
    } else {
      assert (a + b)[1..] == a[1..] + b;
      PingDataJoin(a[1..], b);
    }
  }

  lemma AnswersJoin(said: seq<Frame>, sent: seq<Frame>, heard: seq<Event>, events: seq<Event>, isClient: bool)
    requires Answers(said, heard, isClient) && Answered(said, sent, heard, events, isClient)
    ensures Answers(sent, events, isClient)
  {
    hide FrameFor, PingData;
    var more, later := sent[|said|..], events[|heard|..];
    assert events == heard + later && sent == said + more;
    PingDataJoin(heard, later);
    var pings := PingData(events);
    forall i | 0 <= i < |pings|
      ensures sent[i] == FrameFor(PONG, sent[i].mask, pings[i]) && |sent[i].mask| == if isClient then 4 else 0
    {
      if i >= |said| {
        assert sent[i] == more[i - |said|] && pings[i] == PingData(later)[i - |said|];
      } else {
        assert sent[i] == said[i] && pings[i] == PingData(heard)[i];
      }
    }
  }

  datatype Send = Send(data: seq<Byte>, op: int)

  /** What the other side is to hear of some calls of mg_ws_send. */
  function HeardOf(sends: seq<Send>): seq<Event> {
    if sends == [] then []
    else
      var op := sends[0].op % 16;
      [if op == PING || op == PONG || op == CLOSE then Control(sends[0].op % FIN + FIN, sends[0].data)
       else Message(sends[0].op % FIN + FIN, sends[0].data)]
      + if op == CLOSE then [] else HeardOf(sends[1..])
  }

  ghost predicate Sent(frames: seq<Frame>, sends: seq<Send>) {
    && |frames| == |sends|
    && forall i :: 0 <= i < |sends| ==>
         && frames[i] == FrameFor(sends[i].op, frames[i].mask, sends[i].data)
         && (|frames[i].mask| == 0 || |frames[i].mask| == 4)
  }

  lemma SmallWire(f: Frame, op: int, data: seq<Byte>)
    requires f == FrameFor(op, f.mask, data) && (|f.mask| == 0 || |f.mask| == 4) && |data| <= MAX_RECV - 14
    ensures f.Valid() && |Wire(f)| <= MAX_RECV
  {
  }

  lemma {:induction false} SentAre(frames: seq<Frame>, sends: seq<Send>)
    requires Sent(frames, sends) && forall s <- sends :: |s.data| <= MAX_RECV - 14
    ensures forall f <- frames :: f.Valid() && |Wire(f)| <= MAX_RECV
    ensures Heard(frames) == HeardOf(sends)
  {
    hide FrameFor, Wire, Frame.Valid, EventOf, Frame.Opcode;
    if frames != [] {
      SmallWire(frames[0], sends[0].op, sends[0].data);
      HeardAs(frames[0], sends[0]);
      assert Sent(frames[1..], sends[1..]);
      SentAre(frames[1..], sends[1..]);
      assert frames == [frames[0]] + frames[1..];
    }
  }

  lemma HeardAs(f: Frame, s: Send)
    requires f == FrameFor(s.op, f.mask, s.data)
    ensures f.Opcode() == s.op % 16
    ensures EventOf(f) == if s.op % 16 == PING || s.op % 16 == PONG || s.op % 16 == CLOSE
                          then Control(s.op % FIN + FIN, s.data) else Message(s.op % FIN + FIN, s.data)
  {
    var op := s.op;
    assert op % FIN == op - FIN * (op / FIN);
    assert (op % FIN + FIN) % 16 == op % 16;
  }

  /** From mg_ws_send to the handlers of the other side. */
  method Session(sends: seq<Send>, fromClient: bool) returns (events: seq<Event>)
    requires forall s <- sends :: |s.data| <= MAX_RECV - 14
    ensures events == HeardOf(sends)
  {
    hide Sent, FrameFor, Deliver, Wire, Frame.Valid, Heard, HeardOf, Answers, HasClose, Wires;
    SentNothing(sends);
    var from := new Connection(fromClient);
    for i := 0 to |sends|
      invariant from.Valid() && fresh(from) && fresh(from.recv) && fresh(from.send)
      invariant fresh(from.recv.buf) && fresh(from.send.buf)
      invariant |from.sent| == i && Sent(from.sent, sends[..i])
    {
      ghost var before := from.sent;
      var _ := from.WsSend(sends[i].data, sends[i].op);
      SentMore(before, from.sent, sends, i);
    }
    assert sends[..|sends|] == sends;
    SentAre(from.sent, sends);
    var to := new Connection(!fromClient);
    ReceiveAll(to, from.send.buf[..from.send.len], from.sent);
    events := to.events;
  }

  lemma SentNothing(sends: seq<Send>)
    ensures Sent([], sends[..0])
  {
  }

  lemma SentMore(before: seq<Frame>, sent: seq<Frame>, sends: seq<Send>, i: nat)
    requires i < |sends| && Sent(before, sends[..i]) && |sent| == i + 1 && sent[..i] == before
    requires sent[i] == FrameFor(sends[i].op, sent[i].mask, sends[i].data)
    requires (|sent[i].mask| == 0 || |sent[i].mask| == 4)
    ensures Sent(sent, sends[..i + 1])
  {
  }
}
