/** What masking does to each bit (section 5.3 of RFC 6455), and the frames of section 5.7. */
module WebSocketBits {
  import opened Options
  import opened WebSocket

  /** Bit k of a number, counted from the lowest. */
  function BitOf(x: nat, k: nat): nat
    decreases k
  {
    if k == 0 then x % 2 else BitOf(x / 2, k - 1)
  }

  lemma {:induction false} XorLowBit(a: nat, b: nat, bits: nat, k: nat)
    requires k < bits
    ensures BitOf(XorLow(a, b, bits), k) == (BitOf(a, k) + BitOf(b, k)) % 2
    decreases bits
  {
    var x := XorLow(a / 2, b / 2, bits - 1);
    LowestBit(a, b, x);
    if k > 0 {
      XorLowBit(a / 2, b / 2, bits - 1, k - 1);
      assert BitOf((a + b) % 2 + 2 * x, k) == BitOf(x, k - 1);
    }
  }

  lemma LowestBit(a: nat, b: nat, x: nat)
    ensures var r := (a + b) % 2 + 2 * x;
            r % 2 == (a % 2 + b % 2) % 2 && r / 2 == x
  {
  }

  lemma {:induction false} BitIsBit(x: nat, k: nat)
    ensures BitOf(x, k) == 0 || BitOf(x, k) == 1
    decreases k
  {
    if k > 0 {
      BitIsBit(x / 2, k - 1);
    }
  }

  /** A bit of the result is set exactly where the two bytes differ. */
  lemma XorBit(a: Byte, b: Byte, k: nat)
    requires k < 8
    ensures BitOf(Xor(a, b), k) == 1 <==> BitOf(a, k) != BitOf(b, k)
  {
    XorLowBit(a, b, 8, k);
    BitIsBit(a, k);
    BitIsBit(b, k);
  }

  /** Each bit of t is that of s, turned over where the mask, repeated every four bytes, has a one. */
  ghost predicate TurnedBy(s: seq<Byte>, mask: seq<Byte>, t: seq<Byte>) {
    && |t| == |s| && |mask| == 4
    && forall i: nat, k: nat :: i < |s| && k < 8 ==>
         (BitOf(t[i], k) == 1 <==> BitOf(s[i], k) != BitOf(mask[i % 4], k))
  }

  lemma MaskedTurned(s: seq<Byte>, mask: seq<Byte>)
    requires |mask| == 4
    ensures TurnedBy(s, mask, Masked(s, mask))
  {
    hide Xor;
    var t := Masked(s, mask);
    forall i: nat, k: nat | i < |s| && k < 8
      ensures BitOf(t[i], k) == 1 <==> BitOf(s[i], k) != BitOf(mask[i % 4], k)
    {
      XorBit(s[i], mask[i % 4], k);
    }
  }

  /** The payload of a frame received, against the bytes behind its header. */
  lemma PayloadReceived(b: seq<Byte>)
    requires FrameAt(b).Some?
    ensures var f := FrameAt(b).value;
            && f.Valid() && Head(f) <= b && |Head(f)| + |f.payload| <= |b|
            && var raw := b[|Head(f)|..|Head(f)| + |f.payload|];
               if f.mask == [] then f.payload == raw else TurnedBy(raw, f.mask, f.payload)
  {
    hide ReadHeader, Xor, FrameAt, TurnedBy;
    WireOfFrameAt(b);
    PartsOfFrame(b);
    var f := FrameAt(b).value;
    if f.mask != [] {
      MaskedTurned(b[|Head(f)|..|Head(f)| + |f.payload|], f.mask);
    }
  }

  /** The bytes of a frame sent, behind its header. */
  lemma PayloadSent(f: Frame)
    requires f.Valid()
    ensures Head(f) <= Wire(f)
    ensures var raw := Wire(f)[|Head(f)|..];
            if f.mask == [] then raw == f.payload else TurnedBy(f.payload, f.mask, raw)
  {
    hide Xor, TurnedBy;
    assert Wire(f)[|Head(f)|..] == Masked(f.payload, f.mask);
    if f.mask != [] {
      MaskedTurned(f.payload, f.mask);
    }
  }

  // ---------- examples

  lemma XorFour(a: nat, b: nat, more: nat)
    ensures XorLow(a, b, more + 4)
         == (a + b) % 2 + 2 * ((a / 2 + b / 2) % 2) + 4 * ((a / 4 + b / 4) % 2) + 8 * ((a / 8 + b / 8) % 2)
            + 16 * XorLow(a / 16, b / 16, more)
  {
    assert a / 2 / 2 == a / 4 && a / 4 / 2 == a / 8 && a / 8 / 2 == a / 16;
    assert b / 2 / 2 == b / 4 && b / 4 / 2 == b / 8 && b / 8 / 2 == b / 16;
    assert XorLow(a / 8, b / 8, more + 1) == (a / 8 + b / 8) % 2 + 2 * XorLow(a / 16, b / 16, more);
    assert XorLow(a / 4, b / 4, more + 2) == (a / 4 + b / 4) % 2 + 2 * XorLow(a / 8, b / 8, more + 1);
    assert XorLow(a / 2, b / 2, more + 3) == (a / 2 + b / 2) % 2 + 2 * XorLow(a / 4, b / 4, more + 2);
  }

  /** A byte by its two halves of four bits. */
  lemma XorHalves(a: Byte, b: Byte, high: nat, low: nat)
    requires XorLow(a / 16, b / 16, 4) == high
    requires low == (a + b) % 2 + 2 * ((a / 2 + b / 2) % 2) + 4 * ((a / 4 + b / 4) % 2) + 8 * ((a / 8 + b / 8) % 2)
    ensures Xor(a, b) == 16 * high + low
  {
    hide XorLow;
    XorFour(a, b, 4);
  }

  lemma HelloBytes()
    ensures Xor(0x7f, 0x37) == 0x48 && Xor(0x9f, 0xfa) == 0x65 && Xor(0x4d, 0x21) == 0x6c
    ensures Xor(0x51, 0x3d) == 0x6c && Xor(0x58, 0x37) == 0x6f
  {
    HighHalves();
    hide Xor, XorLow;
    XorHalves(0x7f, 0x37, 4, 8);
    XorHalves(0x9f, 0xfa, 6, 5);
    XorHalves(0x4d, 0x21, 6, 12);
    XorHalves(0x51, 0x3d, 6, 12);
    XorHalves(0x58, 0x37, 6, 15);
  }

  lemma HighHalves()
    ensures XorLow(7, 3, 4) == 4 && XorLow(9, 15, 4) == 6 && XorLow(4, 2, 4) == 6 && XorLow(5, 3, 4) == 6
  {
    hide XorLow;
    XorFour(7, 3, 0);
    XorFour(9, 15, 0);
    XorFour(4, 2, 0);
    XorFour(5, 3, 0);
    NoBits();
  }

  lemma NoBits()
    ensures XorLow(0, 0, 0) == 0
  {
  }

  /** A masked text frame holding Hello. */
  lemma HelloMasked()
    ensures FrameAt([0x81, 0x85, 0x37, 0xfa, 0x21, 0x3d, 0x7f, 0x9f, 0x4d, 0x51, 0x58])
         == Some(Frame(0x81, Short, [0x37, 0xfa, 0x21, 0x3d], [0x48, 0x65, 0x6c, 0x6c, 0x6f]))
  {
    var b: seq<Byte> := [0x81, 0x85, 0x37, 0xfa, 0x21, 0x3d, 0x7f, 0x9f, 0x4d, 0x51, 0x58];
    assert ReadHeader(b) == Msg(0x81, 6, 5, 4);
    assert b[2..6] == [0x37, 0xfa, 0x21, 0x3d] && b[6..11] == [0x7f, 0x9f, 0x4d, 0x51, 0x58];
    HelloPayload();
    hide ReadHeader, Masked;
  }

  lemma HelloPayload()
    ensures Masked([0x7f, 0x9f, 0x4d, 0x51, 0x58], [0x37, 0xfa, 0x21, 0x3d]) == [0x48, 0x65, 0x6c, 0x6c, 0x6f]
  {
    hide Xor;
    HelloBytes();
  }

  /** The same without a mask. */
  lemma HelloPlain()
    ensures FrameAt([0x81, 0x05, 0x48, 0x65, 0x6c, 0x6c, 0x6f])
         == Some(Frame(0x81, Short, [], [0x48, 0x65, 0x6c, 0x6c, 0x6f]))
  {
    var b: seq<Byte> := [0x81, 0x05, 0x48, 0x65, 0x6c, 0x6c, 0x6f];
    assert ReadHeader(b) == Msg(0x81, 2, 5, 0);
    assert b[2..7] == [0x48, 0x65, 0x6c, 0x6c, 0x6f];
  }

  /** 256 and 65536 bytes of binary data in one frame without a mask. */
  lemma LongerHeads(p: seq<Byte>, q: seq<Byte>)
    requires |p| == 256 && |q| == 0x1_0000
    ensures Wire(Frame(0x82, Medium, [], p)) == [0x82, 0x7e, 0x01, 0x00] + p
    ensures Wire(Frame(0x82, Long, [], q)) == [0x82, 0x7f, 0, 0, 0, 0, 0, 0x01, 0, 0] + q
  {
  }

  /** Ping with the data Hello, a close without data, and the masked pong that answers the ping. */
  lemma PingPlain()
    ensures FrameAt([0x89, 0x05, 0x48, 0x65, 0x6c, 0x6c, 0x6f])
         == Some(FrameFor(PING, [], [0x48, 0x65, 0x6c, 0x6c, 0x6f]))
  {
    var b: seq<Byte> := [0x89, 0x05, 0x48, 0x65, 0x6c, 0x6c, 0x6f];
    assert ReadHeader(b) == Msg(0x89, 2, 5, 0);
    assert b[2..7] == [0x48, 0x65, 0x6c, 0x6c, 0x6f];
  }

  lemma CloseBare()
    ensures FrameAt([0x88, 0x00]) == Some(FrameFor(CLOSE, [], []))
  {
    var b: seq<Byte> := [0x88, 0x00];
    assert ReadHeader(b) == Msg(0x88, 2, 0, 0);
  }

  lemma PongMasked()
    ensures FrameAt([0x8a, 0x85, 0x37, 0xfa, 0x21, 0x3d, 0x7f, 0x9f, 0x4d, 0x51, 0x58])
         == Some(FrameFor(PONG, [0x37, 0xfa, 0x21, 0x3d], [0x48, 0x65, 0x6c, 0x6c, 0x6f]))
  {
    var b: seq<Byte> := [0x8a, 0x85, 0x37, 0xfa, 0x21, 0x3d, 0x7f, 0x9f, 0x4d, 0x51, 0x58];
    assert ReadHeader(b) == Msg(0x8a, 6, 5, 4);
    assert b[2..6] == [0x37, 0xfa, 0x21, 0x3d] && b[6..11] == [0x7f, 0x9f, 0x4d, 0x51, 0x58];
    HelloPayload();
    hide ReadHeader, Masked;
  }
}
