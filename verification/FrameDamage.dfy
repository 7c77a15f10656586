/**
 Which damage to a control frame the checksum lets through.  The checksum is linear, so this depends
 only on the bits that were changed.
 */
module FrameDamage {
  import opened Bytes
  import opened Scanner
  import opened ControlFrames
  import Crc16
  import BurstErrors
  import ControlTheorems
  import Registers

  // ---- the checksum of a damaged message

  function Zip<B>(mix: (B, B) -> B, a: seq<B>, b: seq<B>): (c: seq<B>)
    requires |a| == |b|
    ensures |c| == |a|
  {
    seq(|a|, i requires 0 <= i < |a| => mix(a[i], b[i]))
  }

  function Differ(a: bool, b: bool): bool {
    a != b
  }

  /** The bits in which the two messages differ. */
  function Differences(a: seq<bool>, b: seq<bool>): (e: seq<bool>)
    requires |a| == |b|
    ensures |e| == |a|
  {
    Zip(Differ, a, b)
  }

  /** What a pattern of changed bits does to the register. */
  function Syndrome(e: seq<bool>): bv16 {
    Crc16.DivideBits(0, e)
  }

  lemma TopXor(a: bool, b: bool)
    ensures Crc16.Xor(Crc16.Top(a), Crc16.Top(b)) == Crc16.Top(Differ(a, b))
  {
  }

  lemma FeedShifts(r: bv16, a: bool)
    ensures Crc16.FeedBit(r, a) == Registers.Shift(Crc16.Xor(r, Crc16.Top(a)))
  {
  }

  lemma ShiftXor(x: bv16, y: bv16)
    ensures Crc16.Xor(Registers.Shift(x), Registers.Shift(y)) == Registers.Shift(Crc16.Xor(x, y))
  {
    Registers.ShiftXor(x, y);
  }

  lemma XorCommutes(x: bv16, y: bv16)
    ensures Crc16.Xor(x, y) == Crc16.Xor(y, x)
  {
  }

  lemma XorAssociates(x: bv16, y: bv16, z: bv16)
    ensures Crc16.Xor(Crc16.Xor(x, y), z) == Crc16.Xor(x, Crc16.Xor(y, z))
  {
  }

  lemma XorSwap(r: bv16, s: bv16, q: bv16, t: bv16)
    ensures Crc16.Xor(Crc16.Xor(r, s), Crc16.Xor(q, t)) == Crc16.Xor(Crc16.Xor(r, q), Crc16.Xor(s, t))
  {
    hide Crc16.Xor;
    XorAssociates(r, s, Crc16.Xor(q, t));
    XorAssociates(s, q, t);
    XorCommutes(s, q);
    XorAssociates(q, s, t);
    XorAssociates(r, q, Crc16.Xor(s, t));
  }

  lemma FeedXor(r: bv16, a: bool, q: bv16, b: bool)
    ensures Crc16.Xor(Crc16.FeedBit(r, a), Crc16.FeedBit(q, b)) == Crc16.FeedBit(Crc16.Xor(r, q), Differ(a, b))
  {
    hide Registers.Shift, Crc16.FeedBit, Crc16.Xor, Crc16.Top, Differ;
    FeedShifts(r, a);
    FeedShifts(q, b);
    FeedShifts(Crc16.Xor(r, q), Differ(a, b));
    ShiftXor(Crc16.Xor(r, Crc16.Top(a)), Crc16.Xor(q, Crc16.Top(b)));
    XorSwap(r, Crc16.Top(a), q, Crc16.Top(b));
    TopXor(a, b);
  }

  lemma {:induction false} FoldIsLinear<R(!new), B(!new)>(f: (R, B) -> R, add: (R, R) -> R, mix: (B, B) -> B,
                                                           r: R, a: seq<B>, q: R, b: seq<B>)
    requires forall x, c, y, d :: add(f(x, c), f(y, d)) == f(add(x, y), mix(c, d))
    requires |a| == |b|
    ensures add(Crc16.Fold(f, r, a), Crc16.Fold(f, q, b)) == Crc16.Fold(f, add(r, q), Zip(mix, a, b))
    decreases |a|
  {
    if a != [] {
      FoldIsLinear(f, add, mix, f(r, a[0]), a[1..], f(q, b[0]), b[1..]);
      assert Zip(mix, a, b)[1..] == Zip(mix, a[1..], b[1..]);
    }
  }

  /** The division is linear in the register and the message together. */
  lemma DivisionIsLinear(r: bv16, a: seq<bool>, q: bv16, b: seq<bool>)
    requires |a| == |b|
    ensures Crc16.Xor(Crc16.DivideBits(r, a), Crc16.DivideBits(q, b))
            == Crc16.DivideBits(Crc16.Xor(r, q), Differences(a, b))
  {
    hide Crc16.Xor, Crc16.FeedBit, Differ;
    forall x, c, y, d
      ensures Crc16.Xor(Crc16.FeedBit(x, c), Crc16.FeedBit(y, d)) == Crc16.FeedBit(Crc16.Xor(x, y), Differ(c, d))
    {
      FeedXor(x, c, y, d);
    }
    FoldIsLinear(Crc16.FeedBit, Crc16.Xor, Differ, r, a, q, b);
  }

  lemma XorOver(r: bv16, x: bv16, y: bv16)
    requires Crc16.Xor(x, y) == r
    ensures y == Crc16.Xor(x, r)
  {
  }

  lemma XorItself(r: bv16)
    ensures Crc16.Xor(r, r) == 0
  {
  }

  function Register(data: bytes): bv16 {
    Crc16.DivideBits(Crc16.INIT, Crc16.Bits(data))
  }

  /** Damage changes the register by its syndrome, whatever the message. */
  lemma DamagedRegister(a: bytes, b: bytes)
    requires |a| == |b|
    ensures Register(b) == Crc16.Xor(Register(a), Syndrome(Differences(Crc16.Bits(a), Crc16.Bits(b))))
  {
    hide Crc16.Xor, Crc16.DivideBits;
    DivisionIsLinear(Crc16.INIT, Crc16.Bits(a), Crc16.INIT, Crc16.Bits(b));
    XorItself(Crc16.INIT);
    XorOver(Syndrome(Differences(Crc16.Bits(a), Crc16.Bits(b))), Register(a), Register(b));
  }

  // ---- damaged frames

  /** w is as long as the wire form of f, with its sync and length bytes; anything else may differ. */
  ghost predicate SameShape(version: byte, f: Frame, w: bytes) {
    |f.payload| <= MAX_PAYLOAD && |w| == HDR_LEN + |f.payload| + CRC_LEN
    && var good := Wire(Crc16.Checksum, version, f); w[..2] == good[..2] && w[5..7] == good[5..7]
  }

  /** The checksum in w differs from that of the frame by just what the damage to its body does. */
  ghost predicate Compensated(version: byte, f: Frame, w: bytes)
    requires SameShape(version, f, w)
  {
    var end := HDR_LEN + |f.payload|;
    var e := Differences(Crc16.Bits(Body(version, f)), Crc16.Bits(w[2..end]));
    U16(w, end) == Crc16.Value(Crc16.Xor(Register(Body(version, f)), Syndrome(e)))
  }

  /** Exactly when a damaged frame is accepted in its place; if not, the parser resynchronises. */
  lemma DamageAccepted(version: byte, f: Frame, w: bytes, t: bytes)
    requires SameShape(version, f, w)
    ensures var d, end := Decide(Crc16.Checksum)(w + t), HDR_LEN + |f.payload|;
            d == if Compensated(version, f, w) then Emit(Frame(w[3], w[4], w[HDR_LEN..end]), |w|) else Skip(2)
  {
    hide Crc16.Checksum, Crc16.Value, Crc16.DivideBits, Crc16.Bits, Crc16.Xor;
    var n, end := |f.payload|, HDR_LEN + |f.payload|;
    var good := Wire(Crc16.Checksum, version, f);
    ControlTheorems.WireFields(Crc16.Checksum, version, f);
    assert good[..2][0] == good[0] && good[..2][1] == good[1];
    assert w[..2][0] == w[0] && w[..2][1] == w[1];
    assert good[5..7][0] == good[5] && good[5..7][1] == good[6];
    assert w[5..7][0] == w[5] && w[5..7][1] == w[6];
    assert U16(w + t, 5) == n && U16(w + t, end) == U16(w, end);
    assert (w + t)[2..end] == w[2..end] && (w + t)[HDR_LEN..end] == w[HDR_LEN..end];
    DamagedRegister(Body(version, f), w[2..end]);
    SumOf(w[2..end]);
  }

  lemma SumOf(data: bytes)
    ensures Crc16.Checksum(data) == Crc16.Value(Register(data))
  {
  }

  // ---- a burst of sixteen bits that is let through

  lemma {:induction false} BitsAppend(a: bytes, b: bytes)
    ensures Crc16.Bits(a + b) == Crc16.Bits(a) + Crc16.Bits(b)
    decreases |a|
  {
    if a == [] {
      assert a + b == b;
    } else {
      assert (a + b)[1..] == a[1..] + b;
      BitsAppend(a[1..], b);
      Associative(Crc16.BitsOfByte(a[0]), Crc16.Bits(a[1..]), Crc16.Bits(b));
    }
  }

  lemma {:induction false} ZerosLeaveNothing(e: seq<bool>)
    requires forall i :: 0 <= i < |e| ==> !e[i]
    ensures Syndrome(e) == 0
    decreases |e|
  {
    if e != [] {
      assert Crc16.FeedBit(0, false) == 0;
      ZerosLeaveNothing(e[1..]);
    }
  }

  /** The bits of 0x89, and what they leave in the register. */
  const PATTERN := [true, false, false, false, true, false, false, true]

  lemma PatternBits()
    ensures Differences(Crc16.BitsOfByte(0), Crc16.BitsOfByte(0x89)) == PATTERN
  {
    assert Crc16.Digits(1, 1) == [true];
    assert Crc16.Digits(8, 4) == [true, false, false, false];
    assert Crc16.Digits(17, 5) == [true, false, false, false, true];
    assert Crc16.Digits(68, 7) == [true, false, false, false, true, false, false];
    assert Crc16.BitsOfByte(0x89) == PATTERN;
    assert Crc16.Digits(0, 4) == [false, false, false, false];
    assert Crc16.BitsOfByte(0) == [false, false, false, false, false, false, false, false];
    AgainstZeros(Crc16.BitsOfByte(0), PATTERN);
  }

  lemma AgainstZeros(z: seq<bool>, e: seq<bool>)
    requires |z| == |e| && forall i :: 0 <= i < |z| ==> !z[i]
    ensures Differences(z, e) == e
  {
    forall i | 0 <= i < |e| ensures Differences(z, e)[i] == e[i] {
      assert Differences(z, e)[i] == Differ(z[i], e[i]);
    }
  }

  lemma PatternSyndrome()
    ensures Syndrome(PATTERN) == 0x00A1
  {
    var r1 := Crc16.FeedBit(0, true);
    var r2 := Crc16.FeedBit(r1, false);
    var r3 := Crc16.FeedBit(r2, false);
    var r4 := Crc16.FeedBit(r3, false);
    var r5 := Crc16.FeedBit(r4, true);
    var r6 := Crc16.FeedBit(r5, false);
    var r7 := Crc16.FeedBit(r6, false);
    var r8 := Crc16.FeedBit(r7, true);
    assert PATTERN[1..] == [false, false, false, true, false, false, true];
    assert Crc16.DivideBits(r4, [true, false, false, true]) == r8;
    assert Crc16.DivideBits(r1, [false, false, false, true, false, false, true]) == r8;
  }

  /** Two bodies that end in 0 and in 0x89 and are otherwise equal: only the low byte of the register
      differs. */
  lemma LastByteChanged(a: bytes)
    ensures Register(a + [0x89]) == Crc16.Xor(Register(a + [0]), 0x00A1)
  {
    hide Crc16.DivideBits, Crc16.BitsOfByte, Crc16.Xor, Crc16.Fold, Crc16.FeedBit, Differences;
    var x, y := Crc16.Bits(a + [0]), Crc16.Bits(a + [0x89]);
    BitsAppend(a, [0]);
    BitsAppend(a, [0x89]);
    LastBits(Crc16.Bits(a), Crc16.BitsOfByte(0), Crc16.BitsOfByte(0x89));
    PatternBits();
    var zeros := Differences(Crc16.Bits(a), Crc16.Bits(a));
    NoDifferences(Crc16.Bits(a));
    OneByte(0);
    OneByte(0x89);
    assert Differences(x, y) == zeros + PATTERN;
    SyndromeOf(zeros, PATTERN);
    ZerosLeaveNothing(zeros);
    PatternSyndrome();
    DamagedRegister(a + [0], a + [0x89]);
  }

  lemma OneByte(b: byte)
    ensures Crc16.Bits([b]) == Crc16.BitsOfByte(b)
  {
    assert Crc16.Bits([b]) == Crc16.BitsOfByte(b) + [];
  }

  lemma NoDifferences(u: seq<bool>)
    ensures forall i :: 0 <= i < |u| ==> !Differences(u, u)[i]
  {
    forall i | 0 <= i < |u| ensures !Differences(u, u)[i] {
      assert Differences(u, u)[i] == Differ(u[i], u[i]);
    }
  }

  lemma SyndromeOf(u: seq<bool>, v: seq<bool>)
    ensures Syndrome(u + v) == Crc16.DivideBits(Syndrome(u), v)
  {
    Crc16.FoldConcat(Crc16.FeedBit, 0, u, v);
  }

  lemma LastBits(u: seq<bool>, v: seq<bool>, w: seq<bool>)
    requires |v| == |w|
    ensures Differences(u + v, u + w) == Differences(u, u) + Differences(v, w)
  {
  }

  lemma NumberFits(v: bv8)
    ensures 0 <= Crc16.Number(v, 8) < 256
  {
    Crc16.ByteNumber(v);
  }

  lemma SecondByte(r: bv16)
    ensures LE16(Crc16.Value(r))[1] == Crc16.Number(Crc16.High(r), 8)
  {
    hide Crc16.Number, Crc16.Low, Crc16.High;
    NumberFits(Crc16.Low(r));
    NumberFits(Crc16.High(r));
  }

  lemma SameHigh(r: bv16)
    ensures Crc16.High(r) == Crc16.High(Crc16.Xor(r, 0x00A1))
  {
    assert r >> 8 == (r ^ 0x00A1) >> 8;
  }

  lemma HighByteStays(r: bv16)
    ensures LE16(Crc16.Value(r))[1] == LE16(Crc16.Value(Crc16.Xor(r, 0x00A1)))[1]
  {
    hide Crc16.Number, Crc16.Value, Crc16.High, Crc16.Xor;
    SameHigh(r);
    SecondByte(r);
    SecondByte(Crc16.Xor(r, 0x00A1));
  }

  /** A burst of sixteen bits over the last byte of the payload and the first of the checksum can turn
      a frame into another, which is emitted. */
  lemma StraddlingBurstUnseen(version: byte, frameType: byte, seqNo: byte, start: bytes, t: bytes)
    requires |start| < MAX_PAYLOAD
    ensures var f, g := Frame(frameType, seqNo, start + [0]), Frame(frameType, seqNo, start + [0x89]);
            var good, bad := Wire(Crc16.Checksum, version, f), Wire(Crc16.Checksum, version, g);
            && BurstErrors.Burst(Crc16.Bits(good), Crc16.Bits(bad), 8 * (HDR_LEN + |start|), 16)
            && good != bad && Decide(Crc16.Checksum)(bad + t) == Emit(g, |bad|)
  {
    hide Crc16.Checksum, Crc16.Bits;
    var f, g := Frame(frameType, seqNo, start + [0]), Frame(frameType, seqNo, start + [0x89]);
    var bad := Wire(Crc16.Checksum, version, g);
    var front := [SYNC0, SYNC1, version, frameType, seqNo] + LE16(|start| + 1) + start;
    var high := WireEnds(version, f, front, 0);
    var same := WireEnds(version, g, front, 0x89);
    SecondBytes(version, frameType, seqNo, start);
    TwoBytesChanged(front, high[..2], same[..2], high[2..]);
    assert high == high[..2] + high[2..] && same == same[..2] + high[2..];
    Associative(front, high[..2], high[2..]);
    Associative(front, same[..2], high[2..]);
    assert (front + high)[|front|] == 0 && (front + same)[|front|] == 0x89;
    assert (bad + t)[..|bad|] == bad;
    ControlTheorems.WireIsEmitted(Crc16.Checksum, bad + t, |bad|, g);
  }

  /** The last byte of the payload and the checksum. */
  lemma WireEnds(version: byte, f: Frame, front: bytes, last: byte) returns (end: bytes)
    requires 0 < |f.payload| <= MAX_PAYLOAD && f.payload[|f.payload| - 1] == last
    requires front == [SYNC0, SYNC1, version, f.frameType, f.seqNo] + LE16(|f.payload|) + f.payload[..|f.payload| - 1]
    ensures end == [last] + LE16(Crc16.Checksum(Body(version, f))) && Wire(Crc16.Checksum, version, f) == front + end
  {
    hide Crc16.Checksum;
    end := [last] + LE16(Crc16.Checksum(Body(version, f)));
    assert f.payload == f.payload[..|f.payload| - 1] + [last];
  }

  /** The two checksums have the same high byte. */
  lemma SecondBytes(version: byte, frameType: byte, seqNo: byte, start: bytes)
    requires |start| < MAX_PAYLOAD
    ensures var f, g := Frame(frameType, seqNo, start + [0]), Frame(frameType, seqNo, start + [0x89]);
            LE16(Crc16.Checksum(Body(version, f)))[1] == LE16(Crc16.Checksum(Body(version, g)))[1]
  {
    hide Crc16.Checksum, Crc16.Value, Register, Crc16.Xor;
    var f, g := Frame(frameType, seqNo, start + [0]), Frame(frameType, seqNo, start + [0x89]);
    var head := [version, frameType, seqNo] + LE16(|start| + 1) + start;
    assert Body(version, f) == head + [0] && Body(version, g) == head + [0x89];
    LastByteChanged(head);
    SumOf(head + [0]);
    SumOf(head + [0x89]);
    HighByteStays(Register(head + [0]));
  }

  lemma TwoBytesChanged(head: bytes, x: bytes, y: bytes, tail: bytes)
    requires |x| == |y| == 2
    ensures BurstErrors.Burst(Crc16.Bits(head + x + tail), Crc16.Bits(head + y + tail), 8 * |head|, 16)
  {
    hide Crc16.Bits;
    BitsAppend(head + x, tail);
    BitsAppend(head + y, tail);
    BitsAppend(head, x);
    BitsAppend(head, y);
  }
}
