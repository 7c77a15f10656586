/** CRC-16/CCITT-FALSE: the byte-swap loop of crc16.py is bit-serial division. */
module Crc16 {
  import opened Bytes
  import Registers

  const INIT: bv16 := 0xFFFF

  function FeedBit(r: bv16, bit: bool): bv16 {
    Registers.Feed(r, Top(bit))
  }

  function Top(bit: bool): bv16 {
    if bit then 0x8000 else 0
  }

  function Fold<R, B>(f: (R, B) -> R, r: R, bits: seq<B>): R
    decreases |bits|
  {
    if bits == [] then r else Fold(f, f(r, bits[0]), bits[1..])
  }

  /** The bit-serial division of a message, most significant bit first, from register r. */
  function DivideBits(r: bv16, bits: seq<bool>): bv16 {
    Fold(FeedBit, r, bits)
  }

  function Iterate<R>(f: R -> R, x: R, n: nat): R
    decreases n
  {
    if n == 0 then x else Iterate(f, f(x), n - 1)
  }

  /** The bit read from each of w, next(w), next(next(w)), ... */
  function Readings<R>(read: R -> bool, next: R -> R, w: R, n: nat): (bits: seq<bool>)
    ensures |bits| == n
    decreases n
  {
    if n == 0 then [] else [read(w)] + Readings(read, next, next(w), n - 1)
  }

  function TopBit(w: bv16): bool {
    w & 0x8000 != 0
  }

  function Left(w: bv16): bv16 {
    w << 1
  }

  function Xor(r: bv16, q: bv16): bv16 {
    r ^ q
  }

  /** The n lowest binary digits of b, most significant first. */
  function Digits(b: nat, n: nat): (bits: seq<bool>)
    ensures |bits| == n
    decreases n
  {
    if n == 0 then [] else Digits(b / 2, n - 1) + [b % 2 == 1]
  }

  /** The eight bits of a byte, most significant first. */
  function BitsOfByte(b: byte): (bits: seq<bool>)
    ensures |bits| == 8
  {
    Digits(b, 8)
  }

  function Bits(data: bytes): (bits: seq<bool>)
    ensures |bits| == 8 * |data|
  {
    if data == [] then [] else BitsOfByte(data[0]) + Bits(data[1..])
  }

  function Low(r: bv16): bv8 {
    BytesFit(r);
    (r & 0xFF) as bv8
  }

  function High(r: bv16): bv8 {
    BytesFit(r);
    (r >> 8) as bv8
  }

  lemma BytesFit(r: bv16)
    ensures r & 0xFF <= 0xFF && r >> 8 <= 0xFF
  {
  }

  /** The number with the n lowest bits of v as its binary digits. */
  function Number(v: bv8, n: nat): int
    decreases n
  {
    if n == 0 then 0 else 2 * Number(v >> 1, n - 1) + (if v & 1 == 1 then 1 else 0)
  }

  lemma {:induction false} NumberIsInt(v: bv8, n: nat)
    requires n <= 8 && v as int < Pow2(n)
    ensures Number(v, n) == v as int
    decreases n
  {
    LastDigit(v);
    if n > 0 {
      NumberIsInt(v >> 1, n - 1);
    }
  }

  lemma ByteNumber(v: bv8)
    ensures Number(v, 8) == v as int
  {
    assert Pow2(8) == 256;
    NumberIsInt(v, 8);
  }

  function Pow2(n: nat): nat {
    if n == 0 then 1 else 2 * Pow2(n - 1)
  }

  lemma LastDigit(v: bv8)
    ensures v as int == ((v >> 1) as int) * 2 + (if v & 1 == 1 then 1 else 0)
  {
  }

  /** The register as an integer. */
  function Value(r: bv16): (n: int)
    ensures 0 <= n < TWO_16
  {
    ByteNumber(Low(r));
    ByteNumber(High(r));
    Number(Low(r), 8) + 256 * Number(High(r), 8)
  }

  lemma ValueIsInt(r: bv16)
    ensures Value(r) == Low(r) as int + 256 * (High(r) as int)
  {
    ByteNumber(Low(r));
    ByteNumber(High(r));
  }

  /** The checksum of a byte string: the remainder of the division of its bits from INIT. */
  function Checksum(data: bytes): word {
    Value(DivideBits(INIT, Bits(data)))
  }

  // ---- the byte-swap loop computes the division

  /** The loop of the firmware: no table and no inner loop over bits. */
  method Crc16(data: bytes, init: bv16) returns (crc: bv16)
    ensures crc == DivideBits(init, Bits(data))
  {
    crc := init;
    for i := 0 to |data|
      invariant Divided(init, data, crc, i)
    {
      ghost var r, v := crc, (data[i] as bv8) as bv16;
      crc := (crc >> 8) | (crc << 8);
      crc := crc ^ ((data[i] as bv8) as bv16);
      ghost var c0 := crc;
      crc := crc ^ ((crc & 0xFF) >> 4);
      ghost var c1 := crc;
      crc := crc ^ (crc << 12);
      ghost var c2 := crc;
      crc := crc ^ ((crc & 0xFF) << 5);
      DividedNext(init, data, r, i, v, c0, c1, c2, crc);
    }
    assert data[|data|..] == [];
  }

  /** The checksum of a frame body, computed with the loop above from the firmware's register. */
  method ComputeChecksum(data: bytes) returns (crc: word)
    ensures crc == Checksum(data)
  {
    var register := Crc16(data, INIT);
    ValueIsInt(register);
    crc := Low(register) as int + 256 * (High(register) as int);
  }

  /** The first i bytes have been divided, leaving register r. */
  ghost predicate Divided(init: bv16, data: bytes, r: bv16, i: nat) {
    i <= |data| && DivideBits(r, Bits(data[i..])) == DivideBits(init, Bits(data))
  }

  lemma DividedNext(init: bv16, data: bytes, r: bv16, i: nat, v: bv16, c0: bv16, c1: bv16, c2: bv16, c3: bv16)
    requires Divided(init, data, r, i) && i < |data|
    requires v == (data[i] as bv8) as bv16 && c0 == ((r >> 8) | (r << 8)) ^ v
    requires c1 == c0 ^ ((c0 & 0xFF) >> 4) && c2 == c1 ^ (c1 << 12) && c3 == c2 ^ ((c2 & 0xFF) << 5)
    ensures Divided(init, data, c3, i + 1)
  {
    ByteSwapDivides(r, data[i], v, c0, c1, c2, c3);
    NextByte(r, data, i);
  }

  lemma NextByte(r: bv16, data: bytes, i: nat)
    requires i < |data|
    ensures DivideBits(r, Bits(data[i..])) == DivideBits(DivideBits(r, BitsOfByte(data[i])), Bits(data[i + 1..]))
  {
    assert data[i..][0] == data[i] && data[i..][1..] == data[i + 1..];
    FoldConcat(FeedBit, r, BitsOfByte(data[i]), Bits(data[i + 1..]));
  }

  lemma {:induction false} FoldConcat<R, B>(f: (R, B) -> R, r: R, u: seq<B>, v: seq<B>)
    ensures Fold(f, r, u + v) == Fold(f, Fold(f, r, u), v)
    decreases |u|
  {
    if u == [] {
      assert u + v == v;
    } else {
      assert (u + v)[0] == u[0] && (u + v)[1..] == u[1..] + v;
      FoldConcat(f, f(r, u[0]), u[1..], v);
    }
  }

  lemma ByteIsLow(b: byte)
    ensures ((b as bv8) as bv16) & 0xFF00 == 0
  {
  }

  lemma FoldFirst<R, B>(f: (R, B) -> R, r: R, b: B, u: seq<B>)
    ensures Fold(f, r, [b] + u) == Fold(f, f(r, b), u)
  {
    assert ([b] + u)[1..] == u;
  }

  /** Feeding n bits one at a time is adding them all to the register first, moving the register
      on n times, and taking out what is left of the bits. */
  lemma {:induction false} FeedsAreSteps<R(!new)>(feed: (R, bool) -> R, step: R -> R, add: (R, R) -> R,
                                                  read: R -> bool, next: R -> R, y: R, w: R, n: nat)
    requires forall y, w :: feed(add(y, w), read(w)) == add(step(y), next(w))
    ensures Fold(feed, add(y, w), Readings(read, next, w, n)) == add(Iterate(step, y, n), Iterate(next, w, n))
    decreases n
  {
    if n > 0 {
      FeedsAreSteps(feed, step, add, read, next, step(y), next(w), n - 1);
      FoldFirst(feed, add(y, w), read(w), Readings(read, next, next(w), n - 1));
    }
  }

  lemma IterateEight<R>(f: R -> R, x: R, s1: R, s2: R, s3: R, s4: R, s5: R, s6: R, s7: R, s8: R)
    requires f(x) == s1 && f(s1) == s2 && f(s2) == s3 && f(s3) == s4
    requires f(s4) == s5 && f(s5) == s6 && f(s6) == s7 && f(s7) == s8
    ensures Iterate(f, x, 8) == s8
  {
    assert Iterate(f, x, 8) == Iterate(f, s1, 7) == Iterate(f, s2, 6) == Iterate(f, s3, 5) == Iterate(f, s4, 4);
    assert Iterate(f, s4, 4) == Iterate(f, s5, 3) == Iterate(f, s6, 2) == Iterate(f, s7, 1) == Iterate(f, s8, 0);
  }

  /** Register y with the bits w pending: one more bit fed, one bit fewer pending. */
  lemma PendingBit(y: bv16, w: bv16)
    ensures FeedBit(Xor(y, w), TopBit(w)) == Xor(Registers.Shift(y), Left(w))
  {
    TopOfBit(w);
    Registers.FeedPending(y, w);
  }

  lemma TopOfBit(w: bv16)
    ensures Top(TopBit(w)) == w & 0x8000
  {
  }

  lemma PendingBits(y: bv16, w: bv16, n: nat)
    ensures DivideBits(Xor(y, w), Readings(TopBit, Left, w, n)) ==
        Xor(Iterate(Registers.Shift, y, n), Iterate(Left, w, n))
  {
    forall y, w ensures FeedBit(Xor(y, w), TopBit(w)) == Xor(Registers.Shift(y), Left(w)) {
      PendingBit(y, w);
    }
    FeedsAreSteps(FeedBit, Registers.Shift, Xor, TopBit, Left, y, w, n);
  }

  lemma ByteLeaves(v: bv16, w: bv16)
    requires v & 0xFF00 == 0 && w == v << 8
    ensures Iterate(Left, w, 8) == 0
  {
    IterateEight(Left, w, w << 1, w << 2, w << 3, w << 4, w << 5, w << 6, w << 7, 0);
  }

  lemma XorBack(r: bv16, w: bv16, x: bv16)
    requires x == Xor(r, w)
    ensures Xor(x, w) == r
  {
  }

  lemma XorZero(r: bv16)
    ensures Xor(r, 0) == r
  {
  }

  /** Eight shifts of the register with a byte added at its top are the division of its bits. */
  lemma ShiftsDivide(r: bv16, v: bv16, w: bv16, x: bv16)
    requires v & 0xFF00 == 0 && w == v << 8 && x == Xor(r, w)
    ensures Iterate(Registers.Shift, x, 8) == DivideBits(r, Readings(TopBit, Left, w, 8))
  {
    ByteLeaves(v, w);
    PendingBits(x, w, 8);
    XorBack(r, w, x);
    XorZero(Iterate(Registers.Shift, x, 8));
  }

  lemma ByteSwapIterates(r: bv16, v: bv16, c0: bv16, c1: bv16, c2: bv16, x: bv16)
    requires v & 0xFF00 == 0 && x == r ^ (v << 8)
    requires c0 == ((r >> 8) | (r << 8)) ^ v && c1 == c0 ^ ((c0 & 0xFF) >> 4) && c2 == c1 ^ (c1 << 12)
    ensures c2 ^ ((c2 & 0xFF) << 5) == Iterate(Registers.Shift, x, 8)
  {
    var s1 := Registers.Shift(x);
    var s2 := Registers.Shift(s1);
    var s3 := Registers.Shift(s2);
    var s4 := Registers.Shift(s3);
    var s5 := Registers.Shift(s4);
    var s6 := Registers.Shift(s5);
    var s7 := Registers.Shift(s6);
    var s8 := Registers.Shift(s7);
    Registers.ByteSwapIsShifts(r, v, c0, c1, c2, x, s1, s2, s3, s4, s5, s6, s7, s8);
    IterateEight(Registers.Shift, x, s1, s2, s3, s4, s5, s6, s7, s8);
  }

  lemma XorValue(r: bv16, w: bv16)
    ensures Xor(r, w) == r ^ w
  {
  }

  lemma ByteSwapReads(r: bv16, v: bv16, w: bv16, c0: bv16, c1: bv16, c2: bv16)
    requires v & 0xFF00 == 0 && w == v << 8
    requires c0 == ((r >> 8) | (r << 8)) ^ v && c1 == c0 ^ ((c0 & 0xFF) >> 4) && c2 == c1 ^ (c1 << 12)
    ensures c2 ^ ((c2 & 0xFF) << 5) == DivideBits(r, Readings(TopBit, Left, w, 8))
  {
    XorValue(r, w);
    ByteSwapIterates(r, v, c0, c1, c2, Xor(r, w));
    ShiftsDivide(r, v, w, Xor(r, w));
  }

  /** The bit read from each of ..., next(next(v)), next(v), v. */
  function ReadingsBack<R>(read: R -> bool, next: R -> R, v: R, n: nat): seq<bool>
    decreases n
  {
    if n == 0 then [] else ReadingsBack(read, next, next(v), n - 1) + [read(v)]
  }

  function LastBit(v: bv8): bool {
    v & 1 != 0
  }

  function Right(v: bv8): bv8 {
    v >> 1
  }

  /** The n lowest bits of v, most significant first. */
  function LowBits(v: bv8, n: nat): seq<bool> {
    ReadingsBack(LastBit, Right, v, n)
  }

  lemma {:induction false} DigitsAreBits(b: byte, v: bv8, n: nat)
    requires v == b as bv8
    ensures Digits(b, n) == LowBits(v, n)
    decreases n
  {
    if n > 0 {
      Parity(b);
      Halving(b);
      DigitsAreBits(b / 2, v >> 1, n - 1);
    }
  }

  lemma Parity(b: int)
    requires 0 <= b < 256
    ensures ((b as bv8) & 1 != 0) == (b % 2 == 1)
  {
  }

  lemma Halving(b: int)
    requires 0 <= b < 256
    ensures (b / 2) as bv8 == (b as bv8) >> 1
  {
  }

  lemma ReadingsEight<R>(read: R -> bool, next: R -> R, w0: R, w1: R, w2: R, w3: R, w4: R, w5: R, w6: R, w7: R)
    requires next(w0) == w1 && next(w1) == w2 && next(w2) == w3 && next(w3) == w4
    requires next(w4) == w5 && next(w5) == w6 && next(w6) == w7
    ensures Readings(read, next, w0, 8) ==
        [read(w0), read(w1), read(w2), read(w3), read(w4), read(w5), read(w6), read(w7)]
  {
    assert Readings(read, next, w4, 4) == [read(w4), read(w5), read(w6), read(w7)] by {
      assert Readings(read, next, w6, 2) == [read(w6), read(w7)];
    }
    assert Readings(read, next, w2, 6) == [read(w2), read(w3)] + Readings(read, next, w4, 4);
    assert Readings(read, next, w0, 8) == [read(w0), read(w1)] + Readings(read, next, w2, 6);
  }

  lemma ReadingsBackEight<R>(read: R -> bool, next: R -> R, v0: R, v1: R, v2: R, v3: R, v4: R, v5: R, v6: R, v7: R)
    requires next(v0) == v1 && next(v1) == v2 && next(v2) == v3 && next(v3) == v4
    requires next(v4) == v5 && next(v5) == v6 && next(v6) == v7
    ensures ReadingsBack(read, next, v0, 8) ==
        [read(v7), read(v6), read(v5), read(v4), read(v3), read(v2), read(v1), read(v0)]
  {
    assert ReadingsBack(read, next, v4, 4) == [read(v7), read(v6), read(v5), read(v4)] by {
      assert ReadingsBack(read, next, v6, 2) == [read(v7), read(v6)];
    }
    assert ReadingsBack(read, next, v2, 6) == ReadingsBack(read, next, v4, 4) + [read(v3), read(v2)];
    assert ReadingsBack(read, next, v0, 8) == ReadingsBack(read, next, v2, 6) + [read(v1), read(v0)];
  }

  lemma BitPositions(v: bv8, w: bv16)
    requires w == (v as bv16) << 8
    ensures TopBit(w) == LastBit(v >> 7) && TopBit(w << 1) == LastBit(v >> 6)
    ensures TopBit(w << 2) == LastBit(v >> 5) && TopBit(w << 3) == LastBit(v >> 4)
    ensures TopBit(w << 4) == LastBit(v >> 3) && TopBit(w << 5) == LastBit(v >> 2)
    ensures TopBit(w << 6) == LastBit(v >> 1) && TopBit(w << 7) == LastBit(v)
  {
  }

  lemma ReadingsMatch<R, S>(f: R -> bool, g: R -> R, w0: R, w1: R, w2: R, w3: R, w4: R, w5: R, w6: R, w7: R,
                            h: S -> bool, k: S -> S, v0: S, v1: S, v2: S, v3: S, v4: S, v5: S, v6: S, v7: S)
    requires g(w0) == w1 && g(w1) == w2 && g(w2) == w3 && g(w3) == w4 && g(w4) == w5 && g(w5) == w6 && g(w6) == w7
    requires k(v0) == v1 && k(v1) == v2 && k(v2) == v3 && k(v3) == v4 && k(v4) == v5 && k(v5) == v6 && k(v6) == v7
    requires f(w0) == h(v7) && f(w1) == h(v6) && f(w2) == h(v5) && f(w3) == h(v4)
    requires f(w4) == h(v3) && f(w5) == h(v2) && f(w6) == h(v1) && f(w7) == h(v0)
    ensures Readings(f, g, w0, 8) == ReadingsBack(h, k, v0, 8)
  {
    ReadingsEight(f, g, w0, w1, w2, w3, w4, w5, w6, w7);
    ReadingsBackEight(h, k, v0, v1, v2, v3, v4, v5, v6, v7);
  }

  lemma BitsFromTop(v: bv8, w: bv16)
    requires w == (v as bv16) << 8
    ensures LowBits(v, 8) == Readings(TopBit, Left, w, 8)
  {
    BitPositions(v, w);
    ReadingsMatch(TopBit, Left, w, w << 1, w << 2, w << 3, w << 4, w << 5, w << 6, w << 7,
                  LastBit, Right, v, v >> 1, v >> 2, v >> 3, v >> 4, v >> 5, v >> 6, v >> 7);
  }

  lemma BitsRead(b: byte, v: bv16, w: bv16)
    requires v == (b as bv8) as bv16 && w == v << 8
    ensures BitsOfByte(b) == Readings(TopBit, Left, w, 8)
  {
    DigitsAreBits(b, b as bv8, 8);
    BitsFromTop(b as bv8, w);
  }

  /** One pass of the loop body is the division of the eight bits of the byte. */
  lemma ByteSwapDivides(r: bv16, b: byte, v: bv16, c0: bv16, c1: bv16, c2: bv16, c3: bv16)
    requires v == (b as bv8) as bv16
    requires c0 == ((r >> 8) | (r << 8)) ^ v
    requires c1 == c0 ^ ((c0 & 0xFF) >> 4) && c2 == c1 ^ (c1 << 12) && c3 == c2 ^ ((c2 & 0xFF) << 5)
    ensures c3 == DivideBits(r, BitsOfByte(b))
  {
    var w := v << 8;
    ByteIsLow(b);
    BitsRead(b, v, w);
    ByteSwapReads(r, v, w, c0, c1, c2);
  }
}
