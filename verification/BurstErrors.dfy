/** The checksum detects every error confined to sixteen consecutive bits of the message. */
module BurstErrors {
  import opened Bytes
  import opened Crc16
  import Registers

  // ---- registers fed the same bits

  lemma {:induction false} DifferenceStays<R(!new), B(!new)>(f: (R, B) -> R, r: R, q: R, bits: seq<B>)
    requires forall x, y, b :: f(x, b) == f(y, b) ==> x == y
    requires r != q
    ensures Fold(f, r, bits) != Fold(f, q, bits)
    decreases |bits|
  {
    if bits != [] {
      DifferenceStays(f, f(r, bits[0]), f(q, bits[0]), bits[1..]);
    }
  }

  lemma RegistersStayDifferent(r: bv16, q: bv16, bits: seq<bool>)
    requires r != q
    ensures DivideBits(r, bits) != DivideBits(q, bits)
  {
    forall x, y, b | FeedBit(x, b) == FeedBit(y, b) ensures x == y {
      Registers.FeedInjective(x, y, Top(b));
    }
    DifferenceStays(FeedBit, r, q, bits);
  }

  // ---- registers fed different bits

  /** The k lowest bits. */
  function Mask(k: nat): bv16 {
    if k == 0 then 0 else Registers.Grow(Mask(k - 1))
  }

  lemma MaskValues()
    ensures Mask(1) == 0x1 && Mask(2) == 0x3 && Mask(3) == 0x7 && Mask(4) == 0xF && Mask(5) == 0x1F && Mask(6) == 0x3F
    ensures Mask(7) == 0x7F && Mask(8) == 0xFF && Mask(9) == 0x1FF && Mask(10) == 0x3FF && Mask(11) == 0x7FF
    ensures Mask(12) == 0xFFF && Mask(13) == 0x1FFF && Mask(14) == 0x3FFF && Mask(15) == 0x7FFF
  {
  }

  lemma MaskBelowTop(k: nat)
    requires 1 <= k <= 15
    ensures Mask(k) & 0x8000 == 0
  {
    MaskValues();
  }

  /** The two registers differ in one of their k lowest bits. */
  predicate Apart(x: bv16, y: bv16, k: nat) {
    Registers.Apart(x, y, Mask(k))
  }

  lemma TopIsTop(b: bool)
    ensures Top(b) & 0x7FFF == 0
  {
  }

  lemma StaysApart(x: bv16, y: bv16, a: bool, b: bool, k: nat)
    requires 1 <= k <= 15 && Apart(x, y, k)
    ensures Apart(FeedBit(x, a), FeedBit(y, b), k + 1)
  {
    MaskBelowTop(k);
    TopIsTop(a);
    TopIsTop(b);
    Registers.FeedsApart(x, y, Top(a), Top(b), Mask(k));
  }

  lemma ApartDiffers(x: bv16, y: bv16, k: nat)
    requires Apart(x, y, k)
    ensures x != y
  {
    if x == y {
      XorSelf(x, Mask(k));
    }
  }

  lemma XorSelf(x: bv16, m: bv16)
    ensures (x ^ x) & m == 0
  {
  }

  lemma {:induction false} WindowKeepsApart(x: bv16, y: bv16, u: seq<bool>, v: seq<bool>, k: nat)
    requires |u| == |v| && 1 <= k && k + |u| <= 16 && Apart(x, y, k)
    ensures DivideBits(x, u) != DivideBits(y, v)
    decreases |u|
  {
    if u == [] {
      ApartDiffers(x, y, k);
    } else {
      StaysApart(x, y, u[0], v[0], k);
      WindowKeepsApart(FeedBit(x, u[0]), FeedBit(y, v[0]), u[1..], v[1..], k + 1);
    }
  }

  lemma FirstDifference(r: bv16, a: bool, b: bool)
    requires a != b
    ensures Apart(FeedBit(r, a), FeedBit(r, b), 1)
  {
    Registers.FirstDifference(r);
    MaskValues();
  }

  /** Two different windows of at most sixteen bits leave different registers. */
  lemma {:induction false} WindowSeparates(r: bv16, u: seq<bool>, v: seq<bool>)
    requires |u| == |v| <= 16 && u != v
    ensures DivideBits(r, u) != DivideBits(r, v)
    decreases |u|
  {
    if u[0] == v[0] {
      assert u == [u[0]] + u[1..] && v == [v[0]] + v[1..];
      WindowSeparates(FeedBit(r, u[0]), u[1..], v[1..]);
    } else {
      FirstDifference(r, u[0], v[0]);
      WindowKeepsApart(FeedBit(r, u[0]), FeedBit(r, v[0]), u[1..], v[1..], 1);
    }
  }

  // ---- bursts

  /** Bits i to i + n - 1 are the only ones in which the two bit strings may differ. */
  ghost predicate Burst(a: seq<bool>, b: seq<bool>, i: nat, n: nat) {
    && |a| == |b| && i + n <= |a|
    && a[..i] == b[..i] && a[i + n..] == b[i + n..]
  }

  lemma BurstOfBits(r: bv16, a: seq<bool>, b: seq<bool>, i: nat, n: nat)
    requires Burst(a, b, i, n) && n <= 16 && a != b
    ensures DivideBits(r, a) != DivideBits(r, b)
  {
    var head, u, v, tail := a[..i], a[i..i + n], b[i..i + n], a[i + n..];
    assert a == head + (u + tail) && b == head + (v + tail);
    assert u != v;
    var q := DivideBits(r, head);
    FoldConcat(FeedBit, r, head, u + tail);
    FoldConcat(FeedBit, r, head, v + tail);
    FoldConcat(FeedBit, q, u, tail);
    FoldConcat(FeedBit, q, v, tail);
    WindowSeparates(q, u, v);
    RegistersStayDifferent(DivideBits(q, u), DivideBits(q, v), tail);
  }

  lemma {:induction false} BitsInjective(a: bytes, b: bytes)
    requires |a| == |b| && Bits(a) == Bits(b)
    ensures a == b
    decreases |a|
  {
    if a != [] {
      assert BitsOfByte(a[0]) == Bits(a)[..8] == Bits(b)[..8] == BitsOfByte(b[0]);
      assert Bits(a[1..]) == Bits(a)[8..] == Bits(b)[8..] == Bits(b[1..]);
      BitsInjective(a[1..], b[1..]);
      ByteBitsInjective(a[0], b[0]);
      assert a == [a[0]] + a[1..] && b == [b[0]] + b[1..];
    }
  }

  lemma ByteBitsInjective(a: byte, b: byte)
    requires BitsOfByte(a) == BitsOfByte(b)
    ensures a == b
  {
    DigitsInjective(a, b, 8);
  }

  lemma {:induction false} DigitsInjective(a: nat, b: nat, n: nat)
    requires a < Pow2(n) && b < Pow2(n) && Digits(a, n) == Digits(b, n)
    ensures a == b
    decreases n
  {
    if n > 0 {
      var u, v := Digits(a, n), Digits(b, n);
      assert Digits(a / 2, n - 1) == u[..n - 1] == v[..n - 1] == Digits(b / 2, n - 1);
      assert (a % 2 == 1) == u[n - 1] == v[n - 1] == (b % 2 == 1);
      DigitsInjective(a / 2, b / 2, n - 1);
    }
  }

  lemma ValueInjective(r: bv16, q: bv16)
    requires Value(r) == Value(q)
    ensures r == q
  {
    ValueIsInt(r);
    ValueIsInt(q);
    SameByte(Low(r), Low(q));
    SameByte(High(r), High(q));
    JoinBytes(r, q);
  }

  lemma SameByte(x: bv8, y: bv8)
    requires x as int == y as int
    ensures x == y
  {
    ByteAsInt(x);
    ByteAsInt(y);
  }

  lemma ByteAsInt(x: bv8)
    ensures (x as int) as bv8 == x
  {
  }

  lemma JoinBytes(r: bv16, q: bv16)
    requires Low(r) == Low(q) && High(r) == High(q)
    ensures r == q
  {
  }

  /** Two different byte strings of one length whose bits differ only inside at most sixteen
      consecutive ones have different checksums. */
  lemma BurstDetected(a: bytes, b: bytes, i: nat, n: nat)
    requires |a| == |b| && a != b
    requires Burst(Bits(a), Bits(b), i, n) && n <= 16
    ensures Checksum(a) != Checksum(b)
  {
    if Bits(a) == Bits(b) {
      BitsInjective(a, b);
    }
    BurstOfBits(INIT, Bits(a), Bits(b), i, n);
    if Checksum(a) == Checksum(b) {
      ValueInjective(DivideBits(INIT, Bits(a)), DivideBits(INIT, Bits(b)));
    }
  }
}
