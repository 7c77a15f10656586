/** Bit patterns of the 16-bit CRC register.  Nothing here mentions byte strings. */
module Registers {

  /** One step of the division by x^16 + x^12 + x^5 + 1: shift left, and subtract the generator
      once if the bit shifted out was one.  See ShiftSubtracts for the branching form. */
  function Shift(r: bv16): bv16 {
    (r << 1) ^ (r >> 15) ^ ((r >> 15) << 5) ^ ((r >> 15) << 12)
  }

  /** Bring one message bit, 0x8000 or 0, into the division. */
  function Feed(r: bv16, top: bv16): bv16 {
    Shift(r ^ top)
  }

  lemma ShiftSubtracts(r: bv16)
    ensures Shift(r) == if r & 0x8000 != 0 then (r << 1) ^ 0x1021 else r << 1
  {
    if r & 0x8000 != 0 {
      TopSet(r);
    } else {
      TopClear(r);
    }
  }

  lemma TopSet(r: bv16)
    requires r & 0x8000 != 0
    ensures (r << 1) ^ (r >> 15) ^ ((r >> 15) << 5) ^ ((r >> 15) << 12) == (r << 1) ^ 0x1021
  {
  }

  lemma TopClear(r: bv16)
    requires r & 0x8000 == 0
    ensures (r << 1) ^ (r >> 15) ^ ((r >> 15) << 5) ^ ((r >> 15) << 12) == r << 1
  {
  }

  // ---- a step can be undone

  function Unshift(s: bv16): bv16 {
    ((s ^ (s & 1) ^ ((s & 1) << 5) ^ ((s & 1) << 12)) >> 1) | (s << 15)
  }

  lemma UnshiftShift(r: bv16)
    ensures Unshift(Shift(r)) == r
  {
  }

  lemma XorTwice(r: bv16, x: bv16)
    ensures (r ^ x) ^ x == r
  {
  }

  lemma FeedInjective(r: bv16, q: bv16, top: bv16)
    requires Feed(r, top) == Feed(q, top)
    ensures r == q
  {
    UnshiftShift(r ^ top);
    UnshiftShift(q ^ top);
    XorTwice(r, top);
    XorTwice(q, top);
  }

  // ---- one byte

  lemma ShiftValue(x: bv16, s: bv16)
    requires s == Shift(x)
    ensures s == (x << 1) ^ (x >> 15) ^ ((x >> 15) << 5) ^ ((x >> 15) << 12)
  {
  }

  lemma TwoShifts(x: bv16, s1: bv16, s2: bv16)
    requires s1 == (x << 1) ^ (x >> 15) ^ ((x >> 15) << 5) ^ ((x >> 15) << 12)
    requires s2 == (s1 << 1) ^ (s1 >> 15) ^ ((s1 >> 15) << 5) ^ ((s1 >> 15) << 12)
    ensures s2 == (x << 2) ^ (x >> 14) ^ ((x >> 14) << 5) ^ ((x >> 14) << 12)
  {
  }

  lemma FourShifts(x: bv16, s2: bv16, s4: bv16)
    requires s2 == (x << 2) ^ (x >> 14) ^ ((x >> 14) << 5) ^ ((x >> 14) << 12)
    requires s4 == (s2 << 2) ^ (s2 >> 14) ^ ((s2 >> 14) << 5) ^ ((s2 >> 14) << 12)
    ensures s4 == (x << 4) ^ (x >> 12) ^ ((x >> 12) << 5) ^ ((x >> 12) << 12)
  {
  }

  lemma EightShifts(x: bv16, s4: bv16, s8: bv16, c0: bv16, c1: bv16, c2: bv16)
    requires s4 == (x << 4) ^ (x >> 12) ^ ((x >> 12) << 5) ^ ((x >> 12) << 12)
    requires s8 == (s4 << 4) ^ (s4 >> 12) ^ ((s4 >> 12) << 5) ^ ((s4 >> 12) << 12)
    requires c0 == (x >> 8) | (x << 8) && c1 == c0 ^ ((c0 & 0xFF) >> 4) && c2 == c1 ^ (c1 << 12)
    ensures c2 ^ ((c2 & 0xFF) << 5) == s8
  {
  }

  lemma SwapBits(r: bv16, v: bv16, x: bv16)
    requires v & 0xFF00 == 0 && x == r ^ (v << 8)
    ensures ((r >> 8) | (r << 8)) ^ v == (x >> 8) | (x << 8)
  {
  }

  /** The byte swap c0 of the register with v added, and the three lines after it, are eight
      steps of the division. */
  lemma ByteSwapIsShifts(r: bv16, v: bv16, c0: bv16, c1: bv16, c2: bv16, x: bv16, s1: bv16, s2: bv16,
                         s3: bv16, s4: bv16, s5: bv16, s6: bv16, s7: bv16, s8: bv16)
    requires v & 0xFF00 == 0 && x == r ^ (v << 8)
    requires c0 == ((r >> 8) | (r << 8)) ^ v && c1 == c0 ^ ((c0 & 0xFF) >> 4) && c2 == c1 ^ (c1 << 12)
    requires s1 == Shift(x) && s2 == Shift(s1) && s3 == Shift(s2) && s4 == Shift(s3)
    requires s5 == Shift(s4) && s6 == Shift(s5) && s7 == Shift(s6) && s8 == Shift(s7)
    ensures c2 ^ ((c2 & 0xFF) << 5) == s8
  {
    ShiftValue(x, s1);
    ShiftValue(s1, s2);
    ShiftValue(s2, s3);
    ShiftValue(s3, s4);
    ShiftValue(s4, s5);
    ShiftValue(s5, s6);
    ShiftValue(s6, s7);
    ShiftValue(s7, s8);
    TwoShifts(x, s1, s2);
    TwoShifts(s2, s3, s4);
    TwoShifts(s4, s5, s6);
    TwoShifts(s6, s7, s8);
    FourShifts(x, s2, s4);
    FourShifts(s4, s6, s8);
    SwapBits(r, v, x);
    EightShifts(x, s4, s8, c0, c1, c2);
  }

  /** Register y with message bits w still to come, the top bit of w next. */
  lemma FeedPending(y: bv16, w: bv16)
    ensures Feed(y ^ w, w & 0x8000) == Shift(y) ^ (w << 1)
  {
  }

  // ---- two registers

  lemma ShiftXor(x: bv16, y: bv16)
    ensures Shift(x) ^ Shift(y) == Shift(x ^ y)
  {
  }

  /** The two registers differ in one of the bits of m. */
  predicate Apart(x: bv16, y: bv16, m: bv16) {
    (x ^ y) & m != 0
  }

  /** The bits of m moved up by one, and the lowest bit. */
  function Grow(m: bv16): bv16 {
    (m << 1) | 1
  }

  lemma ShiftKeepsLow(d: bv16, m: bv16)
    requires m & 0x8000 == 0 && d & m != 0
    ensures Shift(d) & ((m << 1) | 1) != 0
  {
    if Shift(d) & ((m << 1) | 1) == 0 {
      LowBitsGone(d, m);
    }
  }

  lemma LowBitsGone(d: bv16, m: bv16)
    requires m & 0x8000 == 0
    requires ((d << 1) ^ (d >> 15) ^ ((d >> 15) << 5) ^ ((d >> 15) << 12)) & ((m << 1) | 1) == 0
    ensures d & m == 0
  {
  }

  lemma TopDoesNotMatter(x: bv16, y: bv16, s: bv16, t: bv16, m: bv16)
    requires m & 0x8000 == 0 && s & 0x7FFF == 0 && t & 0x7FFF == 0
    ensures ((x ^ s) ^ (y ^ t)) & m == (x ^ y) & m
  {
  }

  /** Whatever bits s and t the two registers are fed next, they stay apart. */
  lemma FeedsApart(x: bv16, y: bv16, s: bv16, t: bv16, m: bv16)
    requires Apart(x, y, m) && m & 0x8000 == 0
    requires s & 0x7FFF == 0 && t & 0x7FFF == 0
    ensures Apart(Feed(x, s), Feed(y, t), Grow(m))
  {
    TopDoesNotMatter(x, y, s, t, m);
    ShiftXor(x ^ s, y ^ t);
    ShiftKeepsLow((x ^ s) ^ (y ^ t), m);
  }

  /** The first bit in which two messages differ. */
  lemma FirstDifference(r: bv16)
    ensures Feed(r, 0x8000) ^ Feed(r, 0) == 0x1021
  {
  }
}
