/** Byte strings, optional results, and the little-endian integers of the wire formats. */
module Bytes {

  type byte = x: int | 0 <= x < 256
  type bytes = seq<byte>

  datatype Option<+T> = None | Some(value: T)

  const TWO_16 := 0x1_0000
  const TWO_32 := 0x1_0000_0000
  const TWO_64 := 0x1_0000_0000_0000_0000

  type word = x: int | 0 <= x < TWO_16
  type dword = x: int | 0 <= x < TWO_32
  type qword = x: int | 0 <= x < TWO_64

  /** The unsigned 16-bit little-endian integer at position i. */
  function U16(s: bytes, i: nat): (n: int)
    requires i + 2 <= |s|
    ensures 0 <= n < TWO_16
  {
    s[i] as int + 256 * s[i + 1] as int
  }

  function U32(s: bytes, i: nat): (n: int)
    requires i + 4 <= |s|
    ensures 0 <= n < TWO_32
  {
    U16(s, i) + TWO_16 * U16(s, i + 2)
  }

  function U64(s: bytes, i: nat): (n: int)
    requires i + 8 <= |s|
    ensures 0 <= n < TWO_64
  {
    U32(s, i) + TWO_32 * U32(s, i + 4)
  }

  function LE16(n: int): (w: bytes)
    requires 0 <= n < TWO_16
    ensures |w| == 2 && U16(w, 0) == n
  {
    [n % 256, n / 256]
  }

  function LE32(n: int): (w: bytes)
    requires 0 <= n < TWO_32
    ensures |w| == 4 && U32(w, 0) == n
  {
    LE16(n % TWO_16) + LE16(n / TWO_16)
  }

  function LE64(n: int): (w: bytes)
    requires 0 <= n < TWO_64
    ensures |w| == 8 && U64(w, 0) == n
  {
    LE32(n % TWO_32) + LE32(n / TWO_32)
  }

  /** Reading two bytes and writing them back gives the same bytes. */
  lemma LE16OfU16(s: bytes, i: nat)
    requires i + 2 <= |s|
    ensures LE16(U16(s, i)) == s[i..i + 2]
  {
  }

  lemma LE32OfU32(s: bytes, i: nat)
    requires i + 4 <= |s|
    ensures LE32(U32(s, i)) == s[i..i + 4]
  {
    var lo, hi := U16(s, i), U16(s, i + 2);
    LE16OfU16(s, i);
    LE16OfU16(s, i + 2);
    SplitWords(lo, hi);
    assert s[i..i + 2] + s[i + 2..i + 4] == s[i..i + 4];
  }

  lemma LE64OfU64(s: bytes, i: nat)
    requires i + 8 <= |s|
    ensures LE64(U64(s, i)) == s[i..i + 8]
  {
    hide U32, LE32;
    var lo, hi := U32(s, i), U32(s, i + 4);
    LE32OfU32(s, i);
    LE32OfU32(s, i + 4);
    SplitDwords(lo, hi);
    assert s[i..i + 4] + s[i + 4..i + 8] == s[i..i + 8];
  }

  lemma SplitDwords(lo: int, hi: int)
    requires 0 <= lo < TWO_32
    ensures (lo + TWO_32 * hi) % TWO_32 == lo && (lo + TWO_32 * hi) / TWO_32 == hi
  {
  }

  lemma SplitWords(lo: int, hi: int)
    requires 0 <= lo < TWO_16
    ensures (lo + TWO_16 * hi) % TWO_16 == lo && (lo + TWO_16 * hi) / TWO_16 == hi
  {
  }

  // ---- reading what was written somewhere in a longer string

  lemma ReadLE16(w: bytes, i: nat, n: word)
    requires i + 2 <= |w| && w[i..i + 2] == LE16(n)
    ensures U16(w, i) == n
  {
    var k := w[i..i + 2];
    assert k[0] == w[i] && k[1] == w[i + 1];
  }

  lemma ReadLE32(w: bytes, i: nat, n: dword)
    requires i + 4 <= |w| && w[i..i + 4] == LE32(n)
    ensures U32(w, i) == n
  {
    var k := w[i..i + 4];
    assert k[0] == w[i] && k[1] == w[i + 1] && k[2] == w[i + 2] && k[3] == w[i + 3];
  }

  lemma ReadLE64(w: bytes, i: nat, n: qword)
    requires i + 8 <= |w| && w[i..i + 8] == LE64(n)
    ensures U64(w, i) == n
  {
    var lo, hi := LE32(n % TWO_32), LE32(n / TWO_32);
    assert w[i..i + 4] == w[i..i + 8][..4] == lo;
    assert w[i + 4..i + 8] == w[i..i + 8][4..] == hi;
    ReadLE32(w, i, n % TWO_32);
    ReadLE32(w, i + 4, n / TWO_32);
  }

  /** All the byte strings of a sequence, one after the other. */
  function Concat<T>(ws: seq<seq<T>>): seq<T> {
    if ws == [] then [] else ws[0] + Concat(ws[1..])
  }

  lemma Associative<T>(a: seq<T>, b: seq<T>, c: seq<T>)
    ensures a + (b + c) == (a + b) + c
  {
  }

  /** A slice of a slice. */
  lemma Reslice<T>(s: seq<T>, lo: nat, hi: nat, i: nat, j: nat)
    requires lo <= hi <= |s| && i <= j <= hi - lo
    ensures s[lo..hi][i..j] == s[lo + i..lo + j]
  {
    var a, b := s[lo..hi][i..j], s[lo + i..lo + j];
    forall k | 0 <= k < j - i ensures a[k] == b[k] {
      assert a[k] == s[lo..hi][i + k];
    }
  }

  lemma ResliceHead<T>(s: seq<T>, n: nat, i: nat, j: nat)
    requires i <= j <= n <= |s|
    ensures s[..n][i..j] == s[i..j]
  {
    assert s[..n] == s[0..n];
    Reslice(s, 0, n, i, j);
  }

  lemma ResliceTail<T>(s: seq<T>, lo: nat, i: nat, j: nat)
    requires lo <= |s| && i <= j <= |s| - lo
    ensures s[lo..][i..j] == s[lo + i..lo + j]
  {
    assert s[lo..] == s[lo..|s|];
    Reslice(s, lo, |s|, i, j);
  }

  // ---- lists of records of one size

  /** Record i of those that start at `at` is r. */
  predicate RecordAt(w: bytes, at: nat, size: nat, i: nat, r: bytes) {
    at + i * size + size <= |w| && w[at + i * size..at + i * size + size] == r
  }

  predicate AllOfSize(rs: seq<bytes>, size: nat) {
    forall i :: 0 <= i < |rs| ==> |rs[i]| == size
  }

  predicate RecordsAt(w: bytes, at: nat, size: nat, rs: seq<bytes>) {
    forall i :: 0 <= i < |rs| ==> RecordAt(w, at, size, i, rs[i])
  }

  lemma {:induction false} ConcatSize(rs: seq<bytes>, size: nat)
    requires AllOfSize(rs, size)
    ensures |Concat(rs)| == |rs| * size
    decreases |rs|
  {
    if rs != [] {
      ConcatSize(rs[1..], size);
      OneTimeMore(|rs| - 1, size);
    }
  }

  lemma OneTimeMore(n: nat, size: nat)
    ensures (n + 1) * size == n * size + size && 0 <= n * size
  {
  }

  lemma RecordShifts(w: bytes, at: nat, size: nat, i: nat, r: bytes)
    ensures RecordAt(w, at, size, i + 1, r) <==> RecordAt(w, at + size, size, i, r)
  {
    OneTimeMore(i, size);
  }

  /** Records one after the other are read one by one. */
  lemma {:induction false} RecordsRead(w: bytes, at: nat, size: nat, rs: seq<bytes>)
    requires AllOfSize(rs, size) && at + |rs| * size <= |w| && 0 <= |rs| * size
    ensures w[at..at + |rs| * size] == Concat(rs) <==> RecordsAt(w, at, size, rs)
    decreases |rs|
  {
    if rs == [] {
      assert w[at..at] == [];
    } else {
      hide RecordAt, RecordsAt, Concat;
      var n, later := |rs| - 1, rs[1..];
      OneTimeMore(n, size);
      ConcatSize(later, size);
      RecordsRead(w, at + size, size, later);
      RecordsFirst(w, at, size, rs);
      RecordZero(w, at, size, rs[0]);
      assert |rs[0]| == size;
      assert w[at..at + |rs| * size] == w[at..at + size] + w[at + size..at + size + n * size];
      SplitEqual(w[at..at + size], w[at + size..at + size + n * size], rs);
    }
  }

  lemma RecordZero(w: bytes, at: nat, size: nat, r: bytes)
    requires at + size <= |w|
    ensures RecordAt(w, at, size, 0, r) <==> w[at..at + size] == r
  {
  }

  lemma SplitEqual(a: bytes, b: bytes, rs: seq<bytes>)
    requires rs != [] && |a| == |rs[0]|
    ensures a + b == Concat(rs) <==> a == rs[0] && b == Concat(rs[1..])
  {
    var all := a + b;
    assert all[..|a|] == a && all[|a|..] == b;
    var both := rs[0] + Concat(rs[1..]);
    assert both[..|a|] == rs[0] && both[|a|..] == Concat(rs[1..]);
  }

  lemma RecordsFirst(w: bytes, at: nat, size: nat, rs: seq<bytes>)
    requires rs != []
    ensures RecordsAt(w, at, size, rs) <==> RecordAt(w, at, size, 0, rs[0]) && RecordsAt(w, at + size, size, rs[1..])
  {
    hide RecordAt;
    forall i: nat | i < |rs| - 1
      ensures RecordAt(w, at, size, i + 1, rs[i + 1]) <==> RecordAt(w, at + size, size, i, rs[1..][i])
    {
      RecordShifts(w, at, size, i, rs[i + 1]);
    }
    if RecordAt(w, at, size, 0, rs[0]) && RecordsAt(w, at + size, size, rs[1..]) {
      forall i: nat | i < |rs| ensures RecordAt(w, at, size, i, rs[i]) {
        if i > 0 {
          assert RecordAt(w, at + size, size, i - 1, rs[1..][i - 1]);
          assert RecordAt(w, at, size, (i - 1) + 1, rs[(i - 1) + 1]);
        }
      }
    }
    if RecordsAt(w, at, size, rs) {
      forall i: nat | i < |rs[1..]| ensures RecordAt(w, at + size, size, i, rs[1..][i]) {
        assert RecordAt(w, at, size, i + 1, rs[i + 1]);
      }
    }
  }

  lemma {:induction false} ConcatAppend<T>(us: seq<seq<T>>, vs: seq<seq<T>>)
    ensures Concat(us + vs) == Concat(us) + Concat(vs)
    decreases |us|
  {
    if us == [] {
      assert us + vs == vs;
    } else {
      ConcatAppend(us[1..], vs);
      assert (us + vs)[0] == us[0] && (us + vs)[1..] == us[1..] + vs;
      Associative(us[0], Concat(us[1..]), Concat(vs));
    }
  }
}
