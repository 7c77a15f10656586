/** Serial numbers, the SEND_DATA packets of one block, and a device that stores them. */
module OtaBursts {
  import opened Bytes
  import opened OtaFirmware
  import opened OtaPackets

  const OP_GET_INFO: byte := 1
  const OP_CAN_UPDATE: byte := 2
  const OP_ENTER_UPDATE: byte := 3
  const OP_SEND_DATA: byte := 4
  const OP_VERIFY_DATA: byte := 5
  const OP_UPDATE_RESULT: byte := 6

  const SEND_DATA_STRUCT_OVERHEAD := 12
  const LAST_SERIAL := 0xFFFF

  // ---- serial numbers

  /** The serial number after sn; 0 is skipped. */
  function NextSerial(sn: word): (next: word)
    ensures 1 <= next
  {
    var next := (sn + 1) % TWO_16;
    if next == 0 then 1 else next
  }

  /** The n-th serial number issued after sn. */
  function Issue(sn: word, n: nat): (s: word)
    ensures n > 0 ==> 1 <= s
  {
    if n == 0 then sn else NextSerial(Issue(sn, n - 1))
  }

  lemma {:induction false} IssueShift(sn: word, n: nat)
    ensures Issue(NextSerial(sn), n) == Issue(sn, n + 1)
    decreases n
  {
    if n > 0 {
      IssueShift(sn, n - 1);
    }
  }

  /** Until the wrap, serial numbers count up. */
  lemma {:induction false} IssueCounts(sn: word, k: nat)
    requires 1 <= k && Issue(sn, 1) + k - 1 <= LAST_SERIAL
    ensures Issue(sn, k) == Issue(sn, 1) + k - 1
    decreases k
  {
    if k > 1 {
      IssueCounts(sn, k - 1);
    }
  }

  /** The range of serial numbers that a reply to n packets may carry. */
  predicate InRange(sn: word, n: nat, s: int) {
    Issue(sn, 1) <= s <= Issue(sn, n)
  }

  /** A serial number in the range was issued in this attempt, for every number of packets and
      every wrap; and it is never 0. */
  lemma AcceptedWasIssued(sn: word, n: nat, s: int) returns (k: nat)
    requires 1 <= n && InRange(sn, n, s)
    ensures s != 0 && 1 <= k <= n && Issue(sn, k) == s
  {
    var a := Issue(sn, 1);
    k := s - a + 1;
    IssueCounts(sn, k);
    if n < k {
      IssueCounts(sn, n);
    }
  }

  lemma NextIsCyclic(x: nat)
    ensures NextSerial(x % LAST_SERIAL + 1) == (x + 1) % LAST_SERIAL + 1
  {
  }

  /** The serial numbers go round a cycle of 65535. */
  lemma {:induction false} IssueCycles(sn: word, n: nat)
    requires 1 <= n
    ensures Issue(sn, n) == (Issue(sn, 1) + n - 2) % LAST_SERIAL + 1
    decreases n
  {
    if n > 1 {
      IssueCycles(sn, n - 1);
      NextIsCyclic(Issue(sn, 1) + n - 3);
    }
  }

  /** Exactly when every serial number issued in an attempt is acceptable: the attempt does not
      wrap, or it runs through whole cycles from 1 on. */
  lemma AllIssuedAcceptable(sn: word, n: nat)
    requires 1 <= n
    ensures (forall k :: 1 <= k <= n ==> InRange(sn, n, Issue(sn, k)))
            <==> (Issue(sn, 1) + n - 1 <= LAST_SERIAL || (Issue(sn, 1) == 1 && n % LAST_SERIAL == 0))
  {
    var a := Issue(sn, 1);
    if a + n - 1 <= LAST_SERIAL {
      IssueCounts(sn, n);
      forall k | 1 <= k <= n ensures InRange(sn, n, Issue(sn, k)) {
        IssueCounts(sn, k);
      }
    } else {
      var k := LAST_SERIAL + 1 - a;
      IssueCounts(sn, k);
      assert Issue(sn, k) == LAST_SERIAL && Issue(sn, k + 1) == 1;
      IssueCycles(sn, n);
      WholeCycles(n);
    }
  }

  lemma WholeCycles(n: nat)
    requires 1 <= n
    ensures (n - 1) % LAST_SERIAL + 1 == LAST_SERIAL <==> n % LAST_SERIAL == 0
  {
  }

  /** Exactly when no reply at all is acceptable: the last serial number is below the first. */
  lemma NoneAcceptable(sn: word, n: nat)
    requires 1 <= n
    ensures (forall s: int :: !InRange(sn, n, s)) <==> (Issue(sn, 1) + n - 2) % LAST_SERIAL + 1 < Issue(sn, 1)
  {
    IssueCycles(sn, n);
    assert Issue(sn, 1) <= Issue(sn, n) ==> InRange(sn, n, Issue(sn, 1));
  }

  /** A block of two packets sent under 0xFFFF and 1: the device cannot acknowledge it. */
  lemma WrapRefusesAll()
    ensures Issue(0xFFFE, 1) == 0xFFFF && Issue(0xFFFE, 2) == 1
    ensures forall s: int :: !InRange(0xFFFE, 2, s)
  {
  }

  lemma {:induction false} IssueTwice(sn: word, m: nat, n: nat)
    ensures Issue(Issue(sn, m), n) == Issue(sn, m + n)
    decreases n
  {
    if n > 0 {
      IssueTwice(sn, m, n - 1);
    }
  }

  /** No two attempts in a row, of at most 32768 packets each, are refused so: after one that no reply
      can acknowledge, any reply to the next is acceptable. */
  lemma WrapRefusesOnce(sn: word, n: nat)
    requires 1 <= n <= 32768 && forall s: int :: !InRange(sn, n, s)
    ensures forall k :: 1 <= k <= n ==> InRange(Issue(sn, n), n, Issue(Issue(sn, n), k))
    ensures Issue(Issue(sn, n), 1) <= Issue(Issue(sn, n), n)
  {
    hide Issue;
    NoneAcceptable(sn, n);
    IssueCycles(sn, n);
    IssueCycles(sn, n + 1);
    var next := Issue(sn, n);
    assert Issue(next, 1) == Issue(sn, n + 1) by {
      IssueTwice(sn, n, 1);
    }
    AllIssuedAcceptable(next, n);
    IssueCounts(next, n);
  }

  /** Two of 65535 serial numbers in a row are equal only if they are the same one. */
  lemma SameIssue(sn: word, t: nat, u: nat)
    requires 1 <= t && 1 <= u && t - u < LAST_SERIAL && u - t < LAST_SERIAL
    requires Issue(sn, t) == Issue(sn, u)
    ensures t == u
  {
    IssueCycles(sn, t);
    IssueCycles(sn, u);
    SameResidue(Issue(sn, 1) + t - 2, Issue(sn, 1) + u - 2);
  }

  lemma SameResidue(x: int, y: int)
    requires x % LAST_SERIAL == y % LAST_SERIAL && x - y < LAST_SERIAL && y - x < LAST_SERIAL
    ensures x == y
  {
  }

  /** After 65535 of them they begin again. */
  lemma IssueRepeats(sn: word, t: nat)
    requires 1 <= t
    ensures Issue(sn, t + LAST_SERIAL) == Issue(sn, t)
  {
    IssueCycles(sn, t);
    IssueCycles(sn, t + LAST_SERIAL);
    OneMoreCycle(Issue(sn, 1) + t - 2);
  }

  lemma OneMoreCycle(x: int)
    ensures (x + LAST_SERIAL) % LAST_SERIAL == x % LAST_SERIAL
  {
  }

  /** Serial numbers are issued from the b-th on, n of them.  A reply in their range that carries the
      t-th one, fewer than 65535 ago, carries one of these n. */
  lemma RecentIsOwn(sn: word, b: nat, n: nat, t: nat)
    requires 1 <= n && 1 <= t <= b + n && b + n - t < LAST_SERIAL
    requires InRange(Issue(sn, b), n, Issue(sn, t))
    ensures b < t
  {
    hide Issue, InRange;
    if t <= b {
      var k := AcceptedWasIssued(Issue(sn, b), n, Issue(sn, t));
      IssueTwice(sn, b, k);
      SameIssue(sn, t, b + k);
    }
  }

  // ---- the packets of a block

  const MAX_CHUNK := MAX_PACKET_PAYLOAD - SEND_DATA_STRUCT_OVERHEAD

  /** What one SEND_DATA packet carries. */
  datatype AnyChunk = Chunk(sn: word, offset: dword, data: bytes)

  type Chunk = x: AnyChunk | |x.data| <= MAX_CHUNK witness Chunk(0, 0, [])

  function SendData(crc: Crc, x: Chunk): (p: OtaPacket)
    ensures |p.payload| == |x.data| + SEND_DATA_STRUCT_OVERHEAD <= MAX_PACKET_PAYLOAD
  {
    OtaPacket(OP_SEND_DATA, LE16(x.sn) + LE32(x.offset) + LE16(|x.data|) + x.data + LE32(crc(x.data)))
  }

  /** The chunks of a block of data, each with at most `limit` bytes of it. */
  function Burst(limit: nat, sn: word, offset: int, data: bytes): seq<Chunk>
    requires 1 <= limit <= MAX_CHUNK
    requires 0 <= offset && offset + |data| <= TWO_32
    decreases |data|
  {
    if data == [] then []
    else
      var n := if |data| < limit then |data| else limit;
      [Chunk(NextSerial(sn), offset, data[..n])] + Burst(limit, NextSerial(sn), offset + n, data[n..])
  }

  /** x has exactly bytes pos to pos + n of the data, and their offset. */
  predicate Carries(limit: nat, offset: int, data: bytes, x: Chunk, pos: nat, n: nat) {
    1 <= n <= limit && pos + n <= |data| && x.offset == offset + pos && x.data == data[pos..pos + n]
  }

  /** Chunk k of a burst has the k-th serial number and a stretch of the block, faithfully. */
  lemma {:induction false} BurstChunk(limit: nat, sn: word, offset: int, data: bytes, k: nat) returns (pos: nat, n: nat)
    requires 1 <= limit <= MAX_CHUNK && 0 <= offset && offset + |data| <= TWO_32
    requires k < |Burst(limit, sn, offset, data)|
    ensures Carries(limit, offset, data, Burst(limit, sn, offset, data)[k], pos, n)
    ensures Burst(limit, sn, offset, data)[k].sn == Issue(sn, k + 1)
    decreases k
  {
    var m := if |data| < limit then |data| else limit;
    if k == 0 {
      pos, n := 0, m;
      assert Issue(sn, 1) == NextSerial(sn);
    } else {
      var later;
      later, n := BurstChunk(limit, NextSerial(sn), offset + m, data[m..], k - 1);
      pos := m + later;
      IssueShift(sn, k);
      ResliceTail(data, m, later, later + n);
    }
  }

  /** Another attempt on the same block sends the same bytes at the same offsets, in the same order. */
  lemma {:induction false} RetriesAlike(limit: nat, sn: word, other: word, offset: int, data: bytes)
    requires 1 <= limit <= MAX_CHUNK && 0 <= offset && offset + |data| <= TWO_32
    ensures var xs, ys := Burst(limit, sn, offset, data), Burst(limit, other, offset, data);
            && |xs| == |ys| && forall k :: 0 <= k < |xs| ==> xs[k].(sn := 0) == ys[k].(sn := 0)
    decreases |data|
  {
    if data != [] {
      var n := if |data| < limit then |data| else limit;
      RetriesAlike(limit, NextSerial(sn), NextSerial(other), offset + n, data[n..]);
    }
  }

  /** Every byte of the block is in some chunk. */
  lemma {:induction false} BurstReaches(limit: nat, sn: word, offset: int, data: bytes, i: nat) returns (k: nat)
    requires 1 <= limit <= MAX_CHUNK && 0 <= offset && offset + |data| <= TWO_32
    requires i < |data|
    ensures k < |Burst(limit, sn, offset, data)|
    ensures var x := Burst(limit, sn, offset, data)[k]; x.offset <= offset + i < x.offset + |x.data|
    decreases |data|
  {
    var m := if |data| < limit then |data| else limit;
    if i < m {
      k := 0;
    } else {
      var later := BurstReaches(limit, NextSerial(sn), offset + m, data[m..], i - m);
      k := later + 1;
    }
  }

  /** The chunks of a block, one after the other, are the block. */
  lemma {:induction false} BurstIsWhole(limit: nat, sn: word, offset: int, data: bytes)
    requires 1 <= limit <= MAX_CHUNK && 0 <= offset && offset + |data| <= TWO_32
    ensures Concat(DataOf(Burst(limit, sn, offset, data))) == data
    ensures data != [] ==> Burst(limit, sn, offset, data) != []
    decreases |data|
  {
    if data != [] {
      var n := if |data| < limit then |data| else limit;
      var later := Burst(limit, NextSerial(sn), offset + n, data[n..]);
      BurstIsWhole(limit, NextSerial(sn), offset + n, data[n..]);
      assert DataOf(Burst(limit, sn, offset, data)) == [data[..n]] + DataOf(later);
      assert data[..n] + data[n..] == data;
    }
  }

  function DataOf(xs: seq<Chunk>): seq<bytes> {
    seq(|xs|, k requires 0 <= k < |xs| => xs[k].data)
  }

  // ---- a device that stores by offset

  /** What is stored at each offset. */
  type Store = int -> Option<byte>

  function Blank(): Store {
    i => None
  }

  function Put(m: Store, offset: int, data: bytes): Store {
    i => if offset <= i < offset + |data| then Some(data[i - offset]) else m(i)
  }

  /** A device that takes a SEND_DATA packet whose length and checksum are right. */
  function Receive(crc: Crc, m: Store, p: OtaPacket): Store {
    var w := p.payload;
    if p.opcode != OP_SEND_DATA || |w| < SEND_DATA_STRUCT_OVERHEAD || |w| != SEND_DATA_STRUCT_OVERHEAD + U16(w, 6) then
        m
    else
      var data := w[8..|w| - 4];
      if crc(data) != U32(w, |w| - 4) then m else Put(m, U32(w, 2), data)
  }

  /** What a device that starts empty has stored after these packets. */
  function ReceiveAll(crc: Crc, ps: seq<OtaPacket>): Store
    decreases |ps|
  {
    if ps == [] then Blank() else Receive(crc, ReceiveAll(crc, ps[..|ps| - 1]), ps[|ps| - 1])
  }

  lemma SendDataFields(crc: Crc, x: Chunk)
    ensures var w := SendData(crc, x).payload;
            && U16(w, 0) == x.sn && U32(w, 2) == x.offset && U16(w, 6) == |x.data| && w[8..|w| - 4] == x.data
            && U32(w, |w| - 4) == crc(x.data)
  {
    var w := SendData(crc, x).payload;
    var n := LE16(|x.data|);
    assert w[0..2] == LE16(x.sn);
    assert w[0] == w[0..2][0] && w[1] == w[0..2][1];
    assert w[2..2 + 4] == LE32(x.offset);
    ReadLE32(w, 2, x.offset);
    assert w[6..8] == n;
    assert w[6] == n[0] && w[7] == n[1];
    assert w[8..|w| - 4] == x.data;
    assert w[|w| - 4..|w| - 4 + 4] == LE32(crc(x.data));
    ReadLE32(w, |w| - 4, crc(x.data));
  }

  /** The device reads back just what SEND_DATA carries. */
  lemma ReceiveSendData(crc: Crc, m: Store, x: Chunk)
    ensures Receive(crc, m, SendData(crc, x)) == Put(m, x.offset, x.data)
  {
    SendDataFields(crc, x);
  }

  /** Every stored byte is the firmware's. */
  ghost predicate Agrees(m: Store, data: bytes) {
    forall i :: m(i).Some? ==> 0 <= i < |data| && m(i).value == data[i]
  }

  /** Nothing stored is forgotten. */
  ghost predicate Keeps(before: Store, after: Store) {
    forall i :: before(i).Some? ==> after(i).Some?
  }
}
