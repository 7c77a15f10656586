/** OTA packets: pack_packet and OTAPacketParser of ota_client.py. */
module OtaPackets {
  import opened Bytes
  import opened Scanner

  const PACKET_PREFIX := 0xFEDCBA98
  const PACKET_APPENDIX := 0x76543210
  const PACKET_HEADER_LEN := 7
  const PACKET_OVERHEAD := 11
  const MAX_PACKET_PAYLOAD := 0xFFFF
  const MAX_BUFFER := 256 * 1024
  const PREFIX_START: byte := 0x98

  datatype OtaPacket = OtaPacket(opcode: byte, payload: bytes)

  function Wire(p: OtaPacket): (w: bytes)
    requires |p.payload| <= MAX_PACKET_PAYLOAD
    ensures |w| == PACKET_OVERHEAD + |p.payload|
  {
    LE32(PACKET_PREFIX) + [p.opcode] + LE16(|p.payload|) + p.payload + LE32(PACKET_APPENDIX)
  }

  /** None stands for the ValueError of an oversized payload. */
  function PackPacket(opcode: int, payload: bytes): Option<bytes> {
    if |payload| > MAX_PACKET_PAYLOAD then None else Some(Wire(OtaPacket(opcode % 256, payload)))
  }

  predicate IsWire(w: bytes, p: OtaPacket) {
    |p.payload| <= MAX_PACKET_PAYLOAD && w == Wire(p)
  }

  function Wires(): Encoding<OtaPacket> {
    (w, p) => IsWire(w, p)
  }

  /** What the parser does at position pos of its buffer. */
  function DecideFrom(b: bytes, pos: nat): Decision<OtaPacket>
    requires pos <= |b|
  {
    if |b| - pos < PACKET_OVERHEAD then NeedMore
    else if U32(b, pos) != PACKET_PREFIX then Skip(1)
    else
      var n := U16(b, pos + 5);
      if |b| - pos < PACKET_OVERHEAD + n then NeedMore
      else if U32(b, pos + PACKET_HEADER_LEN + n) != PACKET_APPENDIX then Skip(1)
      else Emit(OtaPacket(b[pos + 4], b[pos + PACKET_HEADER_LEN..pos + PACKET_HEADER_LEN + n]), PACKET_OVERHEAD + n)
  }

  function Decide(): Decider<OtaPacket> {
    s => DecideFrom(s, 0)
  }

  // ---- the parser loop

  lemma DecideAt(b: bytes, pos: nat)
    requires pos <= |b|
    ensures Decide()(b[pos..]) == DecideFrom(b, pos)
  {
    if |b| - pos >= PACKET_OVERHEAD {
      var n := U16(b, pos + 5);
      if |b| - pos >= PACKET_OVERHEAD + n {
        assert b[pos..][PACKET_HEADER_LEN..PACKET_HEADER_LEN + n]
               == b[pos + PACKET_HEADER_LEN..pos + PACKET_HEADER_LEN + n];
      }
    }
  }

  lemma NoPacketAt(b: bytes, pos: nat, packets: seq<OtaPacket>)
    requires Reached(Decide(), b, pos, packets) && pos + PACKET_OVERHEAD <= |b|
    requires U32(b, pos) == PACKET_PREFIX ==>
               var n := U16(b, pos + 5);
               pos + PACKET_OVERHEAD + n <= |b| && U32(b, pos + PACKET_HEADER_LEN + n) != PACKET_APPENDIX
    ensures Reached(Decide(), b, pos + 1, packets)
  {
    hide Decide, Reached, Scan, U16, U32;
    DecideAt(b, pos);
    ReachedSkip(Decide(), b, pos, packets, 1);
  }

  lemma PacketAt(b: bytes, pos: nat, packets: seq<OtaPacket>, n: nat)
    requires Reached(Decide(), b, pos, packets) && pos + PACKET_OVERHEAD + n <= |b|
    requires U32(b, pos) == PACKET_PREFIX && n == U16(b, pos + 5)
    requires U32(b, pos + PACKET_HEADER_LEN + n) == PACKET_APPENDIX
    ensures Reached(Decide(), b, pos + PACKET_OVERHEAD + n,
                    packets + [OtaPacket(b[pos + 4], b[pos + PACKET_HEADER_LEN..pos + PACKET_HEADER_LEN + n])])
  {
    hide Decide, Reached, Scan, U16, U32;
    DecideAt(b, pos);
    var p := OtaPacket(b[pos + 4], b[pos + PACKET_HEADER_LEN..pos + PACKET_HEADER_LEN + n]);
    ReachedEmit(Decide(), b, pos, packets, p, PACKET_OVERHEAD + n);
  }

  /** The loop is over: the rest of the buffer waits for more bytes. */
  ghost predicate Stopped(b: bytes, pos: nat, packets: seq<OtaPacket>) {
    pos <= |b| && Scan(Decide(), b) == Outcome(packets, b[pos..]) && |b| - pos < PACKET_OVERHEAD + MAX_PACKET_PAYLOAD
  }

  lemma WaitAt(b: bytes, pos: nat, packets: seq<OtaPacket>)
    requires Reached(Decide(), b, pos, packets)
    requires |b| - pos < PACKET_OVERHEAD ||
             (U32(b, pos) == PACKET_PREFIX && |b| - pos < PACKET_OVERHEAD + U16(b, pos + 5))
    ensures Stopped(b, pos, packets)
  {
    hide Decide, Scan, U16, U32;
    DecideAt(b, pos);
    ReachedEnd(Decide(), b, pos, packets);
  }

  class OtaPacketParser {
    var buf: bytes

    constructor ()
      ensures buf == []
    {
      buf := [];
    }

    /** One turn of the loop in Feed, at position pos of buffer b; `more` is false on its break. */
    static method Turn(b: bytes, pos: nat, packets: seq<OtaPacket>)
      returns (more: bool, next: nat, found: seq<OtaPacket>)
      requires Reached(Decide(), b, pos, packets)
      requires |b| - pos >= PACKET_OVERHEAD
      ensures more ==> pos < next && Reached(Decide(), b, next, found)
      ensures !more ==> next == pos && found == packets && Stopped(b, pos, packets)
    {
      hide Decide, DecideFrom, Reached, Stopped, U16, U32;
      more, next, found := true, pos, packets;
      var prefix := U32(b, pos);
      if prefix != PACKET_PREFIX {
        NoPacketAt(b, pos, packets);
        next := pos + 1;
        return;
      }
      var payloadLen := U16(b, pos + 5);
      var totalLen := PACKET_OVERHEAD + payloadLen;
      if |b| - pos < totalLen {
        WaitAt(b, pos, packets);
        more := false;
        return;
      }
      var appendix := U32(b, pos + totalLen - 4);
      if appendix != PACKET_APPENDIX {
        NoPacketAt(b, pos, packets);
        next := pos + 1;
        return;
      }
      PacketAt(b, pos, packets, payloadLen);
      found := packets + [OtaPacket(b[pos + 4], b[pos + PACKET_HEADER_LEN..pos + PACKET_HEADER_LEN + payloadLen])];
      next := pos + totalLen;
    }

    /** The packets are those of the scan of the retained and the new bytes, and its rest is what is
        retained: the cap on the buffer never applies. */
    method Feed(data: bytes) returns (packets: seq<OtaPacket>)
      modifies this
      ensures Outcome(packets, buf) == Scan(Decide(), old(buf) + data)
      ensures |buf| < PACKET_OVERHEAD + MAX_PACKET_PAYLOAD
    {
      hide Decide, DecideFrom, Reached, Scan, U16, U32;
      buf := buf + data;
      packets := [];
      var b, pos, more := buf, 0, true;
      ReachedStart(Decide(), b);
      while more && |b| - pos >= PACKET_OVERHEAD
        invariant 0 <= pos
        invariant if more then Reached(Decide(), b, pos, packets) else Stopped(b, pos, packets)
        decreases |b| - pos, more
        modifies {}
      {
        more, pos, packets := Turn(b, pos, packets);
      }
      if more {
        WaitAt(b, pos, packets);
      }
      if pos > 0 {
        buf := buf[pos..];
      }
      if |buf| > MAX_BUFFER {
        assert false;  // the trim of an overlong buffer is never reached
      }
    }
  }

  // ---- the decisions

  lemma DecisionsStable()
    ensures Stable(Decide())
  {
    forall s, t ensures Persists(Decide(), s, t) {
      DecisionPersists(s, t);
    }
  }

  lemma DecisionPersists(s: bytes, t: bytes)
    ensures !DecideFrom(s, 0).NeedMore? ==> DecideFrom(s + t, 0) == DecideFrom(s, 0)
  {
    if |s| >= PACKET_OVERHEAD {
      var n := U16(s, 5);
      if |s| >= PACKET_OVERHEAD + n {
        assert (s + t)[PACKET_HEADER_LEN..PACKET_HEADER_LEN + n] == s[PACKET_HEADER_LEN..PACKET_HEADER_LEN + n];
      }
    }
  }

  lemma WireFields(w: bytes, p: OtaPacket)
    requires IsWire(w, p)
    ensures var n := |p.payload|;
            && U32(w, 0) == PACKET_PREFIX && w[4] == p.opcode && U16(w, 5) == n
            && w[PACKET_HEADER_LEN..PACKET_HEADER_LEN + n] == p.payload
            && U32(w, PACKET_HEADER_LEN + n) == PACKET_APPENDIX
  {
    var n, m := |p.payload|, LE16(|p.payload|);
    assert w[0..4] == LE32(PACKET_PREFIX);
    ReadLE32(w, 0, PACKET_PREFIX);
    assert w[5..7] == m && w[5] == m[0] && w[6] == m[1];
    assert w[PACKET_HEADER_LEN + n..PACKET_HEADER_LEN + n + 4] == LE32(PACKET_APPENDIX);
    ReadLE32(w, PACKET_HEADER_LEN + n, PACKET_APPENDIX);
  }

  lemma WireIsEmitted(s: bytes, n: nat, p: OtaPacket)
    requires n <= |s| && IsWire(s[..n], p)
    ensures DecideFrom(s, 0) == Emit(p, n)
  {
    var w, k := s[..n], |p.payload|;
    WireFields(w, p);
    assert U32(s, 0) == U32(w, 0) && U16(s, 5) == U16(w, 5);
    assert U32(s, PACKET_HEADER_LEN + k) == U32(w, PACKET_HEADER_LEN + k);
    assert s[PACKET_HEADER_LEN..PACKET_HEADER_LEN + k] == w[PACKET_HEADER_LEN..PACKET_HEADER_LEN + k];
  }

  lemma EmittedIsWire(s: bytes, n: nat, p: OtaPacket)
    requires DecideFrom(s, 0) == Emit(p, n)
    ensures n <= |s| && IsWire(s[..n], p)
  {
    var k := |p.payload|;
    LE32OfU32(s, 0);
    LE16OfU16(s, 5);
    LE32OfU32(s, PACKET_HEADER_LEN + k);
    assert s[..n] == s[0..4] + [s[4]] + s[5..7] + s[PACKET_HEADER_LEN..PACKET_HEADER_LEN + k]
                     + s[PACKET_HEADER_LEN + k..n];
  }

  lemma DecisionExact(s: bytes, x: Spot<OtaPacket>)
    ensures EmitsExactly(Decide(), Wires(), s, x)
  {
    if x.at == 0 {
      if EncodedAt(Wires(), s, x) {
        assert s[0..x.n] == s[..x.n];
        WireIsEmitted(s, x.n, x.packet);
      }
      if Decide()(s) == Emit(x.packet, x.n) {
        EmittedIsWire(s, x.n, x.packet);
        assert s[0..x.n] == s[..x.n];
      }
    }
  }

  lemma DecisionsExact()
    ensures Exact(Decide(), Wires())
  {
    forall s, x: Spot<OtaPacket> ensures EmitsExactly(Decide(), Wires(), s, x) {
      DecisionExact(s, x);
    }
    forall s, i: nat ensures SkipsSafely(Decide(), Wires(), s, i) {
      if Decide()(s).Skip? && i < Decide()(s).n && StartsAt(Wires(), s, i) {
        var x: Spot<OtaPacket> :| x.at == i && EncodedAt(Wires(), s, x);
        DecisionExact(s, x);
        assert false;
      }
    }
  }

  // ---- streams

  /** Over any reads of any stream the parser emits the greedy leftmost packets of the part of the
      stream it has consumed, and retains the rest, at most 65545 bytes. */
  lemma PacketsAreGreedyLeftmost(inputs: seq<bytes>)
    ensures ParsesGreedily(Decide(), Wires(), inputs)
    ensures |FeedAll(Decide(), [], inputs).rest| < PACKET_OVERHEAD + MAX_PACKET_PAYLOAD
  {
    DecisionsStable();
    DecisionsExact();
    StreamIsGreedy(Decide(), Wires(), inputs);
    WaitsBriefly(FeedAll(Decide(), [], inputs).rest);
  }

  /** Once 65546 bytes of the stream have come from its start on, a complete packet has been emitted, or
      starts inside one that was. */
  lemma PacketComesOut(inputs: seq<bytes>, i: nat)
    requires StartsAt(Wires(), Concat(inputs), i) && |Concat(inputs)| - i > PACKET_OVERHEAD + MAX_PACKET_PAYLOAD - 1
    ensures Covered(Spots(Decide(), Concat(inputs), 0), i)
  {
    PacketsAreGreedyLeftmost(inputs);
    ConsumedIsEmitted(Decide(), Wires(), inputs, i);
  }

  lemma WaitsBriefly(s: bytes)
    requires Decide()(s).NeedMore?
    ensures |s| < PACKET_OVERHEAD + MAX_PACKET_PAYLOAD
  {
  }

  ghost predicate Packed(ws: seq<bytes>, ps: seq<OtaPacket>) {
    |ws| == |ps| && forall i :: 0 <= i < |ws| ==> Some(ws[i]) == PackPacket(ps[i].opcode, ps[i].payload)
  }

  lemma PackedAreWires(ws: seq<bytes>, ps: seq<OtaPacket>)
    requires Packed(ws, ps)
    ensures EncodesAll(Wires(), ws, ps)
  {
    forall i | 0 <= i < |ws| ensures Wires()(ws[i], ps[i]) {
      assert Some(ws[i]) == PackPacket(ps[i].opcode, ps[i].payload);
    }
  }

  /** Packets packed one after the other and cut into any reads come back. */
  lemma PackThenParse(ws: seq<bytes>, ps: seq<OtaPacket>, inputs: seq<bytes>)
    requires Packed(ws, ps)
    requires Concat(inputs) == Concat(ws)
    ensures FeedAll(Decide(), [], inputs) == Outcome(ps, [])
  {
    DecisionsStable();
    DecisionsExact();
    PackedAreWires(ws, ps);
    StreamRoundTrip(Decide(), Wires(), ws, ps, inputs);
  }

  /** Packing an emitted packet gives back the bytes consumed. */
  lemma ParseThenPack(s: bytes, n: nat, p: OtaPacket)
    requires Decide()(s) == Emit(p, n)
    ensures n <= |s| && PackPacket(p.opcode, p.payload) == Some(s[..n])
  {
    EmittedIsWire(s, n, p);
  }

  /** One packet, byte for byte; and one too long for its length field. */
  lemma PacketSpelled(payload: bytes)
    ensures PackPacket(0x101, [0x34, 0x12])
            == Some([0x98, 0xBA, 0xDC, 0xFE, 1, 2, 0, 0x34, 0x12, 0x10, 0x32, 0x54, 0x76])
    ensures PackPacket(1, payload).None? <==> |payload| > 65535
  {
    assert LE32(PACKET_PREFIX) == [0x98, 0xBA, 0xDC, 0xFE] && LE32(PACKET_APPENDIX) == [0x10, 0x32, 0x54, 0x76];
    assert LE16(2) == [2, 0];
    var w: bytes := [0x98, 0xBA, 0xDC, 0xFE, 1, 2, 0, 0x34, 0x12, 0x10, 0x32, 0x54, 0x76];
    assert [0x98, 0xBA, 0xDC, 0xFE] + [1] + [2, 0] + [0x34, 0x12] + [0x10, 0x32, 0x54, 0x76] == w;
  }

  /** Garbage without the first byte of the prefix, in front of a stream, changes no packet. */
  lemma GarbageIgnored(g: bytes, s: bytes)
    requires forall i :: 0 <= i < |g| ==> g[i] != PREFIX_START
    ensures Scan(Decide(), g + s).packets == Scan(Decide(), s).packets
    ensures PACKET_OVERHEAD <= |s| ==> Scan(Decide(), g + s).rest == Scan(Decide(), s).rest
  {
    DecisionsStable();
    forall i, u | 0 <= i < |g| && PACKET_OVERHEAD <= |g[i..] + u| ensures Decide()(g[i..] + u) == Skip(1) {
      var v := g[i..] + u;
      assert v[0] == g[i];
      LE32OfU32(v, 0);
      assert v[0..4][0] == v[0] && LE32(PACKET_PREFIX)[0] == PREFIX_START;
    }
    GarbagePrefix(Decide(), PACKET_OVERHEAD, g, s);
  }
}
