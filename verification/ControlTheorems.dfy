/** What the control-channel codec and parser promise together. */
module ControlTheorems {
  import opened Bytes
  import opened Scanner
  import opened ControlFrames
  import Crc16
  import BurstErrors

  lemma DecisionsStable(sum: Sum)
    ensures Stable(Decide(sum))
  {
    forall s, t ensures Persists(Decide(sum), s, t) {
      DecisionPersists(sum, s, t);
    }
  }

  lemma DecisionPersists(sum: Sum, s: bytes, t: bytes)
    ensures !DecideFrom(sum, s, 0).NeedMore? ==> DecideFrom(sum, s + t, 0) == DecideFrom(sum, s, 0)
  {
    if |s| >= HDR_LEN + CRC_LEN {
      var n := U16(s, 5);
      assert U16(s + t, 5) == n;
      if |s| >= HDR_LEN + n + CRC_LEN {
        assert (s + t)[2..HDR_LEN + n] == s[2..HDR_LEN + n];
        assert (s + t)[HDR_LEN..HDR_LEN + n] == s[HDR_LEN..HDR_LEN + n];
      }
    }
  }

  // ---- the parser emits exactly the frames the encoder writes

  lemma BodyFields(version: byte, f: Frame)
    requires |f.payload| <= MAX_PAYLOAD
    ensures var body := Body(version, f);
            && body[0] == version && body[1] == f.frameType && body[2] == f.seqNo
            && U16(body, 3) == |f.payload| && body[5..] == f.payload
  {
  }

  lemma WireFields(sum: Sum, version: byte, f: Frame)
    requires |f.payload| <= MAX_PAYLOAD
    ensures var w, n := Wire(sum, version, f), |f.payload|;
            && w[0] == SYNC0 && w[1] == SYNC1 && w[2] == version && w[3] == f.frameType && w[4] == f.seqNo
            && U16(w, 5) == n && w[2..HDR_LEN + n] == Body(version, f)
            && w[HDR_LEN..HDR_LEN + n] == f.payload && U16(w, HDR_LEN + n) == sum(Body(version, f))
  {
    var w, n, body := Wire(sum, version, f), |f.payload|, Body(version, f);
    BodyFields(version, f);
    assert w[2..HDR_LEN + n] == body;
    assert w[HDR_LEN..HDR_LEN + n] == body[5..];
    assert w[5] == body[3] && w[6] == body[4];
    assert w[HDR_LEN + n..] == LE16(sum(body));
  }

  /** Whatever follows it, a frame on the wire is emitted whole. */
  lemma WireIsEmitted(sum: Sum, s: bytes, n: nat, f: Frame)
    requires n <= |s| && IsWire(sum, s[..n], f)
    ensures DecideFrom(sum, s, 0) == Emit(f, n)
  {
    var w := s[..n];
    WireFields(sum, w[2], f);
    var k := |f.payload|;
    ResliceHead(s, n, 2, HDR_LEN + k);
    ResliceHead(s, n, HDR_LEN, HDR_LEN + k);
    SameU16(s, n, 5);
    SameU16(s, n, HDR_LEN + k);
    assert s[0] == w[0] && s[1] == w[1] && s[3] == w[3] && s[4] == w[4];
  }

  lemma SameU16(s: bytes, n: nat, i: nat)
    requires i + 2 <= n <= |s|
    ensures U16(s[..n], i) == U16(s, i)
  {
    assert s[..n][i] == s[i] && s[..n][i + 1] == s[i + 1];
  }

  /** What is emitted was on the wire. */
  lemma EmittedIsWire(sum: Sum, s: bytes, n: nat, f: Frame)
    requires DecideFrom(sum, s, 0) == Emit(f, n)
    ensures n <= |s| && IsWire(sum, s[..n], f)
  {
    var k := |f.payload|;
    var body := s[2..HDR_LEN + k];
    LE16OfU16(s, 5);
    LE16OfU16(s, HDR_LEN + k);
    assert body == [s[2], s[3], s[4]] + s[5..7] + s[HDR_LEN..HDR_LEN + k];
    assert body == Body(s[2], f);
    assert s[..n] == [s[0], s[1]] + body + s[HDR_LEN + k..HDR_LEN + k + 2];
  }

  /** A frame can never start on the second sync byte, so skipping both bytes of a false pair
      loses nothing that skipping one would find. */
  lemma DecisionsExact(sum: Sum)
    ensures Exact(Decide(sum), Wires(sum))
  {
    forall s, x: Spot<Frame> ensures EmitsExactly(Decide(sum), Wires(sum), s, x) {
      if x.at == 0 && EncodedAt(Wires(sum), s, x) {
        assert s[0..x.n] == s[..x.n];
        WireIsEmitted(sum, s, x.n, x.packet);
      }
      if x.at == 0 && Decide(sum)(s) == Emit(x.packet, x.n) {
        EmittedIsWire(sum, s, x.n, x.packet);
        assert s[0..x.n] == s[..x.n];
      }
    }
    forall s, i: nat ensures SkipsSafely(Decide(sum), Wires(sum), s, i) {
      SkipLosesNothing(sum, s, i);
    }
  }

  lemma SkipLosesNothing(sum: Sum, s: bytes, i: nat)
    ensures SkipsSafely(Decide(sum), Wires(sum), s, i)
  {
    var d := DecideFrom(sum, s, 0);
    if d.Skip? && i < d.n && StartsAt(Wires(sum), s, i) {
      var x: Spot<Frame> :| x.at == i && EncodedAt(Wires(sum), s, x);
      var w := s[i..i + x.n];
      WireFields(sum, w[2], x.packet);
      assert w[0] == s[i];
      if i == 0 {
        assert s[0..x.n] == s[..x.n];
        WireIsEmitted(sum, s, x.n, x.packet);
      }
      assert false;
    }
  }

  /** Over any reads of any stream the parser emits the greedy leftmost frames of the part of the
      stream it has consumed, and retains the rest, at most 989 bytes. */
  lemma FramesAreGreedyLeftmost(sum: Sum, inputs: seq<bytes>)
    ensures ParsesGreedily(Decide(sum), Wires(sum), inputs)
    ensures |FeedAll(Decide(sum), [], inputs).rest| < 990
  {
    DecisionsStable(sum);
    DecisionsExact(sum);
    StreamIsGreedy(Decide(sum), Wires(sum), inputs);
    WaitsBriefly(sum, FeedAll(Decide(sum), [], inputs).rest);
  }

  lemma WaitsBriefly(sum: Sum, s: bytes)
    requires Decide(sum)(s).NeedMore?
    ensures |s| < MAX_FRAME
  {
  }

  // ---- a frame can be withheld, but not for long

  /** A frame is never at the front of what is retained, nor one byte into it. */
  lemma RetainedStartsLate(sum: Sum, rest: bytes, x: Spot<Frame>)
    requires Decide(sum)(rest).NeedMore? && EncodedAt(Wires(sum), rest, x)
    ensures x.at >= 2
  {
    var w := rest[x.at..x.at + x.n];
    WireFields(sum, w[2], x.packet);
    assert w[0] == rest[x.at];
    if x.at == 0 {
      hide Decide, DecideFrom, EncodedAt;
      FrontIsDecided(sum, rest, x);
    }
  }

  lemma FrontIsDecided(sum: Sum, s: bytes, x: Spot<Frame>)
    requires EncodedAt(Wires(sum), s, x) && x.at == 0
    ensures Decide(sum)(s).Emit?
  {
    assert s[0..x.n] == s[..x.n];
    WireIsEmitted(sum, s, x.n, x.packet);
  }

  /** Once 988 bytes of the stream have come from its start on, a complete frame has been emitted, or
      starts inside one that was. */
  lemma FrameComesOut(sum: Sum, inputs: seq<bytes>, x: Spot<Frame>)
    requires EncodedAt(Wires(sum), Concat(inputs), x) && |Concat(inputs)| - x.at >= MAX_FRAME - 2
    ensures Covered(Spots(Decide(sum), Concat(inputs), 0), x.at)
  {
    hide IsWire, GreedyLeftmost, DecideFrom, Decide, Spots, FeedAll;
    var s, rest := Concat(inputs), FeedAll(Decide(sum), [], inputs).rest;
    FramesAreGreedyLeftmost(sum, inputs);
    if x.at >= |s| - |rest| {
      var i := x.at - (|s| - |rest|);
      assert rest[i..i + x.n] == s[x.at..x.at + x.n];
      RetainedStartsLate(sum, rest, x.(at := i));
      assert false;
    }
    ConsumedIsEmitted(Decide(sum), Wires(sum), inputs, x.at);
  }

  /** Fewer may not be enough: behind a false sync pair a frame with type 0xD5 and number 3 stays
      withheld, whatever follows, until 988 bytes have come from its start on. */
  lemma FrameWithheld(sum: Sum, version: byte, payload: bytes, t: bytes)
    requires |payload| <= MAX_PAYLOAD
    requires var w := Wire(sum, version, Frame(0xD5, 3, payload)); |w + t| < MAX_FRAME - 2
    ensures var s := [SYNC0, SYNC1] + Wire(sum, version, Frame(0xD5, 3, payload)) + t;
            Scan(Decide(sum), s) == Outcome([], s)
  {
    var w := Wire(sum, version, Frame(0xD5, 3, payload));
    var s := [SYNC0, SYNC1] + w + t;
    WireFields(sum, version, Frame(0xD5, 3, payload));
    assert s[5] == w[3] && s[6] == w[4];
    assert U16(s, 5) == MAX_PAYLOAD;
  }

  // ---- round trips

  ghost predicate Encoded(sum: Sum, ws: seq<bytes>, fs: seq<Frame>) {
    |ws| == |fs| && forall i :: 0 <= i < |ws| ==>
      Some(ws[i]) == EncodeFrame(sum, fs[i].frameType, fs[i].seqNo, fs[i].payload)
  }

  /** Print then parse: encoded frames, cut into any reads, come back. */
  lemma EncodeThenParse(sum: Sum, ws: seq<bytes>, fs: seq<Frame>, inputs: seq<bytes>)
    requires Encoded(sum, ws, fs)
    requires Concat(inputs) == Concat(ws)
    ensures FeedAll(Decide(sum), [], inputs) == Outcome(fs, [])
  {
    DecisionsStable(sum);
    DecisionsExact(sum);
    EncodedAreWires(sum, ws, fs);
    StreamRoundTrip(Decide(sum), Wires(sum), ws, fs, inputs);
  }

  lemma EncodedAreWires(sum: Sum, ws: seq<bytes>, fs: seq<Frame>)
    requires Encoded(sum, ws, fs)
    ensures EncodesAll(Wires(sum), ws, fs)
  {
    forall i | 0 <= i < |ws| ensures Wires(sum)(ws[i], fs[i]) {
      EncodedIsWire(sum, fs[i].frameType, fs[i].seqNo, fs[i].payload);
    }
  }

  lemma EncodedIsWire(sum: Sum, frameType: int, seqNo: int, payload: bytes)
    ensures var w := EncodeFrame(sum, frameType, seqNo, payload);
            && (w.Some? <==> |payload| <= 981)
            && (w.Some? ==> IsWire(sum, w.value, Frame(frameType % 256, seqNo % 256, payload)) && w.value[2] == 1)
  {
    if |payload| <= MAX_PAYLOAD {
      WireFields(sum, PROTO_VERSION, Frame(frameType % 256, seqNo % 256, payload));
    }
  }

  /** Garbage without a sync byte in front of a stream changes no frame. */
  lemma GarbageIgnored(sum: Sum, g: bytes, s: bytes)
    requires forall i :: 0 <= i < |g| ==> g[i] != SYNC0
    ensures Scan(Decide(sum), g + s).packets == Scan(Decide(sum), s).packets
    ensures HDR_LEN + CRC_LEN <= |s| ==> Scan(Decide(sum), g + s).rest == Scan(Decide(sum), s).rest
  {
    DecisionsStable(sum);
    forall i, u | 0 <= i < |g| && HDR_LEN + CRC_LEN <= |g[i..] + u| ensures Decide(sum)(g[i..] + u) == Skip(1) {
      assert (g[i..] + u)[0] == g[i];
    }
    GarbagePrefix(Decide(sum), HDR_LEN + CRC_LEN, g, s);
  }

  /** Parse then print: an emitted frame whose version byte was 1 is encoded to the bytes consumed. */
  lemma ParseThenEncode(sum: Sum, s: bytes, n: nat, f: Frame)
    requires Decide(sum)(s) == Emit(f, n) && s[2] == PROTO_VERSION
    ensures n <= |s| && EncodeFrame(sum, f.frameType, f.seqNo, f.payload) == Some(s[..n])
  {
    EmittedIsWire(sum, s, n, f);
  }

  // ---- corrupted frames, with the checksum the SDK uses

  /** w is the wire form of f with only the version, type, sequence number and payload bytes replaced. */
  ghost predicate SameFraming(sum: Sum, version: byte, f: Frame, w: bytes) {
    |f.payload| <= MAX_PAYLOAD && |w| == HDR_LEN + |f.payload| + CRC_LEN &&
    var good, end := Wire(sum, version, f), HDR_LEN + |f.payload|;
    && w[0] == good[0] && w[1] == good[1] && w[5] == good[5] && w[6] == good[6]
    && w[end] == good[end] && w[end + 1] == good[end + 1]
  }

  lemma WrongSumDropped(sum: Sum, version: byte, f: Frame, w: bytes, t: bytes)
    requires SameFraming(sum, version, f, w)
    requires sum(w[2..HDR_LEN + |f.payload|]) != sum(Body(version, f))
    ensures Decide(sum)(w + t) == Skip(2)
  {
    WireFields(sum, version, f);
    assert (w + t)[2..HDR_LEN + |f.payload|] == w[2..HDR_LEN + |f.payload|];
  }

  /** A frame of the SDK damaged within sixteen consecutive bits of its version, type, sequence
      number or payload is never emitted from where it started: the parser resynchronises. */
  lemma DamagedFrameDropped(version: byte, f: Frame, w: bytes, t: bytes, i: nat, n: nat)
    requires SameFraming(Crc16.Checksum, version, f, w) && w != Wire(Crc16.Checksum, version, f)
    requires n <= 16 && BurstErrors.Burst(Crc16.Bits(Body(version, f)), Crc16.Bits(w[2..HDR_LEN + |f.payload|]), i, n)
    ensures Decide(Crc16.Checksum)(w + t) == Skip(2)
  {
    DamageIsInBody(Crc16.Checksum, version, f, w);
    BurstErrors.BurstDetected(Body(version, f), w[2..HDR_LEN + |f.payload|], i, n);
    WrongSumDropped(Crc16.Checksum, version, f, w, t);
  }

  lemma DamageIsInBody(sum: Sum, version: byte, f: Frame, w: bytes)
    requires SameFraming(sum, version, f, w) && w != Wire(sum, version, f)
    ensures w[2..HDR_LEN + |f.payload|] != Body(version, f)
  {
    var good, end := Wire(sum, version, f), HDR_LEN + |f.payload|;
    WireFields(sum, version, f);
    assert w == [w[0], w[1]] + w[2..end] + [w[end], w[end + 1]];
    assert good == [good[0], good[1]] + good[2..end] + [good[end], good[end + 1]];
  }
}
