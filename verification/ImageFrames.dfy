/** Air-img sub-frames: parse_air_img_frame and AirImgStreamParser of protocol.py. */
module ImageFrames {
  import opened Bytes
  import opened Scanner

  const AIR_IMG_HEAD: byte := 1
  const AIR_IMG_BODY: byte := 2
  const AIR_IMG_TAIL: byte := 3
  const AIR_IMG_DATA_TYPE_IMAGE: byte := 1
  const FORMAT_JPEG: byte := 1
  const MAX_DATA := 4096
  const MAX_RETAINED := 9 + MAX_DATA - 1

  datatype SubFrame = SubFrame(frameType: byte, dataType: byte, groupId: byte, sequence: dword,
                               imgFormat: byte, data: bytes)

  /** None stands for ValueError. */
  function ParseAirImgFrame(payload: bytes): Option<SubFrame> {
    if |payload| < 7 then None
    else
      var sequence := U32(payload, 3);
      if payload[0] == AIR_IMG_HEAD then
        if |payload| < 8 then None
        else Some(SubFrame(payload[0], payload[1], payload[2], sequence, payload[7], []))
      else if payload[0] == AIR_IMG_BODY then
        if |payload| < 9 then None
        else
          var n := U16(payload, 7);
          if |payload| < 9 + n then None
          else Some(SubFrame(payload[0], payload[1], payload[2], sequence, FORMAT_JPEG, payload[9..9 + n]))
      else if payload[0] == AIR_IMG_TAIL then
        Some(SubFrame(payload[0], payload[1], payload[2], sequence, FORMAT_JPEG, []))
      else None
  }

  /** The sub-frames a sender can write: fields the layout has no room for have their defaults. */
  predicate Writable(x: SubFrame) {
    && x.dataType == AIR_IMG_DATA_TYPE_IMAGE
    && (x.frameType == AIR_IMG_HEAD || x.frameType == AIR_IMG_BODY || x.frameType == AIR_IMG_TAIL)
    && (x.frameType != AIR_IMG_HEAD ==> x.imgFormat == FORMAT_JPEG)
    && (x.frameType != AIR_IMG_BODY ==> x.data == [])
    && |x.data| <= 4096
  }

  /** The wire layout of a sub-frame. */
  function Wire(x: SubFrame): bytes
    requires Writable(x)
  {
    [x.frameType, x.dataType, x.groupId] + LE32(x.sequence) + Trailer(x)
  }

  function Trailer(x: SubFrame): bytes
    requires Writable(x)
  {
    if x.frameType == AIR_IMG_HEAD then [x.imgFormat]
    else if x.frameType == AIR_IMG_BODY then LE16(|x.data|) + x.data
    else []
  }

  predicate IsWire(w: bytes, x: SubFrame) {
    Writable(x) && w == Wire(x)
  }

  function Wires(): Encoding<SubFrame> {
    (w, x) => IsWire(w, x)
  }

  /** The length of the sub-frame whose header is at position pos. */
  function FrameLen(b: bytes, pos: nat): nat
    requires pos + 2 <= |b| && (b[pos] == AIR_IMG_BODY ==> pos + 9 <= |b|)
  {
    if b[pos] == AIR_IMG_BODY then 9 + U16(b, pos + 7) else if b[pos] == AIR_IMG_HEAD then 8 else 7
  }

  /** A sub-frame may start at position pos. */
  predicate Starts(b: bytes, pos: nat)
    requires pos + 2 <= |b|
  {
    && (b[pos] == AIR_IMG_HEAD || b[pos] == AIR_IMG_BODY || b[pos] == AIR_IMG_TAIL)
    && b[pos + 1] == AIR_IMG_DATA_TYPE_IMAGE
  }

  /** What the parser does at position pos of its buffer. */
  function DecideFrom(b: bytes, pos: nat): Decision<SubFrame>
    requires pos <= |b|
  {
    if |b| - pos < 2 then NeedMore
    else
      var t := b[pos];
      if !Starts(b, pos) then Skip(1)
      else if t == AIR_IMG_BODY && |b| - pos < 9 then NeedMore
      else if t == AIR_IMG_BODY && U16(b, pos + 7) > MAX_DATA then Skip(1)
      else
        var n := FrameLen(b, pos);
        if |b| - pos < n then NeedMore
        else
          match ParseAirImgFrame(b[pos..pos + n])
          case None => Skip(1)
          case Some(x) => Emit(x, n)
  }

  function Decide(): Decider<SubFrame> {
    s => DecideFrom(s, 0)
  }

  // ---- the parser loop

  lemma DecideAt(b: bytes, pos: nat)
    requires pos <= |b|
    ensures Decide()(b[pos..]) == DecideFrom(b, pos)
  {
    if |b| - pos >= 2 {
      var t := b[pos];
      if t != AIR_IMG_BODY || |b| - pos >= 9 {
        var n := FrameLen(b, pos);
        if |b| - pos >= n {
          assert b[pos..][0..n] == b[pos..pos + n];
        }
      }
    }
  }

  lemma NoStartAt(b: bytes, pos: nat, frames: seq<SubFrame>)
    requires Reached(Decide(), b, pos, frames) && pos + 2 <= |b|
    requires !Starts(b, pos)
    ensures Reached(Decide(), b, pos + 1, frames)
  {
    hide Decide, Reached, Scan, U16, U32;
    DecideAt(b, pos);
    ReachedSkip(Decide(), b, pos, frames, 1);
  }

  lemma TooLongAt(b: bytes, pos: nat, frames: seq<SubFrame>)
    requires Reached(Decide(), b, pos, frames) && pos + 9 <= |b|
    requires b[pos] == AIR_IMG_BODY && U16(b, pos + 7) > MAX_DATA
    ensures Reached(Decide(), b, pos + 1, frames)
  {
    hide Decide, Reached, Scan, U16, U32;
    DecideAt(b, pos);
    ReachedSkip(Decide(), b, pos, frames, 1);
  }

  lemma FrameAt(b: bytes, pos: nat, frames: seq<SubFrame>, n: nat)
    requires Reached(Decide(), b, pos, frames) && pos + 2 <= |b| && Starts(b, pos)
    requires b[pos] == AIR_IMG_BODY ==> pos + 9 <= |b| && U16(b, pos + 7) <= MAX_DATA
    requires n == FrameLen(b, pos) && pos + n <= |b|
    ensures var parsed := ParseAirImgFrame(b[pos..pos + n]);
            parsed.Some? && Reached(Decide(), b, pos + n, frames + [parsed.value])
  {
    hide Decide, Reached, Scan, U32;
    CutParses(b[pos..pos + n]);
    DecideAt(b, pos);
    ReachedEmit(Decide(), b, pos, frames, ParseAirImgFrame(b[pos..pos + n]).value, n);
  }

  /** The loop is over: the rest of the buffer waits for more bytes. */
  ghost predicate Stopped(b: bytes, pos: nat, frames: seq<SubFrame>) {
    pos <= |b| && Scan(Decide(), b) == Outcome(frames, b[pos..]) && |b| - pos <= MAX_RETAINED
  }

  lemma WaitAt(b: bytes, pos: nat, frames: seq<SubFrame>)
    requires Reached(Decide(), b, pos, frames)
    requires |b| - pos < 2 || (Starts(b, pos)
                               && (b[pos] == AIR_IMG_BODY && |b| - pos >= 9 ==> U16(b, pos + 7) <= MAX_DATA)
                               && ((b[pos] == AIR_IMG_BODY && |b| - pos < 9) || |b| - pos < FrameLen(b, pos)))
    ensures Stopped(b, pos, frames)
  {
    hide Decide, Scan, U16, U32;
    DecideAt(b, pos);
    ReachedEnd(Decide(), b, pos, frames);
  }

  lemma CutParses(w: bytes)
    requires |w| >= 7
    requires w[0] == AIR_IMG_HEAD || w[0] == AIR_IMG_BODY || w[0] == AIR_IMG_TAIL
    requires w[0] == AIR_IMG_HEAD ==> |w| >= 8
    requires w[0] == AIR_IMG_BODY ==> |w| >= 9 && |w| >= 9 + U16(w, 7)
    ensures ParseAirImgFrame(w).Some?
  {
  }

  class AirImgStreamParser {
    var buf: bytes

    constructor ()
      ensures buf == []
    {
      buf := [];
    }

    /** One turn of the loop in Feed, at position pos of buffer b; `more` is false on its break. */
    static method Turn(b: bytes, pos: nat, frames: seq<SubFrame>)
      returns (more: bool, next: nat, found: seq<SubFrame>)
      requires Reached(Decide(), b, pos, frames)
      requires |b| - pos >= 2
      ensures more ==> pos < next && Reached(Decide(), b, next, found)
      ensures !more ==> next == pos && found == frames && Stopped(b, pos, frames)
    {
      hide Decide, DecideFrom, Reached, Stopped, ParseAirImgFrame, U16, U32;
      more, next, found := true, pos, frames;
      var frameType := b[pos];
      if !Starts(b, pos) {
        NoStartAt(b, pos, frames);
        next := pos + 1;
        return;
      }
      if frameType == AIR_IMG_BODY && |b| - pos < 9 {
        WaitAt(b, pos, frames);
        more := false;
        return;
      }
      if frameType == AIR_IMG_BODY && U16(b, pos + 7) > MAX_DATA {
        TooLongAt(b, pos, frames);
        next := pos + 1;
        return;
      }
      var frameLen := FrameLen(b, pos);
      if |b| - pos < frameLen {
        WaitAt(b, pos, frames);
        more := false;
        return;
      }
      FrameAt(b, pos, frames, frameLen);
      var parsed := ParseAirImgFrame(b[pos..pos + frameLen]);
      if parsed.None? {
        assert false;  // the length check rules the ValueError out
      }
      found := frames + [parsed.value];
      next := pos + frameLen;
    }

    /** The sub-frames are those of the scan of the retained and the new bytes, and its rest is what
        is retained. */
    method Feed(data: bytes) returns (frames: seq<SubFrame>)
      modifies this
      ensures Outcome(frames, buf) == Scan(Decide(), old(buf) + data)
      ensures |buf| <= MAX_RETAINED
    {
      hide Decide, DecideFrom, Reached, Scan, U16, U32;
      buf := buf + data;
      frames := [];
      var b, pos, more := buf, 0, true;
      ReachedStart(Decide(), b);
      while more && |b| - pos >= 2
        invariant 0 <= pos
        invariant if more then Reached(Decide(), b, pos, frames) else Stopped(b, pos, frames)
        decreases |b| - pos, more
        modifies {}
      {
        more, pos, frames := Turn(b, pos, frames);
      }
      if more {
        WaitAt(b, pos, frames);
      }
      if pos > 0 {
        buf := buf[pos..];
      }
    }
  }

  // ---- the decisions

  lemma DecisionsStable()
    ensures Stable(Decide())
  {
    forall s, t ensures Persists(Decide(), s, t) {
      DecisionPersists(s, t);
    }
  }

  lemma DecisionPersists(s: bytes, t: bytes)
    ensures !DecideFrom(s, 0).NeedMore? ==> DecideFrom(s + t, 0) == DecideFrom(s, 0)
  {
    if |s| >= 2 && (s[0] != AIR_IMG_BODY || |s| >= 9) {
      var n := FrameLen(s, 0);
      if |s| >= n {
        assert (s + t)[0..n] == s[0..n];
      }
    }
  }

  lemma WireFields(w: bytes, x: SubFrame)
    requires IsWire(w, x)
    ensures |w| == 7 + |Trailer(x)| && w[0] == x.frameType && w[1] == x.dataType && w[2] == x.groupId
    ensures U32(w, 3) == x.sequence && w[7..] == Trailer(x)
    ensures x.frameType == AIR_IMG_BODY ==> U16(w, 7) == |x.data| && w[9..] == x.data
  {
    var k := LE32(x.sequence);
    assert w[3..7] == k && w[7..] == Trailer(x);
    assert w[3] == k[0] && w[4] == k[1] && w[5] == k[2] && w[6] == k[3];
    if x.frameType == AIR_IMG_BODY {
      var m := LE16(|x.data|);
      assert w[7..9] == m && w[9..] == x.data;
      assert w[7] == m[0] && w[8] == m[1];
    }
  }

  /** One sub-frame of each type, byte for byte. */
  lemma SubFramesSpelled()
    ensures IsWire([1, 1, 7, 5, 0, 0, 0, 2], SubFrame(1, 1, 7, 5, 2, []))
    ensures IsWire([2, 1, 7, 6, 0, 0, 0, 2, 0, 0xFF, 0xD8], SubFrame(2, 1, 7, 6, 1, [0xFF, 0xD8]))
    ensures IsWire([3, 1, 7, 7, 0, 0, 1], SubFrame(3, 1, 7, 0x1000007, 1, []))
  {
    assert LE32(5) == [5, 0, 0, 0] && LE32(6) == [6, 0, 0, 0] && LE32(0x1000007) == [7, 0, 0, 1] && LE16(2) == [2, 0];
    assert [1, 1, 7] + [5, 0, 0, 0] + [2] == [1, 1, 7, 5, 0, 0, 0, 2];
    assert [2, 1, 7] + [6, 0, 0, 0] + ([2, 0] + [0xFF, 0xD8]) == [2, 1, 7, 6, 0, 0, 0, 2, 0, 0xFF, 0xD8];
    assert [3, 1, 7] + [7, 0, 0, 1] + [] == [3, 1, 7, 7, 0, 0, 1];
  }

  lemma WireParses(w: bytes, x: SubFrame)
    requires IsWire(w, x)
    ensures ParseAirImgFrame(w) == Some(x)
  {
    WireFields(w, x);
    if x.frameType == AIR_IMG_BODY {
      assert w[9..9 + |x.data|] == x.data;
    } else if x.frameType == AIR_IMG_HEAD {
      assert w[7] == Trailer(x)[0];
    }
  }

  lemma WireIsEmitted(s: bytes, n: nat, x: SubFrame)
    requires n <= |s| && IsWire(s[..n], x)
    ensures DecideFrom(s, 0) == Emit(x, n)
  {
    var w := s[..n];
    WireFields(w, x);
    WireParses(w, x);
    assert s[0..n] == w;
    assert s[0] == w[0] && s[1] == w[1];
    if x.frameType == AIR_IMG_BODY {
      assert s[7] == w[7] && s[8] == w[8];
    }
  }

  lemma EmittedIsWire(s: bytes, n: nat, x: SubFrame)
    requires DecideFrom(s, 0) == Emit(x, n)
    ensures n <= |s| && IsWire(s[..n], x)
  {
    var w := s[..n];
    assert s[0..n] == w;
    LE32OfU32(w, 3);
    assert w == w[..3] + w[3..7] + w[7..];
    assert w[..3] == [x.frameType, x.dataType, x.groupId];
    if x.frameType == AIR_IMG_BODY {
      assert U16(s, 7) == U16(w, 7);
      LE16OfU16(w, 7);
      assert w[7..] == w[7..9] + w[9..];
    } else if x.frameType == AIR_IMG_HEAD {
      assert w[7..] == [w[7]];
    } else {
      assert w[7..] == [];
    }
  }

  lemma DecisionsExact()
    ensures Exact(Decide(), Wires())
  {
    forall s, x: Spot<SubFrame> ensures EmitsExactly(Decide(), Wires(), s, x) {
      DecisionExact(s, x);
    }
    forall s, i: nat ensures SkipsSafely(Decide(), Wires(), s, i) {
      if Decide()(s).Skip? && i < Decide()(s).n && StartsAt(Wires(), s, i) {
        var x: Spot<SubFrame> :| x.at == i && EncodedAt(Wires(), s, x);
        DecisionExact(s, x);
        assert false;
      }
    }
  }

  lemma DecisionExact(s: bytes, x: Spot<SubFrame>)
    ensures EmitsExactly(Decide(), Wires(), s, x)
  {
    if x.at == 0 {
      if EncodedAt(Wires(), s, x) {
        assert s[0..x.n] == s[..x.n];
        WireIsEmitted(s, x.n, x.packet);
      }
      if Decide()(s) == Emit(x.packet, x.n) {
        EmittedIsWire(s, x.n, x.packet);
        assert s[0..x.n] == s[..x.n];
      }
    }
  }

  /** Over any reads of any stream the parser emits the greedy leftmost sub-frames of the part of
      the stream it has consumed, and retains the rest, at most 4104 bytes. */
  lemma SubFramesAreGreedyLeftmost(inputs: seq<bytes>)
    ensures ParsesGreedily(Decide(), Wires(), inputs)
    ensures |FeedAll(Decide(), [], inputs).rest| <= MAX_RETAINED
  {
    DecisionsStable();
    DecisionsExact();
    StreamIsGreedy(Decide(), Wires(), inputs);
    WaitsBriefly(FeedAll(Decide(), [], inputs).rest);
  }

  /** Once 4105 bytes of the stream have come from its start on, a complete sub-frame has been emitted, or
      starts inside one that was. */
  lemma SubFrameComesOut(inputs: seq<bytes>, i: nat)
    requires StartsAt(Wires(), Concat(inputs), i) && |Concat(inputs)| - i > MAX_RETAINED
    ensures Covered(Spots(Decide(), Concat(inputs), 0), i)
  {
    SubFramesAreGreedyLeftmost(inputs);
    ConsumedIsEmitted(Decide(), Wires(), inputs, i);
  }

  lemma WaitsBriefly(s: bytes)
    requires Decide()(s).NeedMore?
    ensures |s| <= MAX_RETAINED
  {
  }

  /** Sub-frames written one after the other and cut into any reads come back. */
  lemma WriteThenParse(ws: seq<bytes>, xs: seq<SubFrame>, inputs: seq<bytes>)
    requires EncodesAll(Wires(), ws, xs)
    requires Concat(inputs) == Concat(ws)
    ensures FeedAll(Decide(), [], inputs) == Outcome(xs, [])
  {
    DecisionsStable();
    DecisionsExact();
    StreamRoundTrip(Decide(), Wires(), ws, xs, inputs);
  }
}
