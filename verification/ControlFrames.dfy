/**
 EDU-CTRL frames: encode_frame and FrameParser of protocol.py.

 Everything here holds for any checksum function of the frame body; the SDK uses Crc16.Checksum.
 */
module ControlFrames {
  import opened Bytes
  import opened Scanner

  const SYNC0: byte := 0xA5
  const SYNC1: byte := 0x5A
  const PROTO_VERSION: byte := 1
  const HDR_LEN := 7
  const CRC_LEN := 2
  const MAX_FRAME := 990
  const MAX_PAYLOAD := 981
  const MAX_BUFFER := 8 * MAX_FRAME

  type Sum = bytes -> word

  datatype Frame = Frame(frameType: byte, seqNo: byte, payload: bytes)

  /** Version, type, sequence number, length and payload: the bytes under the checksum. */
  function Body(version: byte, f: Frame): (body: bytes)
    requires |f.payload| <= MAX_PAYLOAD
    ensures |body| == 5 + |f.payload|
  {
    [version, f.frameType, f.seqNo] + LE16(|f.payload|) + f.payload
  }

  function Wire(sum: Sum, version: byte, f: Frame): (w: bytes)
    requires |f.payload| <= MAX_PAYLOAD
    ensures |w| == HDR_LEN + |f.payload| + CRC_LEN
  {
    [SYNC0, SYNC1] + Body(version, f) + LE16(sum(Body(version, f)))
  }

  /** w is a frame carrying f.  The version byte is under the checksum but is not looked at. */
  predicate IsWire(sum: Sum, w: bytes, f: Frame) {
    |f.payload| <= MAX_PAYLOAD && |w| == HDR_LEN + |f.payload| + CRC_LEN && w == Wire(sum, w[2], f)
  }

  function Wires(sum: Sum): Encoding<Frame> {
    (w, f) => IsWire(sum, w, f)
  }

  /** None stands for the ValueError of an oversized payload. */
  function EncodeFrame(sum: Sum, frameType: int, seqNo: int, payload: bytes): Option<bytes> {
    if |payload| > MAX_PAYLOAD then None
    else Some(Wire(sum, PROTO_VERSION, Frame(frameType % 256, seqNo % 256, payload)))
  }

  /** What the parser does at position pos of its buffer. */
  function DecideFrom(sum: Sum, b: bytes, pos: nat): Decision<Frame>
    requires pos <= |b|
  {
    if |b| - pos < HDR_LEN + CRC_LEN then NeedMore
    else if b[pos] != SYNC0 || b[pos + 1] != SYNC1 then Skip(1)
    else
      var n := U16(b, pos + 5);
      if n > MAX_PAYLOAD then Skip(2)
      else if |b| - pos < HDR_LEN + n + CRC_LEN then NeedMore
      else if sum(b[pos + 2..pos + HDR_LEN + n]) != U16(b, pos + HDR_LEN + n) then Skip(2)
      else Emit(Frame(b[pos + 3], b[pos + 4], b[pos + HDR_LEN..pos + HDR_LEN + n]), HDR_LEN + n + CRC_LEN)
  }

  function Decide(sum: Sum): Decider<Frame> {
    s => DecideFrom(sum, s, 0)
  }

  // ---- the parser loop

  lemma DecideAt(sum: Sum, b: bytes, pos: nat)
    requires pos <= |b|
    ensures Decide(sum)(b[pos..]) == DecideFrom(sum, b, pos)
  {
    if |b| - pos >= HDR_LEN + CRC_LEN {
      var n := U16(b, pos + 5);
      if |b| - pos >= HDR_LEN + n + CRC_LEN {
        assert b[pos..][2..HDR_LEN + n] == b[pos + 2..pos + HDR_LEN + n];
        assert b[pos..][HDR_LEN..HDR_LEN + n] == b[pos + HDR_LEN..pos + HDR_LEN + n];
      }
    }
  }

  lemma NoSyncAt(sum: Sum, b: bytes, pos: nat, frames: seq<Frame>)
    requires Reached(Decide(sum), b, pos, frames) && pos + HDR_LEN + CRC_LEN <= |b|
    requires b[pos] != SYNC0 || b[pos + 1] != SYNC1
    ensures Reached(Decide(sum), b, pos + 1, frames)
  {
    hide Decide, Reached, Scan, U16, U32;
    DecideAt(sum, b, pos);
    ReachedSkip(Decide(sum), b, pos, frames, 1);
  }

  lemma FalseSyncAt(sum: Sum, b: bytes, pos: nat, frames: seq<Frame>)
    requires Reached(Decide(sum), b, pos, frames) && pos + HDR_LEN + CRC_LEN <= |b|
    requires b[pos] == SYNC0 && b[pos + 1] == SYNC1
    requires var n := U16(b, pos + 5);
             n <= MAX_PAYLOAD ==> pos + HDR_LEN + n + CRC_LEN <= |b|
                                  && sum(b[pos + 2..pos + HDR_LEN + n]) != U16(b, pos + HDR_LEN + n)
    ensures Reached(Decide(sum), b, pos + 2, frames)
  {
    hide Decide, Reached, Scan, U16, U32;
    DecideAt(sum, b, pos);
    ReachedSkip(Decide(sum), b, pos, frames, 2);
  }

  lemma FrameAt(sum: Sum, b: bytes, pos: nat, frames: seq<Frame>, n: nat, body: bytes)
    requires Reached(Decide(sum), b, pos, frames) && pos + HDR_LEN + n + CRC_LEN <= |b|
    requires b[pos] == SYNC0 && b[pos + 1] == SYNC1 && n == U16(b, pos + 5) <= MAX_PAYLOAD
    requires body == b[pos + 2..pos + HDR_LEN + n] && sum(body) == U16(b, pos + HDR_LEN + n)
    ensures Reached(Decide(sum), b, pos + HDR_LEN + n + CRC_LEN, frames + [Frame(b[pos + 3], b[pos + 4], body[5..])])
  {
    hide Decide, Reached, Scan, U16, U32;
    DecideAt(sum, b, pos);
    assert body[5..] == b[pos + HDR_LEN..pos + HDR_LEN + n];
    ReachedEmit(Decide(sum), b, pos, frames, Frame(b[pos + 3], b[pos + 4], body[5..]), HDR_LEN + n + CRC_LEN);
  }

  /** The loop is over: the rest of the buffer waits for more bytes. */
  ghost predicate Stopped(sum: Sum, b: bytes, pos: nat, frames: seq<Frame>) {
    pos <= |b| && Scan(Decide(sum), b) == Outcome(frames, b[pos..]) && |b| - pos < MAX_FRAME
  }

  lemma WaitAt(sum: Sum, b: bytes, pos: nat, frames: seq<Frame>)
    requires Reached(Decide(sum), b, pos, frames)
    requires |b| - pos < HDR_LEN + CRC_LEN ||
             (b[pos] == SYNC0 && b[pos + 1] == SYNC1 && U16(b, pos + 5) <= MAX_PAYLOAD
              && |b| - pos < HDR_LEN + U16(b, pos + 5) + CRC_LEN)
    ensures Stopped(sum, b, pos, frames)
  {
    hide Decide, Scan, U16, U32;
    DecideAt(sum, b, pos);
    ReachedEnd(Decide(sum), b, pos, frames);
  }

  class FrameParser {
    const sum: Sum
    var buf: bytes

    constructor (sum: Sum)
      ensures this.sum == sum && buf == []
    {
      this.sum := sum;
      buf := [];
    }

    /** One turn of the loop in Feed, at position pos of buffer b; `more` is false on its break. */
    static method Turn(sum: Sum, b: bytes, pos: nat, frames: seq<Frame>)
      returns (more: bool, next: nat, found: seq<Frame>)
      requires Reached(Decide(sum), b, pos, frames)
      requires |b| - pos >= HDR_LEN + CRC_LEN
      ensures more ==> pos < next && Reached(Decide(sum), b, next, found)
      ensures !more ==> next == pos && found == frames && Stopped(sum, b, pos, frames)
    {
      hide Decide, DecideFrom, Reached, Stopped, U16, U32;
      more, next, found := true, pos, frames;
      if b[pos] != SYNC0 || b[pos + 1] != SYNC1 {
        NoSyncAt(sum, b, pos, frames);
        next := pos + 1;
        return;
      }
      var payloadLen := U16(b, pos + 5);
      if payloadLen > MAX_PAYLOAD {
        FalseSyncAt(sum, b, pos, frames);
        next := pos + 2;
        return;
      }
      var frameLen := HDR_LEN + payloadLen + CRC_LEN;
      if |b| - pos < frameLen {
        WaitAt(sum, b, pos, frames);
        more := false;
        return;
      }
      var body := b[pos + 2..pos + HDR_LEN + payloadLen];
      var crcActual := U16(b, pos + HDR_LEN + payloadLen);
      if sum(body) != crcActual {
        FalseSyncAt(sum, b, pos, frames);
        next := pos + 2;
        return;
      }
      FrameAt(sum, b, pos, frames, payloadLen, body);
      found := frames + [Frame(b[pos + 3], b[pos + 4], body[5..])];
      next := pos + frameLen;
    }

    /** The frames are those of the scan of the retained and the new bytes, and its rest is what is
        retained: the cap on the buffer never applies. */
    method Feed(data: bytes) returns (frames: seq<Frame>)
      modifies this
      ensures Outcome(frames, buf) == Scan(Decide(sum), old(buf) + data)
      ensures |buf| < MAX_FRAME
    {
      hide Decide, DecideFrom, Reached, Scan, U16, U32;
      buf := buf + data;
      frames := [];
      var b, pos, more := buf, 0, true;
      ReachedStart(Decide(sum), b);
      while more && |b| - pos >= HDR_LEN + CRC_LEN
        invariant 0 <= pos
        invariant if more then Reached(Decide(sum), b, pos, frames) else Stopped(sum, b, pos, frames)
        decreases |b| - pos, more
        modifies {}
      {
        more, pos, frames := Turn(sum, b, pos, frames);
      }
      if more {
        WaitAt(sum, b, pos, frames);
      }
      if pos > 0 {
        buf := buf[pos..];
      }
      if |buf| > MAX_BUFFER {
        assert false;  // the trim of an overlong buffer is never reached
      }
    }
  }
}
