/**
 GlassesClient of client.py: its atomic sections, each one an action of Transactions.  Each keeps
 what Transactions proves of every run: the map holds the own entry of each registered request and
 nothing else, and frames go only where they fit.
 */
module ControlClients {
  import opened Bytes
  import opened Scanner
  import opened ControlFrames
  import opened Transactions
  import Crc16

  const EVT: byte := 0x20

  /** _Pending: the frame is there exactly when the event is set. */
  class Pending {
    const expectedType: byte
    var frame: Option<Frame>
    ghost const number: nat
    ghost const seqNo: byte
    ghost var origin: nat
    ghost var stage: Stage

    ghost function Value(): Ticket
      reads this
    {
      Ticket(seqNo, expectedType, stage, if frame.None? then None else Some(Arrival(frame.value, origin)))
    }

    constructor (expectedType: byte, ghost number: nat, ghost seqNo: byte)
      ensures this.number == number && Value() == Ticket(seqNo, expectedType, Allocated, None)
    {
      this.expectedType, this.number, this.seqNo := expectedType, number, seqNo;
      frame, origin, stage := None, 0, Allocated;
    }
  }

  class GlassesClient {
    const parser: FrameParser
    var nextSeqNo: byte
    var pending: map<byte, Pending>
    var output: bytes
    var events: seq<bytes>
    ghost var issued: seq<Pending>
    ghost var reader: Reader

    ghost predicate Valid()
      reads this
    {
      && (forall i :: 0 <= i < |issued| ==> issued[i].number == i)
      && (forall q :: q in pending ==> pending[q].number < |issued| && issued[pending[q].number] == pending[q])
    }

    ghost function Tickets(): seq<Ticket>
      reads this, issued
    {
      seq(|issued|, i requires 0 <= i < |issued| reads this, issued => issued[i].Value())
    }

    ghost function Value(): State
      reads this, issued
    {
      State(nextSeqNo, Tickets(), map q | q in pending :: pending[q].number, reader)
    }

    constructor ()
      ensures Valid() && Value() == START && fresh(parser) && parser.sum == Crc16.Checksum && parser.buf == []
      ensures output == [] && events == []
    {
      parser := new FrameParser(Crc16.Checksum);
      nextSeqNo, pending, output, events, issued, reader := 0, map[], [], [], [], Idle;
    }

    method NextSeq() returns (seqNo: byte)
      modifies this`nextSeqNo
      ensures seqNo == old(nextSeqNo) && nextSeqNo == (old(nextSeqNo) + 1) % 256
    {
      seqNo := nextSeqNo;
      nextSeqNo := (nextSeqNo + 1) % 256;
    }

    /** The first two lines of _transact. */
    method Start(expectedType: byte) returns (seqNo: byte, p: Pending)
      requires Valid()
      modifies this
      ensures Valid() && fresh(p) && issued == old(issued) + [p] && p.number == |old(issued)| && p.seqNo == seqNo
      ensures Value() == Apply(old(Value()), Begin(expectedType))
      ensures Kept(old(Value())) ==> Kept(Value())
    {
      hide Kept, Window, Timely;
      ghost var s := Value();
      seqNo := NextSeq();
      p := new Pending(expectedType, |issued|, seqNo);
      issued := issued + [p];
      assert forall i :: 0 <= i < |old(issued)| ==> issued[i].Value() == old(issued[i].Value());
      assert Tickets() == old(Tickets()) + [p.Value()];
      if Kept(s) {
        BeginKeeps(s, expectedType);
      }
    }

    /** The request goes into the map. */
    method Enter(seqNo: byte, p: Pending)
      requires Valid() && p in issued && p.seqNo == seqNo && p.stage == Allocated
      modifies this`pending, p`stage
      ensures Valid() && Enabled(old(Value()), Register(p.number)) && Value() == Apply(old(Value()), Register(p.number))
      ensures Kept(old(Value())) && Window(old(Value())) ==> Kept(Value())
    {
      hide Kept, Window, Timely;
      ghost var s := Value();
      pending := pending[seqNo := p];
      p.stage := Waiting;
      assert Tickets() == old(Tickets())[p.number := p.Value()];
      assert Value().pending == s.pending[seqNo := p.number];
      if Kept(s) && Window(s) {
        RegisterKeeps(s, p.number);
      }
    }

    /** The frame of the request goes out; false is the ValueError of an oversized payload. */
    method Send(sendType: int, seqNo: byte, payload: bytes) returns (sent: bool)
      modifies this`output
      ensures var w := EncodeFrame(Crc16.Checksum, sendType, seqNo, payload);
              sent == w.Some? && output == if sent then old(output) + w.value else old(output)
    {
      var w := EncodeFrame(Crc16.Checksum, sendType, seqNo, payload);
      sent := w.Some?;
      if sent {
        output := output + w.value;
      }
    }

    /** The reader's locked look at the map. */
    method LookUp(frame: Frame, ghost origin: nat) returns (p: Pending?)
      requires Valid() && Enabled(Value(), Look(Arrival(frame, origin)))
      modifies this`reader
      ensures Valid() && Value() == Apply(old(Value()), Look(Arrival(frame, origin)))
      ensures if p == null then reader == Idle else p in issued && reader == Found(p.number, Arrival(frame, origin))
      ensures Kept(old(Value())) ==> Kept(Value())
      ensures Kept(old(Value())) && Window(old(Value())) && Timely(old(Value()), Arrival(frame, origin)) ==>
                p == null || p.number == origin
    {
      hide Kept, Window, Timely;
      ghost var s := Value();
      p := null;
      if frame.seqNo in pending && pending[frame.seqNo].expectedType == frame.frameType {
        p := pending[frame.seqNo];
        reader := Found(p.number, Arrival(frame, origin));
      }
      if Kept(s) {
        LookKeeps(s, Arrival(frame, origin));
      }
      if Kept(s) && Window(s) && Timely(s, Arrival(frame, origin)) {
        FoundIsOwn(s, Arrival(frame, origin));
      }
    }

    /** The reader's write to the request it found, which may be over by now. */
    method Give(p: Pending, frame: Frame, ghost origin: nat)
      requires Valid() && p in issued && reader == Found(p.number, Arrival(frame, origin))
      modifies this`reader, p`frame, p`origin
      ensures Valid() && Enabled(old(Value()), Deliver) && Value() == Apply(old(Value()), Deliver)
      ensures Kept(old(Value())) ==> Kept(Value())
    {
      hide Kept, Window, Timely;
      ghost var s := Value();
      p.frame := Some(frame);
      p.origin := origin;
      reader := Idle;
      assert Tickets() == old(Tickets())[p.number := p.Value()];
      if Kept(s) {
        DeliverKeeps(s);
      }
    }

    /** The caller has stopped waiting: None is the GlassesTimeoutError. */
    method Finish(p: Pending) returns (answer: Option<Frame>)
      requires Valid() && p in issued && p.stage == Waiting
      modifies p`stage
      ensures Valid() && Enabled(old(Value()), Conclude(p.number)) && Value() == Apply(old(Value()), Conclude(p.number))
      ensures var x := p.Value().answer; answer == (if x.None? then None else Some(x.value.frame)) && p.stage == Over(x)
      ensures Kept(old(Value())) ==> Kept(Value())
      ensures Kept(old(Value())) && answer.Some? ==>
                answer.value.seqNo == p.seqNo && answer.value.frameType == p.expectedType
    {
      hide Kept, Window, Timely;
      ghost var s := Value();
      answer := p.frame;
      p.stage := Over(p.Value().answer);
      assert Tickets() == old(Tickets())[p.number := p.Value()];
      if Kept(s) {
        AnswerFits(s, p.number);
        EndKeeps(s, p.number, s.tickets[p.number].answer);
      }
    }

    /** Writing failed, so the caller never waits. */
    method GiveUp(p: Pending)
      requires Valid() && p in issued && p.stage == Waiting
      modifies p`stage
      ensures Valid() && Enabled(old(Value()), Fail(p.number)) && Value() == Apply(old(Value()), Fail(p.number))
      ensures p.stage == Over(None)
      ensures Kept(old(Value())) ==> Kept(Value())
    {
      hide Kept, Window, Timely;
      ghost var s := Value();
      p.stage := Over(None);
      assert Tickets() == old(Tickets())[p.number := p.Value()];
      if Kept(s) {
        EndKeeps(s, p.number, None);
      }
    }

    /** The `finally` of _transact. */
    method Leave(seqNo: byte, p: Pending)
      requires Valid() && p in issued && p.seqNo == seqNo && p.stage.Over?
      modifies this`pending, p`stage
      ensures Valid() && Enabled(old(Value()), Pop(p.number)) && Value() == Apply(old(Value()), Pop(p.number))
      ensures pending == old(pending) - {seqNo}
      ensures Kept(old(Value())) ==> Kept(Value()) && seqNo in old(pending) && old(pending)[seqNo] == p
    {
      hide Kept, Window, Timely;
      ghost var s := Value();
      pending := pending - {seqNo};
      p.stage := Closed(p.stage.result);
      assert Tickets() == old(Tickets())[p.number := p.Value()];
      if Kept(s) {
        PopKeeps(s, p.number);
      }
    }

    /** The frame is an answer that this request, which is in the map, is waiting for. */
    ghost predicate WaitsFor(p: Pending, frame: Frame)
      reads p
    {
      && (p.stage.Waiting? || p.stage.Over?) && p.seqNo == frame.seqNo && p.expectedType == frame.frameType
      && (frame.frameType == 0x02 || frame.frameType == 0x11)
    }

    /** The branch of HandleFrame for answers. */
    method HandleAnswer(frame: Frame, ghost origin: nat)
      requires Valid() && reader == Idle && (frame.frameType == HELLO_ACK || frame.frameType == RSP)
      modifies this`reader, issued
      ensures Valid() && reader == Idle && issued == old(issued)
      ensures Value() == Handle(old(Value()), Arrival(frame, origin))
    {
      var p := LookUp(frame, origin);
      if p != null {
        Give(p, frame, origin);
      }
    }

    /** What the reader does with one frame, when no caller comes in between. */
    method HandleFrame(frame: Frame, ghost origin: nat)
      requires Valid() && reader == Idle
      modifies this`reader, this`events, issued
      ensures Valid() && reader == Idle && issued == old(issued)
      ensures Value() == Handle(old(Value()), Arrival(frame, origin))
      ensures Kept(old(Value())) ==> Kept(Value())
      ensures Kept(old(Value())) ==>
                forall i :: 0 <= i < |issued| ==>
                  issued[i].frame == if old(WaitsFor(issued[i], frame)) then Some(frame) else old(issued[i].frame)
      ensures events == old(events) + if frame.frameType == 0x20 && frame.payload != [] then [frame.payload] else []
    {
      hide Kept, Window, Timely, Apply;
      ghost var s := Value();
      if frame.frameType == HELLO_ACK || frame.frameType == RSP {
        HandleAnswer(frame, origin);
      } else if frame.frameType == EVT && |frame.payload| > 0 {
        events := events + [frame.payload];
      }
      assert old(events) + [] == old(events);
      if Kept(s) {
        hide Handle;
        HandleKeeps(s, Arrival(frame, origin));
        HandleGives(s, Arrival(frame, origin));
        forall i | 0 <= i < |issued|
          ensures issued[i].frame == if old(WaitsFor(issued[i], frame)) then Some(frame) else old(issued[i].frame)
        {
          assert issued[i].Value() == Value().tickets[i] && old(issued[i].Value()) == s.tickets[i];
        }
      }
    }

    /** One read: the frames of the stream are handled in order; the i-th of them answers request
        origins(i). */
    method Poll(data: bytes, ghost origins: nat -> nat)
      requires Valid() && reader == Idle
      modifies this`reader, this`events, issued, parser
      ensures Valid() && reader == Idle && issued == old(issued)
      ensures var o := Scan(Decide(parser.sum), old(parser.buf) + data);
              && parser.buf == o.rest
              && Value() == HandleAll(old(Value()), Arrivals(o.packets, origins))
              && events == old(events) + EventsIn(o.packets)
      ensures Kept(old(Value())) ==> Kept(Value())
      ensures var xs := Arrivals(Scan(Decide(parser.sum), old(parser.buf) + data).packets, origins);
              && (Kept(old(Value())) ==> Given(old(Value()), xs, Value()))
              && (Kept(old(Value())) && Window(old(Value())) && AllTimely(old(Value()), xs) ==>
                    OwnGiven(old(Value()), xs, Value()))
    {
      hide Handle, Kept, Window, AllTimely, Given, OwnGiven, Decide, DecideFrom, Scan;
      ghost var s, was := Value(), events;
      var frames := parser.Feed(data);
      ghost var xs := Arrivals(frames, origins);
      for i := 0 to |frames|
        invariant Valid() && reader == Idle && issued == old(issued)
        invariant Value() == HandleAll(old(Value()), xs[..i])
        invariant events == was + EventsIn(frames[..i])
        modifies this`reader, this`events, issued
      {
        OneFrameMore(s, frames, origins, i, was);
        HandleFrame(frames[i], origins(i));
      }
      assert xs[..|frames|] == xs && frames[..|frames|] == frames;
      if Kept(s) {
        HandleAllKeeps(s, xs);
        HandleAllGives(s, xs);
        if Window(s) && AllTimely(s, xs) {
          ReadGivesOwn(s, xs);
        }
      }
    }
  }

  ghost function Arrivals(frames: seq<Frame>, origins: nat -> nat): seq<Arrival> {
    seq(|frames|, i requires 0 <= i < |frames| => Arrival(frames[i], origins(i)))
  }

  /** An event frame goes to the listeners, unless it is empty: then parse_event raises. */
  function EventsOf(frame: Frame): seq<bytes> {
    if frame.frameType == EVT && |frame.payload| > 0 then [frame.payload] else []
  }

  function EventsIn(frames: seq<Frame>): seq<bytes>
    decreases |frames|
  {
    if frames == [] then [] else EventsIn(frames[..|frames| - 1]) + EventsOf(frames[|frames| - 1])
  }

  predicate IsEvent(frame: Frame) {
    frame.frameType == 0x20 && frame.payload != []
  }

  function EventCount(frames: seq<Frame>): (n: nat)
    ensures n <= |frames|
    decreases |frames|
  {
    if frames == [] then 0
    else EventCount(frames[..|frames| - 1]) + if IsEvent(frames[|frames| - 1]) then 1 else 0
  }

  /** The payload of frame k stands in the list after those of the events before it. */
  predicate EventAt(frames: seq<Frame>, k: nat)
    requires k < |frames|
  {
    var i := EventCount(frames[..k]);
    i < |EventsIn(frames)| && EventsIn(frames)[i] == frames[k].payload
  }

  lemma EventStays(before: seq<Frame>, f: Frame, k: nat)
    requires k < |before| && EventAt(before, k)
    ensures EventAt(before + [f], k)
  {
    var all := before + [f];
    assert all[..|all| - 1] == before && all[..k] == before[..k];
  }

  lemma EventAdded(before: seq<Frame>, f: Frame)
    requires |EventsIn(before)| == EventCount(before)
    ensures |EventsIn(before + [f])| == EventCount(before + [f])
    ensures IsEvent(f) ==> EventAt(before + [f], |before|)
  {
    var all := before + [f];
    assert all[..|all| - 1] == before;
  }

  /** The listeners get the payloads of the event frames that are not empty, all of them and in order. */
  lemma {:induction false} EventsInOrder(frames: seq<Frame>)
    ensures |EventsIn(frames)| == EventCount(frames)
    ensures forall k :: 0 <= k < |frames| && IsEvent(frames[k]) ==> EventAt(frames, k)
    decreases |frames|
  {
    if frames != [] {
      hide EventsIn, EventCount, EventAt;
      var n := |frames| - 1;
      var before, f := frames[..n], frames[n];
      assert frames == before + [f];
      EventsInOrder(before);
      EventAdded(before, f);
      forall k | 0 <= k < |frames| && IsEvent(frames[k]) ensures EventAt(frames, k) {
        if k < n {
          EventStays(before, f, k);
        }
      }
    }
  }

  lemma OneFrameMore(s: State, frames: seq<Frame>, origins: nat -> nat, i: nat, was: seq<bytes>)
    requires i < |frames|
    ensures var xs := Arrivals(frames, origins);
            HandleAll(s, xs[..i + 1]) == Handle(HandleAll(s, xs[..i]), Arrival(frames[i], origins(i)))
    ensures was + EventsIn(frames[..i + 1]) == was + EventsIn(frames[..i]) + EventsOf(frames[i])
  {
    var xs := Arrivals(frames, origins);
    assert xs[..i + 1][..i] == xs[..i] && frames[..i + 1][..i] == frames[..i];
    Associative(was, EventsIn(frames[..i]), EventsOf(frames[i]));
  }
}
