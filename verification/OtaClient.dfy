/**
 OTAClient of ota_client.py.  The device and the time are a script: `inbox` holds what each read of
 the transport gives ([] when nothing came), `clock` whether each deadline still lies ahead when it
 is looked at.  Nothing is assumed of what either says.  A run is observed up to the end of the
 clock, however long that is; what the code does after it is not said.
 */
module OtaClients {
  import opened Bytes
  import opened Scanner
  import opened OtaFirmware
  import opened OtaPackets
  import opened OtaBursts
  import opened OtaProtocol
  import opened OtaLines
  import opened OtaScripts
  import opened OtaDevices

  // ---- the client

  datatype Reply<+T> = Answered(value: T) | NoAnswer | Short | Unobserved

  /** What came, parsed: None of the parser is the ValueError of a short reply. */
  function Parsed<T>(x: Waited, parse: bytes -> Option<T>): Reply<T> {
    match x
    case TimedOut => NoAnswer
    case CutOff => Unobserved
    case Came(payload) => if parse(payload).None? then Short else Answered(parse(payload).value)
  }

  /** One look at the clock before a deadline; Unseen if the script says no more. */
  datatype Tick = InTime | Late | Unseen

  class OtaClient {
    const crc: Crc
    const limit: Limit
    const parser: OtaPacketParser
    var sn: word
    var inbox: seq<bytes>
    var clock: seq<bool>
    var output: bytes
    ghost var log: seq<Event>

    ghost predicate Valid()
      reads this`output, this`log
    {
      output == Concat(WiresOf(SentIn(log)))
    }

    function Line(): Link
      reads this, parser
    {
      Link(parser.buf, inbox, clock)
    }

    constructor (crc: Crc, limit: Limit, inbox: seq<bytes>, clock: seq<bool>)
      ensures Valid() && fresh(parser) && parser.buf == []
      ensures this.crc == crc && this.limit == limit && this.inbox == inbox && this.clock == clock
      ensures sn == 0 && output == [] && log == []
    {
      this.crc, this.limit, this.inbox, this.clock := crc, limit, inbox, clock;
      parser := new OtaPacketParser();
      sn, output, log := 0, [], [];
    }

    method NextSn() returns (next: word)
      modifies this`sn
      ensures next == sn == NextSerial(old(sn))
    {
      sn := (sn + 1) % TWO_16;
      if sn == 0 {
        sn := 1;
      }
      next := sn;
    }

    method Write(p: Packet)
      requires Valid()
      modifies this`output, this`log
      ensures Valid() && log == old(log) + [Sent(p)]
    {
      output := output + Wire(p);
      log := log + [Sent(p)];
      assert log[..|log| - 1] == old(log);
      WiresMore(SentIn(old(log)), p);
    }

    method Ticking() returns (tick: Tick)
      modifies this`clock
      ensures tick == if old(clock) == [] then Unseen else if old(clock)[0] then InTime else Late
      ensures clock == if old(clock) == [] then [] else old(clock)[1..]
    {
      if clock == [] {
        return Unseen;
      }
      tick := if clock[0] then InTime else Late;
      clock := clock[1..];
    }

    method ReadLine() returns (data: bytes)
      modifies this`inbox
      ensures data == Read(old(inbox)) && inbox == Unread(old(inbox))
    {
      data := Read(inbox);
      inbox := Unread(inbox);
    }

    /** The waiting loops of _request and _read_response; TimedOut is the OTATimeoutError. */
    method WaitFor(w: Want) returns (x: Waited)
      modifies this`inbox, this`clock, this`log, parser
      requires Valid()
      ensures Valid() && log + Missing(w.opcode, x) == old(log) + [Answer(w.opcode, Taken(x))]
      ensures (x, Line()) == Await(w, old(Line()))
      ensures |clock| <= |old(clock)| && (x.Came? ==> |clock| < |old(clock)|) && (x.CutOff? ==> clock == [])
      ensures x.Came? ==> Expected(w, x.payload)
    {
      AwaitMatches(w, Line());
      x := TimedOut;
      var more := true;
      while more
        invariant if more then Await(w, Line()) == Await(w, old(Line())) else (x, Line()) == Await(w, old(Line()))
        decreases more, |clock|
        modifies this`inbox, this`clock, parser
      {
        var tick := Ticking();
        if tick != InTime {
          x := if tick == Late then TimedOut else CutOff;
          more := false;
        } else {
          var data := ReadLine();
          if data != [] {
            var packets := parser.Feed(data);
            var reply := FindReply(w, packets);
            if reply.Some? {
              x := Came(reply.value);
              more := false;
            }
          }
        }
      }
      if !x.CutOff? {
        log := log + [Answer(w.opcode, Taken(x))];
        assert log[..|log| - 1] == old(log);
      }
      assert log + [] == log;
    }

    /** The scan of one batch; what comes after the reply in it is dropped. */
    static method FindReply(w: Want, packets: seq<OtaPacket>) returns (reply: Option<bytes>)
      ensures reply == FirstMatch(w, packets)
    {
      for i := 0 to |packets|
        invariant FirstMatch(w, packets) == FirstMatch(w, packets[i..])
      {
        var p := packets[i];
        assert packets[i..][1..] == packets[i + 1..];
        if p.opcode != w.opcode {
          continue;
        }
        if w.serials.Some? {
          if |p.payload| < 2 {
            continue;
          }
          var serial := U16(p.payload, 0);
          if !(w.serials.value.0 <= serial <= w.serials.value.1) {
            continue;
          }
        }
        return Some(p.payload);
      }
      return None;
    }

    /** A request under the next serial number; only a reply with that number is taken. */
    method Request(opcode: byte, body: RequestBody) returns (x: Waited, ghost step: Step)
      requires Valid()
      modifies this, parser
      ensures Valid() && step == Ask(opcode, NextSerial(old(sn)), body, Taken(x)) && sn == step.sn
      ensures log + Missing(opcode, x) == old(log) + StepEvents(crc, limit, step)
      ensures |clock| <= |old(clock)| && (x.Came? ==> |clock| < |old(clock)|) && (x.CutOff? ==> clock == [])
      ensures x.Came? ==> |x.payload| >= 2 && U16(x.payload, 0) == step.sn
      ensures (x, Line()) == Await(Want(opcode, Some((step.sn, step.sn))), old(Line()))
    {
      var s := NextSn();
      Write(AskPacket(opcode, s, body));
      x := WaitFor(Want(opcode, Some((s, s))));
      step := Ask(opcode, s, body, Taken(x));
      Associative(old(log), [Sent(AskPacket(opcode, s, body))], [Answer(opcode, Taken(x))]);
    }

    /** False is the ValueError of a chunk over the limit. */
    method WriteSendDataPacket(x: Chunk) returns (written: bool)
      requires Valid()
      modifies this`output, this`log
      ensures Valid() && written == (|x.data| <= limit)
      ensures log == if written then old(log) + [Sent(SendData(crc, x))] else old(log)
    {
      if |x.data| > limit {
        return false;
      }
      Write(SendData(crc, x));
      return true;
    }

    /** One turn of the loop in SendDataBlock; the first chunk has its serial number already. */
    method SendChunk(offset: int, data: bytes, pos: nat,
                     ghost start: word, ghost xs: seq<Chunk>, ghost before: word, ghost base: seq<Event>)
      returns (x: Chunk)
      requires Valid() && log == base + Sends(crc, xs)
      requires pos < |data| && Written(limit, start, offset, data, pos, xs, before)
      requires sn == (if pos == 0 then NextSerial(before) else before)
      modifies this`sn, this`output, this`log
      ensures Valid() && log == base + Sends(crc, xs + [x]) && sn == x.sn
      ensures 0 < |x.data| && pos + |x.data| <= |data|
      ensures Written(limit, start, offset, data, pos + |x.data|, xs + [x], x.sn)
    {
      var chunk := data[pos..if |data| - pos < limit then |data| else pos + limit];
      var s := sn;
      if pos != 0 {
        s := NextSn();
      }
      assert |chunk| <= limit <= MAX_CHUNK;
      x := Chunk(s, offset + pos, chunk);
      BurstStep(limit, start, offset, data, pos, xs, before, x);
      SendsMore(crc, base, xs, x);
      var written := WriteSendDataPacket(x);
      assert written;
    }

    /** The loop of send_data_block: exactly the chunks of the block go out, under consecutive serial
        numbers. */
    method WriteBurst(offset: int, data: bytes) returns (firstSn: word, lastSn: word)
      requires Valid() && data != [] && 0 <= offset && offset + |data| <= TWO_32
      modifies this`sn, this`output, this`log
      ensures Valid() && log == old(log) + Sends(crc, Burst(limit, old(sn), offset, data))
      ensures firstSn == Issue(old(sn), 1) && lastSn == sn == Issue(old(sn), |Burst(limit, old(sn), offset, data)|)
    {
      hide SentIn, WiresOf, Concat, Burst, Written, Sends;
      var pos := 0;
      firstSn := NextSn();
      lastSn := firstSn;
      ghost var xs: seq<Chunk>, before := [], old(sn);
      BurstStart(limit, before, offset, data);
      SendsNothing(crc, log);
      while pos < |data|
        invariant pos <= |data| && Written(limit, old(sn), offset, data, pos, xs, before)
        invariant sn == lastSn && lastSn == (if pos == 0 then NextSerial(before) else before)
        invariant Valid() && log == old(log) + Sends(crc, xs)
        decreases |data| - pos
      {
        var x := SendChunk(offset, data, pos, old(sn), xs, before, old(log));
        lastSn := x.sn;
        xs, before := xs + [x], x.sn;
        pos := pos + |x.data|;
      }
      BurstEnd(limit, old(sn), offset, data, pos, xs, before);
    }

    /** The burst of one block and its reply: only one with a serial number in the range of the burst
        is taken. */
    method SendDataBlock(offset: int, data: bytes) returns (x: Waited, ghost step: Step)
      requires Valid() && data != [] && 0 <= offset && offset + |data| <= TWO_32
      modifies this, parser
      ensures Valid() && step == Attempt(old(sn), offset, data, Taken(x))
      ensures sn == Issue(old(sn), |ChunksOf(limit, step)|)
      ensures log + Missing(OP_SEND_DATA, x) == old(log) + StepEvents(crc, limit, step)
      ensures |clock| <= |old(clock)| && (x.Came? ==> |clock| < |old(clock)|) && (x.CutOff? ==> clock == [])
      ensures x.Came? ==> |x.payload| >= 2 && InRange(old(sn), |ChunksOf(limit, step)|, U16(x.payload, 0))
      ensures var n := |ChunksOf(limit, step)|;
              (x, Line()) == Await(Want(OP_SEND_DATA, Some((Issue(old(sn), 1), Issue(old(sn), n)))), old(Line()))
    {
      var firstSn, lastSn := WriteBurst(offset, data);
      x := WaitFor(Want(OP_SEND_DATA, Some((firstSn, lastSn))));
      step := Attempt(old(sn), offset, data, Taken(x));
      Associative(old(log), Sends(crc, ChunksOf(limit, step)), [Answer(OP_SEND_DATA, Taken(x))]);
    }

    // ---- the upgrade

    /** The steps of `at` are what this client has done, and they have led to this phase. */
    ghost predicate Stood(at: Position, phase: Phase)
      reads this`output, this`log, this`sn
    {
      && Valid() && at.c.limit == limit && log == at.base + Events(crc, limit, at.steps)
      && Play(at.c, at.start, at.steps) == Run(sn, phase)
    }

    /** And they are what the script has it do, with this much of the script left. */
    ghost predicate StandingAt(at: Position, phase: Phase, l: Link)
      reads this`output, this`log, this`sn
    {
      Stood(at, phase) && Scripted(at, Run(sn, phase), l)
    }

    ghost predicate Standing(at: Position, phase: Phase)
      reads this, parser
    {
      StandingAt(at, phase, Line())
    }

    /** The script has ended within the last step of `at`, before its answer. */
    ghost predicate Interrupted(at: Position)
      reads this
    {
      && Valid() && at.c.limit == limit && clock == [] && Legal(at.c, at.start, at.steps) && at.steps != []
      && log + [Expired(OpcodeOf(at.steps[|at.steps| - 1]))] == at.base + Events(crc, limit, at.steps)
      && ScriptTells(at, Running)
    }

    /** The upgrade is seen to end like this, after the steps of `at`; and this is what the script
        makes of it. */
    ghost predicate Led(at: Position, ending: Ending)
      reads this
    {
      && ScriptTells(at, ending)
      && if ending.Running? then
           Interrupted(at) || (clock == [] && exists phase :: Stood(at, phase) && !phase.Wrong?)
         else
           exists phase :: Stood(at, phase) && Ends(at.c, phase, ending)
    }

    lemma NowLed(at: Position, phase: Phase, l: Link, ending: Ending)
      requires StandingAt(at, phase, l) && Settles(at.c, phase, l, ending)
      requires Ends(at.c, phase, ending) || (ending.Running? && clock == [] && !phase.Wrong?)
      ensures Led(at, ending) && Valid()
    {
      SettledTells(at, Run(sn, phase), l, ending);
    }

    lemma StandsAtFirst(at: Position)
      requires Valid() && at.c.limit == limit && at == Position(at.c, sn, log, [], Line()) && Usable(at.c.image)
      ensures Standing(at, Opening)
    {
      BeginStanding(crc, at);
    }

    lemma StandingIsValid(at: Position, phase: Phase)
      requires Standing(at, phase)
      ensures Valid()
    {
    }

    lemma AbortLed(at: Position, error: OtaError)
      requires Standing(at, Aborted(error)) && !error.InvalidBlock? && !error.EmptyBlock? && !error.PollTimeout?
      ensures Led(at, Raised(error)) && Valid()
    {
      hide Led, StandingAt, Simulate, Valid;
      NowLed(at, Aborted(error), Line(), Raised(error));
    }

    /** The polls of this phase end with this look at the clock. */
    lemma PollEnds(at: Position, phase: Phase, l: Link, tick: Tick)
      requires StandingAt(at, phase, l) && LooksFirst(phase) && tick != InTime && Looked(l, tick, Line())
      ensures Led(at, if tick == Late then Raised(PollTimeout) else Running) && Valid()
    {
      hide Led, StandingAt, Simulate, Valid;
      NowLed(at, phase, l, if tick == Late then Raised(PollTimeout) else Running);
    }

    lemma InterruptedLed(at: Position)
      requires Interrupted(at)
      ensures Led(at, Running) && Valid() && clock == []
    {
    }

    /** The request that is due: get_info, can_update, enter_update, verify_data or update_result. */
    method TakeRequest(opcode: byte, body: RequestBody, ghost at: Position, ghost phase: Phase, ghost l: Link)
      returns (x: Waited, ghost next: Position)
      requires StandingAt(at, phase, l) && Due(at.c, phase) == Some((opcode, body))
      requires Line() == AfterLook(phase, l) && (LooksFirst(phase) ==> l.clock != [] && l.clock[0])
      modifies this, parser
      ensures next.Extends(at) && Valid()
      ensures match x
              case CutOff => Interrupted(next)
              case TimedOut => Standing(next, Aborted(Timeout))
              case Came(payload) => Standing(next, AfterReply(phase, payload))
      ensures |clock| <= |old(clock)| && (x.Came? ==> |clock| < |old(clock)|)
    {
      hide SentIn, WiresOf, Concat, Due, AfterReply, StepEvents, Simulate, Await, Scripted, ScriptTells;
      ghost var step;
      ghost var r := Run(sn, phase);
      ScriptedIsSound(at, r, l);
      RequestIsNext(at.c, r, opcode, body);
      x, step := Request(opcode, body);
      next := at.(steps := at.steps + [step]);
      assert step == StepOf(at.c, r, Taken(x));
      ScriptedOn(at, r, l, x, Line());
      TakeStep(crc, at, step);
      LogMore(crc, at, old(log), log, step, Missing(opcode, x));
      assert log + [] == log;
      assert OpcodeOf(step) == opcode;
    }

    /** The retry loop of one block. */
    method PushBlock(image: FirmwareImage, retries: int, offset: dword, length: dword, ghost at: Position)
      returns (stopped: Option<Ending>, block: (dword, dword), ghost next: Position)
      requires Standing(at, Sending(offset, length, 0)) && at.c == Config(image, limit, retries)
      requires 1 <= retries && 0 < length && offset + length <= |image.data| < TWO_32
      modifies this, parser
      ensures Valid() && next.Extends(at) && (stopped == Some(Running) ==> clock == [])
      ensures if stopped.Some? then Led(next, stopped.value) && (stopped.value.Raised? || stopped.value.Running?)
              else Standing(next, Requested(block.0, block.1))
      ensures |clock| <= |old(clock)| && (stopped.None? ==> |clock| < |old(clock)|)
    {
      hide Play, Events, SentIn, StepEvents, WiresOf, Concat, Burst, InRange, Issue, ChunksOf, Led,
           StandingAt, Interrupted;
      var chunk := image.data[offset..offset + length];
      var lastError := Timeout;
      next, block := at, (0, 0);
      for i := 0 to retries
        invariant next.Extends(at)
        invariant Standing(next, if i < retries then Sending(offset, length, i) else Aborted(lastError))
        invariant lastError.Timeout? || lastError.BlockRejected?
        invariant |clock| <= |old(clock)|
      {
        var x;
        x, next := TakeAttempt(offset, chunk, next, Sending(offset, length, i));
        var reply := Parsed(x, ParseBlock);
        match reply
        case Unobserved =>
          InterruptedLed(next);
          return Some(Running), block, next;
        case Short =>
          AbortLed(next, ShortReply);
          return Some(Raised(ShortReply)), block, next;
        case NoAnswer =>
          lastError := Timeout;
        case Answered(r) =>
          if r.result == RESULT_OK {
            return None, (r.offset, r.length), next;
          }
          lastError := BlockRejected(r.result);
      }
      AbortLed(next, lastError);
      stopped := Some(Raised(lastError));
    }

    /** One attempt on the block that is due. */
    method TakeAttempt(offset: dword, chunk: bytes, ghost at: Position, ghost phase: Phase)
      returns (x: Waited, ghost next: Position)
      requires Standing(at, phase) && phase.Sending? && phase.offset == offset && phase.failures < at.c.retries
      requires 0 < |chunk| == phase.length && offset + |chunk| <= |at.c.image.data| < TWO_32
      requires chunk == at.c.image.data[offset..offset + |chunk|]
      modifies this, parser
      ensures next.Extends(at) && Valid()
      ensures if x.CutOff? then Interrupted(next) else Standing(next, AfterAttempt(at.c, phase, Taken(x)))
      ensures |clock| <= |old(clock)| && (x.Came? ==> |clock| < |old(clock)|)
    {
      hide SentIn, WiresOf, Concat, StepEvents, ChunksOf, InRange, Issue, Simulate, Await, Scripted, ScriptTells;
      ghost var step;
      ghost var r := Run(sn, phase);
      ScriptedIsSound(at, r, Line());
      AttemptIsNext(at.c, r, offset, chunk);
      x, step := SendDataBlock(offset, chunk);
      next := at.(steps := at.steps + [step]);
      assert step == StepOf(at.c, r, Taken(x));
      ScriptedOn(at, r, old(Line()), x, Line());
      TakeStep(crc, at, step);
      LogMore(crc, at, old(log), log, step, Missing(OP_SEND_DATA, x));
      assert log + [] == log;
      assert OpcodeOf(step) == OP_SEND_DATA;
    }

    /** Block after block, until the device asks for none. */
    method Transfer(image: FirmwareImage, retries: int, first: (dword, dword), ghost at: Position)
      returns (stopped: Option<Ending>, ghost next: Position)
      requires Standing(at, Requested(first.0, first.1)) && at.c == Config(image, limit, retries) && Usable(image)
      modifies this, parser
      ensures Valid() && next.Extends(at) && (stopped == Some(Running) ==> clock == [])
      ensures if stopped.None? then Standing(next, Verifying)
              else Led(next, stopped.value) && !stopped.value.NotAnImage?
      ensures stopped == Some(Spins) ==> retries < 1
      ensures |clock| <= |old(clock)|
    {
      hide Play, Events, SentIn, StepEvents, WiresOf, Next, Concat, Led, StandingAt, Interrupted;
      var block := first;
      next := at;
      StandingIsValid(at, Requested(first.0, first.1));
      while block.0 != 0 || block.1 != 0
        invariant Valid() && next.Extends(at) && Standing(next, Requested(block.0, block.1))
        invariant |clock| <= |old(clock)|
        decreases |clock|
      {
        var offset: dword, length: dword := block.0, block.1;
        ghost var phase := Sending(offset, length, 0);
        if offset + length > image.fileLen {
          NowLed(next, phase, Line(), Raised(InvalidBlock(offset, length)));
          return Some(Raised(InvalidBlock(offset, length))), next;
        }
        if retries <= 0 {
          NowLed(next, phase, Line(), Spins);
          return Some(Spins), next;  // no attempt, no error and no other block: the loop goes round forever
        }
        if length == 0 {
          NowLed(next, phase, Line(), Raised(EmptyBlock));
          return Some(Raised(EmptyBlock)), next;
        }
        stopped, block, next := PushBlock(image, retries, offset, length, next);
        if stopped.Some? {
          return;
        }
      }
      return None, next;
    }

    method PollVerify(ghost at: Position) returns (stopped: Option<Ending>, ghost next: Position)
      requires Standing(at, Verifying)
      modifies this, parser
      ensures Valid() && next.Extends(at) && (stopped == Some(Running) ==> clock == [])
      ensures if stopped.None? then Standing(next, Finishing)
              else Led(next, stopped.value) && (stopped.value.Raised? || stopped.value.Running?)
      ensures |clock| <= |old(clock)| && (stopped.None? ==> |clock| < |old(clock)|)
    {
      hide Play, Events, SentIn, StepEvents, WiresOf, Next, Concat, Led, StandingAt, Interrupted, Settles,
           Ends, Stops, ParseAsync, ParseUpdateResult, Simulate, Await;
      next := at;
      ghost var left := Line();
      var tick := Ticking();
      while tick == InTime
        invariant next.Extends(at) && StandingAt(next, Verifying, left) && Looked(left, tick, Line())
        invariant |clock| <= |old(clock)| && (tick == InTime ==> |clock| < |old(clock)|)
        invariant tick == Unseen ==> clock == []
        decreases |clock|, tick == InTime
      {
        var x;
        x, next := TakeRequest(OP_VERIFY_DATA, [], next, Verifying, left);
        var r := Parsed(x, ParseAsync);
        match r
        case Unobserved =>
          InterruptedLed(next);
          return Some(Running), next;
        case NoAnswer =>
          AbortLed(next, Timeout);
          return Some(Raised(Timeout)), next;
        case Short =>
          AbortLed(next, ShortReply);
          return Some(Raised(ShortReply)), next;
        case Answered(value) =>
          if value.result == ASYNC_OK {
            return None, next;
          }
          if value.result == ASYNC_FAIL {
            AbortLed(next, Refused(ASYNC_FAIL));
            return Some(Raised(Refused(ASYNC_FAIL))), next;
          }
        left := Line();
        tick := Ticking();
      }
      PollEnds(next, Verifying, left, tick);
      stopped := Some(if tick == Late then Raised(PollTimeout) else Running);
    }

    method PollUpdateResult(ghost at: Position)
      returns (stopped: Option<Ending>, result: UpdateResultResponse, ghost next: Position)
      requires Standing(at, Finishing)
      modifies this, parser
      ensures Valid() && next.Extends(at) && (stopped == Some(Running) ==> clock == [])
      ensures if stopped.None? then Standing(next, if result.offset == 0 && result.length == 0 then Complete(result)
                                                   else Sending(result.offset, result.length, 0))
              else Led(next, stopped.value) && (stopped.value.Raised? || stopped.value.Running?)
      ensures |clock| <= |old(clock)|
    {
      hide Play, Events, SentIn, StepEvents, WiresOf, Next, Concat, Led, StandingAt, Interrupted, Settles,
           Ends, Stops, ParseAsync, ParseUpdateResult, Simulate, Await;
      next, result := at, UpdateResultResponse(0, 0, 0, 0, 0);
      ghost var left := Line();
      var tick := Ticking();
      while tick == InTime
        invariant next.Extends(at) && StandingAt(next, Finishing, left) && Looked(left, tick, Line())
        invariant |clock| <= |old(clock)|
        invariant tick == Unseen ==> clock == []
        decreases |clock|, tick == InTime
      {
        var x;
        x, next := TakeRequest(OP_UPDATE_RESULT, [], next, Finishing, left);
        var r := Parsed(x, ParseUpdateResult);
        match r
        case Unobserved =>
          InterruptedLed(next);
          return Some(Running), result, next;
        case NoAnswer =>
          AbortLed(next, Timeout);
          return Some(Raised(Timeout)), result, next;
        case Short =>
          AbortLed(next, ShortReply);
          return Some(Raised(ShortReply)), result, next;
        case Answered(value) =>
          if value.result == ASYNC_OK {
            return None, value, next;
          }
          if value.result == ASYNC_FAIL {
            AbortLed(next, Refused(ASYNC_FAIL));
            return Some(Raised(Refused(ASYNC_FAIL))), result, next;
          }
        left := Line();
        tick := Ticking();
      }
      PollEnds(next, Finishing, left, tick);
      stopped := Some(if tick == Late then Raised(PollTimeout) else Running);
    }

    /** What ends the run when a request is not answered, or too shortly. */
    static function Unanswered<T>(r: Reply<T>): Ending
      requires !r.Answered?
    {
      match r
      case NoAnswer => Raised(Timeout)
      case Short => Raised(ShortReply)
      case Unobserved => Running
    }

    /** The three requests that open the upgrade, and the first block asked for. */
    method Open(image: FirmwareImage, ghost at: Position)
      returns (stopped: Option<Ending>, block: (dword, dword), ghost next: Position)
      requires Standing(at, Opening) && at.c.image == image && |image.headerInfo| <= MAX_HEADER_INFO
      modifies this, parser
      ensures Valid() && next.Extends(at) && (stopped == Some(Running) ==> clock == [])
      ensures if stopped.None? then Standing(next, Requested(block.0, block.1))
              else Led(next, stopped.value) && (stopped.value.Raised? || stopped.value.Running?)
      ensures |clock| <= |old(clock)|
    {
      hide Play, Events, SentIn, StepEvents, WiresOf, Next, Concat, Led, StandingAt, Interrupted;
      block := (0, 0);
      var x;
      x, next := TakeRequest(OP_GET_INFO, [0], at, Opening, Line());
      var info := Parsed(x, ParseDeviceInfo);
      if !info.Answered? {
        UnansweredLeads(next, info);
        return Some(Unanswered(info)), block, next;
      }
      x, next := TakeRequest(OP_CAN_UPDATE, LE16(|image.headerInfo|) + image.headerInfo, next, Informed, Line());
      var can := Parsed(x, ParseCanUpdate);
      if !can.Answered? {
        UnansweredLeads(next, can);
        return Some(Unanswered(can)), block, next;
      }
      if can.value.result != 0 {
        AbortLed(next, Refused(can.value.result));
        return Some(Raised(Refused(can.value.result))), block, next;
      }
      x, next := TakeRequest(OP_ENTER_UPDATE, [], next, Admitted, Line());
      var enter := Parsed(x, ParseBlock);
      if !enter.Answered? {
        UnansweredLeads(next, enter);
        return Some(Unanswered(enter)), block, next;
      }
      if enter.value.result != RESULT_OK {
        AbortLed(next, Refused(enter.value.result));
        return Some(Raised(Refused(enter.value.result))), block, next;
      }
      return None, (enter.value.offset, enter.value.length), next;
    }

    lemma UnansweredLeads<T>(at: Position, r: Reply<T>)
      requires match r
               case NoAnswer => Standing(at, Aborted(Timeout))
               case Short => Standing(at, Aborted(ShortReply))
               case Unobserved => Interrupted(at)
               case Answered(_) => false
      ensures Led(at, Unanswered(r)) && Valid() && (r.Unobserved? ==> clock == [])
    {
      if !r.Unobserved? {
        hide Interrupted;
        AbortLed(at, if r.NoAnswer? then Timeout else ShortReply);
      }
    }

    /** The steps and the ending are those that the script calls for.  Whatever the device does, the run
        is legal as far as it is observed, and where it is seen to end it ends as its last phase calls
        for.  It is still running only where the script ends; EndlessRun shows that it may never end. */
    method Upgrade(data: bytes, retries: int) returns (ending: Ending, ghost at: Position)
      requires Valid()
      modifies this, parser
      ensures Valid()
      ensures ending.NotAnImage? <==> !Acceptable(crc, data)
      ensures ending.NotAnImage? ==> FirstProblem(crc, data, ending.problem) && sn == old(sn) && log == old(log)
      ensures !ending.NotAnImage? ==>
                && at.start == old(sn) && at.base == old(log) && at.from == old(Line())
                && at.c == Config(ImageOf(data), limit, retries) && Usable(at.c.image) && Led(at, ending)
      ensures ending.Running? ==> clock == []
      ensures ending.Spins? ==> retries < 1
    {
      hide Play, Events, SentIn, StepEvents, WiresOf, Next, Concat, Acceptable, FirstProblem, Led, Interrupted,
           StandingAt, ImageOf, Simulate;
      var parsed := ParseImage(crc, data);
      at := Position(Config(FirmwareImage(0, 0, 0, [], 0, 0, [], []), limit, retries), sn, log, [], Line());
      if parsed.BadImage? {
        return NotAnImage(parsed.error), at;
      }
      var image := parsed.image;
      at := Position(Config(image, limit, retries), sn, log, [], Line());
      ghost var begin := at;
      StandsAtFirst(at);
      var stopped, block;
      stopped, block, at := Open(image, at);
      if stopped.Some? {
        return stopped.value, at;
      }
      while true
        invariant at.Extends(begin) && Standing(at, Requested(block.0, block.1))
        decreases |clock|
      {
        stopped, at := Transfer(image, retries, block, at);
        if stopped.Some? {
          return stopped.value, at;
        }
        stopped, at := PollVerify(at);
        if stopped.Some? {
          return stopped.value, at;
        }
        var result;
        stopped, result, at := PollUpdateResult(at);
        if stopped.Some? {
          return stopped.value, at;
        }
        if result.offset == 0 && result.length == 0 {
          NowLed(at, Complete(result), Line(), Done(result));
          return Done(result), at;
        }
        block := (result.offset, result.length);
      }
    }
  }

  /** The answer that the script ended too early to show. */
  function Missing(opcode: byte, x: Waited): seq<Event> {
    if x.CutOff? then [Expired(opcode)] else []
  }

  lemma LogMore(crc: Crc, at: Position, before: seq<Event>, after: seq<Event>, step: Step, missing: seq<Event>)
    requires before == at.base + Events(crc, at.c.limit, at.steps)
    requires after + missing == before + StepEvents(crc, at.c.limit, step)
    ensures after + missing == at.base + Events(crc, at.c.limit, at.steps + [step])
  {
    TakeStep(crc, at, step);
  }

  /** Where an upgrade stands: it began at serial number `start`, log `base` and script `from`, and
      took these steps. */
  datatype Position = Position(c: Config, start: word, base: seq<Event>, steps: seq<Step>, from: Link) {
    predicate Extends(at: Position) {
      c == at.c && start == at.start && base == at.base && from == at.from && at.steps <= steps
    }
  }

  /** What the script had the client do from the start on is these steps, and then what the rest of
      it has it do from here on. */
  ghost predicate Scripted(at: Position, r: Run, l: Link) {
    Sound(at.c, r) && Simulate(at.c, Run(at.start, Opening), at.from) == Then(at.steps, Simulate(at.c, r, l))
  }

  /** The steps and the ending are the ones that the script calls for. */
  ghost predicate ScriptTells(at: Position, ending: Ending) {
    Usable(at.c.image) && Simulate(at.c, Run(at.start, Opening), at.from) == Told(at.steps, ending)
  }

  /** What a look at the clock has left of the script. */
  predicate Looked(before: Link, tick: Tick, after: Link) {
    match tick
    case Unseen => before.clock == [] && after == before
    case InTime => before.clock != [] && before.clock[0] && after == before.(clock := before.clock[1..])
    case Late => before.clock != [] && !before.clock[0] && after == before.(clock := before.clock[1..])
  }

  lemma ScriptedIsSound(at: Position, r: Run, l: Link)
    requires Scripted(at, r, l)
    ensures Sound(at.c, r)
  {
  }

  lemma SettledTells(at: Position, r: Run, l: Link, ending: Ending)
    requires Scripted(at, r, l) && Settles(at.c, r.phase, l, ending)
    ensures ScriptTells(at, ending)
  {
    hide Simulate;
    SettledIsTold(at.c, r, l, ending);
    assert at.steps + [] == at.steps;
  }

  lemma ScriptedOn(at: Position, r: Run, l: Link, x: Waited, m: Link)
    requires Scripted(at, r, l) && Goes(at.c, r) && (LooksFirst(r.phase) ==> l.clock != [] && l.clock[0])
    requires (x, m) == Await(WantOf(at.c, r), AfterLook(r.phase, l))
    ensures var step := StepOf(at.c, r, Taken(x));
            var next := at.(steps := at.steps + [step]);
            if x.CutOff? then ScriptTells(next, Running) else Scripted(next, Next(at.c, r, step), m)
  {
    hide Simulate, StepOf, WantOf, Next, Await;
    OneStepTold(at.c, r, l, x, m);
    if !x.CutOff? {
      var step := StepOf(at.c, r, Taken(x));
      Associative(at.steps, [step], Simulate(at.c, Next(at.c, r, step), m).steps);
    }
  }

  lemma RequestIsNext(c: Config, r: Run, opcode: byte, body: RequestBody)
    requires Sound(c, r) && Due(c, r.phase) == Some((opcode, body))
    ensures Goes(c, r) && WantOf(c, r) == Want(opcode, Some((NextSerial(r.sn), NextSerial(r.sn))))
    ensures forall reply :: StepOf(c, r, reply) == Ask(opcode, NextSerial(r.sn), body, reply)
  {
  }

  lemma AttemptIsNext(c: Config, r: Run, offset: dword, data: bytes)
    requires Sound(c, r) && r.phase.Sending? && r.phase.offset == offset && r.phase.failures < c.retries
    requires 0 < |data| == r.phase.length && offset + |data| <= |c.image.data|
    requires data == c.image.data[offset..offset + |data|]
    ensures Goes(c, r) && forall reply :: StepOf(c, r, reply) == Attempt(r.sn, offset, data, reply)
    ensures forall reply ::
              var n := |ChunksOf(c.limit, Attempt(r.sn, offset, data, reply))|;
              WantOf(c, r) == Want(OP_SEND_DATA, Some((Issue(r.sn, 1), Issue(r.sn, n))))
  {
  }

  lemma BeginStanding(crc: Crc, at: Position)
    requires at.steps == [] && Usable(at.c.image)
    ensures Play(at.c, at.start, []) == Run(at.start, Opening) && at.base + Events(crc, at.c.limit, []) == at.base
    ensures Scripted(at, Run(at.start, Opening), at.from)
  {
    var t := Simulate(at.c, Run(at.start, Opening), at.from);
    assert [] + t.steps == t.steps;
  }

  lemma TakeStep(crc: Crc, at: Position, step: Step)
    ensures var next := at.steps + [step];
            && Play(at.c, at.start, next) == Next(at.c, Play(at.c, at.start, at.steps), step)
            && at.base + Events(crc, at.c.limit, next)
               == at.base + Events(crc, at.c.limit, at.steps) + StepEvents(crc, at.c.limit, step)
  {
    assert (at.steps + [step])[..|at.steps|] == at.steps;
    Associative(at.base, Events(crc, at.c.limit, at.steps), StepEvents(crc, at.c.limit, step));
  }

  /** The chunks xs of the burst are written, up to position pos of the data; `before` is the last
      serial number used. */
  ghost predicate Written(limit: Limit, start: word, offset: int, data: bytes, pos: nat, xs: seq<Chunk>, before: word)
    requires pos <= |data|
  {
    && 0 <= offset && offset + |data| <= TWO_32
    && before == Issue(start, |xs|) && (pos == 0 <==> xs == [])
    && xs + Burst(limit, before, offset + pos, data[pos..]) == Burst(limit, start, offset, data)
  }

  lemma BurstStart(limit: Limit, start: word, offset: int, data: bytes)
    requires 0 <= offset && offset + |data| <= TWO_32
    ensures Written(limit, start, offset, data, 0, [], start)
  {
    assert data[0..] == data && [] + Burst(limit, start, offset, data) == Burst(limit, start, offset, data);
  }

  lemma BurstStep(limit: Limit, start: word, offset: int, data: bytes, pos: nat, xs: seq<Chunk>, before: word, x: Chunk)
    requires pos < |data| && Written(limit, start, offset, data, pos, xs, before)
    requires x.data == data[pos..if |data| - pos < limit then |data| else pos + limit]
    requires x.sn == NextSerial(before) && x.offset == offset + pos
    ensures Written(limit, start, offset, data, pos + |x.data|, xs + [x], x.sn)
  {
    var rest, n := data[pos..], |x.data|;
    assert rest[..n] == x.data && rest[n..] == data[pos + n..];
    assert x == Chunk(NextSerial(before), offset + pos, rest[..n]);
    Associative(xs, [x], Burst(limit, x.sn, offset + pos + n, data[pos + n..]));
  }

  lemma BurstEnd(limit: Limit, start: word, offset: int, data: bytes, pos: nat, xs: seq<Chunk>, before: word)
    requires pos == |data| && data != [] && Written(limit, start, offset, data, pos, xs, before)
    ensures xs == Burst(limit, start, offset, data) == ChunksOf(limit, Attempt(start, offset, data, None))
    ensures before == Issue(start, |xs|) && NextSerial(start) == Issue(start, 1)
  {
    assert data[pos..] == [] && xs + [] == xs;
  }

  lemma SendsNothing(crc: Crc, log: seq<Event>)
    ensures log + Sends(crc, []) == log
  {
  }

  lemma SendsMore(crc: Crc, log: seq<Event>, xs: seq<Chunk>, x: Chunk)
    ensures log + Sends(crc, xs) + [Sent(SendData(crc, x))] == log + Sends(crc, xs + [x])
  {
    assert Sends(crc, xs + [x]) == Sends(crc, xs) + [Sent(SendData(crc, x))];
    Associative(log, Sends(crc, xs), [Sent(SendData(crc, x))]);
  }

  // ---- a fresh client and a device

  lemma NothingMoreSent(log: seq<Event>, opcode: byte)
    ensures SentIn(log + [Expired(opcode)]) == SentIn(log)
  {
    assert (log + [Expired(opcode)])[..|log|] == log;
  }

  /** From the file to the store of the device: whatever it answers, and wherever the observation
      ends, a device that reads the bytes a fresh client has written, cut in any way, holds nothing
      but bytes of the firmware, and every byte of every block it has acknowledged. */
  method UpgradeDevice(crc: Crc, limit: Limit, inbox: seq<bytes>, clock: seq<bool>, data: bytes, retries: int)
    returns (client: OtaClient, ending: Ending, ghost at: Position)
    ensures fresh(client) && (ending.NotAnImage? <==> !Acceptable(crc, data))
    ensures ending.NotAnImage? ==> client.output == []
    ensures !ending.NotAnImage? ==>
              && at.c == Config(ImageOf(data), limit, retries) && at.start == 0 && at.from == Link([], inbox, clock)
              && at.base == [] && client.crc == crc
              && client.Led(at, ending)
    ensures !ending.NotAnImage? ==>
              forall inputs: seq<bytes> :: Concat(inputs) == client.output ==>
                HoldsFirmware(at.c, crc, at.steps, inputs)
  {
    hide Play, Events, SentIn, StepEvents, WiresOf, Concat, Acceptable, FirstProblem, HoldsFirmware;
    client := new OtaClient(crc, limit, inbox, clock);
    ending, at := client.Upgrade(data, retries);
    if ending.NotAnImage? {
      NothingWritten();
      return;
    }
    forall inputs: seq<bytes> | Concat(inputs) == client.output ensures HoldsFirmware(at.c, crc, at.steps, inputs) {
      ClientHolds(client, at, ending, inputs);
    }
  }

  lemma NothingWritten()
    ensures Concat(WiresOf(SentIn([]))) == []
  {
  }

  lemma ClientHolds(client: OtaClient, at: Position, ending: Ending, inputs: seq<bytes>)
    requires client.Led(at, ending) && at.base == [] && Concat(inputs) == client.output
    ensures HoldsFirmware(at.c, client.crc, at.steps, inputs)
  {
    hide Play, Events, SentIn, StepEvents, WiresOf, Concat, HoldsFirmware, Next;
    var events := Events(client.crc, client.limit, at.steps);
    assert [] + events == events;
    if client.Interrupted(at) {
      NothingMoreSent(client.log, OpcodeOf(at.steps[|at.steps| - 1]));
    }
    DeviceHoldsFirmware(at.c, client.crc, at.start, at.steps, client.output, inputs);
  }

  // ---- upgrades that come about

  /** Any legal run whose replies fit in packets is one that a fresh client takes, given those replies;
      and if the run has an end, that is the end of it. */
  method TakeRun(crc: Crc, limit: Limit, data: bytes, retries: int, steps: seq<Step>)
    returns (client: OtaClient, ending: Ending, ghost at: Position)
    requires Acceptable(crc, data) && Legal(Config(ImageOf(data), limit, retries), 0, steps) && AllFit(steps)
    ensures fresh(client) && !ending.NotAnImage? && client.Led(at, ending) && steps <= at.steps
    ensures var c := Config(ImageOf(data), limit, retries);
            var last := Stops(c, Play(c, 0, steps).phase);
            at.c == c && (last.Some? ==> at.steps == steps && ending == last.value)
  {
    hide Play, Events, SentIn, StepEvents, WiresOf, Concat, Acceptable, ImageOf, Simulate, AllFit, Script,
         HoldsFirmware;
    var l := Script(steps);
    client, ending, at := UpgradeDevice(crc, limit, l.inbox, l.clock, data, retries);
    ScriptBuffer(steps);
    assert at.from == l && Usable(at.c.image);
    RunHasScript(at.c, 0, steps);
    LedIsTold(client, at, ending);
    assert steps <= Then(steps, Simulate(at.c, Play(at.c, 0, steps), SILENCE)).steps;
    if Stops(at.c, Play(at.c, 0, steps).phase).Some? {
      SettledIsTold(at.c, Play(at.c, 0, steps), SILENCE, Stops(at.c, Play(at.c, 0, steps).phase).value);
      assert steps + [] == steps;
    }
  }

  lemma LedIsTold(client: OtaClient, at: Position, ending: Ending)
    requires client.Led(at, ending)
    ensures Usable(at.c.image) && Simulate(at.c, Run(at.start, Opening), at.from) == Told(at.steps, ending)
  {
  }

  /** Each byte of the file is in some block. */
  predicate Cover(fileLen: nat, plans: seq<Plan>) {
    forall i: nat :: i < fileLen ==> InSome(plans, i)
  }

  predicate InSome(plans: seq<Plan>, i: nat) {
    exists k :: 0 <= k < |plans| && plans[k].block.offset <= i < plans[k].block.offset + plans[k].block.length
  }

  /** The device has the whole firmware, and has answered just so to what it read. */
  ghost predicate Served(c: Config, crc: Crc, d: Device, inbox: seq<bytes>, inputs: seq<bytes>) {
    var ps := FeedAll(Decide(), [], inputs).packets;
    HasAll(c, ReceiveAll(crc, ps)) && Reactions(d, ps).1 == inbox
  }

  ghost predicate HasAll(c: Config, m: Store) {
    forall i: int :: 0 <= i < |c.image.data| ==> HoldsByte(c, m, i)
  }

  lemma AcknowledgedHeld(c: Config, crc: Crc, steps: seq<Step>, plans: seq<Plan>, inputs: seq<bytes>)
    requires HoldsFirmware(c, crc, steps, inputs) && AllAcknowledged(steps, plans) && Cover(|c.image.data|, plans)
    ensures HasAll(c, ReceiveAll(crc, FeedAll(Decide(), [], inputs).packets))
  {
    hide ReceiveAll, FeedAll, Agrees, HoldsByte, ParseBlock;
    var m := ReceiveAll(crc, FeedAll(Decide(), [], inputs).packets);
    forall i: int | 0 <= i < |c.image.data| ensures HoldsByte(c, m, i) {
      assert InSome(plans, i);
      var j :| 0 <= j < |plans| && plans[j].block.offset <= i < plans[j].block.offset + plans[j].block.length;
      assert AcknowledgedIn(steps, plans[j].block);
      var k :| 0 <= k < |steps| && Acknowledged(steps[k]) && steps[k].offset == plans[j].block.offset
               && |steps[k].data| == plans[j].block.length;
      assert HoldsBlock(c, m, steps[k]);
    }
  }

  /** From the file to the store of a device that answers everything it reads, refuses bursts and takes its
      time as it plans to, and asks for blocks that cover the file: the upgrade ends as the plans have it.  If
      it returns, the device has the whole firmware, and what the client was told is exactly what this device
      says to the bytes that the client has written, cut in any way. */
  method UpgradeWhole(crc: Crc, limit: Limit, data: bytes, retries: int, first: Round, later: seq<Round>)
    returns (client: OtaClient, ending: Ending, ghost at: Position)
    requires Acceptable(crc, data) && retries >= 1 && DeviceOk(limit, FileLen(data), Enter(first, later))
    requires Cover(FileLen(data), AllPlans(Enter(first, later)))
    ensures fresh(client) && at.c == Config(ImageOf(data), limit, retries) && client.Led(at, ending)
    ensures match Verdict(limit, retries, 3, 0, Enter(first, later))
            case Some(error) => ending == Raised(error)
            case None =>
              && ending.Done?
              && forall inputs: seq<bytes> :: Concat(inputs) == client.output ==>
                   Served(at.c, crc, Enter(first, later), at.from.inbox, inputs)
  {
    hide Play, Events, SentIn, StepEvents, WiresOf, Concat, Acceptable, ImageOf, Simulate, HoldsFirmware, Served,
         Conversation, DeviceOk, Cover, AllAcknowledged, Verdict, AllPlans, Reactions, PacketsIn;
    var d := Enter(first, later);
    var l := Conversation(limit, 0, d);
    client, ending, at := UpgradeDevice(crc, limit, l.inbox, l.clock, data, retries);
    ImageIsWhole(crc, data);
    FrontBuffer(limit, 0, d);
    ConversationEndsWell(at.c, crc, 0, d);
    LedIsTold(client, at, ending);
    assert Issue(0, 3) == 3;
    if ending.Done? {
      forall inputs: seq<bytes> | Concat(inputs) == client.output ensures Served(at.c, crc, d, l.inbox, inputs) {
        ClientServes(client, at, ending, d, inputs);
      }
    }
  }

  lemma ClientServes(client: OtaClient, at: Position, ending: Ending, d: Device, inputs: seq<bytes>)
    requires client.Led(at, ending) && ending.Done? && at.base == [] && Concat(inputs) == client.output
    requires HoldsFirmware(at.c, client.crc, at.steps, inputs)
    requires AllAcknowledged(at.steps, AllPlans(d)) && Cover(|at.c.image.data|, AllPlans(d))
    ensures Served(at.c, client.crc, d, Reactions(d, PacketsIn(client.crc, at.c.limit, at.steps)).1, inputs)
  {
    hide Play, SentIn, StepEvents, WiresOf, Concat, HoldsFirmware, Simulate, Cover, AllAcknowledged, AllPlans,
         Reactions, PacketsIn, HasAll, ReceiveAll, FeedAll, Events, Ends;
    var events := Events(client.crc, client.limit, at.steps);
    assert [] + events == events;
    DeviceReads(events, client.output, inputs);
    SentInRun(client.crc, client.limit, at.steps);
    AcknowledgedHeld(at.c, client.crc, at.steps, AllPlans(d), inputs);
  }

  lemma ImageIsWhole(crc: Crc, data: bytes)
    requires Acceptable(crc, data)
    ensures |ImageOf(data).data| == FileLen(data) && Usable(ImageOf(data))
  {
  }

  lemma FrontBuffer(limit: Limit, sn: word, d: Device)
    ensures Conversation(limit, sn, d).buf == []
  {
  }
}
