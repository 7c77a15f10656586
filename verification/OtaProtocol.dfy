/**
 The upgrade protocol: what the host may do next, as a state machine over its steps, and what
 every run of it keeps, whatever the device answers, loses, repeats or delays.
 */
module OtaProtocol {
  import opened Bytes
  import opened OtaFirmware
  import opened OtaPackets
  import opened OtaBursts

  type Limit = n: nat | 1 <= n <= MAX_CHUNK witness 512

  datatype Config = Config(image: FirmwareImage, limit: Limit, retries: int)

  datatype OtaError =
    | Timeout
    | ShortReply
    | Refused(result: byte)
    | BlockRejected(result: byte)
    | InvalidBlock(offset: dword, length: dword)
    | EmptyBlock
    | PollTimeout

  /** A request without its serial number, short enough for a packet. */
  type RequestBody = b: bytes | 2 + |b| <= MAX_PACKET_PAYLOAD witness []

  /** A request and its answer, or a SEND_DATA burst and its answer; None is a timeout. */
  datatype Step =
    | Ask(opcode: byte, sn: word, body: RequestBody, reply: Option<bytes>)
    | Attempt(start: word, offset: dword, data: bytes, reply: Option<bytes>)

  datatype Phase =
    | Opening
    | Informed
    | Admitted
    | Sending(offset: dword, length: dword, failures: nat)
    | Verifying
    | Finishing
    | Complete(result: UpdateResultResponse)
    | Aborted(error: OtaError)
    | Wrong

  datatype Run = Run(sn: word, phase: Phase)

  /** The image as ParseImage leaves it. */
  predicate Usable(image: FirmwareImage) {
    |image.data| == image.fileLen && |image.headerInfo| <= MAX_HEADER_INFO
  }

  // ---- one step

  /** The request that is next in a phase, without its serial number. */
  function Due(c: Config, phase: Phase): Option<(byte, bytes)> {
    match phase
    case Opening => Some((OP_GET_INFO, [0]))
    case Informed =>
      var header := c.image.headerInfo;
      if |header| < TWO_16 then Some((OP_CAN_UPDATE, LE16(|header|) + header)) else None
    case Admitted => Some((OP_ENTER_UPDATE, []))
    case Verifying => Some((OP_VERIFY_DATA, []))
    case Finishing => Some((OP_UPDATE_RESULT, []))
    case _ => None
  }

  /** The device asked for this block next; the empty one at 0 ends the transfer. */
  function Requested(offset: dword, length: dword): Phase {
    if offset == 0 && length == 0 then Verifying else Sending(offset, length, 0)
  }

  function AfterReply(phase: Phase, reply: bytes): Phase {
    match phase
    case Opening => if ParseDeviceInfo(reply).None? then Aborted(ShortReply) else Informed
    case Informed => (
      match ParseCanUpdate(reply)
      case None => Aborted(ShortReply)
      case Some(r) => if r.result != 0 then Aborted(Refused(r.result)) else Admitted)
    case Admitted => (
      match ParseBlock(reply)
      case None => Aborted(ShortReply)
      case Some(r) => if r.result != RESULT_OK then Aborted(Refused(r.result)) else Requested(r.offset, r.length))
    case Verifying => (
      match ParseAsync(reply)
      case None => Aborted(ShortReply)
      case Some(r) =>
        if r.result == ASYNC_OK then Finishing
        else if r.result == ASYNC_FAIL then Aborted(Refused(r.result))
        else phase)
    case Finishing => (
      match ParseUpdateResult(reply)
      case None => Aborted(ShortReply)
      case Some(r) =>
        if r.result == ASYNC_OK then
          if r.offset == 0 && r.length == 0 then Complete(r) else Sending(r.offset, r.length, 0)
        else if r.result == ASYNC_FAIL then Aborted(Refused(r.result))
        else phase)
    case _ => Wrong
  }

  function AfterFailure(c: Config, phase: Phase, error: OtaError): Phase
    requires phase.Sending?
  {
    if phase.failures + 1 >= c.retries then Aborted(error) else phase.(failures := phase.failures + 1)
  }

  function AfterAttempt(c: Config, phase: Phase, reply: Option<bytes>): Phase
    requires phase.Sending?
  {
    if reply.None? then AfterFailure(c, phase, Timeout)
    else
      match ParseBlock(reply.value)
      case None => Aborted(ShortReply)
      case Some(r) =>
        if r.result == RESULT_OK then Requested(r.offset, r.length)
        else AfterFailure(c, phase, BlockRejected(r.result))
  }

  function OpcodeOf(step: Step): byte {
    if step.Ask? then step.opcode else OP_SEND_DATA
  }

  function ChunksOf(limit: Limit, step: Step): seq<Chunk>
    requires step.Attempt?
  {
    if step.offset + |step.data| <= TWO_32 then Burst(limit, step.start, step.offset, step.data) else []
  }

  predicate LegalAsk(c: Config, r: Run, step: Step)
    requires step.Ask?
  {
    && Due(c, r.phase) == Some((step.opcode, step.body)) && step.sn == NextSerial(r.sn)
    && (step.reply.Some? ==> |step.reply.value| >= 2 && U16(step.reply.value, 0) == step.sn)
  }

  /** The block asked for, from the image; at most c.retries times; and only a reply with a serial
      number in the range of this burst is taken. */
  predicate LegalAttempt(c: Config, r: Run, step: Step)
    requires step.Attempt?
  {
    && r.phase.Sending? && r.phase.failures < c.retries && step.start == r.sn
    && step.offset == r.phase.offset && |step.data| == r.phase.length > 0
    && step.offset + |step.data| <= |c.image.data| && |c.image.data| < TWO_32
    && step.data == c.image.data[step.offset..step.offset + |step.data|]
    && (step.reply.Some? ==>
          |step.reply.value| >= 2 && InRange(step.start, |ChunksOf(c.limit, step)|, U16(step.reply.value, 0)))
  }

  function Next(c: Config, r: Run, step: Step): Run {
    match step
    case Ask(_, sn, _, reply) =>
      Run(sn, if !LegalAsk(c, r, step) then Wrong
              else if reply.None? then Aborted(Timeout)
              else AfterReply(r.phase, reply.value))
    case Attempt(_, _, _, reply) =>
      if !LegalAttempt(c, r, step) then Run(r.sn, Wrong)
      else Run(Issue(r.sn, |ChunksOf(c.limit, step)|), AfterAttempt(c, r.phase, reply))
  }

  /** The run of these steps of a client whose last serial number was sn. */
  function Play(c: Config, sn: word, steps: seq<Step>): Run
    decreases |steps|
  {
    if steps == [] then Run(sn, Opening) else Next(c, Play(c, sn, steps[..|steps| - 1]), steps[|steps| - 1])
  }

  predicate Legal(c: Config, sn: word, steps: seq<Step>) {
    !Play(c, sn, steps).phase.Wrong?
  }

  lemma PlayOne(c: Config, sn: word, steps: seq<Step>, k: nat)
    requires k < |steps|
    ensures Play(c, sn, steps[..k + 1]) == Next(c, Play(c, sn, steps[..k]), steps[k])
  {
    assert steps[..k + 1][..k] == steps[..k];
  }

  /** Every step of a legal run was legal where it was taken. */
  lemma {:induction false} PrefixLegal(c: Config, sn: word, steps: seq<Step>, k: nat)
    requires Legal(c, sn, steps) && k <= |steps|
    ensures Legal(c, sn, steps[..k])
    decreases |steps|
  {
    var n := |steps|;
    if k == n {
      assert steps[..k] == steps;
    } else {
      assert steps[..n - 1][..k] == steps[..k];
      PrefixLegal(c, sn, steps[..n - 1], k);
    }
  }

  lemma StepLegal(c: Config, sn: word, steps: seq<Step>, k: nat)
    requires Legal(c, sn, steps) && k < |steps|
    ensures var r := Play(c, sn, steps[..k]);
            if steps[k].Ask? then LegalAsk(c, r, steps[k]) else LegalAttempt(c, r, steps[k])
  {
    PrefixLegal(c, sn, steps, k + 1);
    PlayOne(c, sn, steps, k);
  }

  // ---- what the steps look like on the line

  type Packet = p: OtaPacket | |p.payload| <= MAX_PACKET_PAYLOAD witness OtaPacket(0, [])

  datatype Event = Sent(packet: Packet) | Got(opcode: byte, payload: bytes) | Expired(opcode: byte)

  function Answer(opcode: byte, reply: Option<bytes>): Event {
    if reply.None? then Expired(opcode) else Got(opcode, reply.value)
  }

  function Sends(crc: Crc, xs: seq<Chunk>): seq<Event> {
    seq(|xs|, k requires 0 <= k < |xs| => Sent(SendData(crc, xs[k])))
  }

  function AskPacket(opcode: byte, sn: word, body: RequestBody): Packet {
    OtaPacket(opcode, LE16(sn) + body)
  }

  /** All the packets of a step go out before its answer is looked for. */
  function StepEvents(crc: Crc, limit: Limit, step: Step): seq<Event> {
    match step
    case Ask(opcode, sn, body, reply) => [Sent(AskPacket(opcode, sn, body)), Answer(opcode, reply)]
    case Attempt(_, _, _, reply) => Sends(crc, ChunksOf(limit, step)) + [Answer(OP_SEND_DATA, reply)]
  }

  function Events(crc: Crc, limit: Limit, steps: seq<Step>): seq<Event>
    decreases |steps|
  {
    if steps == [] then [] else Events(crc, limit, steps[..|steps| - 1]) + StepEvents(crc, limit, steps[|steps| - 1])
  }

  // ---- what is sent is the firmware

  /** x carries exactly the firmware's bytes at its offset. */
  predicate Faithful(c: Config, x: Chunk) {
    && 1 <= |x.data| <= c.limit && x.offset + |x.data| <= |c.image.data|
    && x.data == c.image.data[x.offset..x.offset + |x.data|]
  }

  lemma AttemptFaithful(c: Config, r: Run, step: Step, k: nat)
    requires step.Attempt? && LegalAttempt(c, r, step) && k < |ChunksOf(c.limit, step)|
    ensures Faithful(c, ChunksOf(c.limit, step)[k])
  {
    var pos, n := BurstChunk(c.limit, step.start, step.offset, step.data, k);
    Reslice(c.image.data, step.offset, step.offset + |step.data|, pos, pos + n);
  }

  ghost predicate IsFaithful(c: Config, crc: Crc, p: OtaPacket) {
    exists x: Chunk :: Faithful(c, x) && p == SendData(crc, x)
  }

  lemma StepFaithful(c: Config, crc: Crc, r: Run, step: Step, e: Event)
    requires if step.Ask? then LegalAsk(c, r, step) else LegalAttempt(c, r, step)
    requires e in StepEvents(crc, c.limit, step) && e.Sent? && e.packet.opcode == OP_SEND_DATA
    ensures IsFaithful(c, crc, e.packet)
  {
    if step.Attempt? {
      var xs := ChunksOf(c.limit, step);
      var k :| 0 <= k < |xs| && Sends(crc, xs)[k] == e;
      AttemptFaithful(c, r, step, k);
    } else {
      AskIsNoData(c, r.phase);
    }
  }

  lemma AskIsNoData(c: Config, phase: Phase)
    ensures Due(c, phase).Some? ==> Due(c, phase).value.0 != OP_SEND_DATA
  {
  }

  /** Over every run, each SEND_DATA packet written carries exactly the bytes of the firmware at its
      offset, inside the file, at most `limit` of them, with their own checksum. */
  lemma {:induction false} SentIsFaithful(c: Config, crc: Crc, sn: word, steps: seq<Step>, e: Event)
    requires Legal(c, sn, steps)
    requires e in Events(crc, c.limit, steps) && e.Sent? && e.packet.opcode == OP_SEND_DATA
    ensures IsFaithful(c, crc, e.packet)
    decreases |steps|
  {
    var n := |steps| - 1;
    if e in Events(crc, c.limit, steps[..n]) {
      PrefixLegal(c, sn, steps, n);
      SentIsFaithful(c, crc, sn, steps[..n], e);
    } else {
      StepLegal(c, sn, steps, n);
      StepFaithful(c, crc, Play(c, sn, steps[..n]), steps[n], e);
    }
  }

  /** Any of the packets of a run, in any order, lost, repeated or delayed. */
  ghost predicate Delivered(c: Config, crc: Crc, steps: seq<Step>, ps: seq<OtaPacket>) {
    forall i :: 0 <= i < |ps| ==> WasSent(c, crc, steps, ps[i])
  }

  ghost predicate WasSent(c: Config, crc: Crc, steps: seq<Step>, p: OtaPacket) {
    |p.payload| <= MAX_PACKET_PAYLOAD && Sent(p) in Events(crc, c.limit, steps)
  }

  lemma DeliveredFaithful(c: Config, crc: Crc, sn: word, steps: seq<Step>, p: OtaPacket)
    requires Legal(c, sn, steps) && WasSent(c, crc, steps, p)
    ensures p.opcode == OP_SEND_DATA ==> IsFaithful(c, crc, p)
  {
    if p.opcode == OP_SEND_DATA {
      SentIsFaithful(c, crc, sn, steps, Sent(p));
    }
  }

  lemma ReceiveKeepsAgreement(c: Config, crc: Crc, m: Store, p: OtaPacket)
    requires Agrees(m, c.image.data)
    requires p.opcode == OP_SEND_DATA ==> IsFaithful(c, crc, p)
    ensures Agrees(Receive(crc, m, p), c.image.data) && Keeps(m, Receive(crc, m, p))
  {
    if p.opcode == OP_SEND_DATA {
      var x: Chunk :| Faithful(c, x) && p == SendData(crc, x);
      ReceiveSendData(crc, m, x);
      PutAgrees(m, x.offset, x.data, c.image.data);
    }
  }

  lemma PutAgrees(m: Store, offset: nat, data: bytes, whole: bytes)
    requires Agrees(m, whole) && offset + |data| <= |whole| && data == whole[offset..offset + |data|]
    ensures Agrees(Put(m, offset, data), whole) && Keeps(m, Put(m, offset, data))
  {
  }

  /** A device that stores by offset agrees with the firmware on every byte it has stored, whatever
      part of the packets reaches it and in whatever order. */
  lemma {:induction false} DeviceAgrees(c: Config, crc: Crc, sn: word, steps: seq<Step>, ps: seq<OtaPacket>)
    requires Legal(c, sn, steps) && Delivered(c, crc, steps, ps)
    ensures Agrees(ReceiveAll(crc, ps), c.image.data)
    decreases |ps|
  {
    if ps != [] {
      var n := |ps| - 1;
      DeviceAgrees(c, crc, sn, steps, ps[..n]);
      assert WasSent(c, crc, steps, ps[n]);
      DeliveredFaithful(c, crc, sn, steps, ps[n]);
      ReceiveKeepsAgreement(c, crc, ReceiveAll(crc, ps[..n]), ps[n]);
    }
  }

  // ---- acknowledged blocks were sent whole

  /** The host has taken an OK reply to this burst. */
  predicate Acknowledged(step: Step) {
    && step.Attempt? && step.reply.Some? && ParseBlock(step.reply.value).Some?
    && ParseBlock(step.reply.value).value.result == RESULT_OK
  }

  /** The packets of this burst are among ps. */
  ghost predicate Reaches(c: Config, crc: Crc, step: Step, ps: seq<OtaPacket>)
    requires step.Attempt?
  {
    forall k :: 0 <= k < |ChunksOf(c.limit, step)| ==> SendData(crc, ChunksOf(c.limit, step)[k]) in ps
  }

  lemma {:induction false} StoredStays(c: Config, crc: Crc, sn: word, steps: seq<Step>,
                                       ps: seq<OtaPacket>, x: Chunk, i: int)
    requires Legal(c, sn, steps) && Delivered(c, crc, steps, ps)
    requires SendData(crc, x) in ps && x.offset <= i < x.offset + |x.data|
    ensures ReceiveAll(crc, ps)(i).Some?
    decreases |ps|
  {
    hide Receive, SendData, IsFaithful, WasSent, Legal, Events;
    var n := |ps| - 1;
    var m := ReceiveAll(crc, ps[..n]);
    if ps[n] == SendData(crc, x) {
      ReceiveSendData(crc, m, x);
    } else {
      StoredStays(c, crc, sn, steps, ps[..n], x, i);
      DeviceAgrees(c, crc, sn, steps, ps[..n]);
      assert WasSent(c, crc, steps, ps[n]);
      DeliveredFaithful(c, crc, sn, steps, ps[n]);
      ReceiveKeepsAgreement(c, crc, m, ps[n]);
    }
  }

  lemma BlockIsStored(c: Config, crc: Crc, sn: word, steps: seq<Step>, j: nat, ps: seq<OtaPacket>, i: nat)
    requires Legal(c, sn, steps) && Delivered(c, crc, steps, ps)
    requires j < |steps| && steps[j].Attempt? && Reaches(c, crc, steps[j], ps)
    requires steps[j].offset <= i < steps[j].offset + |steps[j].data|
    ensures i < |c.image.data| && ReceiveAll(crc, ps)(i) == Some(c.image.data[i])
  {
    var step := steps[j];
    StepLegal(c, sn, steps, j);
    var k := BurstReaches(c.limit, step.start, step.offset, step.data, i - step.offset);
    var x := ChunksOf(c.limit, step)[k];
    assert SendData(crc, x) in ps;
    StoredStays(c, crc, sn, steps, ps, x, i);
    DeviceAgrees(c, crc, sn, steps, ps);
  }

  lemma {:induction false} EventsPrefix(crc: Crc, limit: Limit, steps: seq<Step>, n: nat)
    requires n <= |steps|
    ensures Events(crc, limit, steps[..n]) <= Events(crc, limit, steps)
    decreases |steps|
  {
    if n < |steps| {
      var before := steps[..|steps| - 1];
      assert before[..n] == steps[..n];
      EventsPrefix(crc, limit, before, n);
    } else {
      assert steps[..n] == steps;
    }
  }

  /** Where in the log the answer to step j stands. */
  function AnswerAt(crc: Crc, limit: Limit, steps: seq<Step>, j: nat): (g: nat)
    requires j < |steps|
  {
    |Events(crc, limit, steps[..j])| + |StepEvents(crc, limit, steps[j])| - 1
  }

  /** Every packet written before the g-th event is among ps. */
  ghost predicate SentBefore(events: seq<Event>, g: nat, ps: seq<OtaPacket>)
    requires g <= |events|
  {
    forall i :: 0 <= i < g && events[i].Sent? ==> events[i].packet in ps
  }

  lemma StepInEvents(crc: Crc, limit: Limit, steps: seq<Step>, j: nat)
    requires j < |steps|
    ensures Events(crc, limit, steps[..j]) + StepEvents(crc, limit, steps[j]) <= Events(crc, limit, steps)
  {
    assert steps[..j + 1][..j] == steps[..j];
    EventsPrefix(crc, limit, steps, j + 1);
  }

  lemma AnswerIsThere(crc: Crc, limit: Limit, steps: seq<Step>, j: nat)
    requires j < |steps|
    ensures var g := AnswerAt(crc, limit, steps, j);
            && g < |Events(crc, limit, steps)|
            && Events(crc, limit, steps)[g] == Answer(OpcodeOf(steps[j]), steps[j].reply)
  {
    hide ChunksOf;
    StepInEvents(crc, limit, steps, j);
  }

  lemma SentBeforeReaches(c: Config, crc: Crc, steps: seq<Step>, j: nat, ps: seq<OtaPacket>)
    requires j < |steps| && steps[j].Attempt?
    requires var g := AnswerAt(crc, c.limit, steps, j);
             g <= |Events(crc, c.limit, steps)| && SentBefore(Events(crc, c.limit, steps), g, ps)
    ensures Reaches(c, crc, steps[j], ps)
  {
    hide ChunksOf, SendData;
    var xs, before := ChunksOf(c.limit, steps[j]), Events(crc, c.limit, steps[..j]);
    StepInEvents(crc, c.limit, steps, j);
    forall k | 0 <= k < |xs| ensures SendData(crc, xs[k]) in ps {
      assert StepEvents(crc, c.limit, steps[j])[k] == Sent(SendData(crc, xs[k]));
      assert Events(crc, c.limit, steps)[|before| + k] == Sent(SendData(crc, xs[k]));
    }
  }

  /** A block for which an OK reply is taken was written in full before: once the packets that stand
      before that reply in the log have reached the device, with any others, in any order, it holds
      the whole block as it stands in the firmware. */
  lemma AcknowledgedIsStored(c: Config, crc: Crc, sn: word, steps: seq<Step>, j: nat, ps: seq<OtaPacket>, i: nat)
    requires Legal(c, sn, steps) && Delivered(c, crc, steps, ps)
    requires j < |steps| && Acknowledged(steps[j])
    requires var g := AnswerAt(crc, c.limit, steps, j);
             g <= |Events(crc, c.limit, steps)| && SentBefore(Events(crc, c.limit, steps), g, ps)
    requires steps[j].offset <= i < steps[j].offset + |steps[j].data|
    ensures var g := AnswerAt(crc, c.limit, steps, j);
            && g < |Events(crc, c.limit, steps)|
            && Events(crc, c.limit, steps)[g] == Got(OP_SEND_DATA, steps[j].reply.value)
    ensures i < |c.image.data| && ReceiveAll(crc, ps)(i) == Some(c.image.data[i])
  {
    AnswerIsThere(crc, c.limit, steps, j);
    SentBeforeReaches(c, crc, steps, j, ps);
    BlockIsStored(c, crc, sn, steps, j, ps, i);
  }

  // ---- serial numbers over a run

  /** Its reply carries a serial number of one of the packets of that same burst. */
  lemma AcknowledgedSerial(c: Config, sn: word, steps: seq<Step>, j: nat) returns (k: nat)
    requires Legal(c, sn, steps)
    requires j < |steps| && steps[j].Attempt? && steps[j].reply.Some?
    ensures |steps[j].reply.value| >= 2
    ensures k < |ChunksOf(c.limit, steps[j])| && ChunksOf(c.limit, steps[j])[k].sn == U16(steps[j].reply.value, 0) != 0
  {
    var step := steps[j];
    var xs := ChunksOf(c.limit, step);
    StepLegal(c, sn, steps, j);
    BurstIsWhole(c.limit, step.start, step.offset, step.data);
    var n := AcceptedWasIssued(step.start, |xs|, U16(step.reply.value, 0));
    k := n - 1;
    var _, _ := BurstChunk(c.limit, step.start, step.offset, step.data, k);
  }

  /** How many serial numbers these steps have issued. */
  function Issued(c: Config, steps: seq<Step>): nat
    decreases |steps|
  {
    if steps == [] then 0
    else
      var last := steps[|steps| - 1];
      Issued(c, steps[..|steps| - 1]) + if last.Ask? then 1 else |ChunksOf(c.limit, last)|
  }

  lemma {:induction false} SerialsCount(c: Config, sn: word, steps: seq<Step>)
    requires Legal(c, sn, steps)
    ensures Play(c, sn, steps).sn == Issue(sn, Issued(c, steps))
    decreases |steps|
  {
    if steps != [] {
      hide ChunksOf, InRange;
      var n := |steps| - 1;
      PrefixLegal(c, sn, steps, n);
      SerialsCount(c, sn, steps[..n]);
      StepLegal(c, sn, steps, n);
      if steps[n].Attempt? {
        IssueTwice(sn, Issued(c, steps[..n]), |ChunksOf(c.limit, steps[n])|);
      }
    }
  }

  /** The reply to step j carries the t-th serial number of the run. */
  predicate Carried(sn: word, step: Step, t: nat) {
    step.reply.Some? && |step.reply.value| >= 2 && U16(step.reply.value, 0) == Issue(sn, t)
  }

  /** A reply taken for a step answers one of that step's own packets, if it carries the serial
      number of a packet written fewer than 65535 serial numbers ago. */
  lemma RecentReplyIsOwn(c: Config, sn: word, steps: seq<Step>, j: nat, t: nat)
    requires Legal(c, sn, steps) && j < |steps| && Carried(sn, steps[j], t)
    requires 1 <= t <= Issued(c, steps[..j + 1]) && Issued(c, steps[..j + 1]) - t < LAST_SERIAL
    ensures Issued(c, steps[..j]) < t
  {
    hide ChunksOf, InRange, Issue;
    var b := Issued(c, steps[..j]);
    assert steps[..j + 1][..j] == steps[..j];
    PrefixLegal(c, sn, steps, j);
    SerialsCount(c, sn, steps[..j]);
    StepLegal(c, sn, steps, j);
    if steps[j].Ask? {
      OneInRange(Issue(sn, b));
      RecentIsOwn(sn, b, 1, t);
    } else {
      BurstIsWhole(c.limit, steps[j].start, steps[j].offset, steps[j].data);
      ChunksAreBurst(c, Play(c, sn, steps[..j]), steps[j]);
      RecentIsOwn(sn, b, |ChunksOf(c.limit, steps[j])|, t);
    }
  }

  lemma OneInRange(sn: word)
    ensures InRange(sn, 1, NextSerial(sn))
  {
    assert Issue(sn, 1) == NextSerial(Issue(sn, 0));
  }

  lemma ChunksAreBurst(c: Config, r: Run, step: Step)
    requires step.Attempt? && LegalAttempt(c, r, step)
    ensures step.offset + |step.data| <= TWO_32 && step.data != []
    ensures ChunksOf(c.limit, step) == Burst(c.limit, step.start, step.offset, step.data)
  {
  }

  /** An attempt whose serial numbers end below where they began can only time out. */
  lemma WrappedTimesOut(c: Config, r: Run, step: Step)
    requires step.Attempt? && LegalAttempt(c, r, step)
    requires var a, n := Issue(step.start, 1), |ChunksOf(c.limit, step)|;
             n >= 1 && (a + n - 2) % LAST_SERIAL + 1 < a
    ensures step.reply.None?
  {
    hide ChunksOf;
    NoneAcceptable(step.start, |ChunksOf(c.limit, step)|);
  }
}
