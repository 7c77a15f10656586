/**
 An upgrade with a device that answers everything it reads: it may refuse bursts and take its time, and
 asks for the blocks of its plans in turn, in one round after another.
 */
module OtaDevices {
  import opened Bytes
  import opened OtaFirmware
  import opened OtaPackets
  import opened OtaBursts
  import opened OtaProtocol
  import opened OtaLines
  import opened OtaScripts
  import opened OtaTraces

  datatype Block = Block(offset: dword, length: dword)

  /** A block, and the results with which its first bursts are refused. */
  datatype Plan = Plan(block: Block, refusals: seq<byte>)

  /** The blocks asked for before VERIFY_DATA, and the results, neither OK nor failed, that the two polls
      get first. */
  datatype Round = Round(plans: seq<Plan>, verifying: seq<byte>, finishing: seq<byte>)

  /** What is left of this round, the rounds after it, and the serial number that began the last burst. */
  datatype Device = Device(plans: seq<Plan>, verifying: seq<byte>, verified: bool, finishing: seq<byte>,
                           later: seq<Round>, first: word)

  function Enter(r: Round, later: seq<Round>): Device {
    Device(r.plans, r.verifying, false, r.finishing, later, 0)
  }

  /** In how many packets a block is sent. */
  function Packets(limit: Limit, length: nat): nat {
    if length == 0 then 0 else (length - 1) / limit + 1
  }

  // ---- which devices

  /** What the device can ask for: not empty, inside the file, and of at most 32768 packets. */
  predicate Fitting(limit: Limit, fileLen: nat, b: Block) {
    0 < b.length && b.offset + b.length <= fileLen && Packets(limit, b.length) <= 32768
  }

  predicate PlanOk(limit: Limit, fileLen: nat, p: Plan) {
    Fitting(limit, fileLen, p.block) && 0 !in p.refusals
  }

  predicate PlansOk(limit: Limit, fileLen: nat, plans: seq<Plan>) {
    forall i :: 0 <= i < |plans| ==> PlanOk(limit, fileLen, plans[i])
  }

  predicate Busy(results: seq<byte>) {
    0 !in results && 2 !in results
  }

  predicate RoundOk(limit: Limit, fileLen: nat, r: Round) {
    PlansOk(limit, fileLen, r.plans) && Busy(r.verifying) && Busy(r.finishing)
  }

  /** A later round is there because the device asks for a block. */
  predicate RoundsOk(limit: Limit, fileLen: nat, rounds: seq<Round>) {
    forall i :: 0 <= i < |rounds| ==> RoundOk(limit, fileLen, rounds[i]) && rounds[i].plans != []
  }

  predicate DeviceOk(limit: Limit, fileLen: nat, d: Device) {
    && PlansOk(limit, fileLen, d.plans) && Busy(d.verifying) && Busy(d.finishing) && RoundsOk(limit, fileLen, d.later)
    && (d.plans != [] ==> !d.verified)
  }

  // ---- what the device says to each packet it reads

  function NextOf(plans: seq<Plan>): Block {
    if plans == [] then Block(0, 0) else plans[0].block
  }

  function BlockReply(s: word, result: byte, b: Block): (w: bytes)
    ensures |w| == 11
  {
    BlockBytes(BlockResponse(s, result, b.offset, b.length))
  }

  function StatusReply(s: word, result: byte): (w: bytes)
    ensures |w| == 4
  {
    LE16(s) + [result, 0]
  }

  function ResultReply(s: word, result: byte, b: Block): (w: bytes)
    ensures |w| == 12
  {
    UpdateResultBytes(UpdateResultResponse(s, result, b.offset, b.length, 1))
  }

  function Said(opcode: byte, payload: bytes): bytes
    requires |payload| <= MAX_PACKET_PAYLOAD
  {
    Wire(OtaPacket(opcode, payload))
  }

  /** To the last packet of a burst: the refusal that is due, or OK and the next block. */
  function BurstReply(d: Device, s: word): (w: bytes)
    requires d.plans != []
    ensures |w| == 11
  {
    var plan := d.plans[0];
    if plan.refusals != [] then BlockReply(s, plan.refusals[0], plan.block) else BlockReply(s, 0, NextOf(d.plans[1..]))
  }

  /** Where the serial number is below the first of the burst the host cannot take the OK, so the block is
      still the one asked for. */
  function AfterBurst(d: Device, s: word): Device
    requires d.plans != []
  {
    var plan, later := d.plans[0], d.plans[1..];
    if plan.refusals != [] then d.(plans := [plan.(refusals := plan.refusals[1..])] + later)
    else if d.first <= s then d.(plans := later)
    else d
  }

  function ReactToVerify(d: Device, s: word): (Device, bytes) {
    if d.verifying != [] then (d.(verifying := d.verifying[1..]), StatusReply(s, d.verifying[0]))
    else (d.(verified := true), StatusReply(s, 0))
  }

  function ReactToResult(d: Device, s: word): (Device, bytes) {
    if d.finishing != [] then (d.(finishing := d.finishing[1..]), ResultReply(s, d.finishing[0], Block(0, 0)))
    else if d.later == [] then (d, ResultReply(s, 0, Block(0, 0)))
    else (Enter(d.later[0], d.later[1..]), ResultReply(s, 0, NextOf(d.later[0].plans)))
  }

  /** It answers under the serial number it has read. */
  function React(d: Device, p: OtaPacket): (Device, seq<bytes>) {
    var w := p.payload;
    if |w| < 2 then (d, [])
    else
      var s := U16(w, 0);
      if p.opcode == 1 then (d, [Said(1, InfoBytes(s))])
      else if p.opcode == 2 then (d, [Said(2, StatusReply(s, 0))])
      else if p.opcode == 3 then (d, [Said(3, BlockReply(s, 0, NextOf(d.plans)))])
      else if p.opcode == 4 then
        if |w| < 8 || d.plans == [] then (d, [])
        else
          var b, from, to := d.plans[0].block, U32(w, 2), U32(w, 2) + U16(w, 6);
          var e := if from == b.offset then d.(first := s) else d;
          if to != b.offset + b.length then (e, []) else (AfterBurst(e, s), [Said(4, BurstReply(e, s))])
      else if p.opcode == 5 then
        var (e, reply) := ReactToVerify(d, s);
        (e, [Said(5, reply)])
      else if p.opcode == 6 then
        var (e, reply) := ReactToResult(d, s);
        (e, [Said(6, reply)])
      else (d, [])
  }

  /** And all that it says to these packets. */
  function Reactions(d: Device, ps: seq<OtaPacket>): (Device, seq<bytes>)
    decreases |ps|
  {
    if ps == [] then (d, [])
    else
      var (e, said) := React(d, ps[0]);
      var (last, later) := Reactions(e, ps[1..]);
      (last, said + later)
  }

  lemma {:induction false} ReactionsAppend(d: Device, ps: seq<OtaPacket>, qs: seq<OtaPacket>)
    ensures var (e, said) := Reactions(d, ps);
            var (last, later) := Reactions(e, qs);
            Reactions(d, ps + qs) == (last, said + later)
    decreases |ps|
  {
    hide React;
    if ps == [] {
      assert ps + qs == qs && [] + Reactions(d, qs).1 == Reactions(d, qs).1;
    } else {
      var (e, said) := React(d, ps[0]);
      assert (ps + qs)[0] == ps[0] && (ps + qs)[1..] == ps[1..] + qs;
      ReactionsAppend(e, ps[1..], qs);
      Associative(said, Reactions(e, ps[1..]).1, Reactions(Reactions(e, ps[1..]).0, qs).1);
    }
  }

  lemma OneReaction(d: Device, p: OtaPacket)
    ensures Reactions(d, [p]) == React(d, p)
  {
    assert [p][1..] == [] && React(d, p).1 + [] == React(d, p).1;
  }

  // ---- the script that this makes

  function Front(inbox: seq<bytes>, clock: seq<bool>, l: Link): Link {
    Link([], inbox + l.inbox, clock + l.clock)
  }

  function RefusalsLeft(d: Device): nat {
    if d.plans == [] then 0 else |d.plans[0].refusals|
  }

  /** The block is acknowledged. */
  function Advance(d: Device, first: word): Device
    requires d.plans != []
  {
    d.(plans := d.plans[1..], first := first)
  }

  /** Each answer comes in time; where the client has to ignore it, its deadline then passes. */
  function Answers(limit: Limit, sn: word, d: Device): Link
    decreases |d.later|, |d.plans|, RefusalsLeft(d), if d.verified then 0 else 1, |d.verifying|, |d.finishing|
  {
    if d.plans != [] then
      var n := Packets(limit, d.plans[0].block.length);
      var first, last := Issue(sn, 1), Issue(sn, n);
      var e := d.(first := first);
      var said := [Said(4, BurstReply(e, last))];
      if first <= last then Front(said, [true], Answers(limit, last, AfterBurst(e, last)))
      else if d.plans[0].refusals != [] then Front(said, [true, false], Answers(limit, last, AfterBurst(e, last)))
      else
        var again := Advance(d, Issue(last, 1));
        Front(said, [true, false],
              Front([Said(4, BlockReply(Issue(last, n), 0, NextOf(d.plans[1..])))], [true],
                    Answers(limit, Issue(last, n), again)))
    else if !d.verified then
      var (e, reply) := ReactToVerify(d, NextSerial(sn));
      Front([Said(5, reply)], [true, true], Answers(limit, NextSerial(sn), e))
    else
      var (e, reply) := ReactToResult(d, NextSerial(sn));
      Front([Said(6, reply)], [true, true],
            if d.finishing == [] && d.later == [] then SILENCE else Answers(limit, NextSerial(sn), e))
  }

  /** The whole conversation. */
  function Conversation(limit: Limit, sn: word, d: Device): Link {
    Front([Said(1, InfoBytes(Issue(sn, 1)))], [true],
          Front([Said(2, StatusReply(Issue(sn, 2), 0))], [true],
                Front([Said(3, BlockReply(Issue(sn, 3), 0, NextOf(d.plans)))], [true],
                      Answers(limit, Issue(sn, 3), d))))
  }

  /** The error with which the upgrade ends, if it does not return, where f attempts on the block have
      failed: that of the first block whose attempts are used up. */
  function Verdict(limit: Limit, retries: int, sn: word, f: nat, d: Device): Option<OtaError>
    decreases |d.later|, |d.plans|, RefusalsLeft(d), if d.verified then 0 else 1, |d.verifying|, |d.finishing|
  {
    if d.plans != [] then
      var n, refusals := Packets(limit, d.plans[0].block.length), d.plans[0].refusals;
      var first, last := Issue(sn, 1), Issue(sn, n);
      var e := d.(first := first);
      if first <= last && refusals == [] then Verdict(limit, retries, last, 0, AfterBurst(e, last))
      else if f + 1 >= retries then Some(if first <= last then BlockRejected(refusals[0]) else Timeout)
      else if refusals != [] then Verdict(limit, retries, last, f + 1, AfterBurst(e, last))
      else Verdict(limit, retries, Issue(last, n), 0, Advance(d, Issue(last, 1)))
    else if !d.verified then Verdict(limit, retries, NextSerial(sn), 0, ReactToVerify(d, NextSerial(sn)).0)
    else if d.finishing == [] && d.later == [] then None
    else Verdict(limit, retries, NextSerial(sn), 0, ReactToResult(d, NextSerial(sn)).0)
  }

  // ---- one answer

  lemma OneMoreQuotient(x: nat, m: nat)
    requires 1 <= m <= x
    ensures x / m == (x - m) / m + 1
  {
    var q, r := (x - m) / m, (x - m) % m;
    assert x == q * m + r + m == (q + 1) * m + r;
    Quotient(x, q + 1, m, r);
  }

  lemma Quotient(x: nat, q: nat, m: nat, r: nat)
    requires 1 <= m && r < m && x == q * m + r
    ensures x / m == q
  {
    var d := x / m - q;
    assert x == (x / m) * m + x % m;
    assert d * m == (x / m) * m - q * m == r - x % m;
    AtLeastOnce(d, m);
  }

  lemma AtLeastOnce(d: int, m: int)
    requires m >= 0
    ensures (d >= 1 ==> d * m >= m) && (d <= -1 ==> d * m <= -m)
  {
  }

  lemma {:induction false} BurstCount(limit: Limit, sn: word, offset: int, data: bytes)
    requires 0 <= offset && offset + |data| <= TWO_32
    ensures |Burst(limit, sn, offset, data)| == Packets(limit, |data|)
    decreases |data|
  {
    if data == [] {
      assert Packets(limit, 0) == 0;
    } else {
      hide Packets;
      var n := if |data| < limit then |data| else limit;
      BurstCount(limit, NextSerial(sn), offset + n, data[n..]);
      OnePacketMore(limit, |data|);
    }
  }

  lemma OnePacketMore(limit: Limit, length: nat)
    requires length > 0
    ensures Packets(limit, length) == 1 + Packets(limit, if length < limit then 0 else length - limit)
  {
    if length > limit {
      OneMoreQuotient(length - 1, limit);
    } else {
      Quotient(length - 1, 0, limit, length - 1);
    }
  }

  /** A request is answered in time, with its serial number. */
  lemma AskAnswered(c: Config, r: Run, payload: bytes, m: Link)
    requires Goes(c, r) && !r.phase.Sending? && m.buf == []
    requires 2 <= |payload| <= MAX_PACKET_PAYLOAD && U16(payload, 0) == NextSerial(r.sn)
    ensures var looks := if LooksFirst(r.phase) then [true, true] else [true];
            var l := Front([Said(WantOf(c, r).opcode, payload)], looks, m);
            var next := Run(NextSerial(r.sn), AfterReply(r.phase, payload));
            && Sound(c, next)
            && Simulate(c, r, l) == Then([StepOf(c, r, Some(payload))], Simulate(c, next, m))
  {
    hide Simulate, Await, Wire, Due, AfterReply;
    var w := WantOf(c, r);
    var l := Front([Said(w.opcode, payload)], if LooksFirst(r.phase) then [true, true] else [true], m);
    var looked := AfterLook(r.phase, l);
    assert looked.clock == [true] + m.clock;
    assert looked.inbox[1..] == m.inbox && looked.clock[1..] == m.clock;
    AwaitPacket(w, looked, payload);
    OneStepTold(c, r, l, Came(payload), m);
    StepIsLegal(c, r, Some(payload));
  }

  /** The packets of the attempt that is due. */
  lemma BurstIsCounted(c: Config, r: Run)
    requires Goes(c, r) && r.phase.Sending? && Fitting(c.limit, |c.image.data|, Block(r.phase.offset, r.phase.length))
    ensures var n := Packets(c.limit, r.phase.length);
            && 1 <= n <= 32768 && WantOf(c, r) == Want(OP_SEND_DATA, Some((Issue(r.sn, 1), Issue(r.sn, n))))
            && forall reply :: |ChunksOf(c.limit, StepOf(c, r, reply))| == n
  {
    hide Burst;
    var o, k := r.phase.offset, r.phase.length;
    BurstCount(c.limit, r.sn, o, c.image.data[o..o + k]);
  }

  lemma BlockReplyRead(s: word, result: byte, b: Block)
    ensures var w := BlockReply(s, result, b);
            U16(w, 0) == s && ParseBlock(w) == Some(BlockResponse(s, result, b.offset, b.length))
  {
    BlockFields(BlockReply(s, result, b), BlockResponse(s, result, b.offset, b.length));
  }

  lemma StatusReplyRead(s: word, result: byte)
    ensures var w := StatusReply(s, result);
            && U16(w, 0) == s && ParseAsync(w) == Some(AsyncResponse(s, result))
            && ParseCanUpdate(w) == Some(CanUpdateResponse(s, result, 0))
  {
    var w := StatusReply(s, result);
    assert w[0..2] == LE16(s);
    ReadLE16(w, 0, s);
    ShortRoundTrips(w, s, result, 0);
  }

  lemma ResultReplyRead(s: word, result: byte, b: Block)
    ensures var w := ResultReply(s, result, b);
            U16(w, 0) == s && ParseUpdateResult(w) == Some(UpdateResultResponse(s, result, b.offset, b.length, 1))
  {
    UpdateResultRoundTrip(ResultReply(s, result, b), UpdateResultResponse(s, result, b.offset, b.length, 1));
  }

  function BurstPackets(crc: Crc, xs: seq<Chunk>): seq<OtaPacket> {
    seq(|xs|, k requires 0 <= k < |xs| => SendData(crc, xs[k]))
  }

  lemma OnePacketFirst(crc: Crc, x: Chunk, rest: seq<Chunk>)
    ensures BurstPackets(crc, [x] + rest) == [SendData(crc, x)] + BurstPackets(crc, rest)
  {
  }

  lemma NoPackets(crc: Crc)
    ensures BurstPackets(crc, []) == []
  {
  }

  lemma BurstCut(limit: Limit, sn: word, offset: int, data: bytes)
    requires data != [] && 0 <= offset && offset + |data| <= TWO_32
    ensures var n := if |data| < limit then |data| else limit;
            && 1 <= n <= MAX_CHUNK && |data[..n]| == n
            && Burst(limit, sn, offset, data) ==
               [Chunk(NextSerial(sn), offset, data[..n])] + Burst(limit, NextSerial(sn), offset + n, data[n..])
  {
  }

  /** What the device says to a burst, up to its last packet. */
  lemma {:induction false} BurstReaction(limit: Limit, crc: Crc, d: Device, sn: word, offset: dword, data: bytes)
    requires d.plans != [] && data != [] && offset >= d.plans[0].block.offset
    requires offset + |data| == d.plans[0].block.offset + d.plans[0].block.length <= TWO_32
    ensures var xs := Burst(limit, sn, offset, data);
            var e := if offset == d.plans[0].block.offset then d.(first := NextSerial(sn)) else d;
            var last := Issue(sn, |xs|);
            Reactions(d, BurstPackets(crc, xs)) == (AfterBurst(e, last), [Said(4, BurstReply(e, last))])
    decreases |data|
  {
    hide SendData, BurstReply, AfterBurst, Said, Burst, React, BurstPackets, NextSerial;
    var n := if |data| < limit then |data| else limit;
    BurstCut(limit, sn, offset, data);
    var x: Chunk := Chunk(NextSerial(sn), offset, data[..n]);
    var rest := Burst(limit, NextSerial(sn), offset + n, data[n..]);
    OnePacketFirst(crc, x, rest);
    ReactionToChunk(crc, d, x);
    OneReaction(d, SendData(crc, x));
    ReactionsAppend(d, [SendData(crc, x)], BurstPackets(crc, rest));
    IssueShift(sn, |rest|);
    if n == |data| {
      NoMoreChunks(limit, NextSerial(sn), offset + n, data[n..]);
      NoPackets(crc);
      assert [SendData(crc, x)] + [] == [SendData(crc, x)];
      assert Issue(NextSerial(sn), 0) == NextSerial(sn);
    } else {
      var e := if offset == d.plans[0].block.offset then d.(first := NextSerial(sn)) else d;
      BurstReaction(limit, crc, e, NextSerial(sn), offset + n, data[n..]);
      assert [] + Reactions(e, BurstPackets(crc, rest)).1 == Reactions(e, BurstPackets(crc, rest)).1;
    }
  }

  lemma NoMoreChunks(limit: Limit, sn: word, offset: int, data: bytes)
    requires data == [] && 0 <= offset <= TWO_32
    ensures Burst(limit, sn, offset, data) == []
  {
  }

  lemma ReactionToChunk(crc: Crc, d: Device, x: Chunk)
    requires d.plans != []
    ensures var b := d.plans[0].block;
            var e := if x.offset == b.offset then d.(first := x.sn) else d;
            React(d, SendData(crc, x)) ==
              if x.offset + |x.data| != b.offset + b.length then (e, [])
              else (AfterBurst(e, x.sn), [Said(4, BurstReply(e, x.sn))])
  {
    hide BurstReply, AfterBurst, Said, U16, U32;
    SendDataFields(crc, x);
    assert SendData(crc, x).opcode == 4;
  }

  /** The phase in which the client is when the device is here and f attempts on the block have failed. */
  function PhaseWith(d: Device, f: nat): Phase {
    if d.plans != [] then Sending(d.plans[0].block.offset, d.plans[0].block.length, f)
    else if d.verified then Finishing
    else Verifying
  }

  /** The client knows of this burst what the device says, unless it cannot hear it. */
  function Heard(d: Device, s: word): Option<bytes>
    requires d.plans != []
  {
    if d.first <= s then Some(BurstReply(d, s)) else None
  }

  /** One burst, and what comes of it on both sides. */
  lemma BurstAnswered(c: Config, crc: Crc, sn: word, f: nat, d: Device, m: Link)
    requires d.plans != [] && Goes(c, Run(sn, PhaseWith(d, f))) && m.buf == []
    requires Fitting(c.limit, |c.image.data|, d.plans[0].block)
    ensures var r, n := Run(sn, PhaseWith(d, f)), Packets(c.limit, d.plans[0].block.length);
            var e, last := d.(first := Issue(sn, 1)), Issue(sn, n);
            var step, said := StepOf(c, r, Heard(e, last)), [Said(4, BurstReply(e, last))];
            var next := Next(c, r, step);
            var clock := if Issue(sn, 1) <= last then [true] else [true, false];
            && Sound(c, next) && next == Run(last, AfterAttempt(c, r.phase, Heard(e, last)))
            && Simulate(c, r, Front(said, clock, m)) == Then([step], Simulate(c, next, m))
            && Reactions(d, StepPackets(crc, c.limit, step)) == (AfterBurst(e, last), said)
            && step.Attempt? && step.reply == Heard(e, last)
            && step.offset == d.plans[0].block.offset && |step.data| == d.plans[0].block.length
  {
    hide Simulate, Await, Wire, Issue, ParseBlock, Fitting, Packets, AfterBurst, Reactions;
    var r, b := Run(sn, PhaseWith(d, f)), d.plans[0].block;
    var n := Packets(c.limit, b.length);
    var e, last := d.(first := Issue(sn, 1)), Issue(sn, n);
    var payload := BurstReply(e, last);
    BurstIsCounted(c, r);
    BurstReplyRead(e, last);
    var data := c.image.data[b.offset..b.offset + b.length];
    FirstIssue(sn);
    BurstReaction(c.limit, crc, d, sn, b.offset, data);
    BurstHeard(c, r, payload, last, m);
    var step := StepOf(c, r, Heard(e, last));
    StepIsLegal(c, r, Heard(e, last));
    AttemptStep(c, r, step);
  }

  lemma FirstIssue(sn: word)
    ensures Issue(sn, 1) == NextSerial(sn)
  {
    assert Issue(sn, 0) == sn;
  }

  lemma BurstReplyRead(d: Device, s: word)
    requires d.plans != []
    ensures U16(BurstReply(d, s), 0) == s && ParseBlock(BurstReply(d, s)).Some?
  {
    var plan := d.plans[0];
    if plan.refusals != [] {
      BlockReplyRead(s, plan.refusals[0], plan.block);
    } else {
      BlockReplyRead(s, 0, NextOf(d.plans[1..]));
    }
  }

  lemma AttemptStep(c: Config, r: Run, step: Step)
    requires Goes(c, r) && r.phase.Sending? && step == StepOf(c, r, step.reply) && LegalAttempt(c, r, step)
    ensures var o, n := r.phase.offset, r.phase.length; step == Attempt(r.sn, o, c.image.data[o..o + n], step.reply)
    ensures Next(c, r, step) == Run(Issue(r.sn, |ChunksOf(c.limit, step)|), AfterAttempt(c, r.phase, step.reply))
    ensures ChunksOf(c.limit, step) == Burst(c.limit, r.sn, step.offset, step.data)
  {
  }

  /** The client hears a reply under the last serial number of its burst exactly if that is not below the
      first. */
  lemma BurstHeard(c: Config, r: Run, payload: bytes, last: word, m: Link)
    requires Goes(c, r) && r.phase.Sending? && m.buf == []
    requires WantOf(c, r) == Want(OP_SEND_DATA, Some((Issue(r.sn, 1), last)))
    requires 2 <= |payload| <= MAX_PACKET_PAYLOAD && U16(payload, 0) == last
    ensures var heard := Issue(r.sn, 1) <= last;
            var l := Front([Said(4, payload)], if heard then [true] else [true, false], m);
            var reply := if heard then Some(payload) else None;
            && (heard ==> Expected(WantOf(c, r), payload))
            && Sound(c, Next(c, r, StepOf(c, r, reply)))
            && Simulate(c, r, l) == Then([StepOf(c, r, reply)], Simulate(c, Next(c, r, StepOf(c, r, reply)), m))
  {
    hide Simulate, Wire, Issue, StepOf, WantOf, Goes, Next;
    var w, heard := WantOf(c, r), Issue(r.sn, 1) <= last;
    var l := Front([Said(4, payload)], if heard then [true] else [true, false], m);
    var rest := Link([], m.inbox, if heard then m.clock else [false] + m.clock);
    assert l.inbox[1..] == m.inbox && l.clock[1..] == rest.clock;
    AwaitPacket(w, l, payload);
    if heard {
      OneStepTold(c, r, l, Came(payload), m);
    } else {
      assert rest.clock[1..] == m.clock;
      OneStepTold(c, r, l, TimedOut, m);
    }
  }

  // ---- block after block

  predicate AcknowledgedIn(steps: seq<Step>, b: Block) {
    exists k :: 0 <= k < |steps| && Acknowledged(steps[k]) && steps[k].offset == b.offset && |steps[k].data| == b.length
  }

  predicate AllAcknowledged(steps: seq<Step>, plans: seq<Plan>) {
    forall i :: 0 <= i < |plans| ==> AcknowledgedIn(steps, plans[i].block)
  }

  /** The plans of all the rounds to come. */
  function PlansOf(rounds: seq<Round>): seq<Plan> {
    if rounds == [] then [] else rounds[0].plans + PlansOf(rounds[1..])
  }

  function AllPlans(d: Device): seq<Plan> {
    d.plans + PlansOf(d.later)
  }

  lemma AcknowledgedLater(step: Step, steps: seq<Step>, plans: seq<Plan>)
    requires AllAcknowledged(steps, plans)
    ensures AllAcknowledged([step] + steps, plans)
  {
    forall i | 0 <= i < |plans| ensures AcknowledgedIn([step] + steps, plans[i].block) {
      var b := plans[i].block;
      assert AcknowledgedIn(steps, b);
      var k :| 0 <= k < |steps| && Acknowledged(steps[k]) && steps[k].offset == b.offset && |steps[k].data| == b.length;
      assert ([step] + steps)[k + 1] == steps[k];
    }
  }

  lemma AcknowledgedNow(step: Step, steps: seq<Step>, plans: seq<Plan>)
    requires plans != [] && Acknowledged(step) && AllAcknowledged(steps, plans[1..])
    requires step.offset == plans[0].block.offset && |step.data| == plans[0].block.length
    ensures AllAcknowledged([step] + steps, plans)
  {
    AcknowledgedLater(step, steps, plans[1..]);
    assert ([step] + steps)[0] == step;
    forall i | 0 <= i < |plans| ensures AcknowledgedIn([step] + steps, plans[i].block) {
      if i > 0 {
        assert AcknowledgedIn([step] + steps, plans[1..][i - 1].block);
      }
    }
  }

  /** The upgrade has returned with every block acknowledged, and the script is what the device has said
      to the packets sent; or it has ended with this error. */
  predicate EndsAs(c: Config, crc: Crc, verdict: Option<OtaError>, d: Device, inbox: seq<bytes>, t: Told) {
    match verdict
    case Some(error) => t.ending == Raised(error)
    case None =>
      && t.ending.Done? && AllAcknowledged(t.steps, AllPlans(d))
      && Reactions(d, PacketsIn(crc, c.limit, t.steps)).1 == inbox
  }

  /** One step more in front of an end. */
  lemma EndsOneMore(c: Config, crc: Crc, verdict: Option<OtaError>, d: Device, e: Device, step: Step,
                    said: seq<bytes>, inbox: seq<bytes>, t: Told)
    requires EndsAs(c, crc, verdict, e, inbox, t)
    requires Reactions(d, StepPackets(crc, c.limit, step)) == (e, said)
    requires verdict.None? && AllAcknowledged(t.steps, AllPlans(e)) ==>
               AllAcknowledged([step] + t.steps, AllPlans(d))
    ensures EndsAs(c, crc, verdict, d, said + inbox, Then([step], t))
  {
    hide AllAcknowledged, React, AllPlans;
    PacketsAppend(crc, c.limit, [step], t.steps);
    OneStepPackets(crc, c.limit, step);
    ReactionsAppend(d, StepPackets(crc, c.limit, step), PacketsIn(crc, c.limit, t.steps));
  }

  /** The blocks left after a step that acknowledged none. */
  lemma SamePlans(step: Step, t: seq<Step>, d: Device, e: Device)
    requires |AllPlans(d)| == |AllPlans(e)|
    requires forall i :: 0 <= i < |AllPlans(d)| ==> AllPlans(d)[i].block == AllPlans(e)[i].block
    ensures AllAcknowledged(t, AllPlans(e)) ==> AllAcknowledged([step] + t, AllPlans(d))
  {
    hide AllPlans, AcknowledgedIn;
    if AllAcknowledged(t, AllPlans(e)) {
      AcknowledgedLater(step, t, AllPlans(e));
      forall i | 0 <= i < |AllPlans(d)| ensures AcknowledgedIn([step] + t, AllPlans(d)[i].block) {
        assert AcknowledgedIn([step] + t, AllPlans(e)[i].block);
      }
    }
  }

  lemma AnswersBuffer(limit: Limit, sn: word, d: Device)
    ensures Answers(limit, sn, d).buf == []
  {
  }

  lemma PhaseIsSound(c: Config, sn: word, f: nat, d: Device)
    requires Usable(c.image) && f < c.retries && DeviceOk(c.limit, |c.image.data|, d) && (d.plans == [] ==> f == 0)
    ensures Goes(c, Run(sn, PhaseWith(d, f)))
    ensures PlansOk(c.limit, |c.image.data|, d.plans)
    ensures d.plans != [] ==>
              Fitting(c.limit, |c.image.data|, d.plans[0].block) && 0 !in d.plans[0].refusals && !d.verified
    ensures !d.verified ==> Requested(NextOf(d.plans).offset, NextOf(d.plans).length) == PhaseWith(d, 0)
  {
    if d.plans != [] {
      assert PlanOk(c.limit, |c.image.data|, d.plans[0]);
    }
  }

  // ---- the polls

  lemma RequestReaction(d: Device, opcode: byte, s: word, body: RequestBody)
    ensures opcode == 1 ==> React(d, AskPacket(opcode, s, body)) == (d, [Said(1, InfoBytes(s))])
    ensures opcode == 2 ==> React(d, AskPacket(opcode, s, body)) == (d, [Said(2, StatusReply(s, 0))])
    ensures opcode == 3 ==> React(d, AskPacket(opcode, s, body)) == (d, [Said(3, BlockReply(s, 0, NextOf(d.plans)))])
    ensures opcode == 5 ==>
              var (e, reply) := ReactToVerify(d, s);
              React(d, AskPacket(opcode, s, body)) == (e, [Said(5, reply)])
    ensures opcode == 6 ==>
              var (e, reply) := ReactToResult(d, s);
              React(d, AskPacket(opcode, s, body)) == (e, [Said(6, reply)])
  {
    hide U16, LE16, Said, InfoBytes, StatusReply, BlockReply, ReactToVerify, ReactToResult;
    var w := AskPacket(opcode, s, body).payload;
    assert w[0..2] == LE16(s);
    ReadLE16(w, 0, s);
  }

  /** A request, and what comes of it on both sides. */
  lemma RequestAnswered(c: Config, crc: Crc, r: Run, d: Device, e: Device, payload: bytes, m: Link)
    requires Goes(c, r) && !r.phase.Sending? && m.buf == []
    requires 2 <= |payload| <= MAX_PACKET_PAYLOAD && U16(payload, 0) == NextSerial(r.sn)
    requires var opcode := Due(c, r.phase).value.0;
             forall body :: React(d, AskPacket(opcode, NextSerial(r.sn), body)) == (e, [Said(opcode, payload)])
    ensures var opcode, step := Due(c, r.phase).value.0, StepOf(c, r, Some(payload));
            var looks := if LooksFirst(r.phase) then [true, true] else [true];
            var l := Front([Said(opcode, payload)], looks, m);
            var next := Run(NextSerial(r.sn), AfterReply(r.phase, payload));
            && Sound(c, next) && Simulate(c, r, l) == Then([step], Simulate(c, next, m))
            && Reactions(d, StepPackets(crc, c.limit, step)) == (e, [Said(opcode, payload)])
  {
    hide Simulate, React, AfterReply, Said, AskPacket;
    AskAnswered(c, r, payload, m);
    var step := StepOf(c, r, Some(payload));
    OneReaction(d, AskPacket(step.opcode, step.sn, step.body));
  }

  lemma VerifyAnswered(c: Config, crc: Crc, sn: word, d: Device, m: Link)
    requires Goes(c, Run(sn, Verifying)) && m.buf == [] && Busy(d.verifying) && d.plans == [] && !d.verified
    ensures var s, r := NextSerial(sn), Run(sn, Verifying);
            var (e, reply) := ReactToVerify(d, s);
            var step, said := StepOf(c, r, Some(reply)), [Said(5, reply)];
            && Simulate(c, r, Front(said, [true, true], m)) == Then([step], Simulate(c, Run(s, PhaseWith(e, 0)), m))
            && Sound(c, Run(s, PhaseWith(e, 0)))
            && Reactions(d, StepPackets(crc, c.limit, step)) == (e, said)
  {
    hide Simulate, Said, React, Reactions, StepPackets, StatusReply, ParseAsync, StepOf;
    var s := NextSerial(sn);
    var (e, reply) := ReactToVerify(d, s);
    StatusReplyRead(s, if d.verifying != [] then d.verifying[0] else 0);
    forall body ensures React(d, AskPacket(5, s, body)) == (e, [Said(5, reply)]) {
      RequestReaction(d, 5, s, body);
    }
    RequestAnswered(c, crc, Run(sn, Verifying), d, e, reply, m);
  }

  lemma ResultAnswered(c: Config, crc: Crc, sn: word, d: Device, m: Link)
    requires Goes(c, Run(sn, Finishing)) && m.buf == [] && Busy(d.finishing) && d.plans == [] && d.verified
    requires d.later != [] ==> d.later[0].plans != [] && 0 < d.later[0].plans[0].block.length
    ensures var s, r := NextSerial(sn), Run(sn, Finishing);
            var (e, reply) := ReactToResult(d, s);
            var step, said := StepOf(c, r, Some(reply)), [Said(6, reply)];
            var over := d.finishing == [] && d.later == [];
            var phase := if over then Complete(UpdateResultResponse(s, 0, 0, 0, 1)) else PhaseWith(e, 0);
            && Simulate(c, r, Front(said, [true, true], m)) == Then([step], Simulate(c, Run(s, phase), m))
            && Sound(c, Run(s, phase))
            && Reactions(d, StepPackets(crc, c.limit, step)) == (e, said)
  {
    hide Simulate, Said, React, Reactions, StepPackets, ResultReply, ParseUpdateResult, StepOf;
    var s := NextSerial(sn);
    var (e, reply) := ReactToResult(d, s);
    ResultReplyRead(s, if d.finishing != [] then d.finishing[0] else 0,
                    if d.finishing != [] || d.later == [] then Block(0, 0) else NextOf(d.later[0].plans));
    forall body ensures React(d, AskPacket(6, s, body)) == (e, [Said(6, reply)]) {
      RequestReaction(d, 6, s, body);
    }
    RequestAnswered(c, crc, Run(sn, Finishing), d, e, reply, m);
  }

  // ---- to the end

  /** The client cannot hear an answer to the next burst. */
  predicate Deaf(limit: Limit, sn: word, d: Device) {
    d.plans != [] && Issue(sn, Packets(limit, d.plans[0].block.length)) < Issue(sn, 1)
  }

  lemma AfterBurstOk(limit: Limit, fileLen: nat, d: Device, first: word, s: word)
    requires DeviceOk(limit, fileLen, d) && d.plans != []
    ensures DeviceOk(limit, fileLen, AfterBurst(d.(first := first), s)) && DeviceOk(limit, fileLen, d.(first := first))
  {
    var e := AfterBurst(d.(first := first), s);
    assert PlanOk(limit, fileLen, d.plans[0]);
    forall i | 0 <= i < |e.plans| ensures PlanOk(limit, fileLen, e.plans[i]) {
      if |e.plans| < |d.plans| {
        assert PlanOk(limit, fileLen, d.plans[i + 1]);
      } else {
        assert PlanOk(limit, fileLen, d.plans[i]);
      }
    }
  }

  lemma BurstShrinks(d: Device, first: word, s: word)
    requires d.plans != []
    ensures var e := AfterBurst(d.(first := first), s);
            && e.later == d.later && e.verified == d.verified
            && e.verifying == d.verifying && e.finishing == d.finishing
            && if d.plans[0].refusals != [] then |e.plans| == |d.plans| && RefusalsLeft(e) == RefusalsLeft(d) - 1
               else if first <= s then |e.plans| == |d.plans| - 1
               else e == d.(first := first)
  {
  }

  lemma BurstPlans(d: Device, first: word, s: word)
    requires d.plans != []
    ensures var e := AfterBurst(d.(first := first), s);
            if d.plans[0].refusals == [] && first <= s then AllPlans(e) == AllPlans(d)[1..]
            else |AllPlans(e)| == |AllPlans(d)|
                 && forall i :: 0 <= i < |AllPlans(d)| ==> AllPlans(d)[i].block == AllPlans(e)[i].block
  {
    hide PlansOf;
  }

  lemma PollPlans(d: Device, s: word)
    requires d.plans == []
    ensures AllPlans(ReactToVerify(d, s).0) == AllPlans(d) == AllPlans(ReactToResult(d, s).0)
  {
    assert [] + PlansOf(d.later) == PlansOf(d.later);
  }

  lemma PollOk(limit: Limit, fileLen: nat, d: Device, s: word)
    requires DeviceOk(limit, fileLen, d) && d.plans == []
    ensures DeviceOk(limit, fileLen, ReactToVerify(d, s).0)
    ensures DeviceOk(limit, fileLen, ReactToResult(d, s).0)
    ensures d.later != [] ==> d.later[0].plans != [] && 0 < d.later[0].plans[0].block.length
  {
    if d.later != [] {
      assert RoundOk(limit, fileLen, d.later[0]) && d.later[0].plans != [];
      assert PlanOk(limit, fileLen, d.later[0].plans[0]);
    }
  }

  /** Whatever is still to come, the upgrade ends as the device's plans have it. */
  lemma {:induction false} EndsFrom(c: Config, crc: Crc, sn: word, f: nat, d: Device)
    requires Usable(c.image) && f < c.retries && DeviceOk(c.limit, |c.image.data|, d) && (d.plans == [] ==> f == 0)
    ensures Sound(c, Run(sn, PhaseWith(d, f)))
    ensures EndsAs(c, crc, Verdict(c.limit, c.retries, sn, f, d), d, Answers(c.limit, sn, d).inbox,
                   Simulate(c, Run(sn, PhaseWith(d, f)), Answers(c.limit, sn, d)))
    decreases |d.later|, |d.plans|, RefusalsLeft(d), if d.verified then 0 else 1, |d.verifying|, |d.finishing|,
              if Deaf(c.limit, sn, d) then 1 else 0, 1
  {
    PhaseIsSound(c, sn, f, d);
    if d.plans != [] {
      BurstEnds(c, crc, sn, f, d);
    } else {
      PollsEnd(c, crc, sn, d);
    }
  }

  lemma {:induction false} BurstEnds(c: Config, crc: Crc, sn: word, f: nat, d: Device)
    requires Usable(c.image) && f < c.retries && DeviceOk(c.limit, |c.image.data|, d) && d.plans != []
    requires Goes(c, Run(sn, PhaseWith(d, f)))
    ensures EndsAs(c, crc, Verdict(c.limit, c.retries, sn, f, d), d, Answers(c.limit, sn, d).inbox,
                   Simulate(c, Run(sn, PhaseWith(d, f)), Answers(c.limit, sn, d)))
    decreases |d.later|, |d.plans|, RefusalsLeft(d), if d.verified then 0 else 1, |d.verifying|, |d.finishing|,
              if Deaf(c.limit, sn, d) then 1 else 0, 0
  {
    hide Simulate, Issue, Goes, Sound, EndsAs, Reactions, StepPackets, Said, BurstReply, DeviceOk, AllPlans, StepOf,
         AllAcknowledged, Packets, Fitting, BlockReply, AfterBurst, Next, Heard;
    var r, n := Run(sn, PhaseWith(d, f)), Packets(c.limit, d.plans[0].block.length);
    var first, last := Issue(sn, 1), Issue(sn, n);
    var e := d.(first := first);
    var after, said := AfterBurst(e, last), [Said(4, BurstReply(e, last))];
    PhaseIsSound(c, sn, f, d);
    AfterBurstOk(c.limit, |c.image.data|, d, first, last);
    BurstPlans(d, first, last);
    BurstShrinks(d, first, last);
    var m := if Deaf(c.limit, sn, d) && d.plans[0].refusals == [] then AfterDeaf(c.limit, last, n, d)
             else Answers(c.limit, last, after);
    assert m.buf == [] by {
      AnswersBuffer(c.limit, last, after);
    }
    BurstAnswered(c, crc, sn, f, d, m);
    var step := StepOf(c, r, Heard(e, last));
    var next := Next(c, r, step);
    BurstLeads(c, r, d, f, e, last);
    if next.phase.Aborted? {
      SettledIsTold(c, next, m, Raised(next.phase.error));
      AbortedEnds(c, crc, d, Answers(c.limit, sn, d).inbox, next.phase.error, step);
    } else if Deaf(c.limit, sn, d) && d.plans[0].refusals == [] {
      DeafThenHeard(c, sn, f, d);
      EndsFrom(c, crc, last, f + 1, e);
      SamePlans(step, Simulate(c, next, m).steps, d, after);
      EndsOneMore(c, crc, Verdict(c.limit, c.retries, last, f + 1, e), d, after, step, said, m.inbox,
                  Simulate(c, next, m));
    } else {
      var g := if d.plans[0].refusals == [] then 0 else f + 1;
      EndsFrom(c, crc, last, g, after);
      BlockCounted(c, step, Simulate(c, next, m).steps, d, e, last);
      EndsOneMore(c, crc, Verdict(c.limit, c.retries, last, g, after), d, after, step, said, m.inbox,
                  Simulate(c, next, m));
    }
  }

  /** The script behind an acknowledgement that is not heard. */
  function AfterDeaf(limit: Limit, last: word, n: nat, d: Device): Link
    requires d.plans != []
  {
    Front([Said(4, BlockReply(Issue(last, n), 0, NextOf(d.plans[1..])))], [true],
          Answers(limit, Issue(last, n), Advance(d, Issue(last, 1))))
  }

  /** It is what comes if the device is asked again, and this time it is heard. */
  lemma DeafThenHeard(c: Config, sn: word, f: nat, d: Device)
    requires d.plans != [] && d.plans[0].refusals == [] && Fitting(c.limit, |c.image.data|, d.plans[0].block)
    requires Deaf(c.limit, sn, d)
    ensures var n := Packets(c.limit, d.plans[0].block.length);
            var last, e := Issue(sn, n), d.(first := Issue(sn, 1));
            && !Deaf(c.limit, last, e) && Answers(c.limit, last, e) == AfterDeaf(c.limit, last, n, d)
            && Verdict(c.limit, c.retries, last, f + 1, e)
               == Verdict(c.limit, c.retries, Issue(last, n), 0, Advance(d, Issue(last, 1)))
  {
    hide Issue, Said;
    var n := Packets(c.limit, d.plans[0].block.length);
    assert 1 <= n;
    WrapRefusesOnce(sn, n);
  }

  /** Where a burst leads: to the next block, to another attempt, or to the end. */
  lemma BurstLeads(c: Config, r: Run, d: Device, f: nat, e: Device, last: word)
    requires d.plans != [] && r.phase == PhaseWith(d, f) && Goes(c, r)
    requires e == d.(first := e.first) && 0 !in d.plans[0].refusals && !d.verified
    requires PlansOk(c.limit, |c.image.data|, d.plans)
    ensures var heard, refusals := e.first <= last, d.plans[0].refusals;
            var phase := AfterAttempt(c, r.phase, Heard(e, last));
            phase == if heard && refusals == [] then PhaseWith(AfterBurst(e, last), 0)
                     else if f + 1 < c.retries then PhaseWith(AfterBurst(e, last), f + 1)
                     else Aborted(if heard then BlockRejected(refusals[0]) else Timeout)
    ensures Heard(e, last).Some? && d.plans[0].refusals == [] ==>
              ParseBlock(BurstReply(e, last)).Some? && ParseBlock(BurstReply(e, last)).value.result == 0
  {
    hide BlockReply, ParseBlock;
    var plan, later := d.plans[0], d.plans[1..];
    if plan.refusals != [] {
      BlockReplyRead(last, plan.refusals[0], plan.block);
    } else {
      BlockReplyRead(last, 0, NextOf(later));
    }
    if later != [] {
      assert PlanOk(c.limit, |c.image.data|, d.plans[1]);
    }
  }

  lemma AbortedEnds(c: Config, crc: Crc, d: Device, inbox: seq<bytes>, error: OtaError, step: Step)
    ensures EndsAs(c, crc, Some(error), d, inbox, Then([step], Told([], Raised(error))))
  {
  }

  /** The blocks left after a burst that was heard. */
  lemma BlockCounted(c: Config, step: Step, t: seq<Step>, d: Device, e: Device, last: word)
    requires d.plans != [] && e == d.(first := e.first) && step.Attempt? && step.reply == Heard(e, last)
    requires e.first <= last || d.plans[0].refusals != []
    requires step.offset == d.plans[0].block.offset && |step.data| == d.plans[0].block.length
    requires d.plans[0].refusals == [] ==>
               ParseBlock(BurstReply(e, last)).Some? && ParseBlock(BurstReply(e, last)).value.result == 0
    ensures AllAcknowledged(t, AllPlans(AfterBurst(e, last))) ==> AllAcknowledged([step] + t, AllPlans(d))
  {
    hide AllAcknowledged, PlansOf, ParseBlock, BurstReply;
    BurstPlans(d, e.first, last);
    if d.plans[0].refusals == [] {
      if AllAcknowledged(t, AllPlans(AfterBurst(e, last))) {
        assert AllPlans(d)[0] == d.plans[0];
        AcknowledgedNow(step, t, AllPlans(d));
      }
    } else {
      SamePlans(step, t, d, AfterBurst(e, last));
    }
  }

  lemma {:induction false} PollsEnd(c: Config, crc: Crc, sn: word, d: Device)
    requires Usable(c.image) && 1 <= c.retries && DeviceOk(c.limit, |c.image.data|, d) && d.plans == []
    requires Goes(c, Run(sn, PhaseWith(d, 0)))
    ensures EndsAs(c, crc, Verdict(c.limit, c.retries, sn, 0, d), d, Answers(c.limit, sn, d).inbox,
                   Simulate(c, Run(sn, PhaseWith(d, 0)), Answers(c.limit, sn, d)))
    decreases |d.later|, |d.plans|, RefusalsLeft(d), if d.verified then 0 else 1, |d.verifying|, |d.finishing|,
              if Deaf(c.limit, sn, d) then 1 else 0, 0
  {
    hide Simulate, Goes, Sound, EndsAs, Reactions, StepPackets, Said, DeviceOk, AllPlans, StepOf, AllAcknowledged,
         StatusReply, ResultReply;
    var s := NextSerial(sn);
    PollOk(c.limit, |c.image.data|, d, s);
    PollPlans(d, s);
    assert Busy(d.verifying) && Busy(d.finishing) by {
      BusyDevice(c.limit, |c.image.data|, d);
    }
    var over := d.verified && d.finishing == [] && d.later == [];
    var (e, reply) := if d.verified then ReactToResult(d, s) else ReactToVerify(d, s);
    var m := if over then SILENCE else Answers(c.limit, s, e);
    AnswersBuffer(c.limit, s, e);
    var step := StepOf(c, Run(sn, PhaseWith(d, 0)), Some(reply));
    var said := [Said(if d.verified then 6 else 5, reply)];
    if d.verified {
      ResultAnswered(c, crc, sn, d, m);
    } else {
      VerifyAnswered(c, crc, sn, d, m);
    }
    if over {
      var result := UpdateResultResponse(s, 0, 0, 0, 1);
      SettledIsTold(c, Run(s, Complete(result)), SILENCE, Done(result));
      OverEnds(c, crc, e, result);
      SamePlans(step, [], d, e);
      EndsOneMore(c, crc, None, d, e, step, said, [], Told([], Done(result)));
    } else {
      EndsFrom(c, crc, s, 0, e);
      SamePlans(step, Simulate(c, Run(s, PhaseWith(e, 0)), m).steps, d, e);
      EndsOneMore(c, crc, Verdict(c.limit, c.retries, s, 0, e), d, e, step, said, m.inbox,
                  Simulate(c, Run(s, PhaseWith(e, 0)), m));
    }
  }

  lemma BusyDevice(limit: Limit, fileLen: nat, d: Device)
    requires DeviceOk(limit, fileLen, d)
    ensures Busy(d.verifying) && Busy(d.finishing)
  {
  }

  lemma OverEnds(c: Config, crc: Crc, e: Device, result: UpdateResultResponse)
    requires e.plans == [] && e.later == []
    ensures EndsAs(c, crc, None, e, [], Told([], Done(result)))
  {
  }

  /** The upgrade with such a device ends as its plans have it: it returns with every block of every round
      acknowledged, and the script is just what the device says to the packets it reads; or it ends with the
      error of the first block whose attempts were used up. */
  lemma ConversationEndsWell(c: Config, crc: Crc, sn: word, d: Device)
    requires Usable(c.image) && c.retries >= 1 && DeviceOk(c.limit, |c.image.data|, d) && !d.verified
    ensures var l := Conversation(c.limit, sn, d);
            EndsAs(c, crc, Verdict(c.limit, c.retries, Issue(sn, 3), 0, d), d, l.inbox,
                   Simulate(c, Run(sn, Opening), l))
  {
    hide Simulate, Answers, DeviceOk, Said, BlockReply, InfoBytes, StatusReply, ParseDeviceInfo, ParseBlock,
         ParseCanUpdate, StepOf, AllAcknowledged, EndsAs, Reactions, StepPackets, React, Issue, Verdict, Requested;
    var s1, s2, s3 := Issue(sn, 1), Issue(sn, 2), Issue(sn, 3);
    FirstThree(sn);
    var reply := BlockReply(s3, 0, NextOf(d.plans));
    var l3 := Answers(c.limit, s3, d);
    var l2 := Front([Said(3, reply)], [true], l3);
    var l1 := Front([Said(2, StatusReply(s2, 0))], [true], l2);
    AnswersBuffer(c.limit, s3, d);
    PhaseIsSound(c, s3, 0, d);
    InfoReply(s1);
    StatusReplyRead(s2, 0);
    BlockReplyRead(s3, 0, NextOf(d.plans));
    forall body ensures React(d, AskPacket(1, s1, body)) == (d, [Said(1, InfoBytes(s1))]) {
      RequestReaction(d, 1, s1, body);
    }
    forall body ensures React(d, AskPacket(2, s2, body)) == (d, [Said(2, StatusReply(s2, 0))]) {
      RequestReaction(d, 2, s2, body);
    }
    forall body ensures React(d, AskPacket(3, s3, body)) == (d, [Said(3, reply)]) {
      RequestReaction(d, 3, s3, body);
    }
    OpeningGoes(c, sn, s1, s2);
    RequestAnswered(c, crc, Run(sn, Opening), d, d, InfoBytes(s1), l1);
    RequestAnswered(c, crc, Run(s1, Informed), d, d, StatusReply(s2, 0), l2);
    RequestAnswered(c, crc, Run(s2, Admitted), d, d, reply, l3);
    EndsFrom(c, crc, s3, 0, d);
    var verdict := Verdict(c.limit, c.retries, s3, 0, d);
    var t3 := Simulate(c, Run(s3, PhaseWith(d, 0)), l3);
    RequestInFront(c, crc, verdict, d, 3, StepOf(c, Run(s2, Admitted), Some(reply)), reply, l3, t3);
    RequestInFront(c, crc, verdict, d, 2, StepOf(c, Run(s1, Informed), Some(StatusReply(s2, 0))), StatusReply(s2, 0),
                   l2, Simulate(c, Run(s2, Admitted), l2));
    RequestInFront(c, crc, verdict, d, 1, StepOf(c, Run(sn, Opening), Some(InfoBytes(s1))), InfoBytes(s1), l1,
                   Simulate(c, Run(s1, Informed), l1));
  }

  lemma FirstThree(sn: word)
    ensures var s1, s2, s3 := Issue(sn, 1), Issue(sn, 2), Issue(sn, 3);
            s1 == NextSerial(sn) && s2 == NextSerial(s1) && s3 == NextSerial(s2)
  {
    assert Issue(sn, 0) == sn;
  }

  lemma OpeningGoes(c: Config, sn: word, s1: word, s2: word)
    requires Usable(c.image)
    ensures Goes(c, Run(sn, Opening)) && Goes(c, Run(s1, Informed)) && Goes(c, Run(s2, Admitted))
    ensures Due(c, Opening).Some? && Due(c, Opening).value.0 == 1
    ensures Due(c, Informed).Some? && Due(c, Informed).value.0 == 2
    ensures Due(c, Admitted).Some? && Due(c, Admitted).value.0 == 3
  {
  }

  lemma RequestInFront(c: Config, crc: Crc, verdict: Option<OtaError>, d: Device, opcode: byte, step: Step,
                       payload: bytes, m: Link, t: Told)
    requires EndsAs(c, crc, verdict, d, m.inbox, t) && |payload| <= MAX_PACKET_PAYLOAD
    requires Reactions(d, StepPackets(crc, c.limit, step)) == (d, [Said(opcode, payload)])
    ensures EndsAs(c, crc, verdict, d, Front([Said(opcode, payload)], [true], m).inbox, Then([step], t))
  {
    hide EndsAs, Reactions, Said, AllAcknowledged, AllPlans;
    SamePlans(step, t.steps, d, d);
    EndsOneMore(c, crc, verdict, d, d, step, [Said(opcode, payload)], m.inbox, t);
  }

  // ---- a poll that takes too long

  function BusyLeft(d: Device): nat {
    if d.verified then |d.finishing| else |d.verifying|
  }

  /** The device says that it is in progress as often as it plans to, and then the deadline passes. */
  function BusyScript(sn: word, d: Device): Link
    decreases BusyLeft(d)
  {
    var s := NextSerial(sn);
    if BusyLeft(d) == 0 then Link([], [], [false])
    else
      var (e, reply) := if d.verified then ReactToResult(d, s) else ReactToVerify(d, s);
      Front([Said(if d.verified then 6 else 5, reply)], [true, true], BusyScript(s, e))
  }

  /** The client polls as long as the device is in progress and the deadline lies ahead, and gives up when it
      has passed. */
  lemma {:induction false} DeadlineEndsPolls(c: Config, crc: Crc, sn: word, d: Device)
    requires Usable(c.image) && 1 <= c.retries && DeviceOk(c.limit, |c.image.data|, d) && d.plans == []
    ensures Goes(c, Run(sn, PhaseWith(d, 0)))
    ensures var t := Simulate(c, Run(sn, PhaseWith(d, 0)), BusyScript(sn, d));
            t.ending == Raised(PollTimeout) && |t.steps| == BusyLeft(d)
    decreases BusyLeft(d)
  {
    hide Simulate, Goes, DeviceOk, StepOf, StatusReply, ResultReply, Reactions, Said;
    var s, m := NextSerial(sn), BusyScript(sn, d);
    PhaseIsSound(c, sn, 0, d);
    if BusyLeft(d) == 0 {
      GoesIsSound(c, Run(sn, PhaseWith(d, 0)));
      SettledIsTold(c, Run(sn, PhaseWith(d, 0)), m, Raised(PollTimeout));
    } else {
      var e := if d.verified then ReactToResult(d, s).0 else ReactToVerify(d, s).0;
      PollOk(c.limit, |c.image.data|, d, s);
      BusyDevice(c.limit, |c.image.data|, d);
      DeadlineEndsPolls(c, crc, s, e);
      if d.verified {
        ResultAnswered(c, crc, sn, d, BusyScript(s, e));
      } else {
        VerifyAnswered(c, crc, sn, d, BusyScript(s, e));
      }
    }
  }

  lemma GoesIsSound(c: Config, r: Run)
    requires Goes(c, r)
    ensures Sound(c, r) && Stops(c, r.phase).None?
  {
  }

  // ---- which plans succeed

  /** The serial number before the burst that is acknowledged, if all go out. */
  function StartOf(limit: Limit, sn: word, p: Plan): word {
    Issue(sn, |p.refusals| * Packets(limit, p.block.length))
  }

  /** The acknowledgement has to be ignored once, because its burst goes past the last serial number. */
  predicate Unheard(limit: Limit, sn: word, p: Plan) {
    Issue(StartOf(limit, sn, p), Packets(limit, p.block.length)) < Issue(StartOf(limit, sn, p), 1)
  }

  /** How many attempts on the block fail. */
  function Failures(limit: Limit, sn: word, p: Plan): nat {
    |p.refusals| + if Unheard(limit, sn, p) then 1 else 0
  }

  /** The serial number after the block. */
  function AfterPlan(limit: Limit, sn: word, p: Plan): word {
    Issue(sn, (Failures(limit, sn, p) + 1) * Packets(limit, p.block.length))
  }

  lemma ManyBursts(sn: word, n: nat, k: nat)
    ensures 0 <= k * n && 0 <= (k + 1) * n && Issue(Issue(sn, n), k * n) == Issue(sn, (k + 1) * n)
  {
    hide Issue;
    OneTimeMore(k, n);
    IssueTwice(sn, n, k * n);
  }

  lemma PlanShift(limit: Limit, sn: word, p: Plan)
    requires p.refusals != []
    ensures var next, q := Issue(sn, Packets(limit, p.block.length)), p.(refusals := p.refusals[1..]);
            && StartOf(limit, next, q) == StartOf(limit, sn, p)
            && Failures(limit, sn, p) == Failures(limit, next, q) + 1
            && AfterPlan(limit, next, q) == AfterPlan(limit, sn, p)
  {
    var n, k := Packets(limit, p.block.length), |p.refusals| - 1;
    var next, q := Issue(sn, n), p.(refusals := p.refusals[1..]);
    hide Issue, Packets;
    ManyBursts(sn, n, k);
    StartIs(limit, sn, p, k + 1);
    StartIs(limit, next, q, k);
    hide StartOf;
    assert Failures(limit, sn, p) == Failures(limit, next, q) + 1;
    ManyBursts(sn, n, Failures(limit, next, q) + 1);
    hide Failures;
    AfterIs(limit, sn, p, Failures(limit, sn, p));
    AfterIs(limit, next, q, Failures(limit, next, q));
  }

  lemma StartIs(limit: Limit, sn: word, p: Plan, k: nat)
    requires |p.refusals| == k
    ensures 0 <= k * Packets(limit, p.block.length)
    ensures StartOf(limit, sn, p) == Issue(sn, k * Packets(limit, p.block.length))
  {
  }

  lemma AfterIs(limit: Limit, sn: word, p: Plan, f: nat)
    requires Failures(limit, sn, p) == f
    ensures 0 <= (f + 1) * Packets(limit, p.block.length)
    ensures AfterPlan(limit, sn, p) == Issue(sn, (f + 1) * Packets(limit, p.block.length))
  {
  }

  /** The first serial number of a burst is of no account to what becomes of a device. */
  lemma {:induction false} FirstIsOfNoAccount(limit: Limit, retries: int, sn: word, f: nat, d: Device, first: word)
    ensures Verdict(limit, retries, sn, f, d) == Verdict(limit, retries, sn, f, d.(first := first))
    decreases |d.later|, |d.plans|, RefusalsLeft(d), if d.verified then 0 else 1, |d.verifying|, |d.finishing|
  {
    hide Issue, StatusReply, ResultReply;
    if d.plans == [] {
      var s := NextSerial(sn);
      if !d.verified {
        FirstIsOfNoAccount(limit, retries, s, 0, ReactToVerify(d, s).0, first);
      } else if d.finishing != [] {
        FirstIsOfNoAccount(limit, retries, s, 0, ReactToResult(d, s).0, first);
      }
    }
  }

  lemma PlanWithoutRefusals(limit: Limit, retries: int, sn: word, f: nat, d: Device)
    requires d.plans != [] && f < retries && d.plans[0].refusals == []
    ensures Verdict(limit, retries, sn, f, d).None?
            <==> (&& f + Failures(limit, sn, d.plans[0]) < retries
                  && Verdict(limit, retries, AfterPlan(limit, sn, d.plans[0]), 0, Advance(d, 0)).None?)
  {
    hide Issue, Packets;
    var n := Packets(limit, d.plans[0].block.length);
    var first, last := Issue(sn, 1), Issue(sn, n);
    OneTimeMore(0, n);
    OneTimeMore(1, n);
    NoIssue(sn);
    IssueTwice(sn, n, n);
    if first <= last {
      FirstIsOfNoAccount(limit, retries, last, 0, AfterBurst(d.(first := first), last), 0);
    } else if f + 1 < retries {
      FirstIsOfNoAccount(limit, retries, Issue(last, n), 0, Advance(d, Issue(last, 1)), 0);
    }
  }

  lemma VerdictRefused(limit: Limit, retries: int, sn: word, f: nat, d: Device)
    requires d.plans != [] && d.plans[0].refusals != []
    ensures var p, last := d.plans[0], Issue(sn, Packets(limit, d.plans[0].block.length));
            var next := AfterBurst(d.(first := Issue(sn, 1)), last);
            && next.plans != [] && next.plans[0] == p.(refusals := p.refusals[1..]) && next.plans[1..] == d.plans[1..]
            && Advance(next, 0) == Advance(d, 0)
            && (Verdict(limit, retries, sn, f, d).None?
                <==> f + 1 < retries && Verdict(limit, retries, last, f + 1, next).None?)
  {
    hide Issue, Packets;
  }

  /** A block gets through if and only if fewer attempts on it fail than are allowed; and then the rest
      decides. */
  lemma {:induction false} VerdictOfPlan(limit: Limit, retries: int, sn: word, f: nat, d: Device)
    requires d.plans != [] && f < retries
    ensures Verdict(limit, retries, sn, f, d).None?
            <==> (&& f + Failures(limit, sn, d.plans[0]) < retries
                  && Verdict(limit, retries, AfterPlan(limit, sn, d.plans[0]), 0, Advance(d, 0)).None?)
    decreases RefusalsLeft(d)
  {
    var p := d.plans[0];
    if p.refusals == [] {
      PlanWithoutRefusals(limit, retries, sn, f, d);
    } else {
      hide Verdict, Issue, Packets, AfterPlan, Failures, AfterBurst;
      var last := Issue(sn, Packets(limit, p.block.length));
      PlanShift(limit, sn, p);
      VerdictRefused(limit, retries, sn, f, d);
      if f + 1 < retries {
        VerdictOfPlan(limit, retries, last, f + 1, AfterBurst(d.(first := Issue(sn, 1)), last));
      }
    }
  }

  lemma NoIssue(sn: word)
    ensures Issue(sn, 0) == sn
  {
  }

  predicate Patient(retries: int, plans: seq<Plan>) {
    forall i :: 0 <= i < |plans| ==> |plans[i].refusals| + 2 <= retries
  }

  lemma PatientRest(limit: Limit, retries: int, sn: word, d: Device)
    requires Patient(retries, AllPlans(d)) && d.plans != []
    ensures Patient(retries, AllPlans(Advance(d, 0))) && Failures(limit, sn, d.plans[0]) < retries
  {
    assert AllPlans(d)[0] == d.plans[0] && AllPlans(Advance(d, 0)) == AllPlans(d)[1..];
  }

  lemma VerdictOfPoll(limit: Limit, retries: int, sn: word, d: Device)
    requires d.plans == []
    ensures var s := NextSerial(sn);
            Verdict(limit, retries, sn, 0, d) ==
              if !d.verified then Verdict(limit, retries, s, 0, ReactToVerify(d, s).0)
              else if d.finishing == [] && d.later == [] then None
              else Verdict(limit, retries, s, 0, ReactToResult(d, s).0)
  {
  }

  /** Whatever the serial numbers: a device that refuses each block at least two times fewer than attempts
      are allowed is served to the end. */
  lemma {:induction false} PatientVerdict(limit: Limit, retries: int, sn: word, d: Device)
    requires retries >= 2 && Patient(retries, AllPlans(d))
    ensures Verdict(limit, retries, sn, 0, d).None?
    decreases |d.later|, |d.plans|, if d.verified then 0 else 1, |d.verifying|, |d.finishing|
  {
    hide Verdict, Patient, AllPlans, Failures, AfterPlan, StatusReply, ResultReply;
    var s := NextSerial(sn);
    if d.plans != [] {
      VerdictOfPlan(limit, retries, sn, 0, d);
      PatientRest(limit, retries, sn, d);
      PatientVerdict(limit, retries, AfterPlan(limit, sn, d.plans[0]), Advance(d, 0));
    } else {
      PollPlans(d, s);
      VerdictOfPoll(limit, retries, sn, d);
      if !d.verified {
        PatientVerdict(limit, retries, s, ReactToVerify(d, s).0);
      } else if d.finishing != [] || d.later != [] {
        PatientVerdict(limit, retries, s, ReactToResult(d, s).0);
      }
    }
  }
}
