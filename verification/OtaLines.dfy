/** The line between host and device: which packet ends a wait, and what a device makes of the bytes written. */
module OtaLines {
  import opened Bytes
  import opened Scanner
  import opened OtaFirmware
  import opened OtaPackets
  import opened OtaBursts
  import opened OtaProtocol

  // ---- waiting for a reply

  /** The packet waited for: its opcode, and the range of serial numbers it may carry, if one is
      expected. */
  datatype Want = Want(opcode: byte, serials: Option<(int, int)>)

  datatype Link = Link(buf: bytes, inbox: seq<bytes>, clock: seq<bool>)

  /** A wait ends with a payload, or at its deadline, or is not observed to its end. */
  datatype Waited = Came(payload: bytes) | TimedOut | CutOff

  function Taken(x: Waited): Option<bytes> {
    if x.Came? then Some(x.payload) else None
  }

  predicate Expected(w: Want, payload: bytes) {
    w.serials.None? || (|payload| >= 2 && w.serials.value.0 <= U16(payload, 0) <= w.serials.value.1)
  }

  predicate Matches(w: Want, p: OtaPacket) {
    p.opcode == w.opcode && Expected(w, p.payload)
  }

  function FirstMatch(w: Want, ps: seq<OtaPacket>): Option<bytes> {
    if ps == [] then None else if Matches(w, ps[0]) then Some(ps[0].payload) else FirstMatch(w, ps[1..])
  }

  function Read(inbox: seq<bytes>): bytes {
    if inbox == [] then [] else inbox[0]
  }

  function Unread(inbox: seq<bytes>): seq<bytes> {
    if inbox == [] then [] else inbox[1..]
  }

  /** How the wait ends, and what is left of the script. */
  function Await(w: Want, l: Link): (Waited, Link)
    decreases |l.clock|
  {
    if l.clock == [] then (CutOff, l)
    else if !l.clock[0] then (TimedOut, l.(clock := l.clock[1..]))
    else
      var data, m := Read(l.inbox), l.(inbox := Unread(l.inbox), clock := l.clock[1..]);
      if data == [] then Await(w, m)
      else
        var o := Scan(Decide(), l.buf + data);
        match FirstMatch(w, o.packets)
        case None => Await(w, m.(buf := o.rest))
        case Some(payload) => (Came(payload), m.(buf := o.rest))
  }

  lemma FirstMatchMatches(w: Want, ps: seq<OtaPacket>)
    ensures FirstMatch(w, ps).Some? ==> Expected(w, FirstMatch(w, ps).value)
  {
  }

  lemma {:induction false} AwaitMatches(w: Want, l: Link)
    ensures var (x, m) := Await(w, l);
            && (x.Came? ==> |m.clock| < |l.clock| && Expected(w, x.payload))
            && (x.CutOff? ==> m.clock == []) && |m.clock| <= |l.clock| && (!x.CutOff? ==> |m.clock| < |l.clock|)
    decreases |l.clock|
  {
    if l.clock != [] && l.clock[0] {
      var data, m := Read(l.inbox), l.(inbox := Unread(l.inbox), clock := l.clock[1..]);
      if data == [] {
        AwaitMatches(w, m);
      } else {
        var o := Scan(Decide(), l.buf + data);
        FirstMatchMatches(w, o.packets);
        if FirstMatch(w, o.packets).None? {
          AwaitMatches(w, m.(buf := o.rest));
        }
      }
    }
  }

  lemma {:induction false} FirstMatchAppend(w: Want, ps: seq<OtaPacket>, qs: seq<OtaPacket>)
    ensures FirstMatch(w, ps + qs) == if FirstMatch(w, ps).Some? then FirstMatch(w, ps) else FirstMatch(w, qs)
    decreases |ps|
  {
    if ps == [] {
      assert ps + qs == qs;
    } else {
      assert (ps + qs)[1..] == ps[1..] + qs;
      FirstMatchAppend(w, ps[1..], qs);
    }
  }

  /** The payload that comes is that of the first packet that matches in the whole stream of the reads
      made, however it is cut; and if none comes, none in it matches. */
  lemma {:induction false} AwaitIsFirst(w: Want, l: Link) returns (n: nat)
    requires Decide()(l.buf).NeedMore?
    ensures var (x, m) := Await(w, l);
            && n <= |l.inbox| && m.inbox == l.inbox[n..]
            && FirstMatch(w, FeedAll(Decide(), l.buf, l.inbox[..n]).packets) == Taken(x)
            && (x.Came? ==> n > 0 && FirstMatch(w, FeedAll(Decide(), l.buf, l.inbox[..n - 1]).packets).None?)
            && m.buf == FeedAll(Decide(), l.buf, l.inbox[..n]).rest
    decreases |l.clock|
  {
    n := 0;
    if l.clock != [] && l.clock[0] {
      var m := l.(inbox := Unread(l.inbox), clock := l.clock[1..]);
      if l.inbox == [] {
        n := AwaitIsFirst(w, m);
      } else {
        var data := l.inbox[0];
        var o := Scan(Decide(), l.buf + data);
        DecisionsStable();
        ScanRestWaits(Decide(), l.buf + data);
        if data == [] {
          assert l.buf + data == l.buf;
          assert o == Outcome([], l.buf);
        }
        if FirstMatch(w, o.packets).Some? {
          n := 1;
          FirstReads(l, 1);
          assert l.inbox[1..][..0] == [] && o.packets + [] == o.packets && l.inbox[..0] == [];
        } else {
          var k := AwaitIsFirst(w, m.(buf := o.rest));
          n := k + 1;
          FirstReads(l, n);
          FirstMatchAppend(w, o.packets, FeedAll(Decide(), o.rest, l.inbox[1..][..k]).packets);
          if k > 0 {
            FirstReads(l, k);
            FirstMatchAppend(w, o.packets, FeedAll(Decide(), o.rest, l.inbox[1..][..k - 1]).packets);
          }
        }
      }
    }
  }

  /** How many looks at the clock come before the deadline. */
  function LooksInTime(clock: seq<bool>): (n: nat)
    ensures n <= |clock|
    decreases |clock|
  {
    if clock == [] || !clock[0] then 0 else 1 + LooksInTime(clock[1..])
  }

  /** The reads made before the deadline, if no reply comes. */
  function ReadsInTime(l: Link): (n: nat)
    ensures n <= |l.inbox|
  {
    if LooksInTime(l.clock) < |l.inbox| then LooksInTime(l.clock) else |l.inbox|
  }

  /** A reply comes exactly if one matches in what is read before the deadline; if none does, the wait
      times out exactly if the deadline is seen to pass. */
  lemma {:induction false} AwaitExactly(w: Want, l: Link)
    requires Decide()(l.buf).NeedMore?
    ensures Await(w, l).0 ==
            match FirstMatch(w, FeedAll(Decide(), l.buf, l.inbox[..ReadsInTime(l)]).packets)
            case Some(payload) => Came(payload)
            case None => if LooksInTime(l.clock) < |l.clock| then TimedOut else CutOff
    decreases |l.clock|
  {
    hide Scan, Decide, FirstMatch;
    if l.clock == [] || !l.clock[0] {
      assert l.inbox[..0] == [];
      NothingMatches(w, l.buf);
    } else {
      var m := l.(inbox := Unread(l.inbox), clock := l.clock[1..]);
      if l.inbox == [] {
        AwaitExactly(w, m);
      } else {
        var data := l.inbox[0];
        var o := Scan(Decide(), l.buf + data);
        var k := ReadsInTime(l) - 1;
        DecisionsStable();
        ScanRestWaits(Decide(), l.buf + data);
        FirstReads(l, k + 1);
        FirstMatchAppend(w, o.packets, FeedAll(Decide(), o.rest, l.inbox[1..][..k]).packets);
        if data == [] {
          EmptyRead(w, l.buf);
          assert l.buf + data == l.buf;
          AwaitExactly(w, m);
        } else if FirstMatch(w, o.packets).None? {
          AwaitExactly(w, m.(buf := o.rest));
        }
      }
    }
  }

  lemma NothingMatches(w: Want, buf: bytes)
    ensures FirstMatch(w, FeedAll(Decide(), buf, []).packets).None?
  {
  }

  lemma EmptyRead(w: Want, buf: bytes)
    requires Decide()(buf).NeedMore?
    ensures Scan(Decide(), buf) == Outcome([], buf) && FirstMatch(w, []).None?
  {
  }

  lemma FirstReads(l: Link, n: nat)
    requires 0 < n <= |l.inbox|
    ensures var o := Scan(Decide(), l.buf + l.inbox[0]);
            var later := FeedAll(Decide(), o.rest, l.inbox[1..][..n - 1]);
            FeedAll(Decide(), l.buf, l.inbox[..n]) == Outcome(o.packets + later.packets, later.rest)
  {
    assert l.inbox[..n][0] == l.inbox[0] && l.inbox[..n][1..] == l.inbox[1..][..n - 1];
  }

  // ---- what is written

  function SentIn(events: seq<Event>): seq<Packet>
    decreases |events|
  {
    if events == [] then []
    else
      var before, last := SentIn(events[..|events| - 1]), events[|events| - 1];
      if last.Sent? then before + [last.packet] else before
  }

  function WiresOf(ps: seq<Packet>): seq<bytes> {
    seq(|ps|, i requires 0 <= i < |ps| => Wire(ps[i]))
  }

  lemma WiresMore(ps: seq<Packet>, p: Packet)
    ensures Concat(WiresOf(ps + [p])) == Concat(WiresOf(ps)) + Wire(p)
  {
    assert WiresOf(ps + [p]) == WiresOf(ps) + [Wire(p)];
    ConcatAppend(WiresOf(ps), [Wire(p)]);
    assert Concat([Wire(p)]) == Wire(p) + [];
    assert Wire(p) + [] == Wire(p);
  }

  // ---- which packets a run puts on the line

  function StepPackets(crc: Crc, limit: Limit, step: Step): seq<Packet> {
    if step.Ask? then [AskPacket(step.opcode, step.sn, step.body)]
    else
      var xs := ChunksOf(limit, step);
      seq(|xs|, k requires 0 <= k < |xs| => SendData(crc, xs[k]))
  }

  /** The packets of these steps, one step after the other. */
  function PacketsIn(crc: Crc, limit: Limit, steps: seq<Step>): seq<Packet>
    decreases |steps|
  {
    if steps == [] then [] else StepPackets(crc, limit, steps[0]) + PacketsIn(crc, limit, steps[1..])
  }

  lemma {:induction false} PacketsAppend(crc: Crc, limit: Limit, steps: seq<Step>, more: seq<Step>)
    ensures PacketsIn(crc, limit, steps + more) == PacketsIn(crc, limit, steps) + PacketsIn(crc, limit, more)
    decreases |steps|
  {
    if steps == [] {
      assert steps + more == more;
    } else {
      assert (steps + more)[1..] == steps[1..] + more;
      PacketsAppend(crc, limit, steps[1..], more);
      Associative(StepPackets(crc, limit, steps[0]), PacketsIn(crc, limit, steps[1..]), PacketsIn(crc, limit, more));
    }
  }

  lemma OneStepPackets(crc: Crc, limit: Limit, step: Step)
    ensures PacketsIn(crc, limit, [step]) == StepPackets(crc, limit, step)
  {
    assert [step][1..] == [] && StepPackets(crc, limit, step) + [] == StepPackets(crc, limit, step);
  }

  lemma {:induction false} SentInAppend(a: seq<Event>, b: seq<Event>)
    ensures SentIn(a + b) == SentIn(a) + SentIn(b)
    decreases |b|
  {
    if b == [] {
      assert a + b == a;
    } else {
      var n := |b| - 1;
      assert (a + b)[..|a + b| - 1] == a + b[..n];
      SentInAppend(a, b[..n]);
    }
  }

  lemma {:induction false} SentInSends(crc: Crc, xs: seq<Chunk>)
    ensures SentIn(Sends(crc, xs)) == seq(|xs|, k requires 0 <= k < |xs| => SendData(crc, xs[k]))
    decreases |xs|
  {
    hide SendData;
    if xs != [] {
      var n := |xs| - 1;
      assert Sends(crc, xs)[..n] == Sends(crc, xs[..n]);
      SentInSends(crc, xs[..n]);
    }
  }

  lemma SentInStep(crc: Crc, limit: Limit, step: Step)
    ensures SentIn(StepEvents(crc, limit, step)) == StepPackets(crc, limit, step)
  {
    hide ChunksOf, SendData, AskPacket;
    match step
    case Ask(opcode, sn, body, reply) =>
      var sent: seq<Event> := [Sent(AskPacket(opcode, sn, body))];
      assert sent[..0] == [];
      SentInAppend(sent, [Answer(opcode, reply)]);
      OneAnswer(opcode, reply);
    case Attempt(_, _, _, reply) =>
      SentInSends(crc, ChunksOf(limit, step));
      SentInAppend(Sends(crc, ChunksOf(limit, step)), [Answer(OP_SEND_DATA, reply)]);
      OneAnswer(OP_SEND_DATA, reply);
  }

  lemma OneAnswer(opcode: byte, reply: Option<bytes>)
    ensures SentIn([Answer(opcode, reply)]) == []
  {
    assert [Answer(opcode, reply)][..0] == [];
  }

  lemma {:induction false} SentInRun(crc: Crc, limit: Limit, steps: seq<Step>)
    ensures SentIn(Events(crc, limit, steps)) == PacketsIn(crc, limit, steps)
    decreases |steps|
  {
    hide StepEvents, StepPackets;
    if steps != [] {
      var n := |steps| - 1;
      SentInRun(crc, limit, steps[..n]);
      SentInAppend(Events(crc, limit, steps[..n]), StepEvents(crc, limit, steps[n]));
      SentInStep(crc, limit, steps[n]);
      PacketsAppend(crc, limit, steps[..n], [steps[n]]);
      OneStepPackets(crc, limit, steps[n]);
      assert steps == steps[..n] + [steps[n]];
    }
  }

  lemma {:induction false} PacketsAreIssued(c: Config, crc: Crc, steps: seq<Step>)
    ensures |PacketsIn(crc, c.limit, steps)| == Issued(c, steps)
    decreases |steps|
  {
    if steps != [] {
      hide ChunksOf;
      var n := |steps| - 1;
      PacketsAreIssued(c, crc, steps[..n]);
      PacketsAppend(crc, c.limit, steps[..n], [steps[n]]);
      OneStepPackets(crc, c.limit, steps[n]);
      assert steps == steps[..n] + [steps[n]];
    }
  }

  /** Packet j of step k stands behind all those of the steps before. */
  lemma PacketStands(c: Config, crc: Crc, steps: seq<Step>, k: nat, j: nat)
    requires k < |steps| && j < |StepPackets(crc, c.limit, steps[k])|
    ensures var t := Issued(c, steps[..k]) + j;
            t < |PacketsIn(crc, c.limit, steps)|
            && PacketsIn(crc, c.limit, steps)[t] == StepPackets(crc, c.limit, steps[k])[j]
  {
    hide StepPackets, Issued;
    PacketsAreIssued(c, crc, steps[..k]);
    PacketsAppend(crc, c.limit, steps[..k], steps[k..]);
    assert steps == steps[..k] + steps[k..] && steps[k..][0] == steps[k];
    var before, later := PacketsIn(crc, c.limit, steps[..k]), PacketsIn(crc, c.limit, steps[k..]);
    assert later[j] == StepPackets(crc, c.limit, steps[k])[j];
    assert (before + later)[|before| + j] == later[j];
  }

  /** The packet is this request: the serial number, and behind it 0 for GET_INFO, the length of the
      header and the header for CAN_UPDATE, and nothing for the others. */
  predicate IsRequest(c: Config, p: OtaPacket, opcode: byte, serial: int) {
    var w := p.payload;
    && p.opcode == opcode && |w| >= 2 && U16(w, 0) == serial
    && (opcode == 1 || opcode == 2 || opcode == 3 || opcode == 5 || opcode == 6)
    && (opcode == 1 ==> w[2..] == [0])
    && (opcode == 2 ==>
          |w| == 4 + |c.image.headerInfo| && U16(w, 2) == |c.image.headerInfo| && w[4..] == c.image.headerInfo)
    && (opcode >= 3 ==> |w| == 2)
  }

  /** The packet carries this stretch of the firmware: serial number, offset, length, the bytes and
      their checksum. */
  predicate IsData(c: Config, crc: Crc, p: OtaPacket, serial: int, offset: int, n: nat) {
    var w := p.payload;
    && p.opcode == 4 && |w| == 12 + n && U16(w, 0) == serial && U32(w, 2) == offset && U16(w, 6) == n
    && 0 <= offset && offset + n <= |c.image.data| && w[8..8 + n] == c.image.data[offset..offset + n]
    && U32(w, 8 + n) == crc(c.image.data[offset..offset + n])
  }

  lemma AskIsRequest(c: Config, r: Run, step: Step)
    requires step.Ask? && LegalAsk(c, r, step)
    ensures IsRequest(c, AskPacket(step.opcode, step.sn, step.body), step.opcode, NextSerial(r.sn))
  {
    hide U16, LE16;
    var w, header := AskPacket(step.opcode, step.sn, step.body).payload, c.image.headerInfo;
    assert w[0..2] == LE16(step.sn) && w[2..] == step.body;
    ReadLE16(w, 0, step.sn);
    if step.opcode == OP_CAN_UPDATE {
      assert w[2..4] == step.body[..2] == LE16(|header|);
      ReadLE16(w, 2, |header|);
      assert w[4..] == step.body[2..] == header;
    }
  }

  /** A device that reads the line gets as many packets as serial numbers were issued; for each request
      of the run, in its place, that request under its serial number. */
  lemma RequestsOnLine(c: Config, crc: Crc, sn: word, steps: seq<Step>, k: nat, inputs: seq<bytes>)
    requires Legal(c, sn, steps) && k < |steps| && steps[k].Ask?
    requires Concat(inputs) == Concat(WiresOf(SentIn(Events(crc, c.limit, steps))))
    ensures var ps, t := FeedAll(Decide(), [], inputs).packets, Issued(c, steps[..k]);
            && |ps| == Issued(c, steps) && t < |ps|
            && IsRequest(c, ps[t], steps[k].opcode, Issue(sn, t + 1))
  {
    hide WiresOf, Concat, LegalAsk, IsRequest, AskPacket, Issued, Issue, Events, SentIn, FeedAll, Decide, PacketsIn;
    assert Issue(sn, Issued(c, steps[..k]) + 1) == NextSerial(Issue(sn, Issued(c, steps[..k]))) by {
      NextIssue(sn, Issued(c, steps[..k]));
    }
    DeviceReads(Events(crc, c.limit, steps), Concat(inputs), inputs);
    SentInRun(crc, c.limit, steps);
    PacketsAreIssued(c, crc, steps);
    PacketStands(c, crc, steps, k, 0);
    PrefixLegal(c, sn, steps, k);
    StepLegal(c, sn, steps, k);
    SerialsCount(c, sn, steps[..k]);
    AskIsRequest(c, Play(c, sn, steps[..k]), steps[k]);
  }

  /** And for each packet of each burst, in its place, a stretch of its block under its serial number. */
  lemma DataOnLine(c: Config, crc: Crc, sn: word, steps: seq<Step>, k: nat, j: nat, inputs: seq<bytes>)
    requires Legal(c, sn, steps) && k < |steps| && steps[k].Attempt? && j < |ChunksOf(c.limit, steps[k])|
    requires Concat(inputs) == Concat(WiresOf(SentIn(Events(crc, c.limit, steps))))
    ensures var ps, t := FeedAll(Decide(), [], inputs).packets, Issued(c, steps[..k]) + j;
            var x := ChunksOf(c.limit, steps[k])[j];
            && t < |ps| && IsData(c, crc, ps[t], Issue(sn, t + 1), x.offset, |x.data|)
            && steps[k].offset <= x.offset && x.offset + |x.data| <= steps[k].offset + |steps[k].data|
  {
    hide WiresOf, Concat, LegalAttempt, SendData, Issued, Faithful, IsData, ChunksOf, Issue, Events, SentIn, FeedAll,
         Decide, PacketsIn;
    var before := Play(c, sn, steps[..k]);
    DeviceReads(Events(crc, c.limit, steps), Concat(inputs), inputs);
    SentInRun(crc, c.limit, steps);
    PacketStands(c, crc, steps, k, j);
    PrefixLegal(c, sn, steps, k);
    StepLegal(c, sn, steps, k);
    SerialsCount(c, sn, steps[..k]);
    ChunkIsData(c, crc, before, steps[k], j);
    IssueTwice(sn, Issued(c, steps[..k]), j + 1);
  }

  lemma NextIssue(sn: word, n: nat)
    ensures Issue(sn, n + 1) == NextSerial(Issue(sn, n))
  {
  }

  lemma ChunkIsData(c: Config, crc: Crc, r: Run, step: Step, j: nat)
    requires step.Attempt? && LegalAttempt(c, r, step) && j < |ChunksOf(c.limit, step)|
    ensures var x := ChunksOf(c.limit, step)[j];
            && IsData(c, crc, SendData(crc, x), Issue(r.sn, j + 1), x.offset, |x.data|)
            && step.offset <= x.offset && x.offset + |x.data| <= step.offset + |step.data|
  {
    hide Burst, SendData;
    var x := ChunksOf(c.limit, step)[j];
    AttemptFaithful(c, r, step, j);
    var pos, n := BurstChunk(c.limit, step.start, step.offset, step.data, j);
    SendDataFields(crc, x);
    assert |SendData(crc, x).payload| == 12 + |x.data|;
    assert SendData(crc, x).opcode == 4 by {
      SendDataOpcode(crc, x);
    }
  }

  lemma SendDataOpcode(crc: Crc, x: Chunk)
    ensures SendData(crc, x).opcode == 4
  {
  }

  /** The device's parser gets back exactly the packets sent, however the line cuts the bytes. */
  lemma DeviceReads(events: seq<Event>, output: bytes, inputs: seq<bytes>)
    requires output == Concat(WiresOf(SentIn(events))) && Concat(inputs) == output
    ensures FeedAll(Decide(), [], inputs) == Outcome(SentIn(events), [])
  {
    var ps := SentIn(events);
    var ws := WiresOf(ps);
    forall i | 0 <= i < |ws| ensures Some(ws[i]) == PackPacket(ps[i].opcode, ps[i].payload) {
    }
    PackThenParse(ws, ps, inputs);
  }

  lemma {:induction false} SentInIsSent(events: seq<Event>, p: OtaPacket)
    ensures p in SentIn(events) <==> |p.payload| <= MAX_PACKET_PAYLOAD && Sent(p) in events
    decreases |events|
  {
    if events != [] {
      var n := |events| - 1;
      SentInIsSent(events[..n], p);
      assert events == events[..n] + [events[n]];
    }
  }

  lemma {:induction false} BurstIsInEvents(c: Config, crc: Crc, steps: seq<Step>, j: nat, k: nat)
    requires j < |steps| && steps[j].Attempt? && k < |ChunksOf(c.limit, steps[j])|
    ensures Sent(SendData(crc, ChunksOf(c.limit, steps[j])[k])) in Events(crc, c.limit, steps)
    decreases |steps|
  {
    var n := |steps| - 1;
    if j < n {
      BurstIsInEvents(c, crc, steps[..n], j, k);
    } else {
      var sends := Sends(crc, ChunksOf(c.limit, steps[j]));
      assert sends[k] == Sent(SendData(crc, ChunksOf(c.limit, steps[j])[k]));
      assert StepEvents(crc, c.limit, steps[j])[k] == sends[k];
      InLater(Events(crc, c.limit, steps[..n]), StepEvents(crc, c.limit, steps[n]), sends[k]);
    }
  }

  lemma InLater(before: seq<Event>, later: seq<Event>, e: Event)
    requires e in before + later || e in before || e in later
    ensures e in before + later
  {
  }

  /** The device holds byte i of the firmware. */
  predicate HoldsByte(c: Config, m: Store, i: int) {
    0 <= i < |c.image.data| && m(i) == Some(c.image.data[i])
  }

  /** The device holds the block of this step as it stands in the firmware. */
  ghost predicate HoldsBlock(c: Config, m: Store, step: Step)
    requires step.Attempt?
  {
    forall i: int :: step.offset <= i < step.offset + |step.data| ==> HoldsByte(c, m, i)
  }

  lemma AllSentDelivered(c: Config, crc: Crc, steps: seq<Step>)
    ensures Delivered(c, crc, steps, SentIn(Events(crc, c.limit, steps)))
  {
    var ps := SentIn(Events(crc, c.limit, steps));
    forall i | 0 <= i < |ps| ensures WasSent(c, crc, steps, ps[i]) {
      SentInIsSent(Events(crc, c.limit, steps), ps[i]);
    }
  }

  lemma AllSentReach(c: Config, crc: Crc, steps: seq<Step>, j: nat)
    requires j < |steps| && steps[j].Attempt?
    ensures Reaches(c, crc, steps[j], SentIn(Events(crc, c.limit, steps)))
  {
    var xs := ChunksOf(c.limit, steps[j]);
    forall k | 0 <= k < |xs| ensures SendData(crc, xs[k]) in SentIn(Events(crc, c.limit, steps)) {
      BurstIsInEvents(c, crc, steps, j, k);
      SentInIsSent(Events(crc, c.limit, steps), SendData(crc, xs[k]));
    }
  }

  lemma HeldOnceAcknowledged(c: Config, crc: Crc, sn: word, steps: seq<Step>, j: nat)
    requires Legal(c, sn, steps) && j < |steps| && Acknowledged(steps[j])
    ensures HoldsBlock(c, ReceiveAll(crc, SentIn(Events(crc, c.limit, steps))), steps[j])
  {
    hide Legal, Events, SentIn, Delivered, Reaches, ReceiveAll;
    var ps: seq<OtaPacket> := SentIn(Events(crc, c.limit, steps));
    var m := ReceiveAll(crc, ps);
    AllSentDelivered(c, crc, steps);
    AllSentReach(c, crc, steps, j);
    forall i: int | steps[j].offset <= i < steps[j].offset + |steps[j].data|
      ensures HoldsByte(c, m, i)
    {
      BlockIsStored(c, crc, sn, steps, j, ps, i);
    }
  }

  /** What a device holds that reads this line with the parser of this protocol, and stores what
      SEND_DATA carries: nothing but the firmware's own bytes, and every byte of every block it has
      acknowledged. */
  ghost predicate HoldsFirmware(c: Config, crc: Crc, steps: seq<Step>, inputs: seq<bytes>) {
    var m := ReceiveAll(crc, FeedAll(Decide(), [], inputs).packets);
    && Agrees(m, c.image.data)
    && forall j :: 0 <= j < |steps| && Acknowledged(steps[j]) ==> HoldsBlock(c, m, steps[j])
  }

  /** The whole line, cut into reads in any way. */
  lemma DeviceHoldsFirmware(c: Config, crc: Crc, sn: word, steps: seq<Step>, output: bytes, inputs: seq<bytes>)
    requires Legal(c, sn, steps)
    requires output == Concat(WiresOf(SentIn(Events(crc, c.limit, steps)))) && Concat(inputs) == output
    ensures HoldsFirmware(c, crc, steps, inputs)
  {
    hide Legal, Events, SentIn, Delivered, HoldsBlock;
    DeviceReads(Events(crc, c.limit, steps), output, inputs);
    var m := ReceiveAll(crc, SentIn(Events(crc, c.limit, steps)));
    assert ReceiveAll(crc, FeedAll(Decide(), [], inputs).packets) == m;
    AllSentDelivered(c, crc, steps);
    DeviceAgrees(c, crc, sn, steps, SentIn(Events(crc, c.limit, steps)));
    assert Agrees(m, c.image.data);
    forall j | 0 <= j < |steps| && Acknowledged(steps[j]) ensures HoldsBlock(c, m, steps[j]) {
      HeldOnceAcknowledged(c, crc, sn, steps, j);
    }
  }
}
