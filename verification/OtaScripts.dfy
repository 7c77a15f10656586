/** The upgrade as a function of its script: which steps the client takes, and how it is seen to end. */
module OtaScripts {
  import opened Bytes
  import opened Scanner
  import opened OtaFirmware
  import opened OtaPackets
  import opened OtaBursts
  import opened OtaProtocol
  import opened OtaLines

  /** How an upgrade is seen to end: it returns, it raises, or (with no retry allowed and a block
      asked for) it loops forever.  Running: it is still going on where the script ends. */
  datatype Ending =
    | NotAnImage(problem: ImageError)
    | Done(result: UpdateResultResponse)
    | Raised(error: OtaError)
    | Spins
    | Running

  /** The ending is the one that the last phase calls for. */
  predicate Ends(c: Config, phase: Phase, ending: Ending) {
    match ending
    case NotAnImage(_) => false
    case Running => false
    case Done(result) => phase == Complete(result)
    case Spins => phase.Sending? && phase.offset + phase.length <= |c.image.data| && c.retries < 1
    case Raised(InvalidBlock(offset, length)) => phase == Sending(offset, length, 0) && offset + length > |c.image.data|
    case Raised(EmptyBlock) => phase.Sending? && phase.length == 0 && phase.offset <= |c.image.data| && c.retries >= 1
    case Raised(PollTimeout) => phase.Verifying? || phase.Finishing?
    case Raised(error) => phase == Aborted(error)
  }

  // ---- one step

  /** The ending of a phase in which no step is taken, whatever the device and the time. */
  function Stops(c: Config, phase: Phase): Option<Ending> {
    match phase
    case Complete(result) => Some(Done(result))
    case Aborted(error) => Some(Raised(error))
    case Sending(offset, length, _) =>
      if offset + length > |c.image.data| then Some(Raised(InvalidBlock(offset, length)))
      else if c.retries < 1 then Some(Spins)
      else if length == 0 then Some(Raised(EmptyBlock))
      else None
    case _ => None
  }

  /** A phase that a client can be in. */
  predicate Sound(c: Config, r: Run) {
    Usable(c.image) && !r.phase.Wrong? && (r.phase.Sending? ==> r.phase.failures == 0 || r.phase.failures < c.retries)
  }

  /** And in which it takes a step. */
  predicate Goes(c: Config, r: Run) {
    Sound(c, r) && Stops(c, r.phase).None?
  }

  /** The step that is taken, with this reply. */
  function StepOf(c: Config, r: Run, reply: Option<bytes>): Step
    requires Goes(c, r)
  {
    if r.phase.Sending? then
      var offset, length := r.phase.offset, r.phase.length;
      Attempt(r.sn, offset, c.image.data[offset..offset + length], reply)
    else
      var (opcode, body) := Due(c, r.phase).value;
      Ask(opcode, NextSerial(r.sn), body, reply)
  }

  /** The reply it waits for. */
  function WantOf(c: Config, r: Run): Want
    requires Goes(c, r)
  {
    if r.phase.Sending? then
      Want(OP_SEND_DATA, Some((Issue(r.sn, 1), Issue(r.sn, |ChunksOf(c.limit, StepOf(c, r, None))|))))
    else
      Want(Due(c, r.phase).value.0, Some((NextSerial(r.sn), NextSerial(r.sn))))
  }

  lemma StepIsLegal(c: Config, r: Run, reply: Option<bytes>)
    requires Goes(c, r) && (reply.Some? ==> Expected(WantOf(c, r), reply.value))
    ensures var step := StepOf(c, r, reply);
            && (if step.Ask? then LegalAsk(c, r, step) else LegalAttempt(c, r, step))
            && OpcodeOf(step) == WantOf(c, r).opcode && Sound(c, Next(c, r, step))
  {
  }

  /** A legal step is the one that is taken, and its reply is one that is waited for. */
  lemma LegalIsTaken(c: Config, r: Run, step: Step)
    requires Sound(c, r) && (if step.Ask? then LegalAsk(c, r, step) else LegalAttempt(c, r, step))
    ensures Goes(c, r) && step == StepOf(c, r, step.reply)
    ensures step.reply.Some? ==> Expected(WantOf(c, r), step.reply.value)
  {
  }

  // ---- the whole upgrade

  /** Before it polls, the client looks at the clock. */
  predicate LooksFirst(phase: Phase) {
    phase.Verifying? || phase.Finishing?
  }

  function AfterLook(phase: Phase, l: Link): Link {
    if LooksFirst(phase) && l.clock != [] then l.(clock := l.clock[1..]) else l
  }

  /** The steps taken, the last of which may not have been observed to its end. */
  datatype Told = Told(steps: seq<Step>, ending: Ending)

  function Then(steps: seq<Step>, t: Told): Told {
    Told(steps + t.steps, t.ending)
  }

  /** What a client at this point does, given what the rest of the script says. */
  function Simulate(c: Config, r: Run, l: Link): Told
    requires Sound(c, r)
    decreases |l.clock|
  {
    if Stops(c, r.phase).Some? then Told([], Stops(c, r.phase).value)
    else if LooksFirst(r.phase) && l.clock == [] then Told([], Running)
    else if LooksFirst(r.phase) && !l.clock[0] then Told([], Raised(PollTimeout))
    else
      AwaitMatches(WantOf(c, r), AfterLook(r.phase, l));
      var (x, m) := Await(WantOf(c, r), AfterLook(r.phase, l));
      var step := StepOf(c, r, Taken(x));
      StepIsLegal(c, r, Taken(x));
      if x.CutOff? then Told([step], Running) else Then([step], Simulate(c, Next(c, r, step), m))
  }

  /** The client stops here, as it is seen. */
  predicate Settles(c: Config, phase: Phase, l: Link, ending: Ending) {
    if Stops(c, phase).Some? then ending == Stops(c, phase).value
    else LooksFirst(phase) && if l.clock == [] then ending == Running else !l.clock[0] && ending == Raised(PollTimeout)
  }

  /** What becomes of a block just asked for: outside the file it is an error; with no attempt allowed
      the client spins; an empty one is an error; any other is sent, as it stands in the file. */
  lemma EarlyEndings(c: Config, sn: word, offset: dword, length: dword, l: Link)
    requires Usable(c.image)
    ensures var t, size := Simulate(c, Run(sn, Sending(offset, length, 0)), l), |c.image.data|;
            && (offset + length > size ==> t == Told([], Raised(InvalidBlock(offset, length))))
            && (offset + length <= size && c.retries < 1 ==> t == Told([], Spins))
            && (offset + length <= size && c.retries >= 1 && length == 0 ==> t == Told([], Raised(EmptyBlock)))
            && (offset + length <= size && c.retries >= 1 && length > 0 ==>
                  && t.steps != [] && t.steps[0].Attempt? && t.steps[0].offset == offset
                  && t.steps[0].data == c.image.data[offset..offset + length])
  {
    hide Await, Next, ChunksOf;
  }

  lemma SettledIsTold(c: Config, r: Run, l: Link, ending: Ending)
    requires Sound(c, r) && Settles(c, r.phase, l, ending)
    ensures Simulate(c, r, l) == Told([], ending)
  {
  }

  lemma OneStepTold(c: Config, r: Run, l: Link, x: Waited, m: Link)
    requires Goes(c, r) && (LooksFirst(r.phase) ==> l.clock != [] && l.clock[0])
    requires (x, m) == Await(WantOf(c, r), AfterLook(r.phase, l))
    ensures x.Came? ==> Expected(WantOf(c, r), x.payload)
    ensures var step := StepOf(c, r, Taken(x));
            && Sound(c, Next(c, r, step))
            && Simulate(c, r, l) ==
               if x.CutOff? then Told([step], Running) else Then([step], Simulate(c, Next(c, r, step), m))
  {
    AwaitMatches(WantOf(c, r), AfterLook(r.phase, l));
    StepIsLegal(c, r, Taken(x));
  }

  // ---- the runs that a script can bring about

  predicate IsPoll(step: Step) {
    step.Ask? && (step.opcode == OP_VERIFY_DATA || step.opcode == OP_UPDATE_RESULT)
  }

  /** The reply of the step can come in a packet. */
  predicate Fits(step: Step) {
    step.reply.Some? ==> |step.reply.value| <= MAX_PACKET_PAYLOAD
  }

  predicate AllFit(steps: seq<Step>) {
    forall k :: 0 <= k < |steps| ==> Fits(steps[k])
  }

  const SILENCE := Link([], [], [])

  /** A script that gives each step its reply, each in a read of its own. */
  function Script(steps: seq<Step>): Link
    requires AllFit(steps)
    decreases |steps|
  {
    if steps == [] then SILENCE
    else
      assert Fits(steps[0]);
      var step, later := steps[0], Script(steps[1..]);
      var reply := if step.reply.Some? then [Wire(OtaPacket(OpcodeOf(step), step.reply.value))] else [];
      Link([], reply + later.inbox, (if IsPoll(step) then [true] else []) + [step.reply.Some?] + later.clock)
  }

  lemma OnePacketScanned(p: Packet)
    ensures Scan(Decide(), [] + Wire(p)) == Outcome([p], [])
  {
    DecisionsStable();
    DecisionsExact();
    assert IsWire(Wire(p), p);
    ScanEncodedFirst(Decide(), Wires(), Wire(p), p, []);
    assert [] + Wire(p) == Wire(p) + [] && [p] + [] == [p];
  }

  /** The next read holds one packet, and it is the one waited for; or it is another one. */
  lemma AwaitPacket(w: Want, l: Link, payload: bytes)
    requires l.buf == [] && |payload| <= MAX_PACKET_PAYLOAD && l.clock != [] && l.clock[0]
    requires l.inbox != [] && l.inbox[0] == Wire(OtaPacket(w.opcode, payload))
    ensures var m := Link([], l.inbox[1..], l.clock[1..]);
            Await(w, l) == if Expected(w, payload) then (Came(payload), m) else Await(w, m)
  {
    hide Expected, Scan, Decide, Wire;
    var p: Packet := OtaPacket(w.opcode, payload);
    OnePacketScanned(p);
    assert |Wire(p)| > 0;
    OneMatch(w, p);
  }

  lemma OneMatch(w: Want, p: OtaPacket)
    ensures FirstMatch(w, [p]) == if Matches(w, p) then Some(p.payload) else None
  {
    assert [p][1..] == [];
  }

  lemma PollsAlike(c: Config, r: Run, reply: Option<bytes>)
    requires Goes(c, r)
    ensures LooksFirst(r.phase) <==> IsPoll(StepOf(c, r, reply))
  {
  }

  lemma {:induction false} LegalIsSound(c: Config, sn: word, steps: seq<Step>)
    requires Usable(c.image) && Legal(c, sn, steps)
    ensures Sound(c, Play(c, sn, steps))
    decreases |steps|
  {
    if steps != [] {
      hide Sound, Goes, Next, LegalAsk, LegalAttempt, StepOf, WantOf;
      var n := |steps| - 1;
      var r := Play(c, sn, steps[..n]);
      PrefixLegal(c, sn, steps, n);
      LegalIsSound(c, sn, steps[..n]);
      StepLegal(c, sn, steps, n);
      LegalIsTaken(c, r, steps[n]);
      StepIsLegal(c, r, steps[n].reply);
    } else {
      assert Sound(c, Run(sn, Opening));
    }
  }

  /** The rest of a script, after the look at the clock before its first step. */
  lemma ScriptLooked(phase: Phase, steps: seq<Step>)
    requires AllFit(steps) && steps != [] && (LooksFirst(phase) <==> IsPoll(steps[0]))
    ensures var l, later, reply := Script(steps), Script(steps[1..]), steps[0].reply;
            var m := AfterLook(phase, l);
            && (LooksFirst(phase) ==> l.clock != [] && l.clock[0])
            && m.buf == [] && later.buf == [] && m.clock == [reply.Some?] + later.clock
            && if reply.None? then m.inbox == later.inbox
               else |reply.value| <= MAX_PACKET_PAYLOAD
                    && m.inbox == [Wire(OtaPacket(OpcodeOf(steps[0]), reply.value))] + later.inbox
  {
    var later, step := Script(steps[1..]), steps[0];
    assert Fits(step);
    hide Wire, Fits, IsPoll, LooksFirst, OpcodeOf;
    var looks, look := if IsPoll(step) then [true] else [], [step.reply.Some?];
    assert Script(steps).clock == looks + look + later.clock;
    if LooksFirst(phase) {
      assert (looks + look + later.clock)[1..] == look + later.clock;
    } else {
      assert looks + look + later.clock == look + later.clock;
    }
    if step.reply.None? {
      assert Script(steps).inbox == [] + later.inbox == later.inbox;
    }
  }

  /** The first step of the script is taken, and the rest of it is left. */
  lemma ScriptGivesReply(c: Config, r: Run, steps: seq<Step>)
    requires Goes(c, r) && AllFit(steps) && steps != [] && steps[0] == StepOf(c, r, steps[0].reply)
    requires steps[0].reply.Some? ==> Expected(WantOf(c, r), steps[0].reply.value)
    ensures var l, reply := Script(steps), steps[0].reply;
            && (LooksFirst(r.phase) ==> l.clock != [] && l.clock[0])
            && Await(WantOf(c, r), AfterLook(r.phase, l)) ==
               (if reply.Some? then Came(reply.value) else TimedOut, Script(steps[1..]))
  {
    var step, later := steps[0], Script(steps[1..]);
    hide Expected, StepOf, WantOf, Goes, Wire, Script, AllFit, AfterLook, IsPoll, LooksFirst;
    var m := AfterLook(r.phase, Script(steps));
    PollsAlike(c, r, step.reply);
    StepsAsWanted(c, r, step.reply);
    ScriptLooked(r.phase, steps);
    assert m.clock[1..] == later.clock;
    if step.reply.Some? {
      assert m.inbox[1..] == later.inbox;
      AwaitPacket(WantOf(c, r), m, step.reply.value);
    }
  }

  lemma StepsAsWanted(c: Config, r: Run, reply: Option<bytes>)
    requires Goes(c, r)
    ensures OpcodeOf(StepOf(c, r, reply)) == WantOf(c, r).opcode
  {
  }

  lemma ScriptBuffer(steps: seq<Step>)
    requires AllFit(steps)
    ensures Script(steps).buf == []
  {
  }

  lemma {:induction false} ScriptLeads(c: Config, sn: word, steps: seq<Step>, k: nat)
    requires Usable(c.image) && Legal(c, sn, steps) && AllFit(steps) && k <= |steps|
    ensures Sound(c, Play(c, sn, steps[..k])) && Sound(c, Play(c, sn, steps))
    ensures Simulate(c, Play(c, sn, steps[..k]), Script(steps[k..]))
            == Then(steps[k..], Simulate(c, Play(c, sn, steps), SILENCE))
    decreases |steps| - k
  {
    hide Sound, Goes, Next, LegalAsk, LegalAttempt, StepOf, WantOf, Simulate, Expected, Await, AfterLook, LooksFirst;
    PrefixLegal(c, sn, steps, k);
    LegalIsSound(c, sn, steps[..k]);
    LegalIsSound(c, sn, steps);
    if k == |steps| {
      assert steps[..k] == steps && steps[k..] == [];
      var t := Simulate(c, Play(c, sn, steps), SILENCE);
      assert [] + t.steps == t.steps;
    } else {
      var r, rest := Play(c, sn, steps[..k]), steps[k..];
      StepLegal(c, sn, steps, k);
      LegalIsTaken(c, r, steps[k]);
      assert rest[0] == steps[k] && rest[1..] == steps[k + 1..];
      ScriptGivesReply(c, r, rest);
      var reply := steps[k].reply;
      OneStepTold(c, r, Script(rest), if reply.Some? then Came(reply.value) else TimedOut, Script(rest[1..]));
      PlayOne(c, sn, steps, k);
      ScriptLeads(c, sn, steps, k + 1);
      Associative([steps[k]], steps[k + 1..], Simulate(c, Play(c, sn, steps), SILENCE).steps);
      assert [steps[k]] + steps[k + 1..] == steps[k..];
    }
  }

  /** Every legal run whose replies fit in packets is taken under some script; what comes after it is
      what the client does when nothing more comes. */
  lemma RunHasScript(c: Config, sn: word, steps: seq<Step>)
    requires Usable(c.image) && Legal(c, sn, steps) && AllFit(steps)
    ensures Sound(c, Play(c, sn, steps))
    ensures Simulate(c, Run(sn, Opening), Script(steps)) == Then(steps, Simulate(c, Play(c, sn, steps), SILENCE))
  {
    ScriptLeads(c, sn, steps, 0);
    assert steps[..0] == [] && steps[0..] == steps;
  }

  predicate AllInPackets(ps: seq<OtaPacket>) {
    forall i :: 0 <= i < |ps| ==> |ps[i].payload| <= MAX_PACKET_PAYLOAD
  }

  lemma {:induction false} ScannedInPackets(s: bytes)
    ensures AllInPackets(Scan(Decide(), s).packets)
    decreases |s|
  {
    var d := Decide()(s);
    if Moves(d, s) {
      ScannedInPackets(s[d.n..]);
      if d.Emit? {
        EmittedIsWire(s, d.n, d.packet);
      }
    }
  }

  lemma {:induction false} FirstMatchFits(w: Want, ps: seq<OtaPacket>)
    requires AllInPackets(ps)
    ensures FirstMatch(w, ps).Some? ==> |FirstMatch(w, ps).value| <= MAX_PACKET_PAYLOAD
    decreases |ps|
  {
    if ps != [] {
      FirstMatchFits(w, ps[1..]);
    }
  }

  lemma {:induction false} AwaitFits(w: Want, l: Link)
    ensures var x := Await(w, l).0; x.Came? ==> |x.payload| <= MAX_PACKET_PAYLOAD
    decreases |l.clock|
  {
    if l.clock != [] && l.clock[0] {
      var data, m := Read(l.inbox), l.(inbox := Unread(l.inbox), clock := l.clock[1..]);
      if data == [] {
        AwaitFits(w, m);
      } else {
        var o := Scan(Decide(), l.buf + data);
        ScannedInPackets(l.buf + data);
        FirstMatchFits(w, o.packets);
        if FirstMatch(w, o.packets).None? {
          AwaitFits(w, m.(buf := o.rest));
        }
      }
    }
  }

  lemma StepTakenIsLegal(c: Config, sn: word, before: seq<Step>, x: Waited)
    requires Goes(c, Play(c, sn, before)) && (x.Came? ==> Expected(WantOf(c, Play(c, sn, before)), x.payload))
    ensures var r := Play(c, sn, before);
            var step := StepOf(c, r, Taken(x));
            Play(c, sn, before + [step]) == Next(c, r, step) && Sound(c, Next(c, r, step))
  {
    hide Sound, Goes, Next, StepOf, WantOf, Expected;
    var r := Play(c, sn, before);
    StepIsLegal(c, r, Taken(x));
    assert (before + [StepOf(c, r, Taken(x))])[..|before|] == before;
  }

  lemma {:induction false} TakenIsLegal(c: Config, sn: word, before: seq<Step>, l: Link, steps: seq<Step>)
    requires Sound(c, Play(c, sn, before)) && steps <= Simulate(c, Play(c, sn, before), l).steps
    ensures Legal(c, sn, before + steps) && AllFit(steps)
    decreases |l.clock|
  {
    hide Goes, Next, StepOf, WantOf, Expected, Await, Play, Simulate, Usable, AllFit;
    var r := Play(c, sn, before);
    if steps == [] {
      assert before + steps == before;
      NoneFit(steps);
    } else {
      var m := AfterLook(r.phase, l);
      assert Goes(c, r) && (LooksFirst(r.phase) ==> l.clock != [] && l.clock[0]) by {
        FirstStepGoes(c, r, l);
      }
      AwaitMatches(WantOf(c, r), m);
      AwaitFits(WantOf(c, r), m);
      var (x, n) := Await(WantOf(c, r), m);
      OneStepTold(c, r, l, x, n);
      StepTakenIsLegal(c, sn, before, x);
      var step := StepOf(c, r, Taken(x));
      StepHasReply(c, r, Taken(x));
      assert steps[0] == step && steps == [step] + steps[1..];
      Associative(before, [step], steps[1..]);
      if x.CutOff? {
        assert steps == [step] && [step] + [] == [step];
        NoneFit([]);
        FitAll(step, []);
      } else {
        TakenIsLegal(c, sn, before + [step], n, steps[1..]);
        FitAll(step, steps[1..]);
      }
    }
  }

  lemma FitAll(step: Step, later: seq<Step>)
    requires Fits(step) && AllFit(later)
    ensures AllFit([step] + later)
  {
  }

  lemma NoneFit(steps: seq<Step>)
    requires steps == []
    ensures AllFit(steps)
  {
  }

  lemma FirstStepGoes(c: Config, r: Run, l: Link)
    requires Sound(c, r) && Simulate(c, r, l).steps != []
    ensures Goes(c, r) && (LooksFirst(r.phase) ==> l.clock != [] && l.clock[0])
  {
  }

  lemma StepHasReply(c: Config, r: Run, reply: Option<bytes>)
    requires Goes(c, r)
    ensures StepOf(c, r, reply).reply == reply
  {
  }

  /** The client takes these steps first, under this script. */
  ghost predicate TakesUnder(c: Config, sn: word, steps: seq<Step>, l: Link)
    requires Usable(c.image)
  {
    steps <= Simulate(c, Run(sn, Opening), l).steps
  }

  /** Exactly which runs there are: a client can be brought to take these steps, by some device at some
      times, if and only if they are a legal run whose replies fit in packets. */
  lemma RunsAreLegalRuns(c: Config, sn: word, steps: seq<Step>)
    requires Usable(c.image)
    ensures (exists l :: TakesUnder(c, sn, steps, l)) <==> Legal(c, sn, steps) && AllFit(steps)
  {
    hide Simulate, Legal, AllFit, Next;
    if exists l :: TakesUnder(c, sn, steps, l) {
      var l :| TakesUnder(c, sn, steps, l);
      assert Sound(c, Play(c, sn, []));
      TakenIsLegal(c, sn, [], l, steps);
      assert [] + steps == steps;
    }
    if Legal(c, sn, steps) && AllFit(steps) {
      RunHasScript(c, sn, steps);
      assert TakesUnder(c, sn, steps, Script(steps));
    }
  }
}
