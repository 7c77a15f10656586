/** The upgrade as a trace: what stands before each step of a run, how runs end, and how long they are. */
module OtaTraces {
  import opened Bytes
  import opened OtaFirmware
  import opened OtaPackets
  import opened OtaBursts
  import opened OtaProtocol
  import opened OtaScripts

  // ---- how a run got where it is

  /** The block an OK reply asks for. */
  function AskedFor(step: Step): Option<(dword, dword)> {
    if step.reply.None? then None
    else if step.Attempt? || step.opcode == OP_ENTER_UPDATE then
      match ParseBlock(step.reply.value)
      case None => None
      case Some(r) => if r.result == RESULT_OK then Some((r.offset, r.length)) else None
    else if step.opcode == OP_UPDATE_RESULT then
      match ParseUpdateResult(step.reply.value)
      case None => None
      case Some(r) => if r.result == ASYNC_OK then Some((r.offset, r.length)) else None
    else None
  }

  /** An attempt on this block that was not acknowledged; all of them send the same bytes. */
  predicate FailedOn(c: Config, step: Step, offset: dword, length: dword) {
    && step.Attempt? && !Acknowledged(step) && step.offset == offset && |step.data| == length
    && offset + length <= |c.image.data| && step.data == c.image.data[offset..offset + length]
  }

  predicate AllFailedOn(c: Config, steps: seq<Step>, from: nat, offset: dword, length: dword) {
    forall k :: from <= k < |steps| ==> FailedOn(c, steps[k], offset, length)
  }

  predicate VerifyAnswered(step: Step, ok: bool) {
    && step.Ask? && step.opcode == OP_VERIFY_DATA && step.reply.Some? && ParseAsync(step.reply.value).Some?
    && var result := ParseAsync(step.reply.value).value.result;
       if ok then result == ASYNC_OK else result != ASYNC_OK && result != ASYNC_FAIL
  }

  predicate ResultAnswered(step: Step, ok: bool) {
    && step.Ask? && step.opcode == OP_UPDATE_RESULT && step.reply.Some? && ParseUpdateResult(step.reply.value).Some?
    && var result := ParseUpdateResult(step.reply.value).value.result;
       if ok then result == ASYNC_OK else result != ASYNC_OK && result != ASYNC_FAIL
  }

  /** The reply that grants the update, or acknowledges a block, asks for no further one. */
  predicate EndsTransfer(step: Step) {
    (step.Attempt? || step.opcode == OP_ENTER_UPDATE) && AskedFor(step) == Some((0, 0))
  }

  /** The device has asked for no further block, and VERIFY_DATA has only been in progress since. */
  ghost predicate TransferOver(steps: seq<Step>) {
    exists j :: 0 <= j < |steps| && EndsTransfer(steps[j])
                && forall k :: j < k < |steps| ==> VerifyAnswered(steps[k], false)
  }

  /** VERIFY_DATA came back OK after the transfer, and UPDATE_RESULT has only been in progress since. */
  ghost predicate Verified(steps: seq<Step>) {
    exists v :: 0 <= v < |steps| && VerifyAnswered(steps[v], true) && TransferOver(steps[..v])
                && forall k :: v < k < |steps| ==> ResultAnswered(steps[k], false)
  }

  predicate InfoAnswered(step: Step) {
    step.Ask? && step.opcode == OP_GET_INFO && step.reply.Some?
  }

  predicate CanUpdateAnswered(step: Step) {
    && step.Ask? && step.opcode == OP_CAN_UPDATE && step.reply.Some? && ParseCanUpdate(step.reply.value).Some?
    && ParseCanUpdate(step.reply.value).value.result == 0
  }

  /** The three requests that open an upgrade, each answered OK. */
  predicate Opened(steps: seq<Step>) {
    && |steps| >= 3 && InfoAnswered(steps[0]) && CanUpdateAnswered(steps[1])
    && steps[2].Ask? && steps[2].opcode == OP_ENTER_UPDATE && AskedFor(steps[2]).Some?
  }

  ghost predicate Explains(c: Config, steps: seq<Step>, phase: Phase) {
    match phase
    case Opening => steps == []
    case Informed => |steps| == 1 && InfoAnswered(steps[0])
    case Admitted => |steps| == 2 && InfoAnswered(steps[0]) && CanUpdateAnswered(steps[1])
    case Sending(offset, length, failures) =>
      && Opened(steps) && failures < |steps| && failures <= (if c.retries < 1 then 0 else c.retries - 1)
      && AskedFor(steps[|steps| - 1 - failures]) == Some((offset, length)) != Some((0, 0))
      && AllFailedOn(c, steps, |steps| - failures, offset, length)
    case Verifying => Opened(steps) && TransferOver(steps)
    case Finishing => Opened(steps) && Verified(steps)
    case Complete(result) =>
      && Opened(steps) && Verified(steps[..|steps| - 1]) && ResultAnswered(steps[|steps| - 1], true)
      && ParseUpdateResult(steps[|steps| - 1].reply.value) == Some(result) && result.offset == 0 && result.length == 0
    case _ => true
  }

  lemma TransferGoesOn(steps: seq<Step>, step: Step)
    requires TransferOver(steps) && VerifyAnswered(step, false)
    ensures TransferOver(steps + [step])
  {
    var j :| 0 <= j < |steps| && EndsTransfer(steps[j])
             && forall k :: j < k < |steps| ==> VerifyAnswered(steps[k], false);
    assert EndsTransfer((steps + [step])[j]);
  }

  lemma TransferEnds(steps: seq<Step>, step: Step)
    requires EndsTransfer(step)
    ensures TransferOver(steps + [step])
  {
    assert (steps + [step])[|steps|] == step;
  }

  lemma VerifiedNow(steps: seq<Step>, step: Step)
    requires TransferOver(steps) && VerifyAnswered(step, true)
    ensures Verified(steps + [step])
  {
    var all := steps + [step];
    assert all[|steps|] == step && all[..|steps|] == steps;
  }

  lemma FinishGoesOn(steps: seq<Step>, step: Step)
    requires Verified(steps) && ResultAnswered(step, false)
    ensures Verified(steps + [step])
  {
    var v :| 0 <= v < |steps| && VerifyAnswered(steps[v], true) && TransferOver(steps[..v])
             && forall k :: v < k < |steps| ==> ResultAnswered(steps[k], false);
    var all := steps + [step];
    assert all[v] == steps[v] && all[..v] == steps[..v];
  }

  /** A block is asked for: nothing has been tried on it yet. */
  lemma RequestExplained(c: Config, steps: seq<Step>, step: Step, offset: dword, length: dword)
    requires step.Attempt? || step.opcode == OP_ENTER_UPDATE
    requires AskedFor(step) == Some((offset, length)) && Opened(steps + [step])
    ensures Explains(c, steps + [step], Requested(offset, length))
  {
    if offset == 0 && length == 0 {
      TransferEnds(steps, step);
    }
  }

  lemma OpeningExplained(c: Config, steps: seq<Step>, phase: Phase, step: Step)
    requires phase.Opening? || phase.Informed? || phase.Admitted?
    requires Explains(c, steps, phase) && step.Ask? && step.reply.Some?
    requires Due(c, phase).Some? && Due(c, phase).value.0 == step.opcode
    ensures Explains(c, steps + [step], AfterReply(phase, step.reply.value))
  {
    if phase.Admitted? && AskedFor(step).Some? {
      RequestExplained(c, steps, step, AskedFor(step).value.0, AskedFor(step).value.1);
    }
  }

  lemma VerifyExplained(c: Config, steps: seq<Step>, step: Step)
    requires Explains(c, steps, Verifying) && step.Ask? && step.reply.Some? && step.opcode == OP_VERIFY_DATA
    ensures Explains(c, steps + [step], AfterReply(Verifying, step.reply.value))
  {
    StillOpened(steps, steps + [step]);
    if VerifyAnswered(step, true) {
      VerifiedNow(steps, step);
    } else if VerifyAnswered(step, false) {
      TransferGoesOn(steps, step);
    }
  }

  lemma FinishExplained(c: Config, steps: seq<Step>, step: Step)
    requires Explains(c, steps, Finishing) && step.Ask? && step.reply.Some? && step.opcode == OP_UPDATE_RESULT
    ensures Explains(c, steps + [step], AfterReply(Finishing, step.reply.value))
  {
    StillOpened(steps, steps + [step]);
    assert (steps + [step])[..|steps|] == steps;
    if ResultAnswered(step, false) {
      FinishGoesOn(steps, step);
    }
  }

  lemma AttemptExplained(c: Config, steps: seq<Step>, r: Run, step: Step)
    requires Explains(c, steps, r.phase) && step.Attempt? && LegalAttempt(c, r, step)
    ensures Explains(c, steps + [step], AfterAttempt(c, r.phase, step.reply))
  {
    StillOpened(steps, steps + [step]);
    if Acknowledged(step) {
      RequestExplained(c, steps, step, AskedFor(step).value.0, AskedFor(step).value.1);
    } else if r.phase.failures + 1 < c.retries {
      FailureExplained(c, steps, r.phase, step);
    }
  }

  lemma FailureExplained(c: Config, steps: seq<Step>, phase: Phase, step: Step)
    requires phase.Sending? && Explains(c, steps, phase) && FailedOn(c, step, phase.offset, phase.length)
    requires phase.failures + 1 < c.retries && Opened(steps + [step])
    ensures Explains(c, steps + [step], phase.(failures := phase.failures + 1))
  {
    var all, f := steps + [step], phase.failures;
    assert all[|all| - 1 - (f + 1)] == steps[|steps| - 1 - f];
    FailedOnMore(c, steps, step, |steps| - f, phase.offset, phase.length);
  }

  /** Every run, at every moment: a block is asked for by the last OK reply before it, and since
      then the same bytes were sent at the same offset and not acknowledged, fewer than `retries`
      times; verification starts only when no block is asked for; the end comes only after it. */
  lemma {:induction false} PhaseExplained(c: Config, sn: word, steps: seq<Step>)
    ensures Explains(c, steps, Play(c, sn, steps).phase)
    decreases |steps|
  {
    if steps != [] {
      var n := |steps| - 1;
      var before, step := steps[..n], steps[n];
      PhaseExplained(c, sn, before);
      assert steps == before + [step];
      NextExplained(c, Play(c, sn, before), before, step);
    }
  }

  lemma NextExplained(c: Config, r: Run, steps: seq<Step>, step: Step)
    requires Explains(c, steps, r.phase)
    ensures Explains(c, steps + [step], Next(c, r, step).phase)
  {
    if step.Attempt? {
      if LegalAttempt(c, r, step) {
        AttemptExplained(c, steps, r, step);
      }
    } else if LegalAsk(c, r, step) && step.reply.Some? {
      if r.phase.Verifying? {
        VerifyExplained(c, steps, step);
      } else if r.phase.Finishing? {
        FinishExplained(c, steps, step);
      } else {
        OpeningExplained(c, steps, r.phase, step);
      }
    }
  }

  lemma StillOpened(before: seq<Step>, steps: seq<Step>)
    requires before <= steps && Opened(before)
    ensures Opened(steps)
  {
    assert steps[0] == before[0] && steps[1] == before[1] && steps[2] == before[2];
  }

  /** These bytes were asked for by the last OK reply, f steps back, and failed f times since. */
  ghost predicate BlockDue(c: Config, steps: seq<Step>, offset: dword, data: bytes, f: nat) {
    && f < c.retries && f < |steps| && AskedFor(steps[|steps| - 1 - f]) == Some((offset, |data|))
    && AllFailedOn(c, steps, |steps| - f, offset, |data|)
    && 0 < |data| && offset + |data| <= |c.image.data| && data == c.image.data[offset..offset + |data|]
  }

  /** Step k is one of the three opening requests in its place, an attempt on the block asked for
      last, VERIFY_DATA after a transfer that ended, or UPDATE_RESULT after VERIFY_DATA OK. */
  ghost predicate InPlace(c: Config, steps: seq<Step>, k: nat)
    requires k < |steps|
  {
    var before := steps[..k];
    match steps[k]
    case Ask(opcode, _, _, _) =>
      || (k == 0 && opcode == OP_GET_INFO)
      || (k == 1 && opcode == OP_CAN_UPDATE && InfoAnswered(steps[0]))
      || (k == 2 && opcode == OP_ENTER_UPDATE && InfoAnswered(steps[0]) && CanUpdateAnswered(steps[1]))
      || (opcode == OP_VERIFY_DATA && Opened(before) && TransferOver(before))
      || (opcode == OP_UPDATE_RESULT && Opened(before) && Verified(before))
    case Attempt(_, offset, data, _) =>
      Opened(before) && exists f :: BlockDue(c, before, offset, data, f)
  }

  lemma StepInPlace(c: Config, sn: word, steps: seq<Step>, k: nat)
    requires Legal(c, sn, steps) && k < |steps|
    ensures InPlace(c, steps, k)
  {
    hide ChunksOf, InRange, Issue, TransferOver, Verified, AskedFor, Play, AllFailedOn;
    var before := steps[..k];
    PhaseExplained(c, sn, before);
    StepLegal(c, sn, steps, k);
    var phase := Play(c, sn, before).phase;
    if steps[k].Attempt? {
      assert BlockDue(c, before, steps[k].offset, steps[k].data, phase.failures);
    }
  }

  /** The upgrade returns only on a whole trace: every step is in its place, the transfer ended with a
      request for no block, VERIFY_DATA then came back OK, and last UPDATE_RESULT OK asking for no
      more. */
  lemma ReturnExplained(c: Config, sn: word, steps: seq<Step>, result: UpdateResultResponse) returns (j: nat, v: nat)
    requires Play(c, sn, steps).phase == Complete(result)
    ensures forall k :: 0 <= k < |steps| ==> InPlace(c, steps, k)
    ensures Opened(steps) && 2 <= j < v < |steps| - 1
    ensures EndsTransfer(steps[j]) && VerifyAnswered(steps[v], true)
    ensures forall k :: j < k < v ==> VerifyAnswered(steps[k], false)
    ensures forall k :: v < k < |steps| - 1 ==> ResultAnswered(steps[k], false)
    ensures ResultAnswered(steps[|steps| - 1], true)
    ensures ParseUpdateResult(steps[|steps| - 1].reply.value) == Some(result)
    ensures result.offset == 0 && result.length == 0
  {
    hide InPlace;
    forall k | 0 <= k < |steps| ensures InPlace(c, steps, k) {
      StepInPlace(c, sn, steps, k);
    }
    PhaseExplained(c, sn, steps);
    var before := steps[..|steps| - 1];
    j, v := VerifiedTrace(before);
    assert forall k :: 0 <= k < |before| ==> before[k] == steps[k];
    assert AskedFor(steps[0]).None? && AskedFor(steps[1]).None?;
  }

  lemma VerifiedTrace(steps: seq<Step>) returns (j: nat, v: nat)
    requires Verified(steps)
    ensures j < v < |steps| && EndsTransfer(steps[j]) && VerifyAnswered(steps[v], true)
    ensures forall k :: j < k < v ==> VerifyAnswered(steps[k], false)
    ensures forall k :: v < k < |steps| ==> ResultAnswered(steps[k], false)
  {
    v :| 0 <= v < |steps| && VerifyAnswered(steps[v], true) && TransferOver(steps[..v])
         && forall k :: v < k < |steps| ==> ResultAnswered(steps[k], false);
    var transfer := steps[..v];
    j :| 0 <= j < |transfer| && EndsTransfer(transfer[j])
         && forall k :: j < k < |transfer| ==> VerifyAnswered(transfer[k], false);
    assert forall k :: 0 <= k < v ==> transfer[k] == steps[k];
  }

  // ---- what each reply leads to

  /** By the bytes of the reply, for each request: too short, refused, in progress (and asked again), or
      granted.  No reply at all ends the run. */
  lemma RequestOutcomes(c: Config, r: Run, step: Step)
    requires step.Ask? && LegalAsk(c, r, step)
    ensures step.reply.None? ==> Next(c, r, step).phase == Aborted(Timeout)
    ensures step.reply.Some? ==>
              var w, next := step.reply.value, Next(c, r, step).phase;
              && (step.opcode == 1 || step.opcode == 2 || step.opcode == 3 || step.opcode == 5 || step.opcode == 6)
              && (step.opcode == 1 ==>
                    next == if |w| < 20 || |w| < 20 + 9 * (w[19] as int) then Aborted(ShortReply) else Informed)
              && (step.opcode == 2 ==>
                    next == if |w| < 4 then Aborted(ShortReply) else if w[2] != 0 then Aborted(Refused(w[2]))
                            else Admitted)
              && (step.opcode == 3 ==>
                    next == if |w| < 11 then Aborted(ShortReply) else if w[2] != 0 then Aborted(Refused(w[2]))
                            else if U32(w, 3) == 0 && U32(w, 7) == 0 then Verifying
                            else Sending(U32(w, 3), U32(w, 7), 0))
              && (step.opcode == 5 ==>
                    next == if |w| < 3 then Aborted(ShortReply) else if w[2] == 0 then Finishing
                            else if w[2] == 2 then Aborted(Refused(2)) else Verifying)
              && (step.opcode == 6 ==>
                    next == if |w| < 12 then Aborted(ShortReply)
                            else if w[2] == 2 then Aborted(Refused(2)) else if w[2] != 0 then Finishing
                            else if U32(w, 3) == 0 && U32(w, 7) == 0 then
                              Complete(UpdateResultResponse(U16(w, 0), 0, 0, 0, w[11]))
                            else Sending(U32(w, 3), U32(w, 7), 0))
  {
  }

  /** A block that is not acknowledged is due again, with one failure more, as long as attempts are left;
      the last failure ends the run.  An acknowledged one leads to what its reply asks for. */
  lemma AttemptOutcomes(c: Config, r: Run, step: Step)
    requires step.Attempt? && LegalAttempt(c, r, step)
    ensures var next, left := Next(c, r, step).phase, r.phase.failures + 1 < c.retries;
            var again := r.phase.(failures := r.phase.failures + 1);
            match step.reply
            case None => next == if left then again else Aborted(Timeout)
            case Some(w) =>
              next == if |w| < 11 then Aborted(ShortReply)
                      else if w[2] != 0 then if left then again else Aborted(BlockRejected(w[2]))
                      else if U32(w, 3) == 0 && U32(w, 7) == 0 then Verifying
                      else Sending(U32(w, 3), U32(w, 7), 0)
  {
    hide ChunksOf, InRange, Issue;
  }

  lemma LastFails(c: Config, r: Run, step: Step)
    requires step.Attempt? && Next(c, r, step).phase.Aborted?
    requires step.reply.Some? ==> |step.reply.value| >= 11
    ensures r.phase.Sending? && r.phase.failures < c.retries <= r.phase.failures + 1
    ensures FailedOn(c, step, r.phase.offset, r.phase.length)
    ensures step.offset == r.phase.offset && |step.data| == r.phase.length
    ensures Next(c, r, step).phase.error == match step.reply
                                            case None => Timeout
                                            case Some(w) => BlockRejected(w[2])
  {
    hide ChunksOf, InRange, Issue;
  }

  /** An attempt ends the run, unless its reply is too short, only after all the attempts on one block
      failed: the last `retries` steps sent it, the same bytes at the same offset, and none was
      acknowledged; the step before them asked for it.  The error is that of the last. */
  lemma AbortExplained(c: Config, sn: word, steps: seq<Step>)
    requires steps != [] && steps[|steps| - 1].Attempt? && Play(c, sn, steps).phase.Aborted?
    requires var reply := steps[|steps| - 1].reply; reply.Some? ==> |reply.value| >= 11
    ensures 1 <= c.retries < |steps|
    ensures var step, asked := steps[|steps| - 1], steps[|steps| - 1 - c.retries];
            && AskedFor(asked) == Some((step.offset, |step.data|))
            && AllFailedOn(c, steps, |steps| - c.retries, step.offset, |step.data|)
            && Play(c, sn, steps).phase.error == match step.reply
                                                 case None => Timeout
                                                 case Some(w) => BlockRejected(w[2])
  {
    hide Opened, TransferOver, Verified, ChunksOf, InRange, Issue, Next, LegalAttempt, ParseBlock, FailedOn, AskedFor,
         Acknowledged;
    var n := |steps| - 1;
    var before := steps[..n];
    PhaseExplained(c, sn, before);
    var phase := Play(c, sn, before).phase;
    LastFails(c, Play(c, sn, before), steps[n]);
    FailedOnMore(c, before, steps[n], n - phase.failures, phase.offset, phase.length);
    assert steps == before + [steps[n]];
    assert before[n - 1 - phase.failures] == steps[n - c.retries];
  }

  lemma FailedOnMore(c: Config, steps: seq<Step>, step: Step, from: nat, offset: dword, length: dword)
    requires AllFailedOn(c, steps, from, offset, length) && FailedOn(c, step, offset, length)
    ensures AllFailedOn(c, steps + [step], from, offset, length)
  {
    hide FailedOn;
    forall k: nat | from <= k < |steps + [step]| ensures FailedOn(c, (steps + [step])[k], offset, length) {
      if k < |steps| {
        assert (steps + [step])[k] == steps[k];
      }
    }
  }

  // ---- how long a run is

  predicate AsksForBlock(step: Step) {
    AskedFor(step).Some? && AskedFor(step) != Some((0, 0))
  }

  function CountOf(what: Step -> bool, steps: seq<Step>): (n: nat)
    ensures n <= |steps|
    decreases |steps|
  {
    if steps == [] then 0
    else CountOf(what, steps[..|steps| - 1]) + if what(steps[|steps| - 1]) then 1 else 0
  }

  function Requests(steps: seq<Step>): (n: nat)
    ensures n <= |steps|
  {
    CountOf(AsksForBlock, steps)
  }

  function Attempts(steps: seq<Step>): (n: nat)
    ensures n <= |steps|
  {
    CountOf((step: Step) => step.Attempt?, steps)
  }

  function Polls(steps: seq<Step>): (n: nat)
    ensures n <= |steps|
  {
    CountOf(IsPoll, steps)
  }

  lemma CountsMore(steps: seq<Step>, step: Step)
    ensures Requests(steps + [step]) == Requests(steps) + if AsksForBlock(step) then 1 else 0
    ensures Attempts(steps + [step]) == Attempts(steps) + if step.Attempt? then 1 else 0
    ensures Polls(steps + [step]) == Polls(steps) + if IsPoll(step) then 1 else 0
  {
    assert (steps + [step])[..|steps|] == steps;
  }

  /** What the counts r, a and p of a run of n steps allow in each phase. */
  predicate Within(c: Config, phase: Phase, n: nat, r: nat, a: nat, p: nat) {
    match phase
    case Opening => n == 0 && a == 0
    case Informed => n == 1 && a == 0
    case Admitted => n == 2 && a == 0
    case Sending(_, _, failures) => r >= 1 && a <= c.retries * (r - 1) + failures && n <= 3 + a + p
    case Wrong => true
    case _ => a <= c.retries * r && n <= 3 + a + p
  }

  lemma OneBlockMore(m: nat, r: nat)
    ensures 0 <= m * r && m * (r + 1) == m * r + m && (r >= 1 ==> m * r == m * (r - 1) + m)
  {
  }

  lemma AskWithin(c: Config, r: Run, step: Step, n: nat, q: nat, a: nat, p: nat)
    requires c.retries >= 1 && step.Ask? && LegalAsk(c, r, step) && Within(c, r.phase, n, q, a, p)
    ensures Within(c, Next(c, r, step).phase, n + 1, q + if AsksForBlock(step) then 1 else 0,
                   a, p + if IsPoll(step) then 1 else 0)
  {
    OneBlockMore(c.retries, q);
  }

  lemma AttemptWithin(c: Config, r: Run, step: Step, n: nat, q: nat, a: nat, p: nat)
    requires c.retries >= 1 && step.Attempt? && LegalAttempt(c, r, step) && Within(c, r.phase, n, q, a, p)
    ensures Within(c, Next(c, r, step).phase, n + 1, q + if AsksForBlock(step) then 1 else 0, a + 1, p)
  {
    hide ChunksOf, InRange, Issue;
    OneBlockMore(c.retries, q);
  }

  lemma NothingWithin(c: Config, sn: word)
    ensures Within(c, Play(c, sn, []).phase, 0, Requests([]), Attempts([]), Polls([]))
  {
  }

  lemma {:induction false} RunWithin(c: Config, sn: word, steps: seq<Step>)
    requires Legal(c, sn, steps) && c.retries >= 1
    ensures Within(c, Play(c, sn, steps).phase, |steps|, Requests(steps), Attempts(steps), Polls(steps))
    decreases |steps|
  {
    hide Within, Next, LegalAsk, LegalAttempt, Requests, Attempts, Polls, AsksForBlock;
    if steps == [] {
      NothingWithin(c, sn);
    } else {
      var n := |steps| - 1;
      var before, step := steps[..n], steps[n];
      assert steps == before + [step];
      assert Play(c, sn, steps) == Next(c, Play(c, sn, before), step);
      PrefixLegal(c, sn, steps, n);
      RunWithin(c, sn, before);
      StepLegal(c, sn, steps, n);
      CountsMore(before, step);
      if step.Ask? {
        AskWithin(c, Play(c, sn, before), step, n, Requests(before), Attempts(before), Polls(before));
      } else {
        AttemptWithin(c, Play(c, sn, before), step, n, Requests(before), Attempts(before), Polls(before));
      }
    }
  }

  /** With a retry allowed there are at most block_retries attempts for each block asked for, and at
      most the three opening requests, those attempts and the polls in all.  So a run can go on only
      as long as the device keeps asking for blocks or the polls go on. */
  lemma RunIsBounded(c: Config, sn: word, steps: seq<Step>)
    requires Legal(c, sn, steps) && c.retries >= 1
    ensures Attempts(steps) <= c.retries * Requests(steps)
    ensures |steps| <= 3 + c.retries * Requests(steps) + Polls(steps)
    ensures Requests(steps) <= |steps| && Polls(steps) <= |steps|
  {
    hide Requests, Attempts, Polls, Play;
    RunWithin(c, sn, steps);
    OneBlockMore(c.retries, Requests(steps));
    SendingIsBelow(c, sn, steps);
  }

  lemma SendingIsBelow(c: Config, sn: word, steps: seq<Step>)
    requires c.retries >= 1
    ensures var phase := Play(c, sn, steps).phase; phase.Sending? ==> phase.failures < c.retries
  {
    PhaseExplained(c, sn, steps);
  }

  // ---- a device that never stops asking

  function InfoBytes(s: word): bytes {
    LE16(s) + seq(18, _ => 0)
  }

  function AckBytes(s: word): bytes {
    BlockBytes(BlockResponse(s, RESULT_OK, 0, 1))
  }

  /** The opening requests, each granted; the last reply asks for the first byte. */
  function Grant(c: Config, sn: word): seq<Step>
    requires Usable(c.image)
  {
    var header := c.image.headerInfo;
    [Ask(OP_GET_INFO, Issue(sn, 1), [0], Some(InfoBytes(Issue(sn, 1)))),
     Ask(OP_CAN_UPDATE, Issue(sn, 2), LE16(|header|) + header, Some(LE16(Issue(sn, 2)) + [0, 0])),
     Ask(OP_ENTER_UPDATE, Issue(sn, 3), [], Some(AckBytes(Issue(sn, 3))))]
  }

  /** The first byte is sent; the device acknowledges it and asks for it again. */
  function Beat(c: Config, start: word): Step
    requires c.image.data != []
  {
    Attempt(start, 0, c.image.data[..1], Some(AckBytes(NextSerial(start))))
  }

  function Beats(c: Config, sn: word, n: nat): (steps: seq<Step>)
    requires Usable(c.image) && c.image.data != []
    ensures |steps| == n + 3
  {
    if n == 0 then Grant(c, sn) else Beats(c, sn, n - 1) + [Beat(c, Issue(sn, n + 2))]
  }

  lemma InfoReply(s: word)
    ensures |InfoBytes(s)| == 20 && U16(InfoBytes(s), 0) == s && ParseDeviceInfo(InfoBytes(s)).Some?
  {
    var w := InfoBytes(s);
    assert w[0..2] == LE16(s);
    ReadLE16(w, 0, s);
  }

  lemma AckReply(s: word)
    ensures var w := AckBytes(s); |w| >= 2 && U16(w, 0) == s && ParseBlock(w) == Some(BlockResponse(s, RESULT_OK, 0, 1))
  {
    BlockFields(AckBytes(s), BlockResponse(s, RESULT_OK, 0, 1));
  }

  lemma GrantRuns(c: Config, sn: word)
    requires Usable(c.image)
    ensures Play(c, sn, Grant(c, sn)) == Run(Issue(sn, 3), Sending(0, 1, 0))
  {
    hide U16, U32, LE16, LE32, ParseDeviceInfo, ParseBlock, ParseCanUpdate, BlockBytes, InfoBytes, AckBytes;
    var steps := Grant(c, sn);
    var s1, s2, s3 := Issue(sn, 1), Issue(sn, 2), Issue(sn, 3);
    InfoReply(s1);
    CanReply(s2);
    AckReply(s3);
    assert Issue(sn, 0) == sn;
    assert steps[..3] == steps && steps[..0] == [];
    PlayOne(c, sn, steps, 0);
    assert Play(c, sn, steps[..1]) == Run(s1, Informed);
    PlayOne(c, sn, steps, 1);
    assert Play(c, sn, steps[..2]) == Run(s2, Admitted);
    PlayOne(c, sn, steps, 2);
  }

  lemma CanReply(s: word)
    ensures var w := LE16(s) + [0, 0]; U16(w, 0) == s && ParseCanUpdate(w) == Some(CanUpdateResponse(s, 0, 0))
  {
    var w := LE16(s) + [0, 0];
    assert w[0..2] == LE16(s);
    ReadLE16(w, 0, s);
    ShortRoundTrips(w, s, 0, 0);
  }

  lemma BeatChunks(c: Config, start: word)
    requires c.image.data != []
    ensures ChunksOf(c.limit, Beat(c, start)) == [Chunk(NextSerial(start), 0, c.image.data[..1])]
    ensures Issue(start, 1) == NextSerial(start) && InRange(start, 1, NextSerial(start))
  {
    var data := c.image.data[..1];
    var first: Chunk := Chunk(NextSerial(start), 0, data);
    assert data[..1] == data && data[1..] == [];
    assert Burst(c.limit, start, 0, data) == [first] + Burst(c.limit, NextSerial(start), 1, data[1..]);
    assert Burst(c.limit, NextSerial(start), 1, data[1..]) == [];
    assert [first] + [] == [first];
    OneInRange(start);
  }

  lemma BeatRuns(c: Config, start: word)
    requires Usable(c.image) && c.image.data != [] && c.retries >= 1
    ensures Next(c, Run(start, Sending(0, 1, 0)), Beat(c, start)) == Run(NextSerial(start), Sending(0, 1, 0))
    ensures Acknowledged(Beat(c, start)) && AskedFor(Beat(c, start)) == Some((0, 1))
  {
    hide U16, ChunksOf, InRange, Issue, ParseBlock, AckBytes;
    BeatChunks(c, start);
    AckReply(NextSerial(start));
    assert c.image.data[0..1] == c.image.data[..1];
  }

  lemma {:induction false} BeatsRun(c: Config, sn: word, n: nat)
    requires Usable(c.image) && c.image.data != [] && c.retries >= 1
    ensures Play(c, sn, Beats(c, sn, n)) == Run(Issue(sn, n + 3), Sending(0, 1, 0))
    decreases n
  {
    if n == 0 {
      GrantRuns(c, sn);
    } else {
      hide Grant, Beat, Next, Usable;
      var before := Beats(c, sn, n - 1);
      var steps := before + [Beat(c, Issue(sn, n + 2))];
      BeatsRun(c, sn, n - 1);
      BeatRuns(c, Issue(sn, n + 2));
      assert steps[..n + 2] == before;
      assert Play(c, sn, steps) == Next(c, Play(c, sn, before), steps[n + 2]);
    }
  }

  lemma {:induction false} BeatsAcknowledged(c: Config, sn: word, n: nat, k: nat)
    requires Usable(c.image) && c.image.data != [] && c.retries >= 1 && 3 <= k < n + 3
    ensures Acknowledged(Beats(c, sn, n)[k]) && AskedFor(Beats(c, sn, n)[k]) == Some((0, 1))
    decreases n
  {
    hide Grant, Beat, Acknowledged, AskedFor, Usable;
    if k == n + 2 {
      BeatRuns(c, Issue(sn, n + 2));
    } else {
      BeatsAcknowledged(c, sn, n - 1, k);
    }
  }

  lemma {:induction false} BeatsFit(c: Config, sn: word, n: nat)
    requires Usable(c.image) && c.image.data != []
    ensures AllFit(Beats(c, sn, n))
    decreases n
  {
    if n > 0 {
      BeatsFit(c, sn, n - 1);
    }
  }

  /** However many retries are allowed, there is a run of every length in which nothing is lost: each
      block sent is acknowledged, and the same block is asked for again.  Nothing in the upgrade ends
      it, and some script makes the client take it. */
  lemma EndlessRun(c: Config, sn: word, n: nat) returns (steps: seq<Step>)
    requires Usable(c.image) && c.image.data != [] && c.retries >= 1
    ensures |steps| == n + 3 && Play(c, sn, steps).phase == Sending(0, 1, 0)
    ensures forall k :: 3 <= k < |steps| ==> Acknowledged(steps[k]) && AskedFor(steps[k]) == Some((0, 1))
    ensures exists l :: TakesUnder(c, sn, steps, l)
  {
    hide Acknowledged, AskedFor, Usable, Play, AllFit, TakesUnder;
    steps := Beats(c, sn, n);
    BeatsRun(c, sn, n);
    forall k | 3 <= k < n + 3 ensures Acknowledged(steps[k]) && AskedFor(steps[k]) == Some((0, 1)) {
      BeatsAcknowledged(c, sn, n, k);
    }
    BeatsFit(c, sn, n);
    RunsAreLegalRuns(c, sn, steps);
  }

  // ---- a reply that comes too late

  lemma {:induction false} BeatsIssued(c: Config, sn: word, n: nat)
    requires Usable(c.image) && c.image.data != []
    ensures Issued(c, Beats(c, sn, n)) == n + 3
    ensures n > 0 ==> Beats(c, sn, n)[3] == Beat(c, Issue(sn, 3))
    decreases n
  {
    if n == 0 {
      var steps := Grant(c, sn);
      assert steps[..2][..1] == steps[..1] && steps[..1][..0] == [];
      assert Issued(c, steps[..1]) == 1 && Issued(c, steps[..2]) == 2;
    } else {
      hide Grant, Beat, Usable, ChunksOf;
      var before := Beats(c, sn, n - 1);
      BeatsIssued(c, sn, n - 1);
      BeatChunks(c, Issue(sn, n + 2));
      var steps := before + [Beat(c, Issue(sn, n + 2))];
      assert steps[..n + 2] == before;
      BeatIsAttempt(c, Issue(sn, n + 2));
    }
  }

  lemma BeatIsAttempt(c: Config, start: word)
    requires c.image.data != []
    ensures Beat(c, start).Attempt? && Beat(c, start).reply == Some(AckBytes(NextSerial(start)))
  {
  }

  /** The bound on the delay is tight: there is a run in which an OK reply to a packet, 65535 serial
      numbers later, is taken for another one. */
  lemma LateReplyIsTaken(c: Config, sn: word) returns (steps: seq<Step>, j: nat)
    requires Usable(c.image) && c.image.data != [] && c.retries >= 1
    ensures Legal(c, sn, steps) && 3 < j < |steps| && Acknowledged(steps[j]) && steps[j].reply == steps[3].reply
    ensures Carried(sn, steps[j], 4) && Issued(c, steps[..j + 1]) - 4 == LAST_SERIAL && 4 <= Issued(c, steps[..j])
    ensures exists l :: TakesUnder(c, sn, steps, l)
  {
    hide Grant, Beat, Usable, Next, Issue, Play, Issued, Acknowledged, AllFit, TakesUnder;
    var n := LAST_SERIAL + 1;
    steps, j := Beats(c, sn, n), n + 2;
    BeatsRun(c, sn, n);
    BeatsAcknowledged(c, sn, n, j);
    BeatsIssued(c, sn, n);
    BeatsIssued(c, sn, n - 1);
    assert steps == Beats(c, sn, n - 1) + [Beat(c, Issue(sn, n + 2))];
    assert steps[..j + 1] == steps && steps[..j] == Beats(c, sn, n - 1);
    BeatIsAttempt(c, Issue(sn, n + 2));
    BeatIsAttempt(c, Issue(sn, 3));
    NextIsIssue(sn, n + 2);
    NextIsIssue(sn, 3);
    IssueRepeats(sn, 4);
    AckReply(Issue(sn, 4));
    BeatsFit(c, sn, n);
    RunsAreLegalRuns(c, sn, steps);
  }

  lemma NextIsIssue(sn: word, n: nat)
    ensures NextSerial(Issue(sn, n)) == Issue(sn, n + 1)
  {
  }
}
