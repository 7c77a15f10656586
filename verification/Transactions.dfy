/**
 Request and answer matching on the control channel: _next_seq, _transact and _handle_frame of
 client.py as the atomic sections their locks make of them, under any interleaving of any number of
 callers with the reader.
 */
module Transactions {
  import opened Bytes
  import opened ControlFrames

  const HELLO_ACK: byte := 0x02
  const RSP: byte := 0x11
  const WINDOW := 256

  /** A frame from the device, with the number of the request it answers (which the frame itself
      does not carry: all it has is that request's sequence number). */
  datatype Arrival = Arrival(frame: Frame, origin: nat)

  /** How far a caller of _transact has come. */
  datatype Stage =
    | Allocated                            // has its sequence number
    | Waiting                              // is in the pending map
    | Over(result: Option<Arrival>)        // has its answer, or has given up
    | Closed(result: Option<Arrival>)      // is out of the map

  /** Requests are numbered in the order of their sequence allocations. */
  datatype Ticket = Ticket(seqNo: byte, expected: byte, stage: Stage, answer: Option<Arrival>)

  /** The reader between its look at the map and its write to the request found there. */
  datatype Reader = Idle | Found(ticket: nat, arrival: Arrival)

  datatype State = State(nextSeq: byte, tickets: seq<Ticket>, pending: map<byte, nat>, reader: Reader)

  const START := State(0, [], map[], Idle)

  datatype Action =
    | Begin(expected: byte)
    | Register(ticket: nat)
    | Look(arrival: Arrival)
    | Deliver
    | Conclude(ticket: nat)
    | Fail(ticket: nat)
    | Pop(ticket: nat)

  predicate At(s: State, t: nat, stage: Stage) {
    t < |s.tickets| && s.tickets[t].stage == stage
  }

  predicate IsOver(s: State, t: nat) {
    t < |s.tickets| && s.tickets[t].stage.Over?
  }

  predicate Enabled(s: State, a: Action) {
    match a
    case Begin(_) => true
    case Register(t) => At(s, t, Allocated)
    case Look(x) => s.reader.Idle? && (x.frame.frameType == HELLO_ACK || x.frame.frameType == RSP)
    case Deliver => s.reader.Found? && s.reader.ticket < |s.tickets|
    case Conclude(t) => At(s, t, Waiting)
    case Fail(t) => At(s, t, Waiting)
    case Pop(t) => IsOver(s, t)
  }

  function SetStage(s: State, t: nat, stage: Stage): State
    requires t < |s.tickets|
  {
    s.(tickets := s.tickets[t := s.tickets[t].(stage := stage)])
  }

  function Apply(s: State, a: Action): State
    requires Enabled(s, a)
  {
    match a
    case Begin(expected) =>
      s.(nextSeq := (s.nextSeq + 1) % 256, tickets := s.tickets + [Ticket(s.nextSeq, expected, Allocated, None)])
    case Register(t) => SetStage(s, t, Waiting).(pending := s.pending[s.tickets[t].seqNo := t])
    case Look(x) =>
      if x.frame.seqNo in s.pending then
        var t := s.pending[x.frame.seqNo];
        if t < |s.tickets| && s.tickets[t].expected == x.frame.frameType then s.(reader := Found(t, x)) else s
      else s
    case Deliver =>
      var t := s.reader.ticket;
      s.(tickets := s.tickets[t := s.tickets[t].(answer := Some(s.reader.arrival))], reader := Idle)
    case Conclude(t) => SetStage(s, t, Over(s.tickets[t].answer))
    case Fail(t) => SetStage(s, t, Over(None))
    case Pop(t) => SetStage(s, t, Closed(s.tickets[t].stage.result)).(pending := s.pending - {s.tickets[t].seqNo})
  }

  /** The reader's two actions on one frame, when no caller comes in between. */
  function Handle(s: State, x: Arrival): State {
    if !Enabled(s, Look(x)) then s
    else
      var looked := Apply(s, Look(x));
      if Enabled(looked, Deliver) then Apply(looked, Deliver) else looked
  }

  function HandleAll(s: State, xs: seq<Arrival>): State
    decreases |xs|
  {
    if xs == [] then s else Handle(HandleAll(s, xs[..|xs| - 1]), xs[|xs| - 1])
  }

  // ---- runs

  /** One state after another, from a fresh client on, with every interleaving allowed. */
  ghost predicate Run(states: seq<State>, actions: seq<Action>) {
    && |states| == |actions| + 1 && states[0] == START
    && forall i :: 0 <= i < |actions| ==> Steps(states[i], actions[i], states[i + 1])
  }

  predicate Steps(s: State, a: Action, next: State) {
    Enabled(s, a) && next == Apply(s, a)
  }

  predicate InFlight(s: State, t: nat)
    requires t < |s.tickets|
  {
    !s.tickets[t].stage.Closed?
  }

  /** Every request in flight is among the 256 most recent sequence allocations. */
  ghost predicate Window(s: State) {
    forall t :: 0 <= t < |s.tickets| && InFlight(s, t) ==> |s.tickets| - t <= WINDOW
  }

  ghost predicate AlwaysWindow(states: seq<State>) {
    forall i :: 0 <= i < |states| ==> Window(states[i])
  }

  /** An answer carries the sequence number of its request, and comes before 256 further allocations. */
  predicate Timely(s: State, x: Arrival) {
    x.origin < |s.tickets| && s.tickets[x.origin].seqNo == x.frame.seqNo && |s.tickets| - x.origin <= WINDOW
  }

  ghost predicate AlwaysTimely(states: seq<State>, actions: seq<Action>)
    requires |states| == |actions| + 1
  {
    forall i :: 0 <= i < |actions| && actions[i].Look? ==> Timely(states[i], actions[i].arrival)
  }

  // ---- what every state keeps

  /** The request is in the map, or should be. */
  predicate Registered(s: State, t: nat)
    requires t < |s.tickets|
  {
    s.tickets[t].stage.Waiting? || s.tickets[t].stage.Over?
  }

  predicate Numbered(s: State) {
    && s.nextSeq == |s.tickets| % 256
    && forall t :: 0 <= t < |s.tickets| ==> s.tickets[t].seqNo == t % 256
  }

  /** Every registered request has its own entry ... */
  ghost predicate Entered(s: State) {
    forall t :: 0 <= t < |s.tickets| && Registered(s, t) ==>
      s.tickets[t].seqNo in s.pending && s.pending[s.tickets[t].seqNo] == t
  }

  /** ... and every entry is that of a registered request. */
  ghost predicate Owned(s: State) {
    forall q :: q in s.pending ==>
      s.pending[q] < |s.tickets| && Registered(s, s.pending[q]) && s.tickets[s.pending[q]].seqNo == q
  }

  /** x may be given to request k. */
  predicate Fits(k: Ticket, x: Option<Arrival>) {
    x.Some? ==> x.value.frame.seqNo == k.seqNo && x.value.frame.frameType == k.expected
  }

  /** What the caller returns; None if it has not ended, or has given up. */
  function ResultOf(k: Ticket): Option<Arrival> {
    if k.stage.Over? || k.stage.Closed? then k.stage.result else None
  }

  predicate MatchedTicket(k: Ticket) {
    Fits(k, k.answer) && Fits(k, ResultOf(k))
  }

  /** A frame has reached, or is on its way to, only a request with its number and type. */
  ghost predicate Matched(s: State) {
    && (forall t :: 0 <= t < |s.tickets| ==> MatchedTicket(s.tickets[t]))
    && (s.reader.Found? ==> s.reader.ticket < |s.tickets| && Fits(s.tickets[s.reader.ticket], Some(s.reader.arrival)))
  }

  ghost predicate Kept(s: State) {
    Numbered(s) && Entered(s) && Owned(s) && Matched(s)
  }

  lemma SameNumber(t: nat, u: nat)
    requires t % 256 == u % 256 && t - u < WINDOW && u - t < WINDOW
    ensures t == u
  {
  }

  lemma BeginKeeps(s: State, expected: byte)
    requires Kept(s)
    ensures Kept(Apply(s, Begin(expected)))
  {
    var next := Apply(s, Begin(expected));
    forall t | 0 <= t < |s.tickets| ensures next.tickets[t] == s.tickets[t] {
    }
    assert Numbered(next);
    assert Entered(next);
    assert Owned(next);
    assert Matched(next);
  }

  /** In the window no other request has this one's number. */
  lemma RegisterKeeps(s: State, t: nat)
    requires Kept(s) && Window(s) && Enabled(s, Register(t))
    ensures Kept(Apply(s, Register(t)))
  {
    var next := Apply(s, Register(t));
    forall u | 0 <= u < |s.tickets| && Registered(next, u)
      ensures next.tickets[u].seqNo in next.pending && next.pending[next.tickets[u].seqNo] == u
    {
      if u != t {
        assert Registered(s, u) && InFlight(s, u) && InFlight(s, t);
        if s.tickets[u].seqNo == s.tickets[t].seqNo {
          SameNumber(t, u);
        }
      }
    }
    assert Matched(next);
  }

  /** No other request in the map has this one's number. */
  ghost predicate OwnNumber(s: State, t: nat)
    requires t < |s.tickets|
  {
    forall u :: 0 <= u < |s.tickets| && u != t && Registered(s, u) ==> s.tickets[u].seqNo != s.tickets[t].seqNo
  }

  /** In the window or not, registration overwrites no entry exactly when the number is not in use. */
  lemma RegisterKeepsExactly(s: State, t: nat)
    requires Kept(s) && Enabled(s, Register(t))
    ensures Kept(Apply(s, Register(t))) <==> OwnNumber(s, t)
  {
    var next := Apply(s, Register(t));
    assert Registered(next, t) && Matched(next);
    forall u | 0 <= u < |s.tickets| && u != t && Registered(s, u)
      ensures Registered(next, u) && next.tickets[u].seqNo == s.tickets[u].seqNo
    {
    }
  }

  lemma LookKeeps(s: State, x: Arrival)
    requires Kept(s) && Enabled(s, Look(x))
    ensures Kept(Apply(s, Look(x)))
  {
  }

  lemma DeliverKeeps(s: State)
    requires Kept(s) && Enabled(s, Deliver)
    ensures Kept(Apply(s, Deliver))
  {
  }

  lemma EndKeeps(s: State, t: nat, result: Option<Arrival>)
    requires Kept(s) && At(s, t, Waiting) && Fits(s.tickets[t], result)
    ensures Kept(SetStage(s, t, Over(result)))
  {
  }

  /** Taking a request out of the map takes out its own entry and no other. */
  lemma PopKeeps(s: State, t: nat)
    requires Kept(s) && Enabled(s, Pop(t))
    ensures var next := Apply(s, Pop(t));
            && Kept(next) && s.tickets[t].seqNo in s.pending && s.pending[s.tickets[t].seqNo] == t
            && forall q :: q in s.pending && s.pending[q] != t ==> q in next.pending && next.pending[q] == s.pending[q]
  {
    var next := Apply(s, Pop(t));
    forall u | 0 <= u < |s.tickets| && Registered(next, u)
      ensures next.tickets[u].seqNo in next.pending && next.pending[next.tickets[u].seqNo] == u
    {
      assert u != t && Registered(s, u);
    }
    assert MatchedTicket(s.tickets[t]);
  }

  lemma StepKeeps(s: State, a: Action)
    requires Kept(s) && Window(s) && Enabled(s, a)
    ensures Kept(Apply(s, a))
  {
    hide Kept, Window;
    match a
    case Begin(expected) => BeginKeeps(s, expected);
    case Register(t) => RegisterKeeps(s, t);
    case Look(x) => LookKeeps(s, x);
    case Deliver => DeliverKeeps(s);
    case Conclude(t) => AnswerFits(s, t); EndKeeps(s, t, s.tickets[t].answer);
    case Fail(t) => EndKeeps(s, t, None);
    case Pop(t) => PopKeeps(s, t);
  }

  lemma AnswerFits(s: State, t: nat)
    requires Kept(s) && t < |s.tickets|
    ensures Fits(s.tickets[t], s.tickets[t].answer)
  {
  }

  /** Under any interleaving that stays in the window, the map holds exactly one entry for each
      registered request, its own, and a frame reaches only a request with its number and type. */
  lemma {:induction false} RunKeeps(states: seq<State>, actions: seq<Action>, i: nat)
    requires Run(states, actions) && AlwaysWindow(states) && i < |states|
    ensures Kept(states[i])
    decreases i
  {
    if i > 0 {
      RunKeeps(states, actions, i - 1);
      assert Steps(states[i - 1], actions[i - 1], states[i]);
      StepKeeps(states[i - 1], actions[i - 1]);
    }
  }

  /** Entries of different requests are different, and there are no others. */
  lemma EntriesAreRequests(s: State, t: nat, u: nat)
    requires Kept(s) && t < |s.tickets| && u < |s.tickets| && Registered(s, t) && Registered(s, u)
    ensures s.tickets[t].seqNo == s.tickets[u].seqNo <==> t == u
    ensures t in s.pending.Values
  {
    assert s.tickets[t].seqNo in s.pending.Keys;
  }

  lemma HandleKeeps(s: State, x: Arrival)
    requires Kept(s)
    ensures Kept(Handle(s, x))
  {
    hide Kept, Apply;
    if Enabled(s, Look(x)) {
      LookKeeps(s, x);
      if Enabled(Apply(s, Look(x)), Deliver) {
        DeliverKeeps(Apply(s, Look(x)));
      }
    }
  }

  lemma {:induction false} HandleAllKeeps(s: State, xs: seq<Arrival>)
    requires Kept(s)
    ensures Kept(HandleAll(s, xs))
    decreases |xs|
  {
    if xs != [] {
      HandleAllKeeps(s, xs[..|xs| - 1]);
      HandleKeeps(HandleAll(s, xs[..|xs| - 1]), xs[|xs| - 1]);
    }
  }

  // ---- what the reader does to the requests

  predicate From(t: nat, x: Option<Arrival>) {
    x.Some? ==> x.value.origin == t
  }

  /** The frame is an answer that this request is waiting for. */
  predicate Answers(k: Ticket, x: Arrival) {
    && (x.frame.frameType == 0x02 || x.frame.frameType == 0x11)
    && x.frame.frameType == k.expected && x.frame.seqNo == k.seqNo
  }

  /** From s to next only answers may have changed. */
  predicate SameButAnswers(s: State, next: State) {
    && next.nextSeq == s.nextSeq && next.pending == s.pending && next.reader == s.reader
    && |next.tickets| == |s.tickets|
    && forall t :: 0 <= t < |s.tickets| ==> next.tickets[t] == s.tickets[t].(answer := next.tickets[t].answer)
  }

  /** A frame handled is given to the registered request it answers, and nothing else changes. */
  lemma HandleGives(s: State, x: Arrival)
    requires Kept(s) && s.reader.Idle?
    ensures var next := Handle(s, x);
            && SameButAnswers(s, next)
            && forall t :: 0 <= t < |s.tickets| ==>
                 next.tickets[t].answer == if Registered(s, t) && Answers(s.tickets[t], x) then Some(x)
                                           else s.tickets[t].answer
  {
  }

  /** The answer of a request after the frames xs, of which it takes the last one that answers it. */
  ghost predicate LastAnswer(k: Ticket, xs: seq<Arrival>, answer: Option<Arrival>) {
    || (answer == k.answer && forall i :: 0 <= i < |xs| ==> !Answers(k, xs[i]))
    || exists i :: LastAnswerAt(k, xs, i) && answer == Some(xs[i])
  }

  ghost predicate LastAnswerAt(k: Ticket, xs: seq<Arrival>, i: int) {
    0 <= i < |xs| && Answers(k, xs[i]) && forall j :: i < j < |xs| ==> !Answers(k, xs[j])
  }

  lemma LastAnswerMore(k: Ticket, xs: seq<Arrival>, x: Arrival, before: Option<Arrival>)
    requires LastAnswer(k, xs, before)
    ensures LastAnswer(k, xs + [x], if Answers(k, x) then Some(x) else before)
  {
    var all := xs + [x];
    if Answers(k, x) {
      assert LastAnswerAt(k, all, |xs|);
    } else if exists i :: LastAnswerAt(k, xs, i) && before == Some(xs[i]) {
      var i :| LastAnswerAt(k, xs, i) && before == Some(xs[i]);
      assert LastAnswerAt(k, all, i);
    }
  }

  /** From s to next, exactly the registered requests have got the last of their answers among xs. */
  ghost predicate Given(s: State, xs: seq<Arrival>, next: State) {
    && SameButAnswers(s, next)
    && forall t :: 0 <= t < |s.tickets| ==>
         if Registered(s, t) then LastAnswer(s.tickets[t], xs, next.tickets[t].answer)
         else next.tickets[t].answer == s.tickets[t].answer
  }

  /** What the frames of a read do: each registered request has the last of them that answers it, or,
      if none does, what it had; no other request, no entry and no number changes. */
  lemma {:induction false} HandleAllGives(s: State, xs: seq<Arrival>)
    requires Kept(s) && s.reader.Idle?
    ensures Given(s, xs, HandleAll(s, xs))
    decreases |xs|
  {
    hide Kept, Handle, LastAnswer, Answers;
    if xs == [] {
      forall t | 0 <= t < |s.tickets| ensures LastAnswer(s.tickets[t], xs, s.tickets[t].answer) {
        NoAnswers(s.tickets[t]);
      }
    } else {
      var before, x := xs[..|xs| - 1], xs[|xs| - 1];
      var mid := HandleAll(s, before);
      HandleAllGives(s, before);
      HandleAllKeeps(s, before);
      HandleGives(mid, x);
      assert xs == before + [x];
      forall t | 0 <= t < |s.tickets| && Registered(s, t)
        ensures LastAnswer(s.tickets[t], xs, Handle(mid, x).tickets[t].answer)
      {
        LastAnswerMore(s.tickets[t], before, x, mid.tickets[t].answer);
        AnswersAlike(s.tickets[t], mid.tickets[t], x);
      }
    }
  }

  lemma NoAnswers(k: Ticket)
    ensures LastAnswer(k, [], k.answer)
  {
  }

  lemma AnswersAlike(k: Ticket, l: Ticket, x: Arrival)
    requires l == k.(answer := l.answer)
    ensures Answers(k, x) <==> Answers(l, x)
  {
  }

  /** In the window, a request whose answer is among the timely frames of a read has its own answer
      after it. */
  lemma ReadGivesOwnAnswer(s: State, xs: seq<Arrival>, i: nat)
    requires Kept(s) && Window(s) && s.reader.Idle?
    requires forall j :: 0 <= j < |xs| ==> Timely(s, xs[j])
    requires i < |xs| && Timely(s, xs[i])
    requires Registered(s, xs[i].origin) && Answers(s.tickets[xs[i].origin], xs[i])
    ensures var t, next := xs[i].origin, HandleAll(s, xs).tickets;
            && |next| == |s.tickets| && next[t].answer.Some?
            && next[t].answer.value in xs && next[t].answer.value.origin == t
  {
    hide Kept, HandleAll;
    HandleAllGives(s, xs);
    var t := xs[i].origin;
    var j :| LastAnswerAt(s.tickets[t], xs, j) && HandleAll(s, xs).tickets[t].answer == Some(xs[j]);
    assert Timely(s, xs[j]) && InFlight(s, t);
    NumbersAre(s, t);
    NumbersAre(s, xs[j].origin);
    SameNumber(t, xs[j].origin);
  }

  /** From s to next, every registered request with an answer among xs has got its own. */
  ghost predicate OwnGiven(s: State, xs: seq<Arrival>, next: State) {
    |next.tickets| == |s.tickets| &&
    forall i :: 0 <= i < |xs| && xs[i].origin < |s.tickets| ==> OwnGivenAt(s, xs, next, i)
  }

  ghost predicate OwnGivenAt(s: State, xs: seq<Arrival>, next: State, i: nat)
    requires i < |xs| && xs[i].origin < |s.tickets| == |next.tickets|
  {
    var t := xs[i].origin;
    Registered(s, t) && Answers(s.tickets[t], xs[i]) ==>
      next.tickets[t].answer.Some? && next.tickets[t].answer.value in xs && From(t, next.tickets[t].answer)
  }

  ghost predicate AllTimely(s: State, xs: seq<Arrival>) {
    forall i :: 0 <= i < |xs| ==> Timely(s, xs[i])
  }

  lemma ReadGivesOwn(s: State, xs: seq<Arrival>)
    requires Kept(s) && Window(s) && s.reader.Idle? && AllTimely(s, xs)
    ensures OwnGiven(s, xs, HandleAll(s, xs))
  {
    hide Kept, Window, HandleAll, Answers, LastAnswer;
    HandleAllGives(s, xs);
    forall i | 0 <= i < |xs| && xs[i].origin < |s.tickets| ensures OwnGivenAt(s, xs, HandleAll(s, xs), i) {
      if Registered(s, xs[i].origin) && Answers(s.tickets[xs[i].origin], xs[i]) {
        ReadGivesOwnAnswer(s, xs, i);
      }
    }
  }

  lemma NumbersAre(s: State, t: nat)
    requires Kept(s) && t < |s.tickets|
    ensures s.tickets[t].seqNo == t % 256
  {
  }

  // ---- timely answers reach their own request

  predicate OwnTicket(t: nat, k: Ticket) {
    From(t, k.answer) && From(t, ResultOf(k))
  }

  ghost predicate OwnAnswers(s: State) {
    && (forall t :: 0 <= t < |s.tickets| ==> OwnTicket(t, s.tickets[t]))
    && (s.reader.Found? ==> From(s.reader.ticket, Some(s.reader.arrival)))
  }

  /** A timely answer is found only for the request it answers. */
  lemma FoundIsOwn(s: State, x: Arrival)
    requires Kept(s) && Window(s) && Enabled(s, Look(x)) && Timely(s, x)
    ensures var found := Apply(s, Look(x)).reader; found.Found? ==> found.ticket == x.origin
  {
    if x.frame.seqNo in s.pending {
      var t := s.pending[x.frame.seqNo];
      assert InFlight(s, t);
      SameNumber(t, x.origin);
    }
  }

  /** And exactly if that request is in the map and expects its type. */
  lemma TimelyIsFound(s: State, x: Arrival)
    requires Kept(s) && Window(s) && Enabled(s, Look(x)) && Timely(s, x)
    ensures Apply(s, Look(x)).reader ==
            if Registered(s, x.origin) && s.tickets[x.origin].expected == x.frame.frameType then Found(x.origin, x)
            else Idle
  {
    FoundIsOwn(s, x);
    assert Registered(s, x.origin) ==> s.pending[x.frame.seqNo] == x.origin;
  }

  lemma LookIsOwn(s: State, x: Arrival)
    requires Kept(s) && Window(s) && Enabled(s, Look(x)) && Timely(s, x) && OwnAnswers(s)
    ensures OwnAnswers(Apply(s, Look(x)))
  {
    FoundIsOwn(s, x);
  }

  lemma OtherIsOwn(s: State, a: Action)
    requires Enabled(s, a) && !a.Look? && OwnAnswers(s)
    ensures OwnAnswers(Apply(s, a))
  {
    var next := Apply(s, a);
    forall t | 0 <= t < |next.tickets| ensures OwnTicket(t, next.tickets[t]) {
      assert t < |s.tickets| ==> OwnTicket(t, s.tickets[t]);
    }
  }

  /** If moreover no answer is delayed past 255 further allocations, what a request gets is its own
      answer. */
  lemma {:induction false} RunGivesOwnAnswers(states: seq<State>, actions: seq<Action>, i: nat)
    requires Run(states, actions) && AlwaysWindow(states) && AlwaysTimely(states, actions) && i < |states|
    ensures OwnAnswers(states[i])
    decreases i
  {
    if i > 0 {
      var s, a := states[i - 1], actions[i - 1];
      RunGivesOwnAnswers(states, actions, i - 1);
      RunKeeps(states, actions, i - 1);
      assert Steps(s, a, states[i]);
      if a.Look? {
        LookIsOwn(s, a.arrival);
      } else {
        OtherIsOwn(s, a);
      }
    }
  }

  // ---- the bounds are tight

  /** Request t fails, and is taken out of the map. */
  function GivenUp(s: State, t: nat): State
    requires At(s, t, Waiting)
  {
    var failed := Apply(s, Fail(t));
    Apply(failed, Pop(t))
  }

  /** One request more in flight, and the map loses an entry: the newcomer takes the place of the
      oldest, whose end then takes the newcomer out. */
  lemma WindowIsTight(s: State, t: nat, expected: byte)
    requires Numbered(s) && At(s, t, Waiting) && |s.tickets| - t == WINDOW
    ensures var n := |s.tickets|;
            var begun := Apply(s, Begin(expected));
            && !Window(begun) && Enabled(begun, Register(n))
            && var both := Apply(begun, Register(n));
               && Registered(both, t) && Registered(both, n) && both.pending[both.tickets[t].seqNo] == n
               && At(both, t, Waiting)
               && var popped := GivenUp(both, t);
                  Registered(popped, n) && popped.tickets[n].seqNo !in popped.pending
  {
    var n := |s.tickets|;
    var begun := Apply(s, Begin(expected));
    assert InFlight(begun, t);
    assert n % 256 == t % 256;
    var both := Apply(begun, Register(n));
    assert both.tickets[n].seqNo == both.tickets[t].seqNo;
    assert !Window(begun);
    var failed := Apply(both, Fail(t));
    assert failed.tickets[n] == both.tickets[n];
  }

  /** An answer delayed by 256 allocations is found for the request that has its number now. */
  lemma LateAnswerIsFound(s: State, x: Arrival)
    requires Kept(s) && Enabled(s, Look(x))
    requires x.origin + WINDOW < |s.tickets| && s.tickets[x.origin].seqNo == x.frame.seqNo
    requires At(s, x.origin + WINDOW, Waiting) && s.tickets[x.origin + WINDOW].expected == x.frame.frameType
    ensures Apply(s, Look(x)).reader == Found(x.origin + WINDOW, x)
  {
    assert Registered(s, x.origin + WINDOW);
  }

  /** One more action at the end of a run. */
  lemma RunOn(states: seq<State>, actions: seq<Action>, a: Action) returns (more: seq<State>, done: seq<Action>)
    requires Run(states, actions) && AlwaysWindow(states)
    requires Enabled(states[|actions|], a) && Window(Apply(states[|actions|], a))
    ensures more == states + [Apply(states[|actions|], a)] && done == actions + [a]
    ensures Run(more, done) && AlwaysWindow(more)
  {
    hide Window, Apply, Enabled;
    more, done := states + [Apply(states[|actions|], a)], actions + [a];
    forall i | 0 <= i < |done| ensures Steps(more[i], done[i], more[i + 1]) {
      if i < |actions| {
        assert Steps(states[i], actions[i], states[i + 1]);
      }
    }
  }

  /** Request t has come and gone with no answer; or it is request 0, which is held and waits. */
  function Past(t: nat, held: bool): Ticket {
    if held && t == 0 then Ticket(0, RSP, Waiting, None) else Ticket(t % 256, RSP, Closed(None), None)
  }

  function Entries(held: bool): map<byte, nat> {
    if held then map[0 := 0] else map[]
  }

  /** n requests are past. */
  ghost predicate Quiet(s: State, n: nat, held: bool) {
    && |s.tickets| == n && s.nextSeq == n % 256 && s.pending == Entries(held) && s.reader == Idle
    && forall t :: 0 <= t < n ==> s.tickets[t] == Past(t, held)
  }

  /** Request n has begun and waits; the others are past. */
  ghost predicate QuietBut(s: State, n: nat, held: bool, k: Ticket) {
    && |s.tickets| == n + 1 && s.nextSeq == (n + 1) % 256 && s.tickets[n] == k
    && forall t :: 0 <= t < n ==> s.tickets[t] == Past(t, held)
  }

  lemma QuietWindow(s: State, n: nat, held: bool, k: Ticket)
    requires (held ==> |s.tickets| <= WINDOW) && (Quiet(s, n, held) || QuietBut(s, n, held, k))
    ensures Window(s)
  {
  }

  lemma WaitFromQuiet(states: seq<State>, actions: seq<Action>, n: nat, held: bool)
    returns (more: seq<State>, done: seq<Action>)
    requires Run(states, actions) && AlwaysWindow(states) && Quiet(states[|actions|], n, held)
    requires held ==> n < WINDOW
    ensures Run(more, done) && AlwaysWindow(more) && |done| == |actions| + 2
    ensures var s := more[|done|];
            && QuietBut(s, n, held, Ticket(n % 256, RSP, Waiting, None))
            && s.pending == Entries(held)[(n % 256) as byte := n] && s.reader == Idle
  {
    hide Window;
    more, done := states, actions;
    QuietWindow(Apply(more[|done|], Begin(RSP)), n, held, Ticket(n % 256, RSP, Allocated, None));
    more, done := RunOn(more, done, Begin(RSP));
    QuietWindow(Apply(more[|done|], Register(n)), n, held, Ticket(n % 256, RSP, Waiting, None));
    more, done := RunOn(more, done, Register(n));
  }

  /** Request n - 1 ends without an answer. */
  lemma EndQuietly(states: seq<State>, actions: seq<Action>, n: nat, held: bool)
    returns (more: seq<State>, done: seq<Action>)
    requires Run(states, actions) && AlwaysWindow(states) && n > 0 && (held ==> 1 < n <= WINDOW)
    requires var s := states[|actions|];
             && QuietBut(s, n - 1, held, Ticket((n - 1) % 256, RSP, Waiting, None))
             && s.pending == Entries(held)[((n - 1) % 256) as byte := n - 1] && s.reader == Idle
    ensures Run(more, done) && AlwaysWindow(more) && Quiet(more[|done|], n, held)
  {
    hide Window;
    more, done := states, actions;
    QuietWindow(Apply(more[|done|], Conclude(n - 1)), n - 1, held, Ticket((n - 1) % 256, RSP, Over(None), None));
    more, done := RunOn(more, done, Conclude(n - 1));
    QuietWindow(Apply(more[|done|], Pop(n - 1)), n - 1, held, Ticket((n - 1) % 256, RSP, Closed(None), None));
    more, done := RunOn(more, done, Pop(n - 1));
  }

  lemma {:induction false} QuietRun(n: nat, held: bool) returns (states: seq<State>, actions: seq<Action>)
    requires held ==> 1 <= n <= WINDOW
    ensures Run(states, actions) && AlwaysWindow(states) && Quiet(states[|actions|], n, held)
    decreases n
  {
    if n == 0 {
      states, actions := [START], [];
    } else {
      hide Window, Run, AlwaysWindow;
      states, actions := QuietRun(n - 1, held && n > 1);
      states, actions := WaitFromQuiet(states, actions, n - 1, held && n > 1);
      if !held || n > 1 {
        states, actions := EndQuietly(states, actions, n, held);
      }
    }
  }

  /** Any action at the end of a run. */
  lemma RunAnyhow(states: seq<State>, actions: seq<Action>, a: Action) returns (more: seq<State>, done: seq<Action>)
    requires Run(states, actions) && Enabled(states[|actions|], a)
    ensures more == states + [Apply(states[|actions|], a)] && done == actions + [a] && Run(more, done)
  {
    hide Apply, Enabled;
    more, done := states + [Apply(states[|actions|], a)], actions + [a];
    forall i | 0 <= i < |done| ensures Steps(more[i], done[i], more[i + 1]) {
      if i < |actions| {
        assert Steps(states[i], actions[i], states[i + 1]);
      }
    }
  }

  /** The bound on the requests in flight is tight: a run stays in the window until request 256 begins
      while request 0 still waits; when request 0 has ended, request 256 is registered and has no
      entry, so no answer finds it. */
  lemma EntryIsLost(expected: byte) returns (states: seq<State>, actions: seq<Action>, i: nat)
    ensures Run(states, actions) && i < |actions| && AlwaysWindow(states[..i + 1])
    ensures actions[i..] == [Begin(expected), Register(WINDOW), Fail(0), Pop(0)] && !Window(states[i + 1])
    ensures var s := states[|actions|];
            && |s.tickets| == WINDOW + 1 && At(s, WINDOW, Waiting) && s.pending == map[] && !Entered(s)
            && forall x :: Enabled(s, Look(x)) ==> Apply(s, Look(x)) == s
  {
    hide Window;
    states, actions := QuietRun(WINDOW, true);
    i := |actions|;
    ghost var before, s := states, states[i];
    WindowIsTight(s, 0, expected);
    states, actions := Overtake(states, actions, expected);
    assert states[..i + 1] == before;
    assert Registered(states[i + 4], WINDOW);
  }

  lemma Overtake(states: seq<State>, actions: seq<Action>, expected: byte)
    returns (more: seq<State>, done: seq<Action>)
    requires Run(states, actions) && Quiet(states[|actions|], WINDOW, true)
    ensures Run(more, done) && states <= more && done == actions + [Begin(expected), Register(WINDOW), Fail(0), Pop(0)]
    ensures more[|states|] == Apply(states[|actions|], Begin(expected))
    ensures var s := more[|done|]; |s.tickets| == WINDOW + 1 && At(s, WINDOW, Waiting) && s.pending == map[]
  {
    more, done := RunAnyhow(states, actions, Begin(expected));
    more, done := RunAnyhow(more, done, Register(WINDOW));
    more, done := RunAnyhow(more, done, Fail(0));
    more, done := RunAnyhow(more, done, Pop(0));
  }

  /** The bound on the delay is tight: there is a run in the window in which the answer to request 0
      comes 256 allocations after it, and request 256 returns it. */
  lemma DelayIsTight(payload: bytes) returns (states: seq<State>, actions: seq<Action>, i: nat, x: Arrival)
    ensures Run(states, actions) && AlwaysWindow(states)
    ensures i < |actions| && actions[i] == Look(x) && x.frame.payload == payload && x.origin == 0
    ensures |states[i].tickets| == WINDOW + 1 && states[i].tickets[0].seqNo == x.frame.seqNo
    ensures var s := states[|actions|]; |s.tickets| == WINDOW + 1 && At(s, WINDOW, Over(Some(x)))
  {
    hide Window;
    x := Arrival(Frame(RSP, 0, payload), 0);
    states, actions := QuietRun(WINDOW, false);
    states, actions := WaitFromQuiet(states, actions, WINDOW, false);
    i := |actions|;
    var k := Ticket(0, RSP, Waiting, None);
    QuietWindow(Apply(states[i], Look(x)), WINDOW, false, k);
    states, actions := RunOn(states, actions, Look(x));
    QuietWindow(Apply(states[i + 1], Deliver), WINDOW, false, k.(answer := Some(x)));
    states, actions := RunOn(states, actions, Deliver);
    QuietWindow(Apply(states[i + 2], Conclude(WINDOW)), WINDOW, false, k.(answer := Some(x), stage := Over(Some(x))));
    states, actions := RunOn(states, actions, Conclude(WINDOW));
  }
}
