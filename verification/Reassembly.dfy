/** ImageReassembler of protocol.py: images out of HEAD, BODY and TAIL sub-frames. */
module Reassembly {
  import opened Bytes
  import opened ImageFrames

  datatype Image = Image(data: bytes, groupId: byte, imgFormat: byte)

  /** What the last recorded problem was about. */
  datatype Problem =
    | NewHead(groupId: byte, pending: byte)
    | WrongGroup(groupId: byte, current: byte)
    | WrongSequence(sequence: int, expected: int)
    | WrongTail(groupId: byte, sequence: int, current: byte, expected: int)
    | Malformed

  datatype State = State(collecting: bool, broken: bool, groupId: byte, expectedSeq: int, imgFormat: byte,
                         chunks: seq<bytes>, lastError: Option<Problem>, completed: nat, dropped: nat)

  const FRESH := State(false, false, 0, 0, FORMAT_JPEG, [], None, 0, 0)

  /** What can happen to a reassembler: a parsed sub-frame, a payload that does not parse, a reset. */
  datatype Input = Frame(x: SubFrame) | Bad | Reset

  // ---- one transition

  function MarkBroken(s: State): State {
    s.(dropped := if s.collecting && !s.broken then s.dropped + 1 else s.dropped, broken := true, chunks := [])
  }

  function OnHead(s: State, x: SubFrame): State {
    var t := if s.collecting then s.(lastError := Some(NewHead(x.groupId, s.groupId)), dropped := s.dropped + 1) else s;
    t.(collecting := true, broken := false, groupId := x.groupId, imgFormat := x.imgFormat, chunks := [],
       expectedSeq := x.sequence + 1)
  }

  function OnBody(s: State, x: SubFrame): State {
    if !s.collecting || s.broken then s
    else if x.groupId != s.groupId then MarkBroken(s.(lastError := Some(WrongGroup(x.groupId, s.groupId))))
    else if x.sequence != s.expectedSeq then MarkBroken(s.(lastError := Some(WrongSequence(x.sequence, s.expectedSeq))))
    else s.(chunks := s.chunks + [x.data], expectedSeq := s.expectedSeq + 1)
  }

  function OnTail(s: State, x: SubFrame): (State, Option<Image>) {
    if !s.collecting || s.broken then (s, None)
    else if x.groupId != s.groupId || x.sequence != s.expectedSeq then
      (MarkBroken(s.(lastError := Some(WrongTail(x.groupId, x.sequence, s.groupId, s.expectedSeq)))), None)
    else
      (s.(collecting := false, chunks := [], completed := s.completed + 1),
       Some(Image(Concat(s.chunks), s.groupId, s.imgFormat)))
  }

  function OnReset(s: State): State {
    s.(dropped := if s.collecting && s.chunks != [] then s.dropped + 1 else s.dropped,
       collecting := false, broken := false, chunks := [])
  }

  predicate IsHead(x: SubFrame) {
    x.frameType == AIR_IMG_HEAD
  }

  predicate IsBody(x: SubFrame) {
    x.frameType == AIR_IMG_BODY
  }

  /** As feed_subframe has it: whatever is neither HEAD nor BODY. */
  predicate IsTail(x: SubFrame) {
    !IsHead(x) && !IsBody(x)
  }

  function Step(s: State, input: Input): (State, Option<Image>) {
    match input
    case Frame(x) =>
      if IsHead(x) then (OnHead(s, x), None) else if IsBody(x) then (OnBody(s, x), None) else OnTail(s, x)
    case Bad => (MarkBroken(s.(lastError := Some(Malformed))), None)
    case Reset => (OnReset(s), None)
  }

  class ImageReassembler {
    var collecting: bool
    var broken: bool
    var groupId: byte
    var expectedSeq: int
    var imgFormat: byte
    var chunks: seq<bytes>
    var lastError: Option<Problem>
    var imagesCompleted: nat
    var imagesDropped: nat

    ghost function Value(): State
      reads this
    {
      State(collecting, broken, groupId, expectedSeq, imgFormat, chunks, lastError, imagesCompleted, imagesDropped)
    }

    constructor ()
      ensures Value() == FRESH
    {
      collecting, broken, groupId, expectedSeq, imgFormat := false, false, 0, 0, FORMAT_JPEG;
      chunks, lastError, imagesCompleted, imagesDropped := [], None, 0, 0;
    }

    method DropPartial()
      modifies this
      ensures Value() == Step(old(Value()), Reset).0
    {
      if collecting && chunks != [] {
        imagesDropped := imagesDropped + 1;
      }
      collecting := false;
      broken := false;
      chunks := [];
    }

    method Feed(payload: bytes) returns (image: Option<Image>)
      modifies this
      ensures var parsed := ParseAirImgFrame(payload);
              (Value(), image) == Step(old(Value()), if parsed.Some? then Frame(parsed.value) else Bad)
    {
      var parsed := ParseAirImgFrame(payload);
      if parsed.None? {
        lastError := Some(Malformed);
        BreakOff();
        return None;
      }
      image := FeedSubFrame(parsed.value);
    }

    method FeedSubFrame(x: SubFrame) returns (image: Option<Image>)
      modifies this
      ensures (Value(), image) == Step(old(Value()), Frame(x))
    {
      if x.frameType == AIR_IMG_HEAD {
        TakeHead(x);
        return None;
      }
      if x.frameType == AIR_IMG_BODY {
        TakeBody(x);
        return None;
      }
      image := TakeTail(x);
    }

    method TakeHead(x: SubFrame)
      modifies this
      ensures Value() == OnHead(old(Value()), x)
    {
      if collecting {
        lastError := Some(NewHead(x.groupId, groupId));
        imagesDropped := imagesDropped + 1;
      }
      collecting := true;
      broken := false;
      groupId := x.groupId;
      imgFormat := x.imgFormat;
      chunks := [];
      expectedSeq := x.sequence + 1;
    }

    method TakeBody(x: SubFrame)
      modifies this
      ensures Value() == OnBody(old(Value()), x)
    {
      if !collecting || broken {
        return;
      }
      if x.groupId != groupId {
        lastError := Some(WrongGroup(x.groupId, groupId));
        BreakOff();
        return;
      }
      if x.sequence != expectedSeq {
        lastError := Some(WrongSequence(x.sequence, expectedSeq));
        BreakOff();
        return;
      }
      chunks := chunks + [x.data];
      expectedSeq := expectedSeq + 1;
    }

    method TakeTail(x: SubFrame) returns (image: Option<Image>)
      modifies this
      ensures (Value(), image) == OnTail(old(Value()), x)
    {
      if !collecting || broken {
        return None;
      }
      if x.groupId != groupId || x.sequence != expectedSeq {
        lastError := Some(WrongTail(x.groupId, x.sequence, groupId, expectedSeq));
        BreakOff();
        return None;
      }
      image := Some(Image(Concat(chunks), groupId, imgFormat));
      collecting := false;
      chunks := [];
      imagesCompleted := imagesCompleted + 1;
    }

    method BreakOff()
      modifies this
      ensures Value() == MarkBroken(old(Value()))
    {
      if collecting && !broken {
        imagesDropped := imagesDropped + 1;
      }
      broken := true;
      chunks := [];
    }
  }

  // ---- runs

  /** The state of a fresh reassembler after these inputs. */
  function Run(inputs: seq<Input>): State {
    if inputs == [] then FRESH else Step(Run(inputs[..|inputs| - 1]), inputs[|inputs| - 1]).0
  }

  /** The image returned by input j of a run. */
  function Returned(inputs: seq<Input>, j: nat): Option<Image>
    requires j < |inputs|
  {
    Step(Run(inputs[..j]), inputs[j]).1
  }

  lemma RunStep(inputs: seq<Input>, n: nat)
    requires n < |inputs|
    ensures Run(inputs[..n + 1]) == Step(Run(inputs[..n]), inputs[n]).0
  {
    assert inputs[..n + 1][..n] == inputs[..n];
  }

  // ---- which images are returned

  /** Inputs i to n - 1 are a HEAD and then BODYs of its group, numbered without a gap. */
  predicate Collects(inputs: seq<Input>, i: nat, n: nat) {
    && i < n <= |inputs| && inputs[i].Frame? && IsHead(inputs[i].x)
    && forall k :: i < k < n ==> Continues(inputs, i, k)
  }

  predicate Continues(inputs: seq<Input>, i: nat, k: nat)
    requires i < k < |inputs| && inputs[i].Frame?
  {
    && inputs[k].Frame? && IsBody(inputs[k].x)
    && inputs[k].x.groupId == inputs[i].x.groupId && inputs[k].x.sequence == inputs[i].x.sequence + (k - i)
  }

  /** Inputs i to j are a whole image: HEAD, BODYs and the TAIL that is next in sequence. */
  predicate Sends(inputs: seq<Input>, i: nat, j: nat) {
    && j < |inputs| && Collects(inputs, i, j) && inputs[j].Frame? && IsTail(inputs[j].x)
    && inputs[j].x.groupId == inputs[i].x.groupId && inputs[j].x.sequence == inputs[i].x.sequence + (j - i)
  }

  function Chunks(inputs: seq<Input>, i: nat, n: nat): seq<bytes>
    requires Collects(inputs, i, n)
  {
    seq(n - i - 1, k requires 0 <= k < n - i - 1 =>
      assert Continues(inputs, i, i + 1 + k); inputs[i + 1 + k].x.data)
  }

  function Sent(inputs: seq<Input>, i: nat, n: nat): Image
    requires Collects(inputs, i, n)
  {
    Image(Concat(Chunks(inputs, i, n)), inputs[i].x.groupId, inputs[i].x.imgFormat)
  }

  ghost predicate Holds(s: State, inputs: seq<Input>, i: nat, n: nat) {
    && Collects(inputs, i, n)
    && s.groupId == inputs[i].x.groupId && s.imgFormat == inputs[i].x.imgFormat
    && s.expectedSeq == inputs[i].x.sequence + (n - i) && s.chunks == Chunks(inputs, i, n)
  }

  ghost predicate Traced(inputs: seq<Input>, n: nat)
    requires n <= |inputs|
  {
    var s := Run(inputs[..n]);
    && (s.collecting && !s.broken <==> exists i :: Collects(inputs, i, n))
    && (forall i :: Collects(inputs, i, n) ==> Holds(s, inputs, i, n))
  }

  /** A healthy image is in progress exactly when the inputs end in such a sequence, and it holds it. */
  lemma {:induction false} CollectingIsTrace(inputs: seq<Input>, n: nat)
    requires n <= |inputs|
    ensures Traced(inputs, n)
    decreases n
  {
    if n > 0 {
      var m := n - 1;
      CollectingIsTrace(inputs, m);
      RunStep(inputs, m);
      var s, t := Run(inputs[..m]), Run(inputs[..n]);
      forall i | Collects(inputs, i, n) ensures Holds(t, inputs, i, n) && t.collecting && !t.broken {
        CollectsBack(inputs, i, n);
      }
      if t.collecting && !t.broken {
        CollectsOn(inputs, n);
      }
    }
  }

  lemma CollectsBack(inputs: seq<Input>, i: nat, n: nat)
    requires Collects(inputs, i, n) && Traced(inputs, n - 1)
    ensures var t := Run(inputs[..n]);
            Holds(t, inputs, i, n) && t.collecting && !t.broken
  {
    var m := n - 1;
    RunStep(inputs, m);
    if i < m {
      assert Continues(inputs, i, m);
      assert Collects(inputs, i, m);
      BodyHeld(inputs, i, m, Run(inputs[..m]));
    } else {
      assert Chunks(inputs, i, n) == [];
    }
  }

  lemma BodyHeld(inputs: seq<Input>, i: nat, m: nat, s: State)
    requires Collects(inputs, i, m) && m < |inputs| && Continues(inputs, i, m)
    requires Holds(s, inputs, i, m) && s.collecting && !s.broken
    ensures var t := Step(s, inputs[m]).0;
            Collects(inputs, i, m + 1) && Holds(t, inputs, i, m + 1) && t.collecting && !t.broken
  {
    ChunksMore(inputs, i, m);
  }

  lemma ChunksMore(inputs: seq<Input>, i: nat, m: nat)
    requires Collects(inputs, i, m) && m < |inputs| && Continues(inputs, i, m)
    ensures Collects(inputs, i, m + 1) && Chunks(inputs, i, m + 1) == Chunks(inputs, i, m) + [inputs[m].x.data]
  {
  }

  lemma CollectsOn(inputs: seq<Input>, n: nat)
    requires 0 < n <= |inputs| && Traced(inputs, n - 1)
    requires var t := Run(inputs[..n]); t.collecting && !t.broken
    ensures exists i :: Collects(inputs, i, n)
  {
    var m := n - 1;
    RunStep(inputs, m);
    if inputs[m].Frame? && IsHead(inputs[m].x) {
      assert Collects(inputs, m, n);
    } else {
      var i :| Collects(inputs, i, m);
      assert Holds(Run(inputs[..m]), inputs, i, m);
      assert Continues(inputs, i, m);
      assert Collects(inputs, i, n);
    }
  }

  /** The main theorem: over any run, an image is returned at input j exactly when some HEAD, the
      BODYs of its group numbered on from it without a gap, and the TAIL numbered next end at j;
      and then it is the concatenation of exactly those BODYs, with that HEAD's group and format. */
  lemma ReturnedIsSent(inputs: seq<Input>, j: nat, image: Image)
    requires j < |inputs|
    ensures Returned(inputs, j) == Some(image) <==> exists i :: Sends(inputs, i, j) && image == Sent(inputs, i, j)
  {
    CollectingIsTrace(inputs, j);
    var s := Run(inputs[..j]);
    if Returned(inputs, j) == Some(image) {
      var i :| Collects(inputs, i, j);
      assert Holds(s, inputs, i, j);
      assert Sends(inputs, i, j);
    }
    if i :| Sends(inputs, i, j) && image == Sent(inputs, i, j) {
      assert Collects(inputs, i, j);
      assert Holds(s, inputs, i, j);
    }
  }

  // ---- accounting

  /** How many inputs of a run meet a reassembler in a state in which `what` holds of them. */
  function Count(what: (State, Input) -> bool, inputs: seq<Input>): nat {
    if inputs == [] then 0
    else
      var before, last := inputs[..|inputs| - 1], inputs[|inputs| - 1];
      Count(what, before) + if what(Run(before), last) then 1 else 0
  }

  predicate Head(s: State, input: Input) {
    input.Frame? && IsHead(input.x)
  }

  predicate HeadWhileCollecting(s: State, input: Input) {
    Head(s, input) && s.collecting
  }

  predicate HeadWhileBroken(s: State, input: Input) {
    Head(s, input) && s.collecting && s.broken
  }

  /** A gap, a foreign group, or a payload that does not parse, in a healthy image. */
  predicate Break(s: State, input: Input) {
    s.collecting && !s.broken && Step(s, input).0.broken
  }

  predicate ResetWhileCollecting(s: State, input: Input) {
    input.Reset? && s.collecting
  }

  /** A reset of a healthy image that has no BODY yet: the one loss that is not counted. */
  predicate SilentReset(s: State, input: Input) {
    input.Reset? && s.collecting && !s.broken && s.chunks == []
  }

  predicate CountedReset(s: State, input: Input) {
    input.Reset? && s.collecting && s.chunks != []
  }

  function One(b: bool): nat {
    if b then 1 else 0
  }

  /** What one input does to both balances. */
  lemma StepBalance(s: State, input: Input)
    requires s.broken ==> s.chunks == []
    ensures var t := Step(s, input).0;
            && (t.broken ==> t.chunks == [])
            && t.completed + One(HeadWhileCollecting(s, input)) + One(ResetWhileCollecting(s, input))
               + One(t.collecting)
               == s.completed + One(s.collecting) + One(Head(s, input))
            && t.dropped == s.dropped + One(HeadWhileCollecting(s, input)) + One(Break(s, input))
                            + One(CountedReset(s, input))
            && t.completed + t.dropped + One(t.collecting && !t.broken) + One(SilentReset(s, input))
               == s.completed + s.dropped + One(s.collecting && !s.broken) + One(Head(s, input))
                  + One(HeadWhileBroken(s, input))
  {
  }

  lemma CountLast(what: (State, Input) -> bool, inputs: seq<Input>)
    requires inputs != []
    ensures var n := |inputs| - 1;
            Count(what, inputs) == Count(what, inputs[..n]) + One(what(Run(inputs[..n]), inputs[n]))
  {
  }

  /** Every HEAD has completed, met the next HEAD or a reset, or is still pending; and exactly the
      HEADs that met an unfinished image, the breaks and the resets with data count as dropped. */
  lemma {:induction false} Accounting(inputs: seq<Input>)
    ensures var s := Run(inputs);
            && Count(Head, inputs) == s.completed + Count(HeadWhileCollecting, inputs)
                                      + Count(ResetWhileCollecting, inputs) + One(s.collecting)
            && s.dropped == Count(HeadWhileCollecting, inputs) + Count(Break, inputs) + Count(CountedReset, inputs)
            && (s.broken ==> s.chunks == [])
    decreases |inputs|
  {
    if inputs != [] {
      hide Step, Count, Head, HeadWhileCollecting, ResetWhileCollecting, Break, CountedReset, One;
      Accounting(inputs[..|inputs| - 1]);
      StepBalance(Run(inputs[..|inputs| - 1]), inputs[|inputs| - 1]);
      CountLast(Head, inputs);
      CountLast(HeadWhileCollecting, inputs);
      CountLast(ResetWhileCollecting, inputs);
      CountLast(Break, inputs);
      CountLast(CountedReset, inputs);
    }
  }

  /** The exact law: a HEAD that meets a broken image counts that image as dropped a second time,
      and a reset before the first BODY counts nothing. */
  lemma {:induction false} EachHeadOnce(inputs: seq<Input>)
    ensures var s := Run(inputs);
            s.completed + s.dropped + One(s.collecting && !s.broken) + Count(SilentReset, inputs)
            == Count(Head, inputs) + Count(HeadWhileBroken, inputs)
    decreases |inputs|
  {
    if inputs != [] {
      hide Step, Count, Head, HeadWhileBroken, SilentReset, One;
      Accounting(inputs[..|inputs| - 1]);
      EachHeadOnce(inputs[..|inputs| - 1]);
      StepBalance(Run(inputs[..|inputs| - 1]), inputs[|inputs| - 1]);
      CountLast(Head, inputs);
      CountLast(HeadWhileBroken, inputs);
      CountLast(SilentReset, inputs);
    }
  }

  /** So "each HEAD is completed, dropped once, or pending" holds of a run of sub-frames exactly
      when no HEAD came while a broken image was waiting for it. */
  lemma NaiveLawExactly(inputs: seq<Input>)
    requires forall k :: 0 <= k < |inputs| ==> !inputs[k].Reset?
    ensures var s := Run(inputs);
            s.completed + s.dropped + One(s.collecting && !s.broken) == Count(Head, inputs)
            <==> forall k :: 0 <= k < |inputs| ==> !HeadWhileBroken(Run(inputs[..k]), inputs[k])
  {
    EachHeadOnce(inputs);
    assert inputs[..|inputs|] == inputs;
    NoneCounted(SilentReset, inputs, |inputs|);
    NoneCounted(HeadWhileBroken, inputs, |inputs|);
    assert Never(SilentReset, inputs, |inputs|);
  }

  ghost predicate Never(what: (State, Input) -> bool, inputs: seq<Input>, n: nat)
    requires n <= |inputs|
  {
    forall k :: 0 <= k < n ==> !what(Run(inputs[..k]), inputs[k])
  }

  lemma {:induction false} NoneCounted(what: (State, Input) -> bool, inputs: seq<Input>, n: nat)
    requires n <= |inputs|
    ensures Count(what, inputs[..n]) == 0 <==> Never(what, inputs, n)
    decreases n
  {
    if n > 0 {
      assert inputs[..n][..n - 1] == inputs[..n - 1];
      NoneCounted(what, inputs, n - 1);
    }
  }

  /** What the last recorded problem is after each input: a HEAD before the image was complete, a BODY or a
      TAIL that does not fit the healthy image in progress, or a payload that does not parse; and nothing
      else is recorded. */
  lemma ProblemRecorded(s: State, input: Input)
    ensures Step(s, input).0.lastError ==
            match input
            case Bad => Some(Malformed)
            case Reset => s.lastError
            case Frame(x) =>
              if x.frameType == 1 then if s.collecting then Some(NewHead(x.groupId, s.groupId)) else s.lastError
              else if !s.collecting || s.broken then s.lastError
              else if x.groupId == s.groupId && x.sequence == s.expectedSeq then s.lastError
              else if x.frameType != 2 then Some(WrongTail(x.groupId, x.sequence, s.groupId, s.expectedSeq))
              else if x.groupId != s.groupId then Some(WrongGroup(x.groupId, s.groupId))
              else Some(WrongSequence(x.sequence, s.expectedSeq))
  {
  }

  /** HEAD, a BODY past a gap, HEAD: two drops for one lost image. */
  lemma NaiveLawFails()
    ensures var head := Frame(SubFrame(AIR_IMG_HEAD, AIR_IMG_DATA_TYPE_IMAGE, 1, 0, FORMAT_JPEG, []));
            var gap := Frame(SubFrame(AIR_IMG_BODY, AIR_IMG_DATA_TYPE_IMAGE, 1, 7, FORMAT_JPEG, []));
            var inputs := [head, gap, head];
            var s := Run(inputs);
            && Count(Head, inputs) == 2 && s.completed == 0 && s.collecting && !s.broken && s.dropped == 2
  {
    var head := Frame(SubFrame(AIR_IMG_HEAD, AIR_IMG_DATA_TYPE_IMAGE, 1, 0, FORMAT_JPEG, []));
    var gap := Frame(SubFrame(AIR_IMG_BODY, AIR_IMG_DATA_TYPE_IMAGE, 1, 7, FORMAT_JPEG, []));
    var inputs := [head, gap, head];
    assert inputs[..2] == [head, gap] && [head, gap][..1] == [head] && [head][..0] == [];
    assert Run([]) == FRESH && Count(Head, []) == 0;
    assert Run([head]) == Step(FRESH, head).0;
    assert Run([head, gap]) == Step(Run([head]), gap).0;
    assert Run(inputs) == Step(Run([head, gap]), head).0;
    CountOne(Head, [], head);
    CountOne(Head, [head], gap);
    CountOne(Head, [head, gap], head);
  }

  lemma CountOne(what: (State, Input) -> bool, inputs: seq<Input>, last: Input)
    ensures Count(what, inputs + [last]) == Count(what, inputs) + if what(Run(inputs), last) then 1 else 0
  {
    assert (inputs + [last])[..|inputs|] == inputs;
  }
}
