/** RawOpusSink and AudioStreamClient of audio_client.py: the file written and the losses counted. */
module AudioClients {
  import opened Bytes
  import opened Scanner
  import opened AudioPackages

  /** What a recording session holds. */
  datatype Recording = Recording(buf: bytes, lastSn: Option<word>, packages: nat, frames: nat, lost: nat,
                                 file: bytes, stored: nat)

  const NEW_RECORDING := Recording([], None, 0, 0, 0, [], 0)

  // ---- one package

  /** The packages reported lost before p, given the serial number of the package before. */
  function LostBefore(last: Option<word>, p: RecordPackage): nat {
    if last.None? || p.sections == 0 then 0
    else
      var expected := (last.value + p.sections) % TWO_16;
      if p.sn == expected then 0
      else
        var gap := (p.sn - expected) % TWO_16;
        if gap / p.sections < 1 then 1 else gap / p.sections
  }

  /** The frames the sink keeps: it drops those too long for their length byte. */
  function Kept(frames: seq<bytes>): (kept: seq<bytes>)
    ensures ShortFrames(kept)
    decreases |frames|
  {
    if frames == [] then []
    else
      var before, last := Kept(frames[..|frames| - 1]), frames[|frames| - 1];
      if |last| > 255 then before else before + [last]
  }

  function TakePackage(r: Recording, p: RecordPackage): Recording {
    r.(lost := r.lost + LostBefore(r.lastSn, p), lastSn := Some(p.sn), packages := r.packages + 1,
       frames := r.frames + |p.frames|, file := r.file + Area(Kept(p.frames)), stored := r.stored + |Kept(p.frames)|)
  }

  function TakePackages(r: Recording, ps: seq<RecordPackage>): Recording
    decreases |ps|
  {
    if ps == [] then r else TakePackage(TakePackages(r, ps[..|ps| - 1]), ps[|ps| - 1])
  }

  /** The recording after its parser emitted the packages of `o` and retained its rest. */
  function After(r: Recording, o: Outcome<RecordPackage>): Recording {
    TakePackages(r, o.packets).(buf := o.rest)
  }

  lemma TakeOne(r: Recording, ps: seq<RecordPackage>, i: nat)
    requires i < |ps|
    ensures TakePackages(r, ps[..i + 1]) == TakePackage(TakePackages(r, ps[..i]), ps[i])
  {
    assert ps[..i + 1][..i] == ps[..i];
  }

  lemma {:induction false} TakeAppend(r: Recording, ps: seq<RecordPackage>, qs: seq<RecordPackage>)
    ensures TakePackages(r, ps + qs) == TakePackages(TakePackages(r, ps), qs)
    decreases |qs|
  {
    if qs == [] {
      assert ps + qs == ps;
    } else {
      var n := |qs| - 1;
      assert (ps + qs)[..|ps + qs| - 1] == ps + qs[..n];
      TakeAppend(r, ps, qs[..n]);
    }
  }

  /** The buffer plays no part in taking packages. */
  lemma {:induction false} TakeKeepsBuf(r: Recording, ps: seq<RecordPackage>, buf: bytes)
    ensures TakePackages(r.(buf := buf), ps) == TakePackages(r, ps).(buf := buf)
    decreases |ps|
  {
    if ps != [] {
      TakeKeepsBuf(r, ps[..|ps| - 1], buf);
    }
  }

  lemma AfterMore(r: Recording, inputs: seq<bytes>, data: bytes)
    ensures var d := After(r, FeedAll(Decide(), r.buf, inputs));
            After(d, Scan(Decide(), d.buf + data)) == After(r, FeedAll(Decide(), r.buf, inputs + [data]))
  {
    FeedOneMore(Decide(), r.buf, inputs, data);
    var o := FeedAll(Decide(), r.buf, inputs);
    var last := Scan(Decide(), o.rest + data);
    TakeAppend(r, o.packets, last.packets);
    TakeKeepsBuf(TakePackages(r, o.packets), last.packets, o.rest);
  }

  lemma {:induction false} AreaAppend(frames: seq<bytes>, f: bytes)
    requires ShortFrames(frames) && |f| <= 255
    ensures ShortFrames(frames + [f]) && Area(frames + [f]) == Area(frames) + Section(f)
    decreases |frames|
  {
    if frames == [] {
      assert frames + [f] == [f] && Section(f) + [] == Section(f) && [] + Section(f) == Section(f);
    } else {
      assert (frames + [f])[0] == frames[0] && (frames + [f])[1..] == frames[1..] + [f];
      AreaAppend(frames[1..], f);
      Associative(Section(frames[0]), Area(frames[1..]), Section(f));
    }
  }

  lemma KeptMore(file: bytes, frames: seq<bytes>, i: nat)
    requires i < |frames|
    ensures var kept, f := Kept(frames[..i]), frames[i];
            && Kept(frames[..i + 1]) == (if |f| > 255 then kept else kept + [f])
            && (|f| <= 255 ==> file + Area(kept + [f]) == file + Area(kept) + Section(f))
  {
    assert frames[..i + 1][..i] == frames[..i];
    if |frames[i]| <= 255 {
      AreaAppend(Kept(frames[..i]), frames[i]);
      Associative(file, Area(Kept(frames[..i])), Section(frames[i]));
    }
  }

  // ---- the sink and the client

  class RawOpusSink {
    var file: bytes
    var framesDecoded: nat

    constructor ()
      ensures file == [] && framesDecoded == 0
    {
      file, framesDecoded := [], 0;
    }

    method HandleFrame(frame: bytes)
      modifies this
      ensures if |frame| > 255 then file == old(file) && framesDecoded == old(framesDecoded)
              else file == old(file) + Section(frame) && framesDecoded == old(framesDecoded) + 1
    {
      if |frame| > 255 {
        return;
      }
      file := file + ([|frame|] + frame);
      framesDecoded := framesDecoded + 1;
    }
  }

  datatype StartResult = Started | AlreadyRunning | OpenFailed

  class AudioStreamClient {
    var running: bool  // polled by hand, or by a reader that is alive
    var parser: RecordStreamParser
    var sink: RawOpusSink?
    var lastSn: Option<word>
    var packages: nat
    var frames: nat
    var lostPackages: nat
    var framesWritten: nat

    /** The session in progress; meaningful while there is a sink. */
    ghost function Value(): Recording
      requires sink != null
      reads this, parser, sink
    {
      Recording(parser.buf, lastSn, packages, frames, lostPackages, sink.file, sink.framesDecoded)
    }

    constructor ()
      ensures sink == null && !running && fresh(parser)
    {
      running := false;
      parser := new RecordStreamParser();
      sink, lastSn := null, None;
      packages, frames, lostPackages, framesWritten := 0, 0, 0, 0;
    }

    /** A new session starts from nothing, also where the reader of the last one has died; a running
        one is the RuntimeError.  If the transport does not open there is no session. */
    method Start(opens: bool) returns (r: StartResult)
      modifies this
      ensures r == if old(running) then AlreadyRunning else if opens then Started else OpenFailed
      ensures match r
              case AlreadyRunning =>
                && running && sink == old(sink) && parser == old(parser)
                && (sink != null ==> Value() == old(Value()))
              case Started =>
                running && sink != null && fresh(sink) && fresh(parser) && Value() == NEW_RECORDING
              case OpenFailed =>
                !running && sink == null && fresh(parser) && parser.buf == [] && packages == frames == lostPackages == 0
    {
      if running {
        return AlreadyRunning;
      }
      sink := new RawOpusSink();
      packages, frames, lostPackages, framesWritten := 0, 0, 0, 0;
      lastSn := None;
      parser := new RecordStreamParser();
      if !opens {
        sink := null;
        return OpenFailed;
      }
      running := true;
      return Started;
    }

    /** The reader loop breaks off on a transport error; the sink stays. */
    method ReaderFails()
      modifies this`running
      ensures !running
    {
      running := false;
    }

    /** One read; between sessions its bytes are discarded. */
    method Poll(data: bytes)
      modifies this, parser, sink
      ensures sink == old(sink) && parser == old(parser)
      ensures if sink == null then parser.buf == old(parser.buf)
              else Value() == After(old(Value()), Scan(Decide(), old(parser.buf) + data))
    {
      if sink == null {
        return;
      }
      ghost var r := Value();
      var found := parser.Feed(data);
      TakeKeepsBuf(r, [], parser.buf);
      for i := 0 to |found|
        invariant sink != null && sink == old(sink) && parser == old(parser)
        invariant parser.buf == Scan(Decide(), r.buf + data).rest
        invariant Value() == TakePackages(r, found[..i]).(buf := parser.buf)
        modifies this, sink
      {
        TakeOne(r, found, i);
        HandlePackage(found[i]);
      }
      assert found[..|found|] == found;
    }

    method HandlePackage(p: RecordPackage)
      modifies this, sink
      ensures sink == old(sink) && parser == old(parser)
      ensures if sink != null then Value() == TakePackage(old(Value()), p)
              else lastSn == Some(p.sn) && lostPackages == old(lostPackages) + LostBefore(old(lastSn), p)
                   && packages == old(packages) + 1 && frames == old(frames) + |p.frames|
    {
      CheckSn(p);
      packages := packages + 1;
      ghost var count := frames;
      ghost var file, stored := if sink == null then [] else sink.file, if sink == null then 0 else sink.framesDecoded;
      assert file + [] == file;
      for i := 0 to |p.frames|
        invariant sink == old(sink) && parser == old(parser)
        invariant frames == count + i
        invariant sink != null ==> sink.file == file + Area(Kept(p.frames[..i]))
        invariant sink != null ==> sink.framesDecoded == stored + |Kept(p.frames[..i])|
        modifies this`frames, sink
      {
        frames := frames + 1;
        if sink != null {
          KeptMore(file, p.frames, i);
          sink.HandleFrame(p.frames[i]);
        }
      }
      assert p.frames[..|p.frames|] == p.frames;
    }

    method CheckSn(p: RecordPackage)
      modifies this`lastSn, this`lostPackages
      ensures lastSn == Some(p.sn) && lostPackages == old(lostPackages) + LostBefore(old(lastSn), p)
    {
      if lastSn.Some? && p.sections > 0 {
        var expected := (lastSn.value + p.sections) % TWO_16;
        if p.sn != expected {
          var gap := (p.sn - expected) % TWO_16;
          var lost := gap / p.sections;
          if lost < 1 {
            lost := 1;
          }
          lostPackages := lostPackages + lost;
        }
      }
      lastSn := Some(p.sn);
    }

    /** The reader loop of a session: one poll per read. */
    method Receive(inputs: seq<bytes>)
      requires sink != null
      modifies this, parser, sink
      ensures sink == old(sink) && parser == old(parser)
      ensures Value() == After(old(Value()), FeedAll(Decide(), old(parser.buf), inputs))
    {
      ghost var r := Value();
      for i := 0 to |inputs|
        invariant sink != null && sink == old(sink) && parser == old(parser)
        invariant Value() == After(r, FeedAll(Decide(), r.buf, inputs[..i]))
      {
        assert inputs[..i + 1] == inputs[..i] + [inputs[i]];
        AfterMore(r, inputs[..i], inputs[i]);
        Poll(inputs[i]);
      }
      assert inputs[..|inputs|] == inputs;
    }

    /** The file as it was left, and the final count of frames in it. */
    method Stop() returns (file: bytes)
      modifies this
      ensures sink == null && !running && parser == old(parser)
      ensures old(sink) != null ==> file == old(sink.file) && framesWritten == old(sink.framesDecoded)
    {
      file := [];
      running := false;
      if sink != null {
        framesWritten := sink.framesDecoded;
        file := sink.file;
        sink := null;
      }
    }
  }

  // ---- the file written

  predicate AllWritable(ps: seq<RecordPackage>) {
    forall i :: 0 <= i < |ps| ==> Writable(ps[i])
  }

  /** The section areas of these packages, one after the other. */
  function Areas(ps: seq<RecordPackage>): bytes
    requires AllWritable(ps)
    decreases |ps|
  {
    if ps == [] then [] else Areas(ps[..|ps| - 1]) + Area(ps[|ps| - 1].frames)
  }

  function FrameCount(ps: seq<RecordPackage>): nat
    decreases |ps|
  {
    if ps == [] then 0 else FrameCount(ps[..|ps| - 1]) + ps[|ps| - 1].sections
  }

  lemma {:induction false} AllKept(frames: seq<bytes>)
    requires ShortFrames(frames)
    ensures Kept(frames) == frames
    decreases |frames|
  {
    if frames != [] {
      AllKept(frames[..|frames| - 1]);
      assert frames == frames[..|frames| - 1] + [frames[|frames| - 1]];
    }
  }

  lemma TakeOneWritable(r: Recording, p: RecordPackage)
    requires Writable(p)
    ensures var s := TakePackage(r, p);
            && s.file == r.file + Area(p.frames) && s.packages == r.packages + 1
            && s.frames == r.frames + p.sections && s.stored == r.stored + p.sections
  {
    AllKept(p.frames);
  }

  lemma {:induction false} TakeWritable(r: Recording, ps: seq<RecordPackage>)
    requires AllWritable(ps) && r.file == []
    ensures var s := TakePackages(r, ps);
            && s.file == Areas(ps) && s.packages == r.packages + |ps|
            && s.frames == r.frames + FrameCount(ps) && s.stored == r.stored + FrameCount(ps)
    decreases |ps|
  {
    if ps != [] {
      var before := ps[..|ps| - 1];
      TakeWritable(r, before);
      TakeOneWritable(TakePackages(r, before), ps[|ps| - 1]);
    }
  }

  /** Over any reads, the file of a session is the concatenation of the section areas of the packages
      accepted, byte for byte as they arrived: the sink never drops a frame. */
  lemma FileIsAreas(inputs: seq<bytes>)
    ensures var o := FeedAll(Decide(), [], inputs);
            var r := After(NEW_RECORDING, o);
            && AllWritable(o.packets)
            && r.file == Areas(o.packets) && r.packages == |o.packets|
            && r.frames == r.stored == FrameCount(o.packets)
  {
    PackagesAreGreedyLeftmost(inputs);
    EmittedAreWritable(Concat(inputs));
    TakeWritable(NEW_RECORDING, FeedAll(Decide(), [], inputs).packets);
  }

  // ---- the losses counted

  /** Package number i of a sender of k-section packages that starts at serial number `first`. */
  predicate IsNumber(p: RecordPackage, i: int, k: int, first: word) {
    p.sections == k && p.sn == (first + i * k) % TWO_16
  }

  /** ps are the packages numbered idx[0] < idx[1] < ... */
  ghost predicate Numbered(ps: seq<RecordPackage>, idx: seq<nat>, k: nat, first: word) {
    && |ps| == |idx| && 1 <= k <= 255
    && (forall j :: 0 <= j < |ps| ==> IsNumber(ps[j], idx[j], k, first))
    && (forall j :: 0 < j < |idx| ==> idx[j - 1] < idx[j])
  }

  /** The packages missing just before the j-th one received. */
  function MissingBefore(idx: seq<nat>, j: nat): int
    requires 0 < j < |idx|
  {
    (idx[j] as int) - (idx[j - 1] as int) - 1
  }

  predicate ShortGap(idx: seq<nat>, k: nat, j: nat)
    requires 0 < j < |idx|
  {
    MissingBefore(idx, j) * k < TWO_16
  }

  lemma ModShift(a: int, b: int)
    ensures (a % TWO_16 + b) % TWO_16 == (a + b) % TWO_16
  {
    assert a == TWO_16 * (a / TWO_16) + a % TWO_16;
    ModMultiple(a % TWO_16 + b, a / TWO_16);
  }

  lemma ModMultiple(a: int, q: int)
    ensures (a + TWO_16 * q) % TWO_16 == a % TWO_16
  {
  }

  /** What the gap arithmetic sees of m missing packages is m * k mod 2^16. */
  lemma GapSeen(i: nat, m: nat, k: nat, first: word)
    ensures var last, sn := (first + i * k) % TWO_16, (first + (i + m + 1) * k) % TWO_16;
            (sn - (last + k) % TWO_16) % TWO_16 == (m * k) % TWO_16
  {
    var a, b := first + i * k, first + (i + m + 1) * k;
    assert b == a + k + m * k by {
      assert (i + m + 1) * k == i * k + m * k + k;
    }
    ModShift(a, k);
    ModDifference(a + k, m * k);
  }

  lemma ModDifference(a: int, d: int)
    ensures ((a + d) % TWO_16 - a % TWO_16) % TWO_16 == d % TWO_16
  {
    var q, r := (a + d) / TWO_16, a / TWO_16;
    assert (a + d) % TWO_16 - a % TWO_16 == d + TWO_16 * (r - q);
    ModMultiple(d, r - q);
  }

  lemma DivideBack(m: nat, k: nat)
    requires 1 <= k
    ensures (m * k) / k == m
  {
    var q := (m * k) / k;
    assert m * k == q * k + (m * k) % k;
    MulApart(q, m, k);
  }

  lemma MulApart(q: int, m: int, k: nat)
    ensures (q < m ==> q * k + k <= m * k) && (m < q ==> m * k + k <= q * k)
  {
    if q < m {
      MulMonotone(q + 1, m, k);
    }
    if m < q {
      MulMonotone(m + 1, q, k);
    }
  }

  lemma MulMonotone(a: int, b: int, k: nat)
    ensures a <= b ==> a * k <= b * k
  {
  }

  lemma DivideLess(gap: int, m: nat, k: nat)
    requires 1 <= k && 0 <= gap < m * k
    ensures gap / k < m
  {
    MulMonotone(m, gap / k, k);
    assert gap == k * (gap / k) + gap % k;
  }

  lemma LongGap(m: nat, k: nat)
    requires k <= 255 && m * k >= TWO_16
    ensures m > 1
  {
    MulMonotone(m, 1, k);
  }

  /** What is reported of m missing packages, from the gap seen. */
  lemma ReportExact(gap: int, m: nat, k: nat)
    requires 1 <= k <= 255 && gap == (m * k) % TWO_16
    ensures var lost := if gap == 0 then 0 else if gap / k < 1 then 1 else gap / k;
            lost <= m && (lost == m <==> m * k < TWO_16)
  {
    if m * k < TWO_16 {
      DivideBack(m, k);
      MulMonotone(1, m, k);
    } else {
      DivideLess(gap, m, k);
      LongGap(m, k);
    }
  }

  /** Exactly: m missing packages of k sections are reported as m if m * k < 2^16, and as fewer
      otherwise; never as more. */
  lemma LossReported(last: RecordPackage, p: RecordPackage, i: nat, m: nat, k: nat, first: word)
    requires 1 <= k <= 255
    requires IsNumber(last, i, k, first) && IsNumber(p, i + m + 1, k, first)
    ensures LostBefore(Some(last.sn), p) <= m
    ensures LostBefore(Some(last.sn), p) == m <==> m * k < TWO_16
  {
    GapSeen(i, m, k, first);
    var expected := (last.sn + k) % TWO_16;
    var gap := (p.sn - expected) % TWO_16;
    GapZero(p.sn, expected);
    ReportExact(gap, m, k);
  }

  lemma GapZero(sn: word, expected: word)
    ensures (sn - expected) % TWO_16 == 0 <==> sn == expected
  {
  }

  /** A loss is reported exactly where the serial number is not the one that follows, be it by less
      than a package; and a first package reports none. */
  lemma LossSeen(last: Option<word>, p: RecordPackage)
    requires p.sections > 0
    ensures LostBefore(last, p) > 0 <==> last.Some? && p.sn != (last.value + p.sections) % TWO_16
  {
  }

  /** The losses reported between the first n packages. */
  function LostAmong(ps: seq<RecordPackage>, n: nat): nat
    requires 1 <= n <= |ps|
  {
    if n == 1 then 0 else LostAmong(ps, n - 1) + LostBefore(Some(ps[n - 2].sn), ps[n - 1])
  }

  lemma {:induction false} TakeLost(r: Recording, ps: seq<RecordPackage>, n: nat)
    requires 1 <= n <= |ps| && r.lastSn == None
    ensures var s := TakePackages(r, ps[..n]);
            s.lastSn == Some(ps[n - 1].sn) && s.lost == r.lost + LostAmong(ps, n)
    decreases n
  {
    hide TakePackage, LostBefore;
    TakeOne(r, ps, n - 1);
    TakeOneLost(TakePackages(r, ps[..n - 1]), ps[n - 1]);
    if n > 1 {
      TakeLost(r, ps, n - 1);
    } else {
      assert ps[..0] == [];
    }
  }

  lemma TakeOneLost(r: Recording, p: RecordPackage)
    ensures var s := TakePackage(r, p);
            && s.lastSn == Some(p.sn) && s.lost == r.lost + LostBefore(r.lastSn, p)
            && (r.lastSn.None? ==> s.lost == r.lost)
  {
  }

  /** Between packages j - 1 and j at most the missing ones are reported, and all of them exactly if
      the gap is short. */
  ghost predicate CountedAt(ps: seq<RecordPackage>, idx: seq<nat>, k: nat, j: nat)
    requires 0 < j < |ps| == |idx|
  {
    var lost := LostBefore(Some(ps[j - 1].sn), ps[j]);
    lost <= MissingBefore(idx, j) && (lost == MissingBefore(idx, j) <==> ShortGap(idx, k, j))
  }

  lemma NumberedCounted(ps: seq<RecordPackage>, idx: seq<nat>, k: nat, first: word, j: nat)
    requires Numbered(ps, idx, k, first) && 0 < j < |ps|
    ensures CountedAt(ps, idx, k, j)
  {
    assert IsNumber(ps[j - 1], idx[j - 1], k, first) && IsNumber(ps[j], idx[j], k, first);
    LossReported(ps[j - 1], ps[j], idx[j - 1], MissingBefore(idx, j), k, first);
  }

  lemma {:induction false} LossSoFar(ps: seq<RecordPackage>, idx: seq<nat>, k: nat, n: nat)
    requires 1 <= n <= |ps| == |idx|
    requires forall j :: 0 < j < |ps| ==> CountedAt(ps, idx, k, j)
    ensures var missing := idx[n - 1] - idx[0] + 1 - n;
            && LostAmong(ps, n) <= missing
            && (LostAmong(ps, n) == missing <==> forall j :: 0 < j < n ==> ShortGap(idx, k, j))
    decreases n
  {
    if n > 1 {
      LossSoFar(ps, idx, k, n - 1);
      assert CountedAt(ps, idx, k, n - 1);
    }
  }

  /** Over any stream, damaged or not: if the packages a session accepts are those numbered idx[0],
      idx[1], ... of a k-section sender, its loss count is the number of packages missing between
      the first and the last, exactly when each run of m missing ones has m * k < 2^16; otherwise it
      is too low. */
  lemma LossIsCounted(inputs: seq<bytes>, idx: seq<nat>, k: nat, first: word)
    requires var ps := FeedAll(Decide(), [], inputs).packets;
             Numbered(ps, idx, k, first) && ps != []
    ensures var r := After(NEW_RECORDING, FeedAll(Decide(), [], inputs));
            var missing := idx[|idx| - 1] - idx[0] + 1 - |idx|;
            && r.lost <= missing
            && (r.lost == missing <==> forall j :: 0 < j < |idx| ==> ShortGap(idx, k, j))
  {
    var ps := FeedAll(Decide(), [], inputs).packets;
    TakeLost(NEW_RECORDING, ps, |ps|);
    assert ps[..|ps|] == ps;
    forall j | 0 < j < |ps| ensures CountedAt(ps, idx, k, j) {
      NumberedCounted(ps, idx, k, first, j);
    }
    LossSoFar(ps, idx, k, |ps|);
  }

  /** In particular where whole packages are dropped from an otherwise clean stream. */
  lemma DropsAreCounted(inputs: seq<bytes>, ws: seq<bytes>, ps: seq<RecordPackage>, idx: seq<nat>, k: nat, first: word)
    requires EncodesAll(Wires(), ws, ps) && Concat(inputs) == Concat(ws)
    requires Numbered(ps, idx, k, first) && ps != []
    requires forall j :: 0 < j < |idx| ==> ShortGap(idx, k, j)
    ensures After(NEW_RECORDING, FeedAll(Decide(), [], inputs)).lost == idx[|idx| - 1] - idx[0] + 1 - |idx|
  {
    WriteThenParse(ws, ps, inputs);
    LossIsCounted(inputs, idx, k, first);
  }

  /** The bound is tight: where m * k is 2^16 no loss at all is reported. */
  lemma FullCycleUnseen(last: RecordPackage, p: RecordPackage, i: nat, m: nat, k: nat, first: word)
    requires 1 <= k <= 255 && m * k == TWO_16
    requires IsNumber(last, i, k, first) && IsNumber(p, i + m + 1, k, first)
    ensures LostBefore(Some(last.sn), p) == 0
  {
    GapSeen(i, m, k, first);
    GapZero(p.sn, (last.sn + k) % TWO_16);
  }
}
