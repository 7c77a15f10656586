/** recordsv packages: RecordStreamParser of audio_client.py. */
module AudioPackages {
  import opened Bytes
  import opened Scanner

  const PKG_TAG: byte := 0x52
  const PKG_HDR_LEN := 8
  const PKG_LEN_EXTRA := 4
  const MAX_SECTIONS := 16
  const MAX_SECTION_BYTES := 256
  const MAX_PACKAGE := PKG_HDR_LEN + MAX_SECTIONS * MAX_SECTION_BYTES
  const MAX_BUFFER := 64 * 1024

  datatype RecordPackage = RecordPackage(cmd: byte, sn: word, sections: byte, reserved: byte, frames: seq<bytes>)

  // ---- the section area

  /** One length-prefixed frame. */
  function Section(frame: bytes): bytes
    requires |frame| <= 255
  {
    [|frame|] + frame
  }

  predicate ShortFrames(frames: seq<bytes>) {
    forall i :: 0 <= i < |frames| ==> |frames[i]| <= 255
  }

  /** The area made of these frames. */
  function Area(frames: seq<bytes>): (area: bytes)
    requires ShortFrames(frames)
    ensures |frames| <= |area| <= |frames| * MAX_SECTION_BYTES
  {
    if frames == [] then [] else Section(frames[0]) + Area(frames[1..])
  }

  /** The frames of an area cut into k sections; None when the layout is inconsistent. */
  function Walk(area: bytes, k: nat): Option<seq<bytes>>
    decreases k
  {
    if k == 0 then if area == [] then Some([]) else None
    else if area == [] || 1 + area[0] > |area| then None
    else
      match Walk(area[1 + area[0]..], k - 1)
      case None => None
      case Some(later) => Some([area[1..1 + area[0]]] + later)
  }

  /** The walk succeeds exactly on the areas made of k frames, and then gives those frames. */
  lemma {:induction false} WalkIsSplit(area: bytes, k: nat, frames: seq<bytes>)
    ensures Walk(area, k) == Some(frames) <==> |frames| == k && ShortFrames(frames) && area == Area(frames)
    decreases k
  {
    if k > 0 && area != [] && 1 + area[0] <= |area| && frames != [] {
      WalkIsSplit(area[1 + area[0]..], k - 1, frames[1..]);
      if Walk(area, k) == Some(frames) {
        SplitFirst(area, area[0], frames);
      }
      if |frames| == k && ShortFrames(frames) && area == Area(frames) {
        JoinFirst(area, frames);
      }
    }
  }

  lemma SplitFirst(area: bytes, n: byte, frames: seq<bytes>)
    requires area != [] && n == area[0] && 1 + n <= |area|
    requires frames != [] && frames[0] == area[1..1 + n]
    requires ShortFrames(frames[1..]) && area[1 + n..] == Area(frames[1..])
    ensures ShortFrames(frames) && area == Area(frames)
  {
    assert area == Section(frames[0]) + area[1 + n..];
    forall i | 0 <= i < |frames| ensures |frames[i]| <= 255 {
      assert i > 0 ==> frames[i] == frames[1..][i - 1];
    }
  }

  lemma JoinFirst(area: bytes, frames: seq<bytes>)
    requires frames != [] && ShortFrames(frames) && area == Area(frames)
    ensures area != [] && area[0] == |frames[0]| && 1 + area[0] <= |area|
    ensures area[1..1 + area[0]] == frames[0] && area[1 + area[0]..] == Area(frames[1..])
    ensures frames == [frames[0]] + frames[1..]
  {
    assert area == Section(frames[0]) + Area(frames[1..]);
  }

  /** The walk of the area, given the frames already cut and the walk of what is left of it. */
  function Prepend(frames: seq<bytes>, r: Option<seq<bytes>>): Option<seq<bytes>> {
    if r.None? then None else Some(frames + r.value)
  }

  lemma PrependMore(frames: seq<bytes>, f: bytes, r: Option<seq<bytes>>)
    ensures Prepend(frames, Prepend([f], r)) == Prepend(frames + [f], r)
  {
    if r.Some? {
      Associative(frames, [f], r.value);
    }
  }

  lemma WalkBegins(r: Option<seq<bytes>>)
    ensures r == Prepend([], r)
  {
    if r.Some? {
      assert [] + r.value == r.value;
    }
  }

  lemma WalkStep(b: bytes, off: nat, end: nat, k: nat, frames: seq<bytes>, n: nat)
    requires off < end <= |b|
    requires n == b[off] && off + 1 + n <= end && 0 < k
    ensures Prepend(frames, Walk(b[off..end], k))
            == Prepend(frames + [b[off + 1..off + 1 + n]], Walk(b[off + 1 + n..end], k - 1))
  {
    var area, later := b[off..end], Walk(b[off + 1 + n..end], k - 1);
    Reslice(b, off, end, 1, 1 + n);
    Reslice(b, off, end, 1 + n, end - off);
    assert area[1 + n..] == area[1 + n..end - off];
    assert Walk(area, k) == Prepend([b[off + 1..off + 1 + n]], later);
    PrependMore(frames, b[off + 1..off + 1 + n], later);
  }

  lemma WalkStuck(b: bytes, off: nat, end: nat, k: nat)
    requires off <= end <= |b|
    requires if k == 0 then off != end else off == end || off + 1 + b[off] > end
    ensures Walk(b[off..end], k).None?
  {
    assert off < end ==> b[off..end] != [] && b[off..end][0] == b[off];
  }

  lemma WalkEnds(b: bytes, end: nat, frames: seq<bytes>)
    requires end <= |b|
    ensures Prepend(frames, Walk(b[end..end], 0)) == Some(frames)
  {
    assert |b[end..end]| == 0;
    assert frames + [] == frames;
  }

  method WalkSections(b: bytes, start: nat, sectionArea: nat, sections: nat) returns (r: Option<seq<bytes>>)
    requires start + sectionArea <= |b|
    ensures r == Walk(b[start..start + sectionArea], sections)
  {
    hide Walk;
    var end := start + sectionArea;
    var frames: seq<bytes> := [];
    var off := start;
    WalkBegins(Walk(b[start..end], sections));
    for i := 0 to sections
      invariant start <= off <= end
      invariant Walk(b[start..end], sections) == Prepend(frames, Walk(b[off..end], sections - i))
    {
      if off >= end {
        WalkStuck(b, off, end, sections - i);
        return None;
      }
      var frameLen := b[off];
      off := off + 1;
      if off + frameLen > end {
        WalkStuck(b, off - 1, end, sections - i);
        return None;
      }
      WalkStep(b, off - 1, end, sections - i, frames, frameLen);
      frames := frames + [b[off..off + frameLen]];
      off := off + frameLen;
    }
    if off != end {
      WalkStuck(b, off, end, 0);
      return None;
    }
    WalkEnds(b, end, frames);
    return Some(frames);
  }

  // ---- packages

  predicate HeaderPlausible(sections: int, sectionArea: int) {
    1 <= sections <= MAX_SECTIONS && sections <= sectionArea <= sections * MAX_SECTION_BYTES
  }

  /** The packages a sender can write. */
  predicate Writable(p: RecordPackage) {
    1 <= p.sections <= 16 && |p.frames| == p.sections && ShortFrames(p.frames)
  }

  function Wire(p: RecordPackage): bytes
    requires Writable(p)
  {
    var area := Area(p.frames);
    [PKG_TAG, p.cmd] + LE16(|area| + PKG_LEN_EXTRA) + LE16(p.sn) + [p.sections, p.reserved] + area
  }

  predicate IsWire(w: bytes, p: RecordPackage) {
    Writable(p) && w == Wire(p)
  }

  function Wires(): Encoding<RecordPackage> {
    (w, p) => IsWire(w, p)
  }

  /** What the parser does at position pos of its buffer. */
  function DecideFrom(b: bytes, pos: nat): Decision<RecordPackage>
    requires pos <= |b|
  {
    if |b| - pos < PKG_HDR_LEN then NeedMore
    else if b[pos] != PKG_TAG then Skip(1)
    else
      var sections, area := b[pos + 6], U16(b, pos + 2) - PKG_LEN_EXTRA;
      if !HeaderPlausible(sections, area) then Skip(1)
      else if |b| - pos < PKG_HDR_LEN + area then NeedMore
      else
        match Walk(b[pos + PKG_HDR_LEN..pos + PKG_HDR_LEN + area], sections)
        case None => Skip(1)
        case Some(frames) =>
          Emit(RecordPackage(b[pos + 1], U16(b, pos + 4), sections, b[pos + 7], frames), PKG_HDR_LEN + area)
  }

  function Decide(): Decider<RecordPackage> {
    s => DecideFrom(s, 0)
  }

  // ---- the parser loop

  lemma DecideAt(b: bytes, pos: nat)
    requires pos <= |b|
    ensures Decide()(b[pos..]) == DecideFrom(b, pos)
  {
    if |b| - pos >= PKG_HDR_LEN {
      var area := U16(b, pos + 2) - PKG_LEN_EXTRA;
      if 0 <= area && |b| - pos >= PKG_HDR_LEN + area {
        assert b[pos..][PKG_HDR_LEN..PKG_HDR_LEN + area] == b[pos + PKG_HDR_LEN..pos + PKG_HDR_LEN + area];
      }
    }
  }

  lemma NoPackageAt(b: bytes, pos: nat, packages: seq<RecordPackage>)
    requires Reached(Decide(), b, pos, packages) && pos + PKG_HDR_LEN <= |b|
    requires b[pos] == PKG_TAG && HeaderPlausible(b[pos + 6], U16(b, pos + 2) - PKG_LEN_EXTRA) ==>
               var end := pos + PKG_HDR_LEN + U16(b, pos + 2) - PKG_LEN_EXTRA;
               end <= |b| && Walk(b[pos + PKG_HDR_LEN..end], b[pos + 6]).None?
    ensures Reached(Decide(), b, pos + 1, packages)
  {
    hide Decide, Reached, Scan, U16, U32;
    DecideAt(b, pos);
    ReachedSkip(Decide(), b, pos, packages, 1);
  }

  /** The `area` section bytes behind the header at position pos make package p. */
  predicate PackageThere(b: bytes, pos: nat, area: nat, p: RecordPackage) {
    pos + PKG_HDR_LEN + area <= |b| && b[pos] == PKG_TAG && U16(b, pos + 2) == area + PKG_LEN_EXTRA
    && p.cmd == b[pos + 1] && p.sn == U16(b, pos + 4) && p.sections == b[pos + 6] && p.reserved == b[pos + 7]
    && HeaderPlausible(p.sections, area)
    && Walk(b[pos + PKG_HDR_LEN..pos + PKG_HDR_LEN + area], p.sections) == Some(p.frames)
  }

  lemma PackageIsEmitted(b: bytes, pos: nat, area: nat, p: RecordPackage)
    requires PackageThere(b, pos, area, p)
    ensures DecideFrom(b, pos) == Emit(p, PKG_HDR_LEN + area)
  {
  }

  lemma PackageAt(b: bytes, pos: nat, packages: seq<RecordPackage>, area: nat, p: RecordPackage, next: nat)
    requires Reached(Decide(), b, pos, packages)
    requires PackageThere(b, pos, area, p) && next == pos + PKG_HDR_LEN + area
    ensures Reached(Decide(), b, next, packages + [p])
  {
    hide Decide, Reached, Scan, U16, U32;
    PackageIsEmitted(b, pos, area, p);
    DecideAt(b, pos);
    ReachedEmit(Decide(), b, pos, packages, p, PKG_HDR_LEN + area);
  }

  /** The loop is over: the rest of the buffer waits for more bytes. */
  ghost predicate Stopped(b: bytes, pos: nat, packages: seq<RecordPackage>) {
    pos <= |b| && Scan(Decide(), b) == Outcome(packages, b[pos..]) && |b| - pos < MAX_PACKAGE
  }

  lemma WaitAt(b: bytes, pos: nat, packages: seq<RecordPackage>)
    requires Reached(Decide(), b, pos, packages)
    requires |b| - pos < PKG_HDR_LEN ||
             (b[pos] == PKG_TAG && HeaderPlausible(b[pos + 6], U16(b, pos + 2) - PKG_LEN_EXTRA)
              && |b| - pos < PKG_HDR_LEN + U16(b, pos + 2) - PKG_LEN_EXTRA)
    ensures Stopped(b, pos, packages)
  {
    hide Decide, Scan, U16, U32;
    DecideAt(b, pos);
    ReachedEnd(Decide(), b, pos, packages);
  }

  class RecordStreamParser {
    var buf: bytes

    constructor ()
      ensures buf == []
    {
      buf := [];
    }

    /** One turn of the loop in Feed, at position pos of buffer b; `more` is false on its break. */
    static method Turn(b: bytes, pos: nat, packages: seq<RecordPackage>)
      returns (more: bool, next: nat, found: seq<RecordPackage>)
      requires Reached(Decide(), b, pos, packages)
      requires |b| - pos >= PKG_HDR_LEN
      ensures more ==> pos < next && Reached(Decide(), b, next, found)
      ensures !more ==> next == pos && found == packages && Stopped(b, pos, packages)
    {
      hide Decide, DecideFrom, Reached, Stopped, Walk, U16, U32;
      more, next, found := true, pos, packages;
      if b[pos] != PKG_TAG {
        NoPackageAt(b, pos, packages);
        next := pos + 1;
        return;
      }
      var length, sections := U16(b, pos + 2), b[pos + 6];
      var sectionArea := length - PKG_LEN_EXTRA;
      if !HeaderPlausible(sections, sectionArea) {
        NoPackageAt(b, pos, packages);
        next := pos + 1;
        return;
      }
      var total := PKG_HDR_LEN + sectionArea;
      if |b| - pos < total {
        WaitAt(b, pos, packages);
        more := false;
        return;
      }
      var frames := WalkSections(b, pos + PKG_HDR_LEN, sectionArea, sections);
      if frames.None? {
        NoPackageAt(b, pos, packages);
        next := pos + 1;
        return;
      }
      var package := RecordPackage(b[pos + 1], U16(b, pos + 4), sections, b[pos + 7], frames.value);
      next := pos + total;
      PackageAt(b, pos, packages, sectionArea, package, next);
      found := packages + [package];
    }

    /** The packages are those of the scan of the retained and the new bytes, and its rest is what is
        retained: the cap on the buffer never applies. */
    method Feed(data: bytes) returns (packages: seq<RecordPackage>)
      modifies this
      ensures Outcome(packages, buf) == Scan(Decide(), old(buf) + data)
      ensures |buf| < MAX_PACKAGE
    {
      hide Decide, DecideFrom, Reached, Scan, U16, U32;
      buf := buf + data;
      packages := [];
      var b, pos, more := buf, 0, true;
      ReachedStart(Decide(), b);
      while more && |b| - pos >= PKG_HDR_LEN
        invariant 0 <= pos
        invariant if more then Reached(Decide(), b, pos, packages) else Stopped(b, pos, packages)
        decreases |b| - pos, more
        modifies {}
      {
        more, pos, packages := Turn(b, pos, packages);
      }
      if more {
        WaitAt(b, pos, packages);
      }
      if pos > 0 {
        buf := buf[pos..];
      }
      if |buf| > MAX_BUFFER {
        assert false;  // the trim of an overlong buffer is never reached
      }
    }
  }

  // ---- the decisions

  lemma DecisionsStable()
    ensures Stable(Decide())
  {
    forall s, t ensures Persists(Decide(), s, t) {
      DecisionPersists(s, t);
    }
  }

  lemma DecisionPersists(s: bytes, t: bytes)
    ensures !DecideFrom(s, 0).NeedMore? ==> DecideFrom(s + t, 0) == DecideFrom(s, 0)
  {
    if |s| >= PKG_HDR_LEN {
      var area := U16(s, 2) - PKG_LEN_EXTRA;
      if 0 <= area && |s| >= PKG_HDR_LEN + area {
        assert (s + t)[PKG_HDR_LEN..PKG_HDR_LEN + area] == s[PKG_HDR_LEN..PKG_HDR_LEN + area];
      }
    }
  }

  lemma WireFields(w: bytes, p: RecordPackage)
    requires IsWire(w, p)
    ensures var n := |Area(p.frames)|;
            && |w| == PKG_HDR_LEN + n && w[0] == PKG_TAG && w[1] == p.cmd && U16(w, 2) == n + PKG_LEN_EXTRA
            && U16(w, 4) == p.sn && w[6] == p.sections && w[7] == p.reserved && w[PKG_HDR_LEN..] == Area(p.frames)
  {
    var l, m := LE16(|Area(p.frames)| + PKG_LEN_EXTRA), LE16(p.sn);
    assert w[2..4] == l && w[4..6] == m;
    assert w[2] == l[0] && w[3] == l[1] && w[4] == m[0] && w[5] == m[1];
  }

  /** One package of two sections, byte for byte. */
  lemma PackageSpelled()
    ensures IsWire([0x52, 2, 9, 0, 8, 1, 2, 0, 3, 10, 11, 12, 0], RecordPackage(2, 0x108, 2, 0, [[10, 11, 12], []]))
  {
    var frames: seq<bytes> := [[10, 11, 12], []];
    assert frames[1..] == [[]] && frames[1..][1..] == [];
    assert Area([]) == [] && Area([[]]) == [0] && Area(frames) == [3, 10, 11, 12, 0];
    assert LE16(9) == [9, 0] && LE16(0x108) == [8, 1];
    var w: bytes := [0x52, 2, 9, 0, 8, 1, 2, 0, 3, 10, 11, 12, 0];
    assert [0x52, 2] + [9, 0] + [8, 1] + [2, 0] + [3, 10, 11, 12, 0] == w;
  }

  lemma WireIsEmitted(s: bytes, n: nat, p: RecordPackage)
    requires n <= |s| && IsWire(s[..n], p)
    ensures DecideFrom(s, 0) == Emit(p, n)
  {
    hide Walk, Area, LE16, DecideFrom;
    var w, area := s[..n], Area(p.frames);
    WireFields(w, p);
    WalkIsSplit(area, p.sections, p.frames);
    assert s[PKG_HDR_LEN..PKG_HDR_LEN + |area|] == w[PKG_HDR_LEN..];
    PackageIsEmitted(s, 0, |area|, p);
  }

  lemma EmittedIsWire(s: bytes, n: nat, p: RecordPackage)
    requires DecideFrom(s, 0) == Emit(p, n)
    ensures n <= |s| && IsWire(s[..n], p)
  {
    EmittedIsThere(s, n, p);
    ThereIsWire(s, n - PKG_HDR_LEN, p);
  }

  lemma EmittedIsThere(s: bytes, n: nat, p: RecordPackage)
    requires DecideFrom(s, 0) == Emit(p, n)
    ensures PKG_HDR_LEN <= n && PackageThere(s, 0, n - PKG_HDR_LEN, p)
  {
  }

  lemma ThereIsWire(s: bytes, area: nat, p: RecordPackage)
    requires PackageThere(s, 0, area, p)
    ensures IsWire(s[..PKG_HDR_LEN + area], p)
  {
    hide Walk, Area, U16, LE16;
    var a := s[PKG_HDR_LEN..PKG_HDR_LEN + area];
    assert Writable(p) && Area(p.frames) == a by {
      WalkIsSplit(a, p.sections, p.frames);
    }
    HeaderBytes(s, a, p.sn);
  }

  lemma HeaderBytes(s: bytes, area: bytes, sn: word)
    requires PKG_HDR_LEN + |area| <= |s| && area == s[PKG_HDR_LEN..PKG_HDR_LEN + |area|]
    requires U16(s, 2) == |area| + PKG_LEN_EXTRA && U16(s, 4) == sn
    ensures s[..PKG_HDR_LEN + |area|] == [s[0], s[1]] + LE16(|area| + PKG_LEN_EXTRA) + LE16(sn) + [s[6], s[7]] + area
  {
    LE16OfU16(s, 2);
    LE16OfU16(s, 4);
  }

  lemma DecisionExact(s: bytes, x: Spot<RecordPackage>)
    ensures EmitsExactly(Decide(), Wires(), s, x)
  {
    if x.at == 0 {
      if EncodedAt(Wires(), s, x) {
        assert s[0..x.n] == s[..x.n];
        WireIsEmitted(s, x.n, x.packet);
      }
      if Decide()(s) == Emit(x.packet, x.n) {
        EmittedIsWire(s, x.n, x.packet);
        assert s[0..x.n] == s[..x.n];
      }
    }
  }

  lemma DecisionsExact()
    ensures Exact(Decide(), Wires())
  {
    forall s, x: Spot<RecordPackage> ensures EmitsExactly(Decide(), Wires(), s, x) {
      DecisionExact(s, x);
    }
    forall s, i: nat ensures SkipsSafely(Decide(), Wires(), s, i) {
      if Decide()(s).Skip? && i < Decide()(s).n && StartsAt(Wires(), s, i) {
        var x: Spot<RecordPackage> :| x.at == i && EncodedAt(Wires(), s, x);
        DecisionExact(s, x);
        assert false;
      }
    }
  }

  // ---- streams

  /** Over any reads of any stream the parser emits the greedy leftmost packages of the part of the
      stream it has consumed, and retains the rest, at most 4103 bytes. */
  lemma PackagesAreGreedyLeftmost(inputs: seq<bytes>)
    ensures ParsesGreedily(Decide(), Wires(), inputs)
    ensures |FeedAll(Decide(), [], inputs).rest| < MAX_PACKAGE
  {
    DecisionsStable();
    DecisionsExact();
    StreamIsGreedy(Decide(), Wires(), inputs);
    WaitsBriefly(FeedAll(Decide(), [], inputs).rest);
  }

  /** Once 4104 bytes of the stream have come from its start on, a complete package has been emitted, or
      starts inside one that was. */
  lemma PackageComesOut(inputs: seq<bytes>, i: nat)
    requires StartsAt(Wires(), Concat(inputs), i) && |Concat(inputs)| - i > MAX_PACKAGE - 1
    ensures Covered(Spots(Decide(), Concat(inputs), 0), i)
  {
    PackagesAreGreedyLeftmost(inputs);
    ConsumedIsEmitted(Decide(), Wires(), inputs, i);
  }

  lemma WaitsBriefly(s: bytes)
    requires Decide()(s).NeedMore?
    ensures |s| < MAX_PACKAGE
  {
  }

  /** Packages written one after the other and cut into any reads come back. */
  lemma WriteThenParse(ws: seq<bytes>, ps: seq<RecordPackage>, inputs: seq<bytes>)
    requires EncodesAll(Wires(), ws, ps)
    requires Concat(inputs) == Concat(ws)
    ensures FeedAll(Decide(), [], inputs) == Outcome(ps, [])
  {
    DecisionsStable();
    DecisionsExact();
    StreamRoundTrip(Decide(), Wires(), ws, ps, inputs);
  }

  /** Every package a scan emits has the shape a sender writes. */
  lemma {:induction false} EmittedAreWritable(s: bytes)
    ensures forall i :: 0 <= i < |Scan(Decide(), s).packets| ==> Writable(Scan(Decide(), s).packets[i])
    decreases |s|
  {
    var d := Decide()(s);
    if Moves(d, s) {
      EmittedAreWritable(s[d.n..]);
      if d.Emit? {
        EmittedIsWire(s, d.n, d.packet);
      }
    }
  }
}
