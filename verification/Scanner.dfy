/**
 The theory shared by the four incremental stream parsers of the SDK.

 Each parser keeps a rolling buffer and looks at its front: it waits for more bytes, skips
 garbage, or emits a packet.  A decider gives that decision for the bytes from the current
 position on; scanning a byte string repeats the decision until it says to wait.
 */
module Scanner {
  import opened Bytes

  datatype Decision<+P> = NeedMore | Skip(n: nat) | Emit(packet: P, n: nat)

  type Decider<!P> = bytes -> Decision<P>

  /** What a scan leaves: the packets emitted and the bytes retained. */
  datatype Outcome<+P> = Outcome(packets: seq<P>, rest: bytes)

  predicate Moves<P>(d: Decision<P>, s: bytes) {
    !d.NeedMore? && 1 <= d.n <= |s|
  }

  function Scan<P>(decide: Decider<P>, s: bytes): Outcome<P>
    decreases |s|
  {
    var d := decide(s);
    if !Moves(d, s) then Outcome([], s)
    else
      var o := Scan(decide, s[d.n..]);
      if d.Emit? then Outcome([d.packet] + o.packets, o.rest) else o
  }

  /** One scan per read, each starting from the bytes the one before retained. */
  function FeedAll<P>(decide: Decider<P>, buf: bytes, inputs: seq<bytes>): Outcome<P>
    decreases |inputs|
  {
    if inputs == [] then Outcome([], buf)
    else
      var o := Scan(decide, buf + inputs[0]);
      var later := FeedAll(decide, o.rest, inputs[1..]);
      Outcome(o.packets + later.packets, later.rest)
  }

  /** One more read: a scan from the bytes retained so far. */
  lemma {:induction false} FeedOneMore<P>(decide: Decider<P>, buf: bytes, inputs: seq<bytes>, data: bytes)
    ensures var o := FeedAll(decide, buf, inputs);
            var last := Scan(decide, o.rest + data);
            FeedAll(decide, buf, inputs + [data]) == Outcome(o.packets + last.packets, last.rest)
    decreases |inputs|
  {
    if inputs == [] {
      assert [] + [data] == [data];
      var last := Scan(decide, buf + data);
      assert last.packets + [] == last.packets && [] + last.packets == last.packets;
    } else {
      var first := Scan(decide, buf + inputs[0]);
      assert (inputs + [data])[1..] == inputs[1..] + [data];
      FeedOneMore(decide, first.rest, inputs[1..], data);
      var o := FeedAll(decide, first.rest, inputs[1..]);
      Associative(first.packets, o.packets, Scan(decide, o.rest + data).packets);
    }
  }

  /** Decisions move inside the bytes seen, and later bytes never revise one already made. */
  ghost predicate Stable<P(!new)>(decide: Decider<P>) {
    && (forall s :: decide(s).NeedMore? || Moves(decide(s), s))
    && (forall s, t :: Persists(decide, s, t))
  }

  predicate Persists<P(==)>(decide: Decider<P>, s: bytes, t: bytes) {
    !decide(s).NeedMore? ==> decide(s + t) == decide(s)
  }

  // ---- what a parser loop keeps

  /** A loop over s that has reached position pos and emitted `packets` is on its way to the scan. */
  ghost predicate Reached<P>(decide: Decider<P>, s: bytes, pos: nat, packets: seq<P>) {
    pos <= |s| &&
    var later := Scan(decide, s[pos..]);
    Scan(decide, s) == Outcome(packets + later.packets, later.rest)
  }

  lemma ReachedStart<P>(decide: Decider<P>, s: bytes)
    ensures Reached(decide, s, 0, [])
  {
    assert s[0..] == s && [] + Scan(decide, s).packets == Scan(decide, s).packets;
  }

  lemma ReachedSkip<P>(decide: Decider<P>, s: bytes, pos: nat, packets: seq<P>, n: nat)
    requires Reached(decide, s, pos, packets)
    requires decide(s[pos..]) == Skip(n) && 1 <= n <= |s| - pos
    ensures Reached(decide, s, pos + n, packets)
  {
    assert s[pos..][n..] == s[pos + n..];
  }

  lemma ReachedEmit<P>(decide: Decider<P>, s: bytes, pos: nat, packets: seq<P>, p: P, n: nat)
    requires Reached(decide, s, pos, packets)
    requires decide(s[pos..]) == Emit(p, n) && 1 <= n <= |s| - pos
    ensures Reached(decide, s, pos + n, packets + [p])
  {
    assert s[pos..][n..] == s[pos + n..];
    Associative(packets, [p], Scan(decide, s[pos + n..]).packets);
  }

  lemma ReachedEnd<P>(decide: Decider<P>, s: bytes, pos: nat, packets: seq<P>)
    requires Reached(decide, s, pos, packets)
    requires decide(s[pos..]).NeedMore?
    ensures Scan(decide, s) == Outcome(packets, s[pos..])
  {
    assert packets + [] == packets;
  }

  // ---- read boundaries do not matter

  lemma {:induction false} ScanRestWaits<P(!new)>(decide: Decider<P>, s: bytes)
    requires Stable(decide)
    ensures decide(Scan(decide, s).rest).NeedMore?
    decreases |s|
  {
    if Moves(decide(s), s) {
      ScanRestWaits(decide, s[decide(s).n..]);
    }
  }

  /** Scanning s and then t from what s left is scanning s + t at once. */
  lemma {:induction false} ScanSplit<P(!new)>(decide: Decider<P>, s: bytes, t: bytes)
    requires Stable(decide)
    ensures var first := Scan(decide, s);
            var second := Scan(decide, first.rest + t);
            Scan(decide, s + t) == Outcome(first.packets + second.packets, second.rest)
    decreases |s|
  {
    var d := decide(s);
    if Moves(d, s) {
      assert Persists(decide, s, t);
      assert (s + t)[d.n..] == s[d.n..] + t;
      ScanSplit(decide, s[d.n..], t);
      if d.Emit? {
        var later := Scan(decide, s[d.n..]);
        Associative([d.packet], later.packets, Scan(decide, later.rest + t).packets);
      }
    }
  }

  /** The main theorem: any split of a stream into reads gives the packets and the retained
      bytes of the whole stream fed in one call. */
  lemma {:induction false} ReadBoundaries<P(!new)>(decide: Decider<P>, buf: bytes, inputs: seq<bytes>)
    requires Stable(decide)
    requires decide(buf).NeedMore?
    ensures FeedAll(decide, buf, inputs) == Scan(decide, buf + Concat(inputs))
    decreases |inputs|
  {
    if inputs == [] {
      assert buf + Concat(inputs) == buf;
    } else {
      var o := Scan(decide, buf + inputs[0]);
      ScanRestWaits(decide, buf + inputs[0]);
      ReadBoundaries(decide, o.rest, inputs[1..]);
      ScanSplit(decide, buf + inputs[0], Concat(inputs[1..]));
      Associative(buf, inputs[0], Concat(inputs[1..]));
    }
  }

  // ---- what is emitted: the greedy leftmost encodings of the stream

  /** encodes(w, p): the byte string w is the wire form of packet p. */
  type Encoding<!P> = (bytes, P) -> bool

  /** A packet emitted from the n bytes starting at `at`. */
  datatype Spot<+P> = Spot(at: nat, n: nat, packet: P)

  ghost predicate EncodedAt<P(!new)>(encodes: Encoding<P>, s: bytes, x: Spot<P>) {
    x.at + x.n <= |s| && encodes(s[x.at..x.at + x.n], x.packet)
  }

  ghost predicate StartsAt<P(!new)>(encodes: Encoding<P>, s: bytes, i: nat) {
    exists x: Spot<P> :: x.at == i && EncodedAt(encodes, s, x)
  }

  /** The decider emits exactly the wire forms at the front of its bytes, and skips over no
      position at which one starts. */
  ghost predicate Exact<P(!new)>(decide: Decider<P>, encodes: Encoding<P>) {
    && (forall s, x: Spot<P> :: EmitsExactly(decide, encodes, s, x))
    && (forall s, i: nat :: SkipsSafely(decide, encodes, s, i))
  }

  ghost predicate EmitsExactly<P(!new)>(decide: Decider<P>, encodes: Encoding<P>, s: bytes, x: Spot<P>) {
    x.at == 0 ==> (decide(s) == Emit(x.packet, x.n) <==> EncodedAt(encodes, s, x))
  }

  ghost predicate SkipsSafely<P(!new)>(decide: Decider<P>, encodes: Encoding<P>, s: bytes, i: nat) {
    decide(s).Skip? && i < decide(s).n ==> !StartsAt(encodes, s, i)
  }

  ghost predicate NoneStarts<P(!new)>(encodes: Encoding<P>, s: bytes, from: nat, to: nat) {
    forall i: nat :: from <= i < to ==> !StartsAt(encodes, s, i)
  }

  /** Between `from` and `to`, `spots` are the wire forms a left-to-right reader picks: each is
      the first to start at or after the end of the one before, and none starts after the last. */
  ghost predicate GreedyLeftmost<P(!new)>(encodes: Encoding<P>, s: bytes, from: nat, to: nat, spots: seq<Spot<P>>)
    decreases |spots|
  {
    if spots == [] then from <= to && NoneStarts(encodes, s, from, to)
    else
      && from <= spots[0].at && spots[0].at + spots[0].n <= to
      && NoneStarts(encodes, s, from, spots[0].at)
      && EncodedAt(encodes, s, spots[0])
      && GreedyLeftmost(encodes, s, spots[0].at + spots[0].n, to, spots[1..])
  }

  function PacketsOf<P>(spots: seq<Spot<P>>): seq<P> {
    seq(|spots|, i requires 0 <= i < |spots| => spots[i].packet)
  }

  /** The spots of the packets that a scan of s from position `at` emits. */
  function Spots<P>(decide: Decider<P>, s: bytes, at: nat): seq<Spot<P>>
    requires at <= |s|
    decreases |s| - at
  {
    var d := decide(s[at..]);
    if !Moves(d, s[at..]) then []
    else (if d.Emit? then [Spot(at, d.n, d.packet)] else []) + Spots(decide, s, at + d.n)
  }

  lemma ShiftStart<P(!new)>(encodes: Encoding<P>, s: bytes, at: nat, i: nat)
    requires at <= |s|
    ensures StartsAt(encodes, s, at + i) <==> StartsAt(encodes, s[at..], i)
  {
    forall x: Spot<P>
      ensures x.at == i && EncodedAt(encodes, s[at..], x) <==> x.at == i && EncodedAt(encodes, s, x.(at := at + i))
    {
      if x.at == i && at + i + x.n <= |s| {
        assert s[at..][i..i + x.n] == s[at + i..at + i + x.n];
      }
    }
    if StartsAt(encodes, s, at + i) {
      var x: Spot<P> :| x.at == at + i && EncodedAt(encodes, s, x);
      assert EncodedAt(encodes, s[at..], x.(at := i));
    }
  }

  /** The retained bytes are the end of the stream. */
  lemma {:induction false} RestIsSuffix<P>(decide: Decider<P>, s: bytes)
    ensures var rest := Scan(decide, s).rest;
            |rest| <= |s| && rest == s[|s| - |rest|..]
    decreases |s|
  {
    var d := decide(s);
    if Moves(d, s) {
      RestIsSuffix(decide, s[d.n..]);
    }
  }

  lemma {:induction false} SpotsArePackets<P>(decide: Decider<P>, s: bytes, at: nat)
    requires at <= |s|
    ensures PacketsOf(Spots(decide, s, at)) == Scan(decide, s[at..]).packets
    decreases |s| - at
  {
    var d := decide(s[at..]);
    if Moves(d, s[at..]) {
      assert s[at..][d.n..] == s[at + d.n..];
      SpotsArePackets(decide, s, at + d.n);
      if d.Emit? {
        PacketsOfCons(Spot(at, d.n, d.packet), Spots(decide, s, at + d.n));
      } else {
        assert [] + Spots(decide, s, at + d.n) == Spots(decide, s, at + d.n);
      }
    }
  }

  /** Over any stream, a scan emits exactly the greedy leftmost wire forms of the part it has
      consumed; so every byte is in one emitted packet, skipped, or retained. */
  lemma {:induction false} ScanIsGreedy<P(!new)>(decide: Decider<P>, encodes: Encoding<P>, s: bytes, at: nat)
    requires Stable(decide) && Exact(decide, encodes)
    requires at <= |s|
    ensures var o := Scan(decide, s[at..]);
            && |o.rest| <= |s| - at && o.rest == s[|s| - |o.rest|..]
            && PacketsOf(Spots(decide, s, at)) == o.packets
            && GreedyLeftmost(encodes, s, at, |s| - |o.rest|, Spots(decide, s, at))
  {
    RestIsSuffix(decide, s[at..]);
    SpotsArePackets(decide, s, at);
    GreedySpots(decide, encodes, s, at, |s| - |Scan(decide, s[at..]).rest|);
  }

  lemma {:induction false} GreedySpots<P(!new)>(decide: Decider<P>, encodes: Encoding<P>, s: bytes, at: nat, to: nat)
    requires Stable(decide) && Exact(decide, encodes)
    requires at <= |s| && to == |s| - |Scan(decide, s[at..]).rest|
    ensures GreedyLeftmost(encodes, s, at, to, Spots(decide, s, at))
    decreases |s| - at
  {
    var d := decide(s[at..]);
    RestIsSuffix(decide, s[at..]);
    if Moves(d, s[at..]) {
      assert s[at..][d.n..] == s[at + d.n..];
      GreedySpots(decide, encodes, s, at + d.n, to);
      GreedyStep(decide, encodes, s, at, to);
    } else {
      assert to == at;
    }
  }

  lemma GreedyStep<P(!new)>(decide: Decider<P>, encodes: Encoding<P>, s: bytes, at: nat, to: nat)
    requires Exact(decide, encodes)
    requires at <= |s| && Moves(decide(s[at..]), s[at..])
    requires var next := at + decide(s[at..]).n;
             next <= to && GreedyLeftmost(encodes, s, next, to, Spots(decide, s, next))
    ensures GreedyLeftmost(encodes, s, at, to, Spots(decide, s, at))
  {
    var d := decide(s[at..]);
    var later := Spots(decide, s, at + d.n);
    if d.Emit? {
      EmitIsEncoded(decide, encodes, s, at);
      GreedyEmit(encodes, s, Spot(at, d.n, d.packet), to, later);
    } else {
      SkipIsSafe(decide, encodes, s, at);
      GreedyFromEarlier(encodes, s, at, at + d.n, to, later);
      assert [] + later == later;
    }
  }

  lemma PacketsOfCons<P>(x: Spot<P>, later: seq<Spot<P>>)
    ensures PacketsOf([x] + later) == [x.packet] + PacketsOf(later)
  {
  }

  lemma GreedyEmit<P(!new)>(encodes: Encoding<P>, s: bytes, x: Spot<P>, to: nat, later: seq<Spot<P>>)
    requires EncodedAt(encodes, s, x)
    requires x.at + x.n <= to && GreedyLeftmost(encodes, s, x.at + x.n, to, later)
    ensures GreedyLeftmost(encodes, s, x.at, to, [x] + later)
  {
    assert ([x] + later)[1..] == later;
  }

  lemma EmitIsEncoded<P(!new)>(decide: Decider<P>, encodes: Encoding<P>, s: bytes, at: nat)
    requires Exact(decide, encodes)
    requires at <= |s| && decide(s[at..]).Emit?
    ensures var d := decide(s[at..]);
            at + d.n <= |s| && EncodedAt(encodes, s, Spot(at, d.n, d.packet))
  {
    var d := decide(s[at..]);
    assert EmitsExactly(decide, encodes, s[at..], Spot(0, d.n, d.packet));
    assert s[at..][0..d.n] == s[at..at + d.n];
  }

  lemma SkipIsSafe<P(!new)>(decide: Decider<P>, encodes: Encoding<P>, s: bytes, at: nat)
    requires Exact(decide, encodes)
    requires at <= |s| && decide(s[at..]).Skip?
    ensures NoneStarts(encodes, s, at, at + decide(s[at..]).n)
  {
    forall i: nat | at <= i < at + decide(s[at..]).n ensures !StartsAt(encodes, s, i) {
      ShiftStart(encodes, s, at, i - at);
      assert SkipsSafely(decide, encodes, s[at..], i - at);
    }
  }

  lemma GreedyFromEarlier<P(!new)>(encodes: Encoding<P>, s: bytes, from: nat, mid: nat, to: nat, spots: seq<Spot<P>>)
    requires from <= mid
    requires NoneStarts(encodes, s, from, mid)
    requires GreedyLeftmost(encodes, s, mid, to, spots)
    ensures GreedyLeftmost(encodes, s, from, to, spots)
  {
  }

  /** There is only one such choice, so the theorem above determines the packets. */
  lemma {:induction false} GreedyIsUnique<P(!new)>(decide: Decider<P>, encodes: Encoding<P>, s: bytes,
                                                   from: nat, to: nat,
                                                   xs: seq<Spot<P>>, ys: seq<Spot<P>>)
    requires Exact(decide, encodes)
    requires GreedyLeftmost(encodes, s, from, to, xs) && GreedyLeftmost(encodes, s, from, to, ys)
    requires forall x :: x in xs + ys ==> 0 < x.n
    ensures xs == ys
    decreases |xs|
  {
    if xs != [] && ys != [] {
      var x, y := xs[0], ys[0];
      assert StartsAt(encodes, s, x.at) && StartsAt(encodes, s, y.at);
      assert x.at == y.at;
      assert s[x.at..][0..x.n] == s[x.at..x.at + x.n] && s[x.at..][0..y.n] == s[x.at..x.at + y.n];
      assert EncodedAt(encodes, s[x.at..], x.(at := 0)) && EncodedAt(encodes, s[x.at..], y.(at := 0));
      assert EmitsExactly(decide, encodes, s[x.at..], x.(at := 0));
      assert EmitsExactly(decide, encodes, s[x.at..], y.(at := 0));
      assert decide(s[x.at..]) == Emit(x.packet, x.n) && decide(s[x.at..]) == Emit(y.packet, y.n);
      GreedyIsUnique(decide, encodes, s, x.at + x.n, to, xs[1..], ys[1..]);
    } else if xs != [] {
      assert StartsAt(encodes, s, xs[0].at);
    } else if ys != [] {
      assert StartsAt(encodes, s, ys[0].at);
    }
  }

  // ---- nothing is withheld for long

  /** Position i is the start of one of the spots, or inside it. */
  ghost predicate Covered<P>(spots: seq<Spot<P>>, i: nat) {
    exists k :: 0 <= k < |spots| && spots[k].at <= i < spots[k].at + spots[k].n
  }

  lemma {:induction false} StartIsCovered<P(!new)>(encodes: Encoding<P>, s: bytes, from: nat, to: nat,
                                                   spots: seq<Spot<P>>, i: nat)
    requires GreedyLeftmost(encodes, s, from, to, spots)
    requires from <= i < to && StartsAt(encodes, s, i)
    ensures Covered(spots, i)
    decreases |spots|
  {
    if spots == [] {
      assert false;
    }
    var x := spots[0];
    assert x.at <= i;
    if i < x.at + x.n {
      assert spots[0].at <= i < spots[0].at + spots[0].n;
    } else {
      StartIsCovered(encodes, s, x.at + x.n, to, spots[1..], i);
      var k :| 0 <= k < |spots[1..]| && spots[1..][k].at <= i < spots[1..][k].at + spots[1..][k].n;
      assert spots[k + 1] == spots[1..][k];
    }
  }

  /** A wire form that starts before what is retained has been emitted, or starts inside one that
      was. */
  lemma ConsumedIsEmitted<P(!new)>(decide: Decider<P>, encodes: Encoding<P>, inputs: seq<bytes>, i: nat)
    requires ParsesGreedily(decide, encodes, inputs)
    requires var s := Concat(inputs); i < |s| - |FeedAll(decide, [], inputs).rest| && StartsAt(encodes, s, i)
    ensures Covered(Spots(decide, Concat(inputs), 0), i)
  {
    var s := Concat(inputs);
    StartIsCovered(encodes, s, 0, |s| - |FeedAll(decide, [], inputs).rest|, Spots(decide, s, 0), i);
  }

  // ---- print then parse

  ghost predicate EncodesAll<P>(encodes: Encoding<P>, ws: seq<bytes>, ps: seq<P>) {
    |ws| == |ps| && forall i :: 0 <= i < |ws| ==> encodes(ws[i], ps[i])
  }

  /** A concatenation of wire forms is scanned back into exactly its packets, whatever follows. */
  lemma {:induction false} ScanEncoded<P(!new)>(decide: Decider<P>, encodes: Encoding<P>, ws: seq<bytes>,
                                                 ps: seq<P>, t: bytes)
    requires Stable(decide) && Exact(decide, encodes)
    requires EncodesAll(encodes, ws, ps)
    ensures Scan(decide, Concat(ws) + t) == Outcome(ps + Scan(decide, t).packets, Scan(decide, t).rest)
    decreases |ws|
  {
    var after := Scan(decide, t);
    if ws == [] {
      assert Concat(ws) + t == t && ps + after.packets == after.packets;
    } else {
      ScanEncodedFirst(decide, encodes, ws[0], ps[0], Concat(ws[1..]) + t);
      Associative(ws[0], Concat(ws[1..]), t);
      ScanEncoded(decide, encodes, ws[1..], ps[1..], t);
      Associative([ps[0]], ps[1..], after.packets);
      assert [ps[0]] + ps[1..] == ps;
    }
  }

  lemma ScanEncodedFirst<P(!new)>(decide: Decider<P>, encodes: Encoding<P>, w: bytes, p: P, t: bytes)
    requires Stable(decide) && Exact(decide, encodes) && encodes(w, p)
    ensures Scan(decide, w + t) == Outcome([p] + Scan(decide, t).packets, Scan(decide, t).rest)
  {
    assert (w + t)[0..|w|] == w && (w + t)[|w|..] == t;
    assert EncodedAt(encodes, w + t, Spot(0, |w|, p));
    assert EmitsExactly(decide, encodes, w + t, Spot(0, |w|, p));
  }

  // ---- garbage in front of a stream

  /** A prefix whose every position is skipped once enough bytes are there changes no packet.
      `least` is the length below which the decider always waits. */
  lemma {:induction false} GarbagePrefix<P(!new)>(decide: Decider<P>, least: nat, g: bytes, s: bytes)
    requires Stable(decide)
    requires forall u :: |u| < least ==> decide(u).NeedMore?
    requires forall i, u {:trigger g[i..] + u} ::
               0 <= i < |g| && least <= |g[i..] + u| ==> decide(g[i..] + u) == Skip(1)
    ensures Scan(decide, g + s).packets == Scan(decide, s).packets
    ensures least <= |s| ==> Scan(decide, g + s).rest == Scan(decide, s).rest
    decreases |g|
  {
    if g == [] {
      assert g + s == s;
    } else if least <= |g + s| {
      assert g[0..] + s == g + s;
      assert (g + s)[1..] == g[1..] + s;
      forall i, u | 0 <= i < |g[1..]| && least <= |g[1..][i..] + u| ensures decide(g[1..][i..] + u) == Skip(1) {
        assert g[1..][i..] + u == g[i + 1..] + u;
      }
      GarbagePrefix(decide, least, g[1..], s);
    }
  }

  // ---- whole streams, in any reads

  /** What a parser that starts empty has done after the reads: emitted the greedy leftmost wire
      forms of the part of the stream before what it retains. */
  ghost predicate ParsesGreedily<P(!new)>(decide: Decider<P>, encodes: Encoding<P>, inputs: seq<bytes>) {
    var s, o := Concat(inputs), FeedAll(decide, [], inputs);
    && o == Scan(decide, s)
    && |o.rest| <= |s| && o.rest == s[|s| - |o.rest|..] && decide(o.rest).NeedMore?
    && PacketsOf(Spots(decide, s, 0)) == o.packets
    && GreedyLeftmost(encodes, s, 0, |s| - |o.rest|, Spots(decide, s, 0))
  }

  lemma StreamIsGreedy<P(!new)>(decide: Decider<P>, encodes: Encoding<P>, inputs: seq<bytes>)
    requires Stable(decide) && Exact(decide, encodes) && decide([]).NeedMore?
    ensures ParsesGreedily(decide, encodes, inputs)
  {
    var s := Concat(inputs);
    ReadBoundaries(decide, [], inputs);
    assert [] + s == s;
    assert s[0..] == s;
    ScanIsGreedy(decide, encodes, s, 0);
    ScanRestWaits(decide, s);
  }

  /** Wire forms one after the other, cut into any reads, come back as their packets. */
  lemma StreamRoundTrip<P(!new)>(decide: Decider<P>, encodes: Encoding<P>, ws: seq<bytes>, ps: seq<P>,
      inputs: seq<bytes>)
    requires Stable(decide) && Exact(decide, encodes) && decide([]).NeedMore?
    requires EncodesAll(encodes, ws, ps)
    requires Concat(inputs) == Concat(ws)
    ensures FeedAll(decide, [], inputs) == Outcome(ps, [])
  {
    ReadBoundaries(decide, [], inputs);
    assert [] + Concat(inputs) == Concat(ws);
    ScanEncoded(decide, encodes, ws, ps, []);
    assert Scan(decide, []) == Outcome([], []);
    assert Concat(ws) + [] == Concat(ws) && ps + [] == ps;
  }
}
