/** ImageClient of image_client.py: from the bytes read to the photos delivered. */
module ImageClients {
  import opened Bytes
  import opened Scanner
  import opened ImageFrames
  import opened Reassembly

  const FORMAT_HEIF: byte := 2

  /** The time to the second, as in 20250131_235959. */
  const STAMP_LEN := 15

  type Stamp = s: string | |s| == STAMP_LEN witness "19700101_000000"

  /** The time stamp at the n-th file saved. */
  type Stamps = nat -> Stamp

  datatype Saved = Saved(path: string, image: Image)

  function SuggestedExtension(imgFormat: byte): string {
    if imgFormat == FORMAT_JPEG then ".jpg" else if imgFormat == FORMAT_HEIF then ".heif" else ".bin"
  }

  function Digit(d: nat): char
    requires d < 10
  {
    "0123456789"[d]
  }

  function Decimal(n: nat): (s: string)
    ensures s != [] && '.' !in s
  {
    if n < 10 then [Digit(n)] else Decimal(n / 10) + [Digit(n % 10)]
  }

  /** The name made for a photo in this folder, whose own name ends in its separator. */
  function DatedPath(folder: string, stamp: Stamp, groupId: byte, imgFormat: byte): string {
    folder + "photo_" + stamp + "_g" + Decimal(groupId) + SuggestedExtension(imgFormat)
  }

  function PathOf(folder: string, next: Option<string>, stamp: Stamp, image: Image): string {
    if next.Some? then next.value else DatedPath(folder, stamp, image.groupId, image.imgFormat)
  }

  /** The files written for these images after n others: the first of them takes the chosen name. */
  function Deliveries(folder: string, now: Stamps, n: nat, next: Option<string>, images: seq<Image>): seq<Saved> {
    seq(|images|, k requires 0 <= k < |images| =>
      Saved(PathOf(folder, if k == 0 then next else None, now(n + k), images[k]), images[k]))
  }

  /** Each image is saved as it is: the first under the chosen name if there is one, each other under
      the name made of its second, group and format. */
  lemma EachIsSaved(folder: string, now: Stamps, n: nat, next: Option<string>, images: seq<Image>)
    ensures var saved := Deliveries(folder, now, n, next, images);
            && |saved| == |images|
            && (forall k :: 0 <= k < |images| ==> saved[k].image == images[k])
            && (images != [] && next.Some? ==> saved[0].path == next.value)
            && (forall k :: (if next.Some? then 1 else 0) <= k < |images| ==>
                  saved[k].path == folder + "photo_" + now(n + k) + "_g" + Decimal(images[k].groupId)
                                   + SuggestedExtension(images[k].imgFormat))
  {
  }

  /** The number read from its digits. */
  function NumberIn(s: string): int
    decreases |s|
  {
    if s == [] then 0 else 10 * NumberIn(s[..|s| - 1]) + (s[|s| - 1] as int - '0' as int)
  }

  lemma DigitIs(d: nat)
    requires d < 10
    ensures Digit(d) as int == '0' as int + d
  {
  }

  /** The decimal of a number is read back, and begins with 0 only if it is 0. */
  lemma {:induction false} DecimalReads(n: nat)
    ensures NumberIn(Decimal(n)) == n && (n > 0 ==> Decimal(n)[0] != '0')
    decreases n
  {
    DigitIs(n % 10);
    if n >= 10 {
      DecimalReads(n / 10);
      var s := Decimal(n);
      assert s[..|s| - 1] == Decimal(n / 10);
    } else {
      assert [Digit(n)][..0] == [];
    }
  }

  /** Which extension goes with which format: 1 is JPEG, 2 is HEIF. */
  lemma Extensions(f: byte)
    ensures SuggestedExtension(1) == ".jpg" && SuggestedExtension(2) == ".heif"
    ensures SuggestedExtension(f) == ".bin" <==> f != 1 && f != 2
  {
    assert |".jpg"| != |".heif"| && ".jpg"[1] != ".bin"[1] && |".heif"| != |".bin"|;
  }

  // ---- which photos keep a file

  type Disk = map<string, bytes>

  /** What is on the disk after these files were written, one after the other. */
  function Written(saved: seq<Saved>): Disk
    decreases |saved|
  {
    if saved == [] then map[]
    else
      var last := saved[|saved| - 1];
      Written(saved[..|saved| - 1])[last.path := last.image.data]
  }

  /** The file under the path of photo k is that of photo j, the last one saved there. */
  lemma {:induction false} FileIsLast(saved: seq<Saved>, k: nat) returns (j: nat)
    requires k < |saved|
    ensures k <= j < |saved| && saved[j].path == saved[k].path
    ensures forall i :: j < i < |saved| ==> saved[i].path != saved[k].path
    ensures saved[k].path in Written(saved) && Written(saved)[saved[k].path] == saved[j].image.data
    decreases |saved|
  {
    var n := |saved| - 1;
    if saved[n].path == saved[k].path {
      j := n;
    } else {
      j := FileIsLast(saved[..n], k);
    }
  }

  predicate OwnPaths(saved: seq<Saved>) {
    forall i, j :: 0 <= i < j < |saved| ==> saved[i].path != saved[j].path
  }

  lemma {:induction false} WrittenPaths(saved: seq<Saved>, path: string)
    ensures path in Written(saved) <==> exists k :: 0 <= k < |saved| && saved[k].path == path
    decreases |saved|
  {
    if saved != [] {
      WrittenPaths(saved[..|saved| - 1], path);
    }
  }

  /** There are as many files as photos if and only if no two photos were saved under one path; and
      never more. */
  lemma {:induction false} FilesPerPhoto(saved: seq<Saved>)
    ensures |Written(saved)| <= |saved|
    ensures |Written(saved)| == |saved| <==> OwnPaths(saved)
    decreases |saved|
  {
    if saved != [] {
      hide OwnPaths;
      var n := |saved| - 1;
      var before, last := saved[..n], saved[n];
      FilesPerPhoto(before);
      OneMorePath(before, last);
      assert before + [last] == saved;
      assert Written(saved).Keys == Written(before).Keys + {last.path};
    }
  }

  lemma OneMorePath(saved: seq<Saved>, last: Saved)
    ensures OwnPaths(saved + [last]) <==> OwnPaths(saved) && last.path !in Written(saved)
  {
    hide Written;
    var all, n := saved + [last], |saved|;
    WrittenPaths(saved, last.path);
    if OwnPaths(all) {
      forall k | 0 <= k < n ensures saved[k].path != last.path {
        assert all[k].path != all[n].path;
      }
      forall i, j | 0 <= i < j < n ensures saved[i].path != saved[j].path {
        assert all[i].path != all[j].path;
      }
    }
  }

  lemma {:induction false} DecimalsDiffer(a: nat, b: nat)
    requires Decimal(a) == Decimal(b)
    ensures a == b
    decreases a
  {
    var s := Decimal(a);
    assert s[|s| - 1] == Digit(a % 10) == Digit(b % 10);
    if a >= 10 && b >= 10 {
      assert s[..|s| - 1] == Decimal(a / 10) == Decimal(b / 10);
      DecimalsDiffer(a / 10, b / 10);
    }
  }

  /** The first dot is where the number ends. */
  lemma DotAfterNumber(a: nat, x: string)
    requires x != [] && x[0] == '.'
    ensures var s, m := Decimal(a) + x, |Decimal(a)|;
            s[m] == '.' && (forall k :: 0 <= k < m ==> s[k] != '.') && s[..m] == Decimal(a) && s[m..] == x
  {
  }

  /** A number ends where the extension begins. */
  lemma NumberEnds(a: nat, x: string, b: nat, y: string)
    requires x != [] && y != [] && x[0] == '.' && y[0] == '.'
    requires Decimal(a) + x == Decimal(b) + y
    ensures a == b && x == y
  {
    hide Decimal;
    DotAfterNumber(a, x);
    DotAfterNumber(b, y);
    assert |Decimal(a)| == |Decimal(b)|;
    DecimalsDiffer(a, b);
  }

  lemma DatedParts(folder: string, s: Stamp, g: byte, f: byte)
    ensures var p, n := DatedPath(folder, s, g, f), |folder| + 6;
            && |p| >= n + STAMP_LEN + 2 && p[n..n + STAMP_LEN] == s
            && p[n + STAMP_LEN + 2..] == Decimal(g) + SuggestedExtension(f)
  {
    hide Decimal, SuggestedExtension;
    var start, rest := folder + "photo_", Decimal(g) + SuggestedExtension(f);
    assert DatedPath(folder, s, g, f) == start + s + "_g" + rest;
  }

  /** Two names made for photos are equal exactly when second, group and extension are. */
  lemma SameDatedPath(folder: string, s: Stamp, g: byte, f: byte, t: Stamp, h: byte, e: byte)
    ensures DatedPath(folder, s, g, f) == DatedPath(folder, t, h, e)
            <==> s == t && g == h && SuggestedExtension(f) == SuggestedExtension(e)
  {
    if DatedPath(folder, s, g, f) == DatedPath(folder, t, h, e) {
      hide DatedPath, Decimal;
      DatedParts(folder, s, g, f);
      DatedParts(folder, t, h, e);
      NumberEnds(g, SuggestedExtension(f), h, SuggestedExtension(e));
    }
  }

  /** Photos i and j of a client that has saved nothing come under one path: both under names made for
      them in one second, with one group and one extension; or the first under a chosen name that is
      the name made for the other. */
  predicate Meet(folder: string, now: Stamps, next: Option<string>, images: seq<Image>, i: nat, j: nat)
    requires i < j < |images|
  {
    var (a, b) := (images[i], images[j]);
    if i == 0 && next.Some? then next.value == DatedPath(folder, now(j), b.groupId, b.imgFormat)
    else
      && now(i) == now(j) && a.groupId == b.groupId
      && SuggestedExtension(a.imgFormat) == SuggestedExtension(b.imgFormat)
  }

  predicate NoneMeet(folder: string, now: Stamps, next: Option<string>, images: seq<Image>) {
    forall i, j :: 0 <= i < j < |images| ==> !Meet(folder, now, next, images, i, j)
  }

  /** Every photo keeps a file of its own exactly when no two meet. */
  lemma EachKeepsItsFile(folder: string, now: Stamps, next: Option<string>, images: seq<Image>)
    ensures |Written(Deliveries(folder, now, 0, next, images))| == |images| <==> NoneMeet(folder, now, next, images)
  {
    hide DatedPath, Written, Meet;
    var saved := Deliveries(folder, now, 0, next, images);
    FilesPerPhoto(saved);
    forall i, j | 0 <= i < j < |images|
      ensures saved[i].path == saved[j].path <==> Meet(folder, now, next, images, i, j)
    {
      PathsMeet(folder, now, next, images, i, j);
    }
  }

  lemma PathsMeet(folder: string, now: Stamps, next: Option<string>, images: seq<Image>, i: nat, j: nat)
    requires i < j < |images|
    ensures PathOf(folder, if i == 0 then next else None, now(i), images[i]) == PathOf(folder, None, now(j), images[j])
            <==> Meet(folder, now, next, images, i, j)
  {
    hide DatedPath, SuggestedExtension;
    SameDatedPath(folder, now(i), images[i].groupId, images[i].imgFormat,
                  now(j), images[j].groupId, images[j].imgFormat);
  }

  /** And then each file holds the data of its photo. */
  lemma FilesHoldPhotos(saved: seq<Saved>, k: nat)
    requires OwnPaths(saved) && k < |saved|
    ensures saved[k].path in Written(saved) && Written(saved)[saved[k].path] == saved[k].image.data
  {
    var j := FileIsLast(saved, k);
    assert j == k;
  }

  lemma NoneMeetOwnPaths(folder: string, now: Stamps, next: Option<string>, images: seq<Image>)
    requires NoneMeet(folder, now, next, images)
    ensures OwnPaths(Deliveries(folder, now, 0, next, images))
  {
    hide Written;
    EachKeepsItsFile(folder, now, next, images);
    FilesPerPhoto(Deliveries(folder, now, 0, next, images));
  }

  /** Two photos of one group and extension in one second: the second takes the place of the first. */
  lemma SameSecondOverwrites(folder: string, now: Stamps, n: nat, first: Image, second: Image)
    requires now(n) == now(n + 1) && first.groupId == second.groupId
    requires SuggestedExtension(first.imgFormat) == SuggestedExtension(second.imgFormat)
    ensures var saved := Deliveries(folder, now, n, None, [first, second]);
            saved[0].path == saved[1].path && Written(saved) == map[saved[0].path := second.data]
  {
    TwoWritten(Deliveries(folder, now, n, None, [first, second]));
  }

  /** A chosen name can be the one made for the next photo, which then takes the file. */
  lemma ChosenIsOverwritten(folder: string, now: Stamps, n: nat, first: Image, second: Image)
    ensures var chosen := DatedPath(folder, now(n + 1), second.groupId, second.imgFormat);
            Written(Deliveries(folder, now, n, Some(chosen), [first, second])) == map[chosen := second.data]
  {
    var chosen := DatedPath(folder, now(n + 1), second.groupId, second.imgFormat);
    TwoWritten(Deliveries(folder, now, n, Some(chosen), [first, second]));
  }

  lemma TwoWritten(saved: seq<Saved>)
    requires |saved| == 2 && saved[0].path == saved[1].path
    ensures Written(saved) == map[saved[0].path := saved[1].image.data]
  {
    assert saved[..1] == [saved[0]] && [saved[0]][..0] == [];
    assert Written([saved[0]]) == map[saved[0].path := saved[0].image.data];
  }

  // ---- what a client delivers

  function NextName(next: Option<string>, images: seq<Image>): Option<string> {
    if images == [] then next else None
  }

  /** The state and the images after these sub-frames. */
  function FeedFrom(s: State, xs: seq<SubFrame>): (State, seq<Image>)
    decreases |xs|
  {
    if xs == [] then (s, [])
    else
      var (t, images) := FeedFrom(s, xs[..|xs| - 1]);
      var (u, image) := Step(t, Frame(xs[|xs| - 1]));
      (u, if image.Some? then images + [image.value] else images)
  }

  lemma FeedOne(s: State, xs: seq<SubFrame>, i: nat)
    requires i < |xs|
    ensures var (t, images) := FeedFrom(s, xs[..i]);
            var (u, image) := Step(t, Frame(xs[i]));
            FeedFrom(s, xs[..i + 1]) == (u, if image.Some? then images + [image.value] else images)
  {
    assert xs[..i + 1][..i] == xs[..i];
  }

  lemma {:induction false} FeedAppend(s: State, xs: seq<SubFrame>, ys: seq<SubFrame>)
    ensures var (t, first) := FeedFrom(s, xs);
            var (u, second) := FeedFrom(t, ys);
            FeedFrom(s, xs + ys) == (u, first + second)
    decreases |ys|
  {
    var (t, first) := FeedFrom(s, xs);
    if ys == [] {
      assert xs + ys == xs && first + [] == first;
    } else {
      var n := |ys| - 1;
      assert (xs + ys)[..|xs + ys| - 1] == xs + ys[..n];
      FeedAppend(s, xs, ys[..n]);
      var (v, second) := FeedFrom(t, ys[..n]);
      var (w, image) := Step(v, Frame(ys[n]));
      if image.Some? {
        Associative(first, second, [image.value]);
      }
    }
  }

  lemma DeliveriesAppend(folder: string, now: Stamps, n: nat, next: Option<string>, images: seq<Image>,
                         more: seq<Image>)
    ensures Deliveries(folder, now, n, next, images + more)
            == Deliveries(folder, now, n, next, images)
               + Deliveries(folder, now, n + |images|, NextName(next, images), more)
    ensures NextName(next, images + more) == NextName(NextName(next, images), more)
  {
  }

  lemma DeliverOne(folder: string, now: Stamps, files: seq<Saved>, next: Option<string>, images: seq<Image>,
                   image: Image)
    ensures files + Deliveries(folder, now, |files|, next, images)
            + Deliveries(folder, now, |files| + |images|, NextName(next, images), [image])
            == files + Deliveries(folder, now, |files|, next, images + [image])
    ensures NextName(next, images + [image]) == None
    ensures |Deliveries(folder, now, |files| + |images|, NextName(next, images), [image])| == 1
  {
    DeliveriesAppend(folder, now, |files|, next, images, [image]);
    Associative(files, Deliveries(folder, now, |files|, next, images),
                Deliveries(folder, now, |files| + |images|, NextName(next, images), [image]));
  }

  lemma NothingFed(folder: string, now: Stamps, files: seq<Saved>, next: Option<string>, s: State)
    ensures files + Deliveries(folder, now, |files|, next, []) == files && FeedFrom(s, []) == (s, [])
  {
  }

  function Named(path: Option<string>): Option<string> {
    if path == Some("") then None else path
  }

  /** What a client holds. */
  datatype Session = Session(buf: bytes, state: State, nextPhotoPath: Option<string>, saved: seq<Saved>)

  /** The client after its parser emitted the packets of `o` and retained its rest. */
  function After(folder: string, now: Stamps, c: Session, o: Outcome<SubFrame>): Session {
    var (state, images) := FeedFrom(c.state, o.packets);
    Session(o.rest, state, NextName(c.nextPhotoPath, images),
            c.saved + Deliveries(folder, now, |c.saved|, c.nextPhotoPath, images))
  }

  lemma AfterNothing(folder: string, now: Stamps, c: Session)
    ensures After(folder, now, c, Outcome([], c.buf)) == c
  {
    assert c.saved + Deliveries(folder, now, |c.saved|, c.nextPhotoPath, []) == c.saved;
  }

  lemma AfterMore(folder: string, now: Stamps, c: Session, inputs: seq<bytes>, data: bytes)
    ensures var d := After(folder, now, c, FeedAll(Decide(), c.buf, inputs));
            After(folder, now, d, Scan(Decide(), d.buf + data))
            == After(folder, now, c, FeedAll(Decide(), c.buf, inputs + [data]))
  {
    FeedOneMore(Decide(), c.buf, inputs, data);
    var o := FeedAll(Decide(), c.buf, inputs);
    AfterBoth(folder, now, c, o, Scan(Decide(), o.rest + data));
  }

  lemma AfterBoth(folder: string, now: Stamps, c: Session, first: Outcome<SubFrame>, second: Outcome<SubFrame>)
    ensures After(folder, now, After(folder, now, c, first), second)
            == After(folder, now, c, Outcome(first.packets + second.packets, second.rest))
  {
    FeedAppend(c.state, first.packets, second.packets);
    var (t, images) := FeedFrom(c.state, first.packets);
    var (_, more) := FeedFrom(t, second.packets);
    var n := |c.saved|;
    DeliveriesAppend(folder, now, n, c.nextPhotoPath, images, more);
    Associative(c.saved, Deliveries(folder, now, n, c.nextPhotoPath, images),
                Deliveries(folder, now, n + |images|, NextName(c.nextPhotoPath, images), more));
  }

  class ImageClient {
    const folder: string
    const now: Stamps
    const parser: AirImgStreamParser
    const reassembler: ImageReassembler
    var nextPhotoPath: Option<string>
    var saved: seq<Saved>

    ghost function Value(): Session
      reads this, parser, reassembler
    {
      Session(parser.buf, reassembler.Value(), nextPhotoPath, saved)
    }

    constructor (folder: string, now: Stamps)
      ensures this.folder == folder && this.now == now && fresh(parser) && fresh(reassembler)
      ensures Value() == Session([], FRESH, None, [])
    {
      this.folder, this.now := folder, now;
      parser := new AirImgStreamParser();
      reassembler := new ImageReassembler();
      nextPhotoPath, saved := None, [];
    }

    /** A name for the next photo; an empty one is none. */
    method SetNextPhotoPath(path: Option<string>)
      modifies this`nextPhotoPath
      ensures Value() == old(Value()).(nextPhotoPath := Named(path))
    {
      nextPhotoPath := if path == Some("") then None else path;
    }

    /** One read. */
    method Poll(data: bytes)
      modifies this, parser, reassembler
      ensures Value() == After(folder, now, old(Value()), Scan(Decide(), old(parser.buf) + data))
    {
      hide Deliveries, FeedFrom, Step, Decide, DecideFrom, Scan;
      NothingFed(folder, now, saved, nextPhotoPath, reassembler.Value());
      var subFrames := parser.Feed(data);
      ghost var start := reassembler.Value();
      ghost var images: seq<Image> := [];
      for i := 0 to |subFrames|
        invariant FeedFrom(start, subFrames[..i]) == (reassembler.Value(), images)
        invariant saved == old(saved) + Deliveries(folder, now, |old(saved)|, old(nextPhotoPath), images)
        invariant nextPhotoPath == NextName(old(nextPhotoPath), images)
        invariant |saved| == |old(saved)| + |images|
        modifies this, reassembler
      {
        FeedOne(start, subFrames, i);
        var image := reassembler.FeedSubFrame(subFrames[i]);
        if image.Some? {
          DeliverOne(folder, now, old(saved), old(nextPhotoPath), images, image.value);
          images := images + [image.value];
          Deliver(image.value);
        }
      }
      assert subFrames[..|subFrames|] == subFrames;
    }

    method Deliver(image: Image)
      modifies this
      ensures saved == old(saved) + Deliveries(folder, now, |old(saved)|, old(nextPhotoPath), [image])
      ensures |saved| == |old(saved)| + 1 && saved[..|old(saved)|] == old(saved)
      ensures saved[|old(saved)|].image == image && (old(nextPhotoPath).Some? ==>
                saved[|old(saved)|].path == old(nextPhotoPath).value)
      ensures nextPhotoPath == None
    {
      var path: string;
      if nextPhotoPath.Some? {
        path := nextPhotoPath.value;
        nextPhotoPath := None;
      } else {
        path := folder + "photo_" + now(|saved|) + "_g" + Decimal(image.groupId) + SuggestedExtension(image.imgFormat);
      }
      saved := saved + [Saved(path, image)];
    }

    /** The reader loop: one poll per read. */
    method Receive(inputs: seq<bytes>)
      modifies this, parser, reassembler
      ensures Value() == After(folder, now, old(Value()), FeedAll(Decide(), old(parser.buf), inputs))
    {
      ghost var c := Value();
      AfterNothing(folder, now, c);
      for i := 0 to |inputs|
        invariant Value() == After(folder, now, c, FeedAll(Decide(), c.buf, inputs[..i]))
      {
        assert inputs[..i + 1] == inputs[..i] + [inputs[i]];
        AfterMore(folder, now, c, inputs[..i], inputs[i]);
        Poll(inputs[i]);
      }
      assert inputs[..|inputs|] == inputs;
    }
  }

  // ---- what is delivered

  function Frames(xs: seq<SubFrame>): seq<Input> {
    seq(|xs|, i requires 0 <= i < |xs| => Frame(xs[i]))
  }

  /** Feeding sub-frames to a fresh reassembler is a run of it. */
  lemma {:induction false} FeedIsRun(xs: seq<SubFrame>)
    ensures FeedFrom(FRESH, xs).0 == Run(Frames(xs))
    decreases |xs|
  {
    if xs != [] {
      FeedIsRun(xs[..|xs| - 1]);
      assert Frames(xs)[..|xs| - 1] == Frames(xs[..|xs| - 1]);
    }
  }

  /** Whatever bytes arrive, each image a fresh client delivers was sent whole: it is the
      concatenation of the BODYs between some HEAD and TAIL among the sub-frames of the stream. */
  lemma {:induction false} DeliveredWereSent(xs: seq<SubFrame>, k: nat)
    requires k < |FeedFrom(FRESH, xs).1|
    ensures exists i, j :: Sends(Frames(xs), i, j) && FeedFrom(FRESH, xs).1[k] == Sent(Frames(xs), i, j)
    decreases |xs|
  {
    var n := |xs| - 1;
    var before, all := Frames(xs[..n]), Frames(xs);
    var (t, images) := FeedFrom(FRESH, xs[..n]);
    assert all[..n] == before;
    if k < |images| {
      DeliveredWereSent(xs[..n], k);
      var i, j :| Sends(before, i, j) && images[k] == Sent(before, i, j);
      SentStays(before, all, i, j);
    } else {
      FeedIsRun(xs[..n]);
      var image := Step(t, Frame(xs[n])).1.value;
      ReturnedIsSent(all, n, image);
      var i :| Sends(all, i, n) && image == Sent(all, i, n);
    }
  }

  lemma SentStays(before: seq<Input>, all: seq<Input>, i: nat, j: nat)
    requires before <= all && Sends(before, i, j)
    ensures Sends(all, i, j) && Sent(all, i, j) == Sent(before, i, j)
  {
    forall k | i < k < j ensures Continues(all, i, k) {
      assert Continues(before, i, k);
    }
    assert Chunks(all, i, j) == Chunks(before, i, j);
  }

  // ---- end to end

  /** A photo as the firmware sends it. */
  datatype Photo = Photo(groupId: byte, imgFormat: byte, first: dword, chunks: seq<bytes>)

  /** BODY data fits a BODY, and the TAIL's sequence number still fits 32 bits. */
  predicate Sendable(p: Photo) {
    && p.first + |p.chunks| + 1 < TWO_32
    && forall k :: 0 <= k < |p.chunks| ==> |p.chunks[k]| <= MAX_DATA
  }

  function HeadOf(p: Photo): SubFrame {
    SubFrame(AIR_IMG_HEAD, AIR_IMG_DATA_TYPE_IMAGE, p.groupId, p.first, p.imgFormat, [])
  }

  function BodyOf(p: Photo, k: nat): SubFrame
    requires Sendable(p) && k < |p.chunks|
  {
    SubFrame(AIR_IMG_BODY, AIR_IMG_DATA_TYPE_IMAGE, p.groupId, p.first + 1 + k, FORMAT_JPEG, p.chunks[k])
  }

  function TailOf(p: Photo): SubFrame
    requires Sendable(p)
  {
    SubFrame(AIR_IMG_TAIL, AIR_IMG_DATA_TYPE_IMAGE, p.groupId, p.first + 1 + |p.chunks|, FORMAT_JPEG, [])
  }

  function BodiesOf(p: Photo, n: nat): seq<SubFrame>
    requires Sendable(p) && n <= |p.chunks|
  {
    seq(n, k requires 0 <= k < n => BodyOf(p, k))
  }

  function SubFramesOf(p: Photo): seq<SubFrame>
    requires Sendable(p)
  {
    [HeadOf(p)] + BodiesOf(p, |p.chunks|) + [TailOf(p)]
  }

  function ImageOf(p: Photo): Image {
    Image(Concat(p.chunks), p.groupId, p.imgFormat)
  }

  function AllSubFrames(photos: seq<Photo>): seq<SubFrame>
    requires forall p :: p in photos ==> Sendable(p)
  {
    if photos == [] then [] else SubFramesOf(photos[0]) + AllSubFrames(photos[1..])
  }

  function ImagesOf(photos: seq<Photo>): seq<Image> {
    seq(|photos|, i requires 0 <= i < |photos| => ImageOf(photos[i]))
  }

  /** No image in progress and nothing wrong. */
  predicate Idle(s: State) {
    !s.collecting && !s.broken
  }

  /** From s, the reassembler has come to t by the HEAD and n BODYs of the photo. */
  predicate Collected(s: State, t: State, p: Photo, n: nat)
    requires n <= |p.chunks|
  {
    && t.collecting && !t.broken && t.groupId == p.groupId && t.imgFormat == p.imgFormat
    && t.expectedSeq == p.first + 1 + n && t.chunks == p.chunks[..n]
    && t.completed == s.completed && t.dropped == s.dropped && t.lastError == s.lastError
  }

  lemma HeadCollected(s: State, p: Photo)
    requires Idle(s)
    ensures var (t, images) := FeedFrom(s, [HeadOf(p)]);
            images == [] && Collected(s, t, p, 0)
  {
    assert [HeadOf(p)][..0] == [];
  }

  lemma BodyCollected(s: State, t: State, p: Photo, n: nat)
    requires Sendable(p) && n < |p.chunks| && Collected(s, t, p, n)
    ensures var (u, image) := Step(t, Frame(BodyOf(p, n)));
            image == None && Collected(s, u, p, n + 1)
  {
    BodiesMore(p, n);
  }

  lemma {:induction false} FeedBodies(s: State, p: Photo, n: nat)
    requires Idle(s) && Sendable(p) && n <= |p.chunks|
    ensures var (t, images) := FeedFrom(s, [HeadOf(p)] + BodiesOf(p, n));
            images == [] && Collected(s, t, p, n)
    decreases n
  {
    if n == 0 {
      HeadCollected(s, p);
      assert [HeadOf(p)] + BodiesOf(p, 0) == [HeadOf(p)];
    } else {
      hide Step, Collected, Sendable;
      BodiesMore(p, n - 1);
      FeedBodies(s, p, n - 1);
      BodyCollected(s, FeedFrom(s, [HeadOf(p)] + BodiesOf(p, n - 1)).0, p, n - 1);
    }
  }

  lemma BodiesMore(p: Photo, n: nat)
    requires Sendable(p) && n < |p.chunks|
    ensures var xs := [HeadOf(p)] + BodiesOf(p, n + 1);
            xs[..|xs| - 1] == [HeadOf(p)] + BodiesOf(p, n) && xs[|xs| - 1] == BodyOf(p, n)
    ensures p.chunks[..n + 1] == p.chunks[..n] + [p.chunks[n]]
  {
  }

  lemma FeedPhoto(s: State, p: Photo)
    requires Idle(s) && Sendable(p)
    ensures var (t, images) := FeedFrom(s, SubFramesOf(p));
            && images == [ImageOf(p)] && Idle(t)
            && t.completed == s.completed + 1 && t.dropped == s.dropped && t.lastError == s.lastError
  {
    var xs, n := SubFramesOf(p), |p.chunks|;
    FeedBodies(s, p, n);
    assert xs[..|xs| - 1] == [HeadOf(p)] + BodiesOf(p, n) && xs[|xs| - 1] == TailOf(p);
    assert p.chunks[..n] == p.chunks;
  }

  lemma {:induction false} FeedPhotos(s: State, photos: seq<Photo>)
    requires Idle(s) && forall p :: p in photos ==> Sendable(p)
    ensures var (t, images) := FeedFrom(s, AllSubFrames(photos));
            && images == ImagesOf(photos) && Idle(t)
            && t.completed == s.completed + |photos| && t.dropped == s.dropped && t.lastError == s.lastError
    decreases |photos|
  {
    if photos != [] {
      hide Step, Sendable, SubFramesOf;
      FeedPhoto(s, photos[0]);
      var t := FeedFrom(s, SubFramesOf(photos[0])).0;
      FeedPhotos(t, photos[1..]);
      FeedAppend(s, SubFramesOf(photos[0]), AllSubFrames(photos[1..]));
      assert ImagesOf(photos) == [ImageOf(photos[0])] + ImagesOf(photos[1..]);
    }
  }

  /** Photos serialised one after the other, cut into any reads, leave a fresh client with the same
      photos in order, none dropped, and no byte retained. */
  lemma PhotosArrive(photos: seq<Photo>, ws: seq<bytes>, inputs: seq<bytes>)
    requires forall p :: p in photos ==> Sendable(p)
    requires EncodesAll(Wires(), ws, AllSubFrames(photos))
    requires Concat(inputs) == Concat(ws)
    ensures var o := FeedAll(Decide(), [], inputs);
            var (state, images) := FeedFrom(FRESH, o.packets);
            && o.rest == [] && images == ImagesOf(photos)
            && state.completed == |photos| && state.dropped == 0 && state.lastError == None && Idle(state)
  {
    WriteThenParse(ws, AllSubFrames(photos), inputs);
    FeedPhotos(FRESH, photos);
  }

  /** Such a serialisation exists for every list of photos. */
  lemma PhotosHaveWires(photos: seq<Photo>) returns (ws: seq<bytes>)
    requires forall p :: p in photos ==> Sendable(p)
    ensures EncodesAll(Wires(), ws, AllSubFrames(photos))
  {
    var xs := AllSubFrames(photos);
    AllWritable(photos);
    ws := seq(|xs|, i requires 0 <= i < |xs| => assert xs[i] in xs; Wire(xs[i]));
  }

  lemma {:induction false} AllWritable(photos: seq<Photo>)
    requires forall p :: p in photos ==> Sendable(p)
    ensures forall x :: x in AllSubFrames(photos) ==> Writable(x)
    decreases |photos|
  {
    if photos != [] {
      var bodies := BodiesOf(photos[0], |photos[0].chunks|);
      assert forall x :: x in bodies ==> Writable(x);
      assert SubFramesOf(photos[0]) == [HeadOf(photos[0])] + bodies + [TailOf(photos[0])];
      AllWritable(photos[1..]);
    }
  }

  /** The photos sent are saved, each with its bytes, group and format, under the chosen or the made
      name; and where no two meet, each has a file with just its bytes. */
  ghost predicate SavedAs(folder: string, now: Stamps, next: Option<string>, photos: seq<Photo>, saved: seq<Saved>) {
    && |saved| == |photos|
    && (forall k :: 0 <= k < |photos| ==>
          saved[k].image == Image(Concat(photos[k].chunks), photos[k].groupId, photos[k].imgFormat))
    && (photos != [] && next.Some? ==> saved[0].path == next.value)
    && (forall k :: (if next.Some? then 1 else 0) <= k < |photos| ==>
          saved[k].path == DatedPath(folder, now(k), photos[k].groupId, photos[k].imgFormat))
    && (NoneMeet(folder, now, next, ImagesOf(photos)) ==>
          forall k :: 0 <= k < |photos| ==> FileIs(saved, k, Concat(photos[k].chunks)))
  }

  predicate FileIs(saved: seq<Saved>, k: nat, data: bytes)
    requires k < |saved|
  {
    saved[k].path in Written(saved) && Written(saved)[saved[k].path] == data
  }

  lemma PhotosSaved(folder: string, now: Stamps, next: Option<string>, photos: seq<Photo>)
    ensures SavedAs(folder, now, next, photos, Deliveries(folder, now, 0, next, ImagesOf(photos)))
  {
    hide Written, NoneMeet, DatedPath, OwnPaths;
    var images := ImagesOf(photos);
    var saved := Deliveries(folder, now, 0, next, images);
    if NoneMeet(folder, now, next, images) {
      NoneMeetOwnPaths(folder, now, next, images);
      forall k | 0 <= k < |photos| ensures FileIs(saved, k, Concat(photos[k].chunks)) {
        FilesHoldPhotos(saved, k);
      }
    }
  }

  /** The theorem for the client object: what a maintainer would run. */
  method ReceivePhotos(folder: string, now: Stamps, name: Option<string>, photos: seq<Photo>, ws: seq<bytes>,
                       inputs: seq<bytes>)
    returns (client: ImageClient)
    requires forall p :: p in photos ==> Sendable(p)
    requires EncodesAll(Wires(), ws, AllSubFrames(photos))
    requires Concat(inputs) == Concat(ws)
    ensures fresh(client)
    ensures client.saved == Deliveries(folder, now, 0, Named(name), ImagesOf(photos))
    ensures SavedAs(folder, now, Named(name), photos, client.saved)
    ensures |Written(client.saved)| == |photos| <==> NoneMeet(folder, now, Named(name), ImagesOf(photos))
    ensures client.reassembler.imagesCompleted == |photos| && client.reassembler.imagesDropped == 0
    ensures client.parser.buf == []
  {
    hide Deliveries, Written, NoneMeet;
    client := new ImageClient(folder, now);
    client.SetNextPhotoPath(name);
    client.Receive(inputs);
    PhotosArrive(photos, ws, inputs);
    EachKeepsItsFile(folder, now, Named(name), ImagesOf(photos));
    PhotosSaved(folder, now, Named(name), photos);
    assert [] + client.saved == client.saved;
  }
}
