/**
 CatalogClient of catalog.py: the paged listing of media IDs with a descriptor query for each.  The
 device is any responder: its answer may depend on the query and on how many came before it.
 */
module Catalog {
  import opened Bytes

  const MEDIA_CAPS: byte := 0x25
  const MEDIA_DESCRIPTOR: byte := 0x26
  const MEDIA_IDS: byte := 0x27
  const GONE_A: byte := 0x62
  const GONE_B: byte := 0x63
  const CATALOG_GONE: set<byte> := {0x60, 0x68, 0x6e, 0x73, 0x74}
  const MAX_PAGE := 16

  datatype Query = Query(command: byte, args: bytes)

  /** What a query to the session comes to: data, a status error with its data, a lost or changed
      session, or any other client error. */
  datatype Response = Data(data: bytes) | Status(data: bytes) | Lost | Fault

  type Responder = (nat, Query) -> Response

  /** MediaSessionError, MediaError caused by a status error, GlassesUnsupportedError, other errors. */
  datatype MediaError = Session | Failed(data: bytes) | Unsupported | Other

  datatype Answer<+T> = Good(value: T) | Bad(error: MediaError)

  /** _request: some status codes mean that the catalog itself is gone. */
  function Request(r: Response): Answer<bytes> {
    match r
    case Data(data) => Good(data)
    case Status(data) =>
      if data != [] && data[0] in CATALOG_GONE then Bad(Session) else Bad(Failed(data))
    case Lost => Bad(Session)
    case Fault => Bad(Other)
  }

  // ---- capabilities and check

  /** The catalog identity in a capabilities response. */
  function CatalogId(data: bytes): Answer<qword> {
    if |data| != 13 then Bad(Session)
    else
      var features := U32(data, 9);
      if data[0] != 1 || U64(data, 1) == 0 || features % 2 != 1 || (features / 16) % 2 != 1 then Bad(Unsupported)
      else Good(U64(data, 1))
  }

  /** check: None if the catalog is still the one asked about. */
  function Check(r: Response, catalogId: qword): Option<MediaError> {
    match Request(r)
    case Bad(e) => Some(e)
    case Good(data) =>
      match CatalogId(data)
      case Bad(e) => Some(e)
      case Good(id) => if id != catalogId then Some(Session) else None
  }

  // ---- what the check accepts

  /** Capabilities as the device lays them out. */
  function CapsBytes(version: byte, catalogId: qword, features: dword): (w: bytes)
    ensures |w| == 13
  {
    [version] + LE64(catalogId) + LE32(features)
  }

  /** The catalog of this identity, listed by ID (bit 0) and described (bit 4). */
  predicate Offers(version: byte, catalogId: qword, features: dword) {
    version == 1 && catalogId != 0 && features % 2 == 1 && (features / 0x10) % 2 == 1
  }

  /** An answer to the check that offers just this catalog. */
  ghost predicate Serves(r: Response, catalogId: qword) {
    exists features: dword :: r == Data(CapsBytes(1, catalogId, features)) && Offers(1, catalogId, features)
  }

  lemma CapsFields(version: byte, catalogId: qword, features: dword)
    ensures var w := CapsBytes(version, catalogId, features);
            w[0] == version && U64(w, 1) == catalogId && U32(w, 9) == features
  {
    hide LE32, LE64, U32, U64;
    var w := CapsBytes(version, catalogId, features);
    assert w[1..9] == LE64(catalogId) && w[9..13] == LE32(features);
    ReadLE64(w, 1, catalogId);
    ReadLE32(w, 9, features);
  }

  lemma CapsOfFields(data: bytes)
    requires |data| == 13
    ensures data == CapsBytes(data[0], U64(data, 1), U32(data, 9))
  {
    hide LE32, LE64, U32, U64;
    LE64OfU64(data, 1);
    LE32OfU32(data, 9);
    assert data == [data[0]] + data[1..9] + data[9..13];
  }

  /** What becomes of a capabilities response, for each version, identity and features. */
  lemma CheckOfCaps(version: byte, id: qword, features: dword, catalogId: qword)
    ensures Check(Data(CapsBytes(version, id, features)), catalogId) ==
            if !Offers(version, id, features) then Some(Unsupported)
            else if id != catalogId then Some(Session)
            else None
  {
    hide CapsBytes, U32, U64;
    CapsFields(version, id, features);
  }

  /** And of every other answer. */
  lemma CheckOfOther(r: Response, catalogId: qword)
    requires r.Data? ==> |r.data| != 13
    ensures Check(r, catalogId) == Some(match r
                                        case Data(_) => Session
                                        case Status(data) =>
                                          if |data| > 0 && (data[0] == 0x60 || data[0] == 0x68 || data[0] == 0x6E
                                                            || data[0] == 0x73 || data[0] == 0x74) then Session
                                          else Failed(data)
                                        case Lost => Session
                                        case Fault => Other)
  {
  }

  /** The check passes exactly on the answers that offer the catalog asked for. */
  lemma CheckPasses(r: Response, catalogId: qword)
    ensures Check(r, catalogId).None? <==> Serves(r, catalogId)
  {
    hide CapsBytes;
    if r.Data? && |r.data| == 13 {
      var version, id, features := r.data[0], U64(r.data, 1), U32(r.data, 9);
      CapsOfFields(r.data);
      CheckOfCaps(version, id, features, catalogId);
      if Check(r, catalogId).None? {
        assert r == Data(CapsBytes(1, catalogId, features)) && Offers(1, catalogId, features);
      }
    } else {
      CheckOfOther(r, catalogId);
    }
    if Serves(r, catalogId) {
      var features: dword :| r == Data(CapsBytes(1, catalogId, features)) && Offers(1, catalogId, features);
      CheckOfCaps(1, catalogId, features, catalogId);
    }
  }

  // ---- one item

  datatype Item = Item(mediaId: qword, revision: qword, kind: byte, size: qword, name: bytes, path: bytes)

  /** The rules for names and paths (UTF-8, media root, no separators) are a parameter. */
  type FileRule = (bytes, bytes, qword) -> bool

  function ItemQuery(catalogId: qword, mediaId: qword): Query {
    Query(MEDIA_DESCRIPTOR, LE64(catalogId) + LE64(mediaId))
  }

  function ParseItem(rule: FileRule, catalogId: qword, mediaId: qword, data: bytes): Answer<Item> {
    if |data| < 33 then Bad(Session)
    else
      var revision, kind, size, names, paths := U32(data, 16), data[20], U64(data, 21), U16(data, 29), U16(data, 31);
      if U64(data, 0) != catalogId || U64(data, 8) != mediaId || revision == 0 || (kind != 1 && kind != 2)
         || |data| != 33 + names + paths then Bad(Session)
      else if !rule(data[33..33 + names], data[33 + names..], size) then Bad(Session)
      else Good(Item(mediaId, revision, kind, size, data[33..33 + names], data[33 + names..]))
  }

  function ItemFrom(rule: FileRule, catalogId: qword, mediaId: qword, r: Response): Answer<Item> {
    match Request(r)
    case Bad(e) => Bad(e)
    case Good(data) => ParseItem(rule, catalogId, mediaId, data)
  }

  // ---- one page

  datatype PageReply = PageReply(ids: seq<qword>, next: qword, more: bool)

  function PageQuery(catalogId: qword, cursor: qword): Query {
    Query(MEDIA_IDS, LE64(catalogId) + LE64(cursor))
  }

  function ParsePage(catalogId: qword, data: bytes): Answer<PageReply> {
    if |data| < 26 then Bad(Session)
    else
      var more, count := data[24], data[25] as int;
      if U64(data, 0) != catalogId || more > 1 || count > MAX_PAGE || |data| != 26 + count * 8 then Bad(Session)
      else Good(PageReply(seq(count, i requires 0 <= i < count => U64(data, 26 + i * 8)), U64(data, 16), more == 1))
  }

  function PageFrom(catalogId: qword, r: Response): Answer<PageReply> {
    match Request(r)
    case Bad(e) => Bad(e)
    case Good(data) => ParsePage(catalogId, data)
  }

  // ---- pages and descriptors as the device lays them out

  function IdBytes(ids: seq<qword>): seq<bytes> {
    seq(|ids|, i requires 0 <= i < |ids| => LE64(ids[i]))
  }

  function PageBytes(catalogId: qword, revision: qword, p: PageReply): bytes
    requires |p.ids| <= MAX_PAGE
  {
    LE64(catalogId) + LE64(revision) + LE64(p.next) + [if p.more then 1 else 0, |p.ids|] + Concat(IdBytes(p.ids))
  }

  lemma {:induction false} IdsAt(ids: seq<qword>, i: nat)
    requires i < |ids|
    ensures |Concat(IdBytes(ids))| == 8 * |ids| && Concat(IdBytes(ids))[8 * i..8 * i + 8] == LE64(ids[i])
    decreases |ids|
  {
    hide LE64;
    var later := IdBytes(ids[1..]);
    assert IdBytes(ids)[0] == LE64(ids[0]) && IdBytes(ids)[1..] == later;
    assert Concat(IdBytes(ids)) == LE64(ids[0]) + Concat(later);
    if |ids| > 1 {
      IdsAt(ids[1..], if i == 0 then 0 else i - 1);
    }
    if i > 0 {
      assert Concat(IdBytes(ids))[8 * i..8 * i + 8] == Concat(later)[8 * (i - 1)..8 * (i - 1) + 8];
    }
  }

  lemma IdsRead(w: bytes, ids: seq<qword>)
    requires |w| >= 26 && w[26..] == Concat(IdBytes(ids)) && ids != []
    ensures |w| == 26 + 8 * |ids| && forall i :: 0 <= i < |ids| ==> U64(w, 26 + i * 8) == ids[i]
  {
    hide LE64, U64, Concat, IdBytes;
    var all := Concat(IdBytes(ids));
    IdsAt(ids, 0);
    forall i | 0 <= i < |ids| ensures U64(w, 26 + i * 8) == ids[i] {
      IdsAt(ids, i);
      ResliceTail(w, 26, 8 * i, 8 * i + 8);
      ReadLE64(w, 26 + 8 * i, ids[i]);
    }
  }

  /** A page is read back: its IDs in order, the next cursor and the flag. */
  lemma PageRoundTrip(catalogId: qword, revision: qword, p: PageReply)
    requires |p.ids| <= MAX_PAGE
    ensures ParsePage(catalogId, PageBytes(catalogId, revision, p)) == Good(p)
  {
    hide LE64, U64, Concat, IdBytes;
    var w, n := PageBytes(catalogId, revision, p), |p.ids|;
    assert w[0..8] == LE64(catalogId) && w[16..24] == LE64(p.next) && w[26..] == Concat(IdBytes(p.ids));
    ReadLE64(w, 0, catalogId);
    ReadLE64(w, 16, p.next);
    assert w[24] == (if p.more then 1 else 0) && w[25] == n;
    if n > 0 {
      IdsRead(w, p.ids);
    } else {
      NoIds(p.ids);
    }
    assert |w| == 26 + n * 8;
    assert seq(n, i requires 0 <= i < n => U64(w, 26 + i * 8)) == p.ids;
  }

  lemma NoIds(ids: seq<qword>)
    requires ids == []
    ensures Concat(IdBytes(ids)) == []
  {
  }

  function ItemStart(catalogId: qword, x: Item): (w: bytes)
    requires x.revision < TWO_32
    ensures |w| == 21
  {
    LE64(catalogId) + LE64(x.mediaId) + LE32(x.revision) + [x.kind]
  }

  function ItemSizes(x: Item): (w: bytes)
    requires |x.name| < TWO_16 && |x.path| < TWO_16
    ensures |w| == 12
  {
    LE64(x.size) + LE16(|x.name|) + LE16(|x.path|)
  }

  function ItemBytes(catalogId: qword, x: Item): bytes
    requires x.revision < TWO_32 && |x.name| < TWO_16 && |x.path| < TWO_16
  {
    ItemStart(catalogId, x) + ItemSizes(x) + x.name + x.path
  }

  lemma StartFields(w: bytes, catalogId: qword, x: Item)
    requires x.revision < TWO_32 && ItemStart(catalogId, x) <= w
    ensures U64(w, 0) == catalogId && U64(w, 8) == x.mediaId && U32(w, 16) == x.revision && w[20] == x.kind
  {
    hide LE32, LE64, U32, U64;
    var s := ItemStart(catalogId, x);
    assert w[0..8] == s[0..8] == LE64(catalogId);
    assert w[8..16] == s[8..16] == LE64(x.mediaId);
    assert w[16..20] == s[16..20] == LE32(x.revision);
    ReadLE64(w, 0, catalogId);
    ReadLE64(w, 8, x.mediaId);
    ReadLE32(w, 16, x.revision);
  }

  lemma SizeFields(w: bytes, x: Item)
    requires |x.name| < TWO_16 && |x.path| < TWO_16 && |w| >= 33 && w[21..33] == ItemSizes(x)
    ensures U64(w, 21) == x.size && U16(w, 29) == |x.name| && U16(w, 31) == |x.path|
  {
    hide LE16, LE64, U16, U64;
    var s := ItemSizes(x);
    Reslice(w, 21, 33, 0, 8);
    Reslice(w, 21, 33, 8, 10);
    Reslice(w, 21, 33, 10, 12);
    assert s[0..8] == LE64(x.size) && s[8..10] == LE16(|x.name|) && s[10..12] == LE16(|x.path|);
    ReadLE64(w, 21, x.size);
    ReadLE16(w, 29, |x.name|);
    ReadLE16(w, 31, |x.path|);
  }

  /** A descriptor is read back, if its fields are of the kinds allowed. */
  lemma ItemRoundTrip(rule: FileRule, catalogId: qword, x: Item)
    requires 0 < x.revision < TWO_32 && |x.name| < TWO_16 && |x.path| < TWO_16
    requires (x.kind == 1 || x.kind == 2) && rule(x.name, x.path, x.size)
    ensures ParseItem(rule, catalogId, x.mediaId, ItemBytes(catalogId, x)) == Good(x)
  {
    hide ItemStart, ItemSizes, U16, U32, U64;
    var w, n := ItemBytes(catalogId, x), |x.name|;
    StartFields(w, catalogId, x);
    assert w[21..33] == ItemSizes(x);
    SizeFields(w, x);
    assert w[33..33 + n] == x.name && w[33 + n..] == x.path;
  }

  // ---- what is accepted is laid out so

  /** The 16 bytes of a page query: the catalog and the cursor. */
  lemma PageQueryFields(catalogId: qword, cursor: qword)
    ensures var q := PageQuery(catalogId, cursor);
            q.command == 0x27 && |q.args| == 16 && U64(q.args, 0) == catalogId && U64(q.args, 8) == cursor
  {
    TwoWords(catalogId, cursor);
  }

  /** And those of a descriptor query: the catalog and the ID. */
  lemma ItemQueryFields(catalogId: qword, mediaId: qword)
    ensures var q := ItemQuery(catalogId, mediaId);
            q.command == 0x26 && |q.args| == 16 && U64(q.args, 0) == catalogId && U64(q.args, 8) == mediaId
  {
    TwoWords(catalogId, mediaId);
  }

  lemma TwoWords(a: qword, b: qword)
    ensures var w := LE64(a) + LE64(b); U64(w, 0) == a && U64(w, 8) == b
  {
    hide LE64, U64;
    var w := LE64(a) + LE64(b);
    assert w[0..8] == LE64(a) && w[8..16] == LE64(b);
    ReadLE64(w, 0, a);
    ReadLE64(w, 8, b);
  }

  lemma {:induction false} IdsRead64(w: bytes, ids: seq<qword>, at: nat)
    requires at <= |w| && |w| == at + 8 * |ids| && forall i :: 0 <= i < |ids| ==> U64(w, at + i * 8) == ids[i]
    ensures w[at..] == Concat(IdBytes(ids))
    decreases |ids|
  {
    hide LE64, U64;
    if ids == [] {
      NoIds(ids);
    } else {
      var later := ids[1..];
      assert U64(w, at + 0 * 8) == ids[0];
      LE64OfU64(w, at);
      forall i | 0 <= i < |later| ensures U64(w, at + 8 + i * 8) == later[i] {
        assert U64(w, at + (i + 1) * 8) == ids[i + 1];
      }
      IdsRead64(w, later, at + 8);
      assert IdBytes(ids)[0] == LE64(ids[0]) && IdBytes(ids)[1..] == IdBytes(later);
      assert w[at..] == w[at..at + 8] + w[at + 8..];
    }
  }

  lemma PageOfFields(catalogId: qword, data: bytes, p: PageReply)
    requires ParsePage(catalogId, data) == Good(p)
    ensures |p.ids| <= MAX_PAGE && data == PageBytes(catalogId, U64(data, 8), p)
  {
    hide LE64, U64, Concat, IdBytes;
    var more, count := data[24], data[25] as int;
    assert |p.ids| == count && forall i :: 0 <= i < count ==> p.ids[i] == U64(data, 26 + i * 8);
    IdsRead64(data, p.ids, 26);
    LE64OfU64(data, 0);
    LE64OfU64(data, 8);
    LE64OfU64(data, 16);
    assert data == data[0..8] + data[8..16] + data[16..24] + [more, count] + data[26..];
  }

  /** A response is this page exactly if it is laid out so, for the catalog asked about and some
      revision; any other is a session error. */
  lemma PageExactly(catalogId: qword, data: bytes, p: PageReply)
    ensures ParsePage(catalogId, data) == Good(p)
            <==> |p.ids| <= 16 && exists revision: qword :: data == PageBytes(catalogId, revision, p)
    ensures ParsePage(catalogId, data).Bad? ==> ParsePage(catalogId, data).error == Session
  {
    hide PageBytes, U64;
    if ParsePage(catalogId, data) == Good(p) {
      PageOfFields(catalogId, data, p);
      assert data == PageBytes(catalogId, U64(data, 8), p);
    }
    if |p.ids| <= MAX_PAGE && exists revision: qword :: data == PageBytes(catalogId, revision, p) {
      var revision: qword :| data == PageBytes(catalogId, revision, p);
      PageRoundTrip(catalogId, revision, p);
    }
  }

  lemma ItemOfFields(rule: FileRule, catalogId: qword, mediaId: qword, data: bytes, x: Item)
    requires ParseItem(rule, catalogId, mediaId, data) == Good(x)
    ensures 0 < x.revision < TWO_32 && |x.name| < TWO_16 && |x.path| < TWO_16 && data == ItemBytes(catalogId, x)
    ensures x.mediaId == mediaId && (x.kind == 1 || x.kind == 2) && rule(x.name, x.path, x.size)
  {
    hide LE16, LE32, LE64, U16, U32, U64;
    LE64OfU64(data, 0);
    LE64OfU64(data, 8);
    LE32OfU32(data, 16);
    LE64OfU64(data, 21);
    LE16OfU16(data, 29);
    LE16OfU16(data, 31);
    var n := |x.name|;
    assert data == data[0..8] + data[8..16] + data[16..20] + [data[20]] + (data[21..29] + data[29..31] + data[31..33])
                   + data[33..33 + n] + data[33 + n..];
  }

  /** A response describes this item exactly if it is laid out so, for the catalog and the ID asked
      about, with a revision, a known kind and a name and path by the rule; any other is a session
      error. */
  lemma ItemExactly(rule: FileRule, catalogId: qword, mediaId: qword, data: bytes, x: Item)
    ensures ParseItem(rule, catalogId, mediaId, data) == Good(x)
            <==> (&& x.mediaId == mediaId && 0 < x.revision < TWO_32 && |x.name| < TWO_16 && |x.path| < TWO_16
                  && (x.kind == 1 || x.kind == 2) && rule(x.name, x.path, x.size) && data == ItemBytes(catalogId, x))
    ensures var r := ParseItem(rule, catalogId, mediaId, data); r.Bad? ==> r.error == Session
  {
    hide ItemBytes, U16, U32, U64;
    if ParseItem(rule, catalogId, mediaId, data) == Good(x) {
      ItemOfFields(rule, catalogId, mediaId, data, x);
    }
    if 0 < x.revision < TWO_32 && |x.name| < TWO_16 && |x.path| < TWO_16 && (x.kind == 1 || x.kind == 2)
       && rule(x.name, x.path, x.size) && x.mediaId == mediaId && data == ItemBytes(catalogId, x) {
      ItemRoundTrip(rule, catalogId, x);
    }
  }

  // ---- the listing

  /** An ID of a page, and what its descriptor query, the `at`-th of all, came to. */
  datatype Entry = Entry(mediaId: qword, at: nat, item: Option<Item>)

  datatype Page = Page(cursor: qword, at: nat, entries: seq<Entry>, next: qword, more: bool)

  predicate Gone(r: Response) {
    r == Status([0x62]) || r == Status([0x63])
  }

  /** Listed with the item the device described, or left out because it was gone by then. */
  predicate EntryOk(ask: Responder, rule: FileRule, catalogId: qword, e: Entry) {
    var r := ask(e.at, ItemQuery(catalogId, e.mediaId));
    match e.item
    case Some(item) => ItemFrom(rule, catalogId, e.mediaId, r) == Good(item)
    case None => Gone(r)
  }

  predicate EntriesOk(ask: Responder, rule: FileRule, catalogId: qword, entries: seq<Entry>) {
    forall i :: 0 <= i < |entries| ==> EntryOk(ask, rule, catalogId, entries[i])
  }

  function IdsOf(entries: seq<Entry>): seq<qword> {
    seq(|entries|, i requires 0 <= i < |entries| => entries[i].mediaId)
  }

  /** The queries number n, n + 1, ... are those of these entries. */
  predicate AskedFrom(entries: seq<Entry>, n: nat) {
    forall i :: 0 <= i < |entries| ==> entries[i].at == n + i
  }

  /** The number of the query after those of the page. */
  function After(p: Page): nat {
    p.at + 1 + |p.entries|
  }

  /** The page query of this number was answered with these IDs, and the descriptor queries that
      followed it, one for each ID in order, with these items. */
  predicate PageOk(ask: Responder, rule: FileRule, catalogId: qword, p: Page) {
    && PageFrom(catalogId, ask(p.at, PageQuery(catalogId, p.cursor))) ==
        Good(PageReply(IdsOf(p.entries), p.next, p.more))
    && EntriesOk(ask, rule, catalogId, p.entries) && AskedFrom(p.entries, p.at + 1)
  }

  /** More pages are announced, and the cursor moves on. */
  predicate Goes(p: Page) {
    p.more && p.entries != [] && p.next > p.cursor
  }

  predicate Follows(p: Page, q: Page) {
    Goes(p) && q.cursor == p.next && q.at == After(p)
  }

  /** The pages follow each other from cursor 0 and query 1, by cursors that grow, with no query between. */
  predicate Chained(pages: seq<Page>) {
    && (pages != [] ==> pages[0].cursor == 0 && pages[0].at == 1)
    && forall j, k :: 0 <= j < |pages| && k == j + 1 && k < |pages| ==> Follows(pages[j], pages[k])
  }

  predicate PagesOk(ask: Responder, rule: FileRule, catalogId: qword, pages: seq<Page>) {
    Chained(pages) && forall k :: 0 <= k < |pages| ==> PageOk(ask, rule, catalogId, pages[k])
  }

  /** All the entries of the pages, in order. */
  function EntriesOf(pages: seq<Page>): seq<Entry>
    decreases |pages|
  {
    if pages == [] then [] else EntriesOf(pages[..|pages| - 1]) + pages[|pages| - 1].entries
  }

  function ItemsOf(entries: seq<Entry>): seq<Item>
    decreases |entries|
  {
    if entries == [] then []
    else
      var before, last := ItemsOf(entries[..|entries| - 1]), entries[|entries| - 1];
      if last.item.Some? then before + [last.item.value] else before
  }

  predicate DistinctIds(entries: seq<Entry>) {
    && (forall i :: 0 <= i < |entries| ==> entries[i].mediaId != 0)
    && forall i, j :: 0 <= i < j < |entries| ==> entries[i].mediaId != entries[j].mediaId
  }

  predicate DistinctItems(items: seq<Item>) {
    && (forall i :: 0 <= i < |items| ==> items[i].mediaId != 0)
    && forall i, j :: 0 <= i < j < |items| ==> items[i].mediaId != items[j].mediaId
  }

  /** Each item comes from an entry with its ID. */
  lemma {:induction false} ItemHasEntry(ask: Responder, rule: FileRule, catalogId: qword, entries: seq<Entry>, k: nat)
    returns (i: nat)
    requires EntriesOk(ask, rule, catalogId, entries) && k < |ItemsOf(entries)|
    ensures i < |entries| && entries[i].mediaId == ItemsOf(entries)[k].mediaId
    decreases |entries|
  {
    var n := |entries| - 1;
    if k < |ItemsOf(entries[..n])| {
      i := ItemHasEntry(ask, rule, catalogId, entries[..n], k);
    } else {
      i := n;
      assert EntryOk(ask, rule, catalogId, entries[n]);
    }
  }

  lemma OwnItem(ask: Responder, rule: FileRule, catalogId: qword, e: Entry)
    requires EntryOk(ask, rule, catalogId, e) && e.item.Some?
    ensures e.item.value.mediaId == e.mediaId
  {
  }

  lemma {:induction false} ItemsDistinct(ask: Responder, rule: FileRule, catalogId: qword, entries: seq<Entry>)
    requires EntriesOk(ask, rule, catalogId, entries) && DistinctIds(entries)
    ensures DistinctItems(ItemsOf(entries))
    decreases |entries|
  {
    hide EntryOk;
    if entries != [] {
      var n := |entries| - 1;
      var before := ItemsOf(entries[..n]);
      ItemsDistinct(ask, rule, catalogId, entries[..n]);
      if entries[n].item.Some? {
        OwnItem(ask, rule, catalogId, entries[n]);
        forall k | 0 <= k < |before| ensures before[k].mediaId != entries[n].mediaId {
          var i := ItemHasEntry(ask, rule, catalogId, entries[..n], k);
        }
      }
    }
  }

  lemma {:induction false} AllEntriesOk(ask: Responder, rule: FileRule, catalogId: qword, pages: seq<Page>)
    requires PagesOk(ask, rule, catalogId, pages)
    ensures EntriesOk(ask, rule, catalogId, EntriesOf(pages))
    decreases |pages|
  {
    hide EntryOk, PageFrom, Follows;
    if pages != [] {
      var n := |pages| - 1;
      AllEntriesOk(ask, rule, catalogId, pages[..n]);
      assert PageOk(ask, rule, catalogId, pages[n]);
    }
  }

  /** The IDs seen, the items listed: what the loops have of these entries. */
  ghost predicate Has(entries: seq<Entry>, seen: set<qword>, items: seq<Item>) {
    && DistinctIds(entries) && items == ItemsOf(entries)
    && (forall i :: 0 <= i < |entries| ==> entries[i].mediaId in seen)
    && forall id :: id in seen ==> exists i :: 0 <= i < |entries| && entries[i].mediaId == id
  }

  predicate Known(entries: seq<Entry>, id: qword) {
    exists i :: 0 <= i < |entries| && entries[i].mediaId == id
  }

  lemma HasKnown(entries: seq<Entry>, seen: set<qword>, items: seq<Item>, id: qword)
    requires Has(entries, seen, items)
    ensures id in seen <==> Known(entries, id)
  {
  }

  lemma HasMore(entries: seq<Entry>, seen: set<qword>, items: seq<Item>, e: Entry)
    requires Has(entries, seen, items) && e.mediaId != 0 && e.mediaId !in seen
    ensures Has(entries + [e], seen + {e.mediaId}, if e.item.Some? then items + [e.item.value] else items)
  {
    var all := entries + [e];
    assert all[..|all| - 1] == entries;
    forall id | id in seen + {e.mediaId} ensures exists i :: 0 <= i < |all| && all[i].mediaId == id {
      if id == e.mediaId {
        assert all[|entries|].mediaId == id;
      } else {
        var i :| 0 <= i < |entries| && entries[i].mediaId == id;
        assert all[i].mediaId == id;
      }
    }
  }

  lemma NoIdsYet(ids: seq<qword>)
    ensures IdsOf([]) == ids[..0]
  {
  }

  lemma IdsMore(entries: seq<Entry>, e: Entry, ids: seq<qword>)
    requires |entries| < |ids| && IdsOf(entries) == ids[..|entries|] && e.mediaId == ids[|entries|]
    ensures IdsOf(entries + [e]) == ids[..|entries| + 1]
  {
    var n := |entries|;
    assert ids[..n + 1] == ids[..n] + [ids[n]];
  }

  lemma EntryTaken(ask: Responder, rule: FileRule, catalogId: qword, e: Entry, item: Answer<Item>)
    requires item == ItemFrom(rule, catalogId, e.mediaId, ask(e.at, ItemQuery(catalogId, e.mediaId)))
    requires item.Good? || item.error == Failed([GONE_A]) || item.error == Failed([GONE_B])
    requires e.item == if item.Good? then Some(item.value) else None
    ensures EntryOk(ask, rule, catalogId, e)
  {
  }

  // ---- how a listing fails

  /** The ID that comes after these entries fails: it is 0 or known, or the query number n for its
      descriptor does, and not because the file is gone. */
  predicate IdFails(ask: Responder, rule: FileRule, catalogId: qword, entries: seq<Entry>, id: qword, n: nat,
                    e: MediaError)
  {
    if id == 0 || Known(entries, id) then e == Session
    else
      && ItemFrom(rule, catalogId, id, ask(n, ItemQuery(catalogId, id))) == Bad(e)
      && e != Failed([GONE_A]) && e != Failed([GONE_B])
  }

  /** Page query n fails; or it is answered, these are the entries of the first IDs, and the next one fails. */
  predicate PageFails(ask: Responder, rule: FileRule, catalogId: qword, before: seq<Entry>, part: seq<Entry>,
                      n: nat, cursor: qword, e: MediaError)
  {
    match PageFrom(catalogId, ask(n, PageQuery(catalogId, cursor)))
    case Bad(error) => e == error
    case Good(p) =>
      && |part| < |p.ids| && IdsOf(part) == p.ids[..|part|] && AskedFrom(part, n + 1)
      && EntriesOk(ask, rule, catalogId, part)
      && IdFails(ask, rule, catalogId, before + part, p.ids[|part|], n + 1 + |part|, e)
  }

  /** The check number n comes out so. */
  function CheckAt(ask: Responder, catalogId: qword, n: nat): Option<MediaError> {
    Check(ask(n, Query(MEDIA_CAPS, [])), catalogId)
  }

  /** The number of the query that follows these pages. */
  function NextAt(pages: seq<Page>): nat {
    if pages == [] then 1 else After(pages[|pages| - 1])
  }

  function NextCursor(pages: seq<Page>): qword {
    if pages == [] then 0 else pages[|pages| - 1].next
  }

  /** What ends the listing with this error after these whole pages and these entries of the next:
      the first check, the next page, a cursor that does not move on, or the last check. */
  predicate ListFails(ask: Responder, rule: FileRule, catalogId: qword, pages: seq<Page>, part: seq<Entry>,
                      e: MediaError)
  {
    if CheckAt(ask, catalogId, 0).Some? then pages == [] && CheckAt(ask, catalogId, 0) == Some(e)
    else if pages != [] && !pages[|pages| - 1].more then CheckAt(ask, catalogId, NextAt(pages)) == Some(e)
    else if pages != [] && !Goes(pages[|pages| - 1]) then e == Session
    else PageFails(ask, rule, catalogId, EntriesOf(pages), part, NextAt(pages), NextCursor(pages), e)
  }

  /** The items of a page: each ID once, and left out only if the device says it is gone.  An error is
      that of the first ID that fails, after the entries of the IDs before it. */
  method ListPage(ask: Responder, rule: FileRule, catalogId: qword, ids: seq<qword>, n: nat,
                  seen: set<qword>, items: seq<Item>, ghost before: seq<Entry>)
    returns (error: Option<MediaError>, m: nat, known: set<qword>, listed: seq<Item>, ghost entries: seq<Entry>)
    requires Has(before, seen, items)
    ensures |entries| <= |ids| && IdsOf(entries) == ids[..|entries|]
    ensures EntriesOk(ask, rule, catalogId, entries) && AskedFrom(entries, n) && m == n + |entries|
    ensures Has(before + entries, known, listed)
    ensures error.None? <==> m == n + |ids|
    ensures error.Some? ==> IdFails(ask, rule, catalogId, before + entries, ids[|entries|], m, error.value)
  {
    hide Has, Request, ItemFrom, EntryOk, Known, IdsOf;
    NoIdsYet(ids);
    m, known, listed, entries := n, seen, items, [];
    assert before + [] == before;
    for k := 0 to |ids|
      invariant m == n + k && |entries| == k && IdsOf(entries) == ids[..k] && AskedFrom(entries, n)
      invariant EntriesOk(ask, rule, catalogId, entries) && Has(before + entries, known, listed)
    {
      var id := ids[k];
      HasKnown(before + entries, known, listed, id);
      if id == 0 || id in known {
        return Some(Session), m, known, listed, entries;
      }
      var r := ask(m, ItemQuery(catalogId, id));
      var item := ItemFrom(rule, catalogId, id, r);
      if item.Bad? && item.error != Failed([GONE_A]) && item.error != Failed([GONE_B]) {
        return Some(item.error), m, known, listed, entries;
      }
      ghost var e := Entry(id, m, if item.Good? then Some(item.value) else None);
      EntryTaken(ask, rule, catalogId, e, item);
      HasMore(before + entries, known, listed, e);
      Associative(before, entries, [e]);
      known := known + {id};
      if item.Good? {
        listed := listed + [item.value];
      }
      IdsMore(entries, e, ids);
      entries := entries + [e];
      m := m + 1;
    }
    error := None;
    assert ids[..|ids|] == ids;
  }

  /** Whatever the device answers, the listing ends; and if it succeeds it holds, in page order and
      each once, the items of pages linked by growing cursors from 0 to the one that says it is the
      last, leaving out exactly the IDs whose descriptor query failed with 0x62 or 0x63 alone.  The
      queries 0, 1, 2, ... were, in order: the check of the catalog, each page and then its
      descriptors, and the check again.  If it fails, the error is that of the first query, ID or
      cursor that is refused, and all before it was in order. */
  method List(ask: Responder, rule: FileRule, catalogId: qword)
    returns (r: Answer<seq<Item>>, ghost pages: seq<Page>, ghost part: seq<Entry>)
    ensures PagesOk(ask, rule, catalogId, pages) && DistinctIds(EntriesOf(pages))
    ensures r.Good? ==> DistinctItems(r.value)
    ensures r.Good? ==>
              && pages != [] && !pages[|pages| - 1].more && r.value == ItemsOf(EntriesOf(pages))
              && Serves(ask(0, Query(0x25, [])), catalogId) && Serves(ask(NextAt(pages), Query(0x25, [])), catalogId)
    ensures r.Bad? ==> ListFails(ask, rule, catalogId, pages, part, r.error)
  {
    hide Has, PageFrom, Check, ItemFrom, IdFails, EntryOk, PagesOk, EntriesOf, ItemsOf, Serves;
    NoneYet(ask, rule, catalogId);
    HasAll(EntriesOf([]), {}, []);
    pages, part := [], [];
    var refused := CheckAt(ask, catalogId, 0);
    if refused.Some? {
      return Bad(refused.value), pages, part;
    }
    var n, cursor: qword, seen: set<qword>, items: seq<Item> := 1, 0, {}, [];
    while true
      invariant PagesOk(ask, rule, catalogId, pages) && Has(EntriesOf(pages), seen, items)
      invariant pages != [] ==> Goes(pages[|pages| - 1])
      invariant cursor == NextCursor(pages) && n == NextAt(pages) && CheckAt(ask, catalogId, 0).None?
      decreases TWO_64 - cursor
    {
      var reply := PageFrom(catalogId, ask(n, PageQuery(catalogId, cursor)));
      HasAll(EntriesOf(pages), seen, items);
      if reply.Bad? {
        return Bad(reply.error), pages, part;
      }
      ghost var at := n;
      var error;
      error, n, seen, items, part :=
        ListPage(ask, rule, catalogId, reply.value.ids, n + 1, seen, items, EntriesOf(pages));
      if error.Some? {
        return Bad(error.value), pages, part;
      }
      assert reply.value.ids[..|part|] == reply.value.ids;
      ghost var page := Page(cursor, at, part, reply.value.next, reply.value.more);
      PagesMore(ask, rule, catalogId, pages, page);
      pages, part := pages + [page], [];
      HasAll(EntriesOf(pages), seen, items);
      if !reply.value.more {
        break;
      }
      if |reply.value.ids| == 0 || reply.value.next <= cursor {
        return Bad(Session), pages, part;
      }
      cursor := reply.value.next;
    }
    refused := CheckAt(ask, catalogId, n);
    if refused.Some? {
      return Bad(refused.value), pages, part;
    }
    CheckPasses(ask(0, Query(MEDIA_CAPS, [])), catalogId);
    CheckPasses(ask(n, Query(MEDIA_CAPS, [])), catalogId);
    AllEntriesOk(ask, rule, catalogId, pages);
    ItemsDistinct(ask, rule, catalogId, EntriesOf(pages));
    return Good(items), pages, part;
  }

  lemma NoneYet(ask: Responder, rule: FileRule, catalogId: qword)
    ensures PagesOk(ask, rule, catalogId, []) && Has(EntriesOf([]), {}, [])
  {
  }

  lemma HasAll(entries: seq<Entry>, seen: set<qword>, items: seq<Item>)
    requires Has(entries, seen, items)
    ensures DistinctIds(entries) && items == ItemsOf(entries)
  {
  }

  lemma PagesMore(ask: Responder, rule: FileRule, catalogId: qword, pages: seq<Page>, p: Page)
    requires PagesOk(ask, rule, catalogId, pages) && PageOk(ask, rule, catalogId, p)
    requires p.cursor == NextCursor(pages) && p.at == NextAt(pages) && (pages != [] ==> Goes(pages[|pages| - 1]))
    ensures PagesOk(ask, rule, catalogId, pages + [p]) && EntriesOf(pages + [p]) == EntriesOf(pages) + p.entries
  {
    hide PageOk, Goes;
    assert (pages + [p])[..|pages|] == pages;
  }
}
