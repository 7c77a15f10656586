/** The firmware file and the device's replies as they are laid out: what is accepted is exactly that. */
module OtaLayouts {
  import opened Bytes
  import opened OtaFirmware

  // ---- replies

  function CanUpdateBytes(r: CanUpdateResponse): (w: bytes)
    ensures |w| == 4
  {
    LE16(r.sn) + [r.result, r.reason]
  }

  function AsyncBytes(r: AsyncResponse): (w: bytes)
    ensures |w| == 3
  {
    LE16(r.sn) + [r.result]
  }

  /** Every reply of these kinds is its fields in order, whatever follows; a shorter one is refused. */
  lemma RepliesExactly(w: bytes, b: BlockResponse, u: UpdateResultResponse, c: CanUpdateResponse, a: AsyncResponse)
    ensures ParseBlock(w) == Some(b) <==> BlockBytes(b) <= w
    ensures ParseUpdateResult(w) == Some(u) <==> UpdateResultBytes(u) <= w
    ensures ParseCanUpdate(w) == Some(c) <==> CanUpdateBytes(c) <= w
    ensures ParseAsync(w) == Some(a) <==> AsyncBytes(a) <= w
    ensures (ParseBlock(w).None? <==> |w| < 11) && (ParseUpdateResult(w).None? <==> |w| < 12)
    ensures (ParseCanUpdate(w).None? <==> |w| < 4) && (ParseAsync(w).None? <==> |w| < 3)
  {
    BlockExactly(w, b);
    UpdateResultExactly(w, u);
    ShortExactly(w, c, a);
  }

  lemma BlockExactly(w: bytes, b: BlockResponse)
    ensures ParseBlock(w) == Some(b) <==> BlockBytes(b) <= w
  {
    hide U16, U32, LE16, LE32;
    if ParseBlock(w) == Some(b) {
      LE16OfU16(w, 0);
      LE32OfU32(w, 3);
      LE32OfU32(w, 7);
      assert w[..11] == w[0..2] + [w[2]] + w[3..7] + w[7..11];
    }
    if BlockBytes(b) <= w {
      BlockRoundTrip(w, b);
    }
  }

  lemma UpdateResultExactly(w: bytes, u: UpdateResultResponse)
    ensures ParseUpdateResult(w) == Some(u) <==> UpdateResultBytes(u) <= w
  {
    hide U16, U32, LE16, LE32;
    if ParseUpdateResult(w) == Some(u) {
      BlockExactly(w, BlockResponse(u.sn, u.result, u.offset, u.length));
      assert w[..12] == w[..11] + [w[11]];
    }
    if UpdateResultBytes(u) <= w {
      UpdateResultRoundTrip(w, u);
    }
  }

  lemma ShortExactly(w: bytes, c: CanUpdateResponse, a: AsyncResponse)
    ensures ParseCanUpdate(w) == Some(c) <==> CanUpdateBytes(c) <= w
    ensures ParseAsync(w) == Some(a) <==> AsyncBytes(a) <= w
  {
    hide U16, LE16;
    if |w| >= 2 {
      LE16OfU16(w, 0);
    }
    if |w| >= 3 {
      assert w[..3] == w[0..2] + [w[2]];
    }
    if |w| >= 4 {
      assert w[..4] == w[0..2] + [w[2], w[3]];
    }
    if CanUpdateBytes(c) <= w {
      assert w[0..2] == CanUpdateBytes(c)[0..2] == LE16(c.sn);
      ReadLE16(w, 0, c.sn);
      assert w[2] == CanUpdateBytes(c)[2] && w[3] == CanUpdateBytes(c)[3];
    }
    if AsyncBytes(a) <= w {
      assert w[0..2] == AsyncBytes(a)[0..2] == LE16(a.sn);
      ReadLE16(w, 0, a.sn);
      assert w[2] == AsyncBytes(a)[2];
    }
  }

  // ---- the device information

  function ModuleInfo(m: (byte, qword)): (w: bytes)
    ensures |w| == 9
  {
    [m.0] + LE64(m.1)
  }

  function ModuleInfos(ms: seq<(byte, qword)>): (rs: seq<bytes>)
    ensures |rs| == |ms| && AllOfSize(rs, 9)
  {
    seq(|ms|, i requires 0 <= i < |ms| => ModuleInfo(ms[i]))
  }

  function InfoStart(d: DeviceInfo): (w: bytes)
    requires |d.modules| < 256
    ensures |w| == 20
  {
    LE16(d.sn) + LE64(d.hwVersion) + LE64(d.fwVersion) + [d.battery, |d.modules|]
  }

  function DeviceInfoBytes(d: DeviceInfo): bytes
    requires |d.modules| < 256
  {
    InfoStart(d) + Concat(ModuleInfos(d.modules))
  }

  lemma InfoStartFields(w: bytes, d: DeviceInfo)
    requires |w| >= 20 && |d.modules| < 256
    ensures InfoStart(d) == w[..20]
            <==> (&& U16(w, 0) == d.sn && U64(w, 2) == d.hwVersion && U64(w, 10) == d.fwVersion
                  && w[18] == d.battery && w[19] == |d.modules|)
  {
    hide U16, U64, LE16, LE64;
    LE16OfU16(w, 0);
    LE64OfU64(w, 2);
    LE64OfU64(w, 10);
    assert w[..20] == w[0..2] + w[2..10] + w[10..18] + [w[18], w[19]];
    if InfoStart(d) == w[..20] {
      var s := InfoStart(d);
      assert w[0..2] == s[0..2] == LE16(d.sn) && w[2..10] == s[2..10] == LE64(d.hwVersion);
      assert w[10..18] == s[10..18] == LE64(d.fwVersion) && w[18] == s[18] && w[19] == s[19];
      ReadLE16(w, 0, d.sn);
      ReadLE64(w, 2, d.hwVersion);
      ReadLE64(w, 10, d.fwVersion);
    }
  }

  lemma ModuleInfoAt(w: bytes, at: nat, m: (byte, qword))
    requires at + 9 <= |w|
    ensures w[at..at + 9] == ModuleInfo(m) <==> w[at] == m.0 && U64(w, at + 1) == m.1
  {
    hide U64, LE64;
    LE64OfU64(w, at + 1);
    assert w[at..at + 9] == [w[at]] + w[at + 1..at + 9];
    if w[at..at + 9] == ModuleInfo(m) {
      assert w[at + 1..at + 9] == w[at..at + 9][1..] == LE64(m.1);
      ReadLE64(w, at + 1, m.1);
    }
  }

  /** The modules of a parsed reply are those laid out behind its start. */
  lemma ModulesExactly(w: bytes, ms: seq<(byte, qword)>)
    requires |w| >= 20 + 9 * |ms|
    ensures w[20..20 + 9 * |ms|] == Concat(ModuleInfos(ms))
            <==> forall i :: 0 <= i < |ms| ==> (w[20 + 9 * i], U64(w, 21 + 9 * i)) == ms[i]
  {
    hide U64, ModuleInfo;
    RecordsRead(w, 20, 9, ModuleInfos(ms));
    forall i | 0 <= i < |ms|
      ensures RecordAt(w, 20, 9, i, ModuleInfos(ms)[i]) <==> (w[20 + 9 * i], U64(w, 21 + 9 * i)) == ms[i]
    {
      ModuleInfoAt(w, 20 + 9 * i, ms[i]);
    }
  }

  /** A reply is this device information exactly if it is laid out so, with all its modules; anything
      may follow.  A shorter one is refused. */
  lemma DeviceInfoExactly(w: bytes, d: DeviceInfo)
    ensures ParseDeviceInfo(w) == Some(d) <==> |d.modules| < 256 && DeviceInfoBytes(d) <= w
    ensures ParseDeviceInfo(w).None? <==> |w| < 20 || |w| < 20 + 9 * (w[19] as int)
  {
    if |d.modules| < 256 {
      var n := |d.modules|;
      ConcatSize(ModuleInfos(d.modules), 9);
      if |w| >= 20 + 9 * n {
        hide U16, U64, InfoStart, ModuleInfos, Concat;
        InfoStartFields(w, d);
        ModulesExactly(w, d.modules);
        InfoPrefix(w, d);
        assert w[..20 + 9 * n] == w[..20] + w[20..20 + 9 * n];
        if ParseDeviceInfo(w).Some? && w[19] == n {
          var e := ParseDeviceInfo(w).value;
          assert e.modules == d.modules <==>
            forall i :: 0 <= i < n ==> (w[20 + 9 * i], U64(w, 21 + 9 * i)) == d.modules[i];
        }
      }
    }
  }

  lemma InfoPrefix(w: bytes, d: DeviceInfo)
    requires |d.modules| < 256 && |w| >= 20 + 9 * |d.modules| && |Concat(ModuleInfos(d.modules))| == 9 * |d.modules|
    ensures DeviceInfoBytes(d) <= w
            <==> InfoStart(d) == w[..20] && Concat(ModuleInfos(d.modules)) == w[20..20 + 9 * |d.modules|]
  {
    hide InfoStart, Concat, ModuleInfos;
    var a, b, n := InfoStart(d), Concat(ModuleInfos(d.modules)), 9 * |d.modules|;
    if DeviceInfoBytes(d) <= w {
      assert w[..20 + n] == a + b;
      assert (a + b)[..20] == a && (a + b)[20..] == b;
      assert w[..20] == w[..20 + n][..20] && w[20..20 + n] == w[..20 + n][20..];
    }
    if a == w[..20] && b == w[20..20 + n] {
      assert w[..20 + n] == a + b;
    }
  }

  // ---- the firmware file

  /** What the header says; `pad` and `pads` are the bytes that nothing reads. */
  datatype Header = Header(productId: qword, version: qword, fileLen: dword, pad: bytes,
                           modules: seq<Module>, pads: seq<bytes>, contentCrc: dword)

  function ModuleEntry(m: Module, pad: bytes): (w: bytes)
    requires |pad| == 11
    ensures |w| == 32
  {
    [m.moduleType] + LE32(m.startOffset) + LE32(m.length) + LE64(m.version) + LE32(m.crc) + pad
  }

  predicate Padded(h: Header) {
    && 1 <= |h.modules| <= 3 && |h.pad| == 11 && |h.pads| == |h.modules| && AllOfSize(h.pads, 11)
  }

  function Entries(h: Header): (rs: seq<bytes>)
    requires Padded(h)
    ensures |rs| == |h.modules| && AllOfSize(rs, 32)
  {
    seq(|h.modules|, i requires 0 <= i < |h.modules| => assert |h.pads[i]| == 11; ModuleEntry(h.modules[i], h.pads[i]))
  }

  function FileStart(h: Header): (w: bytes)
    requires Padded(h)
    ensures |w| == 32
  {
    LE64(h.productId) + LE64(h.version) + LE32(h.fileLen) + [|h.modules|] + h.pad
  }

  /** All that the header checksum covers. */
  function FileHead(h: Header): bytes
    requires Padded(h)
  {
    FileStart(h) + Concat(Entries(h)) + LE32(h.contentCrc)
  }

  /** The modules are of types 1 to 3 and inside the file, and the file is as long as the header says. */
  predicate Sensible(h: Header, data: bytes) {
    && h.fileLen <= |data|
    && forall i :: 0 <= i < |h.modules| ==> ModuleFits(h.modules[i], h.fileLen)
  }

  predicate ModuleFits(m: Module, fileLen: dword) {
    1 <= m.moduleType <= 3 && m.startOffset + m.length <= fileLen
  }

  /** The file is this header, its checksum, and anything. */
  ghost predicate LaidOut(crc: Crc, data: bytes, h: Header) {
    Padded(h) && Sensible(h, data) && FileHead(h) + LE32(crc(FileHead(h))) <= data
  }

  lemma HeadLength(h: Header)
    requires Padded(h)
    ensures |FileHead(h)| == 36 + 32 * |h.modules| && |Concat(Entries(h))| == 32 * |h.modules|
  {
    ConcatSize(Entries(h), 32);
  }

  lemma FileStartFields(w: bytes, h: Header)
    requires |w| >= 32 && Padded(h)
    ensures FileStart(h) == w[..32]
            <==> (&& U64(w, 0) == h.productId && U64(w, 8) == h.version && U32(w, 16) == h.fileLen
                  && w[20] == |h.modules| && w[21..32] == h.pad)
  {
    hide U32, U64, LE32, LE64;
    LE64OfU64(w, 0);
    LE64OfU64(w, 8);
    LE32OfU32(w, 16);
    assert w[..32] == w[0..8] + w[8..16] + w[16..20] + [w[20]] + w[21..32];
    if FileStart(h) == w[..32] {
      var s := FileStart(h);
      assert w[0..8] == s[0..8] == LE64(h.productId) && w[8..16] == s[8..16] == LE64(h.version);
      assert w[16..20] == s[16..20] == LE32(h.fileLen) && w[20] == s[20] && w[21..32] == s[21..32] == h.pad;
      ReadLE64(w, 0, h.productId);
      ReadLE64(w, 8, h.version);
      ReadLE32(w, 16, h.fileLen);
    }
  }

  lemma ModuleEntryAt(w: bytes, i: nat, m: Module, pad: bytes)
    requires 64 + i * 32 <= |w| && |pad| == 11
    ensures var at := 32 + i * 32;
            w[at..at + 32] == ModuleEntry(m, pad) <==> ModuleAt(w, i) == m && w[at + 21..at + 32] == pad
  {
    hide U32, U64, LE32, LE64;
    var at := 32 + i * 32;
    var s := w[at..at + 32];
    LE32OfU32(w, at + 1);
    LE32OfU32(w, at + 5);
    LE64OfU64(w, at + 9);
    LE32OfU32(w, at + 17);
    assert s == [w[at]] + w[at + 1..at + 5] + w[at + 5..at + 9] + w[at + 9..at + 17] + w[at + 17..at + 21]
                + w[at + 21..at + 32];
    if s == ModuleEntry(m, pad) {
      EntryParts(w, at, m, pad);
    }
  }

  lemma EntryParts(w: bytes, at: nat, m: Module, pad: bytes)
    requires at + 32 <= |w| && |pad| == 11 && w[at..at + 32] == ModuleEntry(m, pad)
    ensures w[at] == m.moduleType && U32(w, at + 1) == m.startOffset && U32(w, at + 5) == m.length
    ensures U64(w, at + 9) == m.version && U32(w, at + 17) == m.crc && w[at + 21..at + 32] == pad
  {
    hide U32, U64, LE32, LE64;
    var s := ModuleEntry(m, pad);
    Reslice(w, at, at + 32, 1, 5);
    Reslice(w, at, at + 32, 5, 9);
    Reslice(w, at, at + 32, 9, 17);
    Reslice(w, at, at + 32, 17, 21);
    Reslice(w, at, at + 32, 21, 32);
    assert s[1..5] == LE32(m.startOffset) && s[5..9] == LE32(m.length) && s[9..17] == LE64(m.version);
    assert s[17..21] == LE32(m.crc) && s[21..32] == pad && w[at] == s[0];
    ReadLE32(w, at + 1, m.startOffset);
    ReadLE32(w, at + 5, m.length);
    ReadLE64(w, at + 9, m.version);
    ReadLE32(w, at + 17, m.crc);
  }

  /** The entries of the header, read module by module. */
  lemma EntriesExactly(w: bytes, h: Header)
    requires Padded(h) && |w| >= 32 + 32 * |h.modules|
    ensures w[32..32 + 32 * |h.modules|] == Concat(Entries(h))
            <==> forall i :: 0 <= i < |h.modules| ==> EntryIs(w, i, h.modules[i], h.pads[i])
  {
    hide ModuleEntry, ModuleAt;
    RecordsRead(w, 32, 32, Entries(h));
    forall i | 0 <= i < |h.modules|
      ensures RecordAt(w, 32, 32, i, Entries(h)[i]) <==> EntryIs(w, i, h.modules[i], h.pads[i])
    {
      assert |h.pads[i]| == 11;
      ModuleEntryAt(w, i, h.modules[i], h.pads[i]);
    }
  }

  predicate EntryIs(w: bytes, i: nat, m: Module, pad: bytes) {
    64 + i * 32 <= |w| && ModuleAt(w, i) == m && w[53 + i * 32..64 + i * 32] == pad
  }

  /** The fields of a file, read where the parser reads them. */
  ghost predicate Reads(w: bytes, h: Header)
    requires Padded(h) && |w| >= 40 + 32 * |h.modules|
  {
    var n := 32 + 32 * |h.modules|;
    && U64(w, 0) == h.productId && U64(w, 8) == h.version && U32(w, 16) == h.fileLen && w[20] == |h.modules|
    && w[21..32] == h.pad && (forall i :: 0 <= i < |h.modules| ==> EntryIs(w, i, h.modules[i], h.pads[i]))
    && U32(w, n) == h.contentCrc
  }

  lemma HeadExactly(w: bytes, h: Header)
    requires Padded(h) && |w| >= 40 + 32 * |h.modules|
    ensures FileHead(h) == w[..36 + 32 * |h.modules|] <==> Reads(w, h)
  {
    hide FileStart, Entries, Concat, EntryIs, U32, U64, LE32;
    var n := 32 + 32 * |h.modules|;
    HeadLength(h);
    FileStartFields(w, h);
    EntriesExactly(w, h);
    LE32OfU32(w, n);
    assert w[..n + 4] == w[..32] + w[32..n] + w[n..n + 4];
    ThreeParts(w[..32], w[32..n], w[n..n + 4], FileStart(h), Concat(Entries(h)), LE32(h.contentCrc));
    if w[n..n + 4] == LE32(h.contentCrc) {
      ReadLE32(w, n, h.contentCrc);
    }
  }

  lemma ThreeParts(a: bytes, b: bytes, c: bytes, x: bytes, y: bytes, z: bytes)
    requires |a| == |x| && |b| == |y|
    ensures x + y + z == a + b + c <==> a == x && b == y && c == z
  {
    var s, t := a + b + c, x + y + z;
    assert s[..|a|] == a && s[|a|..|a| + |b|] == b && s[|a| + |b|..] == c;
    assert t[..|a|] == x && t[|a|..|a| + |b|] == y && t[|a| + |b|..] == z;
  }

  /** A file laid out so is acceptable, and is read as its header says. */
  lemma LaidOutIsAcceptable(crc: Crc, data: bytes, h: Header)
    requires LaidOut(crc, data, h)
    ensures Acceptable(crc, data)
    ensures var image := ImageOf(data);
            && image.productId == h.productId && image.version == h.version && image.fileLen == h.fileLen
            && image.modules == h.modules && image.contentCrc == h.contentCrc
            && image.headerInfo == FileHead(h) + LE32(crc(FileHead(h))) && image.data == data[..h.fileLen]
  {
    hide FileHead, ModuleAt, U32, U64, LE32;
    var n, head := 32 + 32 * |h.modules|, FileHead(h);
    HeadLength(h);
    assert data[..n + 4] == head && data[n + 4..n + 8] == LE32(crc(head)) && data[..n + 8] == head + LE32(crc(head));
    HeadExactly(data, h);
    ReadLE32(data, n + 4, crc(head));
    forall i | 0 <= i < data[20] ensures ModuleAt(data, i) == h.modules[i] && ModuleOk(data, i) {
      assert EntryIs(data, i, h.modules[i], h.pads[i]) && ModuleFits(h.modules[i], h.fileLen);
    }
  }

  lemma AcceptableIsLaidOut(crc: Crc, data: bytes) returns (h: Header)
    requires Acceptable(crc, data)
    ensures LaidOut(crc, data, h)
  {
    hide FileHead, ModuleAt, U32, U64, LE32;
    var k: byte := data[20];
    var n := 32 + 32 * k;
    var pads := seq(k, i requires 0 <= i < k => data[53 + i * 32..64 + i * 32]);
    h := Header(U64(data, 0), U64(data, 8), FileLen(data), data[21..32], ImageOf(data).modules, pads, U32(data, n));
    forall i | 0 <= i < k ensures ModuleFits(h.modules[i], h.fileLen) {
      assert ModuleOk(data, i);
    }
    HeadLength(h);
    HeadExactly(data, h);
    LE32OfU32(data, n + 4);
    assert data[..n + 8] == data[..n + 4] + data[n + 4..n + 8];
  }

  /** A file is accepted exactly if it begins with a header of one to three modules of known types inside
      the file, with its checksum, and is as long as that says. */
  lemma AcceptableExactly(crc: Crc, data: bytes)
    ensures Acceptable(crc, data) <==> exists h :: LaidOut(crc, data, h)
  {
    hide Acceptable, LaidOut;
    if Acceptable(crc, data) {
      var h := AcceptableIsLaidOut(crc, data);
    }
    if exists h :: LaidOut(crc, data, h) {
      var h :| LaidOut(crc, data, h);
      LaidOutIsAcceptable(crc, data, h);
    }
  }
}
