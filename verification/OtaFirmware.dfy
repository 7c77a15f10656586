/** The firmware image and the device's replies: the parse methods of ota_client.py. */
module OtaFirmware {
  import opened Bytes

  /** The CRC-32 of RFC 1952, section 8; nothing below depends on its value. */
  type Crc = bytes -> dword

  const MIN_IMAGE := 72
  const MAX_HEADER_INFO := 136
  const RESULT_OK: byte := 0
  const ASYNC_OK: byte := 0
  const ASYNC_FAIL: byte := 2

  datatype Module = Module(moduleType: byte, startOffset: dword, length: dword, version: qword, crc: dword)

  datatype FirmwareImage = FirmwareImage(productId: qword, version: qword, fileLen: dword, modules: seq<Module>,
                                         contentCrc: dword, headerCrc: dword, headerInfo: bytes, data: bytes)

  /** The ValueErrors of OTAFirmwareImage.parse. */
  datatype ImageError =
    | TooShort
    | BadModuleCount(count: byte)
    | HeaderTruncated
    | LongerThanFile
    | BadModuleType(index: nat)
    | ModuleExceeds(index: nat)
    | HeaderCrcMismatch

  datatype ImageResult = Image(image: FirmwareImage) | BadImage(error: ImageError)

  function HeaderSize(data: bytes): nat
    requires |data| > 20
  {
    32 + (data[20] as int) * 32
  }

  function FileLen(data: bytes): dword
    requires |data| >= 20
  {
    U32(data, 16)
  }

  /** Header entry i. */
  function ModuleAt(data: bytes, i: nat): Module
    requires 64 + i * 32 <= |data|
  {
    var off := 32 + i * 32;
    Module(data[off], U32(data, off + 1), U32(data, off + 5), U64(data, off + 9), U32(data, off + 17))
  }

  predicate KnownType(m: Module) {
    0 < m.moduleType < 4
  }

  predicate Inside(m: Module, fileLen: dword) {
    m.startOffset + m.length <= fileLen
  }

  /** The header is whole, and the file is as long as it says. */
  predicate Complete(data: bytes) {
    |data| >= MIN_IMAGE && 0 < data[20] < 4 && |data| >= HeaderSize(data) + 8 && FileLen(data) <= |data|
  }

  predicate ModuleOk(data: bytes, i: nat)
    requires Complete(data) && i < data[20]
  {
    KnownType(ModuleAt(data, i)) && Inside(ModuleAt(data, i), FileLen(data))
  }

  predicate HeaderCrcOk(crc: Crc, data: bytes)
    requires Complete(data)
  {
    crc(data[..HeaderSize(data) + 4]) == U32(data, HeaderSize(data) + 4)
  }

  predicate Acceptable(crc: Crc, data: bytes) {
    Complete(data) && (forall i :: 0 <= i < data[20] ==> ModuleOk(data, i)) && HeaderCrcOk(crc, data)
  }

  /** `error` is the first thing wrong with the file, in the order of the checks. */
  ghost predicate FirstProblem(crc: Crc, data: bytes, error: ImageError) {
    match error
    case TooShort =>
      |data| < MIN_IMAGE
    case BadModuleCount(n) =>
      |data| >= MIN_IMAGE && data[20] == n && !(0 < n < 4)
    case HeaderTruncated =>
      |data| >= MIN_IMAGE && 0 < data[20] < 4 && |data| < HeaderSize(data) + 8
    case LongerThanFile =>
      |data| >= MIN_IMAGE && 0 < data[20] < 4 && |data| >= HeaderSize(data) + 8 && FileLen(data) > |data|
    case BadModuleType(i) =>
      && Complete(data) && i < data[20] && (forall k :: 0 <= k < i ==> ModuleOk(data, k))
      && !KnownType(ModuleAt(data, i))
    case ModuleExceeds(i) =>
      && Complete(data) && i < data[20] && (forall k :: 0 <= k < i ==> ModuleOk(data, k))
      && KnownType(ModuleAt(data, i)) && !Inside(ModuleAt(data, i), FileLen(data))
    case HeaderCrcMismatch =>
      && Complete(data) && (forall k :: 0 <= k < data[20] ==> ModuleOk(data, k))
      && !HeaderCrcOk(crc, data)
  }

  /** The image in a whole file. */
  function ImageOf(data: bytes): (image: FirmwareImage)
    requires Complete(data)
    ensures image.fileLen == |image.data| && image.data <= data && image.headerInfo <= data
    ensures |image.headerInfo| == HeaderSize(data) + 8 <= MAX_HEADER_INFO
  {
    var n := HeaderSize(data);
    FirmwareImage(U64(data, 0), U64(data, 8), FileLen(data),
                  seq(data[20], i requires 0 <= i < data[20] => ModuleAt(data, i)),
                  U32(data, n), U32(data, n + 4), data[..n + 8], data[..FileLen(data)])
  }

  lemma AllModules(data: bytes, modules: seq<Module>)
    requires Complete(data) && |modules| == data[20]
    requires forall i :: 0 <= i < data[20] ==> modules[i] == ModuleAt(data, i)
    ensures modules == ImageOf(data).modules
  {
    hide ModuleAt;
  }

  /** An image is accepted exactly when nothing is wrong with the file, and then it holds the
      file's own bytes, as many as its length field says. */
  method ParseImage(crc: Crc, data: bytes) returns (r: ImageResult)
    ensures r.Image? <==> Acceptable(crc, data)
    ensures r.BadImage? ==> FirstProblem(crc, data, r.error)
    ensures r.Image? ==>
              && r.image.fileLen == FileLen(data) == |r.image.data| && r.image.data <= data
              && r.image.headerInfo <= data && |r.image.headerInfo| == HeaderSize(data) + 8 <= MAX_HEADER_INFO
              && r.image.productId == U64(data, 0) && r.image.version == U64(data, 8)
              && |r.image.modules| == data[20]
              && (forall i :: 0 <= i < data[20] ==> r.image.modules[i] == ModuleAt(data, i))
              && r.image.contentCrc == U32(data, HeaderSize(data))
              && r.image.headerCrc == U32(data, HeaderSize(data) + 4)
              && r.image == ImageOf(data)
  {
    if |data| < MIN_IMAGE {
      return BadImage(TooShort);
    }
    var productId, version, fileLen := U64(data, 0), U64(data, 8), U32(data, 16);
    var moduleCount := data[20];
    if moduleCount <= 0 || moduleCount >= 4 {
      return BadImage(BadModuleCount(moduleCount));
    }
    var headerSize := 32 + moduleCount * 32;
    var headerInfoLen := headerSize + 8;
    if |data| < headerInfoLen {
      return BadImage(HeaderTruncated);
    }
    if fileLen > |data| {
      return BadImage(LongerThanFile);
    }
    var modules: seq<Module> := [];
    for i := 0 to moduleCount
      invariant |modules| == i
      invariant forall k :: 0 <= k < i ==> modules[k] == ModuleAt(data, k) && ModuleOk(data, k)
    {
      var off := 32 + i * 32;
      var m := Module(data[off], U32(data, off + 1), U32(data, off + 5), U64(data, off + 9), U32(data, off + 17));
      if m.moduleType <= 0 || m.moduleType >= 4 {
        assert !ModuleOk(data, i);
        return BadImage(BadModuleType(i));
      }
      if m.startOffset + m.length > fileLen {
        assert !ModuleOk(data, i);
        return BadImage(ModuleExceeds(i));
      }
      modules := modules + [m];
    }
    var contentCrc, headerCrc := U32(data, headerSize), U32(data, headerSize + 4);
    if crc(data[..headerSize + 4]) != headerCrc {
      return BadImage(HeaderCrcMismatch);
    }
    AllModules(data, modules);
    return Image(FirmwareImage(productId, version, fileLen, modules, contentCrc, headerCrc,
                               data[..headerInfoLen], data[..fileLen]));
  }

  // ---- replies; None stands for the ValueError of a short one

  datatype BlockResponse = BlockResponse(sn: word, result: byte, offset: dword, length: dword)

  datatype UpdateResultResponse =
    UpdateResultResponse(sn: word, result: byte, offset: dword, length: dword, reboot: byte)

  datatype CanUpdateResponse = CanUpdateResponse(sn: word, result: byte, reason: byte)

  datatype AsyncResponse = AsyncResponse(sn: word, result: byte)

  datatype DeviceInfo =
    DeviceInfo(sn: word, hwVersion: qword, fwVersion: qword, battery: byte, modules: seq<(byte, qword)>)

  function ParseBlock(payload: bytes): Option<BlockResponse> {
    if |payload| < 11 then None
    else Some(BlockResponse(U16(payload, 0), payload[2], U32(payload, 3), U32(payload, 7)))
  }

  function ParseUpdateResult(payload: bytes): Option<UpdateResultResponse> {
    if |payload| < 12 then None
    else Some(UpdateResultResponse(U16(payload, 0), payload[2], U32(payload, 3), U32(payload, 7), payload[11]))
  }

  function ParseCanUpdate(payload: bytes): Option<CanUpdateResponse> {
    if |payload| < 4 then None else Some(CanUpdateResponse(U16(payload, 0), payload[2], payload[3]))
  }

  function ParseAsync(payload: bytes): Option<AsyncResponse> {
    if |payload| < 3 then None else Some(AsyncResponse(U16(payload, 0), payload[2]))
  }

  function ParseDeviceInfo(payload: bytes): Option<DeviceInfo> {
    if |payload| < 20 || |payload| < 20 + 9 * (payload[19] as int) then None
    else Some(DeviceInfo(U16(payload, 0), U64(payload, 2), U64(payload, 10), payload[18],
                         seq(payload[19], i requires 0 <= i < payload[19] =>
                               (payload[20 + 9 * i], U64(payload, 21 + 9 * i)))))
  }

  // ---- replies as the device lays them out

  function BlockBytes(r: BlockResponse): bytes {
    LE16(r.sn) + [r.result] + LE32(r.offset) + LE32(r.length)
  }

  function UpdateResultBytes(r: UpdateResultResponse): bytes {
    BlockBytes(BlockResponse(r.sn, r.result, r.offset, r.length)) + [r.reboot]
  }

  lemma BlockFields(w: bytes, r: BlockResponse)
    requires BlockBytes(r) <= w
    ensures |w| >= 11 && U16(w, 0) == r.sn && w[2] == r.result && U32(w, 3) == r.offset && U32(w, 7) == r.length
  {
    var b := BlockBytes(r);
    assert w[0..2] == b[0..2] == LE16(r.sn);
    assert w[3..7] == b[3..7] == LE32(r.offset);
    assert w[7..11] == b[7..11] == LE32(r.length);
    ReadLE16(w, 0, r.sn);
    ReadLE32(w, 3, r.offset);
    ReadLE32(w, 7, r.length);
  }

  /** A block request is read back field by field, whatever follows it in the payload. */
  lemma BlockRoundTrip(w: bytes, r: BlockResponse)
    requires BlockBytes(r) <= w
    ensures ParseBlock(w) == Some(r)
  {
    BlockFields(w, r);
  }

  /** And so is an update result; its first fields are laid out as those of a block request. */
  lemma UpdateResultRoundTrip(w: bytes, r: UpdateResultResponse)
    requires UpdateResultBytes(r) <= w
    ensures ParseUpdateResult(w) == Some(r)
    ensures ParseBlock(w) == Some(BlockResponse(r.sn, r.result, r.offset, r.length))
  {
    var b := BlockResponse(r.sn, r.result, r.offset, r.length);
    assert BlockBytes(b) <= w;
    BlockFields(w, b);
    assert w[11] == UpdateResultBytes(r)[11];
  }

  /** The short replies. */
  lemma ShortRoundTrips(w: bytes, sn: word, result: byte, reason: byte)
    requires LE16(sn) + [result, reason] <= w
    ensures ParseCanUpdate(w) == Some(CanUpdateResponse(sn, result, reason))
    ensures ParseAsync(w) == Some(AsyncResponse(sn, result))
  {
    var b := LE16(sn) + [result, reason];
    assert w[0..2] == b[0..2] == LE16(sn);
    ReadLE16(w, 0, sn);
    assert w[2] == b[2] && w[3] == b[3];
  }
}
