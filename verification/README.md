# A verified model of the glasses SDK's wire protocols

The SDK talks to smart glasses over four byte streams.  This project models the code that cuts those
streams into packets, the state machines behind them, and the protocols on top, and proves what they
keep over every stream, every run and every interleaving.

- `Scanner` is the theory shared by the four incremental parsers: a decider that waits, skips or emits
  at the front of its bytes.  It proves once that read boundaries do not matter, that exactly the greedy
  leftmost wire forms are emitted, and that what was written is read back.
- `ControlFrames`, `ImageFrames`, `AudioPackages` and `OtaPackets` are the four parsers, as classes with
  the rolling buffer and the loop of the source, each proved to compute the scan of its decider; and
  `ControlTheorems` what the control codec promises.  `Turn` is the body of the loop in `Feed`.
- `Registers`, `Crc16`, `CrcValues`, `BurstErrors` and `FrameDamage` are the CRC-16 of the control
  frames: the byte-swap loop against bit-serial division, its check value, the detection of bursts, and
  exactly which damage is let through.  `FrameParser` takes its checksum as a function; the client gives
  it `Crc16.Checksum`.
- `Reassembly` and `ImageClients` turn image sub-frames into photos, from bytes to saved files.
- `AudioClients` is the recording session with the raw sink: the bytes of the file and the loss count.
- `OtaFirmware`, `OtaLayouts`, `OtaBursts`, `OtaProtocol`, `OtaTraces`, `OtaLines`, `OtaScripts`,
  `OtaDevices` and `OtaClients` are the firmware upgrade.  `OtaLayouts` says which files and replies are
  accepted.  `OtaProtocol` says which step may follow which and proves what every run sends; `OtaTraces`
  says what stands before each step, how runs end and how long they are; `OtaLines` is about the bytes
  on the line; `OtaScripts` gives the upgrade as a function of its script and shows that the runs of the
  state machine are exactly those a client can be brought to take; `OtaDevices` is a device that answers
  what it reads, refuses bursts and takes its time; `OtaClients` is the client object, whose `Upgrade`
  is proved to compute that function.  The device and the time are a script of reads and of looks at the
  clock.  Nothing is assumed of what they say, so the device may lose, reject, repeat, delay or invent
  replies.  A run is observed up to the end of the script, which may be of any length; `Running` is the
  ending of a run that goes on there.  `Open`, `Transfer`, `PushBlock` and `TakeAttempt` are stretches
  of `upgrade`, `WriteBurst` and `SendChunk` of `send_data_block`, each a method of its own here.
- `Transactions` and `ControlClients` match requests with answers on the control channel, as interleaved
  atomic sections of any number of callers and a reader.
- `Catalog` is the paged media listing against a device that may answer anything.

`dafny verify dfyconfig.toml` checks the whole project.

Where code and documentation disagree the model follows the code:

- `docs/PROTOCOL.md` (line 272) calls the serial number of an audio package a package number; the code
  expects it to advance by the number of sections.
- `ImageReassembler` says that a HEAD has sequence 0; the code takes any sequence and counts on from it.

Some laws that one might expect do not hold of the code, and the model says exactly when they do:

- "each HEAD is completed or dropped once": `Reassembly.NaiveLawFails`, `Reassembly.NaiveLawExactly`;
- "every lost audio package is counted": `AudioClients.FullCycleUnseen`, `AudioClients.LossIsCounted`;
- "the device may acknowledge any packet of a block": `OtaBursts.WrapRefusesAll`,
  `OtaBursts.AllIssuedAcceptable`, `OtaBursts.NoneAcceptable`; so a device that answers everything may
  need a second attempt: `OtaDevices.VerdictOfPlan`;
- "an upgrade with a retry allowed ends": `OtaTraces.EndlessRun`, `OtaTraces.RunIsBounded`;
- "every photo delivered has a file": `ImageClients.SameSecondOverwrites`,
  `ImageClients.ChosenIsOverwritten`, `ImageClients.EachKeepsItsFile`;
- "a frame that has arrived whole is emitted at once": `ControlTheorems.FrameWithheld`,
  `ControlTheorems.FrameComesOut`;
- "a burst of sixteen bits anywhere in a frame is detected": `FrameDamage.StraddlingBurstUnseen`,
  `FrameDamage.DamageAccepted`;
- "a request in flight has an entry": `Transactions.EntryIsLost`, `Transactions.RegisterKeepsExactly`.

## Model

| member | source | states |
|---|---|---|
| Scanner.ReadBoundaries | looktech_glasses_sdk/protocol.py:338-375 | Feeding a stream in any split into reads gives the packets and the retained bytes of the whole stream fed at once, for every parser whose decisions later bytes do not revise; instantiated for all four parsers below |
| Scanner.ScanIsGreedy | looktech_glasses_sdk/protocol.py:345-368 | A parser whose decisions are exact emits, over any stream, the greedy leftmost non-overlapping wire forms of the part it has consumed; every byte is in one packet, skipped, or retained |
| Scanner.GreedyIsUnique | looktech_glasses_sdk/protocol.py:345-368 | There is only one such choice of packets, so the theorem above determines the output |
| Scanner.ConsumedIsEmitted | looktech_glasses_sdk/protocol.py:345-368 | A wire form that starts before what is retained has been emitted, or starts inside one that was |
| Scanner.StreamRoundTrip | looktech_glasses_sdk/ota_client.py:92-150 | Wire forms one after the other, cut into any reads, come back as exactly their packets with nothing retained |
| Scanner.GarbagePrefix | looktech_glasses_sdk/protocol.py:345-350 | A prefix whose positions are all skipped changes no packet |
| Crc16.Crc16 | looktech_glasses_sdk/crc16.py:21-41 | The byte-swap loop leaves the register of bit-serial, most significant bit first division by x^16 + x^12 + x^5 + 1, for every byte string and every initial register |
| Crc16.ComputeChecksum | looktech_glasses_sdk/crc16.py:21-41 | The integer the loop returns from the register 0xFFFF is the checksum used by the frames |
| CrcValues.OfNothing | looktech_glasses_sdk/crc16.py:29-41 | The checksum of nothing is 0xFFFF |
| CrcValues.OfZero | looktech_glasses_sdk/crc16.py:29-41 | The checksum of one zero byte is 0xE1F0 |
| CrcValues.OfDigits | looktech_glasses_sdk/crc16.py:29-41 | The check value: of the digits 1 to 9 the checksum is 0x29B1 |
| CrcValues.OfHello | looktech_glasses_sdk/crc16.py:29-41 | The checksum of the body of the HELLO frame is 0xC6F0 |
| Crc16.ByteSwapDivides | looktech_glasses_sdk/crc16.py:29-40 | One pass of the loop body is the division of the eight bits of its byte |
| Registers.ShiftSubtracts | looktech_glasses_sdk/crc16.py:1-18 | The division step shifts left and subtracts 0x1021 exactly when the bit shifted out is one |
| Registers.ByteSwapIsShifts | looktech_glasses_sdk/crc16.py:29-40 | The five register operations of the loop body are eight division steps |
| BurstErrors.RegistersStayDifferent | looktech_glasses_sdk/crc16.py:29-41 | Each step is a bijection of the register: different registers stay different whatever bits follow |
| BurstErrors.WindowSeparates | looktech_glasses_sdk/crc16.py:29-41 | Two different windows of at most sixteen bits leave different registers |
| BurstErrors.BurstDetected | looktech_glasses_sdk/crc16.py:29-41 | Two byte strings of one length that differ only inside at most sixteen consecutive bits have different checksums |
| ControlFrames.FrameParser.Turn | looktech_glasses_sdk/protocol.py:345-368 | One turn of the loop takes the decision of the parser at its position and gets the loop one step nearer the scan |
| ControlFrames.FrameParser.Feed | looktech_glasses_sdk/protocol.py:338-375 | The frames returned and the bytes retained are those of the scan of the retained and the new bytes; at most 989 bytes are retained, so the trim is never reached |
| ControlTheorems.SkipLosesNothing | looktech_glasses_sdk/protocol.py:349-363 | Skipping both bytes of a false sync pair skips no position at which a frame starts |
| ControlTheorems.DecisionsExact | looktech_glasses_sdk/protocol.py:345-368 | The parser emits exactly the frames the encoder can write, with any version byte, and skips none |
| ControlTheorems.FramesAreGreedyLeftmost | looktech_glasses_sdk/protocol.py:338-375 | Over any reads of any stream the parser emits the greedy leftmost frames of the part consumed, and retains the rest, fewer than 990 bytes |
| ControlTheorems.FrameComesOut | looktech_glasses_sdk/protocol.py:345-375 | Once 988 bytes have come from its start on, a complete frame has been emitted, or starts inside one that was |
| ControlTheorems.FrameWithheld | looktech_glasses_sdk/protocol.py:345-358 | The bound is tight: behind a false sync pair a frame of any payload is withheld until then, whatever follows |
| ControlTheorems.EncodedIsWire | looktech_glasses_sdk/protocol.py:313-320 | What encode_frame writes is a frame with the given type, number and payload, under version 1; it refuses exactly the payloads over 981 bytes |
| CrcValues.HelloFrame | looktech_glasses_sdk/protocol.py:313-320 | The HELLO frame, byte for byte |
| ControlTheorems.EncodeThenParse | looktech_glasses_sdk/protocol.py:313-375 | Encoded frames, cut into any reads, are parsed back into exactly those frames |
| ControlTheorems.ParseThenEncode | looktech_glasses_sdk/protocol.py:359-368 | Encoding an emitted frame whose version byte was 1 gives back the bytes consumed |
| ControlTheorems.GarbageIgnored | looktech_glasses_sdk/protocol.py:345-350 | Garbage without 0xA5 in front of a stream changes no frame |
| ControlTheorems.DamagedFrameDropped | looktech_glasses_sdk/protocol.py:359-364 | A frame damaged within sixteen consecutive bits of its version, type, number or payload is never emitted from its position |
| FrameDamage.DivisionIsLinear | looktech_glasses_sdk/crc16.py:29-41 | The division is linear: the difference of two results is the result of the differences |
| FrameDamage.DamagedRegister | looktech_glasses_sdk/crc16.py:21-41 | Damage changes the register by an amount that depends only on the bits changed |
| FrameDamage.DamageAccepted | looktech_glasses_sdk/protocol.py:359-368 | A frame with any damage to its version, type, number, payload and checksum is accepted in its place if and only if the checksum was changed by just what the other changed bits do to it; otherwise the parser resynchronises |
| FrameDamage.StraddlingBurstUnseen | looktech_glasses_sdk/protocol.py:359-368 | A burst of sixteen bits over the last payload byte and the first checksum byte can be accepted: every frame whose payload ends in 0 has a neighbour that ends in 0x89 |
| ImageFrames.AirImgStreamParser.Turn | looktech_glasses_sdk/protocol.py:721-749 | One turn of the loop takes the decision of the parser at its position; its ValueError branch is unreachable |
| ImageFrames.AirImgStreamParser.Feed | looktech_glasses_sdk/protocol.py:714-751 | The sub-frames and the retained bytes are those of the scan; at most 4104 bytes are retained |
| ImageFrames.CutParses | looktech_glasses_sdk/protocol.py:754-777 | A sub-frame cut by the length check always parses |
| ImageFrames.WireParses | looktech_glasses_sdk/protocol.py:754-777 | parse_air_img_frame reads back every field of a sub-frame as it is laid out on the wire |
| ImageFrames.SubFramesSpelled | looktech_glasses_sdk/protocol.py:754-777 | One sub-frame of each type, byte for byte |
| ImageFrames.SubFramesAreGreedyLeftmost | looktech_glasses_sdk/protocol.py:714-751 | Over any reads of any stream the parser emits the greedy leftmost sub-frames of the part consumed, and retains the rest, at most 4104 bytes |
| ImageFrames.SubFrameComesOut | looktech_glasses_sdk/protocol.py:714-751 | Once 4105 bytes have come from its start on, a complete sub-frame has been emitted, or starts inside one that was |
| ImageFrames.WriteThenParse | looktech_glasses_sdk/protocol.py:714-777 | Sub-frames written one after the other and cut into any reads come back |
| Reassembly.ImageReassembler.FeedSubFrame | looktech_glasses_sdk/protocol.py:837-843 | State and result are those of the transition for HEAD, BODY or anything else |
| Reassembly.ImageReassembler.TakeHead | looktech_glasses_sdk/protocol.py:847-860 | A HEAD starts an image and counts a pending one as dropped |
| Reassembly.ImageReassembler.TakeBody | looktech_glasses_sdk/protocol.py:862-877 | A BODY extends the image in progress if its group and number fit, and breaks it otherwise |
| Reassembly.ImageReassembler.TakeTail | looktech_glasses_sdk/protocol.py:879-894 | A TAIL with the group and the next number returns the image, and breaks it otherwise |
| Reassembly.ImageReassembler.BreakOff | looktech_glasses_sdk/protocol.py:896-900 | A break drops the image once and forgets its data |
| Reassembly.ImageReassembler.Feed | looktech_glasses_sdk/protocol.py:827-835 | A payload that does not parse breaks the image; any other is fed as its sub-frame |
| Reassembly.ImageReassembler.DropPartial | looktech_glasses_sdk/protocol.py:819-825 | reset counts a partial image only if it has data |
| Reassembly.CollectingIsTrace | looktech_glasses_sdk/protocol.py:847-877 | A healthy image is in progress exactly when the inputs end in a HEAD and BODYs of its group numbered on without a gap, and it holds exactly their data |
| Reassembly.ReturnedIsSent | looktech_glasses_sdk/protocol.py:837-894 | An image is returned at an input exactly when a HEAD, its BODYs numbered without a gap and the TAIL numbered next end there; it is the concatenation of exactly those BODYs with the group and format of that HEAD |
| Reassembly.Accounting | looktech_glasses_sdk/protocol.py:819-900 | HEADs = completed + HEADs while collecting + resets while collecting + one if collecting; dropped = HEADs while collecting + breaks + resets with data |
| Reassembly.EachHeadOnce | looktech_glasses_sdk/protocol.py:847-900 | completed + dropped + healthy pending + uncounted resets = HEADs + HEADs that met a broken image |
| Reassembly.NaiveLawExactly | looktech_glasses_sdk/protocol.py:847-900 | Without resets, every HEAD is completed, dropped once or pending if and only if no HEAD arrived while a broken image was waiting |
| Reassembly.NaiveLawFails | looktech_glasses_sdk/protocol.py:847-860 | HEAD, BODY past a gap, HEAD counts two drops for one lost image |
| Reassembly.ProblemRecorded | looktech_glasses_sdk/protocol.py:827-900 | Which problem is recorded after which input, by type, group and number; nothing else is recorded |
| ImageClients.ImageClient.Poll | looktech_glasses_sdk/image_client.py:90-98 | One read: the images of the sub-frames found are saved in order |
| ImageClients.ImageClient.Deliver | looktech_glasses_sdk/image_client.py:100-121 | The next image takes the chosen name once; others get a name of the folder, the time, the group and the extension |
| ImageClients.ImageClient.SetNextPhotoPath | looktech_glasses_sdk/image_client.py:75-77 | The name is taken by the next photo only; an empty one is none |
| ImageClients.EachIsSaved | looktech_glasses_sdk/image_client.py:108-121 | Every image is saved unchanged and in order; the first under the chosen name if there is one, each other as photo_, the time, _g, the group and the extension in the folder |
| ImageClients.DecimalReads | looktech_glasses_sdk/image_client.py:115-117 | The group is written in decimal without leading zeros |
| ImageClients.Extensions | looktech_glasses_sdk/protocol.py:784-790 | Which extension goes with which format |
| ImageClients.FileIsLast | looktech_glasses_sdk/image_client.py:108-121 | The file under the path of a photo is that of the last one saved there |
| ImageClients.FilesPerPhoto | looktech_glasses_sdk/image_client.py:108-121 | There are as many files as photos saved if and only if no two were saved under one path, and never more |
| ImageClients.SameDatedPath | looktech_glasses_sdk/image_client.py:114-119 | Two names made for photos are equal if and only if the second, the group and the extension are |
| ImageClients.EachKeepsItsFile | looktech_glasses_sdk/image_client.py:108-121 | For a client with any name chosen for its first photo and any times: every photo keeps a file of its own if and only if no two dated ones share second, group and extension and no later one gets the chosen name |
| ImageClients.FilesHoldPhotos | looktech_glasses_sdk/image_client.py:108-121 | Where no two photos were saved under one path, each file holds the data of its photo |
| ImageClients.SameSecondOverwrites | looktech_glasses_sdk/image_client.py:114-119 | Two photos of one group and extension in one second: the second takes the place of the first |
| ImageClients.ChosenIsOverwritten | looktech_glasses_sdk/image_client.py:111-120 | A chosen name that is the one made for the next photo loses its file to it |
| ImageClients.ImageClient.Receive | looktech_glasses_sdk/image_client.py:81-98 | The reader loop over any reads comes to feeding all its sub-frames to the reassembler |
| ImageClients.AfterMore | looktech_glasses_sdk/image_client.py:81-98 | One more read continues from the bytes and the image in progress |
| ImageClients.DeliveredWereSent | looktech_glasses_sdk/image_client.py:90-98 | Whatever bytes arrive, each image delivered was sent whole: some HEAD, BODYs and TAIL of the stream make it up |
| ImageClients.PhotosArrive | looktech_glasses_sdk/image_client.py:90-98 | Any list of photos serialised as HEAD, BODYs of at most 4096 bytes and TAIL, cut into any reads, is delivered in order with identical bytes, group and format, none dropped and nothing retained |
| ImageClients.PhotosHaveWires | looktech_glasses_sdk/protocol.py:699-777 | Every list of photos has such a serialisation |
| ImageClients.ReceivePhotos | looktech_glasses_sdk/image_client.py:81-121 | The same for a fresh client object, with or without a chosen name: each photo is saved with its bytes, group and format, under the chosen or the made name; where no two meet each has a file with just its bytes; counters and buffer |
| AudioPackages.WalkIsSplit | looktech_glasses_sdk/audio_client.py:158-176 | The section walk succeeds exactly when the area is the concatenation of that many length-prefixed frames, and gives that unique split |
| AudioPackages.WalkSections | looktech_glasses_sdk/audio_client.py:158-176 | The loop over offsets computes the walk |
| AudioPackages.RecordStreamParser.Turn | looktech_glasses_sdk/audio_client.py:118-142 | One turn of the loop takes the decision of the parser at its position |
| AudioPackages.RecordStreamParser.Feed | looktech_glasses_sdk/audio_client.py:111-149 | The packages and the retained bytes are those of the scan; at most 4103 bytes are retained, so the trim is never reached |
| AudioPackages.PackagesAreGreedyLeftmost | looktech_glasses_sdk/audio_client.py:111-149 | Over any reads of any stream the parser emits the greedy leftmost packages of the part consumed, and retains the rest, fewer than 4104 bytes |
| AudioPackages.PackageComesOut | looktech_glasses_sdk/audio_client.py:111-149 | Once 4104 bytes have come from its start on, a complete package has been emitted, or starts inside one that was |
| AudioPackages.WriteThenParse | looktech_glasses_sdk/audio_client.py:111-176 | Packages written one after the other and cut into any reads come back |
| AudioPackages.PackageSpelled | looktech_glasses_sdk/audio_client.py:124-140 | One package, byte for byte |
| AudioPackages.EmittedAreWritable | looktech_glasses_sdk/audio_client.py:124-140 | Every package emitted has 1 to 16 sections, as many frames, each of at most 255 bytes |
| AudioClients.RawOpusSink.HandleFrame | looktech_glasses_sdk/audio_client.py:234-239 | A frame is appended with its length byte, or dropped if too long |
| AudioClients.AudioStreamClient.Start | looktech_glasses_sdk/audio_client.py:309-346 | A new session starts with an empty parser, empty file and zero counters, also after a reader that died; a running one refuses, and a transport that does not open leaves no session |
| AudioClients.AudioStreamClient.ReaderFails | looktech_glasses_sdk/audio_client.py:368-375 | After a transport error the session no longer runs |
| AudioClients.AudioStreamClient.Poll | looktech_glasses_sdk/audio_client.py:377-383 | One read: its packages are taken in order; between sessions it is discarded |
| AudioClients.AudioStreamClient.HandlePackage | looktech_glasses_sdk/audio_client.py:385-391 | Counters, file and last serial number after one package |
| AudioClients.AudioStreamClient.CheckSn | looktech_glasses_sdk/audio_client.py:393-404 | The losses reported before a package |
| AudioClients.AudioStreamClient.Receive | looktech_glasses_sdk/audio_client.py:368-383 | The reader loop of a session over any reads |
| AudioClients.AudioStreamClient.Stop | looktech_glasses_sdk/audio_client.py:348-364 | The file is left as written and its frame count is reported |
| AudioClients.FileIsAreas | looktech_glasses_sdk/audio_client.py:234-239 | Over any reads the file is the concatenation of the section areas of the accepted packages; the oversize branch of the sink is never taken |
| AudioClients.LossReported | looktech_glasses_sdk/audio_client.py:393-404 | m missing packages of k sections are reported as m if and only if m * k < 2^16, and otherwise as fewer |
| AudioClients.LossSeen | looktech_glasses_sdk/audio_client.py:393-404 | A loss is reported exactly where the serial number is not the one that follows, also for less than a package |
| AudioClients.LossIsCounted | looktech_glasses_sdk/audio_client.py:393-404 | Over any stream, damaged or not, of which the accepted packages are those of a k-section sender numbered in increasing order, the loss count is the number of packages missing between the first and the last accepted if and only if every run of m missing ones has m * k < 2^16; otherwise it is too low |
| AudioClients.DropsAreCounted | looktech_glasses_sdk/audio_client.py:393-404 | In particular where whole packages are dropped from an otherwise clean stream |
| AudioClients.FullCycleUnseen | looktech_glasses_sdk/audio_client.py:393-404 | The bound is tight: where m * k is 2^16 nothing is reported |
| OtaPackets.OtaPacketParser.Turn | looktech_glasses_sdk/ota_client.py:123-144 | One turn of the loop takes the decision of the parser at its position |
| OtaPackets.OtaPacketParser.Feed | looktech_glasses_sdk/ota_client.py:117-150 | The packets and the retained bytes are those of the scan; at most 65545 bytes are retained, so the trim is never reached |
| OtaPackets.PacketsAreGreedyLeftmost | looktech_glasses_sdk/ota_client.py:117-150 | Over any reads of any stream the parser emits the greedy leftmost packets of the part consumed, and retains the rest, fewer than 65546 bytes |
| OtaPackets.PacketComesOut | looktech_glasses_sdk/ota_client.py:117-150 | Once 65546 bytes have come from its start on, a complete packet has been emitted, or starts inside one that was |
| OtaPackets.PackThenParse | looktech_glasses_sdk/ota_client.py:92-150 | Packed packets, cut into any reads, are parsed back |
| OtaPackets.PacketSpelled | looktech_glasses_sdk/ota_client.py:92-100 | One packet, byte for byte; exactly the payloads over 65535 bytes are refused |
| OtaPackets.ParseThenPack | looktech_glasses_sdk/ota_client.py:92-150 | Packing an emitted packet gives back the bytes consumed |
| OtaPackets.GarbageIgnored | looktech_glasses_sdk/ota_client.py:123-127 | Garbage without 0x98 in front of a stream changes no packet |
| OtaFirmware.ParseImage | looktech_glasses_sdk/ota_client.py:174-220 | A file is accepted exactly when its header is whole, its modules are known and inside, and its header checksum fits; the error is the first thing wrong; the image holds as many of the bytes of the file as its length field says |
| OtaFirmware.BlockRoundTrip | looktech_glasses_sdk/ota_client.py:279-289 | A block request as the device lays it out is read back field by field |
| OtaFirmware.UpdateResultRoundTrip | looktech_glasses_sdk/ota_client.py:305-316 | An update result is read back field by field, and begins like a block request |
| OtaFirmware.ShortRoundTrips | looktech_glasses_sdk/ota_client.py:258-301 | The same for the CAN_UPDATE and VERIFY_DATA replies |
| OtaLayouts.RepliesExactly | looktech_glasses_sdk/ota_client.py:258-316 | A reply is read as these fields if and only if it begins with them as laid out; exactly the shorter ones are refused |
| OtaLayouts.DeviceInfoExactly | looktech_glasses_sdk/ota_client.py:230-256 | The same for the device information with its modules |
| OtaLayouts.LaidOutIsAcceptable | looktech_glasses_sdk/ota_client.py:174-220 | A file laid out with a header of one to three modules is accepted, and read as its header says |
| OtaLayouts.AcceptableExactly | looktech_glasses_sdk/ota_client.py:174-220 | A file is accepted if and only if it begins with such a header and its checksum, with modules of known types inside the file, and is as long as it says |
| OtaBursts.AcceptedWasIssued | looktech_glasses_sdk/ota_client.py:405-417 | A serial number in the accepted range was issued in the same attempt, for every number of packets and every wrap, and is never 0 |
| OtaBursts.IssueCycles | looktech_glasses_sdk/ota_client.py:350-354 | The serial numbers go round a cycle of 65535 |
| OtaBursts.AllIssuedAcceptable | looktech_glasses_sdk/ota_client.py:466-478 | Every serial number issued in an attempt is acceptable if and only if the attempt does not wrap, or runs from 1 on through whole cycles of 65535 |
| OtaBursts.NoneAcceptable | looktech_glasses_sdk/ota_client.py:466-478 | No reply at all is acceptable if and only if the last serial number of the attempt is below its first |
| OtaBursts.WrapRefusesAll | looktech_glasses_sdk/ota_client.py:466-478 | A block of two packets under 0xFFFF and 1 cannot be acknowledged |
| OtaBursts.WrapRefusesOnce | looktech_glasses_sdk/ota_client.py:466-478 | No two attempts in a row of at most 32768 packets are refused so: after one that no reply can acknowledge, any reply to the next is acceptable |
| OtaBursts.BurstChunk | looktech_glasses_sdk/ota_client.py:466-473 | Packet k of a block has the k-th serial number and exactly a stretch of the block, of at most the limit, with its offset |
| OtaBursts.BurstReaches | looktech_glasses_sdk/ota_client.py:466-473 | Every byte of the block is in some packet |
| OtaBursts.BurstIsWhole | looktech_glasses_sdk/ota_client.py:466-473 | The stretches, one after the other, are the block |
| OtaBursts.RetriesAlike | looktech_glasses_sdk/ota_client.py:521-523 | Another attempt on the block sends identical bytes at identical offsets |
| OtaBursts.ReceiveSendData | looktech_glasses_sdk/ota_client.py:421-432 | A device that checks length and checksum stores exactly the data of the packet at its offset |
| OtaProtocol.SentIsFaithful | looktech_glasses_sdk/ota_client.py:421-473 | Over every run, each SEND_DATA packet carries exactly the bytes of the firmware at its offset, inside the file, at most the limit, with their own checksum |
| OtaProtocol.DeviceAgrees | looktech_glasses_sdk/ota_client.py:511-545 | Whatever part of the packets reaches a device that stores by offset, in whatever order and however often, every byte it stores is the byte of the firmware |
| OtaProtocol.AcknowledgedIsStored | looktech_glasses_sdk/ota_client.py:461-478 | A block whose OK reply is taken was written in full before it: with the packets that stand before that reply in the log delivered, in any order and among any others, the device holds the whole block |
| OtaProtocol.AcknowledgedSerial | looktech_glasses_sdk/ota_client.py:466-478 | A reply taken for a burst carries the serial number of one of the packets of that burst, never 0 |
| OtaProtocol.RecentReplyIsOwn | looktech_glasses_sdk/ota_client.py:405-417 | A reply to a packet written fewer than 65535 serial numbers ago is taken only for the step that wrote it |
| OtaProtocol.WrappedTimesOut | looktech_glasses_sdk/ota_client.py:466-478 | An attempt whose serial numbers end below where they began can only time out |
| OtaTraces.PhaseExplained | looktech_glasses_sdk/ota_client.py:507-545 | At every moment of every run: the block due was asked for by the last OK reply, and since then the same bytes at the same offset failed fewer than block_retries times; verification starts only when no block is asked for, and the end comes only after it |
| OtaTraces.StepInPlace | looktech_glasses_sdk/ota_client.py:495-545 | Each step of each run is in its place: one of the three opening requests, an attempt on the block that the last OK reply asked for with fewer than block_retries failures since, VERIFY_DATA after a transfer that ended, or UPDATE_RESULT after VERIFY_DATA OK |
| OtaTraces.RequestOutcomes | looktech_glasses_sdk/ota_client.py:495-568 | By its bytes, what each reply to a request leads to: too short, refused, in progress and asked again, or granted |
| OtaTraces.AttemptOutcomes | looktech_glasses_sdk/ota_client.py:520-537 | A block that is rejected or not answered is due again as long as attempts are left, and otherwise ends the run with the error of the last attempt; an acknowledged one leads to what its reply asks for |
| OtaTraces.ReturnExplained | looktech_glasses_sdk/ota_client.py:507-545 | A run returns only on a whole trace: every step in its place, so ENTER_UPDATE OK and rounds of acknowledged blocks, VERIFY_DATA OK and UPDATE_RESULT OK; the transfer ended with a request for no block, VERIFY_DATA then came back OK, and the last step is UPDATE_RESULT OK asking for (0, 0) |
| OtaTraces.AbortExplained | looktech_glasses_sdk/ota_client.py:520-537 | An attempt ends the run, unless its reply is too short, only after exactly block_retries failed attempts on the block that the step before them asked for, and with the error of the last |
| OtaTraces.RunIsBounded | looktech_glasses_sdk/ota_client.py:511-545 | With block_retries at least 1 there are at most block_retries attempts for each block asked for, and at most three steps more than those attempts and the polls; so a run goes on only as long as the device keeps asking or the polls go on |
| OtaTraces.EndlessRun | looktech_glasses_sdk/ota_client.py:511-537 | There is a run of every length in which every block is acknowledged and asked for again, and some script makes the client take it: nothing in the upgrade ends it |
| OtaTraces.LateReplyIsTaken | looktech_glasses_sdk/ota_client.py:405-417 | The bound on the delay is tight: in some run, which some script makes the client take, an OK reply 65535 serial numbers late is taken for another packet |
| OtaLines.AwaitIsFirst | looktech_glasses_sdk/ota_client.py:366-419 | The payload taken is that of the first matching packet of the whole stream read, however it is cut; if none is taken none in it matched |
| OtaLines.AwaitExactly | looktech_glasses_sdk/ota_client.py:366-419 | A reply is taken exactly if one matches in what is read before the deadline; otherwise the wait times out exactly if the deadline is seen to pass |
| OtaLines.DeviceReads | looktech_glasses_sdk/ota_client.py:92-150 | A device with the same parser gets back exactly the packets written |
| OtaLines.RequestsOnLine | looktech_glasses_sdk/ota_client.py:434-490 | What a device reads for each request of a run, in its place: the opcode, the serial number issued for it, and 0 for GET_INFO, the header with its length for CAN_UPDATE, nothing for the others; one packet for each serial number |
| OtaLines.DataOnLine | looktech_glasses_sdk/ota_client.py:421-473 | And for each packet of a burst: its serial number, offset, length, bytes of the firmware and their checksum |
| OtaLines.DeviceHoldsFirmware | looktech_glasses_sdk/ota_client.py:421-545 | From the bytes on the line to the store of the device: it holds only bytes of the firmware, and every byte of every acknowledged block |
| OtaScripts.RunHasScript | looktech_glasses_sdk/ota_client.py:366-545 | Every legal run whose replies fit in packets is what the client does when each step gets its reply |
| OtaScripts.RunsAreLegalRuns | looktech_glasses_sdk/ota_client.py:366-545 | A client can be brought to take given steps, by some device at some times, if and only if they are a legal run whose replies fit in packets |
| OtaScripts.EarlyEndings | looktech_glasses_sdk/ota_client.py:511-537 | What becomes of a block asked for: outside the file or empty it is an error, with no attempt allowed the client spins, and any other is sent as it stands in the file |
| OtaDevices.ConversationEndsWell | looktech_glasses_sdk/ota_client.py:492-545 | With a device that answers each packet under the serial number it reads, refuses bursts and is in progress as often as it plans to, in any number of rounds, the upgrade returns with every block of every round acknowledged, or ends with the error of the first block whose attempts are used up; and what the client is told is what the device says to the packets sent |
| OtaDevices.VerdictOfPlan | looktech_glasses_sdk/ota_client.py:520-537 | A block gets through if and only if its refusals, and one more if its acknowledgement has to be ignored at the wrap, are fewer than block_retries |
| OtaDevices.PatientVerdict | looktech_glasses_sdk/ota_client.py:520-537 | Whatever the serial numbers: a device that refuses each block at least two times fewer than block_retries is served to the end |
| OtaDevices.DeadlineEndsPolls | looktech_glasses_sdk/ota_client.py:547-568 | VERIFY_DATA and UPDATE_RESULT are asked again as long as they are in progress, and given up when the deadline has passed |
| OtaClients.OtaClient.NextSn | looktech_glasses_sdk/ota_client.py:350-354 | The serial numbers count up modulo 2^16 and skip 0 |
| OtaClients.OtaClient.Write | looktech_glasses_sdk/ota_client.py:371 | The bytes written so far stay the wire forms of the packets logged |
| OtaClients.OtaClient.WaitFor | looktech_glasses_sdk/ota_client.py:374-393 | The waiting loop ends with the payload, the timeout, or the script, as specified, and leaves the input and clock specified; a payload taken carries an expected serial number, if one is expected |
| OtaClients.OtaClient.FindReply | looktech_glasses_sdk/ota_client.py:381-391 | The first packet of a batch that matches |
| OtaClients.OtaClient.Request | looktech_glasses_sdk/ota_client.py:366-393 | A request goes out under the next serial number and takes only a reply with it |
| OtaClients.OtaClient.WriteSendDataPacket | looktech_glasses_sdk/ota_client.py:421-432 | A chunk within the limit goes out as its packet; a longer one is refused |
| OtaClients.OtaClient.SendChunk | looktech_glasses_sdk/ota_client.py:469-473 | One turn of the loop of send_data_block |
| OtaClients.OtaClient.WriteBurst | looktech_glasses_sdk/ota_client.py:466-473 | The loop writes exactly the packets of the block, under consecutive serial numbers |
| OtaClients.OtaClient.SendDataBlock | looktech_glasses_sdk/ota_client.py:461-478 | All packets of a block are written before its reply is looked for, and only a reply in their range is taken |
| OtaClients.OtaClient.TakeRequest | looktech_glasses_sdk/ota_client.py:434-490 | A request is the step that is due, and leads to the phase its reply calls for |
| OtaClients.OtaClient.PushBlock | looktech_glasses_sdk/ota_client.py:520-537 | The retry loop ends in the phase after an acknowledged block, a short reply, or block_retries failures |
| OtaClients.OtaClient.TakeAttempt | looktech_glasses_sdk/ota_client.py:521-535 | One attempt on the block that is due leads to the phase its answer calls for |
| OtaClients.OtaClient.Transfer | looktech_glasses_sdk/ota_client.py:512-537 | Blocks are pushed until none is asked for, or until the script ends; a block outside the file, an empty one and a retry count below 1 end or block the run as in the code |
| OtaClients.OtaClient.PollVerify | looktech_glasses_sdk/ota_client.py:547-556 | VERIFY_DATA is asked until it is OK, fails, or the time is over |
| OtaClients.OtaClient.PollUpdateResult | looktech_glasses_sdk/ota_client.py:558-568 | UPDATE_RESULT likewise; an OK one either completes the run or asks for a block |
| OtaClients.OtaClient.Open | looktech_glasses_sdk/ota_client.py:495-509 | The three opening requests, each with its error |
| OtaClients.OtaClient.Upgrade | looktech_glasses_sdk/ota_client.py:492-545 | For any file and any behaviour of the device the steps taken and the ending are those the script calls for; the run is legal as far as it is observed, its log and output are those of its steps, and where it is seen to end it ends as its last phase calls for; it is still running only where the script ends |
| OtaClients.UpgradeDevice | looktech_glasses_sdk/ota_client.py:492-545 | For a fresh client, from the file to the store of the device: it holds only bytes of the firmware and every byte of every acknowledged block, wherever the observation ends |
| OtaClients.TakeRun | looktech_glasses_sdk/ota_client.py:492-545 | A fresh client takes any given legal run whose replies fit in packets, given those replies, and ends as the run does |
| OtaClients.UpgradeWhole | looktech_glasses_sdk/ota_client.py:492-545 | For a fresh client and such a device, asking for blocks that cover the file: the upgrade ends as the plans have it; if it returns the device holds the whole firmware, and what the client was told is exactly what the device says to the bytes written, cut in any way |
| Transactions.RunKeeps | looktech_glasses_sdk/client.py:209-268 | Under any interleaving in which every request in flight is among the 256 latest allocations, the pending map holds exactly one entry for each registered request, its own, and a frame reaches only a request with its number and type |
| Transactions.EntriesAreRequests | looktech_glasses_sdk/client.py:219-221 | Different registered requests have different entries |
| Transactions.RegisterKeeps | looktech_glasses_sdk/client.py:217-221 | In the window, registering a request overwrites no other entry |
| Transactions.RegisterKeepsExactly | looktech_glasses_sdk/client.py:217-221 | In the window or not, registration overwrites no entry if and only if no other registered request has the number |
| Transactions.PopKeeps | looktech_glasses_sdk/client.py:236-238 | Completion removes the own entry of the request and no other |
| Transactions.RunGivesOwnAnswers | looktech_glasses_sdk/client.py:258-268 | If no answer is delayed past 255 further allocations, what a request gets is its own answer |
| Transactions.WindowIsTight | looktech_glasses_sdk/client.py:209-238 | One request more in flight and the map loses an entry, from any state |
| Transactions.EntryIsLost | looktech_glasses_sdk/client.py:209-238 | The bound is tight: a run stays in the window until request 256 begins while request 0 waits, and after request 0 has ended request 256 is registered and has no entry, so no answer finds it |
| Transactions.FoundIsOwn | looktech_glasses_sdk/client.py:258-268 | A timely answer is found only for the request it answers |
| Transactions.TimelyIsFound | looktech_glasses_sdk/client.py:258-264 | In the window a timely answer is found for its request exactly if that is registered and expects its type |
| Transactions.HandleGives | looktech_glasses_sdk/client.py:258-268 | A frame handled is given to the registered request with its number and type, if there is one; nothing else changes |
| Transactions.HandleAllGives | looktech_glasses_sdk/client.py:250-268 | After a read each registered request has the last frame of it that answers it, or what it had; nothing else changes |
| Transactions.ReadGivesOwn | looktech_glasses_sdk/client.py:250-268 | In the window, a request whose timely answer is in a read has its own answer after it |
| Transactions.LateAnswerIsFound | looktech_glasses_sdk/client.py:258-268 | An answer delayed by 256 allocations is found for the request that has its number now |
| Transactions.DelayIsTight | looktech_glasses_sdk/client.py:209-268 | The bound is tight: in some run within the window the answer to request 0 comes 256 allocations after it and is returned by request 256 |
| ControlClients.GlassesClient.NextSeq | looktech_glasses_sdk/client.py:209-213 | Sequence numbers count up modulo 256 |
| ControlClients.GlassesClient.Start | looktech_glasses_sdk/client.py:217-218 | Taking a number and making the request object is the action Begin |
| ControlClients.GlassesClient.Enter | looktech_glasses_sdk/client.py:219-220 | Registration is the action Register; in the window it keeps the own entries of all requests |
| ControlClients.GlassesClient.Send | looktech_glasses_sdk/client.py:222 | The encoded frame is written; an oversized payload is refused |
| ControlClients.GlassesClient.LookUp | looktech_glasses_sdk/client.py:259-262 | The look of the reader at the map is the action Look; in the window a timely answer finds its own request |
| ControlClients.GlassesClient.Give | looktech_glasses_sdk/client.py:263-264 | The write of the reader to the request is the action Deliver |
| ControlClients.GlassesClient.Finish | looktech_glasses_sdk/client.py:229-235 | The caller takes the frame that is there, or times out: the action Conclude; the frame has its number and type |
| ControlClients.GlassesClient.GiveUp | looktech_glasses_sdk/client.py:221-237 | A failed write is the action Fail |
| ControlClients.GlassesClient.Leave | looktech_glasses_sdk/client.py:236-238 | The finally block is the action Pop, and takes out its own entry |
| ControlClients.GlassesClient.HandleFrame | looktech_glasses_sdk/client.py:258-275 | One frame is given to the request in the map that waits for it, and to no other; or its payload goes to the listeners unless it is empty; or it is ignored |
| ControlClients.GlassesClient.Poll | looktech_glasses_sdk/client.py:250-256 | One read: the frames of the stream are handled in order; each registered request has the last of its answers, its own in the window; the empty event is caught |
| ControlClients.EventsInOrder | looktech_glasses_sdk/client.py:265-269 | The listeners get the payloads of the event frames that are not empty, all of them and in order |
| Catalog.PageRoundTrip | looktech_glasses_sdk/catalog.py:79-85 | A page as the device lays it out is read back: its IDs in order, the next cursor and the flag |
| Catalog.ItemRoundTrip | looktech_glasses_sdk/catalog.py:58-73 | A descriptor is read back field by field |
| Catalog.PageExactly | looktech_glasses_sdk/catalog.py:79-85 | A response is a page exactly if it is laid out so for the catalog asked about, with at most 16 IDs; any other is a session error |
| Catalog.ItemExactly | looktech_glasses_sdk/catalog.py:58-73 | A response is a descriptor exactly if it is laid out so for the catalog and ID asked about, with a revision, a known kind and a name by the rule; any other is a session error |
| Catalog.PageQueryFields | looktech_glasses_sdk/catalog.py:79 | The bytes of a page query |
| Catalog.ItemQueryFields | looktech_glasses_sdk/catalog.py:58-62 | The bytes of a descriptor query |
| Catalog.CheckOfCaps | looktech_glasses_sdk/catalog.py:43-56 | What becomes of a capabilities response for each version, identity and features |
| Catalog.CheckOfOther | looktech_glasses_sdk/catalog.py:28-46 | What becomes of a response of another length, a status error of each class, a lost session |
| Catalog.CheckPasses | looktech_glasses_sdk/catalog.py:43-56 | The check passes exactly on an answer of version 1 with the identity asked for, not 0, and feature bits 0 and 4 |
| Catalog.ListPage | looktech_glasses_sdk/catalog.py:86-96 | The IDs of a page are new and nonzero, are queried one after the other, and each is listed with its descriptor or left out because the device said it is gone; an error is that of the first ID that is 0, known or refused otherwise, after those before it were listed |
| Catalog.List | looktech_glasses_sdk/catalog.py:75-102 | For any device the listing ends; on success it is the items of pages linked by growing cursors from 0, IDs of items distinct and nonzero, in page order, leaving out exactly the IDs whose own descriptor query failed with 0x62 or 0x63 alone; the queries made were, in order, the check, each page followed by its descriptors, and the check, both answered with this catalog, listed by ID and described; on failure the error is that of the first check, page, ID or cursor refused, and all before it was in order |
| Catalog.ItemsDistinct | looktech_glasses_sdk/catalog.py:87-91 | Items listed from distinct IDs are distinct |

## Left out

- ControlClients.GlassesClient.Poll: events are recorded as the payloads they are made from; the fields that parse_event reads from them, and listeners that raise, are not modelled.
- ControlClients.GlassesClient.HandleFrame: the two steps of the reader taken together; the finer interleaving is that of Transactions.
- ImageClients.ImageClient.Deliver: the folder is the text in front of the name, and two spellings of one file (links, letter case) are two paths; photos are the only files written.
- OtaClients.OtaClient.WaitFor: one method for the two like loops of the source; the pump that serves other channels meanwhile is not part of this model.
- OtaClients.OtaClient.Upgrade: progress callbacks, packet pacing and sleeps are left out; the duration of a timeout is a choice of the clock script.
- Waiting callers as one call of _transact: its atomic sections are modelled one by one, its wait is any interleaving between them.
- send_data and the results of get_info: one packet outside the upgrade, and fields that only a display reads.
- The value of zlib.crc32: the checksum of firmware and SEND_DATA is any function of the bytes.
- The path and UTF-8 rules for media files: a parameter of Catalog.List.
- The transports, discovery, threads as such, and reuse of a client after close: foreign calls; the theorems start from fresh objects.
- Opus decoding and WAV files (WavOpusSink): work of a library that is not part of this model.
- media.py, wifi.py, session.py and capture.py: HTTP, paging of the same shape as the catalog, and platform wiring.
- Enums, LED and tone wrappers, version strings and error texts: one-branch facts.
