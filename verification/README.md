# Verification of the librmcs transport and firmware protocols

This project models the parts of librmcs whose correctness rests on state that is easy to get wrong
by one step, and proves what they promise:

* **The process-data stream** (`PdStream*.dfy`): two symmetric go-back-N endpoints over images that
  may be lost, overwritten before they are read, or read again. Proved over every run: in-order,
  exactly-once delivery, unambiguous 8-bit numbers for ever, the one-chunk-per-credit rule, recovery
  within seven loss-free frames when the sender rebuilds once behind its receives, and full rate
  without loss. Three sentences of the header are not quite what the code does, and the exact
  conditions are proved. Feeding an image more than once between frames never costs a byte, but with
  k credited rebuilds at the sender in every frame the link recovers if and only if k is prime to
  30; for every other k a reachable state is given from which nothing is ever acknowledged, though
  every frame arrives. `ready_to_advance` promises too much while a replay is pending. And after a
  reset of both ends delivery stays exact if and only if no image left over in memory or in a
  register passes for the first chunk or for an acknowledgement of one of the first two.
* **The field stream** (`Bitfield.dfy`, `Protocol.dfy`, `FieldParser.dfy`, `PeekMachine.dfy`,
  `Slicing.dfy`, `Deserializer.dfy`, `FieldEncoding.dfy`, `FieldLaws.dfy`, `Admission.dfy`,
  `RoundTrip.dfy`, `Spelling.dfy`, `BufferFilling.dfy`, `StreamBuffer.dfy`, `Serializer.dfy`,
  `EndToEnd.dfy`, `Handler.dfy`): the resumable deserializer with its zero-copy and
  cached windows agrees with a plain recursive-descent parser for every slicing of the input; what
  the serializer writes, whatever garbage the buffers held, is read back exactly if and only if its
  id is of its own kind, and nothing else is read as it; the writers take exactly the admissible
  requests and put fields into one buffer as long as they fit; what a stream writer transmits is delivered view by view up to the first one
  the receiver refuses, however buffer acquisition fails; and after a link
  restart the host feeds exactly the stream from its own StartAck on.
* **Firmware staging** (`NorFlash.dfy`, `FoeStaging.dfy`, `FoeStagingWriter.dfy`,
  `FoeCrashSafety.dfy`, `FoeWear.dfy`, `FoeDownload.dfy`): a writer over NOR flash, and the FoE
  callbacks that drive it, with power loss after any operation and in the middle of a program. A
  record that reads as ready always vouches for one whole committed image, and whatever the callbacks
  do with the writer is a run of that model.
* **The lock-free ring** (`PowerOfTwo.dfy`, `RingBuffer.dfy`, `RingInterleaving.dfy`): wrapping
  counters, power-of-two masks, and every interleaving of the two threads' loads, slot accesses and
  stores.
* **The Intel HEX merger** (`IntelHex.dfy`, `IntelHexRoundTrip.dfy`, `IntelHexMeaning.dfy`): what a file
  means, and reading, writing and merging.
* **The host timeline** (`Timeline.dfy`, `TimelineLaws.dfy`), over mathematical reals.

`Bytes.dfy` and `Options.dfy` hold what several of them share. An object the program updates in place
is a class; its methods are proved against functions on values (`View`, `Contents`, `Window`), and the
theorems are about those functions. Debug assertions of the program appear as asserts, so they are
proved never to fire.

## Model

| member | source | states |
|---|---|---|
| PdStreamEndpoint.PdStreamEndpoint.Reset | core/include/librmcs/ecat/pd_stream.hpp:92-101 | the fields return to the initial endpoint, the slot memory stays |
| PdStreamEndpoint.PdStreamEndpoint.OnPeerChunk | core/include/librmcs/ecat/pd_stream.hpp:107-127 | the received image gives ack and credit; its payload is pushed exactly when it is the awaited chunk and the ring has room, and only then is it acknowledged |
| PdStreamEndpoint.PdStreamEndpoint.CoveredPrefix | core/include/librmcs/ecat/pd_stream.hpp:219-225 | the search loop finds how many of the oldest chunks the peer's ack covers |
| PdStreamEndpoint.PdStreamEndpoint.Ready | core/include/librmcs/ecat/pd_stream.hpp:135-137 | credit at hand and room in the window behind the acks |
| PdStreamEndpoint.PdStreamEndpoint.BuildOwnChunk | core/include/librmcs/ecat/pd_stream.hpp:143-204 | the new state, the octets popped and the image bytes are those of one build on values: slide, replay or stage or hold, paint |
| PdStream.DecodePaint | core/include/librmcs/ecat/pd_stream.hpp:113-121 | whatever an image held before, the receiver reads back the painted chunk |
| PdStream.DecodeExactly | core/include/librmcs/ecat/pd_stream.hpp:108-123 | what each octet of an image stands for; a length beyond the image makes it idle |
| PdStreamSystem.AckUnambiguous | core/include/librmcs/ecat/pd_stream.hpp:219-225 | the 8-bit search answers for the unbounded numbers: it counts exactly the chunks the ack stands for |
| PdStreamSystem.SeqUnambiguous | core/include/librmcs/ecat/pd_stream.hpp:119-124 | the 8-bit test accepts an image exactly when it carries the next chunk |
| PdStreamSystem.SlideTracks | core/include/librmcs/ecat/pd_stream.hpp:145-152 | sliding keeps the window equal to the newest unacknowledged chunks and their numbers |
| PdStreamSystem.SentTracks | core/include/librmcs/ecat/pd_stream.hpp:154-190 | every branch of a build keeps the window and shows the newest chunk sent since the last rewind |
| PdStreamSystem.NextKeeps | core/include/librmcs/ecat/pd_stream.hpp:107-204 | writing, rebuilding, a frame and a read at either end all keep the invariant of the pair |
| PdStreamSystem.RunKeeps | core/include/librmcs/ecat/pd_stream.hpp:107-204 | the invariant holds after every run |
| PdStreamSafety.StreamSafety | core/include/librmcs/ecat/pd_stream.hpp:40-50 | in every run, both ways: pushed is a prefix of popped, popped of written, and what is missing are the payloads in flight |
| PdStreamSafety.WrapUnambiguous | core/include/librmcs/ecat/pd_stream.hpp:215-225 | a readable image is at most one behind and two ahead, a readable ack lies in the window, and both 8-bit tests decide the true question however often the octets wrapped |
| PdStreamSafety.ImageSays | core/include/librmcs/ecat/pd_stream.hpp:154-204 | in every reachable state a rebuilt image acknowledges the newest chunk received, carries a chunk of the window under its number, or is idle under the newest number staged, which it is exactly when the window is empty or just rewound |
| PdStreamSafety.SlotReuseIsSafe | core/include/librmcs/ecat/pd_stream.hpp:162-172 | a slot is overwritten only after every chunk that lay in it reached the peer's ring; it is the slot of the new chunk's own number, and the other one stays |
| PdStreamSafety.SpentStays | core/include/librmcs/ecat/pd_stream.hpp:174-190 | once the credit is spent, any further builds and ring writes leave endpoint, image and ring alone, and the image is never idle |
| PdStreamSafety.OneChunkPerCredit | core/include/librmcs/ecat/pd_stream.hpp:41-46 | between two received images at most one new chunk is staged |
| PdStreamSafety.CreditDiscipline | core/include/librmcs/ecat/pd_stream.hpp:154-190 | both credit rules from every reachable state |
| PdStreamSafety.ReadyMeansStaging | core/include/librmcs/ecat/pd_stream.hpp:129-137 | with data in the ring, a build stages if and only if the peek says ready and no replay is pending behind the acks |
| PdStreamSafety.ReceivedTwice | core/include/librmcs/ecat/pd_stream.hpp:103-112 | receiving an image twice is receiving it once, with room if there was room either time |
| PdStreamSafety.SwappedIsReachable | core/include/librmcs/ecat/pd_stream.hpp:79-82 | the ends are alike: a reachable pair swapped is reachable, so every law about one end holds of the other |
| PdStreamLiveness.WaitingBuild | core/include/librmcs/ecat/pd_stream.hpp:154-190 | while the oldest chunk is unacknowledged, a build without credit changes nothing, and one with credit replays the next chunk, stages into the free slot, counts a stall, or rewinds at the fourth |
| PdStreamLiveness.RoundProgress | core/include/librmcs/ecat/pd_stream.hpp:174-190 | each loss-free frame, followed by any steps in which both ends rebuild and the sender receives only before it does, slides the window or lowers a rank over stall, offset and acks |
| PdStreamLiveness.Recovery | core/include/librmcs/ecat/pd_stream.hpp:47-50 | from every reachable state with chunks in flight, seven such frames get the oldest acknowledged, whatever else the ends receive, rebuild and write between them |
| PdStreamLiveness.FlowCycles | core/include/librmcs/ecat/pd_stream.hpp:59-72 | from idle, each cycle stages and delivers the next full chunk, with the window never blocking and the stall counter at rest |
| PdStreamLiveness.FullRate | core/include/librmcs/ecat/pd_stream.hpp:59-72 | N full chunks are delivered by N cycles and all acknowledged after N + 1 |
| PdStreamCredits.RecoveryByCredits | core/include/librmcs/ecat/pd_stream.hpp:47-50 | with k credited rebuilds at the sender in every frame, k prime to 30, eight loss-free frames get the oldest chunk acknowledged, in any interleaving with receives, writes and rebuilds at both ends |
| PdStreamCredits.Starvation | core/include/librmcs/ecat/pd_stream.hpp:103-112 | for any other k, from a starving state nothing is acknowledged and no byte delivered, through any number of frames that all arrive |
| PdStreamCredits.StarvingIsReachable | core/include/librmcs/ecat/pd_stream.hpp:103-112 | for every k that shares a factor with 30 a starving state is reached |
| PdStreamCredits.RecoversIffCoprime | core/include/librmcs/ecat/pd_stream.hpp:47-50 | some fixed number of loss-free frames always gets the oldest chunk acknowledged if and only if k is prime to 30 |
| PdStreamCredits.ReadyDuringReplay | core/include/librmcs/ecat/pd_stream.hpp:129-137 | a reachable state in which the peek says ready and, with a full chunk in the ring, no build stages |
| PdStreamReset.ResetIsSafe | core/include/librmcs/ecat/pd_stream.hpp:89-101 | after both ends are reset with old images still in memory and in the registers, every run delivers exactly once and in order, both ways, if and only if each of the four leftovers is harmless: its ack is neither 1 nor 2, and it does not carry data under number 1 |
| PdStreamReset.RenewedIsSafe | core/include/librmcs/ecat/pd_stream.hpp:89-101 | whatever is left over, one rebuild and one frame each way before the first receive make every later run safe |
| Bitfield.SetBitsAt | core/src/utility/bitfield.hpp:238-270 | setting a member changes its own bits to those of the value and no other bit |
| Bitfield.GetAfterSet | core/src/utility/bitfield.hpp:193-270 | reading back gives the value truncated to the width |
| Bitfield.GetOther | core/src/utility/bitfield.hpp:193-270 | members that share no bit do not disturb each other |
| Bitfield.SetCommutes | core/src/utility/bitfield.hpp:238-270 | members that share no bit can be set in either order |
| Bitfield.SignedRoundTrip | core/src/utility/bitfield.hpp:220-234 | a signed member reads back every value its width holds |
| Bitfield.Load | core/src/utility/bitfield.hpp:197-211 | the accumulation loop gives the little-endian number of the spanned bytes |
| Bitfield.ReadBits | core/src/utility/bitfield.hpp:193-235 | shifting and masking that word gives the member bit by bit |
| Bitfield.ReadSigned | core/src/utility/bitfield.hpp:218-231 | shifting left to the top of the word and back gives the sign-extended member |
| Bitfield.WriteBits | core/src/utility/bitfield.hpp:237-270 | masking, merging and storing byte by byte sets exactly the member |
| Bitfield.MaskAndAdd | core/src/utility/bitfield.hpp:256-264 | clearing the masked member and adding the shifted value replaces its bits in the word |
| FieldParser.ParseField | core/src/protocol/deserializer.cpp:15-70 | a usable field takes at least one byte and none beyond the end |
| FieldLaws.ViewsOfIds | core/src/protocol/deserializer.cpp:15-66 | each id makes the views of one kind under that id, and no other id makes any |
| FieldLaws.FieldTakes | core/src/protocol/protocol.hpp:24-230 | how many bytes a field takes, in numbers, by what it delivers, with and without the longer header |
| FieldLaws.GpioKinds | core/src/protocol/deserializer.cpp:182-268 | which GPIO payload types there are, what each delivers, and that stamped analog fields are refused |
| FieldLaws.RawPayloads | core/src/protocol/deserializer.cpp:270-441 | payloads delivered raw are all the bytes behind the header, in order |
| FieldLaws.RefusalEndsTransfer | core/src/protocol/deserializer.cpp:60-69 | a CAN, UART, UART configuration or GPIO callback that answers false ends the transfer with one error; no other callback and no other answer does |
| FieldLaws.OthersCannotRefuse | core/src/protocol/deserializer.cpp:270-441 | IMU and session fields are delivered whatever the receiver answers |
| FieldLaws.RefusalEndsFeeding | core/src/protocol/deserializer.cpp:60-69 | the same for a deserializer fed the transfer in any slices |
| PeekMachine.Resume | core/src/protocol/deserializer.cpp:15-441 | every suspension point asks for a window that only grows, at most the cache size, and makes progress |
| PeekMachine.Drive | core/src/protocol/deserializer.cpp:15-70 | a run ends suspended, with less cached than it waits for |
| Slicing.DriveAppend | core/src/protocol/deserializer.hpp:94-121 | suspending and going on with more input is the same as having had all of it |
| Slicing.CanLands | core/src/protocol/deserializer.cpp:72-130 | the suspended CAN parser comes to what the plain one says |
| Slicing.UartLands | core/src/protocol/deserializer.cpp:132-167 | the same for UART data, with short and extended lengths |
| Slicing.UartConfigLands | core/src/protocol/deserializer.cpp:169-180 | the same for UART configuration |
| Slicing.GpioLands | core/src/protocol/deserializer.cpp:182-268 | the same for every GPIO payload and its refusals |
| Slicing.ImuLands | core/src/protocol/deserializer.cpp:270-326 | the same for the IMU fields, payloads kept raw |
| Slicing.SessionLands | core/src/protocol/deserializer.cpp:328-441 | the same for session fields with and without a payload |
| Slicing.FieldLands | core/src/protocol/deserializer.cpp:15-70 | the same for a whole field, with 1-byte headers and 2-byte headers that overlap the body |
| Slicing.SlicingInvariance | core/src/protocol/deserializer.hpp:94-136 | for every split of a transfer into feed calls, feeding and finishing make exactly the callbacks of the plain parser on the concatenation, and leave a fresh parser |
| Slicing.TransfersAreIndependent | core/src/protocol/deserializer.hpp:123-136 | every transfer is parsed as on a fresh deserializer, whatever the ones before contained |
| Slicing.OneErrorAndLast | core/src/protocol/deserializer.hpp:276-290 | a transfer reports at most one error and delivers nothing after it |
| Deserialization.Deserializer.constructor | core/src/protocol/deserializer.hpp:82-84 | a new deserializer waits for the first byte of a field |
| Deserialization.Deserializer.Feed | core/src/protocol/deserializer.hpp:94-121 | the fast path and the cache both do what the machine on values does, and no debug assertion can fire |
| Deserialization.Deserializer.FinishTransfer | core/src/protocol/deserializer.hpp:123-136 | a truncated field is reported once; the next transfer starts fresh |
| Deserialization.Deserializer.Peek | core/src/protocol/deserializer.hpp:156-207 | the request is satisfied exactly when enough bytes are at hand, cached or not, and no unconsumed byte changes |
| Deserialization.Deserializer.AwaitResume | core/src/protocol/deserializer.hpp:213-231 | the window is the first requested bytes of the unconsumed stream, or nothing in discard mode |
| Deserialization.Deserializer.ConsumePeeked | core/src/protocol/deserializer.hpp:250-259 | drops exactly the window from the unconsumed stream |
| Deserialization.Deserializer.ConsumePeekedPartial | core/src/protocol/deserializer.hpp:261-274 | drops exactly n bytes and keeps the rest of the window |
| Deserialization.Deserializer.EnterDiscardMode | core/src/protocol/deserializer.hpp:276-290 | one error callback, and nothing of the chunk is left |
| FieldEncoding.Required | core/src/protocol/serializer.hpp:512-647 | no field is larger than a buffer |
| Admission.RequiredExactly | core/src/protocol/serializer.hpp:535-647 | a request is taken if and only if it is admissible by the literal bounds on CAN ids and data, UART lengths, baud rates and analog edges, and its size is the literal sum of its parts |
| Admission.ReceivedIsAdmissible | core/src/protocol/serializer.hpp:535-647 | every view the parser delivers can be asked of a writer, which takes it unless it is data in a remote frame, a zero baud rate or UART data beyond a buffer |
| RoundTrip.WindowBits | core/src/utility/bitfield.hpp:193-218 | a member read through a window is the member of the buffer behind it |
| RoundTrip.ParseFieldExtends | core/src/protocol/deserializer.cpp:15-70 | a field is read the same whatever follows it |
| RoundTrip.CanReadsBack | core/src/protocol/protocol.hpp:24-46 | bytes that spell a CAN view are parsed as that view |
| RoundTrip.UartReadsBack | core/src/protocol/protocol.hpp:48-56 | the same for UART data behind either header |
| RoundTrip.ReadsBack | core/src/protocol/serializer.hpp:35-407 | bytes that spell a request, at the front of any stream, are read as exactly its view, and exactly the required size is consumed, if and only if the request carries an id or enumerator of its own kind |
| Spelling.ReadExactlyIfSpelled | core/src/protocol/deserializer.cpp:72-441 | bytes are read as a request's view only if they spell it, length bits of a CAN field without data aside |
| StreamBuffers.Span.Set | core/src/utility/bitfield.hpp:238-270 | a member set inside a span has its value, every other member keeps its own, and nothing in front of the span changes |
| StreamBuffers.StreamBuffer.Allocate | host/src/protocol/stream_buffer.hpp:130-146 | bytes that fit behind the fields of the open buffer are reserved there, with the transport untouched; otherwise that buffer is handed back and one acquisition tried, and only its refusal fails |
| StreamBuffers.StreamBuffer.InitBuffer | host/src/protocol/stream_buffer.hpp:224-237 | takes one buffer if the transport grants it |
| StreamBuffers.StreamBuffer.FinalizeBuffer | host/src/protocol/stream_buffer.hpp:239-251 | hands the held buffer back: released when nothing was written, otherwise transmitted with exactly the fields written |
| StreamBuffers.StreamBuffer.Destroy | host/src/protocol/stream_buffer.hpp:99-102 | afterwards every buffer ever acquired was handed back, and the transport's precondition makes it once |
| BufferFilling.PackedUnlessInterrupted | host/src/protocol/stream_buffer.hpp:130-146 | whatever is written, no buffer's first field would have fitted the one before, if and only if the transport never refuses a buffer between two that it grants |
| Serialization.FieldsShareBuffers | host/src/protocol/stream_buffer.hpp:130-146 | the same of the buffers a serializer has transmitted: consecutive ones hold more than 1023 bytes with the later one's first field |
| Serialization.Serializer.Write | core/src/protocol/serializer.hpp:35-407 | refuses exactly inadmissible arguments, fails exactly when the field does not fit the open buffer and the next one is refused, and otherwise appends exactly this request, in the buffer where it fits |
| Serialization.WriteFieldHeader | core/src/protocol/serializer.hpp:522-533 | the id is spelled in one byte or in two, of which the body shares the second |
| Serialization.FillCan | core/src/protocol/serializer.hpp:35-88 | the reserved bytes spell the CAN view, whatever they held before |
| Serialization.FillUart | core/src/protocol/serializer.hpp:90-131 | the same for UART data and its suffix |
| Serialization.FillUartConfig | core/src/protocol/serializer.hpp:136-156 | the same for the baud rate |
| Serialization.FillGpioDigital | core/src/protocol/serializer.hpp:158-189 | the same for a digital value with or without timestamp |
| Serialization.FillGpioDigitalConfig | core/src/protocol/serializer.hpp:191-221 | the same for a digital read configuration |
| Serialization.FillGpioAnalog | core/src/protocol/serializer.hpp:223-249 | the same for an analog value |
| Serialization.FillGpioAnalogConfig | core/src/protocol/serializer.hpp:251-285 | the same for an analog read configuration |
| Serialization.FillSessionControl | core/src/protocol/serializer.hpp:363-380 | the same for a header-only session field |
| Serialization.FillTimeAnchor | core/src/protocol/serializer.hpp:386-407 | the same for a time anchor |
| EndToEnd.BufferDelivers | host/src/protocol/stream_buffer.hpp:99-146 | a transmitted buffer, cut in any way, delivers its views up to the first one the receiver refuses |
| EndToEnd.BuffersDeliver | host/src/protocol/stream_buffer.hpp:99-146 | buffer after buffer, each as a transfer of its own, each up to the first view the receiver refuses |
| EndToEnd.StreamDelivers | host/src/protocol/stream_buffer.hpp:99-146 | buffer after buffer, run together into one stream, up to the first view the receiver refuses |
| EndToEnd.AllAreTold | host/src/protocol/stream_buffer.hpp:99-146 | a receiver that refuses nothing is told every view either way |
| EndToEnd.WriterDelivers | host/src/protocol/stream_buffer.hpp:130-146 | after destruction, whatever acquisitions failed and whatever the receiver answers, what this writer put on the wire delivers exactly the views whose writes succeeded, in order, up to the first refused one of each transfer |
| Handlers.FirstOccurrence | host/src/protocol/handler.cpp:317-336 | the trusted stream is the suffix from the first occurrence of the pattern |
| Handlers.NoOccurrence | host/src/protocol/handler.cpp:317-336 | without an occurrence nothing is trusted |
| Handlers.MakeSessionStartAck | host/src/protocol/handler.cpp:294-307 | the six bytes spell a StartAck with this nonce |
| Handlers.Handler.ReceiveStream | host/src/protocol/handler.cpp:309-337 | for every slicing, the deserializer was fed exactly the stream since the last restart from its first StartAck on, and nothing before it |
| Handlers.Handler.Push | host/src/protocol/handler.cpp:318-325 | the window holds the last bytes received, as many as fit |
| Handlers.Handler.OnLinkRestart | host/src/protocol/handler.cpp:60-74 | what was delivered since the last restart is what the plain parser finds in the trusted stream; the search starts over |
| Handlers.SessionHeaderIsUnique | host/src/protocol/handler.cpp:294-307 | the header leaves no bit open, so the expected bytes are the ones the peer's serializer writes |
| Handlers.ResyncDelivers | host/src/protocol/handler.cpp:309-337 | behind stale bytes in which no such StartAck begins, exactly the peer's StartAck and fields are delivered, up to the first one the receiver refuses |
| NorFlash.Device.Perform | firmware/rmcs_board/common/foe_staging_writer.hpp:32-42 | an operation either takes effect whole or fails, perhaps torn, and then the session ends |
| FoeStagingWriter.StagingWriter.Begin | firmware/rmcs_board/common/foe_staging_writer.hpp:52-73 | erases the metadata and marks it, in that order; opens only if both succeed |
| FoeStagingWriter.StagingWriter.EraseStep | firmware/rmcs_board/common/foe_staging_writer.hpp:98-116 | at most one sector per call, never reporting ready together with an erase |
| FoeStagingWriter.StagingWriter.Write | firmware/rmcs_board/common/foe_staging_writer.hpp:128-162 | refuses closed, out-of-sequence, oversized and unerased writes; otherwise programs the pieces in order |
| FoeStagingWriter.StagingWriter.ProgramPieces | firmware/rmcs_board/common/foe_staging_writer.hpp:143-158 | the chunk loop performs the pieces of the block, or a prefix of them on failure |
| FoeStagingWriter.StagingWriter.Commit | firmware/rmcs_board/common/foe_staging_writer.hpp:166-189 | size first, state last, and the session closes |
| FoeCrashSafety.PiecesAsOne | firmware/rmcs_board/common/foe_staging_writer.hpp:143-158 | programming a block in pieces has the effect of programming it at once |
| FoeCrashSafety.BeginOutcome | firmware/rmcs_board/common/foe_staging_writer.hpp:48-73 | interrupted anywhere, opening a session leaves no record that vouches for what the old one did not |
| FoeCrashSafety.WriteStep | firmware/rmcs_board/common/foe_staging_writer.hpp:128-162 | interrupted anywhere, a write keeps the accepted bytes and leaves the record unready |
| FoeCrashSafety.CommitStep | firmware/rmcs_board/common/foe_staging_writer.hpp:164-189 | the record becomes ready only with the state word, and then vouches for the accepted bytes |
| FoeCrashSafety.CrashSafety | firmware/rmcs_board/common/foe_staging.hpp:24-33 | after any sequence of sessions, each cut short anywhere, also inside a program: a ready record means the image region starts with exactly the concatenated writes of one committed session |
| FoeCrashSafety.ReadyMeans | firmware/rmcs_board/common/foe_staging.hpp:50-95 | a record is ready exactly by four literal words at literal offsets, the size within the app slot and the reserved word erased; the image then lies within the flash |
| FoeCrashSafety.ReservedIsFinal | firmware/rmcs_board/common/foe_staging.hpp:87-95 | once a bit of the reserved word is programmed, no program makes the record ready |
| FoeDownload.Download.WriteRequest | firmware/rmcs_board/ecat/core1_ecat/src/ecat_foe_support.cpp:174-215 | refuses outside BOOT, other names and other passwords, in that order; otherwise opens an empty session whose record is not ready, or reports the flash error |
| FoeDownload.Download.EraseUpTo | firmware/rmcs_board/ecat/core1_ecat/src/ecat_foe_support.cpp:260-269 | the loop terminates with the range erased and the offset unchanged, or the flash has failed and the session is aborted |
| FoeDownload.Download.WriteData | firmware/rmcs_board/ecat/core1_ecat/src/ecat_foe_support.cpp:217-310 | an acknowledged block is appended to the accepted bytes and every other answer closes the session; disk full exactly when the image would be too large, and the last block leaves the commit pending |
| FoeDownload.Download.Poll | firmware/rmcs_board/ecat/core1_ecat/src/ecat_foe_support.cpp:399-411 | a pending commit is tried once and the session ends; unless nothing was accepted or the flash fails, the download is then complete, the record ready and the image region starts with exactly the accepted bytes |
| FoeDownload.Download.PowerCycle | firmware/rmcs_board/ecat/core1_ecat/src/ecat_foe_support.cpp:71-82 | the flash and what its record vouches for stay, the writer and both flags start over |
| FoeDownload.DownloadIsRun | firmware/rmcs_board/common/foe_staging.hpp:24-33 | whatever is requested, whichever flash operation fails and whenever the power does, the calls on the writer and the device are a run of the crash model that ends in this flash, so a ready record vouches for the bytes last committed |
| FoeWear.SessionIsGentle | firmware/rmcs_board/common/foe_staging_writer.hpp:118-127 | over a whole session every programmed byte was erased and unprogrammed and no sector is erased twice |
| FoeWear.PiecesGentle | firmware/rmcs_board/common/foe_staging_writer.hpp:143-158 | the pieces of a block cover it exactly once |
| FoeWear.PiecesAreFull | firmware/rmcs_board/common/foe_staging_writer.hpp:143-158 | all pieces of a block but the last are as long as one program may be |
| FoeWear.RepeatedBlock | firmware/rmcs_board/common/foe_staging_writer.hpp:125-127 | a block repeated after busy answers stays acceptable through any number of erase steps, and once taken no repetition is, however much is erased |
| PowerOfTwo.MaskIsRemainder | host/src/utility/ring_buffer.hpp:131-131 | masking a counter with the capacity minus one is the remainder by the capacity |
| PowerOfTwo.SmearDoubles | host/src/utility/ring_buffer.hpp:256-267 | each shift-or doubles the run of ones below the highest bit |
| PowerOfTwo.RoundUpToNextPowerOf2 | host/src/utility/ring_buffer.hpp:256-267 | the routine, step by step: the least power of two not below the request, or zero when that does not fit the word |
| PowerOfTwo.RoundedUpIsLeast | host/src/utility/ring_buffer.hpp:25-32 | the result is the least power of two not below the request if and only if the request is at most half the word range; above that it is zero |
| RingBuffers.CounterSlot | host/src/utility/ring_buffer.hpp:131-137 | counter wrap-around never disturbs the slots, because the capacity divides the modulus |
| RingBuffers.CountersApart | host/src/utility/ring_buffer.hpp:60-76 | the difference of wrapped counters is the true difference |
| RingBuffers.RingBuffer.constructor | host/src/utility/ring_buffer.hpp:25-34 | the capacity is the least power of two that is at least the request and at least 2; above half the word range it wraps to an empty storage under a mask of ones |
| RingBuffers.RingBuffer.EmplaceBackN | host/src/utility/ring_buffer.hpp:120-142 | constructs as many elements as asked for and fit, behind the others and in order |
| RingBuffers.RingBuffer.PopFrontN | host/src/utility/ring_buffer.hpp:205-230 | hands over as many as asked for and there, from the front and in order |
| RingInterleaving.ConstructKeeps | host/src/utility/ring_buffer.hpp:134-137 | constructing one element keeps the invariant; its slot was raw |
| RingInterleaving.ConsumeKeeps | host/src/utility/ring_buffer.hpp:222-225 | consuming one element keeps the invariant; its slot held the next element |
| RingInterleaving.Fifo | host/src/utility/ring_buffer.hpp:120-230 | in every interleaving popped is a prefix of pushed, never more than the capacity is inside, and no slot is constructed over or consumed raw |
| RingInterleaving.NoSharedSlot | host/src/utility/ring_buffer.hpp:120-230 | no slot is claimed for construction and for consumption at once |
| RingInterleaving.SizesAreExact | host/src/utility/ring_buffer.hpp:60-76 | readable and writable compute the true numbers |
| RingInterleaving.ClaimsAsMany | host/src/utility/ring_buffer.hpp:120-132 | in every reachable state a producer that has loaded both counters claims as many slots as it asks for and are free |
| RingInterleaving.TakesAsMany | host/src/utility/ring_buffer.hpp:205-217 | a consumer claims as many elements as it asks for and had been published when it loaded |
| RingInterleaving.RefinesQueue | host/src/utility/ring_buffer.hpp:120-230 | publishing appends a batch to one shared queue, giving back removes its front, and no other step touches it |
| IntelHex.ParseIntelHex | firmware/ch32_board/cmake/merge_hex.py:44-101 | the loop reads the memory the records describe, or fails at the first line that cannot be read, and names it |
| IntelHexMeaning.FileMeaning | firmware/ch32_board/cmake/merge_hex.py:44-101 | a file is read if and only if every line is readable and no two bytes have one address; the memory is then exactly its bytes, each at the base selected last before its line, times 16 or 65536, plus its offset, which wraps behind type-02 bases only |
| IntelHexMeaning.DecodeExactly | firmware/ch32_board/cmake/merge_hex.py:52-66 | a line is a record if and only if its digits are size, offset, kind, payload and a byte that completes the sum |
| IntelHexMeaning.SegmentRecord | firmware/ch32_board/cmake/merge_hex.py:68-85 | behind a type-02 base u, byte i lies at 16 u + (offset + i) % 65536 and nowhere else |
| IntelHexMeaning.SegmentsRoundTrip | firmware/ch32_board/cmake/merge_hex.py:44-135 | a memory written behind type-02 bases, with any segment for each address, is read back, and again after writing it with type-04 bases |
| IntelHex.ToIntelHex | firmware/ch32_board/cmake/merge_hex.py:110-135 | the loop terminates and writes the records of the memory, or fails |
| IntelHex.ToFlatBinary | firmware/ch32_board/cmake/merge_hex.py:138-146 | up to the last address, each byte is the memory's or the filler |
| IntelHex.Merge | firmware/ch32_board/cmake/merge_hex.py:149-169 | the loop gives the merged memory of all files, or fails at the first malformed, empty or overlapping one, and names it |
| IntelHexRoundTrip.RecordReads | firmware/ch32_board/cmake/merge_hex.py:104-107 | a record is read back as what it was made of, checksum included |
| IntelHexRoundTrip.EmitReads | firmware/ch32_board/cmake/merge_hex.py:110-135 | reading what is written from an address on completes the memory |
| IntelHexRoundTrip.EmitSucceeds | firmware/ch32_board/cmake/merge_hex.py:128-130 | writing fails exactly when a byte lies beyond 2^32 |
| IntelHexRoundTrip.MemoryRoundTrip | firmware/ch32_board/cmake/merge_hex.py:44-135 | every non-empty memory below 2^32, however it was addressed when read, is written with type-04 bases and read back unchanged |
| IntelHexRoundTrip.EmitWellFormed | firmware/ch32_board/cmake/merge_hex.py:116-134 | only type-04 bases, data records of at most 16 bytes within one 64 KiB block, end-of-file last |
| IntelHexRoundTrip.EmitLongest | firmware/ch32_board/cmake/merge_hex.py:116-132 | data records are as long as 16 bytes, their block and the gaps of the memory let them be |
| IntelHexRoundTrip.EmitBases | firmware/ch32_board/cmake/merge_hex.py:126-130 | each block is selected once, in ascending order |
| IntelHexRoundTrip.HexIsUpperCase | firmware/ch32_board/cmake/merge_hex.py:104-107 | records are written in capitals |
| IntelHexRoundTrip.MergedHoldsAll | firmware/ch32_board/cmake/merge_hex.py:157-169 | the merged memory holds every fragment unchanged and nothing else |
| IntelHexRoundTrip.MergedFiles | firmware/ch32_board/cmake/merge_hex.py:149-169 | merging files succeeds if and only if all are well-formed, none is empty and none overlap, and then holds exactly their bytes |
| IntelHexRoundTrip.MergeSucceeds | firmware/ch32_board/cmake/merge_hex.py:157-169 | merging succeeds if and only if no fragment is empty and no two share an address |
| Timelines.Timeline.Observe | host/src/time/timeline.cpp:40-76 | the sample joins the window, an implausible one restarts the axis, and a full enough window is refitted |
| TimelineLaws.RestartsExactly | host/src/time/timeline.cpp:43-61 | in every run with a published line, the next sample is left alone in the window, with no line published, if and only if it is more than a second off the line, early or late |
| TimelineLaws.AcceptedExactly | host/src/time/timeline.cpp:98-114 | a refit is accepted if and only if there are sixteen samples, not all of one microframe, and a line of a period within 3 % of 125 us solves the normal equations |
| Timelines.Timeline.Refit | host/src/time/timeline.cpp:78-115 | the loop's sums give the least-squares line of the window, or leave the old one |
| Timelines.Timeline.GetAnchorFor | host/src/time/timeline.cpp:29-38 | computes the microframe of a host time, from the fitted line or from the origin |
| Timelines.Timeline.GetHostTimeOf | host/src/time/timeline.cpp:127-139 | computes the host time of a microframe |
| TimelineLaws.HostTimeIs | host/src/time/timeline.cpp:127-139 | the host time is within half a nanosecond of the fitted line, or the origin plus 125 us per microframe |
| TimelineLaws.NormalEquations | host/src/time/timeline.cpp:78-115 | a published line satisfies the normal equations of its window |
| TimelineLaws.LeastSquaresIsLeast | host/src/time/timeline.cpp:79-82 | no other line has a smaller sum of squared errors over the window |
| TimelineLaws.AllSound | host/src/time/timeline.cpp:62-75 | after any samples the window is the latest of them since the axis last restarted, as many as fit; a line is published if a refit was accepted since then, and it is the least-squares line of the window of the last accepted one |
| TimelineLaws.Published | host/src/time/timeline.cpp:100-114 | in every run a line is published if and only if some refit since the last restart was accepted, its basis is the window of the latest of these, every later refit was refused, and its period is within 3 % of nominal |
| TimelineLaws.SolutionIsUnique | host/src/time/timeline.cpp:98-110 | where the microframes of a window differ, only the least-squares period solves the normal equations |
| TimelineLaws.DeterminantSign | host/src/time/timeline.cpp:98-101 | the determinant is never negative, and zero exactly when all microframes of the window coincide |
| TimelineLaws.FitIsCurrent | host/src/time/timeline.cpp:98-114 | a published line satisfies the normal equations of the current window if and only if the last sample's refit was accepted, or all microframes of the window coincide and the residuals sum to zero |
| TimelineLaws.FitCanBeStale | host/src/time/timeline.cpp:100-108 | seventeen samples after which the published line fails the normal equations of its window by 0.9 s |
| TimelineLaws.NearestMicroframe | host/src/time/timeline.cpp:29-38 | no microframe lies nearer to a host time than the one computed, which is within half a period |
| TimelineLaws.AnchorIsNearest | host/src/time/timeline.cpp:29-38 | short of the 64-bit wrap-around, converting a host time to a microframe and back is off by at most half a period and the rounding; before a fit it gives the last microframe not after it |
| TimelineLaws.AnchorBeforeOrigin | host/src/time/timeline.cpp:29-38 | before a fit, times before the origin count backwards from 2^64 in whole microframes |
| TimelineLaws.ReachableInverts | host/src/time/timeline.cpp:29-38 | in every reachable state, converting a microframe to host time and back gives the microframe, fitted or not |

## Left out

Assumptions the models make:

- Frames carry whole images: a torn SyncManager image, mixed protocol versions and a reset of one end alone are outside the stream model.
- The rings of the stream are template parameters of the program; here a pop hands out at most n octets from the front and a push takes all or nothing.
- A false from the flash primitives is final and an erase is atomic, as the writer's comments require; sectors are aligned and the end given to an erase step lies in the image region.
- The acquire and release stores of the ring make each thread's steps visible in order; weaker memory behaviour is not modelled.
- Words are little-endian in memory, as the copies of timestamps and lengths assume.
- Doubles are reals and 64-bit nanosecond and microframe differences do not overflow in the timeline; the sample capacity, 256 in host/include/librmcs/time/timeline.hpp:50, is a parameter of at least 16.
- A HEX file is the sequence of its lines, in ASCII; a rejection names the line or the file, without the rest of its message.

Weaker than one might expect, and why:

- PdStreamLiveness.Recovery: the sender makes one credited rebuild per frame; PdStreamCredits.RecoversIffCoprime says for which other numbers recovery holds, the same in every frame.
- TimelineLaws.AllSound: the published line need not be that of the current window, because a refused refit keeps the old one; TimelineLaws.FitIsCurrent says exactly when it still solves that window's equations.
- PdStreamSafety.ReadyMeansStaging: the promise of the cheap peek fails while a replay is pending; the exact condition is part of the statement.
- EndToEnd.WriterDelivers: fields must carry an id or enumerator of their own kind, which the serializer does not check; RoundTrip.ReadsBack shows that any other is misread.
- TimelineLaws.AnchorIsNearest: host times whose microframe is negative or beyond 64 bits wrap around and are excluded; TimelineLaws.AnchorBeforeOrigin covers those before the origin.
- Serialization.FieldsShareBuffers: after a refused acquisition a later, smaller field may go into a buffer of its own although it had fitted the one before; BufferFilling.PackedUnlessInterrupted says exactly for which transports that can happen.
- StreamBuffers.StreamBuffer.FinalizeBuffer: a buffer without payload but with staged cyclic CAN data is transmitted by the program; the cyclic sideband is not modelled.
- Serialization.Serializer.Write: the write functions repeat one envelope of checks and allocation; it is one method here with the filling per kind in methods of their own.

Not modelled:

- IMU views and the session payloads other than the time anchor are delivered as raw bytes, and their writers are left out: more members of the same kind.
- Coroutine frames, the stack allocator and how long a peeked address stays valid: a suspended parser is an explicit state, a window is its bytes.
- The shifts, masks and ors of the bit fields are products, remainders and sums of the same numbers; only the ring's masking and rounding are modelled bit by bit.
- allocate_up_to, moving a stream buffer and the cyclic CAN sideband: no writer shown here uses them with the serializer.
- Keepalive, retries, condition variables and time-sync callbacks of the handler: wall-clock and operating-system behaviour.
- The ring's peek, clear and single-element forms: instances of the batch operations.
- Wall-clock conversions of the timeline: a constant offset around the two conversions modelled.
- USB, EtherCAT and CAN drivers, board identity, hashes, mailboxes and host examples.
