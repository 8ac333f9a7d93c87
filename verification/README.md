# The AR8030 transport, modelled and proved in Dafny

The transport carries H.265 video from an air unit to a ground unit over the byte-stream
sockets of the AR8030 radio. This project models its data path from the encoder's frames to
the RTP packets on the ground, the framing of its Linux network device, and the two
controllers that depend on its timing, and proves what they promise.

The models follow the C code branch by branch. State that the code updates in place is held
in classes and arrays; each method is proved against a function or a relation on values, and
the theorems are about these. `dafny verify dfyconfig.toml` checks everything.

## Main results

- **Resynchronising parsers.** `Resync` is a theory of greedy parsers over a stream with
  junk in it: the parse is the one leftmost, non-overlapping and complete list of frames, it
  does not depend on how the stream is cut, and junk delays a frame by one longest header
  claim at most. The chunk reader (`ChunkStream.Stream.Read`) and the datagram reader
  (`NetStream.Unpacker.RxStream`) are both proved to hand out exactly that parse.
- **Delivery.** Frames sent whole or slice by slice, other traffic between them, any chunks
  lost, whole or with junk left of them on the wire: exactly the frames of which nothing was
  lost are completed, once, in order and byte for byte (`Delivery.LossyDelivery`,
  `Holes.HolesArePassedOver`, `EndToEnd.Delivers`, `EndToEnd.DrainedLoop`), and it is stated
  exactly when the counters `dropped_frames` and `frames_lost` are right
  (`DropCount.DroppedIsExact`, `DropCount.NoTollIff`, `EndToEnd.FramesLost`).
- **Forwarding.** Over any run, with chunks lost, repeated or reordered, the receive loop
  hands every byte of a completed frame to the RTP sender exactly once, and of other frames
  only whole slices. The last call of a completed frame is given the end of the access unit,
  unless every byte had gone out with a slice before the last chunk and no SEI is due
  (`Forwarding.ForwardingConserves`); the marker is then on the frame's last packet exactly if
  the last NAL of that call is one that is sent (`FrameMarker.FrameMarkerIff`).
- **RTP.** What is packetised is read back by RFC 7798 as the same NALs (`RtpReceive`).
- **From NALs to NALs.** What is passed on early are whole parts of a frame, one by one
  (`WholeParts.SlicesAreParts`). Over a wire with lost chunks and junk, every frame the receive
  loop completes is one that was sent, and an RTP receiver gets exactly its NALs, in order, with
  the timing SEI at its place, the marker, and the time on a clock of 90 kHz
  (`SentNals.SentFrameArrives`, `Reception.FrameIsReceived`).
- **Formats.** Every format is given byte by byte (`WireLayout`), and the three scanners accept
  exactly what a sender can have built (`WireAccept`).
- **Timing SEI.** It never holds a start code, fits its buffer, is found again where it is
  inserted, and cutting it out restores the frame (`TimingSei`, `SeiRoundTrip`).
- **CRC.** Bursts of up to 16 bits and odd numbers of flipped bits are always detected
  (`Crc16`), for payloads of any length.
- **Clocks.** Error bounds for the clock estimate, when its window is thrown away, and when
  the 32-bit capture time is unwrapped correctly (`ClockBounds`); over whole runs of the
  receive loop, what the SEI says of the capture is true (`FrameTiming.RunIsStamped`).
- **Network device.** Demultiplexing cuts out exactly the device's frames; what is sent over
  any sequence of transfer windows is read back as the same packets (`NetDemux`,
  `NetLoopback`), and each write is at the position that the chip named last (`NetPosition`).
- **Bitrate control.** For every run of the PI controller: what each turn works out from the
  capacity, the margin and the gain, that nothing else is asked for, and bounds on the rates,
  the stages, the gain and the learned floor (`Waybeam`, `PiControl`).

## Conventions

- `byte`, `u16`, `u32`, `u64` are bounded integers; wrap-around is written out with `%`.
- What the code reads from the outside (the socket, the stop flag, HTTP answers, SDIO
  windows, allocations) is a list of answers in a small environment class (`Link`, `Sink`,
  `Socket`, `Device`, `Sdio`, `Server`); theorems hold for every such list.
- Buffers that a function only reads are passed as sequences.
- Counters of 64 bits are unbounded.

## Preconditions taken over from the callers

- Chunk stream: the buffer holds one chunk of the largest size, 22 + 65535 bytes.
- Reassembly: the buffer is shorter than 2^32 - 65535 bytes, so that the sum in
  `common/reassembly.c:82` does not wrap.
- Chunker: a frame's or part's length and the payload size together stay below 2^32
  (`SentFrames.NoWrap`); `SentFrames.PayloadsAreDataIff` shows that this is exactly when the
  chunks carry all of the data. The caller's flags leave bits 0x80 and 0x40 clear.
- Clock: the signed differences of a reply's times do not overflow 64 bits, which C leaves
  undefined (`ClockSync.InRange`).
- PI controller: 0 <= pi_k_min <= pi_k_max, the margin, the slew limit and the integral gains
  are not negative, and the rate times the divisor stays below 2^32. A request that fails is
  not carried out by waybeam, and a restart of waybeam is noticed in the next turn.

## Where the code does not do what it says

- `common/reassembly.c:21-25` speaks of frames lost: a frame sent whole of which only the
  tail is lost is not counted at all, because `common/reassembly.c:43` gives up streamed frames
  only (`DropCount.TailLossIsUncounted`; exactly which frames count: `DropCount.NoTollIff`).
- `frames_lost` falls short when 999 or more frames are lost in a row, which looks like a restart
  of the sender (`rx/main.c:617`): 0 for two frames with 999 lost between them
  (`LostInARow.GapIsCounted`). It is right otherwise (`EndToEnd.FramesLost`).
- `rx/rtp_h265.c` keeps its packet size limit for limits of 4 and more only: below, a fragment
  has four bytes all the same (`RtpReceive.LimitIsKeptIff`). An access unit whose last NAL has
  fewer than two bytes gets no marker (`RtpReceive.MarkerIff`).
- `rx/rtp_h265.c:112-113` stops at an empty NAL and drops all that follows, and NALs of one
  byte are dropped as well: what is sent are, of the first 256 NALs ahead of the first empty
  one, those of two bytes and more (`RtpReceive.RtpRoundTrip`). `common/timing_sei.c:82-83`
  reads on and takes the empty NAL for a slice (`RtpReceive.EmptyNalEndsAll`). All NALs come
  back exactly if there are at most 256 and each has two bytes (`RtpReceive.AllComeBackIff`).
- A streamed frame whose last slice has gone out before its last, empty chunk arrives gets no
  end of access unit when no SEI is due (`rx/main.c:667-683`, `FrameMarker.EndCanBeLost`); no
  call of a completed frame is given the end exactly then (`Forwarding.EndIff`).
  `tx/main.c:1175` and `tx/main.c:1216-1218` send such a chunk for an entry with its meta data
  only. On the wire the marker is missing in one more case, a last call whose last NAL is not
  sent, such as a last slice of the single byte 0 (`FrameMarker.MarkerCanBeLost`; exactly:
  `FrameMarker.FrameMarkerIff`).
- The uncertainty that `rx/clock_sync.c` reports is half a round trip rounded down; the error
  is 1 us more for one of the offsets that are possible exactly when the round trip is odd
  (`ClockBounds.UncertaintyIff`, `ClockBounds.EstimateUncertaintyIff`).
- A floor learned from a refusal can be above waybeam's own when waybeam has just been started
  anew and the controller does not know it yet (`Waybeam.CutBehindRestart`; never exactly when
  waybeam divides by no less than the controller thinks: `Waybeam.SoundIff`).
- `tx/bitrate_ctl.c:896` says that `applied_kbps` stays 0 behind the probe, so that the first
  rate is sent unslewed. When a rate was accepted before the probe succeeds, it is not 0, and
  waybeam, put at the floor by the probe, is no longer at it: nothing is sent as long as the
  target stays there (`PiControl.StaleRate`; exactly when: `PiControl.Controller.Probe`,
  `PiControl.UnslewedIff`).

## Model

| member | source | states |
|---|---|---|
| Crc16.ComputeCrc | common/crc16.c:3-18 | The two nested loops over the buffer compute the CRC of the payload given as a fold over its bytes. |
| Crc16.AsNumbers | common/crc16.c:3-18 | The register starts at 0xffff, which is the CRC of nothing, the polynomial is 0x1021, and a byte goes in highest bit first. |
| Crc16.CrcIsSerial | common/crc16.c:3-18 | The byte-wise register equals a bit-serial division of the payload's bits, most significant first, from 0xffff. |
| Crc16.SameCrcIff | common/crc16.c:3-18 | Two payloads of equal length have the same CRC if and only if their difference, divided from an all-zero register, leaves zero. |
| Crc16.BurstDetected | common/crc16.c:3-18 | Payloads of any equal length that differ, and only within 16 consecutive bits, never have the same CRC. |
| Crc16.OddErrorsDetected | common/crc16.c:3-18 | Payloads of any equal length that differ in an odd number of bits never have the same CRC. |
| Resync.Resume | common/chunk_stream.c:69-143 | Parsing a stream, stopping anywhere and going on with what was left over finds the same frames, remainder and flagged headers as never stopping. |
| Resync.CutsDoNotMatter | common/chunk_stream.c:56-67 | However a stream is cut into pieces, parsing each as it comes finds the frames of the whole. |
| Resync.SkipDead | common/chunk_stream.c:35-52 | A run of offsets where no frame starts may be dropped at once without changing the parse. |
| Resync.GreedyIff | common/chunk_stream.c:73-142 | A list of offsets is leftmost, greedy, non-overlapping and complete up to a horizon if and only if it is the parser's, and the parser's frames are the stretches of the stream there. |
| Resync.GreedyIsUnique | common/chunk_stream.c:73-142 | That description of a parse leaves no choice of offsets or of horizon. |
| Resync.BoundedResync | common/chunk_stream.c:109-126 | With claims bounded by a limit, less than the limit stays undecided, and every frame that starts a limit before the end is found or covered by an earlier one, whatever came before it. |
| ChunkWire.DecodeAfterEncode | common/ar8030_chunk.h:134-153 | A chunk's 22-byte little-endian header and payload decode to the same fields and payload. |
| WireLayout.ChunkLayout | common/ar8030_chunk.h:134-153 | Every field of the chunk header is at its offset, as little-endian digits, behind the letters AFRM. |
| ChunkWire.ClassifyIsClassifier | common/chunk_stream.c:90-126 | Whether a valid chunk starts at an offset never changes with the bytes that come later, and a chunk is no longer than what is there. |
| ChunkWire.ClassifyIsBounded | common/chunk_stream.c:99-102 | With 65557 bytes it is always decided whether a chunk starts at the front. |
| ChunkWire.ClassifyEncoded | common/chunker.c:42-60 | What the sender builds is accepted as a chunk of exactly its length, whatever follows. |
| WireAccept.ChunkAcceptedIff | common/chunk_stream.c:90-126 | For all bytes: a chunk is accepted at the front if and only if an intact one, as a sender builds it, is there. |
| ChunkWire.ParseEncoded | common/chunker.c:34-63 | Chunks written one behind the other are parsed as exactly these, with nothing left over and no checksum failure. |
| Holes.HolesArePassedOver | common/chunk_stream.c:73-142 | For any mix of intact chunks and junk in which no chunk starts, and an undecided tail: exactly the intact chunks are found, in order, and the tail is kept. |
| Holes.CutShortNoneStarts | common/chunk_stream.c:109-126 | A chunk cut short anywhere in its payload is such junk, when the bytes behind it do not happen to fit its checksum and the rest of it holds no first byte of a magic. |
| ChunkStream.DeadBehindMagic | common/chunk_stream.c:121-125 | No chunk starts at the second, third or fourth byte of a magic, so dropping four bytes after a failed checksum skips nothing. |
| ChunkStream.Stream.ScanForMagic | common/chunk_stream.c:35-52 | No chunk starts in the bytes it calls junk; behind them is a magic, or at most three bytes that could begin one. |
| ChunkStream.Stream.Fill | common/chunk_stream.c:56-67 | Never called with a full buffer; what is read is appended and is the next of the link's bytes. |
| ChunkStream.Stream.DropJunk | common/chunk_stream.c:90-97 | The window is shifted to the next magic, the bytes dropped are counted, and the parse of the rest is unchanged. |
| ChunkStream.Stream.TakeFront | common/chunk_stream.c:99-138 | The outcome of one look at the front: more bytes needed, a failed checksum (exactly the magic dropped and counted), a payload too long for the caller, or a chunk handed out with its header and payload. |
| ChunkStream.Stream.Read | common/chunk_stream.c:69-143 | Returns 1 with the next chunk of the greedy parse, 0 only when everything the stream holds so far has been handed out (unless stopped), -1 only for a payload buffer that is too small. It terminates with measure 2 x unread + len, and bytes read = bytes_consumed + resync_dropped_bytes + len throughout. |
| ChunkStream.DrainedIsGreedy | common/chunk_stream.c:69-143 | Once the reader has run dry, what it returned are the stretches of the stream at the one leftmost, greedy and complete list of offsets, and its buffer holds the rest behind the horizon. |
| ChunkStream.NothingHeldBack | common/chunk_stream.c:109-126 | Every valid chunk that starts 65557 bytes before the end of what was read has been returned, unless an earlier returned chunk covers its start. |
| Chunker.ChunkRun | common/chunker.c:13-66 | Refuses exactly the sizes and indices the code refuses; otherwise the chunks sent are the first ones of the specified list, as many as the sender took. |
| Chunker.ChunkFrame | common/chunker.c:68-82 | A whole frame goes out as chunks 0.. with its total count, or is refused. |
| Chunker.ChunkPart | common/chunker.c:84-91 | A part goes out numbered on from first_idx, the last with FRAME_END and the real count, any other with SLICE_END on its last chunk (for which chunk that is, see WholeParts.SliceEndIff). |
| SentFrames.PayloadsAreDataIff | common/chunker.c:23-40 | The chunks carry all the bytes of the data, once and in order, if and only if the 32-bit sum of the lengths does not wrap. |
| SentFrames.CountIsLeast | common/chunker.c:23-26 | A frame takes the least number of chunks that hold its bytes, and one when it is empty. |
| SentFrames.SendableIsSent | common/chunker.c:13-33 | No frame or part whose chunk numbers fit 16 bits is refused, given a scratch buffer for one chunk. |
| SentFrames.WrappedPayloads | common/chunker.c:23-25 | When it wraps, a single chunk goes out and holds only the start of the data. |
| SentFrames.FrameIsNumbered | common/chunker.c:34-63 | A frame sent whole or in parts is a numbered run of intact chunks with one seq, pts and flags, the reserved field 0, the count and FRAME_END where the receiver expects them, and its payloads are the frame. |
| WholeParts.SliceEndIff | common/chunker.c:34-63 | For every frame and chunk: the slice mark is on the last chunk of each part but the last, and on no other; a frame sent whole has none. |
| Reassembly.Reassembler.FeedChunk | common/reassembly.c:35-101 | One chunk, on the buffer and fields in place, has exactly the outcome and new state of the specified step; the amount written never exceeds the buffer. |
| Reassembly.Reassembler.NewFrame | common/reassembly.c:38-64 | A chunk of another frame gives up an unfinished streamed one, then starts a frame if it is chunk 0 and is refused otherwise. |
| Reassembly.Reassembler.AppendPayload | common/reassembly.c:90-92 | The payload is put behind what the buffer holds; the index wraps at 16 bits. |
| Reassembly.Reassembler.NoteDroppedFrame | common/reassembly.c:26-33 | A frame is counted once for several bad chunks in a row. |
| Reassembly.Reassembler.ResetFrame | common/reassembly.c:13-19 | The frame in progress is forgotten; the counters stay. |
| Delivery.FrameRun | common/reassembly.c:35-101 | For any subset of one frame's chunks, in order: the frame comes out if and only if all arrive and fit, and the reassembler is left on that frame or on none. |
| Delivery.LostStaysLost | common/reassembly.c:45-52 | Once a chunk of a frame is missed, none of its later chunks completes anything. |
| Delivery.LossyDelivery | common/reassembly.c:35-101 | For any mix of whole and streamed frames and other traffic, with any chunks lost: exactly the frames all of whose chunks arrive and fit are completed, once each, in order, byte for byte, with their seq, pts and flags. |
| Delivery.RunCounts | common/reassembly.c:94-100 | completed_frames grows by exactly the frames that come out. |
| DropCount.DroppedIsExact | common/reassembly.c:21-33 | With each frame_seq used once, dropped_frames, with a streamed frame still open counted in, grows by exactly the frames that leave a mark: none twice, and no completed one. |
| DropCount.NoTollIff | common/reassembly.c:43-52 | A frame leaves no mark if and only if nothing of it arrived or all of it did, or, sent whole, it lost nothing but its tail. |
| DropCount.TailLossIsUncounted | common/reassembly.c:43-44 | For any frame sent whole in two chunks or more of which all but the last arrive, and any frame behind it that arrives whole: one frame is completed, the other lost, and dropped_frames is 0. |
| DropCount.TailToll | common/reassembly.c:43-52 | A frame that loses its last chunk only leaves no mark when sent whole and one when sent in parts. |
| DropCount.DistinctIsEnough | common/reassembly.c:38 | Frames with distinct frame_seq are always told apart by the reassembler. |
| Losses.CompletesAndCounts | rx/main.c:614-621 | In the receive loop the frames completed are those the reassembler alone completes, and frames_lost is the sum of the gaps between them, in 32 bits. |
| Losses.LostIff | rx/main.c:614-621 | With frames numbered one by one, the gaps never add up to more than the frames sent between the first and the last completed that were not completed, and to exactly these if and only if never 999 or more are lost in a row. |
| Losses.SeiCounts | rx/main.c:614-648 | The SEI of every completed frame is for its number and the time its last chunk came, and says how many frames the gaps up to that frame add up to, its own included, in 32 bits. |
| LostInARow.GapIsCounted | rx/main.c:614-621 | For every run of two delivered frames with k lost ones between them: frames_lost ends as k up to 998 but 0 from 999 on, and after a whole turn of the 16-bit number as what is left of the gap. |
| Losses.DeliveredPlaces | rx/main.c:614-621 | The frames delivered out of frames numbered one by one have increasing places in the run sent, which their 16-bit numbers tell. |
| AnnexB.FindStartCode | common/timing_sei.c:57-73 | Returns the first start code at or after an offset, and whether it has 3 or 4 bytes, or the length. |
| AnnexB.NextNal | rx/rtp_h265.c:78-119 | Returns the NAL behind the next start code up to the one after it, trailing zero left to that, and where to go on. |
| AnnexB.ScanForVcl | rx/rtp_h265.c:121-130 | True if and only if one of the NALs is a slice. |
| AnnexB.ScanByteStream | rx/rtp_h265.c:78-119 | NALs of any length, without a start code inside and with a last byte other than 0, behind start codes of either length: the scan finds exactly those ahead of the first empty one. |
| Rtp.CollectNals | rx/rtp_h265.c:144-158 | The table holds the NALs of the scan, the first 256 of them. |
| Rtp.Sender.SendPacket | rx/rtp_h265.c:53-74 | One packet with the 12-byte header, the next sequence number and the marker goes to the socket, whether it takes it or not; a payload too long for the buffer is refused and takes no number. |
| WireLayout.RtpLayout | rx/rtp_h265.c:37-51 | The RTP header is byte for byte that of section 5.1 of RFC 3550: version 2, payload type 96, the marker, then number, time and SSRC as big-endian digits. |
| WireLayout.FuLayout | rx/rtp_h265.c:173-193 | A fragment begins with the NAL header with type 49, then the start bit, the end bit and the type, as section 4.4.3 of RFC 7798 has it. |
| Rtp.Sender.SendFragments | rx/rtp_h265.c:173-193 | A NAL too long for one packet goes out as its fragments, numbered one by one. |
| Rtp.Sender.SendNals | rx/rtp_h265.c:137-207 | The packets sent are those of the specified items, numbered from the sender's sequence number modulo 2^16; the result is -1 without a NAL and otherwise how many the socket took. |
| RtpReceive.RtpRoundTrip | rx/rtp_h265.c:137-207 | For any byte stream of such NALs, of types below 48, with 3- or 4-byte start codes and any limit from 2 on: reading the packets by RFC 7798 gives back, of the first 256 NALs ahead of the first empty one, those of two bytes and more. |
| RtpReceive.AllComeBackIff | rx/rtp_h265.c:137-207 | All NALs come back if and only if there are at most 256 and each has at least two bytes. |
| RtpReceive.EmptyNalEndsAll | rx/rtp_h265.c:112-113 | For every NAL behind an empty one: no packet is sent and no slice seen by the RTP sender, while the SEI search takes the empty NAL for the first slice. |
| RtpReceive.RtpHeaders | rx/rtp_h265.c:37-74 | For any NALs: every packet has version 2, payload type 96, the next sequence number, the time and the SSRC; the marker is on the last packet, if the access unit ends and its last NAL is one that is sent, and on no other; from a limit of 4 on no payload is longer than it. |
| RtpReceive.MarkerIff | rx/rtp_h265.c:162-169 | Some packet carries the marker if and only if the access unit ends and its last NAL has at least two bytes. |
| RtpReceive.FragmentsAreLegal | rx/rtp_h265.c:181-193 | A fragmented NAL has at least two fragments, S on the first only and E on the last only, never both, none longer than the limit and all but the last exactly as long. |
| RtpReceive.OnePacketIff | rx/rtp_h265.c:161-193 | A NAL goes out in one packet, as it is, if and only if it is within the limit. |
| RtpReceive.LimitIsKeptIff | rx/rtp_h265.c:161 | The limit is kept for every NAL if and only if it is at least 4. |
| TimingSei.UnescapeEscaped | common/timing_sei.c:32-42 | Stripping emulation prevention undoes it, from any number of zeros before. |
| TimingSei.EscapedIsSafe | common/timing_sei.c:32-42 | Nowhere in what comes out, nor together with the zeros in front, do two zeros and a byte up to 2 follow each other. |
| TimingSei.EscapedIsShort | common/timing_sei.c:32-42 | At most one byte in three is added. |
| TimingSei.SeiIsSafe | common/timing_sei.c:11-44 | For every content the NAL fits TIMING_SEI_NAL_MAX bytes and holds no start code of its own. |
| TimingSei.BuildNal | common/timing_sei.c:11-44 | The output buffer holds a long start code, the NAL header and the escaped message, within TIMING_SEI_NAL_MAX bytes. |
| TimingSei.DecodeEncoded | common/timing_sei.h:36-46 | The packed structure reads back field by field. |
| WireLayout.TimingLayout | common/timing_sei.c:11-28 | The message is type 5 of size 48, the UUID, every field of timing_sei_v1 at its offset as little-endian digits, and the trailing bit. |
| SeiSearch.FindSlice | common/timing_sei.c:79-90 | Finds the start code of the first slice, or nothing. |
| FrameNals.SliceOfStream | common/timing_sei.c:75-92 | In a byte stream of clean NALs the place for the SEI is the start code of the first slice, or none. |
| SeiSearch.Insert | common/timing_sei.c:75-92 | With room and a slice the SEI is in front of the first slice and all other bytes are kept; otherwise nothing changes. |
| SeiSearch.ParseAccessUnit | common/timing_sei.c:94-133 | Returns the first of our messages in a prefix SEI ahead of the first slice or a suffix SEI behind one. |
| SeiRoundTrip.InsertThenParse | common/timing_sei.c:75-133 | In any buffer with a slice and no own SEI ahead of it, what is inserted is what is parsed, for every structure of version 1, and cutting the SEI out gives the buffer back. |
| SeiRoundTrip.SeiIsFound | common/timing_sei.c:94-133 | Among clean NALs, a prefix SEI ahead of the first slice and a suffix SEI behind a slice are found, unless one of ours came before. |
| SeiRoundTrip.OwnMessage | common/timing_sei.c:111-127 | Our own message is recognised with every field intact, exactly if it has our version. |
| Receiver.VideoReceiver.VideoChunk | rx/main.c:585-686 | One video chunk, through the reassembler in place, gives exactly the state and the calls of the specified step, and the packets on the socket are those of the calls; for the time of the packets see FrameNals.LoopFrameIsTimed. |
| Receiver.VideoReceiver.PassOnSlice | rx/main.c:594-612 | A complete slice of a streamed frame goes out from where the last one ended, without an end of access unit. |
| WholeParts.SlicesAreParts | rx/main.c:600-611 | With any first n chunks of a frame sent in parts in hand, its complete slices are exactly the parts that are whole in them, one by one, and never the last one. |
| WholeParts.WholePartsGoOut | rx/main.c:600-611 | What goes out of a frame that is not complete are its first whole parts, each with a call of its own, but for empty ones. |
| Receiver.VideoReceiver.CountLostFrames | rx/main.c:615-621 | A gap of 2 to 999 adds its missing frames to the 32-bit counter. |
| Receiver.VideoReceiver.BuildSei | rx/main.c:623-653 | The SEI carries the unwrapped capture time on the ground clock, and is a suffix SEI if and only if a slice has gone out; without an estimate there is none. |
| Receiver.VideoReceiver.SendWhole | rx/main.c:655-662 | A frame of which nothing has gone goes out in one call, with the SEI in front of its first slice if it fits. |
| Receiver.VideoReceiver.SendRemainder | rx/main.c:663-683 | Of a frame that has begun to go out, the SEI goes first and then the rest, with the end on the last of the two that are there. |
| Receiver.CallPacketsAppend | rx/rtp_h265.c:37-74 | Sequence numbers run on over calls. |
| Forwarding.ForwardingConserves | rx/main.c:585-686 | Over any run, with chunks lost, repeated or reordered: the calls of the RTP sender are those of the frames noted, frame by frame. Each frame noted is chunks 0..k-1 of one frame_seq that came one behind the other and fit the buffer. Every chunk has the count of the frame, or 0 for one still being encoded; what goes out early are its slices one by one. Completed: k is the last chunk's count, with FRAME_END on it if the frame was sent in parts, the calls hold every byte once and in order, and the SEI with the frame's number and capture time at its place, behind slices already sent exactly if it is due; some call is given the end of the access unit, and that is the last, if and only if not every byte had gone out with a slice before the last chunk with no SEI due (for the marker on the wire see FrameMarker.FrameMarkerIff). Not completed: the whole slices so far, and no end. |
| Forwarding.TakenIff | rx/main.c:586-589 | The loop's test for a chunk having been taken holds if and only if the reassembler accepted it. |
| Forwarding.GoesOn | rx/main.c:600-611 | A chunk that leaves its frame incomplete keeps the account of what has gone out, to the last whole slice. |
| Forwarding.GoesOut | rx/main.c:655-683 | A chunk that completes its frame sends exactly what had not gone, and the end unless nothing is left and no SEI is due. |
| Forwarding.EndIff | rx/main.c:655-683 | The final calls carry an end of the access unit if and only if something is left to send or there is an SEI. |
| FrameMarker.FrameMarkerIff | rx/main.c:655-683 | For every completed frame: some packet of it carries the marker if and only if its calls have an end of the access unit and the last NAL of its last call has at least two bytes; and that is the frame's last packet. |
| FrameMarker.EndCanBeLost | rx/main.c:667-683 | For the chunks that the sender makes of every frame of one slice and an empty last part: the frame completes, all of it has gone out, and an end goes out if and only if an SEI is due. |
| FrameMarker.MarkerCanBeLost | rx/main.c:675-683 | For the chunks of every frame of one slice and a last part of the one byte 0: the frame completes with an end, and no packet of it carries the marker, SEI or not. |
| FrameNals.FrameArrives | rx/main.c:585-686 | For every completed frame of whole NALs, sent in one go or slice by slice, and any limit from 2 on: reading its packets by RFC 7798 gives exactly its NALs in order, and the SEI, if one went out, among them, ahead of every slice as a prefix or behind one as a suffix. Unless the frame is empty, its last packet and no other is marked if its calls have an end, and none if not. Every packet's time is the frame's capture time on a clock of 90 kHz, rounded down. |
| FrameNals.LoopFrameArrives | rx/main.c:567-686 | Over a whole run of the receive loop: the packets of every such frame lie together among those given to the socket, and give this. |
| FrameNals.LoopFrameIsTimed | rx/main.c:593 | Over a whole run of the receive loop, for every frame, completed or not: its packets lie together among those given to the socket, and their time is the frame's capture time on a clock of 90 kHz, rounded down. |
| SentNals.SentFrameArrives | rx/main.c:585-686 | For every frame whose parts, as the encoder gave them, are byte streams of whole NALs, once completed: a receiver gets exactly these NALs with the SEI, the marker and the time, whatever calls they went out with. |
| Reception.FrameIsReceived | rx/main.c:567-686 | From the encoder to a receiver, over a wire with lost chunks and junk: every frame that a receive loop completes is one that was sent, chunk for chunk, and its packets on the socket give a receiver exactly its NALs. |
| ReceiveLoop.Loop.Turn | rx/main.c:567-686 | One turn returns 1 if and only if a chunk was handed out. The reply in a control chunk, if there is one, is taken, and none from any other chunk; a video chunk, and only that, goes to the receiver, noted with the time that the clock shows in this turn. Over a run, the replies taken are those of the control chunks handed out, in order, and all chunks, replies, calls and packets so far agree with the stream read so far, the clock with the replies, and each frame's time with the replies before it. |
| FrameTiming.StampIsTrue | rx/main.c:628-648 | With honest replies in the window and a frame younger than half a wrap less the uncertainty, the capture time in the timing of the frame, whatever it counts as lost, is within the uncertainty next to it, at most 125 ms, and 1 us of the truth on the ground clock. |
| FrameTiming.RunIsStamped | rx/main.c:623-683 | Over a whole run of the receive loop: every SEI sent with a completed frame carries version 1, the flags, the frame's number, the time its last chunk came, the encode time and the uncertainty, and a capture time that is true in this sense, if the window was honest and the frame young enough when its last chunk came. |
| FrameTiming.WholeFrameIsStamped | rx/main.c:655-662 | A frame sent in one go is one call that ends the access unit, with the SEI inside if and only if it has a slice and room; the parser then finds that timing in what goes out, unless one of ours came ahead of the first slice. |
| FrameTiming.StreamedFrameIsStamped | rx/main.c:663-683 | Of a frame passed on slice by slice in whole NALs, what had gone, as the run has it, and what goes out at its end together are an access unit in which the parser finds the timing, unless one of ours was among what had gone; its end is on the last call. |
| EndToEnd.Delivers | rx/main.c:567-686 | From frames sent, over a wire with any chunks lost whole or cut short to junk in which no chunk starts, through the parser, the reassembler and the receive loop, as long as frames next to each other differ in frame_seq: exactly the intact frames are completed and forwarded, and frames_lost is the sum of the gaps between them. |
| EndToEnd.EndToEnd | rx/main.c:567-686 | With each frame_seq used once: delivery over the same wires as in the row above, and dropped_frames has its exact value. |
| EndToEnd.FramesLost | rx/main.c:614-621 | With frames numbered one by one, frames_lost at the end of such a run is at most the frames truly lost between the first and the last delivered, and exactly these if and only if never 999 or more are lost in a row. |
| EndToEnd.DrainedLoop | rx/main.c:567-686 | The same of the program: a receive loop that has read such a wire, holes and all, to its end is in exactly that state, and the packets on its socket are those of exactly these calls. |
| ClockSync.Sync.ReplyArrived | rx/clock_sync.c:35-84 | On the ring buffer, for all 64-bit times for which the C arithmetic is defined, a reply is ignored, dropped as stale, or taken into the window of the latest sixteen, emptied first when an offset cannot be explained. |
| ClockSync.RepliesCounted | rx/clock_sync.c:35-84 | Each plausible reply is counted once, as taken or as stale, and no more are in the window than were taken. |
| ClockSync.DifferencesFit | rx/clock_sync.c:66-70 | When the offsets can be computed, so can the difference of any two and its negation. |
| ClockSync.Sync.FindJump | rx/clock_sync.c:66-76 | Finds a jump if and only if the new offset is further from some sample of the window than the two round trips and 5 ms. |
| ClockSync.Sync.Put | rx/clock_sync.c:77-81 | The sample is the newest of the window, and the oldest goes when there are sixteen. |
| ClockSync.Sync.Get | rx/clock_sync.c:86-102 | Reports the offset of a sample with the shortest round trip in the window, and half of that, if there is a sample. |
| ClockBounds.WindowIsLive | rx/clock_sync.c:35-84 | After any replies at all, the window holds replies in the order they came, each with a round trip up to 250 ms and sent no earlier than every late reply had arrived by then, the newest such reply included. |
| ClockBounds.NeverReset | rx/clock_sync.c:66-81 | With a constant air clock the window is the latest sixteen replies worth keeping: no run of honest replies empties it. |
| ClockBounds.JumpIsSeen | rx/clock_sync.c:66-81 | Whatever came before: when the air clock jumps by more than 1.5 times the round trips of the new and of some honest sample in the window and 5001 us, the first reply kept leaves only itself, and from then on the window is the latest replies since. |
| ClockBounds.SampleError | rx/clock_sync.c:39-42 | An honest sample's offset is off by half its round trip at most, rounded up. |
| ClockBounds.RoundingCounts | rx/clock_sync.c:42 | The error can be one more than half the round trip rounded down. |
| ClockBounds.UncertaintyIff | rx/clock_sync.c:42 | Half the round trip as reported is a bound for a sample's error if and only if the round trip is even (or a signed clock reading went over into the negative during the exchange). |
| ClockBounds.EstimateUncertaintyIff | rx/clock_sync.c:86-102 | For the estimate, with the whole window to judge by: if and only if the round trip it comes from is even, or another sample rules out the one offset that breaks it. |
| ClockBounds.EstimateError | rx/clock_sync.c:86-102 | The offset reported is within the reported uncertainty and 1 us of the truth, and the uncertainty is the least in the window, at most 125 ms. |
| ClockBounds.UnwrapIff | rx/main.c:310-318 | The capture time is recovered from its low 32 bits if and only if it is within 2^31 us of the air clock's reading, or at exactly 2^31 in the same 2^32, or ahead in the first 2^32. |
| ClockBounds.CaptureTime | rx/main.c:628-630 | With honest replies in the window and a frame younger than half a wrap less the uncertainty, the air's capture time is recovered exactly and the ground's is within the uncertainty and 1 us. |
| NetWire.ComputeXor | kmod/artosyn_net.c:145-152 | The loop computes the check byte over the bytes. |
| NetWire.CheckByteBits | kmod/artosyn_net.c:145-152 | Each bit of the check byte is 1 plus the number of bytes that have it, modulo 2. |
| NetWire.OneByteDetected | kmod/artosyn_net.c:145-152 | A header with any one byte changed never has the same check byte. |
| NetWire.DgramAtIsClassifier | kmod/artosyn_net.c:357-383 | Whether a datagram starts at an offset never changes with later bytes. |
| NetWire.DgramAtEncoded | kmod/artosyn_net.c:239-243 | What the send path builds for a packet of up to 8192 bytes is accepted as a datagram of that length, and holds the packet. |
| WireLayout.DgramLayout | kmod/artosyn_net.c:239-243 | A datagram has 0xab, the length, the check byte, the packet and 0xbc at their offsets. |
| WireAccept.DgramAcceptedIff | kmod/artosyn_net.c:357-383 | For all bytes: a datagram is accepted at the front if and only if one of a packet up to 8192 bytes, as a sender builds it, is there. |
| NetWire.DgramsBack | kmod/artosyn_net.c:345-388 | Packets written one behind the other are parsed as exactly these, with nothing left over. |
| NetWire.DecodeEncodedRpc | kmod/artosyn_net.c:159-168 | An RPC frame's request, message id, status and data read back. |
| WireLayout.RpcLayout | kmod/artosyn_net.c:159-168 | An RPC frame has 0xaa, the length, the big-endian request id, message id and status, the check byte, the data and 0xbb at their offsets. |
| NetWire.RpcAtEncoded | kmod/artosyn_net.c:486-495 | An RPC frame anywhere in a transfer passes the checks with its length. |
| WireAccept.RpcAcceptedIff | kmod/artosyn_net.c:486-495 | For all bytes and offsets: an RPC frame is accepted if and only if one, as a sender builds it, is there. |
| NetStream.Unpacker.RxStream | kmod/artosyn_net.c:345-388 | With each payload, all datagrams the stream holds so far have been delivered, in order and once; fewer than 8199 bytes stay buffered, so a payload of up to 57338 bytes never makes it discard anything; else the buffer starts over with the payload, or empty when that alone is too long. rx_dgram_errors grows by one for each turn of the scan that finds none, and for each discard. |
| NetStream.CleanHasNoErrors | kmod/artosyn_net.c:357-384 | Packets and nothing else between them count no errors. |
| NetStream.Unpacker.Scan | kmod/artosyn_net.c:357-384 | The loop delivers what it finds and stops only where nothing more can be decided. |
| NetStream.Device.Deliver | kmod/artosyn_net.c:311-338 | A packet without a whole Ethernet header counts as too short; any other is passed up if a buffer can be had for it, and dropped if not. With no lack of buffers all with an Ethernet header are passed up. |
| NetStream.DgramsAreGreedy | kmod/artosyn_net.c:340-344 | The datagrams delivered are the stretches at the one leftmost, greedy and complete list of offsets, with less than the longest datagram undecided. |
| NetDemux.Net.Rx | kmod/artosyn_net.c:458-527 | Every frame for the device in the transfer is handled once and in order, and the transfer is passed on without them; nothing is passed on if and only if frames were taken and no frame start is left; without a buffer or without such frames it is passed on as it is and nothing is handled. rx_unparsed and rx_truncated count why the scan stopped. |
| NetDemux.StopHereMeans | kmod/artosyn_net.c:468-495 | Where the scan of a transfer stops, it is in silence at the end or at what does not begin a frame, as cut short where a head claims more than is there, and as broken otherwise. |
| NetDemux.Partition | kmod/artosyn_net.c:497-526 | The transfer is the device's frames set into what is passed on, byte for byte. |
| NetDemux.OthersAreFound | kmod/artosyn_net.c:468-514 | A scan of what is passed on by the same rules finds exactly the frames for others. |
| NetDemux.Net.RxFrame | kmod/artosyn_net.c:434-456 | Read data goes to the stream, write answers move the position, and with payloads up to 57338 bytes the stream is all data read since the start. |
| NetDemux.Net.WriteAck | kmod/artosyn_net.c:390-432 | The position follows the chip's for a pending or wanted answer and is kept for any other; each answer is counted once, in the counter for its status. Which bytes the position is: NetPosition.NextWriteIsThere. |
| NetPosition.NextWriteIsThere | kmod/artosyn_net.c:407-431 | Whatever the chip has answered, the next write stands, byte for byte, at the position it named last: the first eight bytes of an answer -0x107, the next eight of an answer -0x108; or else where the writes had got to. |
| NetDemux.ReqIdParts | kmod/artosyn_net.c:154-157 | A request id gives back its operation and is for its slot and port. |
| WireLayout.ReqIdLayout | kmod/artosyn_net.c:154-157 | The request id is the digits 4, operation, slot and port. |
| NetSend.Sdio.WriteChunk | kmod/artosyn_sdio.c:361-446 | At most one transfer, of exactly as much as MostIsMost says; an error if and only if the wait or the transfer fails. |
| NetSend.MostIsMost | kmod/artosyn_sdio.c:425-431 | That is the longest front of the data that is within the room and that the core takes as it is: one block at most, or whole blocks. |
| NetSend.Sdio.WriteAll | kmod/artosyn_sdio.c:464-482 | On success the transfers are the whole buffer in order; on failure a proper front of it, and some wait failed or there were too few. |
| NetSend.Sender.BuildFrame | kmod/artosyn_net.c:224-247 | The stage buffer holds the RPC frame of a write at the current position, which moves on by the datagram's length, and the message id by one. |
| NetSend.Sender.Pad | kmod/artosyn_net.c:185-195 | The frame is kept, and zeros follow it up to whole blocks when it is longer than one block and there is room, else none. |
| NetSend.Sender.Work | kmod/artosyn_net.c:249-290 | Every packet that fits the stage buffer is framed, padded as above and written, any other dropped; with no write failed the chip has got exactly the padded frames, and no write fails as long as no wait does. |
| NetLoopback.Loopback | kmod/artosyn_net.c:159-247 | For packets of up to 8192 bytes and any padding: the frame scan finds exactly the frames, addressed to the socket; their data behind the positions is read back as exactly the packets; each position is the number of stream bytes before it. |
| Waybeam.ApplyCut | tx/bitrate_ctl.c:266-287 | At most five requests, rising half way each time from the rate wanted and all below the current rate; a rate accepted lies between the two and is what was applied; the floor never falls, tells every refusal, and never exceeds waybeam's if that divides by no less than assumed; refused to the end only after five tries or within 32 kbps of the current rate. |
| Waybeam.LearnedIsSound | tx/bitrate_ctl.c:253-258 | A floor learned from a refusal is at most waybeam's, if waybeam divides by at least what the rate was multiplied by. |
| Waybeam.SoundIff | tx/bitrate_ctl.c:253-277 | Every refusal teaches a floor of at most waybeam's, for all rates and floors, if and only if waybeam divides by no less than the controller thinks. |
| Waybeam.CutBehindRestart | tx/bitrate_ctl.c:266-287 | A cut made right behind a restart of waybeam, with the divisor of before, ends with a floor above waybeam's. |
| Waybeam.FifthTry | tx/bitrate_ctl.c:284 | Five tries close in on the current rate by a factor of sixteen. |
| PiControl.Controller.Tick | tx/bitrate_ctl.c:865-1097 | One turn keeps all that is said of a run: the probe if one is due; then, once the capacity is known, the disturbances, the gain, the stage and the rate of the control law, and requests for exactly that stage and rate, or in a cut for more but less than before. The divisor stays, doubles, or halves, the last only after every turn for fps_recovery_ms wanted 1.25 times the next stage's floor; at most one rate is accepted; waybeam stays at the rate taken to be applied unless a probe succeeds while a rate other than the floor is. |
| PiControl.Controller.Probe | tx/bitrate_ctl.c:885-900 | waybeam is no longer at the rate taken to be applied if and only if the probe succeeds while a rate other than the floor, which is not 0, is. |
| PiControl.StaleRate | tx/bitrate_ctl.c:885-1096 | A run in which that happens: for however many turns, the controller takes 4000 kbps to be applied and asks for nothing, while waybeam is at 512. |
| PiControl.UnslewedIff | tx/bitrate_ctl.c:1037-1047 | The slew limit leaves every target as it is if and only if no rate is taken to be applied, or the limit or the floor is at the maximum anyway. |
| PiControl.Controller.Integrate | tx/bitrate_ctl.c:982-1014 | The integrator and the gain are those of the specified step, within pi_k_min over the largest divisor and pi_k_max. |
| PiControl.PiLaw | tx/bitrate_ctl.c:982-1014 | Where no bound is in reach, the integrator moves by its gain times the error times the time, faster while it climbs back in quiet, and the gain in force is off it by the proportional gain times the error; beyond a bound it is at the bound. |
| PiControl.GainHolds | tx/bitrate_ctl.c:984-1003 | Without a disturbance the integrator stays as it is while a long delay finds the rate at the floor of the last stage, or a short one below nine tenths of what the gain asks for. |
| PiControl.NoWindup | tx/bitrate_ctl.c:987-1003 | A long delay never raises the integrator and a short one never lowers it; it does not wind up while the ceiling or the slew limit holds the rate, nor down at the last stage's floor. |
| PiControl.Controller.Disturb | tx/bitrate_ctl.c:943-976 | A severe, mild or backlog disturbance sets the integrator and the times as specified, and is a reason for a cut exactly when it counts. |
| PiControl.DisturbanceLowers | tx/bitrate_ctl.c:943-976 | No disturbance raises the integrator: a severe one leaves it at pi_severe_k at most, a mild one takes its share off it, a backlog leaves a share of the gain in force at most. |
| PiControl.Controller.ChooseStage | tx/bitrate_ctl.c:1018-1035 | The stage asked for: one down only below the floor in force, one up only after the target has wanted it long enough; always a power of two within the maximum. |
| PiControl.StageMoves | tx/bitrate_ctl.c:1018-1035 | The stage goes down if and only if less than its floor is wanted and there is one below, and up if and only if 1.25 times the next floor is, and has been for fps_recovery_ms. |
| PiControl.LimitedIsOk | tx/bitrate_ctl.c:982-1048 | The rate worked out is the capacity times the margin times the gain, rounded down, unless the slew limit, the floor of its stage or the maximum holds it, and then exactly that; so it is never above the capacity times the margin times pi_k_max, nor the slew limit, unless on the floor. |
| PiControl.Controller.SendStage | tx/bitrate_ctl.c:1049-1071 | One request names the stage and its rate; when waybeam takes it the controller is at both and the rate keeps its bounds, else at neither, and a refusal teaches a sound floor. |
| PiControl.Controller.SendRate | tx/bitrate_ctl.c:1072-1096 | Nothing is asked if and only if the change is too small; a cut ends between the rate wanted and the one before; every accepted rate is the one waybeam is at and keeps the bounds with the floor it was worked out from. |
| PiControl.Controller.TooSmallIff | tx/bitrate_ctl.c:1072-1079 | A change is not sent if and only if a rate is applied and it is none, a rise under 5 % within a second of the last change, or a cut under 3 % without a disturbance. |
| PiControl.RunPi | tx/bitrate_ctl.c:841-1099 | For every run: every request is for the stage and rate that some turn worked out from the capacity, the margin and the gain within its limits, or in a cut for a rate between that and the one before, or puts waybeam at the floor; each accepted rate is no lower than the floor of its stage as known then, or at the maximum, and rises no faster than the slew limit unless onto the floor; the learned floor lies between min_kbps and the larger of it and waybeam's own. |

## Left out

- Threads, mutexes, interrupts and wait queues: each function is one atomic step.
- Sockets, HTTP, SDIO registers, the radio's SDK, clocks and files: lists of answers, see above.
- ReceiveLoop.Loop.Turn: is given the reply a control message holds, if any; the text of SYNC and SYNCR messages (`rx/main.c:323-336`) is not modelled, nor that of the HTTP requests. Audio chunks and chunks of any other codec are dropped, and sidecar chunks go to a server that is not part of this model.
- `clock_sync_due()` (`rx/clock_sync.c:19-33`): when probes are sent.
- The initial RTP sequence number and SSRC (`rx/rtp_h265.c:17-35`): parameters.
- Statistics and logs, `air_latency` in `rx/main.c`, and `pi_focus()` in `tx/bitrate_ctl.c:804-828`.
- PiControl.Controller.Tick: is over the reals, without floating-point rounding. How a disturbance is told from the LDPC ratio, RETX events and ring backlog, and when the capacity is polled (`tx/bitrate_ctl.c:910-981`), are inputs of a turn.
- `run_rules()` in `tx/bitrate_ctl.c`: its floor logic is that of `apply_cut()`.
- Opening and closing the network socket, and its control frames (`kmod/artosyn_net.c:197-216`, `kmod/artosyn_net.c:531-620`).
- EndToEnd.Delivers: is about chunks lost, whole or in part, with the others intact; a bit error that the CRC does not catch is not modelled, nor junk in which something looks like a chunk. Streams of any bytes at all are covered by the results on `ChunkStream.Stream.Read`.
- SentNals.SentFrameArrives: asks that the encoder's slices are whole NALs, at most 255 in each; no code of the repository ensures that.
- Forwarding.ForwardingConserves: asks for chunk indices below 65535, which is all the chunker sends (`common/chunker.c:26`); behind a chunk 65535 the 16-bit index starts over at 0.
- `lifecycled/`, `linkctl/`, `still/`, audio, and the queue in `tx/outq.c`: process control, I/O and small members that would add only easy results.
