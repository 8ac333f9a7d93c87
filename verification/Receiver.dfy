/** The receive loop of rx/main.c: from chunks to the calls of the RTP sender. */
module Receiver {
  import opened Bytes
  import opened ChunkWire
  import opened Reassembly
  import opened AnnexB
  import opened TimingSei
  import opened SeiSearch
  import ClockSync
  import ClockBounds
  import Rtp

  /** The ground clock when a frame was complete, what it knows of the air's, and the sidecar's average. */
  datatype Clock = Clock(rxDoneUs: u64, mapping: Option<Mapping>, encodeUs: u32)

  datatype Mapping = Mapping(offsetUs: int, uncertaintyUs: u32)

  /**
   One call of rtp_h265_send_nals(). part are bytes of the frame; sei is what was put into
   them at offset at.
   */
  datatype Call = Call(part: seq<byte>, at: nat, sei: seq<byte>, ts: u32, auEnd: bool)

  function BytesOf(c: Call): seq<byte> {
    if c.at <= |c.part| then Inserted(c.part, c.at, c.sei) else c.part
  }

  /** The reassembler, how much of its frame has gone out, and whether that held a slice. */
  datatype RxState = RxState(reasm: State, fwdOff: nat, fwdVcl: bool, last: Option<u16>, framesLost: u32)

  const RX_INITIAL: RxState := RxState(INITIAL, 0, false, None, 0)

  predicate RxValid(rx: RxState) {
    rx.reasm.active ==> rx.fwdOff <= |rx.reasm.data|
  }

  /** The 90 kHz clock of RTP. */
  function Ts(pts: u32): u32 { pts * 90 / 1000 }

  /** The reassembler took the chunk: a refused one resets it. */
  predicate Taken(st: State, h: Hdr) {
    st.active && st.frameSeq == h.frameSeq && st.nextIdx == (h.chunkIdx as int + 1) % 0x1_0000
  }

  /** Behind ar8030_reassembly_feed(). */
  function Fed(rx: RxState, st: State, h: Hdr): RxState {
    if Taken(st, h) && h.chunkIdx == 0 then rx.(reasm := st, fwdOff := 0, fwdVcl := false)
    else rx.(reasm := st)
  }

  /** A slice of a streamed frame is complete: what has not gone yet is passed on. */
  predicate PassesOn(rx: RxState, h: Hdr) {
    && Taken(rx.reasm, h) && rx.reasm.chunkCount == 0 && HasSliceEnd(h.flags)
    && |rx.reasm.data| > rx.fwdOff
  }

  ghost function PassOn(rx: RxState, h: Hdr): (RxState, seq<Call>) {
    if PassesOn(rx, h) then
      var part := rx.reasm.data[rx.fwdOff..];
      (rx.(fwdOff := |rx.reasm.data|, fwdVcl := rx.fwdVcl || HasVcl(part)),
       [Call(part, 0, [], Ts(rx.reasm.framePts), false)])
    else (rx, [])
  }

  /** How many frames are missing between two that were completed; a larger jump is a restart. */
  function Missing(last: Option<u16>, frameSeq: u16): nat {
    if last == None then 0
    else
      var gap := (frameSeq as int - last.value as int) % 0x1_0000;
      if 1 < gap < 1000 then gap - 1 else 0
  }

  function CountLost(rx: RxState): RxState {
    rx.(last := Some(rx.reasm.frameSeq),
        framesLost := (rx.framesLost as int + Missing(rx.last, rx.reasm.frameSeq)) % 0x1_0000_0000)
  }

  /** The capture time on the ground clock. */
  function CaptureOf(framePts: u32, t: Clock): u64
    requires t.mapping.Some?
  {
    var offset := t.mapping.value.offsetUs;
    var air := ClockBounds.UnwrapAirPts(framePts, ClockBounds.Wrapped(t.rxDoneUs as int + offset));
    ClockBounds.Wrapped(air as int - offset)
  }

  /** The timing of a frame with this number and time of capture. */
  function Stamp(frameSeq: u16, framePts: u32, t: Clock, framesLost: u32): Timing
    requires t.mapping.Some?
  {
    Timing(VERSION, if t.encodeUs != 0 then 3 else 1, frameSeq, CaptureOf(framePts, t),
           t.rxDoneUs, t.mapping.value.uncertaintyUs, t.encodeUs, framesLost)
  }

  /**
   What such a timing tells besides the time of capture: version 1; flag 1 that the times are on the
   ground clock and flag 2 that the encode time is known; and when the frame was complete.
   */
  predicate Tells(stamp: Timing, frameSeq: u16, t: Clock, framesLost: u32) {
    && t.mapping.Some? && stamp.version == 1 && stamp.flags == 1 + 2 * One(t.encodeUs != 0)
    && stamp.frameSeq == frameSeq && stamp.rxDoneGroundUs == t.rxDoneUs && stamp.encodeUs == t.encodeUs
    && stamp.syncUncertaintyUs == t.mapping.value.uncertaintyUs && stamp.framesLost == framesLost
  }

  lemma StampTells(frameSeq: u16, framePts: u32, t: Clock, framesLost: u32)
    requires t.mapping.Some?
    ensures Tells(Stamp(frameSeq, framePts, t, framesLost), frameSeq, t, framesLost)
  {
    hide CaptureOf;
  }

  function TimingOf(rx: RxState, t: Clock): Timing
    requires t.mapping.Some?
  {
    Stamp(rx.reasm.frameSeq, rx.reasm.framePts, t, rx.framesLost)
  }

  /** A prefix SEI goes ahead of the first slice; behind one that has gone out, a suffix SEI. */
  function SeiType(vcl: bool): byte { if vcl then SUFFIX_SEI else PREFIX_SEI }

  function SeiFor(rx: RxState, wantSei: bool, t: Clock): seq<byte> {
    if wantSei && t.mapping.Some? then Sei(TimingOf(rx, t), SeiType(rx.fwdVcl)) else []
  }

  /** What goes out when the frame is complete. */
  function LastCalls(rx: RxState, cap: nat, sei: seq<byte>): seq<Call>
    requires rx.fwdOff <= |rx.reasm.data|
  {
    var data, ts := rx.reasm.data, Ts(rx.reasm.framePts);
    if rx.fwdOff == 0 then
      if sei != [] && |data| + |sei| <= cap && SlicePos(data).Some?
      then [Call(data, SlicePos(data).value, sei, ts, true)]
      else [Call(data, 0, [], ts, true)]
    else
      var rest := data[rx.fwdOff..];
      (if sei != [] then [Call([], 0, sei, ts, rest == [])] else [])
      + (if rest != [] then [Call(rest, 0, [], ts, true)] else [])
  }

  function Finished(rx: RxState): RxState {
    rx.(reasm := Reset(rx.reasm), fwdOff := 0, fwdVcl := false)
  }

  /** One video chunk. */
  ghost function Receive(rx: RxState, cap: nat, wantSei: bool, c: Chunk, t: Clock): (r: (RxState, seq<Call>))
    requires RxValid(rx)
    ensures RxValid(r.0)
  {
    FeedKeeps(rx, cap, c);
    var (st, complete) := Feed(rx.reasm, cap, c.hdr, c.payload);
    var fed := Fed(rx, st, c.hdr);
    if !complete then PassOn(fed, c.hdr)
    else (Finished(CountLost(fed)), LastCalls(CountLost(fed), cap, SeiFor(CountLost(fed), wantSei, t)))
  }

  lemma FeedKeeps(rx: RxState, cap: nat, c: Chunk)
    requires RxValid(rx)
    ensures var (st, complete) := Feed(rx.reasm, cap, c.hdr, c.payload);
      && RxValid(Fed(rx, st, c.hdr))
      && (complete ==> Taken(st, c.hdr))
  {
  }

  /** The packets for a list of calls, numbered from seqNo on. */
  function CallItems(c: Call, maxPayload: nat): seq<Rtp.Item> {
    Rtp.Items(Rtp.FirstNals(BytesOf(c)), maxPayload, c.auEnd)
  }

  function CallPackets(seqNo: u16, ssrc: u32, maxPayload: nat, calls: seq<Call>): seq<seq<byte>>
    decreases |calls|
  {
    if calls == [] then []
    else
      var items := CallItems(calls[0], maxPayload);
      Rtp.Packets(seqNo, calls[0].ts, ssrc, items)
      + CallPackets(Rtp.NextSeq(seqNo, |items|), ssrc, maxPayload, calls[1..])
  }

  /** The numbers go on from one list of calls to the next. */
  lemma {:induction false} CallPacketsAppend(seqNo: u16, ssrc: u32, maxPayload: nat, a: seq<Call>, b: seq<Call>)
    ensures CallPackets(seqNo, ssrc, maxPayload, a + b)
            == CallPackets(seqNo, ssrc, maxPayload, a)
               + CallPackets(Rtp.NextSeq(seqNo, |CallPackets(seqNo, ssrc, maxPayload, a)|), ssrc, maxPayload, b)
    ensures Rtp.NextSeq(Rtp.NextSeq(seqNo, |CallPackets(seqNo, ssrc, maxPayload, a)|),
                        |CallPackets(Rtp.NextSeq(seqNo, |CallPackets(seqNo, ssrc, maxPayload, a)|), ssrc, maxPayload,
                                     b)|)
            == Rtp.NextSeq(seqNo, |CallPackets(seqNo, ssrc, maxPayload, a + b)|)
    decreases |a|
  {
    hide CallItems, Rtp.NextSeq, Rtp.Packet;
    var n := |CallPackets(seqNo, ssrc, maxPayload, a)|;
    if a == [] {
      assert a + b == b;
      Rtp.NextSeqAdds(seqNo, 0, 0);
      SameSeq(seqNo);
    } else {
      assert (a + b)[0] == a[0] && (a + b)[1..] == a[1..] + b;
      var k := |CallItems(a[0], maxPayload)|;
      var next := Rtp.NextSeq(seqNo, k);
      CallPacketsAppend(next, ssrc, maxPayload, a[1..], b);
      Rtp.NextSeqAdds(seqNo, k, |CallPackets(next, ssrc, maxPayload, a[1..])|);
    }
    Rtp.NextSeqAdds(seqNo, n, |CallPackets(Rtp.NextSeq(seqNo, n), ssrc, maxPayload, b)|);
  }

  lemma SameSeq(seqNo: u16)
    ensures Rtp.NextSeq(seqNo, 0) == seqNo
  {
  }

  lemma CallPacketsNone(seqNo: u16, ssrc: u32, maxPayload: nat)
    ensures CallPackets(seqNo, ssrc, maxPayload, []) == []
    ensures Rtp.NextSeq(seqNo, 0) == seqNo
  {
  }

  lemma CallPacketsOne(seqNo: u16, ssrc: u32, maxPayload: nat, c: Call)
    ensures CallPackets(seqNo, ssrc, maxPayload, [c])
            == Rtp.Packets(seqNo, c.ts, ssrc, CallItems(c, maxPayload))
  {
    assert [c][1..] == [];
    CallPacketsNone(Rtp.NextSeq(seqNo, |CallItems(c, maxPayload)|), ssrc, maxPayload);
  }

  class VideoReceiver {
    const reasm: Reassembler
    const rtp: Rtp.Sender
    const sync: ClockSync.Sync
    const wantSei: bool
    var fwdOff: nat
    var fwdVcl: bool
    var lastFrameSeq: u16
    var haveLastFrameSeq: bool
    var framesLost: u32
    var rtpPacketsSent: nat
    var rtpBytesSent: nat

    ghost predicate Valid()
      reads this, reasm, reasm.buf, sync, sync.samples
    {
      reasm.Valid() && rtp.Valid() && sync.Valid() && RxValid(Abs())
    }

    ghost function Abs(): RxState
      reads this, reasm, reasm.buf
      requires reasm.writeOff <= reasm.buf.Length
    {
      RxState(reasm.Abs(), fwdOff, fwdVcl, if haveLastFrameSeq then Some(lastFrameSeq) else None, framesLost)
    }

    constructor (reasm: Reassembler, rtp: Rtp.Sender, sync: ClockSync.Sync, wantSei: bool)
      requires reasm.Valid() && rtp.Valid() && sync.Valid() && reasm.Abs() == INITIAL
      ensures Valid() && Abs() == RX_INITIAL && this.wantSei == wantSei
      ensures this.reasm == reasm && this.rtp == rtp && this.sync == sync
    {
      this.reasm, this.rtp, this.sync, this.wantSei := reasm, rtp, sync, wantSei;
      fwdOff, fwdVcl, lastFrameSeq, haveLastFrameSeq, framesLost := 0, false, 0, false, 0;
      rtpPacketsSent, rtpBytesSent := 0, 0;
    }

    /** Since the socket had these packets, those of the calls have gone out, numbered from seq0 on. */
    ghost predicate SentSince(packets: seq<seq<byte>>, seq0: u16, calls: seq<Call>)
      reads rtp, rtp.socket
    {
      && rtp.socket.packets == packets + CallPackets(seq0, rtp.ssrc, rtp.maxPayload, calls)
      && rtp.seqNo == Rtp.NextSeq(seq0, |CallPackets(seq0, rtp.ssrc, rtp.maxPayload, calls)|)
    }

    /** One call of rtp_h265_send_nals(), with its statistics. */
    method SendNals(bytes: seq<byte>, auEnd: bool, ghost c: Call)
      requires rtp.Valid() && BytesOf(c) == bytes && c.auEnd == auEnd && c.ts == Ts(reasm.framePts)
      modifies this`rtpPacketsSent, this`rtpBytesSent, rtp`seqNo, rtp.socket
      ensures SentSince(old(rtp.socket.packets), old(rtp.seqNo), [c])
      ensures rtp.seqNo == Rtp.NextSeq(old(rtp.seqNo), |CallItems(c, rtp.maxPayload)|)
    {
      hide Rtp.Items, Rtp.FirstNals, Rtp.NextSeq, Rtp.Packet;
      CallPacketsOne(rtp.seqNo, rtp.ssrc, rtp.maxPayload, c);
      var n := rtp.SendNals(bytes, Ts(reasm.framePts), auEnd);
      if n > 0 {
        rtpPacketsSent := rtpPacketsSent + n;
        rtpBytesSent := rtpBytesSent + |bytes|;
      }
    }

    /** After ar8030_reassembly_feed(): a frame that begins has sent nothing. */
    method NoteTaken(h: Hdr) returns (taken: bool)
      requires reasm.Valid()
      modifies this`fwdOff, this`fwdVcl
      ensures taken <==> Taken(reasm.Abs(), h)
      ensures Abs() == Fed(old(Abs()), reasm.Abs(), h)
    {
      taken := reasm.active && reasm.frameSeq == h.frameSeq
               && reasm.nextChunkIdx as int == (h.chunkIdx as int + 1) % 0x1_0000;
      if taken && h.chunkIdx == 0 {
        fwdOff, fwdVcl := 0, false;
      }
    }

    /** The part of the loop for a chunk that does not complete its frame. */
    method PassOnSlice(h: Hdr, taken: bool) returns (ghost calls: seq<Call>)
      requires Valid() && (taken <==> Taken(reasm.Abs(), h))
      modifies this`fwdOff, this`fwdVcl, this`rtpPacketsSent, this`rtpBytesSent, rtp`seqNo, rtp.socket
      ensures Valid() && (Abs(), calls) == PassOn(old(Abs()), h)
      ensures SentSince(old(rtp.socket.packets), old(rtp.seqNo), calls)
    {
      hide HasVcl, CallPackets, CallItems, Rtp.NextSeq, ClockSync.Ring, ClockSync.AllPlausible;
      CallPacketsNone(rtp.seqNo, rtp.ssrc, rtp.maxPayload);
      calls := [];
      if taken && reasm.chunkCount == 0 && HasSliceEnd(h.flags) && reasm.writeOff > fwdOff {
        var part := reasm.buf[fwdOff..reasm.writeOff];
        assert part == reasm.Abs().data[fwdOff..];
        ghost var c := Call(part, 0, [], Ts(reasm.framePts), false);
        assert BytesOf(c) == part;
        SendNals(part, false, c);
        calls := [c];
        if !fwdVcl {
          fwdVcl := ScanForVcl(part);
        }
        fwdOff := reasm.writeOff;
      }
    }

    method CountLostFrames()
      requires Valid()
      modifies this`lastFrameSeq, this`haveLastFrameSeq, this`framesLost
      ensures Valid() && Abs() == CountLost(old(Abs()))
    {
      if haveLastFrameSeq {
        var gap := (reasm.frameSeq as int - lastFrameSeq as int) % 0x1_0000;
        if gap > 1 && gap < 1000 {
          framesLost := (framesLost as int + (gap - 1)) % 0x1_0000_0000;
        }
      }
      lastFrameSeq, haveLastFrameSeq := reasm.frameSeq, true;
    }

    /** The timing SEI of the frame that is complete. */
    method BuildSei(nowUs: u64, encodeUs: u32) returns (sei: seq<byte>)
      requires Valid()
      ensures exists t :: IsNow(t, nowUs, encodeUs, sync.window) && sei == SeiFor(Abs(), wantSei, t)
    {
      hide Sei;
      var known, offsetUs, uncertaintyUs := sync.Get();
      if !known {
        assert IsNow(Clock(nowUs, None, encodeUs), nowUs, encodeUs, sync.window);
        return [];
      }
      ghost var t := Clock(nowUs, Some(Mapping(offsetUs, uncertaintyUs)), encodeUs);
      assert IsNow(t, nowUs, encodeUs, sync.window);
      if !wantSei {
        return [];
      }
      var air := ClockBounds.UnwrapAirPts(reasm.framePts, ClockBounds.Wrapped(nowUs as int + offsetUs));
      var timing := Timing(VERSION, if encodeUs != 0 then 3 else 1, reasm.frameSeq,
                           ClockBounds.Wrapped(air as int - offsetUs), nowUs, uncertaintyUs, encodeUs, framesLost);
      var out := new byte[NAL_MAX];
      var n := BuildNal(timing, out, if fwdVcl then SUFFIX_SEI else PREFIX_SEI);
      sei := out[..n];
    }

    /** The complete frame goes out: all of it with the SEI inside, or what has not gone. */
    method SendRest(sei: seq<byte>) returns (ghost calls: seq<Call>)
      requires Valid() && fwdOff <= reasm.writeOff
      modifies this`rtpPacketsSent, this`rtpBytesSent, reasm`writeOff, reasm.buf, rtp`seqNo, rtp.socket
      ensures reasm.Valid() && Finished(Abs()) == Finished(old(Abs()))
      ensures calls == LastCalls(old(Abs()), reasm.buf.Length, sei)
      ensures SentSince(old(rtp.socket.packets), old(rtp.seqNo), calls)
    {
      hide LastCalls, CallPackets;
      if fwdOff == 0 {
        calls := SendWhole(sei);
      } else {
        calls := SendRemainder(sei);
      }
    }

    method SendWhole(sei: seq<byte>) returns (ghost calls: seq<Call>)
      requires Valid() && fwdOff == 0
      modifies this`rtpPacketsSent, this`rtpBytesSent, reasm`writeOff, reasm.buf, rtp`seqNo, rtp.socket
      ensures reasm.Valid() && Finished(Abs()) == Finished(old(Abs()))
      ensures calls == LastCalls(old(Abs()), reasm.buf.Length, sei)
      ensures SentSince(old(rtp.socket.packets), old(rtp.seqNo), calls)
    {
      hide SlicePos;
      ghost var data := reasm.buf[..reasm.writeOff];
      var ok := false;
      if sei != [] {
        SlicePosInside(data);
        var newLen;
        ok, newLen := Insert(reasm.buf, reasm.writeOff, sei);
        reasm.writeOff := newLen;
      }
      ghost var c := if ok then Call(data, SlicePos(data).value, sei, Ts(reasm.framePts), true)
                     else Call(data, 0, [], Ts(reasm.framePts), true);
      var bytes := reasm.buf[..reasm.writeOff];
      assert BytesOf(c) == bytes by {
        if !ok {
          assert Inserted(data, 0, []) == data;
          assert bytes == data;
        }
      }
      SendNals(bytes, true, c);
      calls := [c];
    }

    method SendRemainder(sei: seq<byte>) returns (ghost calls: seq<Call>)
      requires Valid() && 0 < fwdOff <= reasm.writeOff
      modifies this`rtpPacketsSent, this`rtpBytesSent, rtp`seqNo, rtp.socket
      ensures calls == LastCalls(Abs(), reasm.buf.Length, sei)
      ensures SentSince(old(rtp.socket.packets), old(rtp.seqNo), calls)
    {
      hide CallPackets, CallItems, Rtp.NextSeq, ClockSync.Sync.Valid, BytesOf;
      var rest := reasm.buf[fwdOff..reasm.writeOff];
      assert rest == reasm.Abs().data[fwdOff..];
      ghost var c := Call([], 0, sei, Ts(reasm.framePts), rest == []);
      ghost var d := Call(rest, 0, [], Ts(reasm.framePts), true);
      BytesOfRest(c, d);
      CallPacketsNone(rtp.seqNo, rtp.ssrc, rtp.maxPayload);
      CallPacketsAppend(rtp.seqNo, rtp.ssrc, rtp.maxPayload, [c], [d]);
      calls := [];
      if sei != [] {
        SendNals(sei, rest == [], c);
        calls := [c];
      }
      if rest != [] {
        SendNals(rest, true, d);
        calls := if sei != [] then [c] + [d] else [d];
      }
    }

    /** The end of a completed frame: what is left of it goes out, and the reassembler starts over. */
    method FinishFrame(nowUs: u64, encodeUs: u32) returns (ghost calls: seq<Call>, ghost t: Clock)
      requires Valid() && fwdOff <= reasm.writeOff
      modifies this, reasm, reasm.buf, rtp`seqNo, rtp.socket
      ensures Valid() && reasm.buf == old(reasm.buf)
      ensures IsNow(t, nowUs, encodeUs, sync.window)
      ensures Abs() == Finished(CountLost(old(Abs())))
      ensures calls == LastCalls(CountLost(old(Abs())), reasm.buf.Length, SeiFor(CountLost(old(Abs())), wantSei, t))
      ensures SentSince(old(rtp.socket.packets), old(rtp.seqNo), calls)
    {
      hide CallPackets, LastCalls, SeiFor, Missing, Finished, CountLost, ClockSync.Ring, ClockSync.AllPlausible;
      CountLostFrames();
      var sei := BuildSei(nowUs, encodeUs);
      t :| IsNow(t, nowUs, encodeUs, sync.window) && sei == SeiFor(Abs(), wantSei, t);
      calls := SendRest(sei);
      StartOver();
    }

    method StartOver()
      requires reasm.Valid() && rtp.Valid() && sync.Valid()
      modifies this`fwdOff, this`fwdVcl, reasm`active, reasm`done, reasm`writeOff, reasm`nextChunkIdx
      ensures Valid() && Abs() == Finished(old(Abs()))
    {
      fwdOff, fwdVcl := 0, false;
      reasm.ResetFrame();
    }

    /** One video chunk, from the reassembler to the RTP sender. */
    method VideoChunk(h: Hdr, payload: array<byte>, payloadLen: nat, nowUs: u64, encodeUs: u32)
      returns (ghost calls: seq<Call>, ghost t: Clock)
      requires Valid() && payload != reasm.buf && payloadLen <= payload.Length && payloadLen <= MAX_PAYLOAD
      modifies this, reasm, reasm.buf, rtp`seqNo, rtp.socket
      ensures Valid() && reasm.buf == old(reasm.buf)
      ensures IsNow(t, nowUs, encodeUs, sync.window)
      ensures (Abs(), calls) == Receive(old(Abs()), reasm.buf.Length, wantSei, Chunk(h, payload[..payloadLen]), t)
      ensures SentSince(old(rtp.socket.packets), old(rtp.seqNo), calls)
    {
      hide CallPackets, LastCalls, SeiFor, CountLost, Finished, Feed, PassOn, ClockSync.Ring, ClockSync.AllPlausible;
      ghost var rx, c := Abs(), Chunk(h, payload[..payloadLen]);
      FeedKeeps(rx, reasm.buf.Length, c);
      var complete := reasm.FeedChunk(h, payload, payloadLen);
      var taken := NoteTaken(h);
      assert Abs() == Fed(rx, reasm.Abs(), h);
      if complete {
        calls, t := FinishFrame(nowUs, encodeUs);
      } else {
        calls := PassOnSlice(h, taken);
        t := AnyClock(nowUs, encodeUs);
      }
    }

    ghost method AnyClock(nowUs: u64, encodeUs: u32) returns (t: Clock)
      requires sync.Valid()
      ensures IsNow(t, nowUs, encodeUs, sync.window)
    {
      if sync.window == [] {
        t := Clock(nowUs, None, encodeUs);
      } else {
        var offsetUs, uncertaintyUs := ClockSync.AnEstimate(sync.window);
        t := Clock(nowUs, Some(Mapping(offsetUs, uncertaintyUs)), encodeUs);
      }
    }
  }

  lemma BytesOfRest(c: Call, d: Call)
    requires c.part == [] && c.at == 0 && d.sei == [] && d.at == 0
    ensures BytesOf(c) == c.sei && BytesOf(d) == d.part
  {
  }

  /** What the clock says at the moment: an estimate is there as soon as a reply is. */
  ghost predicate IsNow(t: Clock, nowUs: u64, encodeUs: u32, window: seq<ClockSync.Entry>)
    requires ClockSync.AllPlausible(window)
  {
    && t.rxDoneUs == nowUs && t.encodeUs == encodeUs
    && (t.mapping.Some? <==> window != [])
    && (t.mapping.Some? ==> ClockSync.IsEstimate(window, t.mapping.value.offsetUs, t.mapping.value.uncertaintyUs))
  }
}
