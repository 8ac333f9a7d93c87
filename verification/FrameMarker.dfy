/**
 The end of an access unit on the wire: which packet of a frame that the receive loop of
 rx/main.c has completed carries the marker of rx/rtp_h265.c, and when none does.
 */
module FrameMarker {
  import opened Bytes
  import opened ChunkWire
  import opened Chunker
  import opened SentFrames
  import opened Reassembly
  import opened Receiver
  import opened Forwarding
  import opened RtpReceive
  import opened SeiSearch
  import TimingSei
  import Rtp

  /** What goes out for a list of calls. */
  function ItemsOf(calls: seq<Call>, maxPayload: nat): seq<Rtp.Item>
    decreases |calls|
  {
    if calls == [] then [] else CallItems(calls[0], maxPayload) + ItemsOf(calls[1..], maxPayload)
  }

  /** The packets of the calls carry them, numbered one by one. */
  lemma {:induction false} PacketsCarryItems(seqNo: u16, ssrc: u32, maxPayload: nat, calls: seq<Call>, i: nat)
    requires i < |ItemsOf(calls, maxPayload)|
    ensures |CallPackets(seqNo, ssrc, maxPayload, calls)| == |ItemsOf(calls, maxPayload)|
    ensures var p, item := CallPackets(seqNo, ssrc, maxPayload, calls)[i], ItemsOf(calls, maxPayload)[i];
      && |p| >= Rtp.HDR_LEN && ParsePacket(p).seqNo as int == (seqNo as int + i) % 0x1_0000
      && ParsePacket(p).marker == item.marker && ParsePacket(p).payload == item.payload
    decreases |calls|
  {
    hide CallItems, ParsePacket, Rtp.PacketHeader, Rtp.NextSeq;
    SameLength(seqNo, ssrc, maxPayload, calls);
    var items := CallItems(calls[0], maxPayload);
    if i < |items| {
      ParseBack(Rtp.NextSeq(seqNo, i), calls[0].ts, ssrc, items[i]);
      CountsOn(seqNo, i, 0);
    } else {
      PacketsCarryItems(Rtp.NextSeq(seqNo, |items|), ssrc, maxPayload, calls[1..], i - |items|);
      CountsOn(seqNo, |items|, i - |items|);
    }
  }

  lemma {:induction false} SameLength(seqNo: u16, ssrc: u32, maxPayload: nat, calls: seq<Call>)
    ensures |CallPackets(seqNo, ssrc, maxPayload, calls)| == |ItemsOf(calls, maxPayload)|
    decreases |calls|
  {
    hide CallItems, Rtp.Packet, Rtp.NextSeq;
    if calls != [] {
      SameLength(Rtp.NextSeq(seqNo, |CallItems(calls[0], maxPayload)|), ssrc, maxPayload, calls[1..]);
    }
  }

  lemma CountsOn(seqNo: u16, i: nat, j: nat)
    ensures (Rtp.NextSeq(seqNo, i) as int + j) % 0x1_0000 == (seqNo as int + (i + j)) % 0x1_0000
    ensures Rtp.NextSeq(seqNo, i) as int == (seqNo as int + i) % 0x1_0000
  {
  }

  /** Only the last call may end the access unit. */
  predicate OnlyLastEnds(calls: seq<Call>) {
    forall i :: 0 <= i < |calls| - 1 ==> !calls[i].auEnd
  }

  /** The last call ends the access unit, and its last NAL is one that is sent. */
  predicate EndIsSent(calls: seq<Call>) {
    && calls != [] && calls[|calls| - 1].auEnd
    && LastIsSent(Rtp.FirstNals(BytesOf(calls[|calls| - 1])))
  }

  /** The marker is on the very last packet, exactly if the end is sent, and on no other. */
  lemma {:induction false} MarkerOfCalls(calls: seq<Call>, maxPayload: nat, i: nat)
    requires maxPayload >= 2 && OnlyLastEnds(calls) && i < |ItemsOf(calls, maxPayload)|
    ensures var items := ItemsOf(calls, maxPayload);
      items[i].marker <==> EndIsSent(calls) && i == |items| - 1
    decreases |calls|
  {
    hide Rtp.Items, Rtp.FirstNals, LastIsSent, BytesOf;
    var c := calls[0];
    var here, later := CallItems(c, maxPayload), ItemsOf(calls[1..], maxPayload);
    if i < |here| {
      MarkerOnLast(Rtp.FirstNals(BytesOf(c)), maxPayload, c.auEnd, i);
      if |calls| > 1 && EndIsSent(calls) {
        LastCallHasItem(calls[1..], maxPayload);
      }
    } else {
      MarkerOfCalls(calls[1..], maxPayload, i - |here|);
    }
  }

  lemma {:induction false} LastCallHasItem(calls: seq<Call>, maxPayload: nat)
    requires maxPayload >= 2 && EndIsSent(calls)
    ensures ItemsOf(calls, maxPayload) != []
    decreases |calls|
  {
    hide Rtp.Items, Rtp.FirstNals, LastIsSent, BytesOf;
    if |calls| == 1 {
      LastHasItem(Rtp.FirstNals(BytesOf(calls[0])), maxPayload, calls[0].auEnd);
    } else {
      LastCallHasItem(calls[1..], maxPayload);
    }
  }

  /** A packet with the marker. */
  predicate IsMarked(p: seq<byte>) {
    |p| >= Rtp.HDR_LEN && ParsePacket(p).marker
  }

  /**
   For every completed frame: some packet of it carries the marker if and only if its calls have
   an end and the last NAL of the last call is one that is sent; and then that is the last packet.
   */
  lemma FrameMarkerIff(g: Group, wantSei: bool, t: Clock, maxPayload: nat, seqNo: u16, ssrc: u32)
    requires Done(g, wantSei, t) && maxPayload >= 2
    ensures g.calls != []
    ensures var packets := CallPackets(seqNo, ssrc, maxPayload, g.calls);
      && ((exists i :: 0 <= i < |packets| && IsMarked(packets[i])) <==>
            HasEnd(g.calls) && LastIsSent(Rtp.FirstNals(BytesOf(g.calls[|g.calls| - 1]))))
      && (forall i :: 0 <= i < |packets| && IsMarked(packets[i]) ==> i == |packets| - 1)
  {
    hide ItemsOf, CallPackets, ParsePacket, EndIsSent, OnlyLastEnds, LastIsSent, Rtp.FirstNals, BytesOf, Done;
    EndsAreLast(g, wantSei, t);
    SentEnd(g.calls);
    SameLength(seqNo, ssrc, maxPayload, g.calls);
    var packets := CallPackets(seqNo, ssrc, maxPayload, g.calls);
    forall i | 0 <= i < |packets|
      ensures IsMarked(packets[i]) <==> EndIsSent(g.calls) && i == |packets| - 1
    {
      PacketsCarryItems(seqNo, ssrc, maxPayload, g.calls, i);
      MarkerOfCalls(g.calls, maxPayload, i);
    }
    if EndIsSent(g.calls) {
      LastCallHasItem(g.calls, maxPayload);
      assert IsMarked(packets[|packets| - 1]);
    }
  }

  lemma SentEnd(calls: seq<Call>)
    requires calls != [] && OnlyLastEnds(calls)
    ensures EndIsSent(calls) <==> HasEnd(calls) && LastIsSent(Rtp.FirstNals(BytesOf(calls[|calls| - 1])))
  {
    hide LastIsSent, Rtp.FirstNals, BytesOf;
    assert calls[|calls| - 1].auEnd ==> HasEnd(calls);
  }

  lemma EndsAreLast(g: Group, wantSei: bool, t: Clock)
    requires Done(g, wantSei, t)
    ensures g.calls != [] && OnlyLastEnds(g.calls)
  {
    hide Closed, Payloads, Parts, InOrder, EndIsLost, HasEnd, SeiPlaced, EarlyBytes;
    var k :| && 0 <= k <= |g.calls| && Early(g, g.calls[..k])
             && Ends(g.calls[..k], g.calls[k..], g.chunks[0].hdr, t, Due(wantSei, t));
    forall i | 0 <= i < |g.calls| - 1
      ensures !g.calls[i].auEnd
    {
      if i < k {
        assert g.calls[..k][i] == g.calls[i];
      } else {
        assert g.calls[k..][i - k] == g.calls[i];
      }
    }
  }

  // Where the end is lost

  /** A frame of one slice and a last part, each of one chunk. */
  lemma TwoPartChunks(m: Meta, payload: seq<byte>, last: seq<byte>, chunkPayload: nat)
    requires Sendable(Streamed(m, [payload, last]), chunkPayload)
    requires |payload| <= chunkPayload && |last| <= chunkPayload
    ensures var cs := FrameChunks(Streamed(m, [payload, last]), chunkPayload);
      && |cs| == 2 && TwoParts(cs[0], cs[1])
      && cs[0].payload == payload && cs[1].payload == last && cs[0].hdr.codec == m.codec == cs[1].hdr.codec
  {
    hide Intact;
    var parts := [payload, last];
    assert parts[0] in parts && parts[1] in parts && parts[1..] == [last] && [last][1..] == [];
    OneChunk(m, Numbering(0, 0, false, true), payload, chunkPayload);
    OneChunk(m, Numbering(1, 0, true, true), last, chunkPayload);
    assert PartChunks(m, [last], chunkPayload, 1) == [ChunkAt(m, Numbering(1, 0, true, true), 1, 0, last)];
    assert PartChunks(m, parts, chunkPayload, 0)
        == [ChunkAt(m, Numbering(0, 0, false, true), 1, 0, payload)] + PartChunks(m, [last], chunkPayload, 1);
  }

  lemma OneChunk(m: Meta, nr: Numbering, data: seq<byte>, chunkPayload: nat)
    requires Splittable(data, chunkPayload) && |data| <= chunkPayload
    ensures Chunks(m, nr, data, chunkPayload) == [ChunkAt(m, nr, 1, 0, data)]
  {
    CountOne(|data|, chunkPayload);
    OffsetsFit(data, chunkPayload, 0);
    assert Piece(data, chunkPayload, 0) == data;
  }

  lemma CountOne(dataLen: u32, chunkPayload: nat)
    requires 0 < chunkPayload <= MAX_PAYLOAD && dataLen <= chunkPayload
    ensures ChunkCount(dataLen, chunkPayload) == 1
  {
    var x := dataLen as int + chunkPayload - 1;
    assert x < 2 * chunkPayload;
  }

  /** The two chunks are a slice and the end of one streamed frame. */
  predicate TwoParts(c0: Chunk, c1: Chunk) {
    && Intact(c0) && Intact(c1) && c0.hdr.frameSeq == c1.hdr.frameSeq
    && c0.hdr.chunkIdx == 0 && c0.hdr.chunkCount == 0 && HasSliceEnd(c0.hdr.flags) && !HasFrameEnd(c0.hdr.flags)
    && c1.hdr.chunkIdx == 1 && c1.hdr.chunkCount == 2 && HasFrameEnd(c1.hdr.flags)
  }

  /** Both taken, they complete the frame. */
  lemma TwoPartRun(c0: Chunk, c1: Chunk, cap: nat, wantSei: bool, t0: Clock, t1: Clock)
    requires TwoParts(c0, c1) && |c0.payload| + |c1.payload| <= cap
    ensures var gs := Track([Arrival(c0, t0), Arrival(c1, t1)], cap, wantSei).1;
      |gs| == 1 && gs[0].first == 0 && gs[0].complete && gs[0].chunks == [c0, c1] && Done(gs[0], wantSei, t1)
  {
    hide Track, Receive, Feed, Grow, Taken, Intact, Done, HasSliceEnd, HasFrameEnd;
    var a0, a1 := Arrival(c0, t0), Arrival(c1, t1);
    AfterFirst(c0, cap, wantSei, t0);
    TrackSnoc([a0], cap, wantSei, a1);
    PairIs(a0, a1);
    PairIs(c0, c1);
    var (rx, gs) := Track([a0], cap, wantSei);
    SecondOfTwo(rx.reasm, c0, c1, cap);
    GrowIs(gs, 1, c1, Receive(rx, cap, wantSei, c1, t1).1, true);
    OneIsDone([a0, a1], cap, wantSei);
  }

  lemma PairIs<T>(x: T, y: T)
    ensures [x] + [y] == [x, y] && [] + [x] == [x]
  {
  }

  lemma AfterFirst(c: Chunk, cap: nat, wantSei: bool, t: Clock)
    requires c.hdr.chunkIdx == 0 && c.hdr.chunkCount == 0 && !HasFrameEnd(c.hdr.flags) && |c.payload| <= cap
    ensures var (rx, gs) := Track([Arrival(c, t)], cap, wantSei);
      && rx.reasm == Append(Start(INITIAL, c.hdr), c.payload)
      && |gs| == 1 && gs[0].first == 0 && gs[0].chunks == [c]
  {
    hide Receive, Feed, Grow, Taken, HasFrameEnd;
    TrackSnoc([], cap, wantSei, Arrival(c, t));
    PairIs(Arrival(c, t), Arrival(c, t));
    PairIs(c, c);
    FirstOfTwo(c, cap, wantSei, t);
    GrowIs([], 0, c, Receive(RX_INITIAL, cap, wantSei, c, t).1, false);
  }

  lemma OneIsDone(input: seq<Arrival>, cap: nat, wantSei: bool)
    requires |input| == 2 && NoWrapAround(input)
    requires var gs := Track(input, cap, wantSei).1;
             |gs| == 1 && gs[0].first == 0 && gs[0].complete && |gs[0].chunks| == 2
    ensures Done(Track(input, cap, wantSei).1[0], wantSei, input[1].clock)
  {
    hide Track, Done;
    ForwardingConserves(input, cap, wantSei);
    assert GroupOk(Track(input, cap, wantSei).1[0], input, cap, wantSei);
  }

  /** The first chunk of such a frame is taken and leaves it open. */
  lemma FirstOfTwo(c: Chunk, cap: nat, wantSei: bool, t: Clock)
    requires c.hdr.chunkIdx == 0 && c.hdr.chunkCount == 0 && !HasFrameEnd(c.hdr.flags) && |c.payload| <= cap
    ensures var (st, complete) := Feed(INITIAL, cap, c.hdr, c.payload);
      && Taken(st, c.hdr) && !complete && st == Append(Start(INITIAL, c.hdr), c.payload)
      && Receive(RX_INITIAL, cap, wantSei, c, t).0.reasm == st
  {
    hide AnnexB.HasVcl, HasSliceEnd, HasFrameEnd;
  }

  lemma SecondOfTwo(st: State, c0: Chunk, c1: Chunk, cap: nat)
    requires TwoParts(c0, c1) && |c0.payload| + |c1.payload| <= cap
    requires st == Append(Start(INITIAL, c0.hdr), c0.payload)
    ensures var (t, complete) := Feed(st, cap, c1.hdr, c1.payload); Taken(t, c1.hdr) && complete
  {
    hide Intact, HasSliceEnd, HasFrameEnd;
  }

  lemma TwoPayloads(c0: Chunk, c1: Chunk)
    requires TwoParts(c0, c1)
    ensures Payloads([c0, c1]) == c0.payload + c1.payload && EarlyBytes([c0, c1]) == c0.payload
  {
    hide Intact, HasSliceEnd, HasFrameEnd;
    assert [c0, c1][..1] == [c0] && [c0][..0] == [] && [c0][..1] == [c0];
    PayloadsSnoc([c0], 0);
    PayloadsSnoc([c0, c1], 1);
    assert [c0, c1][..2] == [c0, c1];
  }

  /**
   A frame of one slice and then an empty last part, as tx/main.c sends it when the encoder has
   nothing more to add: it completes, all of it goes out, and an end of the access unit goes out
   if and only if an SEI is due.
   */
  lemma EndCanBeLost(m: Meta, payload: seq<byte>, chunkPayload: nat, cap: nat, wantSei: bool, t0: Clock, t1: Clock)
    requires Sendable(Streamed(m, [payload, []]), chunkPayload)
    requires 0 < |payload| <= chunkPayload && |payload| <= cap
    ensures var cs := FrameChunks(Streamed(m, [payload, []]), chunkPayload);
      && |cs| == 2 && Intact(cs[0]) && Intact(cs[1])
      && var gs := Track([Arrival(cs[0], t0), Arrival(cs[1], t1)], cap, wantSei).1;
         && |gs| == 1 && gs[0].complete && gs[0].chunks == cs && Parts(gs[0].calls) == payload
         && (HasEnd(gs[0].calls) <==> Due(wantSei, t1))
  {
    hide Track, FrameChunks, Payloads, Parts, HasEnd, Ends, Early, EarlyBytes, Due, Sendable;
    TwoPartChunks(m, payload, [], chunkPayload);
    var cs := FrameChunks(Streamed(m, [payload, []]), chunkPayload);
    assert cs == [cs[0], cs[1]];
    TwoPartRun(cs[0], cs[1], cap, wantSei, t0, t1);
    TwoPayloads(cs[0], cs[1]);
    assert payload + [] == payload;
  }

  /**
   A frame of one slice and a last part of the single byte 0: it completes, its calls have an end,
   and yet no packet carries the marker, whether an SEI is due or not.
   */
  lemma MarkerCanBeLost(m: Meta, payload: seq<byte>, chunkPayload: nat, cap: nat, wantSei: bool, t0: Clock, t1: Clock,
                        maxPayload: nat, seqNo: u16, ssrc: u32)
    requires Sendable(Streamed(m, [payload, [0]]), chunkPayload)
    requires 0 < |payload| <= chunkPayload && |payload| + 1 <= cap && maxPayload >= 2
    ensures var cs := FrameChunks(Streamed(m, [payload, [0]]), chunkPayload);
      && |cs| == 2 && Intact(cs[0]) && Intact(cs[1])
      && var gs := Track([Arrival(cs[0], t0), Arrival(cs[1], t1)], cap, wantSei).1;
         && |gs| == 1 && gs[0].complete && gs[0].chunks == cs && HasEnd(gs[0].calls)
         && forall p :: p in CallPackets(seqNo, ssrc, maxPayload, gs[0].calls) ==> !IsMarked(p)
  {
    hide Track, FrameChunks, Sendable, Rtp.FirstNals, CallPackets, ParsePacket, LastIsSent, HasEnd, IsMarked;
    hide Done, BytesOf;
    TwoPartChunks(m, payload, [0], chunkPayload);
    var cs := FrameChunks(Streamed(m, [payload, [0]]), chunkPayload);
    assert cs == [cs[0], cs[1]];
    TwoPartRun(cs[0], cs[1], cap, wantSei, t0, t1);
    TwoPayloads(cs[0], cs[1]);
    var g := Track([Arrival(cs[0], t0), Arrival(cs[1], t1)], cap, wantSei).1[0];
    LastByteIsLast(g, wantSei, t1, payload);
    FrameMarkerIff(g, wantSei, t1, maxPayload, seqNo, ssrc);
    ShortHasNoNal([0]);
  }

  /** With one byte left behind what had gone, the last call is that byte, and has the end. */
  lemma LastByteIsLast(g: Group, wantSei: bool, t: Clock, early: seq<byte>)
    requires Done(g, wantSei, t) && EarlyBytes(g.chunks) == early && Payloads(g.chunks) == early + [0]
    ensures HasEnd(g.calls) && g.calls != [] && BytesOf(g.calls[|g.calls| - 1]) == [0]
  {
    hide Closed, Payloads, Parts, InOrder, HasEnd, EarlyBytes, NoneEnds, CallParts, SliceParts, SeiPlaced, BytesOf;
    var k :| && 0 <= k <= |g.calls| && Early(g, g.calls[..k])
             && Ends(g.calls[..k], g.calls[k..], g.chunks[0].hdr, t, Due(wantSei, t));
    var before, calls := g.calls[..k], g.calls[k..];
    assert g.calls == before + calls;
    PartsAppend(before, calls);
    assert (early + [0])[|early|..] == [0] && (early + Parts(calls))[|early|..] == Parts(calls);
    LastPartIs(before, calls, g.chunks[0].hdr, t, Due(wantSei, t));
    assert g.calls[|g.calls| - 1] == calls[|calls| - 1];
  }

  lemma LastPartIs(before: seq<Call>, calls: seq<Call>, h: Hdr, t: Clock, due: bool)
    requires Ends(before, calls, h, t, due) && Parts(calls) == [0]
    ensures calls != [] && BytesOf(calls[|calls| - 1]) == [0]
  {
    hide Parts, SeiPlaced, BytesOf;
    PartsNone();
    var c := calls[|calls| - 1];
    PartsOne(c);
    if |calls| == 1 {
      assert calls == [c];
      ShortHasNoSei(before, c, h, t);
    } else {
      PartsOne(calls[0]);
      PartsAppend([calls[0]], [c]);
      assert calls == [calls[0]] + [c];
      assert c.part == [0];
    }
    PlainBytes(c);
  }

  lemma ShortHasNoSei(before: seq<Call>, c: Call, h: Hdr, t: Clock)
    requires SeiPlaced(before, c, h, t) && 0 < |c.part| < 3
    ensures c.sei == []
  {
    hide SlicePos, SentSlice, TimingSei.Sei;
    ShortHasNoSlice(c.part);
  }

  lemma PlainBytes(c: Call)
    requires c.sei == []
    ensures BytesOf(c) == c.part
  {
  }

  lemma ShortHasNoNal(s: seq<byte>)
    requires |s| < 3
    ensures !LastIsSent(Rtp.FirstNals(s))
  {
  }
}
