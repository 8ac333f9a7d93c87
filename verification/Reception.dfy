/**
 From the air unit's encoder to an RTP receiver on the ground: the frames that rx/main.c completes
 are frames that were sent, chunk by chunk, and their NALs are what goes out.
 */
module Reception {
  import opened Bytes
  import opened ChunkWire
  import opened ChunkStream
  import opened SentFrames
  import opened Delivery
  import opened Receiver
  import opened Forwarding
  import opened Losses
  import opened ReceiveLoop
  import opened EndToEnd
  import opened Holes
  import opened FrameTiming
  import opened FrameNals
  import opened SentNals

  // A run of chunks that make up a frame

  /** Chunks 0, 1, ... of one number, and the last says how many there are. */
  predicate IsRun(cs: seq<Chunk>) {
    cs != [] && InOrder(cs) && cs[|cs| - 1].hdr.chunkCount == |cs|
  }

  /** What gets through of a frame, each chunk is the one that its index says. */
  lemma {:induction false} ThroughIs(cs: seq<Chunk>, mask: seq<bool>, k: nat) returns (i: nat)
    requires |cs| == |mask| && k < |Through(cs, mask)|
    ensures k <= i < |cs| && Through(cs, mask)[k] == cs[i]
    decreases |cs|
  {
    if mask[0] && k == 0 {
      i := 0;
    } else {
      i := ThroughIs(cs[1..], mask[1..], if mask[0] then k - 1 else k);
      i := i + 1;
    }
  }

  /** A run in what gets through of a frame is the whole frame. */
  lemma RunIsFrame(f: Frame, mask: seq<bool>, chunkPayload: nat, first: nat, n: nat)
    requires Sendable(f, chunkPayload) && |mask| == |FrameChunks(f, chunkPayload)|
    requires var got := Through(FrameChunks(f, chunkPayload), mask);
             first + n <= |got| && IsRun(got[first..first + n])
    ensures Through(FrameChunks(f, chunkPayload), mask)[first..first + n] == FrameChunks(f, chunkPayload)
  {
    hide FrameChunks, Sendable, Through;
    var cs := FrameChunks(f, chunkPayload);
    var got := Through(cs, mask);
    var run := got[first..first + n];
    FrameIsNumbered(f, chunkPayload);
    forall k | 0 <= k < n
      ensures k < |cs| && run[k] == cs[k]
    {
      var i := ThroughIs(cs, mask, first + k);
      assert HeaderFits(cs[i].hdr, f.meta, f.Streamed?, 0 + i, |cs|);
      assert run[k].hdr.chunkIdx == k;
    }
    assert HeaderFits(cs[n - 1].hdr, f.meta, f.Streamed?, 0 + (n - 1), |cs|);
  }

  lemma {:induction false} ThroughSeq(cs: seq<Chunk>, mask: seq<bool>, m: Chunker.Meta, streamed: bool, k: nat)
    requires |cs| == |mask| && Numbered(cs, m, streamed, 0, |cs|) && k < |Through(cs, mask)|
    ensures Through(cs, mask)[k].hdr.frameSeq == m.frameSeq && Through(cs, mask)[k].hdr.codec == m.codec
  {
    var i := ThroughIs(cs, mask, k);
    assert HeaderFits(cs[i].hdr, m, streamed, 0 + i, |cs|);
  }

  /** The video chunks that get through of what is sent: for a frame all that get through, else none. */
  function VideoOf(s: Sent, chunkPayload: nat): seq<Chunk>
    requires WellFormed(s, chunkPayload)
  {
    if s.Video? then Received(s, chunkPayload) else []
  }

  lemma {:induction false} VideosAppend(a: seq<Chunk>, b: seq<Chunk>)
    ensures Videos(a + b) == Videos(a) + Videos(b)
    decreases |b|
  {
    if b == [] {
      assert a + b == a;
    } else {
      var n := |b| - 1;
      assert (a + b)[..|a| + n] == a + b[..n];
      VideosAppend(a, b[..n]);
    }
  }

  lemma {:induction false} AllAreVideos(cs: seq<Chunk>)
    requires forall i :: 0 <= i < |cs| ==> cs[i].hdr.codec == CODEC_H265
    ensures Videos(cs) == cs
  {
    if cs != [] {
      AllAreVideos(cs[..|cs| - 1]);
    }
  }

  lemma VideosOfSent(s: Sent, chunkPayload: nat)
    requires WellFormed(s, chunkPayload)
    ensures Videos(Received(s, chunkPayload)) == VideoOf(s, chunkPayload)
    ensures s.Video? ==> forall i :: 0 <= i < |VideoOf(s, chunkPayload)| ==>
              VideoOf(s, chunkPayload)[i].hdr.frameSeq == s.frame.meta.frameSeq
  {
    hide FrameChunks, Sendable, Through;
    match s
    case Video(f, mask) =>
      var cs := FrameChunks(f, chunkPayload);
      FrameIsNumbered(f, chunkPayload);
      forall k | 0 <= k < |Through(cs, mask)|
        ensures Through(cs, mask)[k].hdr.codec == CODEC_H265
        ensures Through(cs, mask)[k].hdr.frameSeq == f.meta.frameSeq
      {
        ThroughSeq(cs, mask, f.meta, f.Streamed?, k);
      }
      AllAreVideos(Through(cs, mask));
    case Other(c, through) =>
      assert [c][..0] == [];
  }

  /** The next video chunk after a frame is of another. */
  lemma {:induction false} NextDiffers(sents: seq<Sent>, chunkPayload: nat, last: u16)
    requires AllWellFormed(sents, chunkPayload) && Distinguishable(sents, chunkPayload, Some(last))
    ensures var cs := Videos(AllReceived(sents, chunkPayload)); cs != [] ==> cs[0].hdr.frameSeq != last
    decreases |sents|
  {
    hide WellFormed, Received, Videos;
    if sents == [] {
      NoVideos();
    } else {
      VideosAppend(Received(sents[0], chunkPayload), AllReceived(sents[1..], chunkPayload));
      VideosOfSent(sents[0], chunkPayload);
      if VideoOf(sents[0], chunkPayload) == [] {
        NextDiffers(sents[1..], chunkPayload, last);
      }
    }
  }

  lemma NoVideos()
    ensures Videos([]) == []
  {
  }

  /** Every run in the video chunks that get through is a frame that was sent, and all of it. */
  lemma {:induction false} RunIsSent(sents: seq<Sent>, chunkPayload: nat, last: Option<u16>, first: nat, n: nat)
    returns (j: nat)
    requires AllWellFormed(sents, chunkPayload) && Distinguishable(sents, chunkPayload, last)
    requires var cs := Videos(AllReceived(sents, chunkPayload)); first + n <= |cs| && IsRun(cs[first..first + n])
    ensures j < |sents| && sents[j].Video?
    ensures Videos(AllReceived(sents, chunkPayload))[first..first + n] == FrameChunks(sents[j].frame, chunkPayload)
    decreases |sents|
  {
    hide Received, Videos, FrameChunks, IsRun, Sendable;
    if sents == [] {
      NoVideos();
      RunIsSome(Videos(AllReceived(sents, chunkPayload))[first..first + n]);
    } else {
      var head, tail := VideoOf(sents[0], chunkPayload), Videos(AllReceived(sents[1..], chunkPayload));
      var cs := Videos(AllReceived(sents, chunkPayload));
      VideosAppend(Received(sents[0], chunkPayload), AllReceived(sents[1..], chunkPayload));
      VideosOfSent(sents[0], chunkPayload);
      assert cs == head + tail;
      if first >= |head| {
        assert cs[first..first + n] == tail[first - |head|..first - |head| + n];
        var last1 := if sents[0].Video? && Received(sents[0], chunkPayload) != []
                     then Some(sents[0].frame.meta.frameSeq) else last;
        j := RunIsSent(sents[1..], chunkPayload, last1, first - |head|, n);
        j := j + 1;
      } else {
        var seqNo := sents[0].frame.meta.frameSeq;
        NextDiffers(sents[1..], chunkPayload, seqNo);
        SameNumber(cs, first, n);
        assert cs[first] == head[first] && (tail != [] ==> cs[|head|] == tail[0]);
        assert first + n <= |head|;
        assert cs[first..first + n] == head[first..first + n];
        InOneFrame(sents[0], chunkPayload, first, n);
        j := 0;
      }
    }
  }

  lemma RunIsSome(cs: seq<Chunk>)
    requires IsRun(cs)
    ensures cs != []
  {
  }

  lemma SameNumber(cs: seq<Chunk>, first: nat, n: nat)
    requires first + n <= |cs| && IsRun(cs[first..first + n])
    ensures n > 0 && forall i :: first <= i < first + n ==> cs[i].hdr.frameSeq == cs[first].hdr.frameSeq
  {
    var run := cs[first..first + n];
    assert forall i :: first <= i < first + n ==> cs[i] == run[i - first];
  }

  lemma InOneFrame(s: Sent, chunkPayload: nat, first: nat, n: nat)
    requires WellFormed(s, chunkPayload) && s.Video?
    requires first + n <= |VideoOf(s, chunkPayload)| && IsRun(VideoOf(s, chunkPayload)[first..first + n])
    ensures Sendable(s.frame, chunkPayload)
    ensures VideoOf(s, chunkPayload)[first..first + n] == FrameChunks(s.frame, chunkPayload)
  {
    hide FrameChunks, Sendable, Through, IsRun;
    RunIsFrame(s.frame, s.mask, chunkPayload, first, n);
  }

  // The frames on record

  /** A completed frame on record is a run of what came in. */
  lemma RecordIsRun(rx: RxState, gs: seq<Group>, input: seq<Arrival>, cap: nat, wantSei: bool, k: nat)
    requires Fits(rx, gs, input, cap, wantSei) && k < |gs| && gs[k].complete
    ensures var g := gs[k];
      && g.first + |g.chunks| <= |input| && IsRun(g.chunks)
      && g.chunks == ChunksOf(input)[g.first..g.first + |g.chunks|]
  {
    hide Apart, Holds, AllAt, Payloads, Parts, Ends, Early, HasEnd, EndIsLost;
    assert GroupOk(gs[k], input, cap, wantSei);
  }

  /**
   From the NALs of the encoder to those of a receiver, over a wire with holes: when the receive
   loop has read what got through, every frame it has completed is one that was sent, chunk for
   chunk; and if the encoder's parts are byte streams of whole NALs, the packets i to i1 on the
   socket give a receiver exactly these NALs, with the SEI, the marker and the time of the frame.
   Which frames these are is in DrainedLoop.
   */
  lemma FrameIsReceived(loop: Loop, sents: seq<Sent>, chunkPayload: nat, pieces: seq<Piece>, tail: seq<byte>, k: nat,
                        nals: seq<seq<seq<byte>>>, longs: seq<seq<bool>>)
    returns (j: nat, i: nat, i1: nat)
    requires loop.Valid() && loop.rx.rtp.maxPayload >= 2
    requires AllWellFormed(sents, chunkPayload) && Distinguishable(sents, chunkPayload, None)
    requires Carries(pieces, tail, sents, chunkPayload) && loop.stream.stream == Wire(pieces, tail)
    requires AllHandedOut(loop.stream.stream, loop.stream.returned, loop.stream.checksumFails, loop.stream.Window())
    requires var gs := Track(loop.input, loop.rx.reasm.buf.Length, loop.rx.wantSei).1; k < |gs| && gs[k].complete
    ensures var g := Track(loop.input, loop.rx.reasm.buf.Length, loop.rx.wantSei).1[k];
      && j < |sents| && sents[j].Video? && Sendable(sents[j].frame, chunkPayload)
      && g.chunks == FrameChunks(sents[j].frame, chunkPayload)
      && g.first + |g.chunks| <= |loop.input| && g.chunks != []
      && i <= i1 <= |loop.rx.rtp.socket.packets|
      && (AreNals(PartsOf(sents[j].frame), nals, longs) ==>
            FrameNals.Arrives(loop.rx.rtp.socket.packets[i..i1], g, Flat(nals),
                              loop.input[g.first + |g.chunks| - 1].clock))
  {
    hide Loop.Valid, Track, Fits, FrameChunks, Videos, WellFormed, Sendable, AllReceived, Distinguishable, IsRun;
    hide AreNals, CallPackets, FrameNals.Arrives, Flat, AllHandedOut, Carries, Wire, Took, Done, AllAt, Ts, Payloads;
    var cs := AllReceived(sents, chunkPayload);
    LoopTook(loop);
    WireIsReadBack(sents, chunkPayload, pieces, tail, loop.stream.returned, loop.stream.checksumFails,
                   loop.stream.Window());
    TookIs(loop.input, loop.stream.returned, cs);
    AllReceivedKeeps(sents, chunkPayload);
    VideosAre(cs);
    InputIsVideo(loop.input, cs);
    LoopPackets(loop);
    var (rx, gs) := Track(loop.input, loop.rx.reasm.buf.Length, loop.rx.wantSei);
    RecordIsRun(rx, gs, loop.input, loop.rx.reasm.buf.Length, loop.rx.wantSei, k);
    RecordIsOk(rx, gs, loop.input, loop.rx.reasm.buf.Length, loop.rx.wantSei, k);
    var g := gs[k];
    j := RunIsSent(sents, chunkPayload, None, g.first, |g.chunks|);
    SentIsSendable(sents, chunkPayload, j);
    var seq1;
    i, i1, seq1 := LoopFrame(loop, k);
    if AreNals(PartsOf(sents[j].frame), nals, longs) {
      SentFrameArrives(g, loop.rx.wantSei, loop.input[g.first + |g.chunks| - 1].clock, sents[j].frame, chunkPayload,
                       nals, longs, loop.rx.rtp.maxPayload, seq1, loop.rx.rtp.ssrc);
    }
  }

  lemma LoopTook(loop: Loop)
    requires loop.Valid()
    ensures Took(loop.input, loop.stream.returned) && loop.stream.len <= loop.stream.buf.Length
  {
    hide Took, Heard, Answered, AllCalls, CallPackets, Agrees;
  }

  lemma TookIs(input: seq<Arrival>, returned: seq<seq<byte>>, cs: seq<Chunk>)
    requires Took(input, returned) && AllWhole(returned) && DecodeAll(returned) == cs
    ensures ChunksOf(input) == Videos(cs)
  {
    hide Videos, Decode;
  }

  lemma SentIsSendable(sents: seq<Sent>, chunkPayload: nat, j: nat)
    requires AllWellFormed(sents, chunkPayload) && j < |sents| && sents[j].Video?
    ensures Sendable(sents[j].frame, chunkPayload)
  {
    hide Sendable, FrameChunks;
    assert WellFormed(sents[j], chunkPayload);
  }
}
