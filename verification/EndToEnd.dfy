/** From frames on the air unit to calls of the RTP sender on the ground. */
module EndToEnd {
  import opened Bytes
  import opened ChunkWire
  import opened ChunkStream
  import opened Holes
  import Chunker
  import ClockSync
  import opened SentFrames
  import opened Reassembly
  import opened Delivery
  import opened DropCount
  import opened Forwarding
  import opened Losses
  import opened ReceiveLoop

  /** What the receive loop may hand to the reassembler. */
  predicate Numberable(c: Chunk) {
    Intact(c) && (c.hdr.codec == CODEC_H265 ==> c.hdr.chunkIdx < 0xFFFF)
  }

  predicate AllNumberable(cs: seq<Chunk>) {
    forall i :: 0 <= i < |cs| ==> Numberable(cs[i])
  }

  lemma {:induction false} ThroughKeeps(cs: seq<Chunk>, mask: seq<bool>)
    requires |cs| == |mask| && AllNumberable(cs)
    ensures AllNumberable(Through(cs, mask))
    decreases |cs|
  {
    hide Numberable;
    if cs != [] {
      ThroughKeeps(cs[1..], mask[1..]);
    }
  }

  lemma NumberedKeeps(cs: seq<Chunk>, m: Chunker.Meta, streamed: bool)
    requires Numbered(cs, m, streamed, 0, |cs|)
    ensures AllNumberable(cs)
  {
    forall i | 0 <= i < |cs|
      ensures Numberable(cs[i])
    {
      assert HeaderFits(cs[i].hdr, m, streamed, 0 + i, |cs|);
    }
  }

  lemma ReceivedKeeps(s: Sent, chunkPayload: nat)
    requires WellFormed(s, chunkPayload)
    ensures AllNumberable(Received(s, chunkPayload))
  {
    hide Numbered, FrameChunks;
    match s
    case Video(f, mask) =>
      FrameIsNumbered(f, chunkPayload);
      NumberedKeeps(FrameChunks(f, chunkPayload), f.meta, f.Streamed?);
      ThroughKeeps(FrameChunks(f, chunkPayload), mask);
    case Other(c, through) =>
  }

  lemma {:induction false} AllReceivedKeeps(sents: seq<Sent>, chunkPayload: nat)
    requires AllWellFormed(sents, chunkPayload)
    ensures AllNumberable(AllReceived(sents, chunkPayload))
    decreases |sents|
  {
    hide WellFormed, Received, Numberable;
    if sents != [] {
      ReceivedKeeps(sents[0], chunkPayload);
      AllReceivedKeeps(sents[1..], chunkPayload);
    }
  }

  /** Other traffic makes no difference to the reassembler. */
  lemma {:induction false} RunVideos(st: State, cap: nat, cs: seq<Chunk>)
    ensures Run(st, cap, Videos(cs)) == Run(st, cap, cs)
  {
    if cs == [] {
    } else {
      hide Run, Feed;
      var n := |cs| - 1;
      RunVideos(st, cap, cs[..n]);
      RunSnoc(st, cap, cs[..n], cs[n]);
      assert cs == cs[..n] + [cs[n]];
      VideosSnoc(cs[..n], cs[n]);
      if cs[n].hdr.codec == CODEC_H265 {
        RunSnoc(st, cap, Videos(cs[..n]), cs[n]);
      } else {
        assert Videos(cs[..n]) + [] == Videos(cs[..n]);
        assert Run(st, cap, cs[..n]).1 + [] == Run(st, cap, cs[..n]).1;
      }
    }
  }

  predicate AllVideo(cs: seq<Chunk>) {
    forall i :: 0 <= i < |cs| ==> cs[i].hdr.codec == CODEC_H265 && cs[i].hdr.chunkIdx < 0xFFFF
  }

  lemma {:induction false} VideosAre(cs: seq<Chunk>)
    requires AllNumberable(cs)
    ensures AllVideo(Videos(cs))
  {
    if cs != [] {
      VideosAre(cs[..|cs| - 1]);
      assert Numberable(cs[|cs| - 1]);
    }
  }

  lemma DecodeEncodedAll(cs: seq<Chunk>)
    ensures AllWhole(EncodeAll(cs)) && DecodeAll(EncodeAll(cs)) == cs
  {
    hide Encode, Decode;
    forall i | 0 <= i < |cs|
      ensures |EncodeAll(cs)[i]| >= HDR_SIZE && Decode(EncodeAll(cs)[i]) == cs[i]
    {
      EncodedBack(cs[i]);
    }
  }

  lemma EncodedBack(c: Chunk)
    ensures |Encode(c)| >= HDR_SIZE && Decode(Encode(c)) == c
  {
    DecodeAfterEncode(c);
  }

  /** What the link delivers: the chunks that got through, what is left of others, and an open tail. */
  predicate Carries(pieces: seq<Piece>, tail: seq<byte>, sents: seq<Sent>, chunkPayload: nat)
    requires AllWellFormed(sents, chunkPayload)
  {
    Readable(pieces, tail) && Goods(pieces) == AllReceived(sents, chunkPayload)
  }

  /** A wire that carries the chunks that got through is read back as these. */
  lemma WireIsReadBack(sents: seq<Sent>, chunkPayload: nat, pieces: seq<Piece>, tail: seq<byte>,
                       returned: seq<seq<byte>>, fails: nat, window: seq<byte>)
    requires AllWellFormed(sents, chunkPayload) && Carries(pieces, tail, sents, chunkPayload)
    requires AllHandedOut(Wire(pieces, tail), returned, fails, window)
    ensures AllWhole(returned) && DecodeAll(returned) == AllReceived(sents, chunkPayload)
    ensures window == tail
  {
    hide Readable, Wire, Encode;
    HolesArePassedOver(pieces, tail);
    DecodeEncodedAll(Goods(pieces));
  }

  /** There is such a wire for whatever gets through: its chunks one behind the other. */
  lemma WholeWireCarries(sents: seq<Sent>, chunkPayload: nat)
    requires AllWellFormed(sents, chunkPayload)
    ensures Carries(NoHoles(AllReceived(sents, chunkPayload)), [], sents, chunkPayload)
    ensures Wire(NoHoles(AllReceived(sents, chunkPayload)), []) == Concat(EncodeAll(AllReceived(sents, chunkPayload)))
  {
    hide Numberable, Readable, Wire, Encode;
    var cs := AllReceived(sents, chunkPayload);
    AllReceivedKeeps(sents, chunkPayload);
    forall i | 0 <= i < |cs|
      ensures Intact(cs[i])
    {
      IsIntact(cs[i]);
    }
    NoHolesIsReadable(cs);
  }

  lemma IsIntact(c: Chunk)
    requires Numberable(c)
    ensures Intact(c)
  {
  }

  /**
   Frames sent whole or in parts, other traffic between them, any chunks lost, whole or with what
   is left of them still on the wire: once the reader
   has run dry, the frames completed on the ground are exactly those of which nothing was lost
   and that fit the buffer, and the calls of the RTP sender are as ForwardingConserves has
   them. frames_lost is the sum of the gaps between the frames delivered, in 32 bits. No more is
   asked of the numbers than that frames next to each other differ in them.
   */
  lemma Delivers(sents: seq<Sent>, chunkPayload: nat, cap: nat, wantSei: bool,
                 pieces: seq<Piece>, tail: seq<byte>, returned: seq<seq<byte>>, fails: nat, window: seq<byte>,
                 input: seq<Arrival>)
    requires AllWellFormed(sents, chunkPayload) && Distinguishable(sents, chunkPayload, None)
    requires Carries(pieces, tail, sents, chunkPayload) && AllHandedOut(Wire(pieces, tail), returned, fails, window)
    requires Took(input, returned)
    ensures var (rx, gs) := Track(input, cap, wantSei);
      && Completed(gs) == Delivered(sents, cap)
      && Fits(rx, gs, input, cap, wantSei)
      && AllCalls(input, cap, wantSei) == (rx, CallsOf(gs))
      && rx.framesLost == LostBetween(Delivered(sents, cap)) % 0x1_0000_0000
      && rx.reasm == Run(INITIAL, cap, AllReceived(sents, chunkPayload)).0
  {
    hide Run, WellFormed, Fits, Track, AllHandedOut, Carries, Wire, AllCalls, CallsOf, Distinguishable, LostBetween;
    var cs := AllReceived(sents, chunkPayload);
    WireIsReadBack(sents, chunkPayload, pieces, tail, returned, fails, window);
    AllReceivedKeeps(sents, chunkPayload);
    VideosAre(cs);
    RunVideos(INITIAL, cap, cs);
    InputIsVideo(input, cs);
    LossyDelivery(INITIAL, cap, sents, chunkPayload, None);
    ForwardingConserves(input, cap, wantSei);
    CompletesAndCounts(input, cap, wantSei);
  }

  /**
   With each number used once, dropped_frames counts as well: each frame of which something
   arrived and that was not completed once, but for the lost tail of a frame sent whole.
   */
  lemma EndToEnd(sents: seq<Sent>, chunkPayload: nat, cap: nat, wantSei: bool,
                 pieces: seq<Piece>, tail: seq<byte>, returned: seq<seq<byte>>, fails: nat, window: seq<byte>,
                 input: seq<Arrival>)
    requires AllWellFormed(sents, chunkPayload) && AllDistinct(sents)
    requires Carries(pieces, tail, sents, chunkPayload) && AllHandedOut(Wire(pieces, tail), returned, fails, window)
    requires Took(input, returned)
    ensures var (rx, gs) := Track(input, cap, wantSei);
      && Completed(gs) == Delivered(sents, cap)
      && Fits(rx, gs, input, cap, wantSei)
      && AllCalls(input, cap, wantSei) == (rx, CallsOf(gs))
      && Score(rx.reasm) == TotalToll(sents, chunkPayload, cap)
  {
    hide Run, WellFormed, Fits, Track, AllHandedOut, Carries, Wire, Score, Clear, Unseen, TotalToll, AllCalls;
    hide CallsOf, Distinguishable;
    DistinctIsEnough(sents, chunkPayload, None);
    Delivers(sents, chunkPayload, cap, wantSei, pieces, tail, returned, fails, window, input);
    ClearAtStart(sents);
    DroppedIsExact(INITIAL, cap, sents, chunkPayload);
  }

  /**
   With the frames numbered one by one, frames_lost is never more than the frames sent between
   the first and the last delivered that were not delivered, and exactly these, in 32 bits, if
   and only if never 999 or more are lost in a row.
   */
  lemma FramesLost(sents: seq<Sent>, chunkPayload: nat, cap: nat, wantSei: bool, first: nat,
                   pieces: seq<Piece>, tail: seq<byte>, returned: seq<seq<byte>>, fails: nat, window: seq<byte>,
                   input: seq<Arrival>) returns (lost: nat)
    requires AllWellFormed(sents, chunkPayload) && Distinguishable(sents, chunkPayload, None)
    requires OneByOne(sents, first) && Delivered(sents, cap) != []
    requires Carries(pieces, tail, sents, chunkPayload) && AllHandedOut(Wire(pieces, tail), returned, fails, window)
    requires Took(input, returned)
    ensures Track(input, cap, wantSei).0.framesLost == lost % 0x1_0000_0000
    ensures var at := DeliveredAt(sents, cap, 0);
      && |at| == |Delivered(sents, cap)|
      && at[0] + lost + |at| <= at[|at| - 1] + 1
      && (at[0] + lost + |at| == at[|at| - 1] + 1 <==> Close(at))
  {
    hide WellFormed, Track, AllHandedOut, Carries, Wire, AllCalls, CallsOf, Distinguishable, LostBetween, Close;
    hide Run, Fits;
    hide OneByOne, Delivered, DeliveredAt, Places;
    lost := LostBetween(Delivered(sents, cap));
    Delivers(sents, chunkPayload, cap, wantSei, pieces, tail, returned, fails, window, input);
    DeliveredPlaces(sents, cap, first, 0);
    LostIff(DeliveredAt(sents, cap, 0), Delivered(sents, cap), first);
  }

  /** The same of the program: a receive loop that has read such a wire to its end. */
  lemma DrainedLoop(loop: Loop, sents: seq<Sent>, chunkPayload: nat, pieces: seq<Piece>, tail: seq<byte>)
    requires loop.Valid()
    requires AllWellFormed(sents, chunkPayload) && Distinguishable(sents, chunkPayload, None)
    requires Carries(pieces, tail, sents, chunkPayload) && loop.stream.stream == Wire(pieces, tail)
    requires AllHandedOut(loop.stream.stream, loop.stream.returned, loop.stream.checksumFails, loop.stream.Window())
    ensures var cap := loop.rx.reasm.buf.Length;
      var (rx, gs) := Track(loop.input, cap, loop.rx.wantSei);
      && loop.rx.Abs() == rx
      && Completed(gs) == Delivered(sents, cap)
      && Fits(rx, gs, loop.input, cap, loop.rx.wantSei)
      && loop.rx.SentSince(loop.packets0, loop.seq0, CallsOf(gs))
      && loop.rx.framesLost == LostBetween(Delivered(sents, cap)) % 0x1_0000_0000
  {
    hide WellFormed, Track, AllHandedOut, Carries, Wire, AllCalls, CallsOf, Distinguishable, LostBetween, Run, Fits;
    hide Took, Heard;
    hide ClockSync.OnReplies;
    Delivers(sents, chunkPayload, loop.rx.reasm.buf.Length, loop.rx.wantSei, pieces, tail, loop.stream.returned,
             loop.stream.checksumFails, loop.stream.Window(), loop.input);
  }

  lemma InputIsVideo(input: seq<Arrival>, cs: seq<Chunk>)
    requires ChunksOf(input) == Videos(cs)
    requires AllVideo(Videos(cs))
    ensures NoWrapAround(input) && forall i :: 0 <= i < |input| ==> input[i].chunk.hdr.codec == CODEC_H265
  {
    assert forall i :: 0 <= i < |input| ==> input[i].chunk == ChunksOf(input)[i];
  }
}
