/** Runs of rx/main.c in which frames_lost counts fewer frames than were lost. */
module LostInARow {
  import opened Bytes
  import opened ChunkWire
  import opened Chunker
  import opened SentFrames
  import opened Reassembly
  import opened Delivery
  import opened DropCount
  import opened Receiver
  import opened Forwarding
  import opened Losses
  import opened ReceiveLoop
  import opened EndToEnd

  /** The frame that m and data describe, as frame n of a run. */
  function FrameNo(m: Meta, data: seq<byte>, n: nat): Frame {
    Whole(m.(frameSeq := n % 0x1_0000), data)
  }

  function NoneThrough(n: nat): (mask: seq<bool>)
    ensures |mask| == n && NoneSet(mask)
  {
    seq(n, _ => false)
  }

  predicate CanSend(m: Meta, data: seq<byte>, chunkPayload: nat) {
    Sendable(Whole(m, data), chunkPayload) && m.codec == CODEC_H265
  }

  function FrameSent(m: Meta, data: seq<byte>, chunkPayload: nat, n: nat, through: bool): (s: Sent)
    requires CanSend(m, data, chunkPayload)
  {
    var f := FrameNo(m, data, n);
    var count := |FrameChunks(f, chunkPayload)|;
    Video(f, if through then AllThrough(count) else NoneThrough(count))
  }

  /** Frames from number `from` on, the first k of which are lost and then one that is not. */
  function LostThenOne(m: Meta, data: seq<byte>, chunkPayload: nat, from: nat, k: nat): seq<Sent>
    requires CanSend(m, data, chunkPayload)
    decreases k
  {
    if k == 0 then [FrameSent(m, data, chunkPayload, from, true)]
    else [FrameSent(m, data, chunkPayload, from, false)] + LostThenOne(m, data, chunkPayload, from + 1, k - 1)
  }

  /** Two frames that get through, and k between them that do not. */
  function LostBetweenTwo(m: Meta, data: seq<byte>, chunkPayload: nat, first: nat, k: nat): seq<Sent>
    requires CanSend(m, data, chunkPayload)
  {
    [FrameSent(m, data, chunkPayload, first, true)] + LostThenOne(m, data, chunkPayload, first + 1, k)
  }

  /** One frame of it. */
  lemma SentIs(m: Meta, data: seq<byte>, chunkPayload: nat, n: nat, through: bool)
    requires CanSend(m, data, chunkPayload)
    ensures var s := FrameSent(m, data, chunkPayload, n, through);
      && WellFormed(s, chunkPayload) && s.Video? && s.frame == FrameNo(m, data, n)
      && (AllSet(s.mask) <==> through) && (!through ==> Received(s, chunkPayload) == [])
  {
    hide Through;
    var s := FrameSent(m, data, chunkPayload, n, through);
    FrameIsNumbered(s.frame, chunkPayload);
    if !through {
      assert !s.mask[0];
      ThroughNone(FrameChunks(s.frame, chunkPayload), s.mask);
    }
  }

  lemma {:induction false} LostThenOneIs(m: Meta, data: seq<byte>, chunkPayload: nat, from: nat, k: nat, cap: nat,
                                         at: nat, last: u16)
    requires CanSend(m, data, chunkPayload) && |data| <= cap && last as int != (from + k) % 0x1_0000
    ensures var sents := LostThenOne(m, data, chunkPayload, from, k);
      && AllWellFormed(sents, chunkPayload) && OneByOne(sents, from)
      && Distinguishable(sents, chunkPayload, Some(last))
      && DeliveredAt(sents, cap, at) == [at + k]
      && Delivered(sents, cap) == [OutputOf(FrameNo(m, data, from + k).meta, data)]
    decreases k
  {
    hide FrameSent, WellFormed, AllSet, Received, Sendable;
    SentIs(m, data, chunkPayload, from, k == 0);
    if k > 0 {
      LostThenOneIs(m, data, chunkPayload, from + 1, k - 1, cap, at + 1, last);
    }
  }

  lemma LostBetweenTwoIs(m: Meta, data: seq<byte>, chunkPayload: nat, first: nat, k: nat, cap: nat)
    requires CanSend(m, data, chunkPayload) && |data| <= cap && (k + 1) % 0x1_0000 != 0
    ensures var sents := LostBetweenTwo(m, data, chunkPayload, first, k);
      && AllWellFormed(sents, chunkPayload) && OneByOne(sents, first)
      && Distinguishable(sents, chunkPayload, None)
      && DeliveredAt(sents, cap, 0) == [0, k + 1]
      && Delivered(sents, cap) == [OutputOf(FrameNo(m, data, first).meta, data),
                                   OutputOf(FrameNo(m, data, first + 1 + k).meta, data)]
  {
    hide FrameSent, WellFormed, AllSet, Received, Sendable, LostThenOne;
    SentIs(m, data, chunkPayload, first, true);
    LostThenOneIs(m, data, chunkPayload, first + 1, k, cap, 1, first % 0x1_0000);
    if Received(FrameSent(m, data, chunkPayload, first, true), chunkPayload) == [] {
      StillDistinguishable(LostThenOne(m, data, chunkPayload, first + 1, k), chunkPayload, first % 0x1_0000);
    }
  }

  lemma {:induction false} StillDistinguishable(sents: seq<Sent>, chunkPayload: nat, last: u16)
    requires AllWellFormed(sents, chunkPayload) && Distinguishable(sents, chunkPayload, Some(last))
    ensures Distinguishable(sents, chunkPayload, None)
    decreases |sents|
  {
    hide WellFormed, Received;
    if sents != [] && !(sents[0].Video? && Received(sents[0], chunkPayload) != []) {
      StillDistinguishable(sents[1..], chunkPayload, last);
    }
  }

  /**
   Two frames with k lost ones in between: frames_lost is k up to 998, but 0 for 999 or more in a
   row, and after a whole turn of the 16-bit number only what the gap comes to in 16 bits.
   */
  lemma GapIsCounted(m: Meta, data: seq<byte>, chunkPayload: nat, first: nat, k: nat, cap: nat, wantSei: bool,
                     input: seq<Arrival>)
    requires CanSend(m, data, chunkPayload) && |data| <= cap && (k + 1) % 0x1_0000 != 0
    ensures var sents := LostBetweenTwo(m, data, chunkPayload, first, k);
      && AllWellFormed(sents, chunkPayload) && OneByOne(sents, first) && DeliveredAt(sents, cap, 0) == [0, k + 1]
      && (ChunksOf(input) == Videos(AllReceived(sents, chunkPayload)) ==>
            var gap := (k + 1) % 0x1_0000;
            Track(input, cap, wantSei).0.framesLost == if gap < 1000 then gap - 1 else 0)
  {
    hide LostBetweenTwo, OneByOne, DeliveredAt, Delivered, Distinguishable, WellFormed, Track, Run, Missing;
    hide LostBetween, Sendable, AllReceived, Videos;
    LostBetweenTwoIs(m, data, chunkPayload, first, k, cap);
    var sents := LostBetweenTwo(m, data, chunkPayload, first, k);
    var cs := AllReceived(sents, chunkPayload);
    if ChunksOf(input) == Videos(cs) {
      AllReceivedKeeps(sents, chunkPayload);
      VideosAre(cs);
      RunVideos(INITIAL, cap, cs);
      InputIsVideo(input, cs);
      LossyDelivery(INITIAL, cap, sents, chunkPayload, None);
      CompletesAndCounts(input, cap, wantSei);
      TwoAre(Delivered(sents, cap), first, k);
    }
  }

  lemma TwoAre(outs: seq<Output>, first: nat, k: nat)
    requires |outs| == 2 && (k + 1) % 0x1_0000 != 0
    requires outs[0].frameSeq as int == first % 0x1_0000 && outs[1].frameSeq as int == (first + 1 + k) % 0x1_0000
    ensures var gap := (k + 1) % 0x1_0000; LostBetween(outs) == if gap < 1000 then gap - 1 else 0
  {
    hide Missing;
    var s, t := outs[0].frameSeq, outs[1].frameSeq;
    var p, q := first / 0x1_0000, (first + 1 + k) / 0x1_0000;
    assert t as int - s as int == k + 1 + (p - q) * 0x1_0000;
    ModOf(k + 1, p - q);
    MissingIs(s, t, (k + 1) % 0x1_0000);
    assert outs[..1] == [outs[0]];
    assert LostBetween(outs[..1]) == 0;
  }
}
