/**
 From the encoder's NALs to an RTP receiver's: what becomes of a frame that the air unit sends,
 whole or in parts, once the receive loop of rx/main.c has completed it.
 */
module SentNals {
  import opened Bytes
  import opened AnnexB
  import opened ChunkWire
  import opened SentFrames
  import opened Receiver
  import opened Forwarding
  import opened RtpReceive
  import opened FrameTiming
  import opened FrameNals
  import opened WholeParts
  import Rtp

  function PartsOf(f: Frame): seq<seq<byte>> {
    match f
    case Whole(_, data) => [data]
    case Streamed(_, parts) => parts
  }

  /** Each part is a byte stream of whole NALs, of which there is room for one more in the table. */
  ghost predicate AreNals(parts: seq<seq<byte>>, nals: seq<seq<seq<byte>>>, longs: seq<seq<bool>>) {
    && |parts| == |nals| == |longs|
    && forall i :: 0 <= i < |parts| ==>
         && |nals[i]| == |longs[i]| && parts[i] == ByteStream(nals[i], longs[i])
         && AllGood(nals[i]) && |nals[i]| < Rtp.MAX_NALS
  }

  /** Each of the calls carries such NALs. */
  ghost predicate Loaded(calls: seq<Call>, nals: seq<seq<seq<byte>>>, longs: seq<seq<bool>>) {
    AreNals(CallParts(calls), nals, longs)
  }

  lemma LoadedAppend(a: seq<Call>, an: seq<seq<seq<byte>>>, al: seq<seq<bool>>,
                     b: seq<Call>, bn: seq<seq<seq<byte>>>, bl: seq<seq<bool>>)
    requires Loaded(a, an, al) && Loaded(b, bn, bl)
    ensures Loaded(a + b, an + bn, al + bl) && Flat(an + bn) == Flat(an) + Flat(bn)
  {
    hide ByteStream, AllGood, Flat;
    FlatSplit(an + bn, |an|);
    assert (an + bn)[..|an|] == an && (an + bn)[|an|..] == bn;
  }

  lemma LoadedCarries(calls: seq<Call>, nals: seq<seq<seq<byte>>>, longs: seq<seq<bool>>)
    requires Loaded(calls, nals, longs)
    ensures Carry(calls, nals, longs)
  {
    hide ByteStream, AnnexB.Clean, Carriable, FirstVcl;
    forall i | 0 <= i < |calls|
      ensures calls[i].part == ByteStream(nals[i], longs[i]) && AllGood(nals[i]) && |nals[i]| == |longs[i]|
      ensures |CallNals(calls[i], nals[i])| <= Rtp.MAX_NALS
    {
      assert CallParts(calls)[i] == calls[i].part;
    }
  }

  lemma NothingIsNoNal(nals: seq<seq<byte>>, long: seq<bool>)
    requires |nals| == |long| && ByteStream(nals, long) == []
    ensures nals == []
  {
  }

  /** Calls for the parts that hold something. */
  lemma {:induction false} EarlyLoaded(calls: seq<Call>, parts: seq<seq<byte>>, nals: seq<seq<seq<byte>>>,
                                       longs: seq<seq<bool>>)
    returns (n: seq<seq<seq<byte>>>, l: seq<seq<bool>>)
    requires AreNals(parts, nals, longs) && CallParts(calls) == NonEmpty(parts)
    ensures Loaded(calls, n, l) && Flat(n) == Flat(nals)
    decreases |parts|
  {
    hide ByteStream, AllGood;
    if parts == [] {
      n, l := [], [];
      assert calls == [];
    } else {
      var k := |parts| - 1;
      if parts[k] == [] {
        NothingIsNoNal(nals[k], longs[k]);
        n, l := EarlyLoaded(calls, parts[..k], nals[..k], longs[..k]);
      } else {
        var m := |calls| - 1;
        assert |CallParts(calls)| == |NonEmpty(parts[..k])| + 1;
        assert CallParts(calls[..m]) == CallParts(calls)[..m] == NonEmpty(parts[..k]);
        assert CallParts(calls)[m] == parts[k];
        n, l := EarlyLoaded(calls[..m], parts[..k], nals[..k], longs[..k]);
        n, l := n + [nals[k]], l + [longs[k]];
      }
    }
  }

  /** The calls at the end of a frame carry the last part. */
  lemma LastLoaded(before: seq<Call>, calls: seq<Call>, h: Hdr, t: Clock, due: bool, part: seq<byte>,
                   nals: seq<seq<byte>>, long: seq<bool>)
    returns (n: seq<seq<seq<byte>>>, l: seq<seq<bool>>)
    requires Ends(before, calls, h, t, due) && Parts(calls) == part && AreNals([part], [nals], [long])
    ensures Loaded(calls, n, l) && Flat(n) == nals
  {
    hide ByteStream, AllGood, SeiPlaced, Parts;
    assert [part][0] == part && [nals][0] == nals && [long][0] == long;
    if calls == [] {
      NothingParts();
      NothingIsNoNal(nals, long);
      n, l := [], [];
    } else if |calls| == 1 {
      assert calls == [calls[0]];
      PartsOne(calls[0]);
      n, l := [nals], [long];
      OneFlat(nals);
    } else {
      assert calls == [calls[0]] + [calls[1]];
      PartsOne(calls[0]);
      PartsOne(calls[1]);
      PartsAppend([calls[0]], [calls[1]]);
      assert [] + calls[1].part == calls[1].part;
      n, l := [[], nals], [[], long];
      NothingGood();
      TwoFlat(nals);
    }
  }

  lemma NothingParts()
    ensures Parts([]) == []
  {
  }

  lemma NothingGood()
    ensures ByteStream([], []) == [] && AllGood([])
  {
  }

  lemma OneFlat<T>(x: seq<T>)
    ensures Flat([x]) == x
  {
    assert [x][..0] == [] && Flat<T>([]) == [];
  }

  lemma TwoFlat<T>(x: seq<T>)
    ensures Flat([[], x]) == x
  {
    var s: seq<seq<T>> := [[], x];
    OneFlat<T>([]);
    assert s[..1] == [[]];
  }

  // What had gone before the last chunk

  lemma {:induction false} NoSlices(cs: seq<Chunk>)
    requires forall i :: 0 <= i < |cs| ==> !HasSliceEnd(cs[i].hdr.flags)
    ensures Sliced(cs) == 0 && SliceParts(cs) == []
  {
    hide HasSliceEnd, IsStreamed;
    if cs != [] {
      NoSlices(cs[..|cs| - 1]);
    }
  }

  /** Before the last chunk of a frame comes, all its parts but the last have gone. */
  lemma EarlyIsParts(f: Frame, chunkPayload: nat)
    requires Sendable(f, chunkPayload)
    ensures PartsOf(f) != [] && FrameChunks(f, chunkPayload) != []
    ensures var cs, n := FrameChunks(f, chunkPayload), |PartsOf(f)| - 1;
      && SliceParts(cs[..|cs| - 1]) == NonEmpty(PartsOf(f)[..n])
      && EarlyBytes(cs) == Concat(PartsOf(f)[..n])
  {
    hide FrameChunks, SliceParts, Sliced, Payloads, NonEmpty, Concat, HasSliceEnd, NoWrap, EndsPart;
    FrameIsNumbered(f, chunkPayload);
    var cs := FrameChunks(f, chunkPayload);
    var before := cs[..|cs| - 1];
    match f
    case Whole(m, data) =>
      forall i | 0 <= i < |before|
        ensures !HasSliceEnd(before[i].hdr.flags)
      {
        SliceEndIff(f, chunkPayload, i);
      }
      NoSlices(before);
      NothingSliced(cs, [data]);
      NothingIn(before, [data]);
    case Streamed(m, parts) =>
      var k := SlicesAreParts(m, parts, chunkPayload, |before|);
      AllButLast(m, parts, chunkPayload, k);
      SlicedInside(cs, |before|);
  }

  /** The frame as it was sent, and its calls as they were made, carry the same NALs. */
  lemma FrameIsLoaded(g: Group, wantSei: bool, t: Clock, f: Frame, chunkPayload: nat,
                      nals: seq<seq<seq<byte>>>, longs: seq<seq<bool>>)
    returns (n: seq<seq<seq<byte>>>, l: seq<seq<bool>>)
    requires Done(g, wantSei, t) && Sendable(f, chunkPayload) && g.chunks == FrameChunks(f, chunkPayload)
    requires AreNals(PartsOf(f), nals, longs)
    ensures Loaded(g.calls, n, l) && Flat(n) == Flat(nals)
  {
    hide FrameChunks, SliceParts, Payloads, NonEmpty, Concat, NoWrap, Ends, AreNals, Loaded, Flat, Parts, CallParts;
    hide Sendable, EarlyBytes, InOrder, HasEnd, EndIsLost, NoneEnds;
    var parts, m := PartsOf(f), |PartsOf(f)| - 1;
    EarlyIsParts(f, chunkPayload);
    var k :| && 0 <= k <= |g.calls| && Early(g, g.calls[..k])
             && Ends(g.calls[..k], g.calls[k..], g.chunks[0].hdr, t, Due(wantSei, t));
    SplitNals(parts, nals, longs);
    var n1, l1 := EarlyLoaded(g.calls[..k], parts[..m], nals[..m], longs[..m]);
    LastPartGoes(g, f, chunkPayload, k);
    var n2, l2 := LastLoaded(g.calls[..k], g.calls[k..], g.chunks[0].hdr, t, Due(wantSei, t), parts[m], nals[m],
                             longs[m]);
    n, l := n1 + n2, l1 + l2;
    LoadedAppend(g.calls[..k], n1, l1, g.calls[k..], n2, l2);
    assert g.calls[..k] + g.calls[k..] == g.calls;
  }

  lemma SplitNals(parts: seq<seq<byte>>, nals: seq<seq<seq<byte>>>, longs: seq<seq<bool>>)
    requires parts != [] && AreNals(parts, nals, longs)
    ensures |nals| == |longs| == |parts|
    ensures var m := |parts| - 1;
      && AreNals(parts[..m], nals[..m], longs[..m]) && AreNals([parts[m]], [nals[m]], [longs[m]])
      && Flat(nals) == Flat(nals[..m]) + nals[m]
  {
    hide ByteStream, AllGood, Flat;
    LastFlat(nals);
  }

  lemma LastFlat<T>(s: seq<seq<T>>)
    requires s != []
    ensures Flat(s) == Flat(s[..|s| - 1]) + s[|s| - 1]
  {
  }

  /** What is left for the end is the last part. */
  lemma LastPartGoes(g: Group, f: Frame, chunkPayload: nat, k: nat)
    requires Sendable(f, chunkPayload) && g.chunks == FrameChunks(f, chunkPayload)
    requires g.chunks != [] && Parts(g.calls) == Payloads(g.chunks) && k <= |g.calls|
    requires Parts(g.calls[..k]) == EarlyBytes(g.chunks)
    ensures PartsOf(f) != [] && Parts(g.calls[k..]) == PartsOf(f)[|PartsOf(f)| - 1]
  {
    hide FrameChunks, SliceParts, Payloads, NonEmpty, Concat, NoWrap, Parts, EarlyBytes, Sendable;
    FrameIsNumbered(f, chunkPayload);
    EarlyIsParts(f, chunkPayload);
    var parts, m := PartsOf(f), |PartsOf(f)| - 1;
    assert g.calls == g.calls[..k] + g.calls[k..];
    PartsAppend(g.calls[..k], g.calls[k..]);
    assert parts == parts[..m] + [parts[m]];
    ConcatSnoc(parts[..m], parts[m]);
    DataIsParts(f);
    var x := Concat(parts[..m]);
    assert (x + Parts(g.calls[k..]))[|x|..] == Parts(g.calls[k..]) && (x + parts[m])[|x|..] == parts[m];
  }

  lemma DataIsParts(f: Frame)
    ensures DataOf(f) == Concat(PartsOf(f))
  {
    match f
    case Whole(_, data) =>
      assert [data] == [] + [data];
      ConcatSnoc([], data);
    case Streamed(_, _) =>
  }

  /**
   A frame of whole NALs as the encoder gave them, sent in one go or in parts, and completed by
   the receive loop: an RTP receiver gets exactly its NALs, in order, with the SEI at its place,
   the marker, and the frame's time.
   */
  lemma SentFrameArrives(g: Group, wantSei: bool, t: Clock, f: Frame, chunkPayload: nat,
                         nals: seq<seq<seq<byte>>>, longs: seq<seq<bool>>, maxPayload: nat, seqNo: u16, ssrc: u32)
    requires Done(g, wantSei, t) && Sendable(f, chunkPayload) && g.chunks == FrameChunks(f, chunkPayload)
    requires AllAt(g.calls, Ts(g.chunks[0].hdr.framePts))
    requires AreNals(PartsOf(f), nals, longs) && maxPayload >= 2
    ensures Arrives(CallPackets(seqNo, ssrc, maxPayload, g.calls), g, Flat(nals), t)
    ensures g.chunks[0].hdr.framePts == f.meta.framePts && g.chunks[0].hdr.frameSeq == f.meta.frameSeq
  {
    hide FrameChunks, Done, Sendable, AllAt, AreNals, Carry, Loaded, Arrives, CallPackets, Flat;
    FrameIsNumbered(f, chunkPayload);
    var n, l := FrameIsLoaded(g, wantSei, t, f, chunkPayload, nals, longs);
    LoadedCarries(g.calls, n, l);
    FrameArrives(g, wantSei, t, n, l, maxPayload, seqNo, ssrc);
    assert HeaderFits(g.chunks[0].hdr, f.meta, f.Streamed?, 0, |g.chunks|);
  }
}
