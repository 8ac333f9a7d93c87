/**
 Where a frame sent in parts is marked, and what of it a receiver has in hand as whole slices: the
 slice mark of common/chunker.c, as rx/main.c goes by it.
 */
module WholeParts {
  import opened Bytes
  import opened ChunkWire
  import opened Chunker
  import opened SentFrames
  import opened Forwarding

  /** How many chunks the first k parts take. */
  function ChunksOfParts(parts: seq<seq<byte>>, chunkPayload: nat, k: nat): nat
    requires 0 < chunkPayload && (forall p :: p in parts ==> NoWrap(p, chunkPayload)) && k <= |parts|
  {
    PartCounts(parts[..k], chunkPayload)
  }

  lemma FirstPart(parts: seq<seq<byte>>, chunkPayload: nat, k: nat)
    requires 0 < chunkPayload && (forall p :: p in parts ==> NoWrap(p, chunkPayload)) && 0 < k <= |parts|
    ensures parts[0] in parts
    ensures ChunksOfParts(parts, chunkPayload, k)
            == ChunkCount(|parts[0]|, chunkPayload) + ChunksOfParts(parts[1..], chunkPayload, k - 1)
  {
    hide ChunkCount;
    assert parts[0] in parts;
    assert parts[..k][0] == parts[0] && parts[..k][1..] == parts[1..][..k - 1];
  }

  /** Each part takes a chunk at least. */
  lemma {:induction false} PartsGrow(parts: seq<seq<byte>>, chunkPayload: nat, j: nat, k: nat)
    requires 0 < chunkPayload && (forall p :: p in parts ==> NoWrap(p, chunkPayload)) && j <= k <= |parts|
    ensures ChunksOfParts(parts, chunkPayload, j) + (k - j) <= ChunksOfParts(parts, chunkPayload, k)
    decreases k
  {
    hide ChunkCount, ChunksOfParts;
    if j < k {
      FirstPart(parts, chunkPayload, k);
      if j == 0 {
        NoParts(parts, chunkPayload);
        NoParts(parts[1..], chunkPayload);
        PartsGrow(parts[1..], chunkPayload, 0, k - 1);
      } else {
        FirstPart(parts, chunkPayload, j);
        PartsGrow(parts[1..], chunkPayload, j - 1, k - 1);
      }
    }
  }

  lemma NoParts(parts: seq<seq<byte>>, chunkPayload: nat)
    requires 0 < chunkPayload && forall p :: p in parts ==> NoWrap(p, chunkPayload)
    ensures ChunksOfParts(parts, chunkPayload, 0) == 0
  {
  }

  /** Chunk i is the last of part k - 1, and not of the last part. */
  ghost predicate EndsPart(parts: seq<seq<byte>>, chunkPayload: nat, i: nat)
    requires 0 < chunkPayload && forall p :: p in parts ==> NoWrap(p, chunkPayload)
  {
    exists k :: 0 < k < |parts| && i + 1 == ChunksOfParts(parts, chunkPayload, k)
  }

  lemma ChunkMark(m: Meta, nr: Numbering, data: seq<byte>, chunkPayload: nat, i: nat)
    requires Splittable(data, chunkPayload) && m.flags < 0x40 && i < ChunkCount(|data|, chunkPayload)
    ensures HasSliceEnd(Chunks(m, nr, data, chunkPayload)[i].hdr.flags)
            <==> nr.part && !nr.frameEnd && i + 1 == ChunkCount(|data|, chunkPayload)
  {
    hide ChunkCount, Piece;
  }

  lemma {:induction false} PartMarks(m: Meta, parts: seq<seq<byte>>, chunkPayload: nat, first: nat, i: nat)
    requires 0 < chunkPayload <= MAX_PAYLOAD && parts != [] && m.flags < 0x40
    requires forall p :: p in parts ==> NoWrap(p, chunkPayload)
    requires first + PartCounts(parts, chunkPayload) <= 0xFFFF
    requires i < |PartChunks(m, parts, chunkPayload, first)|
    ensures HasSliceEnd(PartChunks(m, parts, chunkPayload, first)[i].hdr.flags) <==> EndsPart(parts, chunkPayload, i)
    decreases |parts|
  {
    hide Chunks, ChunkCount, ChunksOfParts, EndsPart, HasSliceEnd;
    assert NoWrap(parts[0], chunkPayload);
    var nr := Numbering(first, 0, |parts| == 1, true);
    var here := Chunks(m, nr, parts[0], chunkPayload);
    if i < |here| {
      ChunkMark(m, nr, parts[0], chunkPayload, i);
      EndsFirst(parts, chunkPayload, i);
    } else {
      PartMarks(m, parts[1..], chunkPayload, first + |here|, i - |here|);
      EndsLater(parts, chunkPayload, i);
    }
  }

  lemma EndsFirst(parts: seq<seq<byte>>, chunkPayload: nat, i: nat)
    requires 0 < chunkPayload && parts != [] && forall p :: p in parts ==> NoWrap(p, chunkPayload)
    requires NoWrap(parts[0], chunkPayload) && i < ChunkCount(|parts[0]|, chunkPayload)
    ensures EndsPart(parts, chunkPayload, i) <==> |parts| > 1 && i + 1 == ChunkCount(|parts[0]|, chunkPayload)
  {
    hide ChunkCount, ChunksOfParts;
    FirstPart(parts, chunkPayload, 1);
    NoParts(parts[1..], chunkPayload);
    forall k | 1 < k < |parts|
      ensures i + 1 < ChunksOfParts(parts, chunkPayload, k)
    {
      PartsGrow(parts, chunkPayload, 1, k);
    }
  }

  lemma EndsLater(parts: seq<seq<byte>>, chunkPayload: nat, i: nat)
    requires 0 < chunkPayload && parts != [] && forall p :: p in parts ==> NoWrap(p, chunkPayload)
    requires NoWrap(parts[0], chunkPayload) && i >= ChunkCount(|parts[0]|, chunkPayload)
    ensures EndsPart(parts, chunkPayload, i)
            <==> EndsPart(parts[1..], chunkPayload, i - ChunkCount(|parts[0]|, chunkPayload))
  {
    hide ChunkCount, ChunksOfParts;
    NoParts(parts[1..], chunkPayload);
    forall k | 0 < k <= |parts|
      ensures ChunksOfParts(parts, chunkPayload, k)
              == ChunkCount(|parts[0]|, chunkPayload) + ChunksOfParts(parts[1..], chunkPayload, k - 1)
    {
      FirstPart(parts, chunkPayload, k);
    }
    var n := ChunkCount(|parts[0]|, chunkPayload);
    if EndsPart(parts, chunkPayload, i) {
      var k :| 0 < k < |parts| && i + 1 == ChunksOfParts(parts, chunkPayload, k);
      assert i - n + 1 == ChunksOfParts(parts[1..], chunkPayload, k - 1);
    }
    if EndsPart(parts[1..], chunkPayload, i - n) {
      var k :| 0 < k < |parts[1..]| && i - n + 1 == ChunksOfParts(parts[1..], chunkPayload, k);
      assert i + 1 == ChunksOfParts(parts, chunkPayload, k + 1);
    }
  }

  /** The slice mark is on the last chunk of each part but the last, and on no other; none is on a frame sent whole. */
  lemma SliceEndIff(f: Frame, chunkPayload: nat, i: nat)
    requires Sendable(f, chunkPayload) && i < |FrameChunks(f, chunkPayload)|
    ensures HasSliceEnd(FrameChunks(f, chunkPayload)[i].hdr.flags)
            <==> f.Streamed? && EndsPart(f.parts, chunkPayload, i)
  {
    hide Chunks, ChunkCount, EndsPart, HasSliceEnd;
    match f
    case Whole(m, data) =>
      ChunkMark(m, Numbering(0, ChunkCount(|data|, chunkPayload), false, false), data, chunkPayload, i);
    case Streamed(m, parts) =>
      PartMarks(m, parts, chunkPayload, 0, i);
  }

  /** The chunks of the first k parts carry exactly these. */
  lemma {:induction false} PartsPrefix(m: Meta, parts: seq<seq<byte>>, chunkPayload: nat, first: nat, k: nat)
    requires 0 < chunkPayload <= MAX_PAYLOAD && parts != [] && k <= |parts|
    requires forall p :: p in parts ==> NoWrap(p, chunkPayload)
    requires first + PartCounts(parts, chunkPayload) <= 0xFFFF
    ensures var cs := PartChunks(m, parts, chunkPayload, first);
      && ChunksOfParts(parts, chunkPayload, k) <= |cs|
      && (k == |parts| ==> ChunksOfParts(parts, chunkPayload, k) == |cs|)
      && Payloads(cs[..ChunksOfParts(parts, chunkPayload, k)]) == Concat(parts[..k])
    decreases |parts|
  {
    hide Chunks, ChunkCount, ChunksOfParts, Payloads, Concat;
    NoParts(parts, chunkPayload);
    var cs := PartChunks(m, parts, chunkPayload, first);
    if k == 0 {
      NothingIn(cs, parts);
    } else {
      FirstPart(parts, chunkPayload, k);
      NoParts(parts[1..], chunkPayload);
      var nr := Numbering(first, 0, |parts| == 1, true);
      PayloadsAreData(m, nr, parts[0], chunkPayload);
      var here := Chunks(m, nr, parts[0], chunkPayload);
      assert parts[..k] == [parts[0]] + parts[1..][..k - 1];
      ConcatCons(parts[0], parts[1..][..k - 1]);
      if |parts| == 1 {
        assert cs[..|cs|] == cs;
        NothingIn(cs, parts[1..]);
        assert parts[0] + [] == parts[0];
      } else {
        PartsPrefix(m, parts[1..], chunkPayload, first + |here|, k - 1);
        var there := PartChunks(m, parts[1..], chunkPayload, first + |here|);
        var n := ChunksOfParts(parts[1..], chunkPayload, k - 1);
        assert cs[..|here| + n] == here + there[..n];
        PayloadsAppend(here, there[..n]);
      }
    }
  }

  lemma NothingIn(cs: seq<Chunk>, parts: seq<seq<byte>>)
    ensures Payloads(cs[..0]) == [] && Concat(parts[..0]) == []
  {
  }

  lemma ConcatCons(p: seq<byte>, parts: seq<seq<byte>>)
    ensures Concat([p] + parts) == p + Concat(parts)
  {
    assert ([p] + parts)[1..] == parts;
  }

  // What the receiver goes by

  /** The parts that hold something. */
  function NonEmpty(parts: seq<seq<byte>>): seq<seq<byte>> {
    if parts == [] then []
    else
      var n := |parts| - 1;
      NonEmpty(parts[..n]) + if parts[n] != [] then [parts[n]] else []
  }

  /** With n chunks of the frame in hand, so many parts are whole, and not the last one of the frame. */
  predicate WholeIn(parts: seq<seq<byte>>, chunkPayload: nat, n: nat, k: nat)
    requires 0 < chunkPayload && forall p :: p in parts ==> NoWrap(p, chunkPayload)
  {
    && k < |parts| && ChunksOfParts(parts, chunkPayload, k) <= n
    && (k + 1 < |parts| ==> n < ChunksOfParts(parts, chunkPayload, k + 1))
  }

  /** The next chunk ends part k exactly if it has the mark. */
  lemma NextWhole(parts: seq<seq<byte>>, chunkPayload: nat, n: nat, k: nat)
    requires 0 < chunkPayload && forall p :: p in parts ==> NoWrap(p, chunkPayload)
    requires n > 0 && WholeIn(parts, chunkPayload, n - 1, k)
    ensures if EndsPart(parts, chunkPayload, n - 1)
            then k + 1 < |parts| && n == ChunksOfParts(parts, chunkPayload, k + 1)
                 && WholeIn(parts, chunkPayload, n, k + 1)
            else WholeIn(parts, chunkPayload, n, k)
  {
    hide ChunksOfParts;
    if EndsPart(parts, chunkPayload, n - 1) {
      var j :| 0 < j < |parts| && n == ChunksOfParts(parts, chunkPayload, j);
      if j <= k {
        PartsGrow(parts, chunkPayload, j, k);
      } else if j > k + 1 {
        PartsGrow(parts, chunkPayload, k + 1, j);
      }
      if j + 1 < |parts| {
        PartsGrow(parts, chunkPayload, j, j + 1);
      }
    } else if k + 1 < |parts| {
      assert n != ChunksOfParts(parts, chunkPayload, k + 1);
    }
  }

  lemma PartAt(cs: seq<Chunk>, parts: seq<seq<byte>>, k: nat, a: nat, b: nat)
    requires k < |parts| && a <= b <= |cs|
    requires Payloads(cs[..a]) == Concat(parts[..k]) && Payloads(cs[..b]) == Concat(parts[..k + 1])
    ensures Payloads(cs[a..b]) == parts[k]
  {
    hide Payloads, Concat;
    assert cs[..b] == cs[..a] + cs[a..b];
    PayloadsAppend(cs[..a], cs[a..b]);
    assert parts[..k + 1] == parts[..k] + [parts[k]];
    ConcatSnoc(parts[..k], parts[k]);
    var x := Concat(parts[..k]);
    assert (x + Payloads(cs[a..b]))[|x|..] == Payloads(cs[a..b]) && (x + parts[k])[|x|..] == parts[k];
  }

  /** One chunk more, and what that does to the slices. */
  lemma SlicesStep(cs: seq<Chunk>, n: nat)
    requires 0 < n <= |cs|
    ensures IsStreamed(cs[0].hdr) && HasSliceEnd(cs[n - 1].hdr.flags) ==>
              && Sliced(cs[..n]) == n
              && SliceParts(cs[..n])
                 == SliceParts(cs[..n - 1])
                    + (var slice := Payloads(cs[Sliced(cs[..n - 1])..n]); if slice != [] then [slice] else [])
    ensures !(IsStreamed(cs[0].hdr) && HasSliceEnd(cs[n - 1].hdr.flags)) ==>
              Sliced(cs[..n]) == Sliced(cs[..n - 1]) && SliceParts(cs[..n]) == SliceParts(cs[..n - 1])
  {
    hide Payloads, IsStreamed, HasSliceEnd;
    assert cs[..n] == cs[..n - 1] + [cs[n - 1]];
    OneMoreChunk(cs[..n - 1], cs[n - 1]);
    OneMoreSlice(cs[..n - 1], cs[n - 1]);
    assert cs[..n][Sliced(cs[..n - 1])..] == cs[Sliced(cs[..n - 1])..n];
  }

  /**
   With any first n chunks of a frame sent in parts, the complete slices are the parts that are
   whole in them, one by one: no more, no less, and never the last one.
   */
  lemma {:induction false} SlicesAreParts(m: Meta, parts: seq<seq<byte>>, chunkPayload: nat, n: nat) returns (k: nat)
    requires Sendable(Streamed(m, parts), chunkPayload) && n <= |FrameChunks(Streamed(m, parts), chunkPayload)|
    ensures WholeIn(parts, chunkPayload, n, k)
    ensures var cs := FrameChunks(Streamed(m, parts), chunkPayload);
      && Sliced(cs[..n]) == ChunksOfParts(parts, chunkPayload, k)
      && Payloads(cs[..Sliced(cs[..n])]) == Concat(parts[..k])
      && SliceParts(cs[..n]) == NonEmpty(parts[..k])
    decreases n
  {
    hide FrameChunks, ChunksOfParts, EndsPart, HasSliceEnd, Payloads, Sliced, SliceParts, Concat, NonEmpty, NoWrap;
    hide IsStreamed;
    var f := Streamed(m, parts);
    var cs := FrameChunks(f, chunkPayload);
    if n == 0 {
      k := 0;
      NoneWhole(parts, chunkPayload);
      NothingSliced(cs, parts);
      NothingIn(cs, parts);
    } else {
      var k0 := SlicesAreParts(m, parts, chunkPayload, n - 1);
      SliceEndIff(f, chunkPayload, n - 1);
      NextWhole(parts, chunkPayload, n, k0);
      SlicesStep(cs, n);
      ChunksStreamed(m, parts, chunkPayload);
      if EndsPart(parts, chunkPayload, n - 1) {
        k := k0 + 1;
        PrefixOf(m, parts, chunkPayload, k0);
        PrefixOf(m, parts, chunkPayload, k);
        PartAt(cs, parts, k0, ChunksOfParts(parts, chunkPayload, k0), n);
        NonEmptySnoc(parts, k0);
      } else {
        k := k0;
      }
    }
  }

  lemma NoneWhole(parts: seq<seq<byte>>, chunkPayload: nat)
    requires 0 < chunkPayload && parts != [] && forall p :: p in parts ==> NoWrap(p, chunkPayload)
    ensures WholeIn(parts, chunkPayload, 0, 0) && ChunksOfParts(parts, chunkPayload, 0) == 0
  {
    hide ChunksOfParts;
    NoParts(parts, chunkPayload);
    PartsGrow(parts, chunkPayload, 0, 1);
  }

  lemma NothingSliced(cs: seq<Chunk>, parts: seq<seq<byte>>)
    ensures Sliced(cs[..0]) == 0 && SliceParts(cs[..0]) == [] && NonEmpty(parts[..0]) == []
  {
  }

  lemma NonEmptySnoc(parts: seq<seq<byte>>, k: nat)
    requires k < |parts|
    ensures NonEmpty(parts[..k + 1]) == NonEmpty(parts[..k]) + if parts[k] != [] then [parts[k]] else []
  {
    assert parts[..k + 1][..k] == parts[..k];
  }

  lemma PrefixOf(m: Meta, parts: seq<seq<byte>>, chunkPayload: nat, k: nat)
    requires Sendable(Streamed(m, parts), chunkPayload) && k <= |parts|
    ensures var cs := FrameChunks(Streamed(m, parts), chunkPayload);
      var n := ChunksOfParts(parts, chunkPayload, k);
      n <= |cs| && (k == |parts| ==> n == |cs|) && Payloads(cs[..n]) == Concat(parts[..k])
  {
    hide ChunksOfParts, Payloads, Concat, PartChunks, NoWrap;
    PartsPrefix(m, parts, chunkPayload, 0, k);
  }

  lemma ChunksStreamed(m: Meta, parts: seq<seq<byte>>, chunkPayload: nat)
    requires Sendable(Streamed(m, parts), chunkPayload)
    ensures var cs := FrameChunks(Streamed(m, parts), chunkPayload); cs != [] && IsStreamed(cs[0].hdr)
  {
    hide FrameChunks, NoWrap;
    var f := Streamed(m, parts);
    FrameIsNumbered(f, chunkPayload);
    assert HeaderFits(FrameChunks(f, chunkPayload)[0].hdr, m, true, 0, |FrameChunks(f, chunkPayload)|);
  }

  /**
   What goes out of a frame that is not complete are its first whole parts, each with a call of
   its own, but for empty ones.
   */
  lemma WholePartsGoOut(g: Group, m: Meta, parts: seq<seq<byte>>, chunkPayload: nat) returns (k: nat)
    requires Sendable(Streamed(m, parts), chunkPayload) && Begun(g)
    requires g.chunks <= FrameChunks(Streamed(m, parts), chunkPayload)
    ensures WholeIn(parts, chunkPayload, |g.chunks|, k)
    ensures CallParts(g.calls) == NonEmpty(parts[..k]) && Parts(g.calls) == Concat(parts[..k])
  {
    hide FrameChunks, ChunksOfParts, Payloads, Sliced, SliceParts, Concat, NonEmpty, NoWrap, CallParts, Parts, WholeIn;
    hide InOrder, NoneEnds;
    var cs := FrameChunks(Streamed(m, parts), chunkPayload);
    k := SlicesAreParts(m, parts, chunkPayload, |g.chunks|);
    assert cs[..|g.chunks|] == g.chunks;
    SlicedInside(cs, |g.chunks|);
  }

  lemma SlicedInside(cs: seq<Chunk>, n: nat)
    requires n <= |cs|
    ensures cs[..Sliced(cs[..n])] == cs[..n][..Sliced(cs[..n])]
  {
  }

  /** With all chunks but the last, all parts but the last are whole. */
  lemma AllButLast(m: Meta, parts: seq<seq<byte>>, chunkPayload: nat, k: nat)
    requires Sendable(Streamed(m, parts), chunkPayload)
    requires FrameChunks(Streamed(m, parts), chunkPayload) != []
    requires WholeIn(parts, chunkPayload, |FrameChunks(Streamed(m, parts), chunkPayload)| - 1, k)
    ensures k == |parts| - 1
  {
    hide ChunksOfParts, FrameChunks;
    PrefixOf(m, parts, chunkPayload, |parts|);
    if k + 1 < |parts| {
      PartsGrow(parts, chunkPayload, k + 1, |parts|);
    }
  }
}
