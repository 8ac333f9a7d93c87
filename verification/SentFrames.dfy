/** What ar8030_chunk_frame() and ar8030_chunk_part() put on the wire for a frame. */
module SentFrames {
  import opened Bytes
  import opened ChunkWire
  import opened Chunker

  /** A frame sent at once, or in parts while it is still being encoded. */
  datatype Frame =
    | Whole(meta: Meta, data: seq<byte>)
    | Streamed(meta: Meta, parts: seq<seq<byte>>)

  function DataOf(f: Frame): seq<byte> {
    match f
    case Whole(_, data) => data
    case Streamed(_, parts) => Concat(parts)
  }

  /** The sum in chunk_run() does not wrap at 32 bits. */
  predicate NoWrap(data: seq<byte>, chunkPayload: nat) {
    |data| + chunkPayload - 1 < 0x1_0000_0000
  }

  function PartCounts(parts: seq<seq<byte>>, chunkPayload: nat): nat
    requires 0 < chunkPayload && forall p :: p in parts ==> NoWrap(p, chunkPayload)
  {
    if parts == [] then 0
    else
      assert NoWrap(parts[0], chunkPayload);
      ChunkCount(|parts[0]|, chunkPayload) + PartCounts(parts[1..], chunkPayload)
  }

  /** What the sender accepts: tx/main.c passes VencFrameMeta.flags, which use the low bits only. */
  predicate Sendable(f: Frame, chunkPayload: nat) {
    && 0 < chunkPayload <= MAX_PAYLOAD
    && f.meta.flags < 0x40
    && match f
       case Whole(_, data) => NoWrap(data, chunkPayload) && ChunkCount(|data|, chunkPayload) <= 0xFFFF
       case Streamed(_, parts) =>
         && parts != [] && (forall p :: p in parts ==> NoWrap(p, chunkPayload))
         && PartCounts(parts, chunkPayload) <= 0xFFFF
  }

  /** ar8030_chunk_part() for each part in turn, each numbered from where the one before left off. */
  function PartChunks(m: Meta, parts: seq<seq<byte>>, chunkPayload: nat, first: nat): seq<Chunk>
    requires 0 < chunkPayload <= MAX_PAYLOAD && parts != []
    requires forall p :: p in parts ==> NoWrap(p, chunkPayload)
    requires first + PartCounts(parts, chunkPayload) <= 0xFFFF
  {
    var last := |parts| == 1;
    assert parts[0] in parts;
    var here := Chunks(m, Numbering(first, 0, last, true), parts[0], chunkPayload);
    if last then here else here + PartChunks(m, parts[1..], chunkPayload, first + |here|)
  }

  /** All chunks of a frame: ar8030_chunk_frame(), or ar8030_chunk_part() part by part. */
  function FrameChunks(f: Frame, chunkPayload: nat): seq<Chunk>
    requires Sendable(f, chunkPayload)
  {
    match f
    case Whole(m, data) =>
      Chunks(m, Numbering(0, ChunkCount(|data|, chunkPayload), false, false), data, chunkPayload)
    case Streamed(m, parts) => PartChunks(m, parts, chunkPayload, 0)
  }

  // The shape of what is sent

  /** The header of chunk idx of a frame that has count chunks in all. */
  predicate HeaderFits(h: Hdr, m: Meta, streamed: bool, idx: nat, count: nat) {
    && h.frameSeq == m.frameSeq && h.framePts == m.framePts && h.codec == m.codec
    && FrameFlags(h.flags) == m.flags
    && h.chunkIdx == idx
    && h.chunkCount == (if streamed && idx + 1 < count then 0 else count)
    && (HasFrameEnd(h.flags) <==> streamed && idx + 1 == count) && h.reserved == 0
  }

  /** Chunks first, first + 1, ... count - 1 of a frame. */
  predicate Numbered(cs: seq<Chunk>, m: Meta, streamed: bool, first: nat, count: nat) {
    && first + |cs| == count <= 0xFFFF
    && forall i :: 0 <= i < |cs| ==> HeaderFits(cs[i].hdr, m, streamed, first + i, count) && Intact(cs[i])
  }

  lemma PiecesCover(data: seq<byte>, chunkPayload: nat, i: nat)
    requires Splittable(data, chunkPayload) && NoWrap(data, chunkPayload)
    requires i <= ChunkCount(|data|, chunkPayload)
    ensures i < ChunkCount(|data|, chunkPayload) ==> i * chunkPayload <= |data|
    ensures i == ChunkCount(|data|, chunkPayload) ==> |data| <= i * chunkPayload
  {
    var x := |data| + chunkPayload - 1;
    var n := x / chunkPayload;
    assert n * chunkPayload <= x < n * chunkPayload + chunkPayload;
    if i < ChunkCount(|data|, chunkPayload) {
      OffsetsFit(data, chunkPayload, i);
    }
  }

  /** It takes as few chunks as hold the data, and one for none. */
  lemma CountIsLeast(data: seq<byte>, chunkPayload: nat, n: nat)
    requires Splittable(data, chunkPayload) && NoWrap(data, chunkPayload)
    ensures ChunkCount(|data|, chunkPayload) <= n <==> n >= 1 && |data| <= n * chunkPayload
  {
    LeastCover(|data|, chunkPayload, n);
    LeastCover(|data|, chunkPayload, 0);
  }

  lemma LeastCover(len: nat, size: nat, n: nat)
    requires size > 0
    ensures (len + size - 1) / size <= n <==> len <= n * size
  {
    var q := (len + size - 1) / size;
    assert q * size <= len + size - 1 < q * size + size;
    if q <= n {
      Times(q, n, size);
    } else {
      Times(n + 1, q, size);
      assert (n + 1) * size == n * size + size;
    }
  }

  lemma Times(a: nat, b: nat, size: nat)
    requires a <= b
    ensures a * size <= b * size
  {
  }

  /**
   What can be sent is not refused: with a scratch buffer for one chunk, a whole frame and every
   part of a streamed one, numbered on from the parts before it.
   */
  lemma SendableIsSent(f: Frame, chunkPayload: nat, scratchCap: nat, k: nat)
    requires Sendable(f, chunkPayload) && scratchCap >= HDR_SIZE + chunkPayload
    requires f.Streamed? ==> k < |f.parts|
    ensures f.Whole? ==> NoWrap(f.data, chunkPayload) && !Refused(|f.data|, chunkPayload, scratchCap, 0)
    ensures f.Streamed? ==>
              && PartCounts(f.parts[..k], chunkPayload) <= 0xFFFF && NoWrap(f.parts[k], chunkPayload)
              && !Refused(|f.parts[k]|, chunkPayload, scratchCap, PartCounts(f.parts[..k], chunkPayload))
  {
    hide ChunkCount;
    if f.Streamed? {
      CountsAddUp(f.parts, chunkPayload, k);
    }
  }

  lemma {:induction false} CountsAddUp(parts: seq<seq<byte>>, chunkPayload: nat, k: nat)
    requires 0 < chunkPayload && (forall p :: p in parts ==> NoWrap(p, chunkPayload)) && k < |parts|
    ensures NoWrap(parts[k], chunkPayload)
    ensures PartCounts(parts[..k], chunkPayload) + ChunkCount(|parts[k]|, chunkPayload)
            <= PartCounts(parts, chunkPayload)
    decreases k
  {
    hide ChunkCount;
    assert parts[0] in parts && parts[k] in parts;
    if k > 0 {
      CountsAddUp(parts[1..], chunkPayload, k - 1);
      assert parts[..k][0] == parts[0] && parts[..k][1..] == parts[1..][..k - 1];
    }
  }

  // The payloads

  /** The piece behind the one at off. */
  lemma OffsetBefore(chunkPayload: nat, i: nat, off: nat)
    requires i > 0 && off == i * chunkPayload
    ensures off >= chunkPayload && off - chunkPayload == (i - 1) * chunkPayload
  {
  }

  /** Chunk i carries the piece at off. */
  lemma PayloadAt(m: Meta, nr: Numbering, data: seq<byte>, chunkPayload: nat, i: nat, off: nat)
    requires Splittable(data, chunkPayload) && NoWrap(data, chunkPayload)
    requires i < ChunkCount(|data|, chunkPayload) && off == i * chunkPayload
    ensures off <= |data|
    ensures Chunks(m, nr, data, chunkPayload)[i].payload == data[off..Min(off + chunkPayload, |data|)]
  {
    hide ChunkCount;
    PiecesCover(data, chunkPayload, i);
  }

  lemma {:induction false} PayloadPrefix(m: Meta, nr: Numbering, data: seq<byte>, chunkPayload: nat, i: nat, off: nat)
    requires Splittable(data, chunkPayload) && NoWrap(data, chunkPayload)
    requires i <= ChunkCount(|data|, chunkPayload) && off == i * chunkPayload
    ensures Payloads(Chunks(m, nr, data, chunkPayload)[..i]) == data[..Min(off, |data|)]
    decreases i
  {
    hide Chunks, ChunkCount;
    var cs := Chunks(m, nr, data, chunkPayload);
    if i > 0 {
      var before := off - chunkPayload;
      OffsetBefore(chunkPayload, i, off);
      PayloadPrefix(m, nr, data, chunkPayload, i - 1, before);
      PayloadAt(m, nr, data, chunkPayload, i - 1, before);
      PayloadsSnoc(cs, i - 1);
      assert data[..before] + data[before..Min(off, |data|)] == data[..Min(off, |data|)];
    }
  }

  /** Cut into chunks, a frame's bytes are all there, once and in order. */
  lemma PayloadsAreData(m: Meta, nr: Numbering, data: seq<byte>, chunkPayload: nat)
    requires Splittable(data, chunkPayload) && NoWrap(data, chunkPayload)
    ensures Payloads(Chunks(m, nr, data, chunkPayload)) == data
  {
    hide ChunkAt, ChunkCount;
    var n := ChunkCount(|data|, chunkPayload);
    var cs := Chunks(m, nr, data, chunkPayload);
    PayloadPrefix(m, nr, data, chunkPayload, n, n * chunkPayload);
    PiecesCover(data, chunkPayload, n);
    assert cs[..n] == cs && data[..|data|] == data;
  }

  /**
   With 4 GiB less one payload or more, the 32-bit sum wraps to less than one payload: a
   single chunk goes out, and it holds only the start of the data.
   */
  lemma WrappedPayloads(m: Meta, nr: Numbering, data: seq<byte>, chunkPayload: nat)
    requires Splittable(data, chunkPayload) && !NoWrap(data, chunkPayload)
    ensures |Chunks(m, nr, data, chunkPayload)| == 1
    ensures Payloads(Chunks(m, nr, data, chunkPayload)) == data[..chunkPayload] != data
  {
    var x := (|data| + chunkPayload - 1) % 0x1_0000_0000;
    assert x == |data| + chunkPayload - 1 - 0x1_0000_0000;
    assert x / chunkPayload == 0;
    var cs := Chunks(m, nr, data, chunkPayload);
    assert cs[0].payload == Piece(data, chunkPayload, 0);
    PayloadsSnoc(cs, 0);
    assert cs[..1] == cs;
    assert |data[..chunkPayload]| < |data|;
  }

  /** So the chunks carry the whole of the data exactly when the sum does not wrap. */
  lemma PayloadsAreDataIff(m: Meta, nr: Numbering, data: seq<byte>, chunkPayload: nat)
    requires Splittable(data, chunkPayload)
    ensures Payloads(Chunks(m, nr, data, chunkPayload)) == data <==> NoWrap(data, chunkPayload)
  {
    if NoWrap(data, chunkPayload) {
      PayloadsAreData(m, nr, data, chunkPayload);
    } else {
      WrappedPayloads(m, nr, data, chunkPayload);
    }
  }

  // The headers

  lemma ChunksAreNumbered(m: Meta, nr: Numbering, data: seq<byte>, chunkPayload: nat, streamed: bool, count: nat)
    requires Splittable(data, chunkPayload) && m.flags < 0x40
    requires nr.firstIdx as int + ChunkCount(|data|, chunkPayload) <= 0xFFFF
    requires streamed ==> nr.part && nr.totalCount == 0
    requires !streamed ==> !nr.part && !nr.frameEnd && nr.firstIdx == 0 && nr.totalCount == count
    requires nr.firstIdx as int + ChunkCount(|data|, chunkPayload) <= count <= 0xFFFF
    requires nr.frameEnd || !streamed <==> nr.firstIdx as int + ChunkCount(|data|, chunkPayload) == count
    ensures var cs := Chunks(m, nr, data, chunkPayload);
      forall i :: 0 <= i < |cs| ==>
        HeaderFits(cs[i].hdr, m, streamed, nr.firstIdx as int + i, count) && Intact(cs[i])
  {
    hide ChunkCount, Piece;
  }

  lemma WholeIsNumbered(m: Meta, data: seq<byte>, chunkPayload: nat)
    requires Sendable(Whole(m, data), chunkPayload)
    ensures Numbered(FrameChunks(Whole(m, data), chunkPayload), m, false, 0, ChunkCount(|data|, chunkPayload))
  {
    var n := ChunkCount(|data|, chunkPayload);
    ChunksAreNumbered(m, Numbering(0, n, false, false), data, chunkPayload, false, n);
  }

  lemma NumberedConcat(a: seq<Chunk>, b: seq<Chunk>, m: Meta, first: nat, count: nat)
    requires forall i :: 0 <= i < |a| ==> HeaderFits(a[i].hdr, m, true, first + i, count) && Intact(a[i])
    requires Numbered(b, m, true, first + |a|, count)
    ensures Numbered(a + b, m, true, first, count)
  {
    hide HeaderFits;
    forall i | 0 <= i < |a + b|
      ensures HeaderFits((a + b)[i].hdr, m, true, first + i, count) && Intact((a + b)[i])
    {
      if i >= |a| {
        assert (a + b)[i] == b[i - |a|];
        assert first + i == first + |a| + (i - |a|);
      }
    }
  }

  /** One part, at the head of what is left of a streamed frame. */
  lemma PartIsNumbered(m: Meta, parts: seq<seq<byte>>, chunkPayload: nat, first: nat)
    requires 0 < chunkPayload <= MAX_PAYLOAD && parts != [] && m.flags < 0x40
    requires forall p :: p in parts ==> NoWrap(p, chunkPayload)
    requires first + PartCounts(parts, chunkPayload) <= 0xFFFF
    ensures Splittable(parts[0], chunkPayload) && NoWrap(parts[0], chunkPayload)
    ensures var cs := Chunks(m, Numbering(first, 0, |parts| == 1, true), parts[0], chunkPayload);
      var count := first + PartCounts(parts, chunkPayload);
      && (forall i :: 0 <= i < |cs| ==> HeaderFits(cs[i].hdr, m, true, first + i, count) && Intact(cs[i]))
      && count == first + |cs| + PartCounts(parts[1..], chunkPayload)
  {
    hide ChunkAt, ChunkCount, HeaderFits;
    assert NoWrap(parts[0], chunkPayload);
    CountsArePositive(parts[1..], chunkPayload);
    ChunksAreNumbered(m, Numbering(first, 0, |parts| == 1, true), parts[0], chunkPayload, true,
                      first + PartCounts(parts, chunkPayload));
  }

  lemma {:induction false} PartsAreNumbered(m: Meta, parts: seq<seq<byte>>, chunkPayload: nat, first: nat)
    requires 0 < chunkPayload <= MAX_PAYLOAD && parts != [] && m.flags < 0x40
    requires forall p :: p in parts ==> NoWrap(p, chunkPayload)
    requires first + PartCounts(parts, chunkPayload) <= 0xFFFF
    ensures Numbered(PartChunks(m, parts, chunkPayload, first), m, true, first, first + PartCounts(parts, chunkPayload))
    decreases |parts|
  {
    hide Chunks, ChunkCount, HeaderFits;
    PartIsNumbered(m, parts, chunkPayload, first);
    var here := Chunks(m, Numbering(first, 0, |parts| == 1, true), parts[0], chunkPayload);
    if |parts| > 1 {
      PartsAreNumbered(m, parts[1..], chunkPayload, first + |here|);
      var there := PartChunks(m, parts[1..], chunkPayload, first + |here|);
      NumberedConcat(here, there, m, first, first + PartCounts(parts, chunkPayload));
    }
  }

  lemma {:induction false} PartsCarryData(m: Meta, parts: seq<seq<byte>>, chunkPayload: nat, first: nat)
    requires 0 < chunkPayload <= MAX_PAYLOAD && parts != []
    requires forall p :: p in parts ==> NoWrap(p, chunkPayload)
    requires first + PartCounts(parts, chunkPayload) <= 0xFFFF
    ensures Payloads(PartChunks(m, parts, chunkPayload, first)) == Concat(parts)
    decreases |parts|
  {
    hide Chunks, ChunkCount, Payloads;
    assert NoWrap(parts[0], chunkPayload);
    var nr := Numbering(first, 0, |parts| == 1, true);
    PayloadsAreData(m, nr, parts[0], chunkPayload);
    var here := Chunks(m, nr, parts[0], chunkPayload);
    if |parts| == 1 {
      assert Concat(parts) == parts[0] + Concat([]);
    } else {
      PartsCarryData(m, parts[1..], chunkPayload, first + |here|);
      PayloadsAppend(here, PartChunks(m, parts[1..], chunkPayload, first + |here|));
    }
  }

  lemma CountsArePositive(parts: seq<seq<byte>>, chunkPayload: nat)
    requires 0 < chunkPayload && forall p :: p in parts ==> NoWrap(p, chunkPayload)
    ensures PartCounts(parts, chunkPayload) > 0 <==> parts != []
  {
    hide ChunkCount;
    if parts != [] {
      assert parts[0] in parts;
    }
  }

  /** Every frame, sent either way, is a numbered run of intact chunks that carry its data. */
  lemma FrameIsNumbered(f: Frame, chunkPayload: nat)
    requires Sendable(f, chunkPayload)
    ensures var cs := FrameChunks(f, chunkPayload);
      1 <= |cs| && Numbered(cs, f.meta, f.Streamed?, 0, |cs|) && Payloads(cs) == DataOf(f)
  {
    hide Numbered, Chunks;
    match f
    case Whole(m, data) =>
      WholeIsNumbered(m, data, chunkPayload);
      PayloadsAreData(m, Numbering(0, ChunkCount(|data|, chunkPayload), false, false), data, chunkPayload);
    case Streamed(m, parts) =>
      PartsAreNumbered(m, parts, chunkPayload, 0);
      PartsCarryData(m, parts, chunkPayload, 0);
      CountsArePositive(parts, chunkPayload);
      NumberedLength(PartChunks(m, parts, chunkPayload, 0), m, PartCounts(parts, chunkPayload));
  }

  lemma NumberedLength(cs: seq<Chunk>, m: Meta, count: nat)
    requires Numbered(cs, m, true, 0, count)
    ensures |cs| == count
  {
  }
}
