/** common/chunker.c: a frame, or one part of it, cut into chunks. */
module Chunker {
  import opened Bytes
  import opened Crc16
  import opened ChunkWire

  /** What all chunks of a frame have in common. */
  datatype Meta = Meta(frameSeq: u16, flags: byte, codec: byte, framePts: u32)

  /** How the chunks of one call are numbered and marked, see chunk_run(). */
  datatype Numbering = Numbering(firstIdx: u32, totalCount: nat, frameEnd: bool, part: bool)

  /** The count as computed in 32 bits; an empty frame still takes one chunk. */
  function ChunkCount(dataLen: u32, chunkPayload: nat): (n: nat)
    requires 0 < chunkPayload
    ensures 1 <= n < 0x1_0000_0000
  {
    var n := (dataLen as int + chunkPayload - 1) % 0x1_0000_0000 / chunkPayload;
    if n == 0 then 1 else n
  }

  /** Nothing is sent then. */
  predicate Refused(dataLen: u32, chunkPayload: nat, scratchCap: nat, firstIdx: u32) {
    || chunkPayload == 0
    || chunkPayload > MAX_PAYLOAD
    || scratchCap < HDR_SIZE + chunkPayload
    || (firstIdx as int + ChunkCount(dataLen, chunkPayload)) % 0x1_0000_0000 > 0xFFFF
  }

  function Min(a: int, b: int): int { if a < b then a else b }

  /** The payload of chunk i. */
  function Piece(data: seq<byte>, chunkPayload: nat, i: nat): seq<byte>
    requires i * chunkPayload <= |data|
  {
    data[i * chunkPayload..i * chunkPayload + Min(chunkPayload, |data| - i * chunkPayload)]
  }

  function ChunkAt(m: Meta, nr: Numbering, count: nat, i: nat, payload: seq<byte>): (c: Chunk)
    requires |payload| <= MAX_PAYLOAD
    ensures Intact(c) && c.payload == payload
  {
    var final := nr.frameEnd && i + 1 == count;
    var sliceEnd := nr.part && !nr.frameEnd && i + 1 == count;
    Chunk(Hdr(m.frameSeq,
              (nr.firstIdx as int + i) % 0x1_0000,
              (if final then nr.firstIdx as int + count else nr.totalCount) % 0x1_0000,
              |payload|,
              if final then WithFrameEnd(m.flags) else if sliceEnd then WithSliceEnd(m.flags) else m.flags,
              m.codec, m.framePts, Crc(payload), 0),
          payload)
  }

  predicate Splittable(data: seq<byte>, chunkPayload: nat) {
    && 0 < chunkPayload <= MAX_PAYLOAD
    && |data| < 0x1_0000_0000
  }

  lemma OffsetsFit(data: seq<byte>, chunkPayload: nat, i: nat)
    requires Splittable(data, chunkPayload) && i < ChunkCount(|data|, chunkPayload)
    ensures i * chunkPayload <= |data|
  {
    var x := (|data| + chunkPayload - 1) % 0x1_0000_0000;
    if i > 0 {
      assert i < x / chunkPayload;
      assert i * chunkPayload <= (x / chunkPayload - 1) * chunkPayload;
      assert x / chunkPayload * chunkPayload <= x;
      assert x <= |data| + chunkPayload - 1;
    }
  }

  /** The chunks of one call, in the order in which they are sent. */
  function Chunks(m: Meta, nr: Numbering, data: seq<byte>, chunkPayload: nat): (cs: seq<Chunk>)
    requires Splittable(data, chunkPayload)
    ensures |cs| == ChunkCount(|data|, chunkPayload)
  {
    var n := ChunkCount(|data|, chunkPayload);
    seq(n, i requires 0 <= i < n =>
      OffsetsFit(data, chunkPayload, i); ChunkAt(m, nr, n, i, Piece(data, chunkPayload, i)))
  }

  /** The injected send function: results tells how each coming call ends. */
  class Sink {
    var sent: seq<seq<byte>>
    var results: seq<bool>
    var refused: bool

    constructor (results: seq<bool>)
      ensures sent == [] && !refused && this.results == results
    {
      this.results, sent, refused := results, [], false;
    }

    method Send(buf: array<byte>, len: nat) returns (ok: bool)
      requires len <= buf.Length
      modifies this
      ensures ok ==> sent == old(sent) + [buf[..len]] && !refused
      ensures !ok ==> sent == old(sent) && refused
      ensures ok == (old(results) == [] || old(results)[0])
      ensures results == if old(results) == [] then [] else old(results)[1..]
    {
      ok := results == [] || results[0];
      if results != [] {
        results := results[1..];
      }
      if ok {
        sent := sent + [buf[..len]];
      }
      refused := !ok;
    }
  }

  /** memcpy() of s to the front of buf. */
  method Put(buf: array<byte>, at: nat, s: seq<byte>)
    requires at + |s| <= buf.Length
    modifies buf
    ensures buf[..at] == old(buf[..at])
    ensures buf[at..at + |s|] == s
  {
    forall i | 0 <= i < |s| {
      buf[at + i] := s[i];
    }
  }

  /** One turn of the loop of chunk_run(): header and payload into scratch, and out. */
  method SendOne(m: Meta, nr: Numbering, count: nat, i: nat, data: array<byte>, off: nat, len: nat,
                 scratch: array<byte>, sink: Sink)
    returns (ok: bool)
    requires i < count && off + len <= data.Length && len <= MAX_PAYLOAD
    requires scratch != data && HDR_SIZE + len <= scratch.Length
    modifies scratch, sink
    ensures ok ==> sink.sent == old(sink.sent) + [Encode(ChunkAt(m, nr, count, i, data[off..off + len]))]
    ensures !ok ==> sink.sent == old(sink.sent) && sink.refused
  {
    hide Crc16.CrcState, ChunkWire.EncodeHdr, Crc16.Value;
    var final := nr.frameEnd && i + 1 == count;
    var sliceEnd := nr.part && !nr.frameEnd && i + 1 == count;
    var crc := ComputeCrc(data, off, len);
    ValueBound(crc);
    var hdr := Hdr(m.frameSeq, (nr.firstIdx as int + i) % 0x1_0000,
                   (if final then nr.firstIdx as int + count else nr.totalCount) % 0x1_0000, len,
                   if final then WithFrameEnd(m.flags) else if sliceEnd then WithSliceEnd(m.flags) else m.flags,
                   m.codec, m.framePts, Value(crc), 0);
    Put(scratch, 0, EncodeHdr(hdr));
    Put(scratch, HDR_SIZE, data[off..off + len]);
    assert scratch[..HDR_SIZE + len] == scratch[..HDR_SIZE] + scratch[HDR_SIZE..HDR_SIZE + len];
    ok := sink.Send(scratch, HDR_SIZE + len);
  }

  /** chunk_run(): returns how many chunks were sent, or -1. */
  method ChunkRun(m: Meta, nr: Numbering, data: array<byte>, chunkPayload: nat, scratch: array<byte>, sink: Sink)
    returns (sent: int, count: nat)
    requires data.Length < 0x1_0000_0000 && scratch != data
    modifies scratch, sink
    ensures sent == -1 <==> Refused(data.Length, chunkPayload, scratch.Length, nr.firstIdx)
    ensures sent == -1 ==> sink.sent == old(sink.sent)
    ensures sent != -1 ==>
      Splittable(data[..], chunkPayload) && 0 <= sent <= count == ChunkCount(data.Length, chunkPayload)
    ensures sent != -1 ==> sink.sent == old(sink.sent) + EncodeAll(Chunks(m, nr, data[..], chunkPayload)[..sent])
    ensures -1 < sent < count ==> sink.refused
  {
    hide ChunkAt, ChunkCount, ChunkWire.EncodeAll;
    count := 0;
    if chunkPayload == 0 || chunkPayload > MAX_PAYLOAD || scratch.Length < HDR_SIZE + chunkPayload {
      return -1, count;
    }
    count := ChunkCount(data.Length, chunkPayload);
    if (nr.firstIdx as int + count) % 0x1_0000_0000 > 0xFFFF {
      return -1, count;
    }
    ghost var before, all := sink.sent, data[..];
    ghost var cs := Chunks(m, nr, all, chunkPayload);
    sent := 0;
    EncodeAllNone(cs);
    for i := 0 to count
      invariant sent == i && data[..] == all
      invariant sink.sent == before + EncodeAll(cs[..i])
    {
      OffsetsFit(all, chunkPayload, i);
      var off := i * chunkPayload;
      var len := Min(chunkPayload, data.Length - off);
      assert Piece(all, chunkPayload, i) == data[off..off + len];
      var ok := SendOne(m, nr, count, i, data, off, len, scratch, sink);
      if !ok {
        break;
      }
      EncodeAllSnoc(cs, i);
      sent := sent + 1;
    }
  }

  lemma EncodeAllNone(cs: seq<Chunk>)
    ensures EncodeAll(cs[..0]) == []
  {
  }

  lemma EncodeAllSnoc(cs: seq<Chunk>, i: nat)
    requires i < |cs|
    ensures EncodeAll(cs[..i + 1]) == EncodeAll(cs[..i]) + [Encode(cs[i])]
  {
  }

  /** ar8030_chunk_frame(): a frame sent whole. */
  method ChunkFrame(m: Meta, data: array<byte>, chunkPayload: nat, scratch: array<byte>, sink: Sink)
    returns (sent: int, count: nat)
    requires data.Length < 0x1_0000_0000 && scratch != data
    modifies scratch, sink
    ensures sent == -1 <==> Refused(data.Length, chunkPayload, scratch.Length, 0)
    ensures sent == -1 ==> sink.sent == old(sink.sent)
    ensures sent != -1 ==>
      Splittable(data[..], chunkPayload) && 0 <= sent <= count == ChunkCount(data.Length, chunkPayload)
    ensures sent != -1 ==>
      sink.sent == old(sink.sent)
                   + EncodeAll(Chunks(m, Numbering(0, count, false, false), data[..], chunkPayload)[..sent])
    ensures -1 < sent < count ==> sink.refused
  {
    hide Chunks, ChunkCount, ChunkWire.EncodeAll;
    if chunkPayload == 0 || chunkPayload > MAX_PAYLOAD {
      return -1, 0;
    }
    count := ChunkCount(data.Length, chunkPayload);
    if count > 0xFFFF {
      return -1, count;
    }
    sent, count := ChunkRun(m, Numbering(0, count, false, false), data, chunkPayload, scratch, sink);
  }

  /** ar8030_chunk_part(): one part of a frame that is still being encoded. */
  method ChunkPart(m: Meta, data: array<byte>, chunkPayload: nat, firstIdx: u32, last: bool,
                   scratch: array<byte>, sink: Sink)
    returns (sent: int, count: nat)
    requires data.Length < 0x1_0000_0000 && scratch != data
    modifies scratch, sink
    ensures sent == -1 <==> Refused(data.Length, chunkPayload, scratch.Length, firstIdx)
    ensures sent == -1 ==> sink.sent == old(sink.sent)
    ensures sent != -1 ==>
      Splittable(data[..], chunkPayload) && 0 <= sent <= count == ChunkCount(data.Length, chunkPayload)
    ensures sent != -1 ==>
      sink.sent == old(sink.sent)
                   + EncodeAll(Chunks(m, Numbering(firstIdx, 0, last, true), data[..], chunkPayload)[..sent])
    ensures -1 < sent < count ==> sink.refused
  {
    sent, count := ChunkRun(m, Numbering(firstIdx, 0, last, true), data, chunkPayload, scratch, sink);
  }
}
