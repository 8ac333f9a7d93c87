/** common/ar8030_chunk.h: the chunk header and its place on the wire. */
module ChunkWire {
  import opened Bytes
  import opened Crc16
  import opened Resync

  const HDR_SIZE: nat := 22
  const MAX_PAYLOAD: nat := 65535

  /** "AFRM", little endian on the wire */
  const MAGIC: seq<byte> := [0x41, 0x46, 0x52, 0x4D]

  const CODEC_H265: byte := 1
  const CODEC_CTRL: byte := 3

  datatype Hdr = Hdr(frameSeq: u16, chunkIdx: u16, chunkCount: u16, payloadLen: u16,
                     flags: byte, codec: byte, framePts: u32, checksum: u16, reserved: u16)

  datatype Chunk = Chunk(hdr: Hdr, payload: seq<byte>)

  // AR8030_CHUNK_FLAG_FRAME_END is 0x80, AR8030_CHUNK_FLAG_SLICE_END is 0x40

  predicate HasFrameEnd(flags: byte) { flags >= 0x80 }

  predicate HasSliceEnd(flags: byte) { flags / 0x40 % 2 == 1 }

  function WithFrameEnd(flags: byte): (r: byte)
    ensures HasFrameEnd(r) && FrameFlags(r) == FrameFlags(flags) && HasSliceEnd(r) == HasSliceEnd(flags)
  {
    if HasFrameEnd(flags) then flags else flags + 0x80
  }

  function WithSliceEnd(flags: byte): (r: byte)
    ensures HasSliceEnd(r) && FrameFlags(r) == FrameFlags(flags) && HasFrameEnd(r) == HasFrameEnd(flags)
  {
    if HasSliceEnd(flags) then flags else flags + 0x40
  }

  /** Without the two chunk-level flags. */
  function FrameFlags(flags: byte): byte { flags % 0x40 }

  function EncodeHdr(h: Hdr): (s: seq<byte>)
    ensures |s| == HDR_SIZE
  {
    MAGIC + PutLe16(h.frameSeq) + PutLe16(h.chunkIdx) + PutLe16(h.chunkCount) + PutLe16(h.payloadLen)
    + [h.flags, h.codec] + PutLe32(h.framePts) + PutLe16(h.checksum) + PutLe16(h.reserved)
  }

  function DecodeHdr(s: seq<byte>): Hdr
    requires |s| >= HDR_SIZE
  {
    Hdr(GetLe16(s, 4), GetLe16(s, 6), GetLe16(s, 8), GetLe16(s, 10),
        s[12], s[13], GetLe32(s, 14), GetLe16(s, 18), GetLe16(s, 20))
  }

  function Encode(c: Chunk): (s: seq<byte>)
    ensures |s| == HDR_SIZE + |c.payload|
  {
    EncodeHdr(c.hdr) + c.payload
  }

  function Decode(s: seq<byte>): Chunk
    requires |s| >= HDR_SIZE
  {
    Chunk(DecodeHdr(s), s[HDR_SIZE..])
  }

  /** A chunk as the sender builds it: the header tells the payload's length and checksum. */
  predicate Intact(c: Chunk) {
    |c.payload| == c.hdr.payloadLen && Crc(c.payload) == c.hdr.checksum
  }

  lemma DecodeHdrAfterEncode(h: Hdr, rest: seq<byte>)
    ensures DecodeHdr(EncodeHdr(h) + rest) == h
    ensures (EncodeHdr(h) + rest)[..4] == MAGIC
  {
    hide PutLe16, PutLe32, GetLe16, GetLe32;
    var s := EncodeHdr(h) + rest;
    Le16Inside(s, 4);
    Le16Inside(s, 6);
    Le16Inside(s, 8);
    Le16Inside(s, 10);
    Le32Inside(s, 14);
    Le16Inside(s, 18);
    Le16Inside(s, 20);
    assert s[4..6] == PutLe16(h.frameSeq);
    assert s[6..8] == PutLe16(h.chunkIdx);
    assert s[8..10] == PutLe16(h.chunkCount);
    assert s[10..12] == PutLe16(h.payloadLen);
    assert s[12..14] == [h.flags, h.codec];
    assert s[14..18] == PutLe32(h.framePts);
    assert s[18..20] == PutLe16(h.checksum);
    assert s[20..22] == PutLe16(h.reserved);
  }

  lemma DecodeAfterEncode(c: Chunk)
    ensures Decode(Encode(c)) == c
  {
    DecodeHdrAfterEncode(c.hdr, c.payload);
    assert Encode(c)[HDR_SIZE..] == c.payload;
  }

  /**
   Whether a chunk starts at the front of s. A magic is four bytes, so with fewer nothing is
   certain; behind a magic the header claims a length, and that many bytes must be there
   before the checksum can tell.
   */
  function Classify(s: seq<byte>): Verdict {
    if |s| < 4 then Undecided
    else if s[..4] != MAGIC then Dead(false)
    else if |s| < HDR_SIZE || |s| < HDR_SIZE + DecodeHdr(s).payloadLen then Undecided
    else if Intact(Decode(s[..HDR_SIZE + DecodeHdr(s).payloadLen])) then Valid(HDR_SIZE + DecodeHdr(s).payloadLen)
    else Dead(true)
  }

  lemma DecodeHdrPrefix(s: seq<byte>, t: seq<byte>)
    requires |s| >= HDR_SIZE
    ensures DecodeHdr(s + t) == DecodeHdr(s)
  {
  }

  lemma ClassifyStable(s: seq<byte>, t: seq<byte>)
    requires Classify(s) != Undecided
    ensures Classify(s + t) == Classify(s)
  {
    assert (s + t)[..4] == s[..4];
    if s[..4] == MAGIC {
      DecodeHdrPrefix(s, t);
      var n := HDR_SIZE + DecodeHdr(s).payloadLen;
      assert (s + t)[..n] == s[..n];
    }
  }

  lemma ClassifyIsClassifier()
    ensures IsClassifier(Classify)
  {
    forall s: seq<byte>, t: seq<byte> | Classify(s) != Undecided
      ensures Classify(s + t) == Classify(s)
    {
      ClassifyStable(s, t);
    }
  }

  /** The chunks of a stream, still encoded. */
  ghost function ChunkFrames(s: seq<byte>): seq<seq<byte>> {
    ClassifyIsClassifier();
    Frames(Classify, s)
  }

  ghost function ChunkRest(s: seq<byte>): seq<byte> {
    ClassifyIsClassifier();
    Rest(Classify, s)
  }

  /** How many headers on the way had a wrong checksum. */
  ghost function BadHeaders(s: seq<byte>): nat {
    ClassifyIsClassifier();
    Flagged(Classify, s)
  }

  /** No header claims more than this. */
  const LIMIT: nat := HDR_SIZE + MAX_PAYLOAD

  lemma ClassifyIsBounded(s: seq<byte>)
    requires |s| >= 22 + 65535
    ensures Classify(s) != Undecided
  {
  }

  lemma ClassifyEncoded(c: Chunk, rest: seq<byte>)
    requires Intact(c)
    ensures Classify(Encode(c) + rest) == Valid(HDR_SIZE + |c.payload|)
  {
    var s := Encode(c) + rest;
    assert s == EncodeHdr(c.hdr) + (c.payload + rest);
    DecodeHdrAfterEncode(c.hdr, c.payload + rest);
    assert s[..HDR_SIZE + |c.payload|] == Encode(c);
    DecodeAfterEncode(c);
  }

  function EncodeAll(cs: seq<Chunk>): seq<seq<byte>> {
    seq(|cs|, i requires 0 <= i < |cs| => Encode(cs[i]))
  }

  /** The payloads of a list of chunks, one behind the other. */
  function Payloads(cs: seq<Chunk>): seq<byte> {
    if cs == [] then [] else Payloads(cs[..|cs| - 1]) + cs[|cs| - 1].payload
  }

  lemma LastPayload(cs: seq<Chunk>)
    requires cs != []
    ensures Payloads(cs) == Payloads(cs[..|cs| - 1]) + cs[|cs| - 1].payload
  {
  }

  lemma {:induction false} PayloadsAppend(a: seq<Chunk>, b: seq<Chunk>)
    ensures Payloads(a + b) == Payloads(a) + Payloads(b)
  {
    if b == [] {
      assert a + b == a && Payloads(b) == [];
    } else {
      hide Payloads;
      var n := |b| - 1;
      assert (a + b)[..|a| + n] == a + b[..n] && (a + b)[|a| + n] == b[n];
      LastPayload(a + b);
      LastPayload(b);
      PayloadsAppend(a, b[..n]);
      Regroup(Payloads(a), Payloads(b[..n]), b[n].payload);
    }
  }

  lemma PayloadsSnoc(cs: seq<Chunk>, i: nat)
    requires i < |cs|
    ensures Payloads(cs[..i + 1]) == Payloads(cs[..i]) + cs[i].payload
  {
    assert cs[..i + 1][..i] == cs[..i];
  }

  function DecodeAll(frames: seq<seq<byte>>): seq<Chunk>
    requires forall i :: 0 <= i < |frames| ==> |frames[i]| >= HDR_SIZE
  {
    seq(|frames|, i requires 0 <= i < |frames| => Decode(frames[i]))
  }

  lemma EncodeAllCons(c: Chunk, cs: seq<Chunk>)
    ensures EncodeAll([c] + cs) == [Encode(c)] + EncodeAll(cs)
    ensures Concat(EncodeAll([c] + cs)) == Encode(c) + Concat(EncodeAll(cs))
  {
    var all := EncodeAll([c] + cs);
    assert all == [Encode(c)] + EncodeAll(cs);
    assert all[1..] == EncodeAll(cs);
  }

  /** The stream holds these chunks and nothing else. */
  ghost predicate Clean(s: seq<byte>, chunks: seq<seq<byte>>) {
    ChunkFrames(s) == chunks && ChunkRest(s) == [] && BadHeaders(s) == 0
  }

  lemma ParseFront(c: Chunk, cs: seq<Chunk>)
    requires Intact(c)
    requires Clean(Concat(EncodeAll(cs)), EncodeAll(cs))
    ensures Clean(Concat(EncodeAll([c] + cs)), EncodeAll([c] + cs))
  {
    ClassifyIsClassifier();
    ClassifyEncoded(c, Concat(EncodeAll(cs)));
    FrontFrame(Classify, Encode(c), Concat(EncodeAll(cs)));
    EncodeAllCons(c, cs);
  }

  /** Chunks written one behind the other come out of the parser as they went in. */
  lemma {:induction false} ParseEncoded(cs: seq<Chunk>)
    requires forall i :: 0 <= i < |cs| ==> Intact(cs[i])
    ensures Clean(Concat(EncodeAll(cs)), EncodeAll(cs))
  {
    if cs == [] {
      ClassifyIsClassifier();
    } else {
      ParseEncoded(cs[1..]);
      ParseFront(cs[0], cs[1..]);
      assert cs == [cs[0]] + cs[1..];
    }
  }
}
