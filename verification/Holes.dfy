/**
 Wires with holes in them: whole chunks, and between them what is left of others. What
 common/chunk_stream.c makes of them.
 */
module Holes {
  import opened Bytes
  import opened Resync
  import opened ChunkWire
  import Crc16

  datatype Piece = Good(chunk: Chunk) | Junk(bytes: seq<byte>)

  /** The pieces one behind the other, and what has come of the next. */
  function Wire(pieces: seq<Piece>, tail: seq<byte>): seq<byte> {
    if pieces == [] then tail
    else (if pieces[0].Good? then Encode(pieces[0].chunk) else pieces[0].bytes) + Wire(pieces[1..], tail)
  }

  function Goods(pieces: seq<Piece>): seq<Chunk> {
    if pieces == [] then []
    else (if pieces[0].Good? then [pieces[0].chunk] else []) + Goods(pieces[1..])
  }

  /** No chunk starts at the first k offsets of s. */
  predicate NoneStarts(s: seq<byte>, k: nat)
    requires k <= |s|
  {
    forall i :: 0 <= i < k ==> Classify(s[i..]).Dead?
  }

  /** The chunks are intact, no chunk starts in the junk, as it lies in front of what follows, and the tail is open. */
  predicate Readable(pieces: seq<Piece>, tail: seq<byte>) {
    if pieces == [] then Classify(tail) == Undecided
    else if pieces[0].Good? then Intact(pieces[0].chunk) && Readable(pieces[1..], tail)
    else NoneStarts(pieces[0].bytes + Wire(pieces[1..], tail), |pieces[0].bytes|) && Readable(pieces[1..], tail)
  }

  /** Dead offsets are passed over, whether flagged or not. */
  lemma {:induction false} PassOver(s: seq<byte>, k: nat)
    requires k <= |s| && NoneStarts(s, k)
    ensures ChunkFrames(s) == ChunkFrames(s[k..]) && ChunkRest(s) == ChunkRest(s[k..])
    decreases k
  {
    hide Classify;
    ClassifyIsClassifier();
    assert s[0..] == s;
    if k > 0 {
      Unfold(Classify, s);
      forall i | 0 <= i < k - 1
        ensures Classify(s[1..][i..]).Dead?
      {
        assert s[1..][i..] == s[i + 1..];
      }
      PassOver(s[1..], k - 1);
      assert s[1..][k - 1..] == s[k..];
    }
  }

  /** Exactly the whole chunks are found, whatever lies between them, and the tail is kept. */
  lemma {:induction false} HolesArePassedOver(pieces: seq<Piece>, tail: seq<byte>)
    requires Readable(pieces, tail)
    ensures ChunkFrames(Wire(pieces, tail)) == EncodeAll(Goods(pieces))
    ensures ChunkRest(Wire(pieces, tail)) == tail
    ensures forall i :: 0 <= i < |Goods(pieces)| ==> Intact(Goods(pieces)[i])
    decreases |pieces|
  {
    hide Classify, Encode, Intact, NoneStarts;
    ClassifyIsClassifier();
    if pieces == [] {
    } else {
      var rest := Wire(pieces[1..], tail);
      HolesArePassedOver(pieces[1..], tail);
      if pieces[0].Good? {
        var c := pieces[0].chunk;
        ClassifyEncoded(c, rest);
        FrontFrame(Classify, Encode(c), rest);
        EncodeAllCons(c, Goods(pieces[1..]));
      } else {
        PassOver(pieces[0].bytes + rest, |pieces[0].bytes|);
        assert (pieces[0].bytes + rest)[|pieces[0].bytes|..] == rest;
        assert [] + Goods(pieces[1..]) == Goods(pieces[1..]);
      }
    }
  }

  /** Junk without the first byte of the magic is such junk, with three bytes or more behind it. */
  lemma NoMagicNoneStarts(bytes: seq<byte>, rest: seq<byte>)
    requires MAGIC[0] !in bytes && |rest| >= 3
    ensures NoneStarts(bytes + rest, |bytes|)
  {
    var s := bytes + rest;
    forall i | 0 <= i < |bytes|
      ensures Classify(s[i..]).Dead?
    {
      assert s[i..][0] == bytes[i] && s[i..][..4][0] == bytes[i];
    }
  }

  /**
   So is a chunk that lost its end: what follows takes the place of the bytes it lacks, and the
   checksum does not fit that.
   */
  lemma CutShortNoneStarts(c: Chunk, n: nat, rest: seq<byte>)
    requires Intact(c) && HDR_SIZE <= n < HDR_SIZE + |c.payload| <= n + |rest| && |rest| >= 3
    requires MAGIC[0] !in Encode(c)[1..n]
    requires Crc16.Crc((Encode(c)[..n] + rest)[HDR_SIZE..HDR_SIZE + |c.payload|]) != c.hdr.checksum
    ensures NoneStarts(Encode(c)[..n] + rest, n)
  {
    hide DecodeHdr, EncodeHdr, Crc16.Crc;
    var s := Encode(c)[..n] + rest;
    HeaderStays(c, n, rest);
    forall i | 0 <= i < n
      ensures Classify(s[i..]).Dead?
    {
      if i == 0 {
        assert s[0..] == s;
        FailsChecksum(s, c.hdr);
      } else {
        assert s[i..][..4][0] == s[i] == Encode(c)[1..n][i - 1];
      }
    }
  }

  lemma HeaderStays(c: Chunk, n: nat, rest: seq<byte>)
    requires HDR_SIZE <= n <= HDR_SIZE + |c.payload|
    ensures var s := Encode(c)[..n] + rest; |s| >= HDR_SIZE && s[..4] == MAGIC && DecodeHdr(s) == c.hdr
  {
    hide DecodeHdr, EncodeHdr;
    var s, more := Encode(c)[..n] + rest, c.payload[..n - HDR_SIZE] + rest;
    assert s == EncodeHdr(c.hdr) + more;
    DecodeHdrAfterEncode(c.hdr, more);
  }

  lemma FailsChecksum(s: seq<byte>, h: Hdr)
    requires |s| >= HDR_SIZE + h.payloadLen && s[..4] == MAGIC && DecodeHdr(s) == h
    requires Crc16.Crc(s[HDR_SIZE..HDR_SIZE + h.payloadLen]) != h.checksum
    ensures Classify(s) == Dead(true)
  {
    hide DecodeHdr, Crc16.Crc;
    var n := HDR_SIZE + h.payloadLen;
    DecodeHdrPrefix(s[..n], s[n..]);
    assert s == s[..n] + s[n..] && s[..n][HDR_SIZE..] == s[HDR_SIZE..n];
  }

  /** A wire without holes. */
  function NoHoles(cs: seq<Chunk>): seq<Piece> {
    seq(|cs|, i requires 0 <= i < |cs| => Good(cs[i]))
  }

  lemma {:induction false} NoHolesIsReadable(cs: seq<Chunk>)
    requires forall i :: 0 <= i < |cs| ==> Intact(cs[i])
    ensures Readable(NoHoles(cs), []) && Goods(NoHoles(cs)) == cs && Wire(NoHoles(cs), []) == Concat(EncodeAll(cs))
    decreases |cs|
  {
    hide Encode, Intact;
    if cs != [] {
      assert NoHoles(cs)[1..] == NoHoles(cs[1..]);
      NoHolesIsReadable(cs[1..]);
      EncodeAllCons(cs[0], cs[1..]);
      assert cs == [cs[0]] + cs[1..];
    }
  }
}
