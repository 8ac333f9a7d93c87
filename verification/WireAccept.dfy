/**
 What the three scanners take for a chunk, a datagram or a frame is exactly what a sender can have
 built: nothing else is accepted, and nothing of it refused.
 */
module WireAccept {
  import opened Bytes
  import opened Resync
  import opened ChunkWire
  import opened NetWire
  import opened WireLayout
  import Crc16

  lemma PutGot16(s: seq<byte>, at: nat)
    requires at + 2 <= |s|
    ensures PutLe16(GetLe16(s, at)) == s[at..at + 2]
  {
  }

  lemma PutGot32(s: seq<byte>, at: nat)
    requires at + 4 <= |s|
    ensures PutLe32(GetLe32(s, at)) == s[at..at + 4]
  {
    hide PutLe32, GetLe32;
    Got32(s, at);
    Little32(GetLe32(s, at));
    LittleOnce(PutLe32(GetLe32(s, at)), s[at..at + 4]);
  }

  lemma PutGotBe32(s: seq<byte>, at: nat)
    requires at + 4 <= |s|
    ensures PutBe32(GetBe32(s, at)) == s[at..at + 4]
  {
    hide GetBe16;
    GotBe16(s, at);
    GotBe16(s, at + 2);
    assert s[at..at + 4] == s[at..at + 2] + s[at + 2..at + 4];
  }

  lemma GotBe16(s: seq<byte>, at: nat)
    requires at + 2 <= |s|
    ensures PutBe16(GetBe16(s, at)) == s[at..at + 2]
  {
  }

  // Chunks

  lemma EncodeAfterDecode(s: seq<byte>)
    requires |s| >= HDR_SIZE && s[..4] == MAGIC
    ensures Encode(Decode(s)) == s
  {
    hide PutLe16, PutLe32, GetLe16, GetLe32;
    PutGot16(s, 4);
    PutGot16(s, 6);
    PutGot16(s, 8);
    PutGot16(s, 10);
    PutGot32(s, 14);
    PutGot16(s, 18);
    PutGot16(s, 20);
    assert s == s[..4] + s[4..6] + s[6..8] + s[8..10] + s[10..12] + [s[12], s[13]] + s[14..18] + s[18..20] + s[20..22]
                + s[22..];
  }

  /** A stretch of the stream that a sender has built of an intact chunk. */
  ghost predicate IsChunk(s: seq<byte>) {
    exists c: Chunk :: Intact(c) && s == Encode(c)
  }

  /** A chunk is accepted at the front exactly if an intact one is there. */
  lemma ChunkAcceptedIff(s: seq<byte>, n: nat)
    ensures Classify(s) == Valid(n) <==> n <= |s| && IsChunk(s[..n])
  {
    hide DecodeHdr, EncodeHdr, Crc16.Crc;
    if Classify(s) == Valid(n) {
      var t := s[..n];
      assert t[..4] == s[..4];
      assert s == t + s[n..];
      HeaderInside(s, n);
      EncodeAfterDecode(t);
      assert Intact(Decode(t));
    }
    if n <= |s| && IsChunk(s[..n]) {
      var c: Chunk :| Intact(c) && s[..n] == Encode(c);
      assert s == Encode(c) + s[n..];
      ClassifyEncoded(c, s[n..]);
    }
  }

  lemma HeaderInside(s: seq<byte>, n: nat)
    requires HDR_SIZE <= n <= |s|
    ensures DecodeHdr(s[..n]) == DecodeHdr(s)
  {
  }

  // Datagrams

  ghost predicate IsDgram(s: seq<byte>) {
    exists packet: seq<byte> :: |packet| <= 8192 && s == EncodeDgram(packet)
  }

  lemma DgramAcceptedIff(s: seq<byte>, n: nat)
    ensures DgramAt(s) == Valid(n) <==> n <= |s| && IsDgram(s[..n])
  {
    hide ArtXor, GetLe32, PutLe32, DgramAt, EncodeDgram;
    if DgramAt(s) == Valid(n) {
      AcceptedDgram(s, n);
    }
    if n <= |s| && IsDgram(s[..n]) {
      var packet: seq<byte> :| |packet| <= 8192 && s[..n] == EncodeDgram(packet);
      assert s == EncodeDgram(packet) + s[n..];
      DgramAtEncoded(packet, s[n..]);
    }
  }

  lemma AcceptedDgram(s: seq<byte>, n: nat)
    requires DgramAt(s) == Valid(n)
    ensures DGRAM_OVERHEAD <= n <= |s| && n <= DGRAM_LIMIT
    ensures s[..n] == EncodeDgram(s[DGRAM_HDR_LEN..n - 1])
  {
    hide ArtXor, GetLe32, PutLe32;
    var packet := s[DGRAM_HDR_LEN..n - 1];
    PutGot32(s, 1);
    assert s[..DGRAM_XOR_LEN] == DgramHead(|packet|);
    assert s[..n] == s[..DGRAM_XOR_LEN] + [s[DGRAM_XOR_LEN]] + packet + [s[n - 1]];
  }

  // RPC frames

  ghost predicate IsRpc(s: seq<byte>) {
    exists r: Rpc :: |r.data| < 0x1_0000_0000 && s == EncodeRpc(r)
  }

  lemma RpcAcceptedIff(p: seq<byte>, off: nat, n: nat)
    requires off <= |p|
    ensures RpcAt(p, off) == Some(n) <==> off + n <= |p| && IsRpc(p[off..off + n])
  {
    hide ArtXor, GetLe32, PutLe32, GetBe32, PutBe32, EncodeRpc;
    if RpcAt(p, off) == Some(n) {
      AcceptedRpc(p, off, n);
    }
    if off + n <= |p| && IsRpc(p[off..off + n]) {
      var r: Rpc :| |r.data| < 0x1_0000_0000 && p[off..off + n] == EncodeRpc(r);
      RpcAtEncoded(p, off, r);
    }
  }

  lemma AcceptedRpc(p: seq<byte>, off: nat, n: nat)
    requires off <= |p| && RpcAt(p, off) == Some(n)
    ensures |DecodeRpc(p[off..off + n]).data| < 0x1_0000_0000
    ensures p[off..off + n] == EncodeRpc(DecodeRpc(p[off..off + n]))
  {
    hide ArtXor, GetLe32, PutLe32, GetBe32, PutBe32;
    var s := p[off..off + n];
    var r := DecodeRpc(s);
    Le32At(p, off, n);
    PutGot32(s, 1);
    PutGotBe32(s, 5);
    PutGotBe32(s, 9);
    PutGotBe32(s, 13);
    assert s[..RPC_XOR_LEN] == [s[0]] + s[1..5] + s[5..9] + s[9..13] + s[13..17];
    assert s[..RPC_XOR_LEN] == RpcHead(r) == p[off..off + RPC_XOR_LEN];
    assert s == s[..RPC_XOR_LEN] + [s[RPC_XOR_LEN]] + s[RPC_HDR_LEN..n - 1] + [s[n - 1]];
  }

  lemma Le32At(p: seq<byte>, off: nat, n: nat)
    requires RPC_OVERHEAD <= n && off + n <= |p|
    ensures GetLe32(p[off..off + n], 1) == GetLe32(p, off + 1)
  {
  }
}
