/**
 The formats byte by byte, as whoever is at the other end reads them: numbers by their digits to
 the base of 256, at the offsets of the C structures and of RFC 3550 and RFC 7798.
 */
module WireLayout {
  import opened Bytes
  import ChunkWire
  import TimingSei
  import Rtp
  import NetWire
  import NetDemux

  /** The number with these digits, the lowest first. */
  function Little(s: seq<byte>): nat {
    if s == [] then 0 else s[0] as int + 256 * Little(s[1..])
  }

  /** The number with these digits, the highest first. */
  function Big(s: seq<byte>): nat {
    if s == [] then 0 else 256 * Big(s[..|s| - 1]) + s[|s| - 1] as int
  }

  lemma LittleJoin(a: seq<byte>, b: seq<byte>, x: nat, y: nat, scale: nat)
    requires Little(a) == x && Little(b) == y
    requires (|a| == 2 && scale == 0x1_0000) || (|a| == 4 && scale == 0x1_0000_0000)
    ensures Little(a + b) == x + scale * y
  {
    LittleAppend(a, b);
    Powers();
  }

  lemma {:induction false} LittleAppend(a: seq<byte>, b: seq<byte>)
    ensures Little(a + b) == Little(a) + Pow256(|a|) * Little(b)
    decreases |a|
  {
    if a == [] {
      assert a + b == b;
    } else {
      LittleAppend(a[1..], b);
      assert (a + b)[1..] == a[1..] + b;
      Spread(Pow256(|a| - 1), Little(b));
    }
  }

  lemma Spread(p: nat, x: nat)
    ensures 256 * (p * x) == (256 * p) * x
  {
  }

  function Pow256(n: nat): nat { if n == 0 then 1 else 256 * Pow256(n - 1) }

  lemma Powers()
    ensures Pow256(1) == 256 && Pow256(2) == 0x1_0000 && Pow256(4) == 0x1_0000_0000
  {
    assert Pow256(1) == 256 * Pow256(0);
    assert Pow256(2) == 256 * Pow256(1);
    assert Pow256(3) == 256 * Pow256(2);
    assert Pow256(4) == 256 * Pow256(3);
  }

  lemma Little16(x: u16)
    ensures Little(PutLe16(x)) == x
  {
    var s := PutLe16(x);
    assert s[1..] == [s[1]];
    OneDigit(s[1]);
  }

  lemma Little32(x: u32)
    ensures Little(PutLe32(x)) == x
  {
    hide PutLe16;
    Little16(x % 0x1_0000);
    Little16(x / 0x1_0000);
    LittleJoin(PutLe16(x % 0x1_0000), PutLe16(x / 0x1_0000), x % 0x1_0000, x / 0x1_0000, 0x1_0000);
  }

  lemma Little64(x: u64)
    ensures Little(PutLe64(x)) == x
  {
    hide PutLe32;
    Little32(x % 0x1_0000_0000);
    Little32(x / 0x1_0000_0000);
    LittleJoin(PutLe32(x % 0x1_0000_0000), PutLe32(x / 0x1_0000_0000), x % 0x1_0000_0000, x / 0x1_0000_0000,
               0x1_0000_0000);
  }

  lemma Big16(x: u16)
    ensures Big(PutBe16(x)) == x
  {
    var s := PutBe16(x);
    assert s[..1] == [s[0]];
    OneDigit(s[0]);
  }

  lemma Big32(x: u32)
    ensures Big(PutBe32(x)) == x
  {
    Big16(x / 0x1_0000);
    Big16(x % 0x1_0000);
    var a, b := PutBe16(x / 0x1_0000), PutBe16(x % 0x1_0000);
    var s := a + b;
    assert s[..3][..2] == a && s[..3] == a + [b[0]];
    assert Big(s[..3]) == 256 * Big(a) + b[0];
    assert b[..1][..0] == [] && Big(b[..1]) == b[0];
  }

  lemma OneDigit(x: byte)
    ensures Little([x]) == x && Big([x]) == x
  {
    assert [x][1..] == [] && [x][..0] == [];
    assert Little([]) == 0 && Big([]) == 0;
  }

  // Reading is the same

  lemma Got16(s: seq<byte>, at: nat)
    requires at + 2 <= |s|
    ensures GetLe16(s, at) == Little(s[at..at + 2]) && GetBe16(s, at) == Big(s[at..at + 2])
  {
    var t := s[at..at + 2];
    assert t[1..] == [t[1]] && t[..1] == [t[0]];
    OneDigit(t[1]);
    OneDigit(t[0]);
  }

  lemma Got32(s: seq<byte>, at: nat)
    requires at + 4 <= |s|
    ensures GetLe32(s, at) == Little(s[at..at + 4])
  {
    hide GetLe16;
    Got16(s, at);
    Got16(s, at + 2);
    LittleJoin(s[at..at + 2], s[at + 2..at + 4], GetLe16(s, at), GetLe16(s, at + 2), 0x1_0000);
    assert s[at..at + 4] == s[at..at + 2] + s[at + 2..at + 4];
  }

  lemma Got64(s: seq<byte>, at: nat)
    requires at + 8 <= |s|
    ensures GetLe64(s, at) == Little(s[at..at + 8])
  {
    hide GetLe32;
    Got32(s, at);
    Got32(s, at + 4);
    LittleJoin(s[at..at + 4], s[at + 4..at + 8], GetLe32(s, at), GetLe32(s, at + 4), 0x1_0000_0000);
    assert s[at..at + 8] == s[at..at + 4] + s[at + 4..at + 8];
  }

  lemma {:induction false} LittleOnce(a: seq<byte>, b: seq<byte>)
    requires |a| == |b| && Little(a) == Little(b)
    ensures a == b
    decreases |a|
  {
    if a != [] {
      LittleOnce(a[1..], b[1..]);
      assert a == [a[0]] + a[1..] && b == [b[0]] + b[1..];
    }
  }

  /** What is read and written again is the same bytes. */
  lemma PutGot64(s: seq<byte>, at: nat)
    requires at + 8 <= |s|
    ensures PutLe64(GetLe64(s, at)) == s[at..at + 8]
  {
    hide PutLe64, GetLe64;
    Got64(s, at);
    Little64(GetLe64(s, at));
    LittleOnce(PutLe64(GetLe64(s, at)), s[at..at + 8]);
  }

  /** struct ar8030_chunk_hdr */
  lemma ChunkLayout(c: ChunkWire.Chunk)
    ensures var s := ChunkWire.Encode(c);
      && s[..4] == [0x41, 0x46, 0x52, 0x4D] // AFRM
      && Little(s[4..6]) == c.hdr.frameSeq && Little(s[6..8]) == c.hdr.chunkIdx
      && Little(s[8..10]) == c.hdr.chunkCount && Little(s[10..12]) == c.hdr.payloadLen
      && s[12] == c.hdr.flags && s[13] == c.hdr.codec && Little(s[14..18]) == c.hdr.framePts
      && Little(s[18..20]) == c.hdr.checksum && Little(s[20..22]) == c.hdr.reserved
      && s[22..] == c.payload
  {
    hide GetLe16, GetLe32, ChunkWire.EncodeHdr;
    var s, h := ChunkWire.Encode(c), c.hdr;
    ChunkWire.DecodeHdrAfterEncode(h, c.payload);
    Got16(s, 4);
    Got16(s, 6);
    Got16(s, 8);
    Got16(s, 10);
    Got32(s, 14);
    Got16(s, 18);
    Got16(s, 20);
  }

  /** struct timing_sei_v1, behind the UUID of its message */
  lemma TimingLayout(t: TimingSei.Timing)
    ensures var s := TimingSei.Rbsp(t);
      && |s| == 51 && s[0] == 5 && s[1] == 48
      && s[2..18] == [0x8a, 0x3f, 0x52, 0xc1, 0x6e, 0x0b, 0x4d, 0x97, 0xb2, 0x14, 0x5a, 0xe3, 0x09, 0x7c, 0xd1, 0x46]
      && s[18] == t.version && s[19] == t.flags && Little(s[20..22]) == t.frameSeq
      && Little(s[22..30]) == t.captureGroundUs && Little(s[30..38]) == t.rxDoneGroundUs
      && Little(s[38..42]) == t.syncUncertaintyUs && Little(s[42..46]) == t.encodeUs
      && Little(s[46..50]) == t.framesLost && s[50] == 0x80
  {
    hide PutLe16, PutLe32, PutLe64, TimingSei.EncodeTiming;
    var s, e := TimingSei.Rbsp(t), TimingSei.EncodeTiming(t);
    FieldsLayout(t);
    assert s[2..18] == TimingSei.UUID;
    assert s[18..50] == e;
    forall i, j | 0 <= i <= j <= 32
      ensures s[18 + i..18 + j] == e[i..j]
    {
      assert s[18..50][i..j] == s[18 + i..18 + j];
    }
    assert s[18] == e[0] && s[19] == e[1];
    assert s[20..22] == e[2..4] && s[22..30] == e[4..12] && s[30..38] == e[12..20];
    assert s[38..42] == e[20..24] && s[42..46] == e[24..28] && s[46..50] == e[28..32];
  }

  lemma FieldsLayout(t: TimingSei.Timing)
    ensures var e := TimingSei.EncodeTiming(t);
      && e[0] == t.version && e[1] == t.flags && Little(e[2..4]) == t.frameSeq
      && Little(e[4..12]) == t.captureGroundUs && Little(e[12..20]) == t.rxDoneGroundUs
      && Little(e[20..24]) == t.syncUncertaintyUs && Little(e[24..28]) == t.encodeUs
      && Little(e[28..32]) == t.framesLost
  {
    hide GetLe16, GetLe32, GetLe64, TimingSei.EncodeTiming;
    var e := TimingSei.EncodeTiming(t);
    TimingSei.DecodeEncoded(t);
    Got16(e, 2);
    Got64(e, 4);
    Got64(e, 12);
    Got32(e, 20);
    Got32(e, 24);
    Got32(e, 28);
  }

  /** Section 5.1 of RFC 3550: version 2, nothing but the fixed header, payload type 96. */
  lemma RtpLayout(seqNo: u16, ts: u32, ssrc: u32, item: Rtp.Item)
    ensures var p := Rtp.Packet(seqNo, ts, ssrc, item);
      && p[0] == 0x80 && p[1] == (if item.marker then 0xE0 else 0x60)
      && Big(p[2..4]) == seqNo && Big(p[4..8]) == ts && Big(p[8..12]) == ssrc && p[12..] == item.payload
  {
    hide PutBe16, PutBe32;
    var p := Rtp.Packet(seqNo, ts, ssrc, item);
    Big16(seqNo);
    Big32(ts);
    Big32(ssrc);
    assert p[2..4] == PutBe16(seqNo) && p[4..8] == PutBe32(ts) && p[8..12] == PutBe32(ssrc);
    assert p[12..] == item.payload;
  }

  /**
   Section 4.4.3 of RFC 7798: the NAL header with type 49 in place of its own, then the start bit,
   the end bit and the type.
   */
  lemma FuLayout(nal: seq<byte>, start: bool, end: bool)
    requires |nal| >= 2
    ensures var p := Rtp.FuPrefix(nal, start, end);
      && p[0] / 128 == nal[0] / 128 && p[0] / 2 % 64 == 49 && p[0] % 2 == nal[0] % 2 && p[1] == nal[1]
      && (p[2] / 128 == 1 <==> start) && (p[2] / 64 % 2 == 1 <==> end) && p[2] % 64 == nal[0] / 2 % 64
  {
    var t := nal[0] / 2 % 64;
    HeaderByte(nal[0] / 128, 49, nal[0] % 2);
    HeaderByte(One(start), One(end) * 32 + t / 2, t % 2);
    assert t == t / 2 * 2 + t % 2;
  }

  lemma HeaderByte(f: nat, t: nat, b: nat)
    requires f < 2 && t < 64 && b < 2
    ensures var x := f * 128 + t * 2 + b; x < 256 && x / 128 == f && x / 2 % 64 == t && x % 2 == b
    ensures (f * 128 + t * 2 + b) / 64 % 2 == t / 32 && (f * 128 + t * 2 + b) % 64 == t % 32 * 2 + b
  {
  }

  /** An RPC frame, and the digits of its request id. */
  lemma RpcLayout(r: NetWire.Rpc)
    requires |r.data| < 0x1_0000_0000
    ensures var s := NetWire.EncodeRpc(r);
      && |s| == 19 + |r.data| && s[0] == 0xaa && Little(s[1..5]) == |r.data|
      && Big(s[5..9]) == r.reqid && Big(s[9..13]) == r.msgid && Big(s[13..17]) == r.sta
      && s[17] == NetWire.ArtXor(s[..17]) && s[18..18 + |r.data|] == r.data && s[18 + |r.data|] == 0xbb
  {
    hide PutLe32, PutBe32, NetWire.ArtXor;
    var s := NetWire.EncodeRpc(r);
    Little32(|r.data|);
    Big32(r.reqid);
    Big32(r.msgid);
    Big32(r.sta);
    assert s[1..5] == PutLe32(|r.data|) && s[5..9] == PutBe32(r.reqid);
    assert s[9..13] == PutBe32(r.msgid) && s[13..17] == PutBe32(r.sta);
    assert s[..17] == NetWire.RpcHead(r);
    assert s[18..18 + |r.data|] == r.data;
  }

  lemma ReqIdLayout(op: byte, slot: byte, port: byte)
    ensures NetDemux.ReqId(op, slot, port) == Big([4, op, slot, port])
  {
    assert [4, op, slot, port][..3] == [4, op, slot] && [4, op, slot][..2] == [4, op] && [4, op][..1] == [4];
    assert Big([4]) == 4 && Big([4, op]) == 1024 + op as int;
    assert Big([4, op, slot]) == 256 * Big([4, op]) + slot as int;
  }

  /** A datagram in the device's stream. */
  lemma DgramLayout(packet: seq<byte>)
    requires |packet| < 0x1_0000_0000
    ensures var s := NetWire.EncodeDgram(packet);
      && |s| == 7 + |packet| && s[0] == 0xab && Little(s[1..5]) == |packet|
      && s[5] == NetWire.ArtXor(s[..5]) && s[6..6 + |packet|] == packet && s[6 + |packet|] == 0xbc
  {
    hide PutLe32, NetWire.ArtXor;
    var s := NetWire.EncodeDgram(packet);
    Little32(|packet|);
    assert s[1..5] == PutLe32(|packet|) && s[..5] == NetWire.DgramHead(|packet|);
    assert s[6..6 + |packet|] == packet;
  }
}
