/** kmod/artosyn_net.c: the two framings of the network device, RPC frames and datagrams in their stream. */
module NetWire {
  import opened Bytes
  import opened Resync

  const RPC_HEAD: byte := 0xaa
  const RPC_TAIL: byte := 0xbb
  const RPC_HDR_LEN: nat := 18
  const RPC_XOR_LEN: nat := 17
  const RPC_OVERHEAD: nat := 19

  const DGRAM_HEAD: byte := 0xab
  const DGRAM_TAIL: byte := 0xbc
  const DGRAM_HDR_LEN: nat := 6
  const DGRAM_XOR_LEN: nat := 5
  const DGRAM_OVERHEAD: nat := 7

  const SO_POS_LEN: nat := 8
  const MAX_DGRAM: nat := 8192

  // The check byte

  function XorBits(a: nat, b: nat, n: nat): (x: nat)
    ensures x < Pow2(n)
  {
    if n == 0 then 0 else (a + b) % 2 + 2 * XorBits(a / 2, b / 2, n - 1)
  }

  function Xor(a: byte, b: byte): byte {
    assert Pow2(8) == 256;
    XorBits(a, b, 8)
  }

  /** art_xor(): all bytes and 0xff. */
  function ArtXor(s: seq<byte>): byte {
    if s == [] then 0xff else Xor(ArtXor(s[..|s| - 1]), s[|s| - 1])
  }

  /** Bit k of a number, the lowest being bit 0. */
  function Bit(x: nat, k: nat): nat {
    if k == 0 then x % 2 else Bit(x / 2, k - 1)
  }

  /** How many of the bytes have bit k set. */
  function BitCount(s: seq<byte>, k: nat): nat {
    if s == [] then 0 else BitCount(s[..|s| - 1], k) + Bit(s[|s| - 1], k)
  }

  lemma {:induction false} XorBit(a: nat, b: nat, n: nat, k: nat)
    requires k < n
    ensures Bit(XorBits(a, b, n), k) == (Bit(a, k) + Bit(b, k)) % 2
    decreases k
  {
    if k > 0 {
      XorBit(a / 2, b / 2, n - 1, k - 1);
      assert XorBits(a, b, n) / 2 == XorBits(a / 2, b / 2, n - 1);
    }
  }

  /** Each bit of the check byte is 1 plus the number of bytes that have it, modulo 2. */
  lemma {:induction false} CheckByteBits(s: seq<byte>, k: nat)
    requires k < 8
    ensures Bit(ArtXor(s), k) == (1 + BitCount(s, k)) % 2
  {
    hide XorBits, Bit;
    if s == [] {
      AllOnes(k);
    } else {
      var n := |s| - 1;
      CheckByteBits(s[..n], k);
      XorBit(ArtXor(s[..n]), s[n], 8, k);
    }
  }

  lemma AllOnes(k: nat)
    requires k < 8
    ensures Bit(255, k) == 1
  {
    assert Bit(3, 0) == 1 && Bit(3, 1) == 1 && Bit(1, 0) == 1;
    assert Bit(15, 0) == 1 && Bit(15, 1) == 1 && Bit(15, 2) == Bit(7, 1) && Bit(15, 3) == Bit(7, 2);
    assert Bit(7, 1) == 1 && Bit(7, 2) == Bit(3, 1);
    assert Bit(255, 4) == Bit(127, 3) && Bit(127, 3) == Bit(63, 2) && Bit(63, 2) == Bit(31, 1) && Bit(31, 1) == 1;
    assert Bit(255, 5) == Bit(127, 4) && Bit(127, 4) == Bit(63, 3) && Bit(63, 3) == Bit(31, 2);
    assert Bit(31, 2) == Bit(15, 1);
    assert Bit(255, 6) == Bit(127, 5) && Bit(127, 5) == Bit(63, 4) && Bit(63, 4) == Bit(31, 3);
    assert Bit(31, 3) == Bit(15, 2);
    assert Bit(255, 7) == Bit(127, 6) && Bit(127, 6) == Bit(63, 5) && Bit(63, 5) == Bit(31, 4);
    assert Bit(31, 4) == Bit(15, 3);
    assert Bit(255, 3) == Bit(127, 2) && Bit(127, 2) == Bit(63, 1);
    assert Bit(255, 2) == Bit(127, 1) && Bit(255, 1) == Bit(127, 0);
  }

  method ComputeXor(s: seq<byte>) returns (x: byte)
    ensures x == ArtXor(s)
  {
    hide Xor;
    x := 0xff;
    for i := 0 to |s|
      invariant x == ArtXor(s[..i])
    {
      assert s[..i + 1][..i] == s[..i];
      x := Xor(x, s[i]);
    }
    assert s[..|s|] == s;
  }

  lemma {:induction false} XorBitsInjective(a: nat, b: nat, c: nat, n: nat)
    requires a < Pow2(n) && b < Pow2(n) && a != b
    ensures XorBits(a, c, n) != XorBits(b, c, n) && XorBits(c, a, n) != XorBits(c, b, n)
  {
    if n > 0 {
      if a % 2 == b % 2 {
        XorBitsInjective(a / 2, b / 2, c / 2, n - 1);
      }
      BitDiffers(a, b, c);
    }
  }

  lemma BitDiffers(a: nat, b: nat, c: nat)
    ensures a % 2 != b % 2 ==> (a + c) % 2 != (b + c) % 2
    ensures a % 2 == b % 2 ==> (a + c) % 2 == (b + c) % 2
  {
  }

  lemma XorInjective(a: byte, b: byte, c: byte)
    requires a != b
    ensures Xor(a, c) != Xor(b, c) && Xor(c, a) != Xor(c, b)
  {
    assert Pow2(8) == 256;
    XorBitsInjective(a, b, c, 8);
  }

  /** A header with any single byte changed never has the same check byte. */
  lemma {:induction false} OneByteDetected(s: seq<byte>, k: nat, b: byte)
    requires k < |s| && s[k] != b
    ensures ArtXor(s) != ArtXor(s[k := b])
  {
    hide Xor;
    var n := |s| - 1;
    var t := s[k := b];
    if k == n {
      assert t[..n] == s[..n];
      XorInjective(s[k], b, ArtXor(s[..n]));
    } else {
      assert t[..n] == s[..n][k := b];
      OneByteDetected(s[..n], k, b);
      XorInjective(ArtXor(s[..n]), ArtXor(t[..n]), s[n]);
    }
  }

  // Datagrams

  function DgramHead(len: u32): (s: seq<byte>)
    ensures |s| == DGRAM_XOR_LEN
  {
    [DGRAM_HEAD] + PutLe32(len)
  }

  /** One packet in the socket's byte stream. */
  function EncodeDgram(packet: seq<byte>): (s: seq<byte>)
    requires |packet| < 0x1_0000_0000
    ensures |s| == DGRAM_OVERHEAD + |packet|
  {
    DgramHead(|packet|) + [ArtXor(DgramHead(|packet|))] + packet + [DGRAM_TAIL]
  }

  function PacketOf(frame: seq<byte>): seq<byte> {
    if |frame| < DGRAM_OVERHEAD then [] else frame[DGRAM_HDR_LEN..|frame| - 1]
  }

  predicate DgramHeadOk(s: seq<byte>)
    requires |s| >= DGRAM_HDR_LEN
  {
    ArtXor(s[..DGRAM_XOR_LEN]) == s[DGRAM_XOR_LEN] && GetLe32(s, 1) <= MAX_DGRAM
  }

  /** Whether a datagram starts at the front of s. */
  function DgramAt(s: seq<byte>): Verdict {
    if s == [] then Undecided
    else if s[0] != DGRAM_HEAD then Dead(false)
    else if |s| < DGRAM_OVERHEAD then Undecided
    else if !DgramHeadOk(s) then Dead(true)
    else if |s| < DGRAM_OVERHEAD + GetLe32(s, 1) then Undecided
    else if s[DGRAM_HDR_LEN + GetLe32(s, 1)] != DGRAM_TAIL then Dead(true)
    else Valid(DGRAM_OVERHEAD + GetLe32(s, 1))
  }

  lemma DgramAtStable(s: seq<byte>, t: seq<byte>)
    requires DgramAt(s) != Undecided
    ensures DgramAt(s + t) == DgramAt(s)
  {
    hide ArtXor;
    if |s| >= DGRAM_OVERHEAD {
      assert (s + t)[..DGRAM_XOR_LEN] == s[..DGRAM_XOR_LEN];
    }
  }

  lemma DgramAtIsClassifier()
    ensures IsClassifier(DgramAt)
  {
    forall s: seq<byte>, t: seq<byte> | DgramAt(s) != Undecided
      ensures DgramAt(s + t) == DgramAt(s)
    {
      DgramAtStable(s, t);
    }
  }

  /** No head claims more than this. */
  const DGRAM_LIMIT: nat := DGRAM_OVERHEAD + MAX_DGRAM

  lemma DgramAtIsBounded(s: seq<byte>)
    requires |s| >= DGRAM_LIMIT
    ensures DgramAt(s) != Undecided
  {
    hide ArtXor;
  }

  lemma DgramAtEncoded(packet: seq<byte>, rest: seq<byte>)
    requires |packet| <= MAX_DGRAM
    ensures DgramAt(EncodeDgram(packet) + rest) == Valid(DGRAM_OVERHEAD + |packet|)
    ensures PacketOf(EncodeDgram(packet)) == packet
  {
    hide ArtXor;
    var s, head := EncodeDgram(packet) + rest, DgramHead(|packet|);
    assert s[..DGRAM_XOR_LEN] == head && s[1..5] == PutLe32(|packet|);
    assert GetLe32(s, 1) == GetLe32(s[1..5], 0);
  }

  ghost function Dgrams(s: seq<byte>): seq<seq<byte>> {
    DgramAtIsClassifier();
    Frames(DgramAt, s)
  }

  ghost function DgramRest(s: seq<byte>): seq<byte> {
    DgramAtIsClassifier();
    Rest(DgramAt, s)
  }

  /** The packets in a stretch of the stream. */
  function PacketsOf(frames: seq<seq<byte>>): seq<seq<byte>> {
    seq(|frames|, i requires 0 <= i < |frames| => PacketOf(frames[i]))
  }

  function DgramStream(packets: seq<seq<byte>>): seq<byte>
    requires forall i :: 0 <= i < |packets| ==> |packets[i]| <= MAX_DGRAM
  {
    if packets == [] then [] else EncodeDgram(packets[0]) + DgramStream(packets[1..])
  }

  /** Packets written one behind the other come out again. */
  lemma {:induction false} DgramsBack(packets: seq<seq<byte>>)
    requires forall i :: 0 <= i < |packets| ==> |packets[i]| <= MAX_DGRAM
    ensures PacketsOf(Dgrams(DgramStream(packets))) == packets && DgramRest(DgramStream(packets)) == []
    decreases |packets|
  {
    hide EncodeDgram, PacketOf, DgramAt;
    DgramAtIsClassifier();
    if packets == [] {
      NoBytes();
    } else {
      DgramsBack(packets[1..]);
      var tail := DgramStream(packets[1..]);
      DgramAtEncoded(packets[0], tail);
      FrontFrame(DgramAt, EncodeDgram(packets[0]), tail);
      assert Dgrams(DgramStream(packets)) == [EncodeDgram(packets[0])] + Dgrams(tail);
      assert PacketsOf([EncodeDgram(packets[0])] + Dgrams(tail)) == [packets[0]] + PacketsOf(Dgrams(tail));
    }
  }

  lemma NoBytes()
    ensures Dgrams([]) == [] && DgramRest([]) == []
  {
  }

  // RPC frames

  datatype Rpc = Rpc(reqid: u32, msgid: u32, sta: u32, data: seq<byte>)

  /** The header as far as the check byte covers it. */
  function HeadBytes(datalen: u32, reqid: u32, msgid: u32, sta: u32): (s: seq<byte>)
    ensures |s| == RPC_XOR_LEN
  {
    [RPC_HEAD] + PutLe32(datalen) + PutBe32(reqid) + PutBe32(msgid) + PutBe32(sta)
  }

  function RpcHead(r: Rpc): (s: seq<byte>)
    requires |r.data| < 0x1_0000_0000
    ensures |s| == RPC_XOR_LEN
  {
    HeadBytes(|r.data|, r.reqid, r.msgid, r.sta)
  }

  function EncodeRpc(r: Rpc): (s: seq<byte>)
    requires |r.data| < 0x1_0000_0000
    ensures |s| == RPC_OVERHEAD + |r.data|
  {
    RpcHead(r) + [ArtXor(RpcHead(r))] + r.data + [RPC_TAIL]
  }

  function DecodeRpc(frame: seq<byte>): Rpc
    requires |frame| >= RPC_OVERHEAD
  {
    Rpc(GetBe32(frame, 5), GetBe32(frame, 9), GetBe32(frame, 13), frame[RPC_HDR_LEN..|frame| - 1])
  }

  /** An RPC frame starts at off: its length. */
  function RpcAt(p: seq<byte>, off: nat): (n: Option<nat>)
    requires off <= |p|
    ensures n.Some? ==> RPC_OVERHEAD <= n.value <= |p| - off
  {
    if off + RPC_OVERHEAD > |p| || p[off] != RPC_HEAD || off + RPC_OVERHEAD + GetLe32(p, off + 1) > |p| then None
    else
      var n := RPC_OVERHEAD + GetLe32(p, off + 1);
      if p[off + n - 1] == RPC_TAIL && ArtXor(p[off..off + RPC_XOR_LEN]) == p[off + RPC_XOR_LEN] then Some(n) else None
  }

  lemma DecodeEncodedRpc(r: Rpc)
    requires |r.data| < 0x1_0000_0000
    ensures DecodeRpc(EncodeRpc(r)) == r
  {
    hide ArtXor, GetBe32, PutBe32, GetLe32, PutLe32;
    var s := EncodeRpc(r);
    assert s[5..9] == PutBe32(r.reqid) && s[9..13] == PutBe32(r.msgid) && s[13..17] == PutBe32(r.sta);
    Be32Inside(s, 5);
    Be32Inside(s, 9);
    Be32Inside(s, 13);
    assert s[RPC_HDR_LEN..|s| - 1] == r.data;
  }

  lemma RpcAtEncoded(p: seq<byte>, off: nat, r: Rpc)
    requires |r.data| < 0x1_0000_0000 && off + RPC_OVERHEAD + |r.data| <= |p|
    requires p[off..off + RPC_OVERHEAD + |r.data|] == EncodeRpc(r)
    ensures RpcAt(p, off) == Some(RPC_OVERHEAD + |r.data|)
  {
    hide ArtXor, GetBe32, PutBe32, GetLe32, PutLe32;
    var s, n := EncodeRpc(r), |r.data|;
    assert s[..RPC_XOR_LEN] == RpcHead(r) && s[1..5] == PutLe32(n);
    SliceOfSlice(p, off, s, 1, 5);
    SliceOfSlice(p, off, s, 0, RPC_XOR_LEN);
    Le32Inside(p, off + 1);
    ByteOfSlice(p, off, s, 0);
    ByteOfSlice(p, off, s, RPC_XOR_LEN);
    ByteOfSlice(p, off, s, RPC_OVERHEAD + n - 1);
  }

  lemma SliceOfSlice(p: seq<byte>, off: nat, s: seq<byte>, i: nat, j: nat)
    requires off + |s| <= |p| && p[off..off + |s|] == s && i <= j <= |s|
    ensures p[off + i..off + j] == s[i..j]
  {
    var u, v := p[off + i..off + j], s[i..j];
    forall k | 0 <= k < |u|
      ensures u[k] == v[k]
    {
      ByteOfSlice(p, off, s, i + k);
    }
  }

  lemma ByteOfSlice(p: seq<byte>, off: nat, s: seq<byte>, i: nat)
    requires off + |s| <= |p| && p[off..off + |s|] == s && i < |s|
    ensures p[off + i] == s[i]
  {
    assert p[off..off + |s|][i] == p[off + i];
  }
}
