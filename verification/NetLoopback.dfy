/** What the send path writes, read back by the rules of the receive path. */
module NetLoopback {
  import opened Bytes
  import opened NetWire
  import opened NetDemux
  import opened NetSend

  /** The frames of a list, as they are on the wire. */
  function Encoded(frames: seq<Rpc>): seq<seq<byte>>
    requires AllEncodable(frames)
  {
    seq(|frames|, i requires 0 <= i < |frames| => EncodeRpc(frames[i]))
  }

  lemma {:induction false} ScanZeros(k: nat, rest: seq<byte>)
    requires rest == [] || |rest| >= RPC_OVERHEAD
    ensures Scanned(Zeros(k) + rest) == Scanned(rest)
    decreases k
  {
    hide RpcAt;
    var s := Zeros(k) + rest;
    if k == 0 {
      assert s == rest;
    } else if |s| < RPC_OVERHEAD {
      ShortHasNoFrame(s);
      ShortHasNoFrame(rest);
    } else {
      assert s[1..] == Zeros(k - 1) + rest;
      ScanZeros(k - 1, rest);
    }
  }

  lemma ScanFrame(r: Rpc, rest: seq<byte>)
    requires |r.data| < 0x1_0000_0000
    ensures Scanned(EncodeRpc(r) + rest) == [EncodeRpc(r)] + Scanned(rest)
  {
    hide RpcAt, ArtXor;
    var e := EncodeRpc(r);
    var s := e + rest;
    assert s[0..0 + RPC_OVERHEAD + |r.data|] == e;
    RpcAtEncoded(s, 0, r);
    assert s[0] == RPC_HEAD && s[..|e|] == e && s[|e|..] == rest;
  }

  /** The scan finds the frames, whatever the padding behind each. */
  lemma {:induction false} ScanWire(frames: seq<Rpc>, pads: seq<nat>, rest: seq<byte>)
    requires |frames| == |pads| && AllEncodable(frames)
    requires rest == [] || |rest| >= RPC_OVERHEAD
    ensures Scanned(Wire(frames, pads) + rest) == Encoded(frames) + Scanned(rest)
    decreases |frames|
  {
    hide EncodeRpc, Scanned, Zeros;
    if frames == [] {
      assert Wire(frames, pads) + rest == rest && Encoded(frames) + Scanned(rest) == Scanned(rest);
    } else {
      var n := |frames| - 1;
      var e, z := EncodeRpc(frames[n]), Zeros(pads[n]);
      EncodedLength(frames[n]);
      ScanWire(frames[..n], pads[..n], e + (z + rest));
      ScanFrame(frames[n], z + rest);
      ScanZeros(pads[n], rest);
      Regroup3(Wire(frames[..n], pads[..n]), e, z, rest);
      assert Encoded(frames) == Encoded(frames[..n]) + [e];
      assert Encoded(frames[..n]) + ([e] + Scanned(rest)) == Encoded(frames[..n]) + [e] + Scanned(rest);
    }
  }

  lemma EncodedLength(r: Rpc)
    requires |r.data| < 0x1_0000_0000
    ensures |EncodeRpc(r)| >= RPC_OVERHEAD
  {
  }

  lemma Regroup3(a: seq<byte>, b: seq<byte>, c: seq<byte>, d: seq<byte>)
    ensures a + b + c + d == a + (b + (c + d))
  {
  }

  /** The stream bytes of a write: what follows the position. */
  function StreamBytes(rs: seq<Rpc>): seq<byte> {
    if rs == [] then []
    else
      var d := rs[|rs| - 1].data;
      StreamBytes(rs[..|rs| - 1]) + if |d| >= SO_POS_LEN then d[SO_POS_LEN..] else []
  }

  predicate AllSmall(packets: seq<seq<byte>>) {
    forall i :: 0 <= i < |packets| ==> |packets[i]| <= MAX_DGRAM
  }

  /** A packet of the largest size still fits the stage buffer. */
  lemma SmallFits(packets: seq<seq<byte>>)
    requires AllSmall(packets)
    ensures AllFit(packets)
  {
  }

  lemma DgramCons(p: seq<byte>, rest: seq<seq<byte>>)
    requires AllSmall(rest) && |p| <= MAX_DGRAM
    ensures AllSmall([p] + rest) && DgramStream([p] + rest) == EncodeDgram(p) + DgramStream(rest)
  {
    hide EncodeDgram;
    assert ([p] + rest)[0] == p && ([p] + rest)[1..] == rest;
  }

  lemma {:induction false} DgramStreamSnoc(packets: seq<seq<byte>>, p: seq<byte>)
    requires AllSmall(packets) && |p| <= MAX_DGRAM
    ensures AllSmall(packets + [p])
    ensures DgramStream(packets + [p]) == DgramStream(packets) + EncodeDgram(p)
    decreases |packets|
  {
    hide EncodeDgram, DgramStream;
    if packets == [] {
      DgramCons(p, []);
      NoDgrams();
      assert [] + [p] == [p] == [p] + [];
    } else {
      var first, rest := packets[0], packets[1..];
      assert packets == [first] + rest && packets + [p] == [first] + (rest + [p]);
      DgramStreamSnoc(rest, p);
      DgramCons(first, rest);
      DgramCons(first, rest + [p]);
      Regroup(EncodeDgram(first), DgramStream(rest), EncodeDgram(p));
    }
  }

  lemma NoDgrams()
    ensures DgramStream([]) == []
  {
  }

  /** Behind the positions lies the datagram stream. */
  lemma {:induction false} StreamIsSent(slot: byte, port: byte, wrIndex: u64, msgid: u32, packets: seq<seq<byte>>)
    requires AllSmall(packets) && AllFit(packets)
    ensures StreamBytes(FramesFor(slot, port, wrIndex, msgid, packets)) == DgramStream(packets)
    decreases |packets|
  {
    hide EncodeDgram, MsgidAfter, WriteRpc, DgramStream, FramesFor, IndexAfter, StreamBytes;
    NoDgrams();
    StreamNone(slot, port, wrIndex, msgid);
    if packets != [] {
      var n := |packets| - 1;
      var r := WriteRpc(slot, port, IndexAfter(wrIndex, packets[..n]), MsgidAfter(msgid, n), packets[n]);
      assert packets == packets[..n] + [packets[n]];
      StreamIsSent(slot, port, wrIndex, msgid, packets[..n]);
      DgramStreamSnoc(packets[..n], packets[n]);
      FramesSnoc(slot, port, wrIndex, msgid, packets[..n], packets[n]);
      BehindPosition(slot, port, IndexAfter(wrIndex, packets[..n]), MsgidAfter(msgid, n), packets[n]);
      StreamSnoc(FramesFor(slot, port, wrIndex, msgid, packets[..n]), r);
    }
  }

  lemma StreamNone(slot: byte, port: byte, wrIndex: u64, msgid: u32)
    ensures StreamBytes(FramesFor(slot, port, wrIndex, msgid, [])) == []
  {
  }

  lemma StreamSnoc(rs: seq<Rpc>, r: Rpc)
    requires |r.data| >= SO_POS_LEN
    ensures StreamBytes(rs + [r]) == StreamBytes(rs) + r.data[SO_POS_LEN..]
  {
    assert (rs + [r])[..|rs|] == rs;
  }

  /** Each position is where the stream goes on. */
  lemma {:induction false} IndexIsPosition(wrIndex: u64, packets: seq<seq<byte>>)
    requires AllSmall(packets)
    ensures IndexAfter(wrIndex, packets) as int == (wrIndex as int + |DgramStream(packets)|) % 0x1_0000_0000_0000_0000
    decreases |packets|
  {
    hide EncodeDgram, DgramStream;
    NoDgrams();
    if packets != [] {
      var n := |packets| - 1;
      IndexIsPosition(wrIndex, packets[..n]);
      DgramStreamSnoc(packets[..n], packets[n]);
      assert packets == packets[..n] + [packets[n]];
      WrapsOnce(wrIndex, |DgramStream(packets[..n])|, DGRAM_OVERHEAD + |packets[n]|);
    }
  }

  lemma BehindPosition(slot: byte, port: byte, wrIndex: u64, msgid: u32, packet: seq<byte>)
    requires |packet| < 0x1_0000_0000
    ensures var d := WriteRpc(slot, port, wrIndex, msgid, packet).data;
      |d| >= SO_POS_LEN && d[SO_POS_LEN..] == EncodeDgram(packet) && GetLe64(d, 0) == wrIndex
  {
    hide EncodeDgram, ReqId;
  }

  lemma WrapsOnce(a: int, b: int, c: int)
    ensures ((a + b) % 0x1_0000_0000_0000_0000 + c) % 0x1_0000_0000_0000_0000 == (a + (b + c)) % 0x1_0000_0000_0000_0000
  {
  }

  lemma {:induction false} FrameIs(slot: byte, port: byte, wrIndex: u64, msgid: u32, packets: seq<seq<byte>>, i: nat)
    requires AllFit(packets) && i < |packets|
    ensures FramesFor(slot, port, wrIndex, msgid, packets)[i]
            == WriteRpc(slot, port, IndexAfter(wrIndex, packets[..i]), MsgidAfter(msgid, i), packets[i])
    decreases |packets|
  {
    hide WriteRpc, IndexAfter, MsgidAfter;
    var n := |packets| - 1;
    if i < n {
      FrameIs(slot, port, wrIndex, msgid, packets[..n], i);
      assert packets[..n][..i] == packets[..i];
    }
  }

  /**
   Packets of up to 8192 bytes, framed, padded and written over any windows: the frame scan
   finds each frame, addressed to the device; the bytes behind their positions are read back
   as exactly the packets; and each position is the number of stream bytes before it.
   */
  lemma Loopback(slot: byte, port: byte, wrIndex: u64, msgid: u32, packets: seq<seq<byte>>, pads: seq<nat>)
    requires AllSmall(packets) && |packets| == |pads|
    ensures AllFit(packets)
    ensures var frames := FramesFor(slot, port, wrIndex, msgid, packets);
      && AllEncodable(frames)
      && Scanned(Wire(frames, pads)) == Encoded(frames)
      && DecodeAll(Encoded(frames)) == frames
      && PacketsOf(Dgrams(StreamBytes(frames))) == packets && DgramRest(StreamBytes(frames)) == []
      && forall i :: 0 <= i < |packets| ==> Addressed(frames[i], slot, port, Position(wrIndex, packets[..i]))
  {
    hide Wire, Encoded, FramesFor, Scanned, Dgrams, DgramRest, PacketsOf, StreamBytes, DgramStream, EncodeRpc;
    hide Addressed, WriteRpc, IndexAfter, MsgidAfter, AllEncodable, DecodeAll;
    SmallFits(packets);
    var frames := FramesFor(slot, port, wrIndex, msgid, packets);
    FramesEncodable(slot, port, wrIndex, msgid, packets);
    ScanWire(frames, pads, []);
    ShortHasNoFrame([]);
    assert Wire(frames, pads) + [] == Wire(frames, pads) && Encoded(frames) + [] == Encoded(frames);
    EncodedBack(frames);
    StreamIsSent(slot, port, wrIndex, msgid, packets);
    DgramsBack(packets);
    forall i | 0 <= i < |packets|
      ensures Addressed(frames[i], slot, port, Position(wrIndex, packets[..i]))
    {
      FrameIs(slot, port, wrIndex, msgid, packets, i);
      IndexIsPosition(wrIndex, packets[..i]);
      IsAddressed(slot, port, IndexAfter(wrIndex, packets[..i]), MsgidAfter(msgid, i), packets[i]);
    }
  }

  /** How many bytes of the stream there are before the next packet. */
  function Position(start: u64, packets: seq<seq<byte>>): int
    requires AllSmall(packets)
  {
    (start as int + |DgramStream(packets)|) % 0x1_0000_0000_0000_0000
  }

  /** A write to this socket, at this position of its stream. */
  predicate Addressed(r: Rpc, slot: byte, port: byte, position: int) {
    OpOf(r) == SO_WRITE && IsMine(r, slot, port) && |r.data| >= SO_POS_LEN && GetLe64(r.data, 0) as int == position
  }

  lemma IsAddressed(slot: byte, port: byte, wrIndex: u64, msgid: u32, packet: seq<byte>)
    requires |packet| < 0x1_0000_0000
    ensures Addressed(WriteRpc(slot, port, wrIndex, msgid, packet), slot, port, wrIndex)
  {
    hide OpOf, IsMine, ReqId, GetLe64;
    var r := WriteRpc(slot, port, wrIndex, msgid, packet);
    ReqIdParts(SO_WRITE, slot, port, r);
    BehindPosition(slot, port, wrIndex, msgid, packet);
  }

  lemma {:induction false} FramesEncodable(slot: byte, port: byte, wrIndex: u64, msgid: u32, packets: seq<seq<byte>>)
    requires AllFit(packets)
    ensures AllEncodable(FramesFor(slot, port, wrIndex, msgid, packets))
    decreases |packets|
  {
    hide EncodeDgram, PutLe64, ReqId;
    if packets != [] {
      FramesEncodable(slot, port, wrIndex, msgid, packets[..|packets| - 1]);
    }
  }

  lemma EncodedBack(frames: seq<Rpc>)
    requires AllEncodable(frames)
    ensures DecodeAll(Encoded(frames)) == frames
  {
    hide EncodeRpc, DecodeRpc;
    forall i | 0 <= i < |frames|
      ensures DecodeAll(Encoded(frames))[i] == frames[i]
    {
      EncodedLength(frames[i]);
      DecodeEncodedRpc(frames[i]);
    }
  }
}
