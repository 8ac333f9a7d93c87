/**
 The stream position of kmod/artosyn_net.c over its two halves: the chip rejects a write that is
 not at the position it goes on at, and says where that is in its answers.
 */
module NetPosition {
  import opened Bytes
  import opened NetWire
  import opened NetDemux
  import opened NetSend
  import opened WireLayout

  /**
   The position that an answer to a write names, as it stands in the answer: with -0x107 the chip
   is full and goes on at the first, with -0x108 it has come to the first and wants the second.
   */
  function Named(r: Rpc): Option<seq<byte>> {
    if r.reqid / 0x1_0000 % 0x100 != 1 || |r.data| < 16 then None
    else if r.sta == 0x1_0000_0000 - 0x107 then Some(r.data[..8])
    else if r.sta == 0x1_0000_0000 - 0x108 then Some(r.data[8..16])
    else None
  }

  /** The last position named. */
  function LastNamed(rs: seq<Rpc>, first: seq<byte>): seq<byte> {
    if rs == [] then first
    else if Named(rs[|rs| - 1]).Some? then Named(rs[|rs| - 1]).value
    else LastNamed(rs[..|rs| - 1], first)
  }

  lemma OneAnswer(wrIndex: u64, r: Rpc)
    ensures PutLe64(Acked(wrIndex, r)) == if Named(r).Some? then Named(r).value else PutLe64(wrIndex)
  {
    hide PutLe64, GetLe64;
    if |r.data| >= 16 {
      PutGot64(r.data, 0);
      PutGot64(r.data, 8);
    }
  }

  lemma {:induction false} Followed(wrIndex: u64, rs: seq<Rpc>)
    ensures PutLe64(AllAcked(wrIndex, rs)) == LastNamed(rs, PutLe64(wrIndex))
  {
    hide PutLe64, Acked, Named;
    if rs != [] {
      Followed(wrIndex, rs[..|rs| - 1]);
      OneAnswer(AllAcked(wrIndex, rs[..|rs| - 1]), rs[|rs| - 1]);
    }
  }

  /**
   Whatever the chip has answered, the next write is at the position it named last, byte for byte
   as it named it, or else where the writes had got to.
   */
  lemma NextWriteIsThere(wrIndex: u64, rs: seq<Rpc>, slot: byte, port: byte, msgid: u32, packet: seq<byte>)
    requires |packet| < 0x1_0000_0000 - SO_POS_LEN - DGRAM_OVERHEAD
    ensures var r := WriteRpc(slot, port, AllAcked(wrIndex, rs), msgid, packet);
      |r.data| < 0x1_0000_0000 && EncodeRpc(r)[18..26] == LastNamed(rs, PutLe64(wrIndex))
  {
    hide PutLe64, LastNamed, AllAcked, EncodeDgram, ReqId, EncodeRpc, ArtXor;
    var r := WriteRpc(slot, port, AllAcked(wrIndex, rs), msgid, packet);
    Followed(wrIndex, rs);
    RpcLayout(r);
    assert EncodeRpc(r)[18..26] == EncodeRpc(r)[18..18 + |r.data|][..8];
  }
}
