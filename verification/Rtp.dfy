/** rx/rtp_h265.c: RTP packets for H.265 by RFC 7798. */
module Rtp {
  import opened Bytes
  import opened AnnexB

  const HDR_LEN: nat := 12
  const PT_H265: byte := 96
  const NAL_FU: byte := 49
  const SEND_BUF_MAX: nat := HDR_LEN + 3 + 8192
  const MAX_NALS: nat := 256

  // The packetizer

  /** One RTP payload, and whether the marker goes with it. */
  datatype Item = Item(payload: seq<byte>, marker: bool)

  /** Room for the body of a NAL behind the three bytes of a fragment's prefix. */
  function MaxFrag(maxPayload: nat): nat {
    if maxPayload > 3 then maxPayload - 3 else 1
  }

  function NalType(b: byte): byte { b / 2 % 64 }

  /** PayloadHdr with type FU, then the FU header. */
  function FuPrefix(nal: seq<byte>, start: bool, end: bool): (p: seq<byte>)
    requires |nal| >= 2
    ensures |p| == 3
  {
    [nal[0] / 128 * 128 + NAL_FU as int * 2 + nal[0] % 2, nal[1],
     (if start then 128 else 0) + (if end then 64 else 0) + NalType(nal[0]) as int]
  }

  function FragLen(nal: seq<byte>, off: nat, maxFrag: nat): nat
    requires |nal| >= 2 && off <= |nal| - 2
  {
    if |nal| - 2 - off > maxFrag then maxFrag else |nal| - 2 - off
  }

  /** The fragments of a NAL from offset off of its body on. */
  function Fragments(nal: seq<byte>, off: nat, maxFrag: nat): seq<seq<byte>>
    requires |nal| >= 2 && off <= |nal| - 2 && maxFrag > 0
    decreases |nal| - off
  {
    if off == |nal| - 2 then []
    else
      var n := FragLen(nal, off, maxFrag);
      [FuPrefix(nal, off == 0, off + n == |nal| - 2) + nal[2 + off..2 + off + n]]
      + Fragments(nal, off + n, maxFrag)
  }

  /** The payloads for one NAL: one that fits goes as it is, one without a whole header not at all. */
  function NalPayloads(nal: seq<byte>, maxPayload: nat): seq<seq<byte>> {
    if |nal| < 2 then []
    else if |nal| <= maxPayload then [nal]
    else Fragments(nal, 0, MaxFrag(maxPayload))
  }

  /** The marker, if wanted, goes on the last. */
  function Marked(payloads: seq<seq<byte>>, marker: bool): seq<Item> {
    seq(|payloads|, i requires 0 <= i < |payloads| => Item(payloads[i], marker && i == |payloads| - 1))
  }

  function Items(nals: seq<seq<byte>>, maxPayload: nat, auEnd: bool): seq<Item>
    decreases |nals|
  {
    if nals == [] then []
    else Marked(NalPayloads(nals[0], maxPayload), auEnd && |nals| == 1) + Items(nals[1..], maxPayload, auEnd)
  }

  function PacketHeader(seqNo: u16, ts: u32, ssrc: u32, marker: bool): (h: seq<byte>)
    ensures |h| == HDR_LEN
  {
    [0x80, (if marker then 0x80 else 0) + PT_H265 as int] + PutBe16(seqNo) + PutBe32(ts) + PutBe32(ssrc)
  }

  function Packet(seqNo: u16, ts: u32, ssrc: u32, item: Item): seq<byte> {
    PacketHeader(seqNo, ts, ssrc, item.marker) + item.payload
  }

  function NextSeq(seqNo: u16, n: nat): u16 { (seqNo as int + n) % 0x1_0000 }

  /** The packets for a list of items, numbered from seqNo on. */
  function Packets(seqNo: u16, ts: u32, ssrc: u32, items: seq<Item>): seq<seq<byte>> {
    seq(|items|, i requires 0 <= i < |items| => Packet(NextSeq(seqNo, i), ts, ssrc, items[i]))
  }

  /** As many NALs as the table of rtp_h265_send_nals() holds. */
  function InTable(nals: seq<seq<byte>>): seq<seq<byte>> {
    if |nals| <= MAX_NALS then nals else nals[..MAX_NALS]
  }

  function FirstNals(s: seq<byte>): seq<seq<byte>> { InTable(NalsFrom(s, 0)) }

  /** The connected UDP socket: all that was given to send(), and how many of these it took. */
  class Socket {
    var packets: seq<seq<byte>>
    var taken: nat
    var results: seq<bool>

    constructor (results: seq<bool>)
      ensures packets == [] && taken == 0 && this.results == results
    {
      packets, taken, this.results := [], 0, results;
    }

    method Send(packet: seq<byte>) returns (ok: bool)
      modifies this
      ensures packets == old(packets) + [packet]
      ensures taken == old(taken) + if ok then 1 else 0
      ensures ok == (old(results) == [] || old(results)[0])
      ensures results == if old(results) == [] then [] else old(results)[1..]
    {
      ok := results == [] || results[0];
      if results != [] {
        results := results[1..];
      }
      packets := packets + [packet];
      if ok {
        taken := taken + 1;
      }
    }
  }

  class Sender {
    const socket: Socket
    const ssrc: u32
    const maxPayload: nat
    var seqNo: u16

    ghost predicate Valid()
    {
      maxPayload <= 8192
    }

    /** The initial sequence number and the SSRC are random in the source. */
    constructor (socket: Socket, maxPayload: u16, ssrc: u32, seqNo: u16)
      ensures Valid() && this.socket == socket && this.seqNo == seqNo && this.ssrc == ssrc
      ensures this.maxPayload == if maxPayload > 8192 then 8192 else maxPayload
    {
      this.socket, this.ssrc, this.seqNo := socket, ssrc, seqNo;
      this.maxPayload := if maxPayload > 8192 then 8192 else maxPayload;
    }

    /** A packet that does not fit the buffer is not sent, and takes no number. */
    method SendPacket(a: seq<byte>, b: seq<byte>, ts: u32, marker: bool) returns (ok: bool)
      modifies this`seqNo, socket
      ensures if HDR_LEN + |a| + |b| <= SEND_BUF_MAX
              then socket.packets == old(socket.packets) + [Packet(old(seqNo), ts, ssrc, Item(a + b, marker))]
                   && seqNo == NextSeq(old(seqNo), 1)
              else socket.packets == old(socket.packets) && seqNo == old(seqNo) && !ok
      ensures socket.taken == old(socket.taken) + if ok then 1 else 0
    {
      if HDR_LEN + |a| + |b| > SEND_BUF_MAX {
        return false;
      }
      assert PacketHeader(seqNo, ts, ssrc, marker) + a + b == PacketHeader(seqNo, ts, ssrc, marker) + (a + b);
      ok := socket.Send(PacketHeader(seqNo, ts, ssrc, marker) + a + b);
      seqNo := (seqNo as int + 1) % 0x1_0000;
    }

    /** Since the socket had these packets and this count, the items have gone out, numbered from seq0 on. */
    ghost predicate Sent(packets: seq<seq<byte>>, seq0: u16, ts: u32, items: seq<Item>)
      reads this, socket
    {
      socket.packets == packets + Packets(seq0, ts, ssrc, items) && seqNo == NextSeq(seq0, |items|)
    }

    /** The loop over the body of a NAL that is too long for one packet. */
    method SendFragments(nal: seq<byte>, ts: u32, marker: bool) returns (count: nat)
      requires Valid() && |nal| >= 2
      modifies this`seqNo, socket
      ensures Sent(old(socket.packets), old(seqNo), ts, Marked(Fragments(nal, 0, MaxFrag(maxPayload)), marker))
      ensures socket.taken == old(socket.taken) + count
    {
      hide Packet, FuPrefix;
      var maxFrag := MaxFrag(maxPayload);
      ghost var all := Fragments(nal, 0, maxFrag);
      ghost var items := Marked(all, marker);
      ghost var packets, seq0 := socket.packets, seqNo;
      ghost var done := 0;
      var off := 0;
      count := 0;
      NothingSent(packets, seq0, ts, ssrc, items);
      while off < |nal| - 2
        invariant off <= |nal| - 2 && done <= |all| && all[done..] == Fragments(nal, off, maxFrag)
        invariant Sent(packets, seq0, ts, items[..done])
        invariant socket.taken == old(socket.taken) + count
      {
        var n := FragLen(nal, off, maxFrag);
        var end := off + n >= |nal| - 2;
        var prefix := FuPrefix(nal, off == 0, end);
        assert all[done..][0] == prefix + nal[2 + off..2 + off + n];
        assert all[done..][1..] == all[done + 1..] == Fragments(nal, off + n, maxFrag);
        assert end <==> done == |all| - 1;
        assert items[done] == Item(prefix + nal[2 + off..2 + off + n], marker && end);
        var ok := SendPacket(prefix, nal[2 + off..2 + off + n], ts, marker && end);
        OneMore(packets, seq0, ts, ssrc, items, done);
        if ok {
          count := count + 1;
        }
        off := off + n;
        done := done + 1;
      }
      assert items[..done] == items;
    }

    /** One turn of the loop over the NALs. */
    method SendNal(nal: seq<byte>, ts: u32, marker: bool) returns (count: nat)
      requires Valid()
      modifies this`seqNo, socket
      ensures Sent(old(socket.packets), old(seqNo), ts, Marked(NalPayloads(nal, maxPayload), marker))
      ensures socket.taken == old(socket.taken) + count
    {
      hide Packet, Fragments;
      count := 0;
      if |nal| < 2 {
        NothingSent(socket.packets, seqNo, ts, ssrc, Marked([], marker));
        assert Marked([], marker)[..0] == Marked([], marker);
        return;
      }
      if |nal| <= maxPayload {
        ghost var items := Marked([nal], marker);
        NothingSent(socket.packets, seqNo, ts, ssrc, items);
        ghost var packets, seq0 := socket.packets, seqNo;
        assert nal + [] == nal;
        var ok := SendPacket(nal, [], ts, marker);
        OneMore(packets, seq0, ts, ssrc, items, 0);
        assert items[..1] == items;
        count := if ok then 1 else 0;
        return;
      }
      count := SendFragments(nal, ts, marker);
    }

    /**
     rtp_h265_send_nals(): -1 if there is no NAL, otherwise how many packets the socket took.
     Of more than 256 NALs the first 256 are sent.
     */
    method SendNals(annexb: seq<byte>, ts: u32, auEnd: bool) returns (ret: int)
      requires Valid()
      modifies this`seqNo, socket
      ensures Sent(old(socket.packets), old(seqNo), ts, Items(FirstNals(annexb), maxPayload, auEnd))
      ensures ret == if FirstNals(annexb) == [] then -1 else socket.taken - old(socket.taken)
    {
      hide Packets, NalPayloads, Marked, NextSeq, NalsFrom;
      var nals := CollectNals(annexb);
      ghost var packets, seq0 := socket.packets, seqNo;
      if nals == [] {
        NothingSent(packets, seq0, ts, ssrc, []);
        return -1;
      }
      ret := 0;
      ghost var items: seq<Item> := [];
      NothingSent(packets, seq0, ts, ssrc, items);
      for n := 0 to |nals|
        invariant Sent(packets, seq0, ts, items)
        invariant items + Items(nals[n..], maxPayload, auEnd) == Items(nals, maxPayload, auEnd)
        invariant ret == socket.taken - old(socket.taken)
      {
        ghost var here := Marked(NalPayloads(nals[n], maxPayload), auEnd && n == |nals| - 1);
        assert nals[n..][1..] == nals[n + 1..];
        assert Items(nals[n..], maxPayload, auEnd) == here + Items(nals[n + 1..], maxPayload, auEnd);
        var count := SendNal(nals[n], ts, auEnd && n == |nals| - 1);
        MorePackets(packets, seq0, ts, ssrc, items, here);
        assert items + (here + Items(nals[n + 1..], maxPayload, auEnd))
            == items + here + Items(nals[n + 1..], maxPayload, auEnd);
        items := items + here;
        ret := ret + count;
      }
      assert Items(nals[|nals|..], maxPayload, auEnd) == [];
      assert items == Items(nals, maxPayload, auEnd);
    }
  }

  /** The first loop of rtp_h265_send_nals(), which fills a table of 256 NALs. */
  method CollectNals(annexb: seq<byte>) returns (nals: seq<seq<byte>>)
    ensures nals == FirstNals(annexb)
  {
    hide NextBounds;
    nals := [];
    var cursor: nat := 0;
    while |nals| < MAX_NALS
      invariant cursor <= |annexb| && |nals| <= MAX_NALS
      invariant NalsFrom(annexb, 0) == nals + NalsFrom(annexb, cursor)
      decreases MAX_NALS - |nals|
    {
      var found, nal, next := NextNal(annexb, cursor);
      if !found {
        break;
      }
      nals := nals + [nal];
      cursor := next;
    }
  }

  lemma NothingSent(packets: seq<seq<byte>>, seq0: u16, ts: u32, ssrc: u32, items: seq<Item>)
    ensures packets == packets + Packets(seq0, ts, ssrc, items[..0])
    ensures packets == packets + Packets(seq0, ts, ssrc, [])
    ensures seq0 == NextSeq(seq0, 0)
  {
  }

  lemma OneMore(packets: seq<seq<byte>>, seq0: u16, ts: u32, ssrc: u32, items: seq<Item>, i: nat)
    requires i < |items|
    ensures packets + Packets(seq0, ts, ssrc, items[..i]) + [Packet(NextSeq(seq0, i), ts, ssrc, items[i])]
            == packets + Packets(seq0, ts, ssrc, items[..i + 1])
    ensures NextSeq(NextSeq(seq0, i), 1) == NextSeq(seq0, i + 1)
  {
    hide Packet;
    assert Packets(seq0, ts, ssrc, items[..i + 1])
        == Packets(seq0, ts, ssrc, items[..i]) + [Packet(NextSeq(seq0, i), ts, ssrc, items[i])];
  }

  lemma NextSeqAdds(seqNo: u16, i: nat, j: nat)
    ensures NextSeq(NextSeq(seqNo, i), j) == NextSeq(seqNo, i + j)
  {
  }

  lemma PacketsAppend(seq0: u16, ts: u32, ssrc: u32, a: seq<Item>, b: seq<Item>)
    ensures Packets(seq0, ts, ssrc, a + b)
            == Packets(seq0, ts, ssrc, a) + Packets(NextSeq(seq0, |a|), ts, ssrc, b)
  {
    hide Packet, NextSeq;
    forall i | 0 <= i < |b|
      ensures NextSeq(NextSeq(seq0, |a|), i) == NextSeq(seq0, |a| + i)
    {
      NextSeqAdds(seq0, |a|, i);
    }
  }

  lemma MorePackets(packets: seq<seq<byte>>, seq0: u16, ts: u32, ssrc: u32, a: seq<Item>, b: seq<Item>)
    ensures packets + Packets(seq0, ts, ssrc, a) + Packets(NextSeq(seq0, |a|), ts, ssrc, b)
            == packets + Packets(seq0, ts, ssrc, a + b)
    ensures NextSeq(NextSeq(seq0, |a|), |b|) == NextSeq(seq0, |a + b|)
  {
    hide Packets, NextSeq;
    NextSeqAdds(seq0, |a|, |b|);
    PacketsAppend(seq0, ts, ssrc, a, b);
  }
}
