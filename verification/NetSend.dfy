/** The send path: net_build_frame() and net_pad() of kmod/artosyn_net.c, artosyn_write_all() of kmod/artosyn_sdio.c. */
module NetSend {
  import opened Bytes
  import opened NetWire
  import opened NetDemux

  const STAGE_SIZE: nat := 16384

  // Writing over the windows the chip opens

  /** What a wait for the chip comes to: how much it takes, and whether the transfer works. */
  datatype Wait = Wait(ready: bool, removed: bool, room: nat, busOk: bool)

  datatype Written = Count(n: nat) | Again | Failed

  /** A transfer the SDIO core takes as it is: one block at most, or whole blocks. */
  predicate Transferable(w: seq<byte>, blockSize: nat, transMax: nat)
    requires blockSize > 0
  {
    0 < |w| <= transMax && (|w| <= blockSize || |w| % blockSize == 0)
  }

  /** The chip takes something, and the transfer works. */
  predicate Good(w: Wait) { w.ready && !w.removed && w.busOk }

  /** No wait fails as far as they go. */
  predicate Fine(removed: bool, waits: seq<Wait>) {
    !removed && forall i :: 0 <= i < |waits| ==> Good(waits[i])
  }

  class Sdio {
    const blockSize: nat
    const transMax: nat
    const romMode: bool
    var removed: bool
    var writeOffset: nat
    var writeValidSize: nat
    var waits: seq<Wait>
    var writes: seq<seq<byte>>

    ghost predicate Valid()
      reads this
    {
      blockSize > 0 && forall i :: 0 <= i < |writes| ==> Transferable(writes[i], blockSize, transMax)
    }

    constructor (blockSize: nat, transMax: nat, romMode: bool, waits: seq<Wait>)
      requires blockSize > 0
      ensures Valid() && writes == [] && this.blockSize == blockSize && this.transMax == transMax
      ensures this.romMode == romMode && this.waits == waits && !removed && writeOffset == writeValidSize == 0
    {
      this.blockSize, this.transMax, this.romMode, this.waits := blockSize, transMax, romMode, waits;
      removed, writeOffset, writeValidSize, writes := false, 0, 0, [];
    }

    /** What the next wait comes to; without a mailbox, in the boot ROM, there is nothing to wait for. */
    function Coming(count: nat): Wait
      reads this
    {
      if removed then Wait(false, true, 0, false)
      else if romMode then Wait(true, false, count, waits == [] || waits[0].busOk)
      else if waits == [] then Wait(false, false, 0, false)
      else waits[0]
    }

    /** Waits until the chip takes something: false when it is gone or the wait is over. */
    method WaitForRoom(count: nat) returns (ok: bool, busOk: bool)
      modifies this`removed, this`writeOffset, this`writeValidSize, this`waits
      ensures ok ==> !removed && writeOffset <= writeValidSize
      ensures |waits| <= |old(waits)|
      ensures ok && !romMode ==> |waits| < |old(waits)|
      ensures var w := old(Coming(count));
              ok == (w.ready && !w.removed) && busOk == w.busOk && removed == w.removed
              && (ok ==> writeValidSize - writeOffset == w.room)
      ensures waits == if old(removed) || romMode || old(waits) == [] then old(waits) else old(waits)[1..]
    {
      if removed {
        return false, false;
      }
      if romMode {
        writeOffset, writeValidSize := 0, count;
        busOk := waits == [] || waits[0].busOk;
        return true, busOk;
      }
      if waits == [] {
        return false, false;
      }
      var w := waits[0];
      waits := waits[1..];
      removed := w.removed;
      writeOffset, writeValidSize := 0, w.room;
      return w.ready && !w.removed, w.busOk;
    }

    /**
     artosyn_write_chunk(): at most one transfer, of as much as the chip has room for and the core
     takes as it is; nothing, and an error, exactly if the wait or the transfer fails.
     */
    method WriteChunk(buf: seq<byte>) returns (ret: Written)
      requires Valid() && buf != []
      modifies this`removed, this`writeOffset, this`writeValidSize, this`waits, this`writes
      ensures Valid() && |waits| <= |old(waits)|
      ensures ret.Count? ==> 0 < ret.n <= |buf| && writes == old(writes) + [buf[..ret.n]]
      ensures !ret.Count? ==> writes == old(writes)
      ensures ret.Again? && transMax > 0 ==> |waits| < |old(waits)|
      ensures var w := old(Coming(|buf|));
              var most := Most(|buf|, w.room, transMax, blockSize);
              ret == if !w.ready || w.removed then Failed else if most == 0 then Again
                     else if w.busOk then Count(most) else Failed
      ensures removed == old(Coming(|buf|)).removed
      ensures waits == if old(removed) || romMode || old(waits) == [] then old(waits) else old(waits)[1..]
      ensures Fine(old(removed), old(waits)) ==>
                Fine(removed, waits) && (ret != Failed || (!romMode && waits == []))
    {
      hide Most, Fine;
      if Fine(removed, waits) {
        ComingGood(|buf|);
      }
      var ok, busOk := WaitForRoom(|buf|);
      if !ok {
        return Failed;
      }
      var count := |buf|;
      var room := writeValidSize - writeOffset;
      MostIs(count, room, transMax, blockSize);
      if count > room {
        count := room;
      }
      if count > transMax {
        count := transMax;
      }
      if count > blockSize {
        WholeBlocks(count, blockSize);
        count := count - count % blockSize;
      }
      if count == 0 {
        return Again;
      }
      if !busOk {
        return Failed;
      }
      writes := writes + [buf[..count]];
      writeOffset := writeValidSize;
      return Count(count);
    }

    /** With no wait failing, what comes next is good or the waits are over. */
    lemma ComingGood(count: nat)
      requires Fine(removed, waits)
      ensures Coming(count).removed == false
      ensures (!romMode && waits == []) || Good(Coming(count))
      ensures Fine(removed, if waits == [] then [] else waits[1..])
    {
    }

    /**
     artosyn_write_all(): everything, in order, or a front of it; everything, if no wait fails
     and there are enough of them.
     */
    method WriteAll(buf: seq<byte>) returns (ok: bool)
      requires Valid() && transMax > 0
      modifies this`removed, this`writeOffset, this`writeValidSize, this`waits, this`writes
      ensures Valid() && old(writes) <= writes && |waits| <= |old(waits)|
      ensures ok ==> Concat(writes) == Concat(old(writes)) + buf
      ensures !ok ==> exists k :: 0 <= k < |buf| && Concat(writes) == Concat(old(writes)) + buf[..k]
      ensures Fine(old(removed), old(waits)) ==> Fine(removed, waits) && (ok || (!romMode && waits == []))
    {
      hide Coming, Most, Fine;
      var off := 0;
      assert Concat(old(writes)) + buf[..0] == Concat(old(writes));
      while off < |buf|
        invariant off <= |buf| && Valid() && |waits| <= |old(waits)|
        invariant old(writes) <= writes && Concat(writes) == Concat(old(writes)) + buf[..off]
        invariant Fine(old(removed), old(waits)) ==> Fine(removed, waits)
        decreases |buf| - off, |waits|
      {
        ghost var before := writes;
        var ret := WriteChunk(buf[off..]);
        match ret
        case Again =>
        case Failed =>
          return false;
        case Count(n) =>
          ConcatSnoc(before, buf[off..][..n]);
          assert buf[..off + n] == buf[..off] + buf[off..][..n];
          assert Concat(old(writes)) + buf[..off] + buf[off..][..n] == Concat(old(writes)) + buf[..off + n];
          off := off + n;
      }
      assert buf[..off] == buf;
      ok := true;
    }
  }

  /** The most of len bytes that fits the room and is a transfer the core takes as it is. */
  function Most(len: nat, room: nat, transMax: nat, blockSize: nat): (n: nat)
    requires blockSize > 0
  {
    var fits := Lesser(Lesser(len, room), transMax);
    if fits > blockSize then fits - fits % blockSize else fits
  }

  function Lesser(a: nat, b: nat): nat { if a < b then a else b }

  lemma MostIs(len: nat, room: nat, transMax: nat, blockSize: nat)
    requires blockSize > 0
    ensures var fits := if len > room then room else len;
      var fits' := if fits > transMax then transMax else fits;
      Most(len, room, transMax, blockSize) == if fits' > blockSize then fits' - fits' % blockSize else fits'
  {
  }

  /** It is as much as can go in one transfer: the longest front that fits and that the core takes. */
  lemma MostIsMost(buf: seq<byte>, room: nat, transMax: nat, blockSize: nat, n: nat)
    requires blockSize > 0 && n <= |buf|
    ensures var most := Most(|buf|, room, transMax, blockSize);
      && most <= |buf| && most <= room
      && (most > 0 ==> Transferable(buf[..most], blockSize, transMax))
      && (n <= room && Transferable(buf[..n], blockSize, transMax) ==> n <= most)
  {
    var most := Most(|buf|, room, transMax, blockSize);
    var fits := Lesser(Lesser(|buf|, room), transMax);
    if fits > blockSize {
      WholeBlocks(fits, blockSize);
      if n % blockSize == 0 && n <= fits {
        NoMultipleBetween(fits, n, blockSize);
      }
    }
  }

  lemma NoMultipleBetween(x: nat, n: nat, b: nat)
    requires b > 0 && n <= x && n % b == 0
    ensures n <= x - x % b
  {
    Multiples(n / b, x / b, b);
  }

  lemma Multiples(p: nat, q: nat, b: nat)
    ensures if p <= q then p * b <= q * b else q * b + b <= p * b
  {
    if p <= q {
      assert (q - p) * b >= 0;
    } else {
      assert (p - q - 1) * b >= 0;
    }
  }

  lemma WholeBlocks(count: nat, blockSize: nat)
    requires 0 < blockSize < count
    ensures 0 < count - count % blockSize && (count - count % blockSize) % blockSize == 0
  {
    var q := count / blockSize;
    assert count - count % blockSize == q * blockSize;
    MulMod(q, blockSize);
  }

  lemma MulMod(q: nat, b: nat)
    requires b > 0
    ensures (q * b) % b == 0
  {
    var k, r := (q * b) / b, (q * b) % b;
    assert (q - k) * b == r;
    if q - k >= 1 {
    } else if q - k <= -1 {
    }
  }

  // Building a frame

  /** The so_write frame for one packet. */
  function WriteRpc(slot: byte, port: byte, wrIndex: u64, msgid: u32, packet: seq<byte>): Rpc
    requires |packet| < 0x1_0000_0000
  {
    Rpc(ReqId(SO_WRITE, slot, port), msgid, 0, PutLe64(wrIndex) + EncodeDgram(packet))
  }

  function NextIndex(wrIndex: u64, packet: seq<byte>): u64 {
    (wrIndex as int + DGRAM_OVERHEAD + |packet|) % 0x1_0000_0000_0000_0000
  }

  function NextMsgid(msgid: u32): u32 { (msgid as int + 1) % 0x1_0000_0000 }

  function FrameLen(packet: seq<byte>): nat {
    RPC_OVERHEAD + SO_POS_LEN + DGRAM_OVERHEAD + |packet|
  }

  function Zeros(n: nat): seq<byte> { seq(n, _ => 0) }

  /** ALIGN() up to whole blocks. */
  function AlignUp(len: nat, blockSize: nat): (r: nat)
    requires blockSize > 0
    ensures len <= r < len + blockSize && r % blockSize == 0
  {
    MulMod((len + blockSize - 1) / blockSize, blockSize);
    (len + blockSize - 1) / blockSize * blockSize
  }

  /** What is missing to whole blocks. */
  function Short(len: nat, blockSize: nat): nat
    requires blockSize > 0
  {
    if len % blockSize == 0 then 0 else blockSize - len % blockSize
  }

  /** The padding behind a frame: none up to one block, else up to whole blocks, if there is room for that. */
  predicate PadIs(len: nat, pad: nat, blockSize: nat)
    requires blockSize > 0
  {
    pad == if len > blockSize && len + Short(len, blockSize) <= STAGE_SIZE then Short(len, blockSize) else 0
  }

  lemma ShortIsAligned(len: nat, blockSize: nat)
    requires blockSize > 0
    ensures AlignUp(len, blockSize) == len + Short(len, blockSize)
  {
    var q, r := len / blockSize, len % blockSize;
    assert len == q * blockSize + r;
    var x := len + blockSize - 1;
    if r == 0 {
      DivIs(x, q, blockSize - 1, blockSize);
    } else {
      assert x == (q + 1) * blockSize + (r - 1);
      DivIs(x, q + 1, r - 1, blockSize);
      assert (q + 1) * blockSize == q * blockSize + blockSize;
    }
  }

  lemma DivIs(x: nat, q: nat, r: nat, b: nat)
    requires b > 0 && r < b && x == q * b + r
    ensures x / b == q
  {
    Multiples(x / b, q, b);
    Multiples(q, x / b, b);
  }

  method PutBytes(p: array<byte>, at: nat, s: seq<byte>)
    requires at + |s| <= p.Length
    modifies p
    ensures p[..at + |s|] == old(p[..at]) + s
    ensures forall i :: at + |s| <= i < p.Length ==> p[i] == old(p[i])
  {
    ghost var head := p[..at];
    forall i | 0 <= i < |s| {
      p[at + i] := s[i];
    }
    assert p[..at + |s|] == head + s;
  }

  /** rpc_put_hdr(): the header and, behind the room for the data, the tail. */
  method PutHdr(p: array<byte>, datalen: u32, reqid: u32, msgid: u32)
    requires RPC_OVERHEAD + datalen <= p.Length
    modifies p
    ensures p[..RPC_HDR_LEN] == HeadBytes(datalen, reqid, msgid, 0) + [ArtXor(HeadBytes(datalen, reqid, msgid, 0))]
    ensures p[RPC_HDR_LEN + datalen] == RPC_TAIL
  {
    hide ArtXor, PutLe32, PutBe32;
    p[0] := RPC_HEAD;
    PutBytes(p, 1, PutLe32(datalen));
    PutBytes(p, 5, PutBe32(reqid));
    PutBytes(p, 9, PutBe32(msgid));
    PutBytes(p, 13, PutBe32(0));
    ghost var head := HeadBytes(datalen, reqid, msgid, 0);
    assert p[..RPC_XOR_LEN] == head;
    var xor := ComputeXor(p[..RPC_XOR_LEN]);
    p[RPC_XOR_LEN] := xor;
    assert p[..RPC_HDR_LEN] == head + [ArtXor(head)];
    p[RPC_HDR_LEN + datalen] := RPC_TAIL;
    assert p[..RPC_HDR_LEN] == head + [ArtXor(head)];
  }

  class Sender {
    const net: Net
    const dev: Sdio
    const stage: array<byte>
    var txDropped: nat
    var txErrors: nat
    var txPackets: nat

    ghost predicate Valid()
      reads this, dev
    {
      dev.Valid() && dev.transMax > 0 && stage.Length == STAGE_SIZE
    }

    constructor (net: Net, dev: Sdio)
      requires dev.Valid() && dev.transMax > 0
      ensures Valid() && this.net == net && this.dev == dev && fresh(stage)
      ensures txDropped == txErrors == txPackets == 0
    {
      this.net, this.dev := net, dev;
      stage := new byte[STAGE_SIZE](_ => 0);
      txDropped, txErrors, txPackets := 0, 0, 0;
    }

    /** net_build_frame(), into the stage buffer. */
    method BuildFrame(packet: seq<byte>)
      requires stage.Length == STAGE_SIZE && FrameLen(packet) <= STAGE_SIZE
      modifies net`wrIndex, net`msgid, stage
      ensures stage[..FrameLen(packet)]
              == EncodeRpc(WriteRpc(net.slot, net.port, old(net.wrIndex), old(net.msgid), packet))
      ensures net.wrIndex == NextIndex(old(net.wrIndex), packet) && net.msgid == NextMsgid(old(net.msgid))
    {
      hide ArtXor, PutLe64, PutLe32, ReqId, EncodeDgram, HeadBytes;
      var pos, msgid := net.wrIndex, net.msgid;
      var len: nat := |packet|;
      net.wrIndex := NextIndex(pos, packet);
      net.msgid := NextMsgid(msgid);
      var dlen := SO_POS_LEN + DGRAM_OVERHEAD + len;
      PutHdr(stage, dlen, ReqId(SO_WRITE, net.slot, net.port), msgid);
      PutBytes(stage, RPC_HDR_LEN, PutLe64(pos));
      ghost var head := stage[..RPC_HDR_LEN + SO_POS_LEN];
      BuildDgram(RPC_HDR_LEN + SO_POS_LEN, packet);
      assert stage[RPC_HDR_LEN + dlen] == RPC_TAIL;
      ghost var r := WriteRpc(net.slot, net.port, pos, msgid, packet);
      assert stage[..RPC_HDR_LEN + dlen] == head + EncodeDgram(packet);
      Joined(r, head, pos, packet);
      assert stage[..FrameLen(packet)] == stage[..RPC_HDR_LEN + dlen] + [RPC_TAIL];
    }

    /** The datagram in it. */
    method BuildDgram(at: nat, packet: seq<byte>)
      requires at + DGRAM_OVERHEAD + |packet| <= stage.Length == STAGE_SIZE
      modifies stage
      ensures stage[..at + DGRAM_OVERHEAD + |packet|] == old(stage[..at]) + EncodeDgram(packet)
      ensures forall i :: at + DGRAM_OVERHEAD + |packet| <= i < stage.Length ==> stage[i] == old(stage[i])
    {
      hide ArtXor, PutLe32;
      ghost var before := stage[..at];
      PutBytes(stage, at, DgramHead(|packet|));
      ghost var head := DgramHead(|packet|);
      assert stage[at..at + DGRAM_XOR_LEN] == head;
      var xor := ComputeXor(stage[at..at + DGRAM_XOR_LEN]);
      PutBytes(stage, at + DGRAM_XOR_LEN, [xor]);
      PutBytes(stage, at + DGRAM_HDR_LEN, packet);
      PutBytes(stage, at + DGRAM_HDR_LEN + |packet|, [DGRAM_TAIL]);
      assert before + head + [xor] + packet + [DGRAM_TAIL] == before + (head + [xor] + packet + [DGRAM_TAIL]);
    }

    /** net_pad(): zeros up to whole blocks, if there is room. */
    method Pad(len: nat) returns (padded: nat)
      requires Valid() && len <= STAGE_SIZE
      modifies stage
      ensures len <= padded <= STAGE_SIZE && stage[..padded] == old(stage[..len]) + Zeros(padded - len)
      ensures PadIs(len, padded - len, dev.blockSize)
    {
      hide AlignUp, Short;
      ghost var head := stage[..len];
      padded := len;
      if len > dev.blockSize {
        padded := AlignUp(len, dev.blockSize);
      }
      ShortIsAligned(len, dev.blockSize);
      if padded > STAGE_SIZE {
        assert stage[..len] == head + Zeros(0);
        return len;
      }
      forall i | len <= i < padded {
        stage[i] := 0;
      }
      assert stage[..padded] == head + Zeros(padded - len);
    }

    /**
     net_tx_work() over what the queue holds. sent are the packets framed, pads the padding
     behind each; with no write failed, the chip has got exactly these frames.
     */
    method Work(queue: seq<seq<byte>>) returns (ghost sent: seq<seq<byte>>, ghost pads: seq<nat>)
      requires Valid() && dev.writes == []
      modifies this`txDropped, this`txErrors, this`txPackets, stage, net`wrIndex, net`msgid,
               dev`removed, dev`writeOffset, dev`writeValidSize, dev`waits, dev`writes
      ensures Valid() && |sent| == |pads| && sent == Fitting(queue) && AllFit(sent)
      ensures txDropped + |sent| == old(txDropped) + |queue|
      ensures txErrors + txPackets == old(txErrors + txPackets) + |sent|
      ensures net.wrIndex == IndexAfter(old(net.wrIndex), sent)
      ensures forall i :: 0 <= i < |sent| ==> PadIs(FrameLen(sent[i]), pads[i], dev.blockSize)
      ensures Fine(old(dev.removed), old(dev.waits)) && (dev.romMode || dev.waits != []) ==> txErrors == old(txErrors)
      ensures txErrors == old(txErrors) ==>
                Concat(dev.writes) == Wire(FramesFor(net.slot, net.port, old(net.wrIndex), old(net.msgid), sent), pads)
    {
      hide EncodeRpc, Fitting, WriteRpc, NextIndex, NextMsgid, Wire, FramesFor, AlignUp, MsgidAfter, IndexAfter;
      hide Concat, Zeros, FrameLen, PadIs, Fine;
      sent, pads := [], [];
      ghost var slot, port, wr0, id0 := net.slot, net.port, net.wrIndex, net.msgid;
      NothingSent(slot, port, wr0, id0);
      for i := 0 to |queue|
        invariant Valid() && |sent| == |pads| && sent == Fitting(queue[..i]) && AllFit(sent)
        invariant txDropped + |sent| == old(txDropped) + i
        invariant old(txErrors) <= txErrors && txErrors + txPackets == old(txErrors + txPackets) + |sent|
        invariant forall j :: 0 <= j < |sent| ==> PadIs(FrameLen(sent[j]), pads[j], dev.blockSize)
        invariant Fine(old(dev.removed), old(dev.waits)) ==>
                    Fine(dev.removed, dev.waits) && (txErrors == old(txErrors) || (!dev.romMode && dev.waits == []))
        invariant net.wrIndex == IndexAfter(wr0, sent) && net.msgid == MsgidAfter(id0, |sent|)
        invariant txErrors == old(txErrors) ==>
                    Concat(dev.writes) == Wire(FramesFor(slot, port, wr0, id0, sent), pads)
      {
        FittingSnoc(queue, i);
        var packet := queue[i];
        if FrameLen(packet) > STAGE_SIZE {
          txDropped := txDropped + 1;
          continue;
        }
        BuildFrame(packet);
        var len := Pad(FrameLen(packet));
        ghost var before := Concat(dev.writes);
        var ok := dev.WriteAll(stage[..len]);
        OneSent(slot, port, wr0, id0, sent, pads, packet, len - FrameLen(packet), before);
        sent, pads := sent + [packet], pads + [len - FrameLen(packet)];
        if ok {
          txPackets := txPackets + 1;
        } else {
          txErrors := txErrors + 1;
        }
      }
      assert queue[..|queue|] == queue;
    }
  }

  /** Packets whose frame fits the stage buffer. */
  function Fitting(queue: seq<seq<byte>>): seq<seq<byte>> {
    if queue == [] then []
    else
      Fitting(queue[..|queue| - 1])
      + if FrameLen(queue[|queue| - 1]) <= STAGE_SIZE then [queue[|queue| - 1]] else []
  }

  lemma FittingSnoc(queue: seq<seq<byte>>, i: nat)
    requires i < |queue|
    ensures Fitting(queue[..i + 1]) == Fitting(queue[..i]) + if FrameLen(queue[i]) <= STAGE_SIZE then [queue[i]] else []
  {
    assert queue[..i + 1][..i] == queue[..i];
  }

  /** The stream position behind these packets. */
  function IndexAfter(wrIndex: u64, packets: seq<seq<byte>>): u64 {
    if packets == [] then wrIndex
    else NextIndex(IndexAfter(wrIndex, packets[..|packets| - 1]), packets[|packets| - 1])
  }

  function MsgidAfter(msgid: u32, n: nat): u32 { (msgid as int + n) % 0x1_0000_0000 }

  predicate AllFit(packets: seq<seq<byte>>) {
    forall i :: 0 <= i < |packets| ==> FrameLen(packets[i]) <= STAGE_SIZE
  }

  function FramesFor(slot: byte, port: byte, wrIndex: u64, msgid: u32, packets: seq<seq<byte>>): (rs: seq<Rpc>)
    requires AllFit(packets)
    ensures |rs| == |packets|
  {
    if packets == [] then []
    else
      var n := |packets| - 1;
      FramesFor(slot, port, wrIndex, msgid, packets[..n])
      + [WriteRpc(slot, port, IndexAfter(wrIndex, packets[..n]), MsgidAfter(msgid, n), packets[n])]
  }

  predicate AllEncodable(frames: seq<Rpc>) {
    forall i :: 0 <= i < |frames| ==> |frames[i].data| < 0x1_0000_0000
  }

  /** Frames one behind the other, each with its padding. */
  function Wire(frames: seq<Rpc>, pads: seq<nat>): seq<byte>
    requires |frames| == |pads|
  {
    if frames == [] then []
    else
      var n := |frames| - 1;
      Wire(frames[..n], pads[..n])
      + (if |frames[n].data| < 0x1_0000_0000 then EncodeRpc(frames[n]) else []) + Zeros(pads[n])
  }

  lemma NothingSent(slot: byte, port: byte, wrIndex: u64, msgid: u32)
    ensures Wire(FramesFor(slot, port, wrIndex, msgid, []), []) == Concat([])
    ensures Fitting([]) == [] && MsgidAfter(msgid, 0) == msgid && IndexAfter(wrIndex, []) == wrIndex
  {
  }

  lemma FramesSnoc(slot: byte, port: byte, wrIndex: u64, msgid: u32, sent: seq<seq<byte>>, packet: seq<byte>)
    requires AllFit(sent) && FrameLen(packet) <= STAGE_SIZE
    ensures AllFit(sent + [packet])
    ensures FramesFor(slot, port, wrIndex, msgid, sent + [packet])
            == FramesFor(slot, port, wrIndex, msgid, sent)
               + [WriteRpc(slot, port, IndexAfter(wrIndex, sent), MsgidAfter(msgid, |sent|), packet)]
    ensures IndexAfter(wrIndex, sent + [packet]) == NextIndex(IndexAfter(wrIndex, sent), packet)
  {
    hide WriteRpc, NextIndex, MsgidAfter;
    assert (sent + [packet])[..|sent|] == sent;
  }

  lemma WireSnoc(frames: seq<Rpc>, pads: seq<nat>, r: Rpc, pad: nat)
    requires |frames| == |pads| && |r.data| < 0x1_0000_0000
    ensures Wire(frames + [r], pads + [pad]) == Wire(frames, pads) + (EncodeRpc(r) + Zeros(pad))
  {
    hide EncodeRpc, Zeros;
    assert (frames + [r])[..|frames|] == frames && (pads + [pad])[..|pads|] == pads;
    Regroup(Wire(frames, pads), EncodeRpc(r), Zeros(pad));
  }

  lemma OneSent(slot: byte, port: byte, wrIndex: u64, msgid: u32, sent: seq<seq<byte>>, pads: seq<nat>,
                packet: seq<byte>, pad: nat, before: seq<byte>)
    requires AllFit(sent) && FrameLen(packet) <= STAGE_SIZE && |sent| == |pads|
    ensures AllFit(sent + [packet])
    ensures var r := WriteRpc(slot, port, IndexAfter(wrIndex, sent), MsgidAfter(msgid, |sent|), packet);
      && |r.data| < 0x1_0000_0000
      && (before == Wire(FramesFor(slot, port, wrIndex, msgid, sent), pads) ==>
            before + (EncodeRpc(r) + Zeros(pad))
            == Wire(FramesFor(slot, port, wrIndex, msgid, sent + [packet]), pads + [pad]))
    ensures IndexAfter(wrIndex, sent + [packet]) == NextIndex(IndexAfter(wrIndex, sent), packet)
    ensures MsgidAfter(msgid, |sent| + 1) == NextMsgid(MsgidAfter(msgid, |sent|))
  {
    hide FramesFor, Wire, EncodeRpc, Zeros, IndexAfter, NextIndex, EncodeDgram, ReqId, PutLe64;
    var r := WriteRpc(slot, port, IndexAfter(wrIndex, sent), MsgidAfter(msgid, |sent|), packet);
    FramesSnoc(slot, port, wrIndex, msgid, sent, packet);
    WireSnoc(FramesFor(slot, port, wrIndex, msgid, sent), pads, r, pad);
  }

  lemma Joined(r: Rpc, head: seq<byte>, pos: u64, packet: seq<byte>)
    requires |r.data| < 0x1_0000_0000 && |packet| < 0x1_0000_0000
    requires r.data == PutLe64(pos) + EncodeDgram(packet)
    requires head == RpcHead(r) + [ArtXor(RpcHead(r))] + PutLe64(pos)
    ensures EncodeRpc(r) == head + EncodeDgram(packet) + [RPC_TAIL]
  {
    hide ArtXor, PutLe64, EncodeDgram, RpcHead;
    var h := RpcHead(r) + [ArtXor(RpcHead(r))];
    assert h + (PutLe64(pos) + EncodeDgram(packet)) == h + PutLe64(pos) + EncodeDgram(packet);
  }
}
