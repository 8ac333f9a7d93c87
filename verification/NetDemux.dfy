/** artosyn_net_rx() of kmod/artosyn_net.c: the network device's frames out of what the chip sends. */
module NetDemux {
  import opened Bytes
  import opened NetWire
  import opened NetStream

  const BB_REQ_SOCKET: nat := 4
  const SO_OPEN: byte := 0
  const SO_WRITE: byte := 1
  const SO_READ: byte := 2

  const SO_STA_SEND_OK: int := -0x106
  const SO_STA_PENDING: int := -0x107
  const SO_STA_WANTED: int := -0x108

  /** so_reqid() */
  function ReqId(op: byte, slot: byte, port: byte): u32 {
    BB_REQ_SOCKET * 0x100_0000 + op as int * 0x1_0000 + slot as int * 0x100 + port as int
  }

  function OpOf(r: Rpc): byte { r.reqid / 0x1_0000 % 0x100 }

  predicate IsMine(r: Rpc, slot: byte, port: byte) {
    r.reqid / 0x100_0000 == BB_REQ_SOCKET && r.reqid / 0x100 % 0x100 == slot && r.reqid % 0x100 == port
  }

  lemma ReqIdParts(op: byte, slot: byte, port: byte, r: Rpc)
    requires r.reqid == ReqId(op, slot, port)
    ensures OpOf(r) == op && IsMine(r, slot, port)
  {
    var high := BB_REQ_SOCKET * 0x100 + op as int;
    assert r.reqid as int == 0x1_0000 * high + 0x100 * slot as int + port as int;
    assert r.reqid as int / 0x1_0000 == high;
    assert r.reqid as int / 0x100 == 0x100 * high + slot as int;
  }

  // What the scan of a transfer finds

  /** Padding between frames; too close to the end for a frame, nothing is looked at any more. */
  predicate IsPadding(s: seq<byte>) {
    |s| >= RPC_OVERHEAD && s[0] == 0
  }

  function FrameAt(s: seq<byte>): (n: Option<nat>)
    ensures n.Some? ==> RPC_OVERHEAD <= n.value <= |s|
  {
    RpcAt(s, 0)
  }

  /** All frames of the transfer, up to where the scan stops. */
  function Scanned(s: seq<byte>): seq<seq<byte>>
    decreases |s|
  {
    if IsPadding(s) then Scanned(s[1..])
    else if FrameAt(s) == None then []
    else [s[..FrameAt(s).value]] + Scanned(s[FrameAt(s).value..])
  }

  /** Why the scan of a transfer stops: at its end or at leftovers, at something broken, or in a frame cut short. */
  datatype Stop = Quiet | Unparsed | Truncated

  /** What the scan makes of a place where neither padding nor a frame is. */
  function StopHere(s: seq<byte>, first: bool): Stop {
    if |s| < RPC_OVERHEAD then Quiet
    else if s[0] != RPC_HEAD then if first then Unparsed else Quiet
    else if GetLe32(s, 1) > |s| - RPC_OVERHEAD then Truncated
    else Unparsed
  }

  function StopOf(s: seq<byte>, first: bool): Stop
    decreases |s|
  {
    if IsPadding(s) then StopOf(s[1..], false)
    else if FrameAt(s).Some? then StopOf(s[FrameAt(s).value..], false)
    else StopHere(s, first)
  }

  predicate Mine(frame: seq<byte>, slot: byte, port: byte) {
    |frame| >= RPC_OVERHEAD && IsMine(DecodeRpc(frame), slot, port)
  }

  function Select(frames: seq<seq<byte>>, slot: byte, port: byte, mine: bool): seq<seq<byte>> {
    if frames == [] then []
    else (if Mine(frames[0], slot, port) == mine then [frames[0]] else []) + Select(frames[1..], slot, port, mine)
  }

  /** The transfer without the frames for the device. */
  function Kept(s: seq<byte>, slot: byte, port: byte): seq<byte>
    decreases |s|
  {
    if IsPadding(s) then [s[0]] + Kept(s[1..], slot, port)
    else if FrameAt(s) == None then s
    else
      var n := FrameAt(s).value;
      (if Mine(s[..n], slot, port) then [] else s[..n]) + Kept(s[n..], slot, port)
  }

  function ForDevice(s: seq<byte>, slot: byte, port: byte): seq<seq<byte>> {
    Select(Scanned(s), slot, port, true)
  }

  /** Frames set into the gaps between them. */
  function Weave(gaps: seq<seq<byte>>, frames: seq<seq<byte>>): seq<byte>
    requires |gaps| == |frames| + 1
  {
    if frames == [] then gaps[0] else gaps[0] + frames[0] + Weave(gaps[1..], frames[1..])
  }

  lemma WeaveGrowsFront(x: seq<byte>, gaps: seq<seq<byte>>, frames: seq<seq<byte>>)
    requires |gaps| == |frames| + 1
    ensures var gaps' := [x + gaps[0]] + gaps[1..];
      Weave(gaps', frames) == x + Weave(gaps, frames) && Concat(gaps') == x + Concat(gaps)
  {
    hide *;
    var gaps' := [x + gaps[0]] + gaps[1..];
    assert gaps'[0] == x + gaps[0] && gaps'[1..] == gaps[1..];
    WeaveFront(gaps, frames);
    WeaveFront(gaps', frames);
    if frames != [] {
      Regroup(x, gaps[0], frames[0] + Weave(gaps[1..], frames[1..]));
      Regroup(gaps[0], frames[0], Weave(gaps[1..], frames[1..]));
      Regroup(gaps'[0], frames[0], Weave(gaps[1..], frames[1..]));
    }
    Regroup(x, gaps[0], Concat(gaps[1..]));
  }

  lemma WeaveFront(gaps: seq<seq<byte>>, frames: seq<seq<byte>>)
    requires |gaps| == |frames| + 1
    ensures Concat(gaps) == gaps[0] + Concat(gaps[1..])
    ensures Weave(gaps, frames)
            == if frames == [] then gaps[0] else gaps[0] + frames[0] + Weave(gaps[1..], frames[1..])
  {
  }

  lemma WeaveFrame(frame: seq<byte>, gaps: seq<seq<byte>>, frames: seq<seq<byte>>)
    requires |gaps| == |frames| + 1
    ensures Weave([[]] + gaps, [frame] + frames) == frame + Weave(gaps, frames)
    ensures Concat([[]] + gaps) == Concat(gaps)
  {
    hide *;
    assert ([[]] + gaps)[1..] == gaps && ([frame] + frames)[1..] == frames;
    WeaveFront([[]] + gaps, [frame] + frames);
    assert [] + Concat(gaps) == Concat(gaps) && [] + frame == frame;
  }

  lemma DeviceStep(s: seq<byte>, slot: byte, port: byte)
    ensures IsPadding(s) ==> ForDevice(s, slot, port) == ForDevice(s[1..], slot, port)
    ensures !IsPadding(s) && FrameAt(s) == None ==> ForDevice(s, slot, port) == []
    ensures !IsPadding(s) && FrameAt(s).Some? ==>
              var n := FrameAt(s).value;
              ForDevice(s, slot, port)
              == (if Mine(s[..n], slot, port) then [s[..n]] else []) + ForDevice(s[n..], slot, port)
  {
    hide Mine, RpcAt;
  }

  /**
   The transfer is its frames for the device and what lies between them, and what is passed
   on is what lies between them, byte for byte.
   */
  lemma {:induction false} Partition(s: seq<byte>, slot: byte, port: byte) returns (gaps: seq<seq<byte>>)
    ensures |gaps| == |ForDevice(s, slot, port)| + 1
    ensures Weave(gaps, ForDevice(s, slot, port)) == s
    ensures Concat(gaps) == Kept(s, slot, port)
    decreases |s|
  {
    hide Mine, RpcAt, Weave, Concat, ForDevice;
    DeviceStep(s, slot, port);
    if IsPadding(s) {
      var tail := Partition(s[1..], slot, port);
      WeaveGrowsFront([s[0]], tail, ForDevice(s, slot, port));
      gaps := [[s[0]] + tail[0]] + tail[1..];
      assert s == [s[0]] + s[1..];
    } else if FrameAt(s) == None {
      gaps := [s];
      WeaveFront(gaps, []);
      NoGaps();
      assert gaps[1..] == [] && s + [] == s;
    } else {
      var n := FrameAt(s).value;
      var tail := Partition(s[n..], slot, port);
      assert s == s[..n] + s[n..];
      if Mine(s[..n], slot, port) {
        WeaveFrame(s[..n], tail, ForDevice(s[n..], slot, port));
        gaps := [[]] + tail;
        assert [] + Kept(s[n..], slot, port) == Kept(s[n..], slot, port);
      } else {
        WeaveGrowsFront(s[..n], tail, ForDevice(s[n..], slot, port));
        gaps := [s[..n] + tail[0]] + tail[1..];
        assert [] + ForDevice(s[n..], slot, port) == ForDevice(s[n..], slot, port);
      }
    }
  }

  lemma NoGaps()
    ensures Concat([]) == []
  {
  }

  lemma FrameAtFront(s: seq<byte>, n: nat, t: seq<byte>)
    requires FrameAt(s) == Some(n)
    ensures FrameAt(s[..n] + t) == Some(n) && s[0] != 0
  {
    hide ArtXor;
    var u := s[..n] + t;
    assert u[..RPC_XOR_LEN] == s[..RPC_XOR_LEN];
    assert s[0..RPC_XOR_LEN] == s[..RPC_XOR_LEN] && u[0..RPC_XOR_LEN] == u[..RPC_XOR_LEN];
    assert GetLe32(u, 1) == GetLe32(s, 1);
  }

  /** Who scans what was passed on, by the same rules, finds all the other frames. */
  lemma {:induction false} OthersAreFound(s: seq<byte>, slot: byte, port: byte)
    ensures Scanned(Kept(s, slot, port)) == Select(Scanned(s), slot, port, false)
    ensures Select(Scanned(s), slot, port, false) != [] ==> |Kept(s, slot, port)| >= RPC_OVERHEAD
    decreases |s|
  {
    hide Mine, RpcAt;
    var kept := Kept(s, slot, port);
    if IsPadding(s) {
      OthersAreFound(s[1..], slot, port);
      assert kept[1..] == Kept(s[1..], slot, port);
      if |kept| < RPC_OVERHEAD {
        ShortHasNoFrame(kept);
      }
    } else if FrameAt(s) != None {
      var n := FrameAt(s).value;
      OthersAreFound(s[n..], slot, port);
      if !Mine(s[..n], slot, port) {
        FrameAtFront(s, n, Kept(s[n..], slot, port));
        assert kept[..n] == s[..n] && kept[n..] == Kept(s[n..], slot, port);
        assert kept[0] == s[0];
      } else {
        assert [] + Kept(s[n..], slot, port) == Kept(s[n..], slot, port);
      }
    }
  }

  lemma ShortHasNoFrame(s: seq<byte>)
    requires |s| < RPC_OVERHEAD
    ensures Scanned(s) == []
  {
  }

  // Handling the frames

  function Signed(x: u32): int { if x >= 0x8000_0000 then x as int - 0x1_0000_0000 else x as int }

  /** The stream position after an answer to a write: where the chip says it goes on. */
  function Resynced(wrIndex: u64, sta: int, data: seq<byte>): u64 {
    if |data| < 16 then wrIndex
    else if sta == SO_STA_PENDING then GetLe64(data, 0)
    else if sta == SO_STA_WANTED then GetLe64(data, 8)
    else wrIndex
  }

  function Acked(wrIndex: u64, r: Rpc): u64 {
    if OpOf(r) == SO_WRITE then Resynced(wrIndex, Signed(r.sta), r.data) else wrIndex
  }

  function AllAcked(wrIndex: u64, rs: seq<Rpc>): u64 {
    if rs == [] then wrIndex else Acked(AllAcked(wrIndex, rs[..|rs| - 1]), rs[|rs| - 1])
  }

  /** The peer's bytes in a list of frames. */
  function ReadBytes(rs: seq<Rpc>): seq<byte> {
    if rs == [] then []
    else ReadBytes(rs[..|rs| - 1]) + if OpOf(rs[|rs| - 1]) == SO_READ then rs[|rs| - 1].data else []
  }

  /** What no read may exceed for the reassembly buffer never to overflow. */
  const SAFE_READ: nat := RXBUF_SIZE - DGRAM_LIMIT + 1

  predicate AllSafe(rs: seq<Rpc>) {
    forall i :: 0 <= i < |rs| && OpOf(rs[i]) == SO_READ ==> |rs[i].data| <= SAFE_READ
  }

  function DecodeAll(frames: seq<seq<byte>>): seq<Rpc> {
    seq(|frames|, i requires 0 <= i < |frames| =>
      if |frames[i]| >= RPC_OVERHEAD then DecodeRpc(frames[i]) else Rpc(0, 0, 0, []))
  }

  lemma SafeSnoc(rs: seq<Rpc>, r: Rpc)
    ensures AllSafe(rs + [r]) <==> AllSafe(rs) && (OpOf(r) == SO_READ ==> |r.data| <= SAFE_READ)
  {
    hide OpOf;
    assert (rs + [r])[|rs|] == r;
    assert forall i :: 0 <= i < |rs| ==> (rs + [r])[i] == rs[i];
  }

  /** What becomes of a transfer: it is passed on, or some of it, or nothing. */
  datatype Outcome = PassedOn | Remainder(bytes: seq<byte>) | Nothing

  lemma AckedSnoc(wrIndex: u64, rs: seq<Rpc>, r: Rpc)
    ensures AllAcked(wrIndex, rs + [r]) == Acked(AllAcked(wrIndex, rs), r)
    ensures ReadBytes(rs + [r]) == ReadBytes(rs) + if OpOf(r) == SO_READ then r.data else []
  {
    hide Acked, OpOf;
    assert (rs + [r])[..|rs|] == rs;
  }

  class Net {
    const slot: byte
    const port: byte
    const running: bool
    const unpacker: Unpacker
    var sockOpen: bool
    var wrIndex: u64
    var msgid: u32
    var openSta: int
    var rpcRxFrames: nat
    var ackOk: nat
    var ackSendOk: nat
    var ackPending: nat
    var ackWanted: nat
    var ackOther: nat
    var rxErrors: nat
    var rxUnparsed: nat
    var rxTruncated: nat

    /** Every frame handled since the socket was opened. */
    ghost var handled: seq<Rpc>

    ghost predicate Valid()
      reads this, unpacker, unpacker.rxbuf, unpacker.device
    {
      && unpacker.Valid() && rpcRxFrames == |handled|
      && (running && AllSafe(handled) ==> unpacker.stream == ReadBytes(handled) && unpacker.before == [])
    }

    constructor (slot: byte, port: byte, running: bool, unpacker: Unpacker)
      requires unpacker.Valid() && unpacker.stream == [] && unpacker.before == []
      ensures Valid() && handled == [] && this.unpacker == unpacker && wrIndex == 0 && msgid == 0
      ensures this.slot == slot && this.port == port && this.running == running && sockOpen && openSta == 0
      ensures ackOk == ackSendOk == ackPending == ackWanted == ackOther == 0
      ensures rxErrors == rxUnparsed == rxTruncated == 0
    {
      this.slot, this.port, this.running, this.unpacker := slot, port, running, unpacker;
      sockOpen, wrIndex, msgid, openSta, rpcRxFrames := true, 0, 0, 0, 0;
      ackOk, ackSendOk, ackPending, ackWanted, ackOther := 0, 0, 0, 0, 0;
      rxErrors, rxUnparsed, rxTruncated := 0, 0, 0;
      handled := [];
    }

    /** net_rx_write_ack() */
    method WriteAck(sta: int, data: seq<byte>)
      modifies this`wrIndex, this`ackOk, this`ackSendOk, this`ackPending, this`ackWanted, this`ackOther
      ensures wrIndex == Resynced(old(wrIndex), sta, data)
      ensures ackOk == old(ackOk) + One(sta >= 0)
      ensures ackSendOk == old(ackSendOk) + One(sta == -0x106 && |data| >= 16)
      ensures ackPending == old(ackPending) + One(sta == -0x107 && |data| >= 16)
      ensures ackWanted == old(ackWanted) + One(sta == -0x108 && |data| >= 16)
      ensures ackOther == old(ackOther) + One(sta < 0 && (|data| < 16 || sta !in {-0x106, -0x107, -0x108}))
    {
      hide GetLe64;
      if sta >= 0 {
        ackOk := ackOk + 1;
        return;
      }
      if |data| < 16 {
        ackOther := ackOther + 1;
        return;
      }
      var pos, arg := GetLe64(data, 0), GetLe64(data, 8);
      if sta == SO_STA_SEND_OK {
        ackSendOk := ackSendOk + 1;
      } else if sta == SO_STA_PENDING {
        ackPending := ackPending + 1;
        wrIndex := pos;
      } else if sta == SO_STA_WANTED {
        ackWanted := ackWanted + 1;
        wrIndex := arg;
      } else {
        ackOther := ackOther + 1;
      }
    }

    /** net_rx_frame() */
    method RxFrame(r: Rpc)
      requires Valid()
      modifies this, unpacker, unpacker.rxbuf, unpacker.device
      ensures Valid() && handled == old(handled) + [r] && wrIndex == Acked(old(wrIndex), r)
      ensures sockOpen == old(sockOpen) && msgid == old(msgid) && rxErrors == old(rxErrors)
      ensures rxUnparsed == old(rxUnparsed) && rxTruncated == old(rxTruncated)
      ensures openSta == if OpOf(r) == SO_OPEN then Signed(r.sta) else old(openSta)
    {
      hide Unpacker.Valid, Resynced, Signed, AllSafe, ReadBytes, Since, OpOf, One;
      AckedSnoc(0, handled, r);
      SafeSnoc(handled, r);
      assert ReadBytes(handled) + [] == ReadBytes(handled);
      rpcRxFrames := rpcRxFrames + 1;
      handled := handled + [r];
      var op := OpOf(r);
      if op == SO_READ {
        if running {
          unpacker.RxStream(r.data);
        }
      } else if op == SO_WRITE {
        WriteAck(Signed(r.sta), r.data);
      } else if op == SO_OPEN {
        openSta := Signed(r.sta);
      }
    }

    method NoteStop(why: Stop)
      requires Valid()
      modifies this`rxUnparsed, this`rxTruncated
      ensures Valid()
      ensures rxUnparsed == old(rxUnparsed) + One(why == Unparsed)
      ensures rxTruncated == old(rxTruncated) + One(why == Truncated)
    {
      if why == Unparsed {
        rxUnparsed := rxUnparsed + 1;
      } else if why == Truncated {
        rxTruncated := rxTruncated + 1;
      }
    }

    method NoteError()
      requires Valid()
      modifies this`rxErrors
      ensures Valid() && rxErrors == old(rxErrors) + 1
    {
      rxErrors := rxErrors + 1;
    }

    /**
     artosyn_net_rx(): every frame for the device is handled, once and in order, and the
     transfer is passed on without them; or not at all when no frame can start in what is left.
     Without a buffer for what is left, nothing is handled and everything passed on.
     */
    method Rx(p: seq<byte>, allocOk: bool) returns (out: Outcome)
      requires Valid()
      modifies this, unpacker, unpacker.rxbuf, unpacker.device
      ensures Valid()
      ensures var mine := ForDevice(p, slot, port);
              if old(sockOpen) && mine != [] && allocOk
              then out == (if 0xaa in Kept(p, slot, port) then Remainder(Kept(p, slot, port)) else Nothing)
                   && handled == old(handled) + DecodeAll(mine)
                   && wrIndex == AllAcked(old(wrIndex), DecodeAll(mine)) && rxErrors == old(rxErrors)
              else out == PassedOn && handled == old(handled) && wrIndex == old(wrIndex)
                   && rxErrors == old(rxErrors) + if old(sockOpen) && mine != [] then 1 else 0
      ensures var scanned := old(sockOpen) && (ForDevice(p, slot, port) == [] || allocOk);
              && rxUnparsed == old(rxUnparsed) + One(scanned && StopOf(p, true) == Unparsed)
              && rxTruncated == old(rxTruncated) + One(scanned && StopOf(p, true) == Truncated)
    {
      hide Scanned, Kept, Select, IsMine, Acked, ReadBytes, AllSafe, Unpacker.Valid, RpcAt;
      hide OpOf, ScanIs, ForDevice, StopOf, StopHere, Valid;
      hide DecodeRpc, AllAcked, DecodeAll;
      if !sockOpen {
        return PassedOn;
      }
      var off: nat, keepFrom: nat := 0, 0;
      var haveRest := false;
      ghost var stopped := false;
      var rest: seq<byte> := [];
      ghost var done: seq<seq<byte>> := [];
      assert p[0..] == p;
      StartScan(p, slot, port, wrIndex, handled);
      while off + RPC_OVERHEAD <= |p|
        invariant Valid() && keepFrom <= off <= |p|
        invariant ScanIs(p, slot, port, off, keepFrom, rest, done)
        invariant (haveRest <==> done != []) && (haveRest ==> allocOk)
        invariant handled == old(handled) + DecodeAll(done) && wrIndex == AllAcked(old(wrIndex), DecodeAll(done))
        invariant rxErrors == old(rxErrors) && rxUnparsed == old(rxUnparsed) && rxTruncated == old(rxTruncated)
        invariant StopOf(p, true) == StopOf(p[off..], off == 0)
        decreases |p| - off
      {
        if p[off] != RPC_HEAD && p[off] == 0 {
          StopStep(p[off..], off == 0);
          assert p[off..][1..] == p[off + 1..];
          PaddingStep(p, slot, port, off, keepFrom, rest, done);
          off := off + 1;
          continue;
        }
        var n, why := Inspect(p, off);
        StopStep(p[off..], off == 0);
        if n == None {
          NoteStop(why);
          stopped := true;
          break;
        }
        assert p[off..][n.value..] == p[off + n.value..];
        FrameStep(p, slot, port, off, keepFrom, rest, done);
        if IsMine(DecodeRpc(p[off..off + n.value]), slot, port) {
          if !haveRest {
            if !allocOk {
              NoteError();
              return PassedOn;
            }
            haveRest := true;
          }
          rest := rest + p[keepFrom..off];
          RxFrame(DecodeRpc(p[off..off + n.value]));
          DoneSnoc(old(wrIndex), done, p[off..off + n.value]);
          done := done + [p[off..off + n.value]];
          keepFrom := off + n.value;
        }
        off := off + n.value;
      }
      if !stopped {
        StopStep(p[off..], off == 0);
      }
      ScanStops(p, slot, port, off, keepFrom, rest, done);
      if !haveRest {
        return PassedOn;
      }
      rest := rest + p[keepFrom..];
      out := if RPC_HEAD in rest then Remainder(rest) else Nothing;
    }
  }

  /** The checks for an RPC frame, in their order. */
  method Inspect(p: seq<byte>, off: nat) returns (n: Option<nat>, why: Stop)
    requires off + RPC_OVERHEAD <= |p| && p[off] != 0
    ensures n == FrameAt(p[off..]) && (n == None ==> why == StopHere(p[off..], off == 0))
  {
    hide ArtXor;
    ghost var s := p[off..];
    if p[off] != RPC_HEAD {
      return None, if off == 0 then Unparsed else Quiet;
    }
    var dlen := GetLe32(p, off + 1);
    assert GetLe32(s, 1) == dlen;
    if dlen > |p| - off - RPC_OVERHEAD {
      return None, Truncated;
    }
    var flen := RPC_OVERHEAD + dlen;
    var xor := ComputeXor(p[off..off + RPC_XOR_LEN]);
    assert s[0..RPC_XOR_LEN] == p[off..off + RPC_XOR_LEN];
    assert s[flen - 1] == p[off + flen - 1] && s[RPC_XOR_LEN] == p[off + RPC_XOR_LEN];
    if p[off + flen - 1] != RPC_TAIL || xor != p[off + RPC_XOR_LEN] {
      return None, Unparsed;
    }
    return Some(flen), Quiet;
  }

  /**
   Behind the last frame the scan stops in silence at the end, too close to it for a frame, or at
   leftovers that do not begin one; it counts a frame cut short where a head claims more than is
   there, and something broken where a head is followed by what is not a frame, or where the
   transfer does not even begin with a head.
   */
  lemma StopHereMeans(s: seq<byte>, first: bool)
    ensures StopHere(s, first) == Quiet <==> |s| < 19 || (s[0] != 0xaa && !first)
    ensures StopHere(s, first) == Truncated
            <==> |s| >= 19 && s[0] == 0xaa
                 && 19 + s[1] as int + 0x100 * s[2] as int + 0x1_0000 * s[3] as int + 0x100_0000 * s[4] as int > |s|
  {
  }

  lemma StopStep(s: seq<byte>, first: bool)
    ensures StopOf(s, first)
            == if IsPadding(s) then StopOf(s[1..], false)
               else if FrameAt(s).Some? then StopOf(s[FrameAt(s).value..], false)
               else StopHere(s, first)
    ensures |s| < RPC_OVERHEAD ==> StopOf(s, first) == Quiet
  {
    hide ArtXor;
  }

  lemma PaddingStep(p: seq<byte>, slot: byte, port: byte, off: nat, keepFrom: nat, rest: seq<byte>,
                    done: seq<seq<byte>>)
    requires keepFrom <= off <= |p| && ScanIs(p, slot, port, off, keepFrom, rest, done)
    requires off + RPC_OVERHEAD <= |p| && p[off] == 0
    ensures ScanIs(p, slot, port, off + 1, keepFrom, rest, done)
  {
    hide ForDevice, RpcAt, Mine;
    DeviceStep(p[off..], slot, port);
    assert IsPadding(p[off..]) && p[off..][1..] == p[off + 1..];
    assert p[keepFrom..off + 1] == p[keepFrom..off] + [p[off]];
    Regroup(rest, p[keepFrom..off], [p[off]]);
    Regroup(rest + p[keepFrom..off], [p[off]], Kept(p[off + 1..], slot, port));
  }

  lemma KeptStep(s: seq<byte>, slot: byte, port: byte)
    requires FrameAt(s).Some? && !IsPadding(s)
    ensures var n := FrameAt(s).value;
      Kept(s, slot, port) == (if Mine(s[..n], slot, port) then [] else s[..n]) + Kept(s[n..], slot, port)
  {
    hide Mine, RpcAt;
  }

  /** A frame at off is handled and left out, or kept. */
  lemma FrameStep(p: seq<byte>, slot: byte, port: byte, off: nat, keepFrom: nat, rest: seq<byte>, done: seq<seq<byte>>)
    requires keepFrom <= off <= |p| && ScanIs(p, slot, port, off, keepFrom, rest, done)
    requires FrameAt(p[off..]).Some? && !IsPadding(p[off..])
    ensures var n := FrameAt(p[off..]).value;
      var frame := p[off..off + n];
      if Mine(frame, slot, port) then
        ScanIs(p, slot, port, off + n, off + n, rest + p[keepFrom..off], done + [frame])
        && ForDevice(p, slot, port) != []
      else ScanIs(p, slot, port, off + n, keepFrom, rest, done)
  {
    hide ForDevice, FrameAt, Mine, Kept;
    DeviceStep(p[off..], slot, port);
    KeptStep(p[off..], slot, port);
    var n := FrameAt(p[off..]).value;
    var frame := p[off..off + n];
    assert p[off..][..n] == frame && p[off..][n..] == p[off + n..];
    var later := ForDevice(p[off + n..], slot, port);
    if Mine(frame, slot, port) {
      assert done + ([frame] + later) == done + [frame] + later;
      assert [] + Kept(p[off + n..], slot, port) == Kept(p[off + n..], slot, port);
      assert rest + p[keepFrom..off] + p[off + n..off + n] == rest + p[keepFrom..off];
    } else {
      assert [] + later == later;
      assert p[keepFrom..off + n] == p[keepFrom..off] + frame;
      Regroup(rest, p[keepFrom..off], frame);
      Regroup(rest + p[keepFrom..off], frame, Kept(p[off + n..], slot, port));
    }
  }

  lemma ScanStops(p: seq<byte>, slot: byte, port: byte, off: nat, keepFrom: nat, rest: seq<byte>, done: seq<seq<byte>>)
    requires keepFrom <= off <= |p| && ScanIs(p, slot, port, off, keepFrom, rest, done)
    requires off + RPC_OVERHEAD > |p| || (p[off] != 0 && FrameAt(p[off..]) == None)
    ensures ForDevice(p, slot, port) == done && Kept(p, slot, port) == rest + p[keepFrom..]
  {
    hide ForDevice, Mine, ArtXor;
    DeviceStep(p[off..], slot, port);
    assert done + [] == done;
    assert p[keepFrom..] == p[keepFrom..off] + p[off..];
    Regroup(rest, p[keepFrom..off], p[off..]);
  }

  lemma StartScan(p: seq<byte>, slot: byte, port: byte, wrIndex: u64, handled: seq<Rpc>)
    ensures ScanIs(p, slot, port, 0, 0, [], [])
    ensures AllAcked(wrIndex, DecodeAll([])) == wrIndex && handled == handled + DecodeAll([])
  {
    hide ForDevice, Mine, RpcAt, Kept;
    assert p[0..] == p && [] + Kept(p, slot, port) == Kept(p, slot, port) && [] + p[0..0] == [];
    assert [] + ForDevice(p, slot, port) == ForDevice(p, slot, port);
  }

  lemma DoneSnoc(wrIndex: u64, done: seq<seq<byte>>, frame: seq<byte>)
    requires |frame| >= RPC_OVERHEAD
    ensures DecodeAll(done + [frame]) == DecodeAll(done) + [DecodeRpc(frame)]
    ensures AllAcked(wrIndex, DecodeAll(done + [frame])) == Acked(AllAcked(wrIndex, DecodeAll(done)), DecodeRpc(frame))
  {
    hide DecodeRpc, Acked;
    assert DecodeAll(done + [frame]) == DecodeAll(done) + [DecodeRpc(frame)];
    AckedSnoc(wrIndex, DecodeAll(done), DecodeRpc(frame));
  }

  /** How far the scan is: what it has handled and kept, and what is still to come, make up the whole. */
  predicate ScanIs(p: seq<byte>, slot: byte, port: byte, off: nat, keepFrom: nat, rest: seq<byte>, done: seq<seq<byte>>)
    requires keepFrom <= off <= |p|
  {
    && ForDevice(p, slot, port) == done + ForDevice(p[off..], slot, port)
    && Kept(p, slot, port) == rest + p[keepFrom..off] + Kept(p[off..], slot, port)
  }
}
