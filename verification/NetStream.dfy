/** net_rx_stream() of kmod/artosyn_net.c: packets out of the peer's byte stream. */
module NetStream {
  import opened Bytes
  import opened Resync
  import opened NetWire

  const RXBUF_SIZE: nat := 65536
  const ETH_HLEN: nat := 14

  /** Packets that hold an Ethernet header. */
  function LongEnough(packets: seq<seq<byte>>): seq<seq<byte>> {
    if packets == [] then []
    else
      LongEnough(packets[..|packets| - 1])
      + if |packets[|packets| - 1]| >= ETH_HLEN then [packets[|packets| - 1]] else []
  }

  /** The network stack. oks says for which packets a buffer can be had. */
  class Device {
    var packets: seq<seq<byte>>
    var lengthErrors: nat
    var dropped: nat
    var oks: seq<bool>
    ghost var offered: seq<seq<byte>>

    /** Every packet offered is accounted for, and with no lack of buffers all long enough get through. */
    ghost predicate Valid()
      reads this
    {
      && |packets| + lengthErrors + dropped == |offered|
      && (dropped == 0 ==> packets == LongEnough(offered))
    }

    constructor (oks: seq<bool>)
      ensures Valid() && offered == packets == [] && lengthErrors == dropped == 0 && this.oks == oks
    {
      packets, lengthErrors, dropped, this.oks, offered := [], 0, 0, oks, [];
    }

    /** net_deliver() */
    method Deliver(packet: seq<byte>)
      requires Valid()
      modifies this
      ensures Valid() && offered == old(offered) + [packet]
      ensures packets == old(packets) || packets == old(packets) + [packet]
      ensures var ok := old(oks) == [] || old(oks)[0];
              if |packet| < 14 then
                packets == old(packets) && lengthErrors == old(lengthErrors) + 1 && dropped == old(dropped)
                && oks == old(oks)
              else
                && lengthErrors == old(lengthErrors) && oks == (if old(oks) == [] then [] else old(oks)[1..])
                && if ok then packets == old(packets) + [packet] && dropped == old(dropped)
                   else packets == old(packets) && dropped == old(dropped) + 1
    {
      offered := offered + [packet];
      assert offered[..|offered| - 1] == old(offered);
      if |packet| < ETH_HLEN {
        lengthErrors := lengthErrors + 1;
        return;
      }
      var ok := oks == [] || oks[0];
      if oks != [] {
        oks := oks[1..];
      }
      if ok {
        packets := packets + [packet];
      } else {
        dropped := dropped + 1;
      }
    }
  }

  /** Datagrams found so far and the window together account for the whole stream. */
  ghost predicate Keeps(stream: seq<byte>, found: seq<seq<byte>>, window: seq<byte>) {
    Dgrams(stream) == found + Dgrams(window) && DgramRest(stream) == DgramRest(window)
  }

  lemma KeepsAfterRead(stream: seq<byte>, found: seq<seq<byte>>, window: seq<byte>, more: seq<byte>)
    requires Keeps(stream, found, window)
    ensures Keeps(stream + more, found, window + more)
  {
    DgramAtIsClassifier();
    hide Frames, Rest, Flagged, DgramAt;
    Resume(DgramAt, stream, more);
    Resume(DgramAt, window, more);
    RegroupFrames(found, Dgrams(window), Dgrams(DgramRest(window) + more));
  }

  lemma KeepsAfterJunk(stream: seq<byte>, found: seq<seq<byte>>, window: seq<byte>, k: nat)
    requires Keeps(stream, found, window)
    requires k <= |window| && forall i :: 0 <= i < k ==> window[i] != DGRAM_HEAD
    ensures Keeps(stream, found, window[k..])
  {
    DgramAtIsClassifier();
    forall i | 0 <= i < k
      ensures DgramAt(window[i..]) == Dead(false)
    {
      assert window[i..][0] == window[i];
    }
    SkipDead(DgramAt, window, k);
  }

  lemma KeepsAfterBad(stream: seq<byte>, found: seq<seq<byte>>, window: seq<byte>)
    requires Keeps(stream, found, window) && DgramAt(window) == Dead(true)
    ensures |window| >= 1 && Keeps(stream, found, window[1..])
  {
    hide DgramAt;
    DgramAtIsClassifier();
    Unfold(DgramAt, window);
  }

  lemma KeepsAfterGood(stream: seq<byte>, found: seq<seq<byte>>, window: seq<byte>, n: nat)
    requires Keeps(stream, found, window) && DgramAt(window) == Valid(n)
    ensures 0 < n <= |window| && Keeps(stream, found + [window[..n]], window[n..])
  {
    hide DgramAt;
    DgramAtIsClassifier();
    Unfold(DgramAt, window);
    RegroupFrames(found, [window[..n]], Dgrams(window[n..]));
  }

  /** Nothing shorter than a datagram holds one. */
  lemma {:induction false} ShortHasNone(s: seq<byte>)
    requires |s| < DGRAM_OVERHEAD
    ensures Dgrams(s) == []
    decreases |s|
  {
    hide ArtXor;
    DgramAtIsClassifier();
    if DgramAt(s) != Undecided {
      ShortHasNone(s[1..]);
    }
  }

  /** The loop may stop here: everything the stream holds so far has been found. */
  lemma Settled(stream: seq<byte>, found: seq<seq<byte>>, window: seq<byte>)
    requires Keeps(stream, found, window)
    requires |window| < DGRAM_OVERHEAD || DgramAt(window) == Undecided
    ensures Dgrams(stream) == found && |window| < DGRAM_LIMIT
  {
    DgramAtIsClassifier();
    if |window| < DGRAM_OVERHEAD {
      ShortHasNone(window);
    } else if |window| >= DGRAM_LIMIT {
      DgramAtIsBounded(window);
      assert false;
    }
    assert found + [] == found;
  }

  // rx_dgram_errors

  /** The next head, or the end. */
  function NextHead(w: seq<byte>): (k: nat)
    ensures k <= |w| && (k < |w| ==> w[k] == DGRAM_HEAD)
    ensures forall i :: 0 <= i < k ==> w[i] != DGRAM_HEAD
  {
    if w == [] || w[0] == DGRAM_HEAD then 0 else 1 + NextHead(w[1..])
  }

  /** How far one turn of the loop takes it where no datagram is: over a run of junk, or by one byte. */
  function SkipLen(w: seq<byte>): (k: nat)
    requires w != []
    ensures 0 < k <= |w|
  {
    if w[0] == DGRAM_HEAD then 1 else NextHead(w)
  }

  /** What a scan of the buffer adds to the error count: one for every turn that finds no datagram. */
  function ScanErrors(w: seq<byte>): nat
    decreases |w|
  {
    if |w| < DGRAM_OVERHEAD || DgramAt(w) == Undecided then 0
    else if DgramAt(w).Dead? then 1 + ScanErrors(w[SkipLen(w)..])
    else DgramFits(w); ScanErrors(w[DgramAt(w).size..])
  }

  lemma DgramFits(w: seq<byte>)
    requires DgramAt(w).Valid?
    ensures 0 < DgramAt(w).size <= |w|
  {
    hide ArtXor;
  }

  lemma ErrorStep(w: seq<byte>)
    ensures |w| < DGRAM_OVERHEAD || DgramAt(w) == Undecided ==> ScanErrors(w) == 0
    ensures |w| >= DGRAM_OVERHEAD && DgramAt(w).Dead? ==> ScanErrors(w) == 1 + ScanErrors(w[SkipLen(w)..])
    ensures |w| >= DGRAM_OVERHEAD && DgramAt(w).Valid? ==>
              DgramAt(w).size <= |w| && ScanErrors(w) == ScanErrors(w[DgramAt(w).size..])
  {
    hide DgramAt;
    if DgramAt(w).Valid? {
      DgramFits(w);
    }
  }

  /** Packets and nothing else count no errors. */
  lemma {:induction false} CleanHasNoErrors(packets: seq<seq<byte>>)
    requires forall i :: 0 <= i < |packets| ==> |packets[i]| <= MAX_DGRAM
    ensures ScanErrors(DgramStream(packets)) == 0
    decreases |packets|
  {
    hide EncodeDgram, DgramAt;
    if packets == [] {
      ErrorStep([]);
    } else {
      var e, tail := EncodeDgram(packets[0]), DgramStream(packets[1..]);
      DgramAtEncoded(packets[0], tail);
      ErrorStep(e + tail);
      assert (e + tail)[|e|..] == tail;
      CleanHasNoErrors(packets[1..]);
    }
  }

  lemma NextHeadIs(w: seq<byte>, k: nat)
    requires k <= |w| && (k < |w| ==> w[k] == DGRAM_HEAD) && forall i :: 0 <= i < k ==> w[i] != DGRAM_HEAD
    ensures k == NextHead(w)
  {
  }

  lemma PacketsSnoc(found: seq<seq<byte>>, frame: seq<byte>)
    ensures PacketsOf(found + [frame]) == PacketsOf(found) + [PacketOf(frame)]
  {
  }

  class Unpacker {
    const device: Device
    const rxbuf: array<byte>
    var rxlen: nat
    var dgramErrors: nat

    /** What has come in since the buffer was last thrown away, and the packets offered before that. */
    ghost var stream: seq<byte>
    ghost var before: seq<seq<byte>>

    ghost function Window(): seq<byte>
      reads this, rxbuf
      requires rxlen <= rxbuf.Length
    {
      rxbuf[..rxlen]
    }

    ghost predicate Valid()
      reads this, rxbuf, device
    {
      && rxbuf.Length == RXBUF_SIZE && rxlen < DGRAM_LIMIT
      && device.Valid()
      && Keeps(stream, Dgrams(stream), Window())
      && device.offered == before + PacketsOf(Dgrams(stream))
    }

    constructor (device: Device)
      requires device.Valid() && device.offered == []
      ensures Valid() && fresh(rxbuf) && this.device == device && stream == [] && before == []
      ensures rxlen == dgramErrors == 0
    {
      this.device := device;
      rxbuf := new byte[RXBUF_SIZE](_ => 0);
      rxlen, dgramErrors, stream, before := 0, 0, [], [];
      new;
      NoBytes();
    }

    /** memchr() for the next head. */
    method FindHead(from: nat) returns (p: nat)
      requires from <= rxlen <= rxbuf.Length
      ensures from <= p <= rxlen
      ensures forall i :: from <= i < p ==> rxbuf[i] != DGRAM_HEAD
      ensures p < rxlen ==> rxbuf[p] == DGRAM_HEAD
    {
      p := from;
      while p < rxlen && rxbuf[p] != DGRAM_HEAD
        invariant from <= p <= rxlen
        invariant forall i :: from <= i < p ==> rxbuf[i] != DGRAM_HEAD
      {
        p := p + 1;
      }
    }

    /** What the loop sees at pos, by the checks in its order. */
    method Look(pos: nat) returns (v: Verdict)
      requires pos + DGRAM_OVERHEAD <= rxlen <= rxbuf.Length
      ensures v == DgramAt(rxbuf[pos..rxlen])
    {
      hide ArtXor;
      ghost var w := rxbuf[pos..rxlen];
      if rxbuf[pos] != DGRAM_HEAD {
        return Dead(false);
      }
      var len := GetLe32(rxbuf[pos..pos + DGRAM_HDR_LEN], 1);
      assert GetLe32(w, 1) == len;
      assert w[..DGRAM_XOR_LEN] == rxbuf[pos..pos + DGRAM_XOR_LEN];
      var xor := ComputeXor(rxbuf[pos..pos + DGRAM_XOR_LEN]);
      if xor != rxbuf[pos + DGRAM_XOR_LEN] || len > MAX_DGRAM {
        return Dead(true);
      }
      if rxlen - pos < DGRAM_OVERHEAD + len {
        return Undecided;
      }
      if rxbuf[pos + DGRAM_HDR_LEN + len] != DGRAM_TAIL {
        return Dead(true);
      }
      return Verdict.Valid(DGRAM_OVERHEAD + len);
    }

    /** The loop over the buffer, and where it stops. had are the datagrams found before. */
    method Scan(ghost had: seq<seq<byte>>) returns (pos: nat, ghost found: seq<seq<byte>>)
      requires rxlen <= rxbuf.Length == RXBUF_SIZE && device.Valid()
      requires Keeps(stream, had, Window())
      modifies this`dgramErrors, device
      ensures device.Valid() && device.offered == old(device.offered) + PacketsOf(found)
      ensures pos <= rxlen && Keeps(stream, had + found, rxbuf[pos..rxlen])
      ensures rxlen - pos < DGRAM_OVERHEAD || DgramAt(rxbuf[pos..rxlen]) == Undecided
      ensures dgramErrors == old(dgramErrors) + ScanErrors(Window())
    {
      hide DgramAt, Keeps, Device.Valid, PacketsOf, ScanErrors;
      pos, found := 0, [];
      assert had + found == had && rxbuf[0..rxlen] == Window();
      NoPackets(device.offered);
      while rxlen - pos >= DGRAM_OVERHEAD
        invariant pos <= rxlen && device.Valid()
        invariant device.offered == old(device.offered) + PacketsOf(found)
        invariant Keeps(stream, had + found, rxbuf[pos..rxlen])
        invariant dgramErrors + ScanErrors(rxbuf[pos..rxlen]) == old(dgramErrors) + ScanErrors(Window())
        decreases rxlen - pos
      {
        ghost var w := rxbuf[pos..rxlen];
        var v := Look(pos);
        ErrorStep(w);
        match v
        case Undecided => return;
        case Dead(flagged) =>
          dgramErrors := dgramErrors + 1;
          pos := Skip(pos, flagged, had + found);
          assert w[SkipLen(w)..] == rxbuf[pos..rxlen];
        case Valid(n) =>
          KeepsAfterGood(stream, had + found, w, n);
          var frame := rxbuf[pos..pos + n];
          assert w[..n] == frame && w[n..] == rxbuf[pos + n..rxlen];
          device.Deliver(PacketOf(frame));
          PacketsSnoc(found, frame);
          assert had + (found + [frame]) == had + found + [frame];
          found := found + [frame];
          pos := pos + n;
      }
      ErrorStep(rxbuf[pos..rxlen]);
    }

    /** No datagram at pos: on to the next head when there is none here, else by one byte. */
    method Skip(pos: nat, flagged: bool, ghost had: seq<seq<byte>>) returns (next: nat)
      requires pos < rxlen <= rxbuf.Length && Keeps(stream, had, rxbuf[pos..rxlen])
      requires DgramAt(rxbuf[pos..rxlen]) == Dead(flagged)
      ensures pos < next <= rxlen && Keeps(stream, had, rxbuf[next..rxlen])
      ensures next == pos + SkipLen(rxbuf[pos..rxlen])
    {
      hide Keeps, DgramAt;
      ghost var w := rxbuf[pos..rxlen];
      if rxbuf[pos] != DGRAM_HEAD {
        next := FindHead(pos);
        KeepsAfterJunk(stream, had, w, next - pos);
        NextHeadIs(w, next - pos);
        assert w[next - pos..] == rxbuf[next..rxlen];
      } else {
        DeadIsFlagged(w);
        KeepsAfterBad(stream, had, w);
        next := pos + 1;
        assert w[1..] == rxbuf[next..rxlen];
      }
    }

    /** memmove() of what is left to the front. */
    method Drop(pos: nat)
      requires pos <= rxlen <= rxbuf.Length
      modifies this`rxlen, rxbuf
      ensures rxlen == old(rxlen) - pos && Window() == old(rxbuf[pos..rxlen])
    {
      ghost var w := rxbuf[pos..rxlen];
      ghost var before := rxbuf[..];
      for i := 0 to rxlen - pos
        invariant rxlen == old(rxlen)
        invariant forall j :: 0 <= j < i ==> rxbuf[j] == before[j + pos]
        invariant forall j :: i <= j < rxbuf.Length ==> rxbuf[j] == before[j]
      {
        rxbuf[i] := rxbuf[i + pos];
      }
      rxlen := rxlen - pos;
      assert Window() == w;
    }

    /** The part in front of the loop: too much for the buffer throws away what it holds. */
    method Append(data: seq<byte>) returns (ok: bool)
      requires Valid()
      modifies this`rxlen, this`dgramErrors, this`stream, this`before, rxbuf
      ensures rxlen <= rxbuf.Length && (!ok ==> rxlen == 0)
      ensures Keeps(stream, if old(rxlen) + |data| <= RXBUF_SIZE then Dgrams(old(stream)) else [], Window())
      ensures (stream, before) == Since(old(rxlen), old(stream), old(before), old(device.offered), data)
      ensures ok <==> |data| <= RXBUF_SIZE
      ensures ok ==> Window() == (if old(rxlen) + |data| <= RXBUF_SIZE then old(Window()) else []) + data
      ensures dgramErrors == old(dgramErrors) + if old(rxlen) + |data| <= RXBUF_SIZE then 0 else 1
    {
      hide Keeps, Dgrams, Device.Valid, PacketsOf;
      ghost var w := Window();
      if rxlen + |data| > RXBUF_SIZE {
        dgramErrors := dgramErrors + 1;
        rxlen := 0;
        stream, before, w := [], device.offered, [];
        KeepsNothing();
        if |data| > RXBUF_SIZE {
          assert Window() == [];
          return false;
        }
      }
      assert Window() == w;
      Copy(data);
      KeepsAfterRead(stream, if old(rxlen) + |data| <= RXBUF_SIZE then Dgrams(old(stream)) else [], w, data);
      stream := stream + data;
      assert [] + data == data;
      ok := true;
    }

    /** memcpy() behind what the buffer holds. */
    method Copy(data: seq<byte>)
      requires rxlen + |data| <= rxbuf.Length
      modifies this`rxlen, rxbuf
      ensures rxlen == old(rxlen) + |data| && Window() == old(Window()) + data
    {
      ghost var w := Window();
      forall i | 0 <= i < |data| {
        rxbuf[rxlen + i] := data[i];
      }
      rxlen := rxlen + |data|;
      assert rxbuf[..rxlen] == w + data;
    }

    /**
     net_rx_stream(): with the payload, all datagrams that the stream holds so far have been
     offered. A payload up to 57338 bytes never makes it throw anything away.
     */
    method RxStream(data: seq<byte>)
      requires Valid()
      modifies this, rxbuf, device
      ensures Valid()
      ensures (stream, before) == Since(old(rxlen), old(stream), old(before), old(device.offered), data)
      ensures |data| <= 57338 ==> stream == old(stream) + data && before == old(before)
      ensures dgramErrors == old(dgramErrors)
                + if old(rxlen) + |data| <= 65536 then ScanErrors(old(Window()) + data)
                  else 1 + if |data| <= 65536 then ScanErrors(data) else 0
    {
      hide Keeps, DgramAt, Dgrams, Device.Valid, PacketsOf, ScanErrors;
      assert [] + data == data;
      NoPackets(device.offered);
      ghost var had := if rxlen + |data| <= RXBUF_SIZE then Dgrams(stream) else [];
      ghost var offered := device.offered;
      var ok := Append(data);
      if !ok {
        FoundNothing(stream, Window());
        return;
      }
      ghost var found;
      var pos;
      pos, found := Scan(had);
      Settled(stream, had + found, rxbuf[pos..rxlen]);
      Drop(pos);
      PacketsSplit(had, found);
      assert before + (PacketsOf(had) + PacketsOf(found)) == before + PacketsOf(had) + PacketsOf(found);
    }
  }

  /** The stream behind the last time the buffer was thrown away, and the packets offered before that. */
  function Since(rxlen: nat, stream: seq<byte>, before: seq<seq<byte>>, offered: seq<seq<byte>>, data: seq<byte>)
    : (seq<byte>, seq<seq<byte>>)
  {
    if rxlen + |data| <= RXBUF_SIZE then (stream + data, before)
    else (if |data| <= RXBUF_SIZE then data else [], offered)
  }

  lemma NoPackets(offered: seq<seq<byte>>)
    ensures offered == offered + PacketsOf([])
  {
  }

  lemma PacketsSplit(a: seq<seq<byte>>, b: seq<seq<byte>>)
    ensures PacketsOf(a + b) == PacketsOf(a) + PacketsOf(b)
  {
  }

  lemma KeepsNothing()
    ensures Keeps([], [], [])
  {
    NoBytes();
  }

  lemma FoundNothing(stream: seq<byte>, window: seq<byte>)
    requires window == [] && stream == []
    ensures Keeps(stream, Dgrams(stream), window) && PacketsOf(Dgrams(stream)) == []
  {
    NoBytes();
  }

  lemma DeadIsFlagged(s: seq<byte>)
    requires s != [] && s[0] == DGRAM_HEAD && DgramAt(s).Dead?
    ensures DgramAt(s) == Dead(true)
  {
    hide ArtXor;
  }

  /**
   The datagrams found are the stretches of the stream at the one list of offsets that is
   leftmost and greedy. One that starts DGRAM_LIMIT bytes before the end is in the list or
   covered by one that is.
   */
  lemma DgramsAreGreedy(stream: seq<byte>, starts: seq<nat>, horizon: nat)
    requires LeftmostGreedy(DgramAt, stream, 0, starts, horizon)
    ensures AreStretches(DgramAt, stream, starts, Dgrams(stream)) && |stream| - horizon < DGRAM_LIMIT
    ensures forall p: nat :: StartsFrame(DgramAt, stream, p) && p + DGRAM_LIMIT <= |stream| ==>
              p in starts || Covered(DgramAt, stream, starts, p)
  {
    hide DgramAt, LeftmostGreedy, AreStretches, Covered, StartsFrame;
    DgramAtIsClassifier();
    GreedyIff(DgramAt, stream, starts, horizon);
    forall t: seq<byte> | |t| >= DGRAM_LIMIT
      ensures DgramAt(t) != Undecided
    {
      DgramAtIsBounded(t);
    }
    HorizonIsUndecided(stream, starts, horizon);
    forall p: nat | StartsFrame(DgramAt, stream, p) && p + DGRAM_LIMIT <= |stream|
      ensures p in starts || Covered(DgramAt, stream, starts, p)
    {
      BoundedResync(DgramAt, stream, DGRAM_LIMIT, p);
    }
  }

  lemma HorizonIsUndecided(stream: seq<byte>, starts: seq<nat>, horizon: nat)
    requires LeftmostGreedy(DgramAt, stream, 0, starts, horizon)
    ensures horizon <= |stream| && DgramAt(stream[horizon..]) == Undecided
  {
  }
}
