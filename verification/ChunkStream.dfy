/** common/chunk_stream.c: chunks out of a byte stream that has holes and no message boundaries. */
module ChunkStream {
  import opened Bytes
  import opened Crc16
  import opened Resync
  import opened ChunkWire

  /**
   What is outside: the injected read function and the stop flag. unread is all that the
   link will ever deliver, sizes says how much each coming read offers (nothing or less is a
   timeout), stops what each coming look at the stop flag sees.
   */
  class Link {
    var unread: seq<byte>
    var sizes: seq<int>
    var stops: seq<bool>
    var stopSeen: bool

    constructor (unread: seq<byte>, sizes: seq<int>, stops: seq<bool>)
      ensures this.unread == unread && this.sizes == sizes && this.stops == stops && !stopSeen
    {
      this.unread, this.sizes, this.stops, this.stopSeen := unread, sizes, stops, false;
    }

    method Read(buf: array<byte>, at: nat) returns (n: int)
      requires at <= buf.Length
      modifies this`unread, this`sizes, buf
      ensures n <= 0 ==> unread == old(unread) && buf[..] == old(buf[..])
      ensures n > 0 ==> n <= |old(unread)| && at + n <= buf.Length && unread == old(unread)[n..]
      ensures n > 0 ==> buf[..at] == old(buf[..at]) && buf[at..at + n] == old(unread)[..n]
    {
      n := if sizes == [] then 0 else sizes[0];
      if sizes != [] {
        sizes := sizes[1..];
      }
      if n > |unread| {
        n := |unread|;
      }
      if n > buf.Length - at {
        n := buf.Length - at;
      }
      if n > 0 {
        ghost var head, next := buf[..at], unread[..n];
        forall i | 0 <= i < n {
          buf[at + i] := unread[i];
        }
        assert buf[..at] == head && buf[at..at + n] == next;
        unread := unread[n..];
      }
    }

    method Stopped() returns (stop: bool)
      modifies this`stops, this`stopSeen
      ensures stopSeen == stop
    {
      stop := stops != [] && stops[0];
      if stops != [] {
        stops := stops[1..];
      }
      stopSeen := stop;
    }
  }

  /** Returned chunks, failed checksums and the window together account for the whole stream. */
  ghost predicate Agrees(stream: seq<byte>, returned: seq<seq<byte>>, fails: nat, window: seq<byte>) {
    && ChunkFrames(stream) == returned + ChunkFrames(window)
    && ChunkRest(stream) == ChunkRest(window)
    && BadHeaders(stream) == fails + BadHeaders(window)
  }

  function TotalSize(parts: seq<seq<byte>>): nat {
    if parts == [] then 0 else TotalSize(parts[..|parts| - 1]) + |parts[|parts| - 1]|
  }

  lemma AgreesAtStart(stream: seq<byte>, returned: seq<seq<byte>>, fails: nat, window: seq<byte>)
    requires stream == window && returned == [] && fails == 0
    ensures Agrees(stream, returned, fails, window)
  {
  }

  /** No chunk starts at the first k offsets. */
  ghost predicate AllDead(window: seq<byte>, k: nat)
    requires k <= |window|
  {
    forall i :: 0 <= i < k ==> Classify(window[i..]) == Dead(false)
  }

  lemma AgreesAfterJunk(stream: seq<byte>, returned: seq<seq<byte>>, fails: nat, window: seq<byte>, junk: nat)
    requires Agrees(stream, returned, fails, window)
    requires junk <= |window| && AllDead(window, junk)
    ensures Agrees(stream, returned, fails, window[junk..])
  {
    ClassifyIsClassifier();
    SkipDead(Classify, window, junk);
  }

  lemma AgreesAfterGood(stream: seq<byte>, returned: seq<seq<byte>>, fails: nat, window: seq<byte>, n: nat)
    requires Agrees(stream, returned, fails, window)
    requires n <= |window| && Classify(window) == Valid(n)
    ensures Agrees(stream, returned + [window[..n]], fails, window[n..])
  {
    ClassifyIsClassifier();
    assert returned + ([window[..n]] + ChunkFrames(window[n..])) == returned + [window[..n]] + ChunkFrames(window[n..]);
  }

  /** "AFRM" does not begin inside itself. */
  lemma DeadBehindMagic(window: seq<byte>, i: nat)
    requires |window| >= HDR_SIZE && window[..4] == MAGIC && 1 <= i < 4
    ensures Classify(window[i..]) == Dead(false)
  {
    assert window[i..][..4][0] == window[..4][i];
  }

  /** So a bad header can be left behind four bytes at a time. */
  lemma AgreesAfterBad(stream: seq<byte>, returned: seq<seq<byte>>, fails: nat, window: seq<byte>)
    requires Agrees(stream, returned, fails, window)
    requires |window| >= HDR_SIZE && Classify(window) == Dead(true)
    ensures Agrees(stream, returned, fails + 1, window[4..])
  {
    ParseBehindBad(window);
  }

  lemma ParseBehindBad(window: seq<byte>)
    requires |window| >= HDR_SIZE && Classify(window) == Dead(true)
    ensures ChunkFrames(window) == ChunkFrames(window[4..])
    ensures ChunkRest(window) == ChunkRest(window[4..])
    ensures BadHeaders(window) == 1 + BadHeaders(window[4..])
  {
    ClassifyIsClassifier();
    var tail := window[1..];
    forall i | 0 <= i < 3
      ensures Classify(tail[i..]) == Dead(false)
    {
      DeadBehindMagic(window, i + 1);
      assert tail[i..] == window[i + 1..];
    }
    SkipDead(Classify, tail, 3);
    assert tail[3..] == window[4..];
  }

  lemma AgreesAfterRead(stream: seq<byte>, returned: seq<seq<byte>>, fails: nat, window: seq<byte>, more: seq<byte>)
    requires Agrees(stream, returned, fails, window)
    ensures Agrees(stream + more, returned, fails, window + more)
  {
    ClassifyIsClassifier();
    hide Resync.Frames, Resync.Rest, Resync.Flagged, ChunkWire.Classify;
    Resume(Classify, stream, more);
    Resume(Classify, window, more);
    var later := ChunkFrames(ChunkRest(window) + more);
    assert returned + ChunkFrames(window) + later == returned + (ChunkFrames(window) + later);
  }

  lemma ReadOn(a: seq<byte>, b: seq<byte>, c: seq<byte>, bc: seq<byte>)
    requires b + c == bc
    ensures a + b + c == a + bc && a <= a + b
  {
    assert a + b + c == a + (b + c);
  }

  const NO_HDR: Hdr := Hdr(0, 0, 0, 0, 0, 0, 0, 0, 0)

  datatype Front = NeedMore | BadChecksum | TooBig | Taken

  /** One more chunk has been handed out, and hdr and the start of payloadBuf are its parts. */
  ghost predicate HandedOut(before: seq<seq<byte>>, after: seq<seq<byte>>, hdr: Hdr, payloadBuf: seq<byte>) {
    && |after| == |before| + 1 && before == after[..|before|]
    && |after[|before|]| >= HDR_SIZE
    && hdr.payloadLen <= |payloadBuf|
    && Decode(after[|before|]) == Chunk(hdr, payloadBuf[..hdr.payloadLen])
  }

  /** The verdict on a window that holds a whole chunk is the outcome of its checksum. */
  lemma FrontIs(window: seq<byte>, hdr: Hdr, payload: seq<byte>)
    requires |window| >= HDR_SIZE && window[..4] == MAGIC && hdr == DecodeHdr(window)
    requires |window| >= HDR_SIZE + hdr.payloadLen && payload == window[HDR_SIZE..HDR_SIZE + hdr.payloadLen]
    ensures Classify(window) == if Crc(payload) == hdr.checksum then Valid(HDR_SIZE + hdr.payloadLen) else Dead(true)
    ensures Decode(window[..HDR_SIZE + hdr.payloadLen]) == Chunk(hdr, payload)
  {
    var n := HDR_SIZE + hdr.payloadLen;
    DecodeHdrPrefix(window[..n], window[n..]);
    assert window == window[..n] + window[n..];
    assert window[..n][HDR_SIZE..] == payload;
  }

  /** What was handed out is all that the simple parser finds in the stream. */
  ghost predicate AllHandedOut(stream: seq<byte>, returned: seq<seq<byte>>, fails: nat, window: seq<byte>) {
    ChunkFrames(stream) == returned && ChunkRest(stream) == window && BadHeaders(stream) == fails
  }

  /** With nothing decided in the window, what was handed out is all that the stream holds. */
  lemma Settled(stream: seq<byte>, returned: seq<seq<byte>>, fails: nat, window: seq<byte>)
    requires Agrees(stream, returned, fails, window) && Classify(window) == Undecided
    ensures AllHandedOut(stream, returned, fails, window)
  {
    ClassifyIsClassifier();
    assert returned + [] == returned;
  }

  lemma SliceOfFront(a: array<byte>, n: nat, i: nat, j: nat)
    requires i <= j <= n <= a.Length
    ensures a[..n][i..j] == a[i..j]
  {
  }

  class Stream {
    var buf: array<byte>
    var len: nat
    var link: Link
    var chunksRead: nat
    var bytesConsumed: nat
    var resyncDroppedBytes: nat
    var checksumFails: nat

    /** All bytes read from the link so far, and all chunks handed out so far. */
    ghost var stream: seq<byte>
    ghost var returned: seq<seq<byte>>

    ghost function Window(): seq<byte>
      reads this, buf
      requires len <= buf.Length
    {
      buf[..len]
    }

    ghost predicate Valid()
      reads this, buf
    {
      && LIMIT <= buf.Length
      && len <= buf.Length
      && Agrees(stream, returned, checksumFails, Window())
      && chunksRead == |returned|
      && bytesConsumed == TotalSize(returned)
      && |stream| == bytesConsumed + resyncDroppedBytes + len
    }

    /** The buffer must hold a chunk of the largest size. */
    constructor (link: Link, buf: array<byte>)
      requires LIMIT <= buf.Length
      ensures Valid() && this.link == link && this.buf == buf
      ensures |stream| == |returned| == len == 0
      ensures chunksRead == bytesConsumed == resyncDroppedBytes == checksumFails == 0
    {
      this.link, this.buf, this.len := link, buf, 0;
      chunksRead, bytesConsumed, resyncDroppedBytes, checksumFails := 0, 0, 0, 0;
      stream, returned := buf[..0], [];
      new;
      AgreesAtStart(stream, returned, checksumFails, Window());
    }

    /** memchr() over buf[from..to). */
    method FindByte(b: byte, from: nat, to: nat) returns (p: nat)
      requires from <= to <= buf.Length
      ensures from <= p <= to && (p < to ==> buf[p] == b)
      ensures forall i :: from <= i < p ==> buf[i] != b
    {
      p := from;
      while p < to && buf[p] != b
        invariant from <= p <= to
        invariant forall i :: from <= i < p ==> buf[i] != b
      {
        p := p + 1;
      }
    }

    /** How many bytes at the front are junk for certain. */
    method ScanForMagic() returns (junk: nat)
      requires len <= buf.Length
      ensures junk <= len
      ensures AllDead(Window(), junk)
      ensures len <= junk + 3 || Window()[junk..][..4] == MAGIC
    {
      var i := 0;
      while len - i >= 4
        invariant 0 <= i <= len && (i > 0 ==> i + 3 <= len)
        invariant forall k :: 0 <= k < i ==> Classify(Window()[k..]) == Dead(false)
      {
        var p := FindByte(MAGIC[0], i, len - 3);
        forall k | i <= k < p
          ensures Classify(Window()[k..]) == Dead(false)
        {
          assert Window()[k..][..4][0] == buf[k];
        }
        i := p;
        if p == len - 3 {
          break;
        }
        assert Window()[p..][..4] == buf[p..p + 4];
        if buf[p..p + 4] == MAGIC {
          return p;
        }
        assert Classify(Window()[p..]) == Dead(false);
        i := i + 1;
      }
      junk := if len >= 3 then len - 3 else 0;
    }

    /** memmove() of the rest of the window to the front. */
    method Drop(k: nat)
      requires len <= buf.Length && k <= len
      modifies this`len, buf
      ensures len == old(len) - k && Window() == old(Window())[k..]
    {
      ghost var before := buf[..];
      for i := 0 to len - k
        invariant len == old(len)
        invariant forall j :: 0 <= j < i ==> buf[j] == before[j + k]
        invariant forall j :: i <= j < buf.Length ==> buf[j] == before[j]
      {
        buf[i] := buf[i + k];
      }
      len := len - k;
    }

    /** Drops everything in front of the next chunk magic. */
    method DropJunk()
      requires Valid()
      modifies this`len, this`resyncDroppedBytes, buf
      ensures Valid()
      ensures len <= old(len)
      ensures len <= 3 || Window()[..4] == MAGIC
    {
      hide Agrees, AllDead;
      var junk := ScanForMagic();
      ghost var window := Window();
      if junk > 0 {
        AgreesAfterJunk(stream, returned, checksumFails, window, junk);
        Drop(junk);
        resyncDroppedBytes := resyncDroppedBytes + junk;
      }
    }

    /** Appends what the link has right now. */
    method Fill() returns (added: bool)
      requires Valid() && buf.Length > len
      modifies this`len, this`stream, link`unread, link`sizes, buf
      ensures Valid()
      ensures old(stream) <= stream && stream + link.unread == old(stream + link.unread)
      ensures !added ==> link.unread == old(link.unread) && len == old(len) && Window() == old(Window())
      ensures added ==> |link.unread| + len == |old(link.unread)| + old(len) && len > old(len)
    {
      hide Agrees;
      ghost var window, unread := Window(), link.unread;
      var n := link.Read(buf, len);
      if n <= 0 {
        assert Window() == window;
        return false;
      }
      ghost var more := unread[..n];
      assert buf[..len + n] == window + more by {
        assert buf[..len + n] == buf[..len] + buf[len..len + n];
      }
      ReadOn(stream, more, unread[n..], unread);
      AgreesAfterRead(stream, returned, checksumFails, window, more);
      stream := stream + more;
      len := len + n;
      added := true;
    }

    /** The part of the loop that looks at the header in front, once the junk is gone. */
    method TakeFront(payloadBuf: array<byte>) returns (front: Front, hdr: Hdr)
      requires Valid() && payloadBuf != buf
      requires len <= 3 || Window()[..4] == MAGIC
      modifies this`len, this`chunksRead, this`bytesConsumed, this`resyncDroppedBytes, this`checksumFails,
               this`returned, buf, payloadBuf
      ensures Valid()
      ensures front != Taken ==> returned == old(returned)
      ensures front == NeedMore ==> Classify(Window()) == Undecided && len == old(len) < LIMIT
      ensures front == BadChecksum ==>
                && len == old(len) - 4 && Window() == old(Window())[4..]
                && checksumFails == old(checksumFails) + 1 && resyncDroppedBytes == old(resyncDroppedBytes) + 4
      ensures front == TooBig ==> payloadBuf.Length < hdr.payloadLen
      ensures front == Taken ==> HandedOut(old(returned), returned, hdr, payloadBuf[..]) && len < old(len)
    {
      hide Agrees, ChunkWire.DecodeHdr, Crc16.Value, Crc16.CrcState;
      hdr := NO_HDR;
      front := NeedMore;
      ghost var window := Window();
      if len < HDR_SIZE {
        return;
      }
      hdr := DecodeHdr(buf[..HDR_SIZE]);
      DecodeHdrPrefix(buf[..HDR_SIZE], buf[HDR_SIZE..len]);
      assert window == buf[..HDR_SIZE] + buf[HDR_SIZE..len];
      var need := HDR_SIZE + hdr.payloadLen;
      if len < need {
        return;
      }
      if hdr.payloadLen > payloadBuf.Length {
        front := TooBig;
        return;
      }
      var crc := ComputeCrc(buf, HDR_SIZE, hdr.payloadLen);
      ghost var payload := buf[HDR_SIZE..need];
      SliceOfFront(buf, len, HDR_SIZE, need);
      FrontIs(window, hdr, payload);
      if Value(crc) != hdr.checksum {
        RejectFront();
        front := BadChecksum;
        return;
      }
      Copy(payloadBuf, hdr.payloadLen);
      AcceptFront(need);
      front := Taken;
    }

    /** The checksum failed: only the magic is dropped. */
    method RejectFront()
      requires Valid() && len >= HDR_SIZE && Classify(Window()) == Dead(true)
      modifies this`len, this`resyncDroppedBytes, this`checksumFails, buf
      ensures Valid() && len == old(len) - 4 && Window() == old(Window())[4..]
      ensures checksumFails == old(checksumFails) + 1 && resyncDroppedBytes == old(resyncDroppedBytes) + 4
    {
      hide Agrees, ChunkWire.Classify;
      AgreesAfterBad(stream, returned, checksumFails, Window());
      checksumFails := checksumFails + 1;
      Drop(4);
      resyncDroppedBytes := resyncDroppedBytes + 4;
    }

    method AcceptFront(need: nat)
      requires Valid() && need <= len && Classify(Window()) == Verdict.Valid(need)
      modifies this`len, this`chunksRead, this`bytesConsumed, this`returned, buf
      ensures Valid() && returned == old(returned) + [old(Window())[..need]]
    {
      hide Agrees, ChunkWire.Classify;
      ghost var frame := Window()[..need];
      AgreesAfterGood(stream, returned, checksumFails, Window(), need);
      Drop(need);
      chunksRead := chunksRead + 1;
      bytesConsumed := bytesConsumed + need;
      returned := returned + [frame];
      assert returned[..|returned| - 1] == old(returned);
    }

    /** memcpy() of the payload behind the header in front. */
    method Copy(payloadBuf: array<byte>, n: nat)
      requires payloadBuf != buf && n <= payloadBuf.Length && HDR_SIZE + n <= buf.Length
      modifies payloadBuf
      ensures payloadBuf[..n] == buf[HDR_SIZE..HDR_SIZE + n]
    {
      forall i | 0 <= i < n {
        payloadBuf[i] := buf[HDR_SIZE + i];
      }
    }

    /**
     ar8030_chunk_stream_read(): 1 with a chunk, 0 when nothing more can be had right now,
     -1 when payloadBuf is too small for the chunk in front.
     */
    method Read(payloadBuf: array<byte>) returns (ret: int, hdr: Hdr)
      requires Valid() && payloadBuf != buf
      modifies this`len, this`chunksRead, this`bytesConsumed, this`resyncDroppedBytes, this`checksumFails,
               this`stream, this`returned, link, buf, payloadBuf
      ensures Valid() && -1 <= ret <= 1
      ensures old(stream) <= stream && stream + link.unread == old(stream + link.unread)
      ensures ret == 1 ==> HandedOut(old(returned), returned, hdr, payloadBuf[..])
      ensures ret != 1 ==> returned == old(returned)
      ensures ret == 0 && !link.stopSeen ==> AllHandedOut(stream, returned, checksumFails, Window())
      ensures ret == 0 && !link.stopSeen ==> len < LIMIT
      ensures ret == -1 ==> payloadBuf.Length < hdr.payloadLen
      ensures ret == 1 ==> 2 * |link.unread| + len < old(2 * |link.unread| + len)
    {
      hide Agrees, AllHandedOut, HandedOut, ChunkWire.Classify;
      hdr := NO_HDR;
      while true
        invariant Valid() && returned == old(returned)
        invariant old(stream) <= stream && stream + link.unread == old(stream + link.unread)
        invariant 2 * |link.unread| + len <= old(2 * |link.unread| + len)
        decreases 2 * |link.unread| + len
      {
        var stop := link.Stopped();
        if stop {
          return 0, hdr;
        }
        if len >= 4 {
          DropJunk();
        }
        var front;
        front, hdr := TakeFront(payloadBuf);
        match front
        case Taken => return 1, hdr;
        case TooBig => return -1, hdr;
        case BadChecksum =>
        case NeedMore =>
          var added := Fill();
          if !added {
            Settled(stream, returned, checksumFails, Window());
            return 0, hdr;
          }
      }
    }
  }
  /**
   Once the reader has run dry, what it handed out are the stretches of the stream at the
   one list of offsets that is leftmost, greedy and complete.
   */
  lemma DrainedIsGreedy(stream: seq<byte>, returned: seq<seq<byte>>, fails: nat, window: seq<byte>,
                        starts: seq<nat>, horizon: nat)
    requires AllHandedOut(stream, returned, fails, window)
    requires LeftmostGreedy(Classify, stream, 0, starts, horizon)
    ensures AreStretches(Classify, stream, starts, returned)
    ensures window == stream[horizon..]
  {
    hide ChunkWire.Classify, LeftmostGreedy, AreStretches;
    ClassifyIsClassifier();
    GreedyIff(Classify, stream, starts, horizon);
    RestAtHorizon(Classify, stream, 0);
    assert stream[0..] == stream;
  }

  /**
   Every chunk that starts LIMIT bytes before the end of what was read has been handed out,
   unless an earlier one that was covers its start.
   */
  lemma NothingHeldBack(stream: seq<byte>, returned: seq<seq<byte>>, fails: nat, window: seq<byte>, p: nat)
    requires AllHandedOut(stream, returned, fails, window)
    requires StartsFrame(Classify, stream, p) && p + LIMIT <= |stream|
    ensures exists starts, horizon ::
      LeftmostGreedy(Classify, stream, 0, starts, horizon) && AreStretches(Classify, stream, starts, returned)
      && (p in starts || Covered(Classify, stream, starts, p))
  {
    hide ChunkWire.Classify, LeftmostGreedy, AreStretches, Covered, StartsFrame;
    ClassifyIsClassifier();
    forall t: seq<byte> | |t| >= LIMIT
      ensures Classify(t) != Undecided
    {
      ClassifyIsBounded(t);
    }
    BoundedResync(Classify, stream, LIMIT, p);
    GreedyIff(Classify, stream, [], 0);
  }
}
