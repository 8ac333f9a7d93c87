/**
 What a display gets to know of a frame: the timing SEI of the receive loop of rx/main.c, as
 its reader common/timing_sei.c finds it, and how true it is.
 */
module FrameTiming {
  import opened Bytes
  import opened AnnexB
  import opened TimingSei
  import opened SeiSearch
  import opened SeiRoundTrip
  import opened Reassembly
  import opened ChunkWire
  import opened ChunkStream
  import opened Receiver
  import opened Forwarding
  import opened ReceiveLoop
  import ClockSync
  import ClockBounds

  /**
   The frame is younger than half a wrap of its 32-bit time, less what the estimate may be off,
   and no time is beyond 2^63 us.
   */
  predicate InTime(t: Clock, theta: int, capture: u64)
    requires t.mapping.Some?
  {
    var m := t.mapping.value;
    && capture < 0x8000_0000_0000_0000
    && 0 <= t.rxDoneUs as int + m.offsetUs < 0x8000_0000_0000_0000
    && 0 <= capture as int - m.offsetUs < 0x8000_0000_0000_0000
    && 0 <= t.rxDoneUs as int + theta - capture as int < ClockBounds.HALF - m.uncertaintyUs as int - 1
  }

  /**
   With honest replies in the window and a frame that is young enough, the capture time worked
   out is the true one on the ground clock to within the uncertainty next to it and 1 us.
   */
  lemma CaptureIsTrue(framePts: u32, t: Clock, rs: seq<ClockSync.Reply>, theta: int, capture: u64)
    requires t.mapping.Some? && InTime(t, theta, capture) && framePts == capture % 0x1_0000_0000
    requires ClockBounds.HonestWindow(ClockSync.OnReplies(ClockSync.INITIAL, rs).window, theta)
    requires ClockSync.IsEstimate(ClockSync.OnReplies(ClockSync.INITIAL, rs).window,
                                  t.mapping.value.offsetUs, t.mapping.value.uncertaintyUs)
    ensures var m := t.mapping.value;
      && ClockSync.Abs(CaptureOf(framePts, t) as int - (capture as int - theta)) <= m.uncertaintyUs + 1
      && m.uncertaintyUs <= 125000
  {
    hide ClockSync.IsEstimate, ClockSync.OnReplies, ClockBounds.UnwrapAirPts;
    var m := t.mapping.value;
    ClockBounds.CaptureTime(rs, theta, m.offsetUs, m.uncertaintyUs, capture, t.rxDoneUs);
    InWord(t.rxDoneUs as int + m.offsetUs);
    InWord(capture as int - m.offsetUs);
  }

  /** And so is the one in the stamp of the frame that h starts, whatever it counts as lost. */
  lemma StampIsTrue(h: Hdr, t: Clock, lost: u32, rs: seq<ClockSync.Reply>, theta: int, capture: u64)
    requires t.mapping.Some? && InTime(t, theta, capture) && h.framePts == capture % 0x1_0000_0000
    requires ClockBounds.HonestWindow(ClockSync.OnReplies(ClockSync.INITIAL, rs).window, theta)
    requires ClockSync.IsEstimate(ClockSync.OnReplies(ClockSync.INITIAL, rs).window,
                                  t.mapping.value.offsetUs, t.mapping.value.uncertaintyUs)
    ensures var stamp := Stamp(h.frameSeq, h.framePts, t, lost);
      && ClockSync.Abs(stamp.captureGroundUs as int - (capture as int - theta)) <= stamp.syncUncertaintyUs + 1
      && stamp.syncUncertaintyUs <= 125000 && stamp.frameSeq == h.frameSeq
  {
    hide ClockSync.IsEstimate, ClockSync.OnReplies, CaptureOf, InTime;
    CaptureIsTrue(h.framePts, t, rs, theta, capture);
  }

  /**
   This SEI is our timing for the frame numbered frameSeq, complete at that time, with a capture
   time as true as it says.
   */
  ghost predicate TrueStamp(sei: seq<byte>, frameSeq: u16, t: Clock, theta: int, capture: u64) {
    exists stamp: Timing, nalType: byte ::
      nalType < 64 && sei == Sei(stamp, nalType) && Tells(stamp, frameSeq, t, stamp.framesLost)
      && ClockSync.Abs(stamp.captureGroundUs as int - (capture as int - theta)) <= stamp.syncUncertaintyUs + 1
      && stamp.syncUncertaintyUs <= 125000
  }

  /** When the last chunk of the frame came in, the window was honest and the frame, taken at `capture`, young. */
  ghost predicate KnownInTime(g: Group, input: seq<Arrival>, replies: seq<ClockSync.Reply>, heard: seq<nat>,
                              theta: int, capture: u64)
  {
    && g.chunks != [] && g.first + |g.chunks| <= |input| == |heard|
    && g.chunks[0].hdr.framePts == capture % 0x1_0000_0000
    && var n := g.first + |g.chunks| - 1;
       && heard[n] <= |replies|
       && ClockBounds.HonestWindow(ClockSync.OnReplies(ClockSync.INITIAL, replies[..heard[n]]).window, theta)
       && (input[n].clock.mapping.Some? ==> InTime(input[n].clock, theta, capture))
  }

  /**
   Over a whole run of the receive loop: whenever an SEI goes out with a frame, and the replies
   then in the window are honest and the frame young enough, what it says of the capture is true.
   */
  lemma RunIsStamped(loop: Loop, k: nat, i: nat, theta: int, capture: u64)
    requires loop.Valid() && NoWrapAround(loop.input)
    requires var gs := Track(loop.input, loop.rx.reasm.buf.Length, loop.rx.wantSei).1;
             && k < |gs| && gs[k].complete && i < |gs[k].calls| && gs[k].calls[i].sei != []
             && KnownInTime(gs[k], loop.input, loop.replies, loop.heard, theta, capture)
    ensures var g := Track(loop.input, loop.rx.reasm.buf.Length, loop.rx.wantSei).1[k];
      && g.chunks != [] && g.first + |g.chunks| <= |loop.input|
      && TrueStamp(g.calls[i].sei, g.chunks[0].hdr.frameSeq, loop.input[g.first + |g.chunks| - 1].clock, theta, capture)
  {
    hide *;
    HeardSoFar(loop);
    InputIsStamped(loop.input, loop.rx.reasm.buf.Length, loop.rx.wantSei, loop.replies, loop.heard, k, i, theta,
                   capture);
  }

  lemma HeardSoFar(loop: Loop)
    requires loop.Valid()
    ensures Heard(loop.input, loop.replies, loop.heard)
  {
    hide Heard, Took, AllCalls, CallPackets, Agrees, ClockSync.OnReplies, ClockSync.Sync.Valid;
  }

  lemma InputIsStamped(input: seq<Arrival>, cap: nat, wantSei: bool, replies: seq<ClockSync.Reply>, heard: seq<nat>,
                       k: nat, i: nat, theta: int, capture: u64)
    requires NoWrapAround(input) && Heard(input, replies, heard)
    requires var gs := Track(input, cap, wantSei).1;
             && k < |gs| && gs[k].complete && i < |gs[k].calls| && gs[k].calls[i].sei != []
             && KnownInTime(gs[k], input, replies, heard, theta, capture)
    ensures var g := Track(input, cap, wantSei).1[k];
      && g.chunks != [] && g.first + |g.chunks| <= |input|
      && TrueStamp(g.calls[i].sei, g.chunks[0].hdr.frameSeq, input[g.first + |g.chunks| - 1].clock, theta, capture)
  {
    hide Track, AllCalls, ClockSync.OnReplies, Knows, Heard, Done, Payloads, InTime, ClockBounds.HonestWindow;
    hide TrueStamp;
    ForwardingConserves(input, cap, wantSei);
    var g := Track(input, cap, wantSei).1[k];
    assert GroupOk(g, input, cap, wantSei);
    GroupIsStamped(g, input, replies, heard, wantSei, i, theta, capture);
  }

  lemma GroupIsStamped(g: Group, input: seq<Arrival>, replies: seq<ClockSync.Reply>, heard: seq<nat>, wantSei: bool,
                       i: nat, theta: int, capture: u64)
    requires KnownInTime(g, input, replies, heard, theta, capture) && Heard(input, replies, heard)
    requires Done(g, wantSei, input[g.first + |g.chunks| - 1].clock)
    requires i < |g.calls| && g.calls[i].sei != []
    ensures TrueStamp(g.calls[i].sei, g.chunks[0].hdr.frameSeq, input[g.first + |g.chunks| - 1].clock, theta, capture)
  {
    hide ClockSync.IsEstimate, ClockSync.OnReplies, InTime, TrueStamp, ClockBounds.HonestWindow, Done, CaptureOf, Sei;
    var n := g.first + |g.chunks| - 1;
    var t, known := input[n].clock, replies[..heard[n]];
    SeiIsStamp(g, wantSei, t, i);
    assert Knows(t, known);
    var h := g.chunks[0].hdr;
    var lost: u32, vcl: bool :| g.calls[i].sei == Sei(Stamp(h.frameSeq, h.framePts, t, lost), SeiType(vcl));
    StampIsTrue(h, t, lost, known, theta, capture);
    StampTells(h.frameSeq, h.framePts, t, lost);
    IsTrueStamp(Stamp(h.frameSeq, h.framePts, t, lost), SeiType(vcl), t, theta, capture);
  }

  lemma IsTrueStamp(stamp: Timing, nalType: byte, t: Clock, theta: int, capture: u64)
    requires nalType < 64 && Tells(stamp, stamp.frameSeq, t, stamp.framesLost) && stamp.syncUncertaintyUs <= 125000
    requires ClockSync.Abs(stamp.captureGroundUs as int - (capture as int - theta)) <= stamp.syncUncertaintyUs + 1
    ensures TrueStamp(Sei(stamp, nalType), stamp.frameSeq, t, theta, capture)
  {
    hide Sei;
  }

  /** The SEI is the stamp of the frame that h starts, completed at t. */
  ghost predicate IsStamp(sei: seq<byte>, h: Hdr, t: Clock) {
    t.mapping.Some? && exists lost: u32, vcl: bool :: sei == Sei(Stamp(h.frameSeq, h.framePts, t, lost), SeiType(vcl))
  }

  lemma SeiIsStamp(g: Group, wantSei: bool, t: Clock, i: nat)
    requires Done(g, wantSei, t) && i < |g.calls| && g.calls[i].sei != []
    ensures IsStamp(g.calls[i].sei, g.chunks[0].hdr, t)
  {
    hide Closed, Payloads, Parts, InOrder, EndIsLost, HasEnd, SentSlice, Sei, Stamp, SlicePos;
    var k :| && 0 <= k <= |g.calls| && Early(g, g.calls[..k])
             && Ends(g.calls[..k], g.calls[k..], g.chunks[0].hdr, t, Due(wantSei, t));
    assert forall j :: 0 <= j < k ==> g.calls[..k][j] == g.calls[j];
    assert i >= k;
    assert g.calls[k..][i - k] == g.calls[i];
    assert SeiPlaced(g.calls[..k], g.calls[k..][i - k], g.chunks[0].hdr, t);
  }

  lemma InWord(x: int)
    requires 0 <= x < 0x8000_0000_0000_0000
    ensures ClockBounds.Wrapped(x) == x
  {
  }

  /** A message of ours ahead of the first slice. */
  function OwnBefore(s: seq<byte>): Option<Timing> {
    if SlicePos(s) == None then None else ParseUpTo(s, FindStart(s, 0), false, SlicePos(s).value)
  }

  /**
   A frame sent in one go: it is one call, and with a slice and room for it the SEI is inside.
   The display then finds the timing in the access unit as sent, unless the frame came with a
   message of ours.
   */
  lemma WholeFrameIsStamped(rx: RxState, cap: nat, t: Clock)
    requires rx.fwdOff == 0 && !rx.fwdVcl && t.mapping.Some?
    ensures var calls := LastCalls(rx, cap, SeiFor(rx, true, t));
      && |calls| == 1 && calls[0].auEnd
      && (calls[0].sei != [] <==> SlicePos(rx.reasm.data).Some?
                                  && |rx.reasm.data| + |Sei(TimingOf(rx, t), PREFIX_SEI)| <= cap)
      && (calls[0].sei != [] && OwnBefore(rx.reasm.data) == None ==>
            Parse(BytesOf(calls[0])) == Some(TimingOf(rx, t)))
  {
    hide SlicePos, ParseUpTo, Parse, Sei, FindStart, TimingOf;
    var data := rx.reasm.data;
    StampVersion(rx, t);
    SlicePosInside(data);
    SeiIsThere(TimingOf(rx, t), PREFIX_SEI);
    if SlicePos(data).Some? {
      InsertThenParse(data, TimingOf(rx, t));
    }
  }

  lemma SeiIsThere(t: Timing, nalType: byte)
    requires nalType < 64
    ensures Sei(t, nalType) != []
  {
  }

  lemma {:induction false} ByteStreamAppend(a: seq<seq<byte>>, la: seq<bool>, b: seq<seq<byte>>, lb: seq<bool>)
    requires |a| == |la| && |b| == |lb|
    ensures ByteStream(a + b, la + lb) == ByteStream(a, la) + ByteStream(b, lb)
    decreases |a|
  {
    if a == [] {
      assert a + b == b && la + lb == lb;
    } else {
      ByteStreamAppend(a[1..], la[1..], b, lb);
      assert (a + b)[1..] == a[1..] + b && (la + lb)[1..] == la[1..] + lb;
      var head := StartBytes(la[0]) + a[0];
      assert head + (ByteStream(a[1..], la[1..]) + ByteStream(b, lb))
          == head + ByteStream(a[1..], la[1..]) + ByteStream(b, lb);
    }
  }

  lemma OneNal(nal: seq<byte>)
    ensures ByteStream([nal], [true]) == StartBytes(true) + nal
  {
    assert [nal][1..] == [] && ByteStream([], []) == [];
  }

  lemma StreamAround(a: seq<seq<byte>>, la: seq<bool>, nal: seq<byte>, b: seq<seq<byte>>, lb: seq<bool>)
    requires |a| == |la| && |b| == |lb|
    ensures ByteStream(a + [nal] + b, la + [true] + lb)
            == ByteStream(a, la) + (StartBytes(true) + nal + ByteStream(b, lb))
  {
    hide *;
    ByteStreamAppend(a, la, [nal], [true]);
    OneNal(nal);
    ByteStreamAppend(a + [nal], la + [true], b, lb);
    Regroup(ByteStream(a, la), StartBytes(true) + nal, ByteStream(b, lb));
  }

  /** The bytes of a list of calls, as they go out. */
  function BytesOfAll(calls: seq<Call>): seq<byte> {
    if calls == [] then [] else BytesOf(calls[0]) + BytesOfAll(calls[1..])
  }

  /** a are the NALs of the frame that have gone, b those that have not. */
  lemma BehindSlices(rx: RxState, cap: nat, t: Clock, a: seq<seq<byte>>, la: seq<bool>,
                               b: seq<seq<byte>>, lb: seq<bool>)
    requires |a| == |la| && |b| == |lb| && t.mapping.Some?
    requires forall k :: 0 <= k < |a| ==> AnnexB.Clean(a[k])
    requires forall k :: 0 <= k < |b| ==> AnnexB.Clean(b[k])
    requires forall k :: 0 <= k < |a| ==> |a[k]| >= 2
    requires rx.reasm.data == ByteStream(a, la) + ByteStream(b, lb) && rx.fwdOff == |ByteStream(a, la)| > 0
    requires (rx.fwdVcl <==> AnyVcl(a)) && ParseNals(a, false) == None
    ensures var calls := LastCalls(rx, cap, SeiFor(rx, true, t));
      && calls != [] && calls[|calls| - 1].auEnd
      && Parse(ByteStream(a, la) + BytesOfAll(calls)) == Some(TimingOf(rx, t))
  {
    hide ParseNals, Parse, SeiNal, AnnexB.Clean, AnyVcl, ByteStream, TimingOf, LastCalls, BytesOfAll;
    var stamp := TimingOf(rx, t);
    var nalType := SeiType(rx.fwdVcl);
    StampVersion(rx, t);
    SeiIsThere(stamp, nalType);
    LastBytes(rx, cap, Sei(stamp, nalType), ByteStream(b, lb));
    StreamAround(a, la, SeiNal(stamp, nalType), b, lb);
    SeiIsFound(a, b, la + [true] + lb, stamp, nalType);
  }

  function Flat<T>(parts: seq<seq<T>>): seq<T> {
    if parts == [] then [] else Flat(parts[..|parts| - 1]) + parts[|parts| - 1]
  }

  /** Each call carries whole NALs, behind start codes of either length. */
  predicate CarryNals(calls: seq<Call>, nals: seq<seq<seq<byte>>>, longs: seq<seq<bool>>) {
    && |nals| == |longs| == |calls|
    && forall i :: 0 <= i < |calls| ==>
         && |nals[i]| == |longs[i]| && calls[i].part == ByteStream(nals[i], longs[i])
         && forall k :: 0 <= k < |nals[i]| ==> AnnexB.Clean(nals[i][k])
  }

  /** Then the calls together carry all of them, and a slice has gone if one of them is a slice. */
  lemma {:induction false} CarriedNals(calls: seq<Call>, nals: seq<seq<seq<byte>>>, longs: seq<seq<bool>>)
    requires CarryNals(calls, nals, longs)
    ensures |Flat(nals)| == |Flat(longs)| && Parts(calls) == ByteStream(Flat(nals), Flat(longs))
    ensures forall k :: 0 <= k < |Flat(nals)| ==> AnnexB.Clean(Flat(nals)[k])
    ensures SentSlice(calls) <==> AnyVcl(Flat(nals))
    decreases |calls|
  {
    hide ByteStream, AnnexB.Clean, HasVcl, AnyVcl, SentSlice;
    if calls == [] {
      NothingCarried();
    } else {
      var n := |calls| - 1;
      CarriedNals(calls[..n], nals[..n], longs[..n]);
      ByteStreamAppend(Flat(nals[..n]), Flat(longs[..n]), nals[n], longs[n]);
      assert calls == calls[..n] + [calls[n]];
      SentSliceOne(calls[..n], calls[n]);
      PartHasVcl(calls[n].part, nals[n], longs[n]);
      AnyVclAppend(Flat(nals[..n]), nals[n]);
    }
  }

  lemma NothingCarried()
    ensures ByteStream([], []) == [] && !SentSlice([]) && !AnyVcl([])
  {
  }

  lemma PartHasVcl(part: seq<byte>, nals: seq<seq<byte>>, long: seq<bool>)
    requires |nals| == |long| && part == ByteStream(nals, long)
    requires forall k :: 0 <= k < |nals| ==> AnnexB.Clean(nals[k])
    ensures HasVcl(part) <==> AnyVcl(nals)
  {
    hide AnnexB.Clean, ByteStream, IsVcl;
    ScanClean(nals, long);
  }

  lemma AnyVclAppend(a: seq<seq<byte>>, b: seq<seq<byte>>)
    ensures AnyVcl(a + b) <==> AnyVcl(a) || AnyVcl(b)
  {
    hide IsVcl;
    if AnyVcl(a) {
      var i :| 0 <= i < |a| && IsVcl(a[i]);
      assert (a + b)[i] == a[i];
    }
    if AnyVcl(b) {
      var i :| 0 <= i < |b| && IsVcl(b[i]);
      assert (a + b)[|a| + i] == b[i];
    }
  }

  /**
   A frame passed on slice by slice, as the run has it: g is the record of what had gone when the
   last chunk came. If the encoder's slices are whole NALs, nals and then b, the display finds
   the timing in all that goes out for the frame, unless one of ours was among what had gone.
   */
  lemma StreamedFrameIsStamped(rx: RxState, cap: nat, t: Clock, s: State, g: Group, payload: seq<byte>,
                               nals: seq<seq<seq<byte>>>, longs: seq<seq<bool>>, b: seq<seq<byte>>, lb: seq<bool>)
    requires Holds(s, rx.fwdOff, rx.fwdVcl, g) && rx.reasm.data == s.data + payload
    requires rx.fwdOff > 0 && t.mapping.Some?
    requires CarryNals(g.calls, nals, longs)
    requires |b| == |lb| && rx.fwdOff <= |rx.reasm.data| && rx.reasm.data[rx.fwdOff..] == ByteStream(b, lb)
    requires forall k :: 0 <= k < |b| ==> AnnexB.Clean(b[k])
    ensures forall k :: 0 <= k < |Flat(nals)| ==> |Flat(nals)[k]| >= 2
    ensures var calls := LastCalls(rx, cap, SeiFor(rx, true, t));
      && calls != [] && calls[|calls| - 1].auEnd
      && (ParseNals(Flat(nals), false) == None ==>
            Parse(Parts(g.calls) + BytesOfAll(calls)) == Some(TimingOf(rx, t)))
  {
    hide ParseNals, Parse, AnyVcl, SentSlice, ByteStream, TimingOf, LastCalls, SeiFor, BytesOfAll, Payloads, Sliced;
    hide Parts, Flat, CarryNals, NoneEnds, InOrder, AllAt;
    CarriedNals(g.calls, nals, longs);
    SentAndUnsent(g, rx.fwdOff, rx.reasm.data, payload);
    CleanIsLong(Flat(nals));
    if ParseNals(Flat(nals), false) == None {
      BehindSlices(rx, cap, t, Flat(nals), Flat(longs), b, lb);
    }
    EndsWithSei(rx, cap, t);
  }

  lemma EndsWithSei(rx: RxState, cap: nat, t: Clock)
    requires 0 < rx.fwdOff <= |rx.reasm.data| && t.mapping.Some?
    ensures var calls := LastCalls(rx, cap, SeiFor(rx, true, t)); calls != [] && calls[|calls| - 1].auEnd
  {
    hide TimingOf, Sei, BytesOfAll;
    SeiIsThere(TimingOf(rx, t), SeiType(rx.fwdVcl));
    LastBytes(rx, cap, Sei(TimingOf(rx, t), SeiType(rx.fwdVcl)), rx.reasm.data[rx.fwdOff..]);
  }

  lemma StampVersion(rx: RxState, t: Clock)
    requires t.mapping.Some?
    ensures TimingOf(rx, t).version == VERSION
  {
  }

  /** The end of a frame that has begun to go out is its SEI and then the rest. */
  lemma LastBytes(rx: RxState, cap: nat, sei: seq<byte>, rest: seq<byte>)
    requires 0 < rx.fwdOff <= |rx.reasm.data| && rest == rx.reasm.data[rx.fwdOff..] && sei != []
    ensures var calls := LastCalls(rx, cap, sei);
      calls != [] && calls[|calls| - 1].auEnd && BytesOfAll(calls) == sei + rest
  {
    var calls := LastCalls(rx, cap, sei);
    assert BytesOf(calls[0]) == sei;
    if rest == [] {
      assert calls[1..] == [];
    } else {
      assert BytesOf(calls[1]) == rest;
      assert calls[1..] == [calls[1]] && calls[1..][1..] == [];
      assert BytesOfAll([calls[1]]) == rest + BytesOfAll([]);
    }
  }
}
