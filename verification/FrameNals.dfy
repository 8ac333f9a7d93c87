/**
 What an RTP receiver gets of a frame that the receive loop of rx/main.c has completed: its
 NALs, and the timing SEI at its place among them.
 */
module FrameNals {
  import opened Bytes
  import opened AnnexB
  import opened ChunkWire
  import opened ChunkStream
  import opened TimingSei
  import opened SeiSearch
  import opened SeiRoundTrip
  import opened Receiver
  import opened Forwarding
  import opened RtpReceive
  import opened FrameTiming
  import opened FrameMarker
  import opened ReceiveLoop
  import ClockSync
  import Rtp

  // Where the first slice is

  /** The place of the first slice in a list of NALs, or its length. */
  function FirstVcl(nals: seq<seq<byte>>): (k: nat)
    ensures k <= |nals|
  {
    if nals == [] || IsVcl(nals[0]) then 0 else 1 + FirstVcl(nals[1..])
  }

  /** Ahead of it there is none. */
  lemma {:induction false} FirstVclIsFirst(nals: seq<seq<byte>>)
    ensures var k := FirstVcl(nals); !AnyVcl(nals[..k]) && (k < |nals| <==> AnyVcl(nals))
    decreases |nals|
  {
    hide IsVcl;
    if nals != [] {
      var k := FirstVcl(nals);
      if k > 0 {
        FirstVclIsFirst(nals[1..]);
        assert nals[..k] == [nals[0]] + nals[1..][..k - 1] && nals == [nals[0]] + nals[1..];
        AnyVclAppend([nals[0]], nals[1..][..k - 1]);
        AnyVclAppend([nals[0]], nals[1..]);
      }
    }
  }

  /** timing_sei_insert() finds the start code of the first slice. */
  lemma {:induction false} SliceOfStream(s: seq<byte>, from: nat, nals: seq<seq<byte>>, long: seq<bool>)
    requires |nals| == |long| && from <= |s| && s[from..] == ByteStream(nals, long)
    requires forall k :: 0 <= k < |nals| ==> AnnexB.Clean(nals[k])
    ensures var k := FirstVcl(nals);
      FirstSlice(s, from) == if k < |nals| then Some(from + |ByteStream(nals[..k], long[..k])|) else None
    ensures nals != [] ==> StartCode(s, from) > 0
    decreases |nals|
  {
    hide StartCode, AnnexB.Clean, StartBytes, FirstSlice, IsVcl;
    if nals == [] {
      assert |s[from..]| == 0;
      NoSliceAtEnd(s, from);
    } else {
      Layout(s, from, StartBytes(long[0]), nals[0], ByteStream(nals[1..], long[1..]));
      var end := from + |StartBytes(long[0])| + |nals[0]|;
      SliceOfStream(s, end, nals[1..], long[1..]);
      SliceHere(s, from, long[0], nals[0]);
      HeadOfStream(nals, long, FirstVcl(nals));
    }
  }

  lemma HeadOfStream(nals: seq<seq<byte>>, long: seq<bool>, k: nat)
    requires |nals| == |long| && k <= |nals| && nals != []
    ensures |ByteStream(nals[..k], long[..k])|
            == if k == 0 then 0
               else |StartBytes(long[0])| + |nals[0]| + |ByteStream(nals[1..][..k - 1], long[1..][..k - 1])|
  {
    if k > 0 {
      assert nals[..k][1..] == nals[1..][..k - 1] && long[..k][1..] == long[1..][..k - 1];
    }
  }

  lemma NoSliceAtEnd(s: seq<byte>, from: nat)
    requires from == |s|
    ensures FirstSlice(s, from) == None
  {
  }

  /** One turn of the search over a clean NAL. */
  lemma SliceHere(s: seq<byte>, from: nat, long: bool, nal: seq<byte>)
    requires var st := from + |StartBytes(long)|;
      && st + |nal| <= |s| && s[from..st] == StartBytes(long) && s[st..st + |nal|] == nal
      && (st + |nal| == |s| || StartCode(s, st + |nal|) > 0)
    requires AnnexB.Clean(nal)
    ensures StartCode(s, from) > 0
    ensures FirstSlice(s, from)
            == if IsVcl(nal) then Some(from) else FirstSlice(s, from + |StartBytes(long)| + |nal|)
  {
    var st := from + |StartBytes(long)|;
    StartCodeHere(s, from, long);
    NalEnds(s, st, nal);
    assert s[st] == s[st..st + |nal|][0];
  }

  // One call

  /** The NALs of a call that carries these of the frame: the SEI goes in front of its first slice. */
  function CallNals(c: Call, nals: seq<seq<byte>>): seq<seq<byte>> {
    if |c.sei| < 4 then nals
    else
      var k := if c.part == [] then 0 else FirstVcl(nals);
      if k <= |nals| then nals[..k] + [c.sei[4..]] + nals[k..] else nals
  }

  ghost predicate IsOurs(sei: seq<byte>) {
    exists t: Timing, nalType: byte :: 32 <= nalType < 48 && sei == Sei(t, nalType)
  }

  /** The SEI of a call is one of ours, in front of the first slice of the part or without a part. */
  ghost predicate OursOrNone(c: Call) {
    c.sei != [] ==>
      && IsOurs(c.sei)
      && if c.part == [] then c.at == 0 else SlicePos(c.part) == Some(c.at)
  }

  lemma SeiIsCarried(t: Timing, nalType: byte)
    requires 32 <= nalType < 48
    ensures var sei := Sei(t, nalType);
      && |sei| >= 4 && sei[4..] == SeiNal(t, nalType) && sei == StartBytes(true) + sei[4..]
      && AnnexB.Clean(sei[4..]) && Carriable(sei[4..]) && !IsVcl(sei[4..])
  {
    hide Escape, Rbsp, Tidy;
    SeiIsSafe(t, nalType);
    assert Sei(t, nalType)[4..] == SeiNal(t, nalType);
  }

  lemma OurSei(sei: seq<byte>)
    requires IsOurs(sei)
    ensures |sei| >= 4 && sei == StartBytes(true) + sei[4..] && AllGood([sei[4..]]) && !IsVcl(sei[4..])
  {
    hide Sei, Tidy;
    var t: Timing, nalType: byte :| 32 <= nalType < 48 && sei == Sei(t, nalType);
    SeiIsCarried(t, nalType);
  }

  predicate AllGood(nals: seq<seq<byte>>) {
    forall k :: 0 <= k < |nals| ==> AnnexB.Clean(nals[k]) && Carriable(nals[k])
  }

  /** The call is a byte stream of these NALs. */
  lemma CallIsStream(c: Call, nals: seq<seq<byte>>, long: seq<bool>)
    requires |nals| == |long| && c.part == ByteStream(nals, long) && AllGood(nals) && OursOrNone(c)
    ensures AllGood(CallNals(c, nals))
    ensures exists l :: |l| == |CallNals(c, nals)| && BytesOf(c) == ByteStream(CallNals(c, nals), l)
  {
    hide AllGood, ByteStream, Sei, IsVcl, SlicePos, FirstVcl, BytesOf, IsOurs;
    if c.sei == [] {
      PlainBytes(c);
    } else {
      OurSei(c.sei);
      var k := if c.part == [] then 0 else FirstVcl(nals);
      PlaceOfSei(c, nals, long, k);
      StreamAround(nals[..k], long[..k], c.sei[4..], nals[k..], long[k..]);
      Regroup(ByteStream(nals[..k], long[..k]), c.sei, ByteStream(nals[k..], long[k..]));
      StillGood(nals, c.sei[4..], k);
      assert |long[..k] + [true] + long[k..]| == |CallNals(c, nals)|;
    }
  }

  lemma StillGood(nals: seq<seq<byte>>, nal: seq<byte>, k: nat)
    requires AllGood(nals) && AllGood([nal]) && k <= |nals|
    ensures AllGood(nals[..k] + [nal] + nals[k..])
  {
    hide AnnexB.Clean, Carriable;
    assert [nal][0] == nal;
  }

  /** The SEI goes in where the NALs from the first slice on begin. */
  lemma PlaceOfSei(c: Call, nals: seq<seq<byte>>, long: seq<bool>, k: nat)
    requires |nals| == |long| && c.part == ByteStream(nals, long) && AllGood(nals) && c.sei != []
    requires if c.part == [] then c.at == 0 && k == 0 else SlicePos(c.part) == Some(c.at) && k == FirstVcl(nals)
    ensures k <= |nals|
    ensures BytesOf(c) == ByteStream(nals[..k], long[..k]) + c.sei + ByteStream(nals[k..], long[k..])
  {
    hide AnnexB.Clean, Carriable, ByteStream, SlicePos, FirstVcl;
    var a, b := ByteStream(nals[..k], long[..k]), ByteStream(nals[k..], long[k..]);
    TwoHalves(nals, k);
    TwoHalves(long, k);
    ByteStreamAppend(nals[..k], long[..k], nals[k..], long[k..]);
    if c.part != [] {
      SliceOfAll(c.part, nals, long);
    }
    SplitAt(a, b, c.at);
  }

  lemma TwoHalves<T>(s: seq<T>, k: nat)
    requires k <= |s|
    ensures s == s[..k] + s[k..]
  {
  }

  lemma SplitAt(a: seq<byte>, b: seq<byte>, at: nat)
    requires |a| == at
    ensures (a + b)[..at] == a && (a + b)[at..] == b
  {
  }

  lemma SliceOfAll(part: seq<byte>, nals: seq<seq<byte>>, long: seq<bool>)
    requires |nals| == |long| && part == ByteStream(nals, long) && part != []
    requires forall k :: 0 <= k < |nals| ==> AnnexB.Clean(nals[k])
    ensures var k := FirstVcl(nals);
      SlicePos(part) == if k < |nals| then Some(|ByteStream(nals[..k], long[..k])|) else None
  {
    hide AnnexB.Clean, ByteStream, FirstVcl, FirstSlice;
    assert part[0..] == part;
    SliceOfStream(part, 0, nals, long);
    assert nals != [] by {
      if nals == [] {
        NoBytes();
      }
    }
    StartAtZero(part);
  }

  lemma NoBytes()
    ensures ByteStream([], []) == []
  {
  }

  /** What a receiver makes of the call. */
  lemma CallBack(d: Depay, c: Call, nals: seq<seq<byte>>, long: seq<bool>, maxPayload: nat)
    requires |nals| == |long| && c.part == ByteStream(nals, long) && AllGood(nals) && OursOrNone(c)
    requires maxPayload >= 2 && |CallNals(c, nals)| <= Rtp.MAX_NALS
    ensures var got := TakeAll(d, PayloadsOf(CallItems(c, maxPayload)));
      got.nals == d.nals + CallNals(c, nals) && (d.fu == None ==> got.fu == None)
    ensures Rtp.FirstNals(BytesOf(c)) == CallNals(c, nals)
  {
    hide AnnexB.Clean, Carriable, ByteStream, OursOrNone, CallNals, Rtp.Items, TakeAll, PayloadsOf, BytesOf, NalsFrom;
    hide Headed;
    CallIsStream(c, nals, long);
    var all := CallNals(c, nals);
    var l :| |l| == |all| && BytesOf(c) == ByteStream(all, l);
    ScanClean(all, l);
    AllAreHeaded(all);
    ItemsBack(d, all, maxPayload, c.auEnd);
  }

  lemma AllAreHeaded(nals: seq<seq<byte>>)
    requires AllGood(nals)
    ensures Headed(nals) == nals && PlainTypes(nals)
  {
    hide Headed, Tidy;
    HeadedIff(nals);
  }

  // All calls

  /** The NALs of a list of calls, call by call. */
  function NalsOfCalls(calls: seq<Call>, nals: seq<seq<seq<byte>>>): seq<seq<byte>>
    requires |calls| == |nals|
  {
    if calls == [] then [] else CallNals(calls[0], nals[0]) + NalsOfCalls(calls[1..], nals[1..])
  }

  /** Each call carries whole NALs of the frame, and no more than the table holds. */
  ghost predicate Carry(calls: seq<Call>, nals: seq<seq<seq<byte>>>, longs: seq<seq<bool>>) {
    && CarryNals(calls, nals, longs)
    && forall i :: 0 <= i < |calls| ==>
         AllGood(nals[i]) && |CallNals(calls[i], nals[i])| <= Rtp.MAX_NALS
  }

  lemma {:induction false} CallsBack(d: Depay, calls: seq<Call>, nals: seq<seq<seq<byte>>>, longs: seq<seq<bool>>,
                                     maxPayload: nat)
    requires maxPayload >= 2 && Carry(calls, nals, longs) && forall i :: 0 <= i < |calls| ==> OursOrNone(calls[i])
    ensures var got := TakeAll(d, PayloadsOf(ItemsOf(calls, maxPayload)));
      got.nals == d.nals + NalsOfCalls(calls, nals) && (d.fu == None ==> got.fu == None)
    decreases |calls|
  {
    hide AnnexB.Clean, ByteStream, OursOrNone, CallNals, CallItems, TakeAll, PayloadsOf, AllGood;
    if calls == [] {
      NothingBack(d);
    } else {
      var here, later := CallItems(calls[0], maxPayload), ItemsOf(calls[1..], maxPayload);
      CallBack(d, calls[0], nals[0], longs[0], maxPayload);
      var d1 := TakeAll(d, PayloadsOf(here));
      CallsBack(d1, calls[1..], nals[1..], longs[1..], maxPayload);
      PayloadsAppend(here, later);
      TakeAllAppend(d, PayloadsOf(here), PayloadsOf(later));
      Regroup(d.nals, CallNals(calls[0], nals[0]), NalsOfCalls(calls[1..], nals[1..]));
    }
  }

  lemma NothingBack(d: Depay)
    ensures TakeAll(d, PayloadsOf([])) == d
  {
  }

  lemma PayloadsAppend(a: seq<Rtp.Item>, b: seq<Rtp.Item>)
    ensures PayloadsOf(a + b) == PayloadsOf(a) + PayloadsOf(b)
  {
  }

  lemma PacketsBack(calls: seq<Call>, maxPayload: nat, seqNo: u16, ssrc: u32)
    ensures var packets := CallPackets(seqNo, ssrc, maxPayload, calls);
      ValidPackets(packets) && PayloadsIn(packets) == PayloadsOf(ItemsOf(calls, maxPayload))
  {
    hide ItemsOf, CallPackets, ParsePacket;
    SameLength(seqNo, ssrc, maxPayload, calls);
    forall i | 0 <= i < |ItemsOf(calls, maxPayload)|
      ensures var p := CallPackets(seqNo, ssrc, maxPayload, calls)[i];
        |p| >= Rtp.HDR_LEN && ParsePacket(p).payload == ItemsOf(calls, maxPayload)[i].payload
    {
      PacketsCarryItems(seqNo, ssrc, maxPayload, calls, i);
    }
  }

  // A frame

  lemma {:induction false} FlatCons<T>(parts: seq<seq<T>>)
    requires parts != []
    ensures Flat(parts) == parts[0] + Flat(parts[1..])
    decreases |parts|
  {
    var n := |parts| - 1;
    if n == 0 {
      assert parts[..0] == [] && parts[1..] == [];
    } else {
      FlatCons(parts[..n]);
      assert parts[..n][1..] == parts[1..][..n - 1];
      Regroup(parts[0], Flat(parts[1..][..n - 1]), parts[n]);
    }
  }

  lemma FlatNone<T>()
    ensures Flat<T>([]) == []
  {
  }

  lemma {:induction false} FlatSplit<T>(parts: seq<seq<T>>, k: nat)
    requires k <= |parts|
    ensures Flat(parts) == Flat(parts[..k]) + Flat(parts[k..])
    decreases k
  {
    hide Flat;
    if k == 0 {
      assert parts[..0] == [] && parts[0..] == parts;
      FlatNone<T>();
    } else {
      FlatCons(parts);
      FlatCons(parts[..k]);
      assert parts[..k][1..] == parts[1..][..k - 1] && parts[1..][k - 1..] == parts[k..];
      FlatSplit(parts[1..], k - 1);
      Regroup(parts[0], Flat(parts[1..][..k - 1]), Flat(parts[k..]));
    }
  }

  /** Calls without an SEI. */
  predicate NoSei(calls: seq<Call>) {
    forall i :: 0 <= i < |calls| ==> calls[i].sei == []
  }

  lemma {:induction false} PlainNals(calls: seq<Call>, nals: seq<seq<seq<byte>>>)
    requires |calls| == |nals| && NoSei(calls)
    ensures NalsOfCalls(calls, nals) == Flat(nals)
    decreases |calls|
  {
    if calls != [] {
      PlainNals(calls[1..], nals[1..]);
      FlatCons(nals);
    }
  }

  lemma {:induction false} NalsOfAppend(a: seq<Call>, an: seq<seq<seq<byte>>>, b: seq<Call>, bn: seq<seq<seq<byte>>>)
    requires |a| == |an| && |b| == |bn|
    ensures NalsOfCalls(a + b, an + bn) == NalsOfCalls(a, an) + NalsOfCalls(b, bn)
    decreases |a|
  {
    hide CallNals;
    if a == [] {
      assert a + b == b && an + bn == bn;
    } else {
      assert (a + b)[1..] == a[1..] + b && (an + bn)[1..] == an[1..] + bn;
      NalsOfAppend(a[1..], an[1..], b, bn);
      Regroup(CallNals(a[0], an[0]), NalsOfCalls(a[1..], an[1..]), NalsOfCalls(b, bn));
    }
  }

  /** The NALs of the calls ahead of one, of that one, and of those behind. */
  lemma AroundCall(calls: seq<Call>, nals: seq<seq<seq<byte>>>, i: nat)
    requires |calls| == |nals| && i < |calls| && NoSei(calls[..i]) && NoSei(calls[i + 1..])
    ensures NalsOfCalls(calls, nals) == Flat(nals[..i]) + CallNals(calls[i], nals[i]) + Flat(nals[i + 1..])
    ensures Flat(nals) == Flat(nals[..i]) + nals[i] + Flat(nals[i + 1..])
  {
    hide CallNals, NalsOfCalls, Flat, NoSei;
    assert calls == calls[..i] + calls[i..] && nals == nals[..i] + nals[i..];
    NalsOfAppend(calls[..i], nals[..i], calls[i..], nals[i..]);
    PlainNals(calls[..i], nals[..i]);
    PlainNals(calls[i + 1..], nals[i + 1..]);
    FirstCall(calls[i..], nals[i..]);
    assert calls[i..][1..] == calls[i + 1..] && nals[i..][1..] == nals[i + 1..];
    Regroup(Flat(nals[..i]), CallNals(calls[i], nals[i]), Flat(nals[i + 1..]));
    FlatSplit(nals, i);
    FlatCons(nals[i..]);
    Regroup(Flat(nals[..i]), nals[i], Flat(nals[i + 1..]));
  }

  lemma FirstCall(calls: seq<Call>, nals: seq<seq<seq<byte>>>)
    requires |calls| == |nals| && calls != []
    ensures NalsOfCalls(calls, nals) == CallNals(calls[0], nals[0]) + NalsOfCalls(calls[1..], nals[1..])
  {
  }

  lemma InsertInside<T>(a: seq<T>, b: seq<T>, c: seq<T>, k: nat, x: T)
    requires k <= |b|
    ensures a + (b[..k] + [x] + b[k..]) + c
            == (a + b + c)[..|a| + k] + [x] + (a + b + c)[|a| + k..]
    ensures (a + b + c)[..|a| + k] == a + b[..k]
  {
  }

  /** The NALs of a frame with its SEI among them: a prefix ahead of all slices, or a suffix behind one. */
  ghost predicate WithSei(got: seq<seq<byte>>, all: seq<seq<byte>>, h: Hdr, t: Clock) {
    && t.mapping.Some?
    && exists k: nat, lost: u32, vcl: bool ::
         && k <= |all| && (vcl <==> AnyVcl(all[..k]))
         && got == all[..k] + [SeiNal(Stamp(h.frameSeq, h.framePts, t, lost), SeiType(vcl))] + all[k..]
  }

  /** A frame whose calls have an SEI, the one of call i. */
  lemma SeiAmongNals(calls: seq<Call>, nals: seq<seq<seq<byte>>>, longs: seq<seq<bool>>, i: nat, h: Hdr, t: Clock)
    requires Carry(calls, nals, longs) && i < |calls| && NoSei(calls[..i]) && NoSei(calls[i + 1..])
    requires calls[i].sei != [] && SeiPlaced(calls[..i], calls[i], h, t)
    ensures WithSei(NalsOfCalls(calls, nals), Flat(nals), h, t)
  {
    hide ByteStream, NalsOfCalls, Flat, NoSei, SlicePos, Stamp, Sei, SeiNal, IsVcl, SentSlice, AllGood, CallNals;
    hide FirstVcl, AnyVcl;
    AroundCall(calls, nals, i);
    var c, a, b := calls[i], Flat(nals[..i]), nals[i];
    var k := if c.part == [] then 0 else FirstVcl(b);
    var lost: u32 :| c.sei == Sei(Stamp(h.frameSeq, h.framePts, t, lost), SeiType(SentSlice(calls[..i])));
    SeiIsCarried(Stamp(h.frameSeq, h.framePts, t, lost), SeiType(SentSlice(calls[..i])));
    CallWithSei(c, b, k);
    InsertInside(a, b, Flat(nals[i + 1..]), k, c.sei[4..]);
    NoneAhead(b, k);
    AnyVclAppend(a, b[..k]);
    CarriedNals(calls[..i], nals[..i], longs[..i]);
    var all := Flat(nals);
    assert all[..|a| + k] == a + b[..k];
    assert AnyVcl(all[..|a| + k]) <==> SentSlice(calls[..i]);
  }

  lemma NoneAhead(nals: seq<seq<byte>>, k: nat)
    requires k == 0 || k == FirstVcl(nals)
    ensures k <= |nals| && !AnyVcl(nals[..k])
  {
    hide IsVcl;
    FirstVclIsFirst(nals);
  }

  lemma CallWithSei(c: Call, nals: seq<seq<byte>>, k: nat)
    requires |c.sei| >= 4 && k == if c.part == [] then 0 else FirstVcl(nals)
    ensures k <= |nals| && CallNals(c, nals) == nals[..k] + [c.sei[4..]] + nals[k..]
  {
  }

  /** At most one call of a completed frame has an SEI, and that is one of ours and at its place. */
  lemma SeisOf(g: Group, wantSei: bool, t: Clock) returns (k: nat)
    requires Done(g, wantSei, t)
    ensures k <= |g.calls| && NoSei(g.calls[..k]) && (k < |g.calls| ==> NoSei(g.calls[k + 1..]))
    ensures k < |g.calls| ==> SeiPlaced(g.calls[..k], g.calls[k], g.chunks[0].hdr, t)
  {
    hide Closed, Payloads, Parts, InOrder, EndIsLost, HasEnd, SeiPlaced, EarlyBytes, Due;
    k :| && 0 <= k <= |g.calls| && Early(g, g.calls[..k])
         && Ends(g.calls[..k], g.calls[k..], g.chunks[0].hdr, t, Due(wantSei, t));
    if k < |g.calls| {
      assert g.calls[k..][0] == g.calls[k];
      assert SeiPlaced(g.calls[..k], g.calls[k..][0], g.chunks[0].hdr, t);
    }
  }

  /** The call with the end is not empty, unless the frame is. */
  lemma LastIsNotEmpty(g: Group, wantSei: bool, t: Clock)
    requires Done(g, wantSei, t) && HasEnd(g.calls) && Payloads(g.chunks) != []
    ensures g.calls != []
    ensures var c := g.calls[|g.calls| - 1]; c.part != [] || c.sei != []
  {
    hide Closed, Payloads, Parts, InOrder, EndIsLost, SeiPlaced, EarlyBytes, Due, HasEnd, Ends;
    var k :| && 0 <= k <= |g.calls| && Early(g, g.calls[..k])
             && Ends(g.calls[..k], g.calls[k..], g.chunks[0].hdr, t, Due(wantSei, t));
    var calls := g.calls[k..];
    assert g.calls == g.calls[..k] + calls;
    EndsAppend(g.calls[..k], calls);
    SomeCall(calls);
    assert k == 0 ==> g.calls == calls;
    LastOfEnds(g.calls[..k], calls, g.chunks[0].hdr, t, Due(wantSei, t));
    assert g.calls[|g.calls| - 1] == calls[|calls| - 1];
  }

  lemma SomeCall(calls: seq<Call>)
    requires HasEnd(calls)
    ensures calls != []
  {
  }

  lemma LastOfEnds(before: seq<Call>, calls: seq<Call>, h: Hdr, t: Clock, due: bool)
    requires Ends(before, calls, h, t, due) && calls != [] && (before == [] ==> Parts(calls) != [])
    ensures var c := calls[|calls| - 1]; c.part != [] || c.sei != []
  {
    hide Parts, SeiPlaced;
    if before == [] && |calls| == 1 {
      assert calls == [calls[0]];
      PartsOne(calls[0]);
    }
  }

  /** Where NALs are sent, the last of them is. */
  lemma SomeAreSent(c: Call, nals: seq<seq<byte>>)
    requires AllGood(CallNals(c, nals)) && (c.sei != [] ==> |c.sei| >= 4)
    requires c.sei != [] || nals != []
    ensures LastIsSent(CallNals(c, nals))
  {
    hide AnnexB.Clean;
    var all := CallNals(c, nals);
    assert all != [];
    assert Carriable(all[|all| - 1]);
  }

  lemma EndIsMarked(g: Group, wantSei: bool, t: Clock, nals: seq<seq<seq<byte>>>, longs: seq<seq<bool>>)
    requires Done(g, wantSei, t) && HasEnd(g.calls) && Payloads(g.chunks) != [] && Carry(g.calls, nals, longs)
    requires forall i :: 0 <= i < |g.calls| ==> OursOrNone(g.calls[i])
    ensures g.calls != [] && LastIsSent(Rtp.FirstNals(BytesOf(g.calls[|g.calls| - 1])))
  {
    hide AnnexB.Clean, ByteStream, CallNals, Payloads, Done, HasEnd, LastIsSent, Rtp.FirstNals, AllGood, SlicePos;
    hide IsOurs, BytesOf;
    LastIsNotEmpty(g, wantSei, t);
    var n := |g.calls| - 1;
    var c := g.calls[n];
    CallBack(Depay([], None), c, nals[n], longs[n], 2);
    CallIsStream(c, nals[n], longs[n]);
    if c.sei != [] {
      OurSei(c.sei);
    } else if nals[n] == [] {
      NoBytes();
    }
    SomeAreSent(c, nals[n]);
  }

  lemma OursFromPlaced(g: Group, k: nat, t: Clock)
    requires g.chunks != [] && k <= |g.calls| && NoSei(g.calls[..k]) && (k < |g.calls| ==> NoSei(g.calls[k + 1..]))
    requires k < |g.calls| ==> SeiPlaced(g.calls[..k], g.calls[k], g.chunks[0].hdr, t)
    ensures forall i :: 0 <= i < |g.calls| ==> OursOrNone(g.calls[i])
    ensures forall i :: 0 <= i < |g.calls| && i != k ==> g.calls[i].sei == []
  {
    hide SentSlice, Stamp, Sei, SlicePos;
    forall i | 0 <= i < |g.calls|
      ensures OursOrNone(g.calls[i]) && (i != k ==> g.calls[i].sei == [])
    {
      if i < k {
        assert g.calls[..k][i] == g.calls[i];
      } else if i > k {
        assert g.calls[k + 1..][i - k - 1] == g.calls[i];
      }
    }
  }

  lemma NalsArrive(g: Group, wantSei: bool, t: Clock, nals: seq<seq<seq<byte>>>, longs: seq<seq<bool>>,
                   maxPayload: nat, seqNo: u16, ssrc: u32)
    requires Done(g, wantSei, t) && maxPayload >= 2 && Carry(g.calls, nals, longs)
    ensures var packets := CallPackets(seqNo, ssrc, maxPayload, g.calls);
      && ValidPackets(packets)
      && if NoSei(g.calls) then NalsOf(packets) == Flat(nals)
         else WithSei(NalsOf(packets), Flat(nals), g.chunks[0].hdr, t)
  {
    hide Done, Carry, SeiPlaced, OursOrNone, WithSei, CallPackets, PayloadsIn, PayloadsOf, TakeAll, ItemsOf, Flat;
    hide NalsOfCalls;
    var k := SeisOf(g, wantSei, t);
    HasChunks(g, wantSei, t);
    OursFromPlaced(g, k, t);
    CarryIs(g.calls, nals, longs);
    CallsBack(Depay([], None), g.calls, nals, longs, maxPayload);
    PacketsBack(g.calls, maxPayload, seqNo, ssrc);
    assert [] + NalsOfCalls(g.calls, nals) == NalsOfCalls(g.calls, nals);
    if NoSei(g.calls) {
      PlainNals(g.calls, nals);
    } else {
      SeiAmongNals(g.calls, nals, longs, k, g.chunks[0].hdr, t);
    }
  }

  lemma HasChunks(g: Group, wantSei: bool, t: Clock)
    requires Done(g, wantSei, t)
    ensures g.chunks != [] && Parts(g.calls) == Payloads(g.chunks)
  {
    hide Closed, Payloads, Parts, InOrder, EndIsLost, HasEnd, Ends, Early;
  }

  lemma CarryIs(calls: seq<Call>, nals: seq<seq<seq<byte>>>, longs: seq<seq<bool>>)
    requires Carry(calls, nals, longs)
    ensures |calls| == |nals| == |longs| && CarryNals(calls, nals, longs)
  {
    hide ByteStream, AnnexB.Clean, CallNals, AllGood;
  }

  lemma MarkersArrive(g: Group, wantSei: bool, t: Clock, nals: seq<seq<seq<byte>>>, longs: seq<seq<bool>>,
                      maxPayload: nat, seqNo: u16, ssrc: u32, i: nat)
    requires Done(g, wantSei, t) && maxPayload >= 2 && Carry(g.calls, nals, longs) && Payloads(g.chunks) != []
    requires i < |CallPackets(seqNo, ssrc, maxPayload, g.calls)|
    ensures var packets := CallPackets(seqNo, ssrc, maxPayload, g.calls);
      IsMarked(packets[i]) <==> HasEnd(g.calls) && i == |packets| - 1
  {
    hide Done, Carry, SeiPlaced, OursOrNone, CallPackets, HasEnd, IsMarked, LastIsSent, BytesOf, Rtp.FirstNals;
    hide Payloads, NoSei;
    var k := SeisOf(g, wantSei, t);
    HasChunks(g, wantSei, t);
    OursFromPlaced(g, k, t);
    FrameMarkerIff(g, wantSei, t, maxPayload, seqNo, ssrc);
    if HasEnd(g.calls) {
      EndIsMarked(g, wantSei, t, nals, longs);
    }
  }

  /** From these packets a receiver gets the NALs of the frame, its SEI among them, its end, and its time. */
  ghost predicate Arrives(packets: seq<seq<byte>>, g: Group, all: seq<seq<byte>>, t: Clock) {
    && g.chunks != [] && ValidPackets(packets)
    && (if NoSei(g.calls) then NalsOf(packets) == all
        else WithSei(NalsOf(packets), all, g.chunks[0].hdr, t))
    && (Payloads(g.chunks) != [] ==>
          forall i :: 0 <= i < |packets| ==> (IsMarked(packets[i]) <==> HasEnd(g.calls) && i == |packets| - 1))
    && Timed(packets, g.chunks[0].hdr.framePts)
  }

  /**
   For every completed frame of whole NALs, whether it was sent in one go or slice by slice: a
   receiver of its packets gets exactly its NALs, in order, and if an SEI went out with it, that
   SEI among them, ahead of every slice or, as a suffix, behind one. Unless the frame is empty,
   the last packet and no other is marked if the frame's end was sent, and none if it was not.
   The packets' time is the frame's capture time on a clock of 90 kHz.
   */
  lemma FrameArrives(g: Group, wantSei: bool, t: Clock, nals: seq<seq<seq<byte>>>, longs: seq<seq<bool>>,
                     maxPayload: nat, seqNo: u16, ssrc: u32)
    requires Done(g, wantSei, t) && maxPayload >= 2 && Carry(g.calls, nals, longs)
    requires g.chunks != [] && AllAt(g.calls, Ts(g.chunks[0].hdr.framePts))
    ensures |Flat(nals)| == |Flat(longs)| && Payloads(g.chunks) == ByteStream(Flat(nals), Flat(longs))
    ensures Arrives(CallPackets(seqNo, ssrc, maxPayload, g.calls), g, Flat(nals), t)
  {
    hide Done, Carry, CarryNals, CallPackets, HasEnd, IsMarked, Payloads, NoSei, NalsOf, WithSei, Flat, ByteStream;
    hide AllAt, Timed;
    var packets := CallPackets(seqNo, ssrc, maxPayload, g.calls);
    HasChunks(g, wantSei, t);
    CallsAreTimed(g.calls, g.chunks[0].hdr.framePts, maxPayload, seqNo, ssrc);
    CarryIs(g.calls, nals, longs);
    CarriedNals(g.calls, nals, longs);
    NalsArrive(g, wantSei, t, nals, longs, maxPayload, seqNo, ssrc);
    if Payloads(g.chunks) != [] {
      forall i | 0 <= i < |packets|
        ensures IsMarked(packets[i]) <==> HasEnd(g.calls) && i == |packets| - 1
      {
        MarkersArrive(g, wantSei, t, nals, longs, maxPayload, seqNo, ssrc, i);
      }
    }
  }

  // The time

  /** The RTP time is the time in us on a clock of 90 kHz, rounded down. */
  predicate OnClock(ts: u32, pts: u32) {
    1000 * ts as int <= 90 * pts as int < 1000 * (ts as int + 1)
  }

  /** Packets that all have the time of this frame. */
  predicate Timed(packets: seq<seq<byte>>, pts: u32) {
    forall i :: 0 <= i < |packets| ==>
      |packets[i]| >= Rtp.HDR_LEN && OnClock(ParsePacket(packets[i]).ts, pts)
  }

  lemma TsIsOnClock(pts: u32)
    ensures OnClock(Ts(pts), pts)
  {
  }

  lemma {:induction false} CallsAreTimed(calls: seq<Call>, pts: u32, maxPayload: nat, seqNo: u16, ssrc: u32)
    requires AllAt(calls, Ts(pts))
    ensures Timed(CallPackets(seqNo, ssrc, maxPayload, calls), pts)
    decreases |calls|
  {
    hide CallItems, ParsePacket, Rtp.PacketHeader, Rtp.NextSeq, OnClock, Ts;
    if calls != [] {
      var items := CallItems(calls[0], maxPayload);
      CallsAreTimed(calls[1..], pts, maxPayload, Rtp.NextSeq(seqNo, |items|), ssrc);
      TsIsOnClock(pts);
      forall i | 0 <= i < |items|
        ensures var p := Rtp.Packet(Rtp.NextSeq(seqNo, i), calls[0].ts, ssrc, items[i]);
          |p| >= Rtp.HDR_LEN && OnClock(ParsePacket(p).ts, pts)
      {
        ParseBack(Rtp.NextSeq(seqNo, i), calls[0].ts, ssrc, items[i]);
      }
    }
  }

  // In the receive loop

  lemma {:induction false} CallsAround(gs: seq<Group>, k: nat) returns (rest: seq<Call>)
    requires k < |gs|
    ensures CallsOf(gs) == CallsOf(gs[..k]) + (gs[k].calls + rest)
    decreases |gs|
  {
    var n := |gs| - 1;
    if k == n {
      rest := [];
      assert gs[k].calls + [] == gs[k].calls;
    } else {
      var more := CallsAround(gs[..n], k);
      rest := more + gs[n].calls;
      assert gs[..n][..k] == gs[..k];
      Regroup(CallsOf(gs[..k]), gs[k].calls + more, gs[n].calls);
      Regroup(gs[k].calls, more, gs[n].calls);
    }
  }

  /** The packets of one list of calls within those of all. */
  lemma PacketsAround(seqNo: u16, ssrc: u32, maxPayload: nat, a: seq<Call>, b: seq<Call>, c: seq<Call>)
    returns (seq1: u16, behind: seq<seq<byte>>)
    ensures CallPackets(seqNo, ssrc, maxPayload, a + (b + c))
            == CallPackets(seqNo, ssrc, maxPayload, a) + (CallPackets(seq1, ssrc, maxPayload, b) + behind)
  {
    hide CallPackets;
    seq1 := Rtp.NextSeq(seqNo, |CallPackets(seqNo, ssrc, maxPayload, a)|);
    behind := CallPackets(Rtp.NextSeq(seq1, |CallPackets(seq1, ssrc, maxPayload, b)|), ssrc, maxPayload, c);
    CallPacketsAppend(seqNo, ssrc, maxPayload, a, b + c);
    CallPacketsAppend(seq1, ssrc, maxPayload, b, c);
  }

  /** All that was given to the socket are the packets of the frames on record. */
  lemma LoopPackets(loop: Loop)
    requires loop.Valid() && NoWrapAround(loop.input)
    ensures var (rx, gs) := Track(loop.input, loop.rx.reasm.buf.Length, loop.rx.wantSei);
      && Fits(rx, gs, loop.input, loop.rx.reasm.buf.Length, loop.rx.wantSei)
      && loop.rx.rtp.socket.packets
         == loop.packets0 + CallPackets(loop.seq0, loop.rx.rtp.ssrc, loop.rx.rtp.maxPayload, CallsOf(gs))
  {
    hide Heard, Took, AllCalls, CallPackets, Agrees, ClockSync.OnReplies, ClockSync.Sync.Valid, Track, Fits, CallsOf;
    ForwardingConserves(loop.input, loop.rx.reasm.buf.Length, loop.rx.wantSei);
  }

  lemma RecordIsOk(rx: RxState, gs: seq<Group>, input: seq<Arrival>, cap: nat, wantSei: bool, k: nat)
    requires Fits(rx, gs, input, cap, wantSei) && k < |gs|
    ensures gs[k].chunks != [] && gs[k].first + |gs[k].chunks| <= |input|
    ensures AllAt(gs[k].calls, Ts(gs[k].chunks[0].hdr.framePts))
    ensures gs[k].complete ==> Done(gs[k], wantSei, input[gs[k].first + |gs[k].chunks| - 1].clock)
  {
    hide Done, Apart, Holds, AllAt, Payloads, Begun, Ts;
    assert GroupOk(gs[k], input, cap, wantSei);
  }

  lemma Within<T>(s: seq<T>, a: seq<T>, b: seq<T>, c: seq<T>, d: seq<T>)
    requires s == a + (b + (c + d))
    ensures |a| + |b| + |c| <= |s| && s[|a| + |b|..|a| + |b| + |c|] == c
  {
  }

  /** Packets i to j of what was given to the socket are those of frame k on record. */
  lemma LoopFrame(loop: Loop, k: nat) returns (i: nat, j: nat, seq1: u16)
    requires loop.Valid() && NoWrapAround(loop.input)
    requires k < |Track(loop.input, loop.rx.reasm.buf.Length, loop.rx.wantSei).1|
    ensures var g := Track(loop.input, loop.rx.reasm.buf.Length, loop.rx.wantSei).1[k];
      && i <= j <= |loop.rx.rtp.socket.packets|
      && loop.rx.rtp.socket.packets[i..j] == CallPackets(seq1, loop.rx.rtp.ssrc, loop.rx.rtp.maxPayload, g.calls)
  {
    hide Loop.Valid, Track, Fits, CallPackets, CallsOf;
    var rtp := loop.rx.rtp;
    LoopPackets(loop);
    var gs := Track(loop.input, loop.rx.reasm.buf.Length, loop.rx.wantSei).1;
    var rest := CallsAround(gs, k);
    var behind;
    seq1, behind := PacketsAround(loop.seq0, rtp.ssrc, rtp.maxPayload, CallsOf(gs[..k]), gs[k].calls, rest);
    var before := CallPackets(loop.seq0, rtp.ssrc, rtp.maxPayload, CallsOf(gs[..k]));
    var here := CallPackets(seq1, rtp.ssrc, rtp.maxPayload, gs[k].calls);
    Within(rtp.socket.packets, loop.packets0, before, here, behind);
    i := |loop.packets0| + |before|;
    j := i + |here|;
  }

  /**
   For every frame in a run of the receive loop, completed or not: its packets lie together among
   those given to the socket, and have its time.
   */
  lemma LoopFrameIsTimed(loop: Loop, k: nat) returns (i: nat, j: nat, seq1: u16)
    requires loop.Valid() && NoWrapAround(loop.input)
    requires k < |Track(loop.input, loop.rx.reasm.buf.Length, loop.rx.wantSei).1|
    ensures var g := Track(loop.input, loop.rx.reasm.buf.Length, loop.rx.wantSei).1[k];
      && g.chunks != [] && i <= j <= |loop.rx.rtp.socket.packets|
      && loop.rx.rtp.socket.packets[i..j] == CallPackets(seq1, loop.rx.rtp.ssrc, loop.rx.rtp.maxPayload, g.calls)
      && Timed(loop.rx.rtp.socket.packets[i..j], g.chunks[0].hdr.framePts)
  {
    hide Loop.Valid, Track, Fits, CallPackets, CallsOf, AllAt, Timed, Ts;
    i, j, seq1 := LoopFrame(loop, k);
    LoopPackets(loop);
    var (rx, gs) := Track(loop.input, loop.rx.reasm.buf.Length, loop.rx.wantSei);
    RecordIsOk(rx, gs, loop.input, loop.rx.reasm.buf.Length, loop.rx.wantSei, k);
    CallsAreTimed(gs[k].calls, gs[k].chunks[0].hdr.framePts, loop.rx.rtp.maxPayload, seq1, loop.rx.rtp.ssrc);
  }

  /**
   The same of the program: for every frame completed in a run of the receive loop, packets i to j
   of what was given to the socket are this frame, as a receiver gets it.
   */
  lemma LoopFrameArrives(loop: Loop, k: nat, nals: seq<seq<seq<byte>>>, longs: seq<seq<bool>>) returns (i: nat, j: nat)
    requires loop.Valid() && NoWrapAround(loop.input) && loop.rx.rtp.maxPayload >= 2
    requires var gs := Track(loop.input, loop.rx.reasm.buf.Length, loop.rx.wantSei).1;
             k < |gs| && gs[k].complete && Carry(gs[k].calls, nals, longs)
    ensures var g := Track(loop.input, loop.rx.reasm.buf.Length, loop.rx.wantSei).1[k];
      && i <= j <= |loop.rx.rtp.socket.packets|
      && g.chunks != [] && g.first + |g.chunks| <= |loop.input|
      && |Flat(nals)| == |Flat(longs)| && Payloads(g.chunks) == ByteStream(Flat(nals), Flat(longs))
      && Arrives(loop.rx.rtp.socket.packets[i..j], g, Flat(nals), loop.input[g.first + |g.chunks| - 1].clock)
  {
    hide Loop.Valid, Track, Fits, Carry, CallPackets, CallsOf, Flat, ByteStream, Payloads, Arrives, Done, AllAt, Ts;
    LoopPackets(loop);
    var (rx, gs) := Track(loop.input, loop.rx.reasm.buf.Length, loop.rx.wantSei);
    RecordIsOk(rx, gs, loop.input, loop.rx.reasm.buf.Length, loop.rx.wantSei, k);
    var seq1;
    i, j, seq1 := LoopFrame(loop, k);
    FrameArrives(gs[k], loop.rx.wantSei, loop.input[gs[k].first + |gs[k].chunks| - 1].clock, nals, longs,
                 loop.rx.rtp.maxPayload, seq1, loop.rx.rtp.ssrc);
  }
}
