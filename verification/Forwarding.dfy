/**
 What the receive loop of rx/main.c hands to the RTP sender, over whole runs: every completed
 frame exactly once, slices ahead of the rest, and of any other frame whole slices from its
 start.
 */
module Forwarding {
  import opened Bytes
  import opened ChunkWire
  import opened Reassembly
  import opened AnnexB
  import opened TimingSei
  import opened SeiSearch
  import opened Receiver

  /** A video chunk as it came in. */
  datatype Arrival = Arrival(chunk: Chunk, clock: Clock)

  /** The chunks of one frame that were taken, first being the place of the first, and all that was sent for it. */
  datatype Group = Group(first: nat, chunks: seq<Chunk>, calls: seq<Call>, complete: bool)

  /** The chunk is the next of the last frame, or the first of a new one. */
  function Grow(gs: seq<Group>, at: nat, c: Chunk, calls: seq<Call>, complete: bool): seq<Group> {
    if c.hdr.chunkIdx == 0 || gs == [] then gs + [Group(at, [c], calls, complete)]
    else
      var g := gs[|gs| - 1];
      gs[..|gs| - 1] + [Group(g.first, g.chunks + [c], g.calls + calls, complete)]
  }

  /** The receive loop, with a note of which chunks were taken together. */
  ghost function Track(input: seq<Arrival>, cap: nat, wantSei: bool): (r: (RxState, seq<Group>))
    ensures RxValid(r.0)
  {
    if input == [] then (RX_INITIAL, [])
    else
      var n := |input| - 1;
      var (rx, gs) := Track(input[..n], cap, wantSei);
      var c := input[n].chunk;
      var (st, complete) := Feed(rx.reasm, cap, c.hdr, c.payload);
      var (rx', calls) := Receive(rx, cap, wantSei, c, input[n].clock);
      (rx', if Taken(st, c.hdr) then Grow(gs, n, c, calls, complete) else gs)
  }

  /** The receive loop, and every call it makes. */
  ghost function AllCalls(input: seq<Arrival>, cap: nat, wantSei: bool): (r: (RxState, seq<Call>))
    ensures RxValid(r.0)
  {
    if input == [] then (RX_INITIAL, [])
    else
      var n := |input| - 1;
      var (rx, calls) := AllCalls(input[..n], cap, wantSei);
      var (rx', more) := Receive(rx, cap, wantSei, input[n].chunk, input[n].clock);
      (rx', calls + more)
  }

  function CallsOf(gs: seq<Group>): seq<Call> {
    if gs == [] then [] else CallsOf(gs[..|gs| - 1]) + gs[|gs| - 1].calls
  }

  /** The bytes of the frame in a list of calls. */
  function Parts(calls: seq<Call>): seq<byte> {
    if calls == [] then [] else Parts(calls[..|calls| - 1]) + calls[|calls| - 1].part
  }

  /** The frame is sent while it is still being encoded: its size is not known at its start. */
  predicate IsStreamed(h: Hdr) { HasFrameEnd(h.flags) || h.chunkCount == 0 }

  /** How many of the chunks of a frame lie before or in its last complete slice. */
  function Sliced(cs: seq<Chunk>): (n: nat)
    ensures n <= |cs|
  {
    if cs == [] then 0
    else if IsStreamed(cs[0].hdr) && HasSliceEnd(cs[|cs| - 1].hdr.flags) then |cs|
    else Sliced(cs[..|cs| - 1])
  }

  /** What each of its complete slices holds, but for empty ones. */
  function SliceParts(cs: seq<Chunk>): seq<seq<byte>> {
    if cs == [] then []
    else
      var before := cs[..|cs| - 1];
      var slice := Payloads(cs[Sliced(before)..]);
      SliceParts(before)
      + if IsStreamed(cs[0].hdr) && HasSliceEnd(cs[|cs| - 1].hdr.flags) && slice != [] then [slice] else []
  }

  /** The parts of the frame in a list of calls, one by one. */
  function CallParts(calls: seq<Call>): seq<seq<byte>> {
    seq(|calls|, i requires 0 <= i < |calls| => calls[i].part)
  }

  /** Chunks 0, 1, ... of one frame. */
  predicate InOrder(cs: seq<Chunk>) {
    forall i :: 0 <= i < |cs| ==> cs[i].hdr.chunkIdx == i && cs[i].hdr.frameSeq == cs[0].hdr.frameSeq
  }

  /** All have the count of a frame sent whole, or 0 for one still being encoded. */
  predicate Alike(cs: seq<Chunk>) {
    forall i :: 0 <= i < |cs| ==>
      cs[i].hdr.chunkCount == if IsStreamed(cs[0].hdr) then 0 else cs[0].hdr.chunkCount
  }

  /** The last chunk has the count of them all, and of a frame that was sent in parts the mark for its end. */
  predicate Closed(cs: seq<Chunk>) {
    && cs != [] && Alike(cs[..|cs| - 1]) && cs[|cs| - 1].hdr.chunkCount == |cs|
    && if IsStreamed(cs[0].hdr) then HasFrameEnd(cs[|cs| - 1].hdr.flags) else cs[0].hdr.chunkCount == |cs|
  }

  ghost predicate SentSlice(calls: seq<Call>) {
    exists i :: 0 <= i < |calls| && HasVcl(calls[i].part)
  }

  predicate NoneEnds(calls: seq<Call>) {
    forall i :: 0 <= i < |calls| ==> !calls[i].auEnd && calls[i].sei == []
  }

  predicate AllAt(calls: seq<Call>, ts: u32) {
    forall i :: 0 <= i < |calls| ==> calls[i].ts == ts
  }

  /** The frame whose chunks these are is not complete: what went out are its whole slices, one by one, and no end. */
  ghost predicate Begun(g: Group) {
    && !g.complete && InOrder(g.chunks) && Alike(g.chunks)
    && NoneEnds(g.calls) && CallParts(g.calls) == SliceParts(g.chunks)
    && Parts(g.calls) == Payloads(g.chunks[..Sliced(g.chunks)])
  }

  /** A timing SEI is due for a frame completed at this time. */
  predicate Due(wantSei: bool, t: Clock) { wantSei && t.mapping.Some? }

  /**
   The SEI of the frame that h starts: a prefix in front of its first slice, or a suffix behind
   slices already sent, with the frame's number and its time of capture.
   */
  ghost predicate SeiPlaced(before: seq<Call>, c: Call, h: Hdr, t: Clock) {
    c.sei == [] ||
    (&& t.mapping.Some?
     && (exists lost :: c.sei == Sei(Stamp(h.frameSeq, h.framePts, t, lost), SeiType(SentSlice(before))))
     && (if c.part == [] then c.at == 0 else SlicePos(c.part) == Some(c.at)))
  }

  /**
   The calls at the end of a frame: its SEI, the rest of it, and the end on the last of them.
   Behind slices that have gone, the SEI is there exactly if it is due.
   */
  ghost predicate Ends(before: seq<Call>, calls: seq<Call>, h: Hdr, t: Clock, due: bool) {
    && |calls| <= 2
    && (calls == [] ==> before != [])
    && (before != [] ==> (due <==> calls != [] && calls[0].sei != []))
    && (before != [] ==> forall i :: 0 <= i < |calls| ==> calls[i].part != [] || calls[i].sei != [])
    && (forall i :: 0 <= i < |calls| ==> (calls[i].auEnd <==> i == |calls| - 1))
    && (forall i :: 0 <= i < |calls| ==> SeiPlaced(before, calls[i], h, t))
    && (|calls| == 2 ==> calls[0].part == [] && calls[1].part != [] && calls[1].sei == [])
  }

  predicate HasEnd(calls: seq<Call>) {
    exists i :: 0 <= i < |calls| && calls[i].auEnd
  }

  /** What had gone out before the last chunk came. */
  function EarlyBytes(cs: seq<Chunk>): seq<byte>
    requires cs != []
  {
    var before := cs[..|cs| - 1];
    Payloads(before[..Sliced(before)])
  }

  /**
   The end of the access unit is not sent: every byte had gone out with a slice before the last
   chunk, which is then empty, and no SEI is due that could carry the end.
   */
  predicate EndIsLost(cs: seq<Chunk>, due: bool)
    requires cs != []
  {
    0 < |EarlyBytes(cs)| == |Payloads(cs)| && !due
  }

  /** The calls made before the last chunk came: its whole slices up to then, one by one. */
  ghost predicate Early(g: Group, calls: seq<Call>)
    requires g.chunks != []
  {
    && NoneEnds(calls) && Parts(calls) == EarlyBytes(g.chunks)
    && CallParts(calls) == SliceParts(g.chunks[..|g.chunks| - 1])
  }

  /**
   The frame is complete: every byte went out, once and in order, and its end with the last
   call, unless it is lost.
   */
  ghost predicate Done(g: Group, wantSei: bool, t: Clock) {
    && g.complete && InOrder(g.chunks) && g.chunks != []
    && g.chunks[|g.chunks| - 1].hdr.chunkCount == |g.chunks| && Closed(g.chunks)
    && Parts(g.calls) == Payloads(g.chunks)
    && (exists k ::
          && 0 <= k <= |g.calls| && Early(g, g.calls[..k])
          && Ends(g.calls[..k], g.calls[k..], g.chunks[0].hdr, t, Due(wantSei, t)))
    && (HasEnd(g.calls) <==> !EndIsLost(g.chunks, Due(wantSei, t)))
  }

  ghost predicate GroupOk(g: Group, input: seq<Arrival>, cap: nat, wantSei: bool) {
    && g.chunks != [] && g.first + |g.chunks| <= |input|
    && (forall i :: 0 <= i < |g.chunks| ==> g.chunks[i] == input[g.first + i].chunk)
    && |Payloads(g.chunks)| <= cap
    && AllAt(g.calls, Ts(g.chunks[0].hdr.framePts))
    && if g.complete then Done(g, wantSei, input[g.first + |g.chunks| - 1].clock) else Begun(g)
  }

  /** Every chunk belongs to one frame at most. */
  predicate Apart(gs: seq<Group>) {
    forall i, j :: 0 <= i < j < |gs| ==> gs[i].first + |gs[i].chunks| <= gs[j].first
  }

  /** The frame in the reassembler is made of these chunks. */
  predicate Collected(st: State, cs: seq<Chunk>) {
    && st.active && !st.done && st.nextIdx == |cs| && st.data == Payloads(cs)
    && (forall i :: 0 <= i < |cs| ==> cs[i].hdr.frameSeq == st.frameSeq && cs[i].hdr.chunkCount == st.chunkCount)
    && (cs != [] ==> (st.chunkCount == 0 <==> IsStreamed(cs[0].hdr))
                     && st.framePts == cs[0].hdr.framePts && st.flags == FrameFlags(cs[0].hdr.flags))
  }

  /** The reassembler has the chunks of g, and what they held up to the last slice has gone. */
  ghost predicate Holds(st: State, fwdOff: nat, fwdVcl: bool, g: Group) {
    && Collected(st, g.chunks)
    && Begun(g) && AllAt(g.calls, Ts(st.framePts))
    && fwdOff == |Payloads(g.chunks[..Sliced(g.chunks)])|
    && (fwdOff > 0 <==> g.calls != [])
    && (fwdVcl <==> SentSlice(g.calls))
  }

  // One chunk

  lemma PartsLast(calls: seq<Call>)
    requires calls != []
    ensures Parts(calls) == Parts(calls[..|calls| - 1]) + calls[|calls| - 1].part
  {
  }

  lemma {:induction false} PartsAppend(a: seq<Call>, b: seq<Call>)
    ensures Parts(a + b) == Parts(a) + Parts(b)
    decreases |b|
  {
    if b == [] {
      assert Parts(b) == [];
      assert a + b == a;
    } else {
      hide Parts;
      var n := |b| - 1;
      assert (a + b)[..|a| + n] == a + b[..n];
      PartsLast(a + b);
      PartsLast(b);
      PartsAppend(a, b[..n]);
      assert Parts(a) + Parts(b[..n]) + b[n].part == Parts(a) + (Parts(b[..n]) + b[n].part);
    }
  }

  lemma PartsOne(c: Call)
    ensures Parts([c]) == c.part
  {
    assert [c][..0] == [];
  }

  /** How the record of a frame's chunks changes with one more. */
  lemma OneMoreChunk(cs: seq<Chunk>, c: Chunk)
    ensures Payloads(cs + [c]) == Payloads(cs) + c.payload
    ensures Sliced(cs + [c])
            == if IsStreamed((cs + [c])[0].hdr) && HasSliceEnd(c.hdr.flags) then |cs| + 1 else Sliced(cs)
    ensures (cs + [c])[..|cs| + 1] == cs + [c]
    ensures (cs + [c])[..Sliced(cs)] == cs[..Sliced(cs)]
  {
    hide *;
    var all := cs + [c];
    Without(cs, c);
    LastPayload(all);
    LastSliced(all);
    assert all[..|all|] == all;
    WithoutAny(cs, c, Sliced(cs));
  }

  lemma Without(cs: seq<Chunk>, c: Chunk)
    ensures (cs + [c])[..|cs|] == cs && (cs + [c])[|cs|] == c
  {
  }

  lemma WithoutAny(cs: seq<Chunk>, c: Chunk, n: nat)
    requires n <= |cs|
    ensures (cs + [c])[..n] == cs[..n]
  {
  }

  lemma LastSliced(cs: seq<Chunk>)
    requires cs != []
    ensures Sliced(cs) == if IsStreamed(cs[0].hdr) && HasSliceEnd(cs[|cs| - 1].hdr.flags) then |cs|
                          else Sliced(cs[..|cs| - 1])
  {
  }

  /** One slice more is what has come since the one before. */
  lemma OneMoreSlice(cs: seq<Chunk>, c: Chunk)
    ensures SliceParts(cs + [c])
            == SliceParts(cs)
               + (var slice := Payloads((cs + [c])[Sliced(cs)..]);
                  if IsStreamed((cs + [c])[0].hdr) && HasSliceEnd(c.hdr.flags) && slice != [] then [slice] else [])
    ensures var n := |Payloads(cs[..Sliced(cs)])|;
      n <= |Payloads(cs + [c])| && Payloads((cs + [c])[Sliced(cs)..]) == Payloads(cs + [c])[n..]
  {
    hide Payloads, Sliced;
    var all := cs + [c];
    Without(cs, c);
    WithoutAny(cs, c, Sliced(cs));
    assert all == all[..Sliced(cs)] + all[Sliced(cs)..];
    PayloadsAppend(all[..Sliced(cs)], all[Sliced(cs)..]);
  }

  lemma OneMorePart(calls: seq<Call>, c: Call)
    ensures CallParts(calls + [c]) == CallParts(calls) + [c.part]
  {
  }

  lemma InOrderSnoc(cs: seq<Chunk>, c: Chunk)
    requires InOrder(cs) && c.hdr.chunkIdx == |cs| && (cs != [] ==> c.hdr.frameSeq == cs[0].hdr.frameSeq)
    ensures InOrder(cs + [c])
  {
  }

  lemma {:induction false} PayloadsPrefix(cs: seq<Chunk>, n: nat)
    requires n <= |cs|
    ensures |Payloads(cs[..n])| <= |Payloads(cs)| && Payloads(cs[..n]) == Payloads(cs)[..|Payloads(cs[..n])|]
    decreases |cs|
  {
    if n < |cs| {
      var m := |cs| - 1;
      assert cs[..m][..n] == cs[..n];
      PayloadsPrefix(cs[..m], n);
    } else {
      assert cs[..n] == cs;
    }
  }

  /** The chunk carries the frame in progress on. */
  ghost predicate Extends(s: State, g: Group, cap: nat, c: Chunk) {
    && Continues(s, cap, c.hdr, c.payload) && c.hdr.frameSeq == s.frameSeq && c.hdr.chunkIdx < 0xFFFF
    && (g.chunks == [] ==>
          && (s.chunkCount == 0 <==> IsStreamed(c.hdr))
          && s.framePts == c.hdr.framePts && s.flags == FrameFlags(c.hdr.flags))
  }

  lemma SentSliceOne(calls: seq<Call>, c: Call)
    ensures SentSlice(calls + [c]) <==> SentSlice(calls) || HasVcl(c.part)
  {
    hide HasVcl;
    var all := calls + [c];
    if SentSlice(calls) {
      var i :| 0 <= i < |calls| && HasVcl(calls[i].part);
      assert all[i] == calls[i];
    }
    if HasVcl(c.part) {
      assert all[|calls|] == c;
    }
  }

  /** What has gone and what has not make up the frame. */
  lemma SentAndUnsent(g: Group, fwdOff: nat, data: seq<byte>, payload: seq<byte>)
    requires data == Payloads(g.chunks) + payload && fwdOff == |Payloads(g.chunks[..Sliced(g.chunks)])|
    requires Parts(g.calls) == Payloads(g.chunks[..Sliced(g.chunks)])
    ensures fwdOff <= |data| && Parts(g.calls) == data[..fwdOff]
    ensures data == Parts(g.calls) + data[fwdOff..]
  {
    hide Payloads, Sliced, Parts;
    PayloadsPrefix(g.chunks, Sliced(g.chunks));
    assert data[..fwdOff] == Payloads(g.chunks)[..fwdOff];
  }

  /** A chunk that does not finish its frame: its slice may go out. */
  lemma GoesOn(rx: RxState, g: Group, cap: nat, c: Chunk, s: State)
    requires Holds(s, rx.fwdOff, rx.fwdVcl, g) && Extends(s, g, cap, c)
    requires !EndsFrame(s, c.hdr)
    requires rx.reasm == Append(s, c.payload)
    ensures var (rx', calls) := PassOn(rx, c.hdr);
      Holds(rx'.reasm, rx'.fwdOff, rx'.fwdVcl, Group(g.first, g.chunks + [c], g.calls + calls, false))
  {
    if PassesOn(rx, c.hdr) {
      SliceGoes(rx, g, cap, c, s);
    } else {
      assert Taken(rx.reasm, c.hdr);
      NothingGoes(rx, g, cap, c, s);
    }
  }

  lemma CollectedNext(s: State, g: Group, cap: nat, c: Chunk)
    requires Collected(s, g.chunks) && InOrder(g.chunks) && Extends(s, g, cap, c)
    ensures InOrder(g.chunks + [c])
    ensures !EndsFrame(s, c.hdr) ==> Collected(Append(s, c.payload), g.chunks + [c])
    ensures s.data == Payloads(g.chunks) && (s.chunkCount == 0 <==> IsStreamed((g.chunks + [c])[0].hdr))
  {
    hide Payloads, Sliced, InOrder, IsStreamed;
    OneMoreChunk(g.chunks, c);
    InOrderSnoc(g.chunks, c);
  }

  lemma CollectedAlike(st: State, cs: seq<Chunk>)
    requires Collected(st, cs)
    ensures Alike(cs)
  {
    hide Payloads, IsStreamed;
  }

  /** A chunk that finishes the frame says how many there are. */
  lemma ClosedBy(s: State, cs: seq<Chunk>, cap: nat, c: Chunk)
    requires Collected(s, cs) && Continues(s, cap, c.hdr, c.payload) && c.hdr.chunkIdx < 0xFFFF
    requires Finishes(s, Append(s, c.payload), c.hdr)
    requires s.chunkCount == 0 <==> IsStreamed((cs + [c])[0].hdr)
    ensures Closed(cs + [c])
  {
    hide Payloads, IsStreamed;
    Without(cs, c);
    CollectedAlike(s, cs);
  }

  lemma SliceGoes(rx: RxState, g: Group, cap: nat, c: Chunk, s: State)
    requires Holds(s, rx.fwdOff, rx.fwdVcl, g) && Extends(s, g, cap, c)
    requires !EndsFrame(s, c.hdr)
    requires rx.reasm == Append(s, c.payload) && PassesOn(rx, c.hdr)
    ensures var call := Call(rx.reasm.data[rx.fwdOff..], 0, [], Ts(rx.reasm.framePts), false);
      Holds(rx.reasm, |rx.reasm.data|, rx.fwdVcl || HasVcl(call.part),
            Group(g.first, g.chunks + [c], g.calls + [call], false))
  {
    hide Collected, Payloads, Sliced, Parts, HasVcl, SentSlice, InOrder, NoneEnds, AllAt, Extends, IsStreamed;
    hide SliceParts, CallParts;
    OneMoreChunk(g.chunks, c);
    OneMoreSlice(g.chunks, c);
    CollectedNext(s, g, cap, c);
    CollectedAlike(rx.reasm, g.chunks + [c]);
    SentAndUnsent(g, rx.fwdOff, rx.reasm.data, c.payload);
    var call := Call(rx.reasm.data[rx.fwdOff..], 0, [], Ts(rx.reasm.framePts), false);
    PartsOne(call);
    PartsAppend(g.calls, [call]);
    SentSliceOne(g.calls, call);
    OneMoreCall(g.calls, call);
    OneMorePart(g.calls, call);
  }

  lemma NothingGoes(rx: RxState, g: Group, cap: nat, c: Chunk, s: State)
    requires Holds(s, rx.fwdOff, rx.fwdVcl, g) && Extends(s, g, cap, c)
    requires !EndsFrame(s, c.hdr)
    requires rx.reasm == Append(s, c.payload) && Taken(rx.reasm, c.hdr) && !PassesOn(rx, c.hdr)
    ensures Holds(rx.reasm, rx.fwdOff, rx.fwdVcl, Group(g.first, g.chunks + [c], g.calls + [], false))
  {
    hide Collected, Payloads, Sliced, Parts, HasVcl, SentSlice, InOrder, NoneEnds, AllAt, Extends, IsStreamed;
    hide SliceParts, CallParts;
    OneMoreChunk(g.chunks, c);
    OneMoreSlice(g.chunks, c);
    CollectedNext(s, g, cap, c);
    CollectedAlike(rx.reasm, g.chunks + [c]);
    SentAndUnsent(g, rx.fwdOff, rx.reasm.data, c.payload);
    assert SliceParts(g.chunks) + [] == SliceParts(g.chunks);
    assert g.calls + [] == g.calls;
    assert rx.reasm.data[..|rx.reasm.data|] == rx.reasm.data;
  }

  lemma OneMoreCall(calls: seq<Call>, c: Call)
    requires NoneEnds(calls) && !c.auEnd && c.sei == [] && AllAt(calls, c.ts)
    ensures NoneEnds(calls + [c]) && AllAt(calls + [c], c.ts)
  {
  }

  lemma EarlyIs(cs: seq<Chunk>, c: Chunk)
    ensures EarlyBytes(cs + [c]) == Payloads(cs[..Sliced(cs)])
  {
    hide Payloads, Sliced;
    Without(cs, c);
  }

  /** The chunks and the calls of a frame that c completes, put together. */
  lemma FrameIsDone(g: Group, c: Chunk, calls: seq<Call>, wantSei: bool, t: Clock)
    requires Begun(g) && InOrder(g.chunks + [c]) && c.hdr.chunkCount == |g.chunks| + 1 && Closed(g.chunks + [c])
    requires Parts(g.calls) + Parts(calls) == Payloads(g.chunks + [c])
    requires Ends(g.calls, calls, (g.chunks + [c])[0].hdr, t, Due(wantSei, t))
    requires HasEnd(calls) <==> !EndIsLost(g.chunks + [c], Due(wantSei, t))
    ensures Done(Group(g.first, g.chunks + [c], g.calls + calls, true), wantSei, t)
  {
    hide Payloads, Sliced, Parts, InOrder, Ends, HasEnd, NoneEnds, EndIsLost, EarlyBytes, SliceParts, CallParts;
    hide Closed, Alike;
    PartsAppend(g.calls, calls);
    EndsAppend(g.calls, calls);
    EarlyIs(g.chunks, c);
    Without(g.chunks, c);
    var g' := Group(g.first, g.chunks + [c], g.calls + calls, true);
    var k := |g.calls|;
    assert g'.calls[..k] == g.calls && g'.calls[k..] == calls;
    assert Early(g', g'.calls[..k]);
  }

  /** A chunk that finishes it: everything that has not gone goes. */
  lemma GoesOut(rx: RxState, g: Group, cap: nat, c: Chunk, s: State, wantSei: bool, t: Clock)
    requires Holds(s, rx.fwdOff, rx.fwdVcl, g) && Extends(s, g, cap, c)
    requires rx.reasm == Complete(Append(s, c.payload)) && Finishes(s, Append(s, c.payload), c.hdr)
    ensures rx.fwdOff <= |rx.reasm.data|
    ensures var calls := LastCalls(rx, cap, SeiFor(rx, wantSei, t));
      var g' := Group(g.first, g.chunks + [c], g.calls + calls, true);
      Done(g', wantSei, t) && AllAt(g'.calls, Ts(rx.reasm.framePts)) && |Payloads(g'.chunks)| <= cap
  {
    hide Payloads, Sliced, Parts, HasVcl, SentSlice, InOrder, NoneEnds, AllAt, IsStreamed, Collected;
    hide LastCalls, SeiFor, Ends, HasEnd, EarlyBytes, Done;
    var h := (g.chunks + [c])[0].hdr;
    FinishedBy(s, g, cap, c);
    OneMoreChunk(g.chunks, c);
    SentAndUnsent(g, rx.fwdOff, rx.reasm.data, c.payload);
    var sei := SeiFor(rx, wantSei, t);
    var calls := LastCalls(rx, cap, sei);
    SeiIsFor(rx, wantSei, t, g.calls, h);
    LastParts(rx, cap, sei);
    LastEnds(rx, cap, sei, g.calls, h, t);
    EndIff(rx, cap, sei);
    EarlyIs(g.chunks, c);
    FrameIsDone(g, c, calls, wantSei, t);
    AllAtAppend(g.calls, calls, Ts(rx.reasm.framePts));
  }

  /** What the reassembler holds of the frame that c completes. */
  lemma FinishedBy(s: State, g: Group, cap: nat, c: Chunk)
    requires Collected(s, g.chunks) && InOrder(g.chunks) && Extends(s, g, cap, c)
    requires Finishes(s, Append(s, c.payload), c.hdr)
    ensures InOrder(g.chunks + [c]) && c.hdr.chunkCount == |g.chunks| + 1 && s.data == Payloads(g.chunks)
    ensures Closed(g.chunks + [c])
    ensures var h := (g.chunks + [c])[0].hdr; s.frameSeq == h.frameSeq && s.framePts == h.framePts
    ensures |Payloads(g.chunks + [c])| <= cap
  {
    hide Payloads, Sliced, InOrder, IsStreamed, Closed;
    OneMoreChunk(g.chunks, c);
    CollectedNext(s, g, cap, c);
    ClosedBy(s, g.chunks, cap, c);
  }

  lemma AllAtAppend(a: seq<Call>, b: seq<Call>, ts: u32)
    requires AllAt(a, ts) && AllAt(b, ts)
    ensures AllAt(a + b, ts)
  {
  }

  /** The final calls carry an end exactly unless everything had gone and there is no SEI. */
  lemma EndIff(rx: RxState, cap: nat, sei: seq<byte>)
    requires rx.fwdOff <= |rx.reasm.data|
    ensures HasEnd(LastCalls(rx, cap, sei)) <==> !(0 < rx.fwdOff == |rx.reasm.data| && sei == [])
  {
    hide SlicePos;
    var calls := LastCalls(rx, cap, sei);
    if calls != [] {
      assert calls[|calls| - 1].auEnd;
    }
  }

  lemma EndsAppend(before: seq<Call>, calls: seq<Call>)
    requires NoneEnds(before)
    ensures HasEnd(before + calls) <==> HasEnd(calls)
  {
    var all := before + calls;
    if HasEnd(calls) {
      var i :| 0 <= i < |calls| && calls[i].auEnd;
      assert all[|before| + i] == calls[i];
    }
  }

  /** What an SEI for the frame that h starts can be. */
  ghost predicate IsSeiFor(sei: seq<byte>, before: seq<Call>, h: Hdr, t: Clock) {
    sei != [] ==>
      t.mapping.Some? && exists lost :: sei == Sei(Stamp(h.frameSeq, h.framePts, t, lost), SeiType(SentSlice(before)))
  }

  lemma SeiIsFor(rx: RxState, wantSei: bool, t: Clock, before: seq<Call>, h: Hdr)
    requires (rx.fwdVcl <==> SentSlice(before)) && rx.reasm.frameSeq == h.frameSeq && rx.reasm.framePts == h.framePts
    ensures IsSeiFor(SeiFor(rx, wantSei, t), before, h, t)
    ensures SeiFor(rx, wantSei, t) == [] <==> !Due(wantSei, t)
  {
    hide SentSlice, Stamp, SeiNal;
  }

  lemma LastParts(rx: RxState, cap: nat, sei: seq<byte>)
    requires rx.fwdOff <= |rx.reasm.data|
    ensures Parts(LastCalls(rx, cap, sei)) == rx.reasm.data[rx.fwdOff..]
    ensures AllAt(LastCalls(rx, cap, sei), Ts(rx.reasm.framePts))
  {
    hide SlicePos, Parts;
    var calls := LastCalls(rx, cap, sei);
    var data := rx.reasm.data;
    PartsNone();
    if rx.fwdOff == 0 {
      PartsOne(calls[0]);
      assert calls == [calls[0]] && data[0..] == data;
    } else if |calls| == 2 {
      PartsOne(calls[0]);
      PartsOne(calls[1]);
      PartsAppend([calls[0]], [calls[1]]);
      assert calls == [calls[0]] + [calls[1]];
    } else if |calls| == 1 {
      PartsOne(calls[0]);
      assert calls == [calls[0]];
    }
  }

  lemma PartsNone()
    ensures Parts([]) == []
  {
  }

  lemma LastEnds(rx: RxState, cap: nat, sei: seq<byte>, before: seq<Call>, h: Hdr, t: Clock)
    requires rx.fwdOff <= |rx.reasm.data| && (rx.fwdOff > 0 <==> before != []) && IsSeiFor(sei, before, h, t)
    ensures Ends(before, LastCalls(rx, cap, sei), h, t, sei != [])
  {
    hide SlicePos, IsSeiFor, SeiPlaced;
    ShortHasNoSlice([]);
    var calls := LastCalls(rx, cap, sei);
    forall i | 0 <= i < |calls|
      ensures SeiPlaced(before, calls[i], h, t)
    {
      Placed(before, calls[i], sei, h, t);
    }
  }

  lemma Placed(before: seq<Call>, c: Call, sei: seq<byte>, h: Hdr, t: Clock)
    requires IsSeiFor(sei, before, h, t)
    requires c.sei != [] ==>
               c.sei == sei && if c.part == [] then c.at == 0 else SlicePos(c.part) == Some(c.at)
    ensures SeiPlaced(before, c, h, t)
  {
    hide SlicePos, Sei, SentSlice, Stamp;
  }

  // Whole runs

  /** What has been noted so far fits what the reassembler holds. */
  ghost predicate Fits(rx: RxState, gs: seq<Group>, input: seq<Arrival>, cap: nat, wantSei: bool) {
    && (forall k :: 0 <= k < |gs| ==> GroupOk(gs[k], input, cap, wantSei))
    && Apart(gs)
    && (rx.reasm.active ==>
          && gs != [] && Holds(rx.reasm, rx.fwdOff, rx.fwdVcl, gs[|gs| - 1])
          && gs[|gs| - 1].first + |gs[|gs| - 1].chunks| == |input|)
  }

  predicate NoWrapAround(input: seq<Arrival>) {
    forall i :: 0 <= i < |input| ==> input[i].chunk.hdr.chunkIdx < 0xFFFF
  }

  /** A chunk is taken exactly when it carries on with the frame it is of. */
  lemma TakenIff(st: State, cap: nat, c: Chunk)
    ensures var (t, complete) := Feed(st, cap, c.hdr, c.payload);
      && (Taken(t, c.hdr) <==> (IsNewFrame(st, c.hdr) ==> c.hdr.chunkIdx == 0)
                               && Continues(Current(st, c.hdr), cap, c.hdr, c.payload))
      && (!Taken(t, c.hdr) ==> !complete && !t.active)
      && (Taken(t, c.hdr) ==>
            && Current(st, c.hdr).active && Current(st, c.hdr).frameSeq == c.hdr.frameSeq
            && complete == Finishes(Current(st, c.hdr), Append(Current(st, c.hdr), c.payload), c.hdr)
            && t == if complete then Complete(Append(Current(st, c.hdr), c.payload))
                    else Append(Current(st, c.hdr), c.payload))
  {
    hide GiveUp, NoteDropped;
  }

  /** The frame a taken chunk belongs to: the last, or one without chunks as yet. */
  function Open(gs: seq<Group>, at: nat, c: Chunk): Group {
    if c.hdr.chunkIdx == 0 || gs == [] then Group(at, [], [], false) else gs[|gs| - 1]
  }

  lemma GrowIs(gs: seq<Group>, at: nat, c: Chunk, calls: seq<Call>, complete: bool)
    ensures var g := Open(gs, at, c);
      var g' := Group(g.first, g.chunks + [c], g.calls + calls, complete);
      Grow(gs, at, c, calls, complete)
      == (if c.hdr.chunkIdx == 0 || gs == [] then gs else gs[..|gs| - 1]) + [g']
  {
    assert [] + [c] == [c] && [] + calls == calls;
  }

  /** The frame a chunk is taken for is held as the record says. */
  lemma OpenIsHeld(rx: RxState, gs: seq<Group>, input: seq<Arrival>, cap: nat, c: Chunk, wantSei: bool)
    requires Fits(rx, gs, input, cap, wantSei) && c.hdr.chunkIdx < 0xFFFF
    requires (IsNewFrame(rx.reasm, c.hdr) ==> c.hdr.chunkIdx == 0)
    requires Continues(Current(rx.reasm, c.hdr), cap, c.hdr, c.payload)
    ensures var s, g := Current(rx.reasm, c.hdr), Open(gs, |input|, c);
      var first := c.hdr.chunkIdx == 0;
      && Holds(s, if first then 0 else rx.fwdOff, !first && rx.fwdVcl, g)
      && Extends(s, g, cap, c)
      && (first <==> IsNewFrame(rx.reasm, c.hdr))
      && g.first + |g.chunks| == |input|
      && (first || (gs != [] && g == gs[|gs| - 1]))
  {
    hide HasVcl, Payloads, Sliced, GroupOk, Apart;
    if IsNewFrame(rx.reasm, c.hdr) {
      NothingYet(Current(rx.reasm, c.hdr), Group(|input|, [], [], false));
    } else {
      HeldIsNotEmpty(rx, gs, input, cap, wantSei);
    }
  }

  lemma HeldIsNotEmpty(rx: RxState, gs: seq<Group>, input: seq<Arrival>, cap: nat, wantSei: bool)
    requires Fits(rx, gs, input, cap, wantSei) && rx.reasm.active
    ensures gs[|gs| - 1].chunks != [] && rx.reasm.nextIdx == |gs[|gs| - 1].chunks|
  {
    assert GroupOk(gs[|gs| - 1], input, cap, wantSei);
  }

  lemma NothingYet(s: State, g: Group)
    requires s.active && !s.done && s.nextIdx == 0 && s.data == []
    requires g.chunks == [] && g.calls == [] && !g.complete
    ensures Holds(s, 0, false, g)
  {
  }

  lemma {:induction false} CallsSnoc(gs: seq<Group>, g: Group)
    ensures CallsOf(gs + [g]) == CallsOf(gs) + g.calls
  {
    assert (gs + [g])[..|gs|] == gs;
  }

  /** No call is lost, made up or moved. */
  lemma CallsGrow(gs: seq<Group>, at: nat, c: Chunk, calls: seq<Call>, complete: bool)
    ensures CallsOf(Grow(gs, at, c, calls, complete)) == CallsOf(gs) + calls
  {
    GrowIs(gs, at, c, calls, complete);
    var g := Open(gs, at, c);
    var g' := Group(g.first, g.chunks + [c], g.calls + calls, complete);
    if c.hdr.chunkIdx == 0 || gs == [] {
      CallsSnoc(gs, g');
      assert [] + calls == calls;
    } else {
      var n := |gs| - 1;
      CallsSnoc(gs[..n], g');
      CallsSnoc(gs[..n], gs[n]);
      assert gs == gs[..n] + [gs[n]];
      assert CallsOf(gs[..n]) + (g.calls + calls) == CallsOf(gs[..n]) + g.calls + calls;
    }
  }

  lemma GroupOkLonger(g: Group, input: seq<Arrival>, a: Arrival, cap: nat, wantSei: bool)
    requires GroupOk(g, input, cap, wantSei)
    ensures GroupOk(g, input + [a], cap, wantSei)
  {
    hide Done, Begun, Payloads, AllAt;
  }

  /** The record with one more chunk of a frame. */
  lemma RecordGrows(gs: seq<Group>, input: seq<Arrival>, cap: nat, a: Arrival, calls: seq<Call>, complete: bool,
                    wantSei: bool)
    requires (forall k :: 0 <= k < |gs| ==> GroupOk(gs[k], input, cap, wantSei)) && Apart(gs)
    requires var g := Open(gs, |input|, a.chunk);
             && g.first + |g.chunks| == |input|
             && GroupOk(Group(g.first, g.chunks + [a.chunk], g.calls + calls, complete), input + [a], cap, wantSei)
    ensures var gs' := Grow(gs, |input|, a.chunk, calls, complete);
      && (forall k :: 0 <= k < |gs'| ==> GroupOk(gs'[k], input + [a], cap, wantSei))
      && Apart(gs')
  {
    hide GroupOk, Grow;
    GrowIs(gs, |input|, a.chunk, calls, complete);
    forall k | 0 <= k < |gs|
      ensures GroupOk(gs[k], input + [a], cap, wantSei) && gs[k].first + |gs[k].chunks| <= |input|
    {
      GroupOkLonger(gs[k], input, a, cap, wantSei);
      EndsInside(gs[k], input, cap, wantSei);
    }
  }

  lemma EndsInside(g: Group, input: seq<Arrival>, cap: nat, wantSei: bool)
    requires GroupOk(g, input, cap, wantSei)
    ensures g.first + |g.chunks| <= |input|
  {
  }

  lemma NothingTaken(rx: RxState, gs: seq<Group>, input: seq<Arrival>, cap: nat, a: Arrival, st: State, wantSei: bool)
    requires Fits(rx, gs, input, cap, wantSei) && !st.active
    ensures Fits(rx.(reasm := st), gs, input + [a], cap, wantSei)
  {
    hide GroupOk, Apart, Holds;
    forall k | 0 <= k < |gs|
      ensures GroupOk(gs[k], input + [a], cap, wantSei)
    {
      GroupOkLonger(gs[k], input, a, cap, wantSei);
    }
  }

  /** The record of the frame that chunk a carries on is in order with it. */
  lemma OneOk(g: Group, input: seq<Arrival>, cap: nat, a: Arrival, calls: seq<Call>, complete: bool, wantSei: bool)
    requires g.first + |g.chunks| == |input|
    requires forall i :: 0 <= i < |g.chunks| ==> g.chunks[i] == input[g.first + i].chunk
    requires var g' := Group(g.first, g.chunks + [a.chunk], g.calls + calls, complete);
             && |Payloads(g'.chunks)| <= cap && AllAt(g'.calls, Ts(g'.chunks[0].hdr.framePts))
             && if complete then Done(g', wantSei, a.clock) else Begun(g')
    ensures GroupOk(Group(g.first, g.chunks + [a.chunk], g.calls + calls, complete), input + [a], cap, wantSei)
  {
    hide Done, Begun, Payloads, AllAt;
  }

  lemma OpenChunks(gs: seq<Group>, input: seq<Arrival>, cap: nat, c: Chunk, wantSei: bool)
    requires forall k :: 0 <= k < |gs| ==> GroupOk(gs[k], input, cap, wantSei)
    ensures var g := Open(gs, |input|, c);
      g.first + |g.chunks| <= |input|
      && forall i :: 0 <= i < |g.chunks| ==> g.chunks[i] == input[g.first + i].chunk
  {
    if |gs| > 0 {
      assert GroupOk(gs[|gs| - 1], input, cap, wantSei);
    }
  }

  /** A taken chunk that leaves its frame incomplete. */
  lemma TakenGoesOn(rx: RxState, gs: seq<Group>, input: seq<Arrival>, cap: nat, a: Arrival, fed: RxState, s: State,
                    wantSei: bool)
    requires Fits(rx, gs, input, cap, wantSei) && s == Current(rx.reasm, a.chunk.hdr)
    requires var g := Open(gs, |input|, a.chunk);
             && Holds(s, fed.fwdOff, fed.fwdVcl, g) && Extends(s, g, cap, a.chunk)
             && g.first + |g.chunks| == |input|
    requires fed.reasm == Append(s, a.chunk.payload) && !EndsFrame(s, a.chunk.hdr)
    ensures var (rx', calls) := PassOn(fed, a.chunk.hdr);
      Fits(rx', Grow(gs, |input|, a.chunk, calls, false), input + [a], cap, wantSei)
  {
    hide Current, PassOn, HasVcl, Payloads, Apart, GroupOk, Grow, AllAt, Begun, SentSlice, Sliced;
    var g := Open(gs, |input|, a.chunk);
    var (rx', calls) := PassOn(fed, a.chunk.hdr);
    var g' := Group(g.first, g.chunks + [a.chunk], g.calls + calls, false);
    GoesOn(fed, g, cap, a.chunk, s);
    OpenChunks(gs, input, cap, a.chunk, wantSei);
    PassOnKeeps(fed, a.chunk.hdr);
    assert |Payloads(g'.chunks)| <= cap;
    OneOk(g, input, cap, a, calls, false, wantSei);
    RecordGrows(gs, input, cap, a, calls, false, wantSei);
    GrowIs(gs, |input|, a.chunk, calls, false);
  }

  lemma PassOnKeeps(rx: RxState, h: Hdr)
    ensures PassOn(rx, h).0.reasm == rx.reasm
  {
    hide HasVcl;
  }

  /** A taken chunk that completes its frame. */
  lemma TakenGoesOut(rx: RxState, gs: seq<Group>, input: seq<Arrival>, cap: nat, wantSei: bool, a: Arrival,
                     fed: RxState, s: State)
    requires Fits(rx, gs, input, cap, wantSei) && s == Current(rx.reasm, a.chunk.hdr)
    requires var g := Open(gs, |input|, a.chunk);
             && Holds(s, fed.fwdOff, fed.fwdVcl, g) && Extends(s, g, cap, a.chunk)
             && g.first + |g.chunks| == |input|
    requires fed.reasm == Complete(Append(s, a.chunk.payload)) && Finishes(s, Append(s, a.chunk.payload), a.chunk.hdr)
    ensures fed.fwdOff <= |fed.reasm.data|
    ensures var calls := LastCalls(fed, cap, SeiFor(fed, wantSei, a.clock));
      Fits(Finished(fed), Grow(gs, |input|, a.chunk, calls, true), input + [a], cap, wantSei)
  {
    hide Current, LastCalls, SeiFor, HasVcl, Payloads, Apart, GroupOk, Grow, AllAt, Begun, Done, SentSlice, Sliced;
    var g := Open(gs, |input|, a.chunk);
    GoesOut(fed, g, cap, a.chunk, s, wantSei, a.clock);
    var calls := LastCalls(fed, cap, SeiFor(fed, wantSei, a.clock));
    OpenChunks(gs, input, cap, a.chunk, wantSei);
    OneOk(g, input, cap, a, calls, true, wantSei);
    RecordGrows(gs, input, cap, a, calls, true, wantSei);
  }

  /** One chunk more, whatever it is. */
  lemma StepFits(rx: RxState, gs: seq<Group>, input: seq<Arrival>, cap: nat, wantSei: bool, a: Arrival)
    requires RxValid(rx) && Fits(rx, gs, input, cap, wantSei) && a.chunk.hdr.chunkIdx < 0xFFFF
    ensures var (st, complete) := Feed(rx.reasm, cap, a.chunk.hdr, a.chunk.payload);
      var (rx', calls) := Receive(rx, cap, wantSei, a.chunk, a.clock);
      var gs' := if Taken(st, a.chunk.hdr) then Grow(gs, |input|, a.chunk, calls, complete) else gs;
      Fits(rx', gs', input + [a], cap, wantSei) && CallsOf(gs') == CallsOf(gs) + calls
  {
    hide Feed, Current, Fits, Holds, Extends, Continues, Finishes, Grow, CallsOf, HasVcl, LastCalls, SeiFor;
    var c := a.chunk;
    var (st, complete) := Feed(rx.reasm, cap, c.hdr, c.payload);
    var fed := Fed(rx, st, c.hdr);
    TakenIff(rx.reasm, cap, c);
    FeedKeeps(rx, cap, c);
    var s := Current(rx.reasm, c.hdr);
    if !Taken(st, c.hdr) {
      NothingTaken(rx, gs, input, cap, a, st, wantSei);
      assert CallsOf(gs) + [] == CallsOf(gs);
    } else {
      OpenIsHeld(rx, gs, input, cap, c, wantSei);
      if complete {
        CountKeeps(fed);
        TakenGoesOut(rx, gs, input, cap, wantSei, a, CountLost(fed), s);
      } else {
        NotFinished(s, Append(s, c.payload), c.hdr);
        TakenGoesOn(rx, gs, input, cap, a, fed, s, wantSei);
      }
      CallsGrow(gs, |input|, c, Receive(rx, cap, wantSei, c, a.clock).1, complete);
    }
  }

  lemma NotFinished(s: State, t: State, h: Hdr)
    requires !Finishes(s, t, h)
    ensures !EndsFrame(s, h)
  {
  }

  lemma CountKeeps(fed: RxState)
    ensures CountLost(fed).fwdOff == fed.fwdOff && CountLost(fed).fwdVcl == fed.fwdVcl
    ensures CountLost(fed).reasm == fed.reasm
  {
  }

  /**
   Over any run, whatever was lost, repeated or reordered: the calls of the RTP sender are
   those of the frames noted, frame by frame. For each completed frame they hold every byte
   once and in order, with the end on the last of them; for any other, whole slices from its
   start and no end.
   */
  lemma {:induction false} ForwardingConserves(input: seq<Arrival>, cap: nat, wantSei: bool)
    requires NoWrapAround(input)
    ensures var (rx, gs) := Track(input, cap, wantSei);
      Fits(rx, gs, input, cap, wantSei) && AllCalls(input, cap, wantSei) == (rx, CallsOf(gs))
  {
    hide Fits, Receive, Feed, CallsOf, Grow, Taken;
    if input == [] {
      NoneFit(cap, wantSei);
    } else {
      var n := |input| - 1;
      assert input[..n] + [input[n]] == input;
      ForwardingConserves(input[..n], cap, wantSei);
      var (rx, gs) := Track(input[..n], cap, wantSei);
      StepFits(rx, gs, input[..n], cap, wantSei, input[n]);
    }
  }

  lemma NoneFit(cap: nat, wantSei: bool)
    ensures Fits(RX_INITIAL, [], [], cap, wantSei) && CallsOf([]) == []
  {
  }

  lemma TrackSnoc(input: seq<Arrival>, cap: nat, wantSei: bool, a: Arrival)
    ensures var (rx, gs) := Track(input, cap, wantSei);
      var (st, complete) := Feed(rx.reasm, cap, a.chunk.hdr, a.chunk.payload);
      var (rx', calls) := Receive(rx, cap, wantSei, a.chunk, a.clock);
      Track(input + [a], cap, wantSei)
      == (rx', if Taken(st, a.chunk.hdr) then Grow(gs, |input|, a.chunk, calls, complete) else gs)
  {
    hide Receive, Feed, Grow, Taken;
    assert (input + [a])[..|input|] == input;
  }
}
