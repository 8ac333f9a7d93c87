/** The counters of lost frames, in rx/main.c and in common/reassembly.c. */
module Losses {
  import opened Bytes
  import opened ChunkWire
  import opened SentFrames
  import opened Reassembly
  import opened Delivery
  import opened Receiver
  import opened Forwarding
  import opened TimingSei

  // frames_lost: gaps between completed frames

  /** The frame a record's chunks make up. */
  function FrameOf(g: Group): Output {
    if g.chunks == [] then Output(0, 0, 0, [])
    else
      var h := g.chunks[0].hdr;
      Output(h.frameSeq, h.framePts, FrameFlags(h.flags), Payloads(g.chunks))
  }

  function Completed(gs: seq<Group>): seq<Output> {
    if gs == [] then []
    else Completed(gs[..|gs| - 1]) + if gs[|gs| - 1].complete then [FrameOf(gs[|gs| - 1])] else []
  }

  function ChunksOf(input: seq<Arrival>): seq<Chunk> {
    seq(|input|, i requires 0 <= i < |input| => input[i].chunk)
  }

  /** The gaps that count as loss, over all pairs of frames completed one after the other. */
  function LostBetween(outs: seq<Output>): nat {
    if |outs| < 2 then 0
    else LostBetween(outs[..|outs| - 1]) + Missing(Some(outs[|outs| - 2].frameSeq), outs[|outs| - 1].frameSeq)
  }

  function LastSeq(outs: seq<Output>): Option<u16> {
    if outs == [] then None else Some(outs[|outs| - 1].frameSeq)
  }

  lemma {:induction false} CompletedGrows(gs: seq<Group>, at: nat, c: Chunk, calls: seq<Call>, complete: bool)
    requires c.hdr.chunkIdx == 0 || gs == [] || !gs[|gs| - 1].complete
    ensures var g := Open(gs, at, c);
      var gs' := Grow(gs, at, c, calls, complete);
      Completed(gs') == Completed(gs) + if complete
        then [FrameOf(Group(g.first, g.chunks + [c], g.calls + calls, true))] else []
  {
    hide Grow, FrameOf;
    GrowIs(gs, at, c, calls, complete);
    var gs' := Grow(gs, at, c, calls, complete);
    if c.hdr.chunkIdx == 0 || gs == [] {
      assert gs'[..|gs'| - 1] == gs;
    } else {
      assert gs'[..|gs'| - 1] == gs[..|gs| - 1];
    }
  }

  /** One chunk more: what the receive loop completes is what Run() completes. */
  lemma StepCompletes(rx: RxState, gs: seq<Group>, input: seq<Arrival>, cap: nat, wantSei: bool, a: Arrival)
    requires RxValid(rx) && Fits(rx, gs, input, cap, wantSei)
    requires a.chunk.hdr.chunkIdx < 0xFFFF && a.chunk.hdr.codec == CODEC_H265
    ensures var (st, complete) := Feed(rx.reasm, cap, a.chunk.hdr, a.chunk.payload);
      var (rx', calls) := Receive(rx, cap, wantSei, a.chunk, a.clock);
      var gs' := if Taken(st, a.chunk.hdr) then Grow(gs, |input|, a.chunk, calls, complete) else gs;
      var (s1, out) := Step(rx.reasm, cap, a.chunk);
      && rx'.reasm == s1
      && Completed(gs') == Completed(gs) + out
      && (if out == [] then rx'.last == rx.last && rx'.framesLost == rx.framesLost
          else |out| == 1 && rx'.last == LastSeq(out)
               && rx'.framesLost == (rx.framesLost as int + Missing(rx.last, out[0].frameSeq)) % 0x1_0000_0000)
  {
    hide Feed, Current, Fits, Extends, Continues, Finishes, Grow, Completed, LastCalls, SeiFor, Missing, Payloads;
    var c := a.chunk;
    var (st, complete) := Feed(rx.reasm, cap, c.hdr, c.payload);
    var fed := Fed(rx, st, c.hdr);
    TakenIff(rx.reasm, cap, c);
    FeedKeeps(rx, cap, c);
    var s := Current(rx.reasm, c.hdr);
    if !Taken(st, c.hdr) {
      assert Completed(gs) + [] == Completed(gs);
    } else {
      OpenIsHeld(rx, gs, input, cap, c, wantSei);
      CompletedGrows(gs, |input|, c, Receive(rx, cap, wantSei, c, a.clock).1, complete);
      FrameIs(s, Open(gs, |input|, c), cap, c, if c.hdr.chunkIdx == 0 then 0 else rx.fwdOff,
              c.hdr.chunkIdx != 0 && rx.fwdVcl);
    }
  }

  lemma FrameIs(s: State, g: Group, cap: nat, c: Chunk, fwdOff: nat, fwdVcl: bool)
    requires Extends(s, g, cap, c) && Holds(s, fwdOff, fwdVcl, g)
    ensures forall calls ::
      FrameOf(Group(g.first, g.chunks + [c], calls, true))
      == Output(s.frameSeq, s.framePts, s.flags, s.data + c.payload)
  {
    hide Begun, AllAt, Payloads, Sliced, SentSlice;
    OneMoreChunk(g.chunks, c);
  }

  lemma {:induction false} RunSnoc(st: State, cap: nat, cs: seq<Chunk>, c: Chunk)
    ensures var (s1, o1) := Run(st, cap, cs);
      var (s2, o2) := Step(s1, cap, c);
      Run(st, cap, cs + [c]) == (s2, o1 + o2)
  {
    hide Step, Run;
    RunAppend(st, cap, cs, [c]);
    var s1 := Run(st, cap, cs).0;
    ConsStep(s1, cap, c, []);
    RunNothing(Step(s1, cap, c).0, cap);
    assert [c] + [] == [c];
    assert Step(s1, cap, c).1 + [] == Step(s1, cap, c).1;
  }

  /**
   The completed frames of the record are those that the reassembler alone completes, and
   frames_lost is the sum of the gaps between them, in 32 bits.
   */
  lemma {:induction false} CompletesAndCounts(input: seq<Arrival>, cap: nat, wantSei: bool)
    requires NoWrapAround(input)
    requires forall i :: 0 <= i < |input| ==> input[i].chunk.hdr.codec == CODEC_H265
    ensures var (rx, gs) := Track(input, cap, wantSei);
      && (rx.reasm, Completed(gs)) == Run(INITIAL, cap, ChunksOf(input))
      && rx.last == LastSeq(Completed(gs))
      && rx.framesLost == LostBetween(Completed(gs)) % 0x1_0000_0000
  {
    hide Fits, Receive, Feed, Completed, Grow, Taken, Missing, Run, Step, LostBetween;
    if input == [] {
      NothingCompleted();
      RunNothing(INITIAL, cap);
    } else {
      var n := |input| - 1;
      var before, a := input[..n], input[n];
      assert before + [a] == input && ChunksOf(input) == ChunksOf(before) + [a.chunk];
      CompletesAndCounts(before, cap, wantSei);
      ForwardingConserves(before, cap, wantSei);
      var (rx, gs) := Track(before, cap, wantSei);
      StepCompletes(rx, gs, before, cap, wantSei, a);
      RunSnoc(INITIAL, cap, ChunksOf(before), a.chunk);
      var out := Step(rx.reasm, cap, a.chunk).1;
      if out != [] {
        LostSnoc(Completed(gs), out[0]);
        assert out == [out[0]];
      } else {
        assert Completed(gs) + out == Completed(gs);
      }
    }
  }

  /** Any SEI of the frame is for its number and the time it was complete, and says that so many frames are lost. */
  ghost predicate SaysLost(g: Group, t: Clock, lost: u32)
    requires g.chunks != []
  {
    var h := g.chunks[0].hdr;
    forall i :: 0 <= i < |g.calls| && g.calls[i].sei != [] ==>
      exists stamp: Timing, nalType: byte ::
        nalType < 64 && g.calls[i].sei == Sei(stamp, nalType) && Tells(stamp, h.frameSeq, t, lost)
  }

  /** The frame was completed by one of the chunks that have come in, and its SEI has this count, in 32 bits. */
  ghost predicate Counts(g: Group, input: seq<Arrival>, lost: nat) {
    && 0 < |g.chunks| && g.first + |g.chunks| <= |input|
    && SaysLost(g, input[g.first + |g.chunks| - 1].clock, lost % 0x1_0000_0000)
  }

  /** The calls for a frame that is complete. */
  lemma LastSays(rx: RxState, cap: nat, wantSei: bool, t: Clock, i: nat)
    requires rx.fwdOff <= |rx.reasm.data|
    requires var calls := LastCalls(rx, cap, SeiFor(rx, wantSei, t)); i < |calls| && calls[i].sei != []
    ensures t.mapping.Some?
    ensures LastCalls(rx, cap, SeiFor(rx, wantSei, t))[i].sei == Sei(TimingOf(rx, t), SeiType(rx.fwdVcl))
  {
    hide Sei, TimingOf;
  }

  /** The chunk that completes a frame: its SEI has the count with this frame in it. */
  lemma StepSays(rx: RxState, gs: seq<Group>, input: seq<Arrival>, cap: nat, wantSei: bool, a: Arrival)
    requires RxValid(rx) && Fits(rx, gs, input, cap, wantSei) && a.chunk.hdr.chunkIdx < 0xFFFF
    requires var (st, complete) := Feed(rx.reasm, cap, a.chunk.hdr, a.chunk.payload);
             Taken(st, a.chunk.hdr) && complete
    ensures var (rx', calls) := Receive(rx, cap, wantSei, a.chunk, a.clock);
      var g := Open(gs, |input|, a.chunk);
      g.first + |g.chunks| == |input|
      && SaysLost(Group(g.first, g.chunks + [a.chunk], g.calls + calls, true), a.clock, rx'.framesLost)
  {
    hide Feed, Fits, Extends, Continues, Finishes, LastCalls, SeiFor, Missing, Payloads, Sei, Stamp, Sliced;
    var c := a.chunk;
    var (st, complete) := Feed(rx.reasm, cap, c.hdr, c.payload);
    TakenIff(rx.reasm, cap, c);
    FeedKeeps(rx, cap, c);
    OpenIsHeld(rx, gs, input, cap, c, wantSei);
    var s, g := Current(rx.reasm, c.hdr), Open(gs, |input|, c);
    FinishedBy(s, g, cap, c);
    var counted := CountLost(Fed(rx, st, c.hdr));
    var (rx', calls) := Receive(rx, cap, wantSei, c, a.clock);
    var h := (g.chunks + [c])[0].hdr;
    forall i | 0 <= i < |g.calls + calls| && (g.calls + calls)[i].sei != []
      ensures exists stamp: Timing, nalType: byte ::
        nalType < 64 && (g.calls + calls)[i].sei == Sei(stamp, nalType)
        && Tells(stamp, h.frameSeq, a.clock, rx'.framesLost)
    {
      assert i >= |g.calls|;
      LastSays(counted, cap, wantSei, a.clock, i - |g.calls|);
      StampTells(h.frameSeq, h.framePts, a.clock, rx'.framesLost);
      assert SeiType(counted.fwdVcl) < 64;
    }
  }

  lemma SomeInput(input: seq<Arrival>, cap: nat, wantSei: bool)
    requires Track(input, cap, wantSei).1 != []
    ensures input != []
  {
    hide Receive, Feed, Grow, Taken;
  }

  /**
   The SEI of every completed frame counts the losses up to that frame: the gaps between the
   frames completed until then, this one included.
   */
  lemma {:induction false} SeiCounts(input: seq<Arrival>, cap: nat, wantSei: bool, k: nat)
    requires NoWrapAround(input)
    requires forall i :: 0 <= i < |input| ==> input[i].chunk.hdr.codec == CODEC_H265
    requires k < |Track(input, cap, wantSei).1| && Track(input, cap, wantSei).1[k].complete
    ensures var gs := Track(input, cap, wantSei).1;
      Counts(gs[k], input, LostBetween(Completed(gs[..k + 1])))
    decreases |input|
  {
    hide Track, Fits, Receive, Feed, Completed, Grow, Taken, LostBetween, SaysLost, Counts;
    SomeInput(input, cap, wantSei);
    var n := |input| - 1;
    var before, a := input[..n], input[n];
    assert before + [a] == input;
    ForwardingConserves(before, cap, wantSei);
    TrackSnoc(before, cap, wantSei, a);
    var (rx, gs0) := Track(before, cap, wantSei);
    var gs := Track(input, cap, wantSei).1;
    var (st, complete) := Feed(rx.reasm, cap, a.chunk.hdr, a.chunk.payload);
    var calls := Receive(rx, cap, wantSei, a.chunk, a.clock).1;
    GrowIs(gs0, n, a.chunk, calls, complete);
    if Taken(st, a.chunk.hdr) && k == |gs| - 1 {
      StepSays(rx, gs0, before, cap, wantSei, a);
      CompletesAndCounts(input, cap, wantSei);
      assert gs[..k + 1] == gs;
      CountsNow(gs[k], input, LostBetween(Completed(gs)));
    } else {
      SameFront(gs0, gs, k);
      SeiCounts(before, cap, wantSei, k);
      CountsStill(gs[k], before, a, LostBetween(Completed(gs[..k + 1])));
    }
  }

  lemma CountsNow(g: Group, input: seq<Arrival>, lost: nat)
    requires 0 < |g.chunks| && g.first + |g.chunks| == |input|
    requires SaysLost(g, input[|input| - 1].clock, lost % 0x1_0000_0000)
    ensures Counts(g, input, lost)
  {
    hide SaysLost;
  }

  lemma CountsStill(g: Group, input: seq<Arrival>, a: Arrival, lost: nat)
    requires Counts(g, input, lost)
    ensures Counts(g, input + [a], lost)
  {
    hide SaysLost;
  }

  lemma SameFront<T>(a: seq<T>, b: seq<T>, k: nat)
    requires k < |a| && k < |b|
    requires a <= b || (|a| == |b| && k < |a| - 1 && a[..|a| - 1] == b[..|a| - 1])
    ensures a[k] == b[k] && a[..k + 1] == b[..k + 1]
  {
    if !(a <= b) {
      assert a[..|a| - 1][k] == b[..|a| - 1][k];
      assert a[..k + 1] == a[..|a| - 1][..k + 1] && b[..k + 1] == b[..|a| - 1][..k + 1];
    }
  }

  lemma NothingCompleted()
    ensures Completed([]) == [] && LostBetween([]) == 0
  {
  }

  lemma LostSnoc(outs: seq<Output>, o: Output)
    ensures LostBetween(outs + [o]) == LostBetween(outs) + Missing(LastSeq(outs), o.frameSeq)
    ensures LastSeq(outs + [o]) == Some(o.frameSeq)
  {
    assert (outs + [o])[..|outs|] == outs;
  }

  /** Places in the run of frames sent, numbered one by one, of those that came through. */
  predicate Places(at: seq<nat>, outs: seq<Output>, first: nat) {
    && |at| == |outs|
    && (forall i :: 0 <= i < |at| ==> outs[i].frameSeq as int == (first + at[i]) % 0x1_0000)
    && (forall i :: 1 <= i < |at| ==> at[i - 1] < at[i])
  }

  /** Never 999 frames or more are lost in a row. */
  predicate Close(at: seq<nat>) {
    forall i :: 1 <= i < |at| ==> at[i] < at[i - 1] + 1000
  }

  /**
   When the frames sent are numbered one by one, the gaps never add up to more than the frames
   sent between the first and the last completed that were not completed, and to exactly these
   if and only if never 999 or more are lost in a row.
   */
  lemma {:induction false} LostIff(at: seq<nat>, outs: seq<Output>, first: nat)
    requires outs != [] && Places(at, outs, first)
    ensures |at| == |outs|
    ensures at[0] + LostBetween(outs) + |outs| <= at[|at| - 1] + 1
    ensures at[0] + LostBetween(outs) + |outs| == at[|at| - 1] + 1 <==> Close(at)
    decreases |outs|
  {
    hide Missing;
    var n := |outs| - 1;
    if n > 0 {
      LostIff(at[..n], outs[..n], first);
      assert outs[..n] + [outs[n]] == outs;
      LostSnoc(outs[..n], outs[n]);
      GapIs(first, at[n - 1], at[n], outs[n - 1].frameSeq, outs[n].frameSeq);
      CloseSnoc(at);
    }
  }

  lemma CloseSnoc(at: seq<nat>)
    requires |at| >= 2
    ensures Close(at) <==> Close(at[..|at| - 1]) && at[|at| - 1] < at[|at| - 2] + 1000
  {
  }

  lemma GapIs(first: nat, a: nat, b: nat, s: u16, t: u16)
    requires s as int == (first + a) % 0x1_0000 && t as int == (first + b) % 0x1_0000
    requires a < b
    ensures Missing(Some(s), t) <= b - a - 1
    ensures Missing(Some(s), t) == b - a - 1 <==> b < a + 1000
  {
    hide Missing;
    var p, q := (first + a) / 0x1_0000, (first + b) / 0x1_0000;
    assert t as int - s as int == b - a + (p - q) * 0x1_0000;
    ModOf(b - a, p - q);
    MissingIs(s, t, (b - a) % 0x1_0000);
  }

  lemma MissingIs(s: u16, t: u16, gap: int)
    requires gap == (t as int - s as int) % 0x1_0000
    ensures Missing(Some(s), t) == if 1 < gap < 1000 then gap - 1 else 0
  {
  }

  lemma ModOf(x: int, k: int)
    ensures (x + k * 0x1_0000) % 0x1_0000 == x % 0x1_0000
  {
  }

  // Frames numbered one by one

  /** The frames sent carry the numbers first, first + 1, ... in 16 bits. */
  predicate OneByOne(sents: seq<Sent>, first: nat) {
    if sents == [] then true
    else if sents[0].Video? then
      sents[0].frame.meta.frameSeq as int == first % 0x1_0000 && OneByOne(sents[1..], first + 1)
    else OneByOne(sents[1..], first)
  }

  /** Which of the frames sent are delivered, counted from `from` on. */
  function DeliveredAt(sents: seq<Sent>, cap: nat, from: nat): seq<nat> {
    if sents == [] then []
    else if sents[0].Video? then
      (if AllSet(sents[0].mask) && |DataOf(sents[0].frame)| <= cap then [from] else [])
      + DeliveredAt(sents[1..], cap, from + 1)
    else DeliveredAt(sents[1..], cap, from)
  }

  lemma NoPlaces(first: nat)
    ensures Places([], [], first)
  {
  }

  lemma PlacesCons(from: nat, o: Output, at: seq<nat>, outs: seq<Output>, first: nat)
    requires Places(at, outs, first) && o.frameSeq as int == (first + from) % 0x1_0000
    requires forall i :: 0 <= i < |at| ==> from < at[i]
    ensures Places([from] + at, [o] + outs, first)
  {
  }

  lemma {:induction false} DeliveredPlaces(sents: seq<Sent>, cap: nat, first: nat, from: nat)
    requires OneByOne(sents, first + from)
    ensures Places(DeliveredAt(sents, cap, from), Delivered(sents, cap), first)
    ensures forall i :: 0 <= i < |DeliveredAt(sents, cap, from)| ==> from <= DeliveredAt(sents, cap, from)[i]
    decreases |sents|
  {
    hide AllSet, DataOf, Places;
    if sents == [] {
      NoPlaces(first);
    } else {
      if sents[0].Video? {
        DeliveredPlaces(sents[1..], cap, first, from + 1);
        if AllSet(sents[0].mask) && |DataOf(sents[0].frame)| <= cap {
          var o := OutputOf(sents[0].frame.meta, DataOf(sents[0].frame));
          PlacesCons(from, o, DeliveredAt(sents[1..], cap, from + 1), Delivered(sents[1..], cap), first);
        } else {
          assert [] + Delivered(sents[1..], cap) == Delivered(sents[1..], cap);
          assert [] + DeliveredAt(sents[1..], cap, from + 1) == DeliveredAt(sents[1..], cap, from + 1);
        }
      } else {
        DeliveredPlaces(sents[1..], cap, first, from);
        assert [] + Delivered(sents[1..], cap) == Delivered(sents[1..], cap);
      }
    }
  }
}
