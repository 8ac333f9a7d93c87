/**
 Frames over a channel that loses chunks but keeps their order: what common/chunker.c
 sends, fed to common/reassembly.c the way the receive loop of rx/main.c does.
 */
module Delivery {
  import opened Bytes
  import opened ChunkWire
  import opened Chunker
  import opened SentFrames
  import opened Reassembly

  /** A completed frame as the receive loop finds it in the reassembler. */
  datatype Output = Output(frameSeq: u16, framePts: u32, flags: byte, data: seq<byte>)

  /**
   One chunk received: anything but video goes elsewhere. A completed frame is taken out and
   the reassembler reset.
   */
  function Step(st: State, cap: nat, c: Chunk): (State, seq<Output>) {
    if c.hdr.codec != CODEC_H265 then (st, [])
    else
      var (t, complete) := Feed(st, cap, c.hdr, c.payload);
      if complete then (Reset(t), [Output(t.frameSeq, t.framePts, t.flags, t.data)]) else (t, [])
  }

  function Run(st: State, cap: nat, cs: seq<Chunk>): (State, seq<Output>)
    decreases |cs|
  {
    if cs == [] then (st, [])
    else
      var (s1, o1) := Step(st, cap, cs[0]);
      var (s2, o2) := Run(s1, cap, cs[1..]);
      (s2, o1 + o2)
  }

  lemma {:induction false} RunAppend(st: State, cap: nat, a: seq<Chunk>, b: seq<Chunk>)
    ensures var (s1, o1) := Run(st, cap, a);
      var (s2, o2) := Run(s1, cap, b);
      Run(st, cap, a + b) == (s2, o1 + o2)
    decreases |a|
  {
    hide Step;
    if a == [] {
      assert a + b == b;
      assert [] + Run(st, cap, b).1 == Run(st, cap, b).1;
    } else {
      assert (a + b)[0] == a[0] && (a + b)[1..] == a[1..] + b;
      var (s1, o1) := Step(st, cap, a[0]);
      RunAppend(s1, cap, a[1..], b);
      var (s2, o2) := Run(s1, cap, a[1..]);
      var (_, o3) := Run(s2, cap, b);
      assert o1 + (o2 + o3) == o1 + o2 + o3;
    }
  }

  /** The chunks that get through: those whose mark is set. */
  function Through(cs: seq<Chunk>, mask: seq<bool>): seq<Chunk>
    requires |cs| == |mask|
    decreases |cs|
  {
    if cs == [] then [] else (if mask[0] then [cs[0]] else []) + Through(cs[1..], mask[1..])
  }

  /** completed_frames counts what comes out. */
  lemma {:induction false} RunCounts(st: State, cap: nat, cs: seq<Chunk>)
    ensures Run(st, cap, cs).0.completedFrames == st.completedFrames + |Run(st, cap, cs).1|
    decreases |cs|
  {
    hide Step;
    if cs != [] {
      StepCounts(st, cap, cs[0]);
      RunCounts(Step(st, cap, cs[0]).0, cap, cs[1..]);
    }
  }

  lemma StepCounts(st: State, cap: nat, c: Chunk)
    ensures Step(st, cap, c).0.completedFrames == st.completedFrames + |Step(st, cap, c).1|
  {
  }

  // One frame

  /** Chunks 0 .. i - 1 of the frame have been taken, and it is not complete. */
  predicate Building(st: State, cs: seq<Chunk>, m: Meta, streamed: bool, i: nat) {
    && 1 <= i < |cs| <= 0xFFFF
    && st.active && !st.done && st.frameSeq == m.frameSeq && st.nextIdx == i
    && st.chunkCount == (if streamed then 0 else |cs|)
    && st.framePts == m.framePts && st.flags == m.flags
    && st.data == Payloads(cs[..i])
  }

  /** The reassembler is not in the middle of frame seqNo. */
  predicate NotOn(st: State, seqNo: u16) {
    !st.active || st.frameSeq != seqNo
  }

  function OutputOf(m: Meta, data: seq<byte>): Output {
    Output(m.frameSeq, m.framePts, m.flags, data)
  }

  lemma FirstTaken(st: State, cap: nat, cs: seq<Chunk>, m: Meta, streamed: bool)
    requires 1 <= |cs| && Numbered(cs, m, streamed, 0, |cs|) && m.codec == CODEC_H265
    requires NotOn(st, m.frameSeq) && |Payloads(cs[..1])| <= cap
    ensures |cs| > 1 ==> Building(Step(st, cap, cs[0]).0, cs, m, streamed, 1) && Step(st, cap, cs[0]).1 == []
    ensures |cs| == 1 ==> !Step(st, cap, cs[0]).0.active && Step(st, cap, cs[0]).1 == [OutputOf(m, Payloads(cs))]
  {
    PayloadsSnoc(cs, 0);
    assert cs[..0] == [];
    assert HeaderFits(cs[0].hdr, m, streamed, 0, |cs|);
    assert |cs| == 1 ==> cs[..1] == cs;
  }

  lemma NextTaken(st: State, cap: nat, cs: seq<Chunk>, m: Meta, streamed: bool, i: nat)
    requires Numbered(cs, m, streamed, 0, |cs|) && m.codec == CODEC_H265
    requires Building(st, cs, m, streamed, i)
    requires |Payloads(cs[..i + 1])| <= cap
    ensures i + 1 < |cs| ==> Building(Step(st, cap, cs[i]).0, cs, m, streamed, i + 1) && Step(st, cap, cs[i]).1 == []
    ensures i + 1 == |cs| ==> !Step(st, cap, cs[i]).0.active && Step(st, cap, cs[i]).1 == [OutputOf(m, Payloads(cs))]
  {
    PayloadsSnoc(cs, i);
    assert HeaderFits(cs[i].hdr, m, streamed, i, |cs|);
    assert i + 1 == |cs| ==> cs[..i + 1] == cs;
  }

  /** A chunk that is not the first, of a frame the reassembler is not on: it stays off it. */
  lemma StrayDropped(st: State, cap: nat, cs: seq<Chunk>, m: Meta, streamed: bool, i: nat)
    requires Numbered(cs, m, streamed, 0, |cs|) && m.codec == CODEC_H265 && 1 <= i < |cs| && NotOn(st, m.frameSeq)
    ensures !Step(st, cap, cs[i]).0.active && Step(st, cap, cs[i]).1 == []
  {
    assert HeaderFits(cs[i].hdr, m, streamed, i, |cs|);
  }

  /** A chunk that skips one, or no longer fits: the frame is given up. */
  lemma GapDropped(st: State, cap: nat, cs: seq<Chunk>, m: Meta, streamed: bool, i: nat, j: nat)
    requires Numbered(cs, m, streamed, 0, |cs|) && m.codec == CODEC_H265
    requires Building(st, cs, m, streamed, i)
    requires i < j < |cs| || (i == j && |Payloads(cs[..i + 1])| > cap)
    ensures !Step(st, cap, cs[j]).0.active && Step(st, cap, cs[j]).1 == []
  {
    assert HeaderFits(cs[j].hdr, m, streamed, j, |cs|);
    if i == j {
      PayloadsSnoc(cs, i);
    }
  }

  lemma FirstTooLong(st: State, cap: nat, cs: seq<Chunk>, m: Meta, streamed: bool)
    requires 1 <= |cs| && Numbered(cs, m, streamed, 0, |cs|) && m.codec == CODEC_H265
    requires NotOn(st, m.frameSeq) && |Payloads(cs[..1])| > cap
    ensures !Step(st, cap, cs[0]).0.active && Step(st, cap, cs[0]).1 == []
  {
    PayloadsSnoc(cs, 0);
    assert cs[..0] == [];
    assert HeaderFits(cs[0].hdr, m, streamed, 0, |cs|);
  }

  predicate AllSet(mask: seq<bool>) {
    forall i :: 0 <= i < |mask| ==> mask[i]
  }

  lemma {:induction false} PayloadsGrow(cs: seq<Chunk>, i: nat, j: nat)
    requires i <= j <= |cs|
    ensures |Payloads(cs[..i])| <= |Payloads(cs[..j])|
    decreases j
  {
    if i < j {
      PayloadsGrow(cs, i, j - 1);
      PayloadsSnoc(cs, j - 1);
    }
  }

  /** Off the frame, none of its later chunks brings the reassembler back on it. */
  lemma {:induction false} LostStaysLost(st: State, cap: nat, cs: seq<Chunk>, m: Meta, streamed: bool,
                                         i: nat, mask: seq<bool>)
    requires Numbered(cs, m, streamed, 0, |cs|) && m.codec == CODEC_H265 && 1 <= i <= |cs| && |mask| == |cs| - i
    requires NotOn(st, m.frameSeq)
    ensures var (t, out) := Run(st, cap, Through(cs[i..], mask));
      out == [] && if Through(cs[i..], mask) == [] then t == st else !t.active
    decreases |cs| - i
  {
    hide Step, Numbered;
    if i < |cs| {
      assert cs[i..][1..] == cs[i + 1..];
      var rest := Through(cs[i + 1..], mask[1..]);
      if mask[0] {
        StrayDropped(st, cap, cs, m, streamed, i);
        var s1 := Step(st, cap, cs[i]).0;
        LostStaysLost(s1, cap, cs, m, streamed, i + 1, mask[1..]);
        ConsStep(st, cap, cs[i], rest);
      } else {
        LostStaysLost(st, cap, cs, m, streamed, i + 1, mask[1..]);
        assert [] + rest == rest;
      }
    }
  }

  lemma ConsStep(st: State, cap: nat, c: Chunk, rest: seq<Chunk>)
    ensures var (s1, o1) := Step(st, cap, c);
      var (s2, o2) := Run(s1, cap, rest);
      Run(st, cap, [c] + rest) == (s2, o1 + o2)
  {
    assert ([c] + rest)[1..] == rest;
  }

  /** The frame comes out if and only if every chunk gets through and it fits the buffer. */
  predicate Arrives(cs: seq<Chunk>, mask: seq<bool>, cap: nat) {
    AllSet(mask) && |Payloads(cs)| <= cap
  }

  /** From chunk i on, the ones before it having been taken. */
  lemma {:induction false} BuildOn(st: State, cap: nat, cs: seq<Chunk>, m: Meta, streamed: bool,
                                   i: nat, mask: seq<bool>)
    requires Numbered(cs, m, streamed, 0, |cs|) && m.codec == CODEC_H265
    requires Building(st, cs, m, streamed, i) && |mask| == |cs| - i
    ensures var (t, out) := Run(st, cap, Through(cs[i..], mask));
      if Arrives(cs, mask, cap) then out == [OutputOf(m, Payloads(cs))] && !t.active
      else out == [] && (!t.active || t.frameSeq == m.frameSeq)
    decreases |cs| - i
  {
    hide Step, Numbered, Payloads, Run, Through, AllSet, OutputOf;
    BuildingHere(st, cs, m, streamed, i);
    ThroughStep(cs, mask, i);
    AllSetCons(mask);
    var rest := Through(cs[i + 1..], mask[1..]);
    if !mask[0] {
      SkippedOne(st, cap, cs, m, streamed, i, i + 1, mask[1..]);
    } else {
      ConsStep(st, cap, cs[i], rest);
      var (s1, o1) := Step(st, cap, cs[i]);
      PayloadsGrow(cs, i + 1, |cs|);
      assert cs[..|cs|] == cs;
      if |Payloads(cs[..i + 1])| > cap {
        GapDropped(st, cap, cs, m, streamed, i, i);
        LostStaysLost(s1, cap, cs, m, streamed, i + 1, mask[1..]);
      } else {
        NextTaken(st, cap, cs, m, streamed, i);
        if i + 1 < |cs| {
          BuildOn(s1, cap, cs, m, streamed, i + 1, mask[1..]);
        } else {
          NothingThrough(cs, mask[1..]);
          RunNothing(s1, cap);
        }
      }
    }
  }

  lemma BuildingHere(st: State, cs: seq<Chunk>, m: Meta, streamed: bool, i: nat)
    requires Building(st, cs, m, streamed, i)
    ensures i < |cs| && (!st.active || st.frameSeq == m.frameSeq)
  {
  }

  lemma ThroughStep(cs: seq<Chunk>, mask: seq<bool>, i: nat)
    requires i < |cs| && |mask| == |cs| - i
    ensures Through(cs[i..], mask)
            == if mask[0] then [cs[i]] + Through(cs[i + 1..], mask[1..]) else Through(cs[i + 1..], mask[1..])
  {
    assert cs[i..][1..] == cs[i + 1..];
    assert [] + Through(cs[i + 1..], mask[1..]) == Through(cs[i + 1..], mask[1..]);
  }

  lemma NothingThrough(cs: seq<Chunk>, mask: seq<bool>)
    requires mask == []
    ensures Through(cs[|cs|..], mask) == [] && AllSet(mask)
  {
  }

  lemma AllSetCons(mask: seq<bool>)
    requires mask != []
    ensures AllSet(mask) <==> mask[0] && AllSet(mask[1..])
  {
    assert mask == [mask[0]] + mask[1..];
  }

  /** Chunks i .. j - 1 did not get through; the next one that does shows the gap. */
  lemma {:induction false} SkippedOne(st: State, cap: nat, cs: seq<Chunk>, m: Meta, streamed: bool,
                                      i: nat, j: nat, mask: seq<bool>)
    requires Numbered(cs, m, streamed, 0, |cs|) && m.codec == CODEC_H265
    requires Building(st, cs, m, streamed, i) && i < j <= |cs| && |mask| == |cs| - j
    ensures var (t, out) := Run(st, cap, Through(cs[j..], mask));
      out == [] && (t == st || !t.active)
    decreases |cs| - j
  {
    hide Step, Numbered;
    if j < |cs| {
      assert cs[j..][1..] == cs[j + 1..];
      var rest := Through(cs[j + 1..], mask[1..]);
      if mask[0] {
        ConsStep(st, cap, cs[j], rest);
        GapDropped(st, cap, cs, m, streamed, i, j);
        LostStaysLost(Step(st, cap, cs[j]).0, cap, cs, m, streamed, j + 1, mask[1..]);
      } else {
        assert [] + rest == rest;
        SkippedOne(st, cap, cs, m, streamed, i, j + 1, mask[1..]);
      }
    }
  }

  /** A whole frame's worth of chunks, with any of them lost. */
  lemma FrameRun(st: State, cap: nat, cs: seq<Chunk>, m: Meta, streamed: bool, mask: seq<bool>)
    requires 1 <= |cs| == |mask| && Numbered(cs, m, streamed, 0, |cs|) && m.codec == CODEC_H265
    requires Through(cs, mask) != [] ==> NotOn(st, m.frameSeq)
    ensures var (t, out) := Run(st, cap, Through(cs, mask));
      && out == (if Arrives(cs, mask, cap) then [OutputOf(m, Payloads(cs))] else [])
      && (if Through(cs, mask) == [] then t == st else !t.active || t.frameSeq == m.frameSeq)
  {
    hide Step, Numbered, Payloads;
    var rest := Through(cs[1..], mask[1..]);
    AllSetCons(mask);
    if !mask[0] {
      assert [] + rest == rest;
      if rest != [] {
        LostStaysLost(st, cap, cs, m, streamed, 1, mask[1..]);
      }
    } else {
      ConsStep(st, cap, cs[0], rest);
      var s1 := Step(st, cap, cs[0]).0;
      PayloadsGrow(cs, 1, |cs|);
      assert cs[..|cs|] == cs;
      if |Payloads(cs[..1])| > cap {
        FirstTooLong(st, cap, cs, m, streamed);
        LostStaysLost(s1, cap, cs, m, streamed, 1, mask[1..]);
      } else {
        FirstTaken(st, cap, cs, m, streamed);
        if |cs| > 1 {
          BuildOn(s1, cap, cs, m, streamed, 1, mask[1..]);
        } else {
          assert rest == [];
          RunNothing(s1, cap);
        }
      }
    }
  }

  // Many frames

  /** What the sender puts on the wire, in order, and which of its chunks get through. */
  datatype Sent =
    | Video(frame: Frame, mask: seq<bool>)
    | Other(chunk: Chunk, through: bool)  // control or sidecar, written between frames

  predicate WellFormed(s: Sent, chunkPayload: nat) {
    match s
    case Video(f, mask) =>
      Sendable(f, chunkPayload) && f.meta.codec == CODEC_H265 && |mask| == |FrameChunks(f, chunkPayload)|
    case Other(c, _) => c.hdr.codec != CODEC_H265 && Intact(c)
  }

  predicate AllWellFormed(sents: seq<Sent>, chunkPayload: nat) {
    forall i :: 0 <= i < |sents| ==> WellFormed(sents[i], chunkPayload)
  }

  function Received(s: Sent, chunkPayload: nat): seq<Chunk>
    requires WellFormed(s, chunkPayload)
  {
    match s
    case Video(f, mask) => Through(FrameChunks(f, chunkPayload), mask)
    case Other(c, through) => if through then [c] else []
  }

  function AllReceived(sents: seq<Sent>, chunkPayload: nat): seq<Chunk>
    requires AllWellFormed(sents, chunkPayload)
  {
    if sents == [] then [] else Received(sents[0], chunkPayload) + AllReceived(sents[1..], chunkPayload)
  }

  /** The frames all of whose chunks get through, and that fit the receiver's buffer. */
  function Delivered(sents: seq<Sent>, cap: nat): seq<Output> {
    if sents == [] then []
    else
      (if sents[0].Video? && AllSet(sents[0].mask) && |DataOf(sents[0].frame)| <= cap
       then [OutputOf(sents[0].frame.meta, DataOf(sents[0].frame))] else [])
      + Delivered(sents[1..], cap)
  }

  /**
   Two frames of which something arrives, with nothing of another frame in between, differ in
   frame_seq. last is the one before.
   */
  predicate Distinguishable(sents: seq<Sent>, chunkPayload: nat, last: Option<u16>)
    requires AllWellFormed(sents, chunkPayload)
  {
    if sents == [] then true
    else if sents[0].Video? && Received(sents[0], chunkPayload) != [] then
      last != Some(sents[0].frame.meta.frameSeq)
      && Distinguishable(sents[1..], chunkPayload, Some(sents[0].frame.meta.frameSeq))
    else Distinguishable(sents[1..], chunkPayload, last)
  }

  lemma SentRun(st: State, cap: nat, s: Sent, chunkPayload: nat, last: Option<u16>)
    requires WellFormed(s, chunkPayload)
    requires st.active ==> last == Some(st.frameSeq)
    requires s.Video? && Received(s, chunkPayload) != [] ==> last != Some(s.frame.meta.frameSeq)
    ensures var (t, out) := Run(st, cap, Received(s, chunkPayload));
      && out == Delivered([s], cap)
      && (t.active ==> if s.Video? && Received(s, chunkPayload) != []
                       then t.frameSeq == s.frame.meta.frameSeq else last == Some(t.frameSeq))
  {
    hide Numbered, Payloads, FrameChunks, AllSet;
    assert Delivered([s][1..], cap) == [];
    match s
    case Video(f, mask) =>
      FrameIsNumbered(f, chunkPayload);
      FrameRun(st, cap, FrameChunks(f, chunkPayload), f.meta, f.Streamed?, mask);
    case Other(c, through) =>
      if through {
        ConsStep(st, cap, c, []);
        assert [c] + [] == [c];
      }
  }

  /**
   Exactly the frames all of whose chunks get through are completed: once each, in order,
   byte for byte, with their pts and flags. Frames sent whole and frames sent in parts may be
   mixed, and other traffic may run between them.
   */
  lemma {:induction false} LossyDelivery(st: State, cap: nat, sents: seq<Sent>, chunkPayload: nat, last: Option<u16>)
    requires AllWellFormed(sents, chunkPayload)
    requires st.active ==> last == Some(st.frameSeq)
    requires Distinguishable(sents, chunkPayload, last)
    ensures Run(st, cap, AllReceived(sents, chunkPayload)).1 == Delivered(sents, cap)
    decreases |sents|
  {
    hide Run, WellFormed, Received;
    if sents == [] {
      RunNothing(st, cap);
    } else {
      var head, tail := Received(sents[0], chunkPayload), AllReceived(sents[1..], chunkPayload);
      SentRun(st, cap, sents[0], chunkPayload, last);
      var s1 := Run(st, cap, head).0;
      var last1 := if sents[0].Video? && head != [] then Some(sents[0].frame.meta.frameSeq) else last;
      LossyDelivery(s1, cap, sents[1..], chunkPayload, last1);
      RunAppend(st, cap, head, tail);
      DeliveredCons(sents, cap);
    }
  }

  lemma RunNothing(st: State, cap: nat)
    ensures Run(st, cap, []) == (st, [])
  {
  }

  lemma DeliveredCons(sents: seq<Sent>, cap: nat)
    requires sents != []
    ensures Delivered(sents, cap) == Delivered([sents[0]], cap) + Delivered(sents[1..], cap)
  {
    assert Delivered([sents[0]][1..], cap) == [];
  }
}
