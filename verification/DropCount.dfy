/** What dropped_frames of common/reassembly.c counts, over a channel that loses chunks but keeps their order. */
module DropCount {
  import opened Bytes
  import opened ChunkWire
  import opened SentFrames
  import opened Chunker
  import opened Reassembly
  import opened Delivery

  /** The frames counted so far, and the one that will be if no more of it comes. */
  function Score(st: State): nat {
    st.droppedFrames + if Pending(st) then 1 else 0
  }

  /** A frame in progress has not been counted, and a done one has been taken out. */
  predicate Clear(st: State) {
    st.active ==> !st.done && st.lastBadSeq != Some(st.frameSeq)
  }

  /** Nothing of frame seqNo has been seen. */
  predicate Unseen(st: State, seqNo: u16) {
    NotOn(st, seqNo) && st.lastBadSeq != Some(seqNo)
  }

  /** Frame seqNo has been given up and counted. */
  predicate GivenUp(st: State, seqNo: u16) {
    !st.active && st.lastBadSeq == Some(seqNo)
  }

  predicate NoneSet(mask: seq<bool>) {
    forall i :: 0 <= i < |mask| ==> !mask[i]
  }

  /** From chunk i on, what arrives goes without a gap, and fits. */
  predicate OnlyTailLost(cs: seq<Chunk>, i: nat, mask: seq<bool>, cap: nat)
    requires i + |mask| == |cs|
    decreases |mask|
  {
    if mask == [] then true
    else if mask[0] then |Payloads(cs[..i + 1])| <= cap && OnlyTailLost(cs, i + 1, mask[1..], cap)
    else NoneSet(mask)
  }

  /** The chunks of the frame that did not get through, or not all fit, leave a mark on the count. */
  predicate Counted(cs: seq<Chunk>, i: nat, mask: seq<bool>, cap: nat, streamed: bool)
    requires i + |mask| == |cs|
  {
    if streamed then !Arrives(cs, mask, cap) else !OnlyTailLost(cs, i, mask, cap)
  }

  function Toll(cs: seq<Chunk>, mask: seq<bool>, cap: nat, streamed: bool): nat
    requires |mask| == |cs|
  {
    if NoneSet(mask) || !Counted(cs, 0, mask, cap, streamed) then 0 else 1
  }

  // One chunk

  lemma FirstScore(st: State, cap: nat, cs: seq<Chunk>, m: Meta, streamed: bool)
    requires 1 <= |cs| && Numbered(cs, m, streamed, 0, |cs|) && m.codec == CODEC_H265
    requires Clear(st) && Unseen(st, m.frameSeq) && |Payloads(cs[..1])| <= cap
    ensures var t := Step(st, cap, cs[0]).0;
      && Score(t) == Score(st) + One(streamed && |cs| > 1)
      && Clear(t) && t.lastBadSeq != Some(m.frameSeq)
      && (t.lastBadSeq == st.lastBadSeq || (st.active && t.lastBadSeq == Some(st.frameSeq)))
  {
    PayloadsSnoc(cs, 0);
    assert cs[..0] == [];
    assert HeaderFits(cs[0].hdr, m, streamed, 0, |cs|);
  }

  lemma NextScore(st: State, cap: nat, cs: seq<Chunk>, m: Meta, streamed: bool, i: nat)
    requires Numbered(cs, m, streamed, 0, |cs|) && m.codec == CODEC_H265
    requires Building(st, cs, m, streamed, i) && st.lastBadSeq != Some(m.frameSeq)
    requires |Payloads(cs[..i + 1])| <= cap
    ensures var t := Step(st, cap, cs[i]).0;
      && Score(t) == Score(st) - One(streamed && i + 1 == |cs|)
      && Clear(t) && t.lastBadSeq == st.lastBadSeq
  {
    PayloadsSnoc(cs, i);
    assert HeaderFits(cs[i].hdr, m, streamed, i, |cs|);
  }

  lemma StrayScore(st: State, cap: nat, cs: seq<Chunk>, m: Meta, streamed: bool, i: nat)
    requires Numbered(cs, m, streamed, 0, |cs|) && m.codec == CODEC_H265 && 1 <= i < |cs|
    requires (Clear(st) && Unseen(st, m.frameSeq)) || GivenUp(st, m.frameSeq)
    ensures var t := Step(st, cap, cs[i]).0;
      GivenUp(t, m.frameSeq) && Score(t) == Score(st) + One(!GivenUp(st, m.frameSeq))
  {
    assert HeaderFits(cs[i].hdr, m, streamed, i, |cs|);
  }

  lemma GapScore(st: State, cap: nat, cs: seq<Chunk>, m: Meta, streamed: bool, i: nat, j: nat)
    requires Numbered(cs, m, streamed, 0, |cs|) && m.codec == CODEC_H265
    requires Building(st, cs, m, streamed, i) && st.lastBadSeq != Some(m.frameSeq)
    requires i < j < |cs| || (i == j && |Payloads(cs[..i + 1])| > cap)
    ensures var t := Step(st, cap, cs[j]).0;
      GivenUp(t, m.frameSeq) && Score(t) == Score(st) + One(!streamed)
  {
    assert HeaderFits(cs[j].hdr, m, streamed, j, |cs|);
    if i == j {
      PayloadsSnoc(cs, i);
    }
  }

  lemma TooLongScore(st: State, cap: nat, cs: seq<Chunk>, m: Meta, streamed: bool)
    requires 1 <= |cs| && Numbered(cs, m, streamed, 0, |cs|) && m.codec == CODEC_H265
    requires Clear(st) && Unseen(st, m.frameSeq) && |Payloads(cs[..1])| > cap
    ensures var t := Step(st, cap, cs[0]).0;
      GivenUp(t, m.frameSeq) && Score(t) == Score(st) + 1
  {
    PayloadsSnoc(cs, 0);
    assert cs[..0] == [];
    assert HeaderFits(cs[0].hdr, m, streamed, 0, |cs|);
  }

  // One frame

  lemma ThroughNone(cs: seq<Chunk>, mask: seq<bool>)
    requires |cs| == |mask|
    ensures Through(cs, mask) == [] <==> NoneSet(mask)
    decreases |cs|
  {
    if cs != [] {
      ThroughNone(cs[1..], mask[1..]);
      assert mask == [mask[0]] + mask[1..];
    }
  }

  /** Once counted, the frame is not counted again; otherwise any later chunk of it does count. */
  lemma {:induction false} StrayRun(st: State, cap: nat, cs: seq<Chunk>, m: Meta, streamed: bool,
                                    i: nat, mask: seq<bool>)
    requires Numbered(cs, m, streamed, 0, |cs|) && m.codec == CODEC_H265 && 1 <= i <= |cs| && |mask| == |cs| - i
    requires (Clear(st) && Unseen(st, m.frameSeq)) || GivenUp(st, m.frameSeq)
    ensures var t := Run(st, cap, Through(cs[i..], mask)).0;
      if NoneSet(mask) then t == st
      else GivenUp(t, m.frameSeq) && Score(t) == Score(st) + One(!GivenUp(st, m.frameSeq))
    decreases |cs| - i
  {
    hide Step, Numbered, Clear, Unseen, Score;
    ThroughNone(cs[i..], mask);
    if i < |cs| {
      assert cs[i..][1..] == cs[i + 1..];
      var rest := Through(cs[i + 1..], mask[1..]);
      assert mask == [mask[0]] + mask[1..];
      if mask[0] {
        StrayScore(st, cap, cs, m, streamed, i);
        StrayRun(Step(st, cap, cs[i]).0, cap, cs, m, streamed, i + 1, mask[1..]);
        ConsStep(st, cap, cs[i], rest);
      } else {
        StrayRun(st, cap, cs, m, streamed, i + 1, mask[1..]);
        assert [] + rest == rest;
      }
    }
  }

  /** Chunks i .. j - 1 are missing: the next one that gets through shows it. */
  lemma {:induction false} GapRun(st: State, cap: nat, cs: seq<Chunk>, m: Meta, streamed: bool,
                                  i: nat, j: nat, mask: seq<bool>)
    requires Numbered(cs, m, streamed, 0, |cs|) && m.codec == CODEC_H265
    requires Building(st, cs, m, streamed, i) && st.lastBadSeq != Some(m.frameSeq)
    requires i < j <= |cs| && |mask| == |cs| - j
    ensures var t := Run(st, cap, Through(cs[j..], mask)).0;
      if NoneSet(mask) then t == st
      else GivenUp(t, m.frameSeq) && Score(t) == Score(st) + One(!streamed)
    decreases |cs| - j
  {
    hide Step, Numbered, Score, Building;
    ThroughNone(cs[j..], mask);
    if j < |cs| {
      assert cs[j..][1..] == cs[j + 1..];
      var rest := Through(cs[j + 1..], mask[1..]);
      assert mask == [mask[0]] + mask[1..];
      if mask[0] {
        GapScore(st, cap, cs, m, streamed, i, j);
        StrayRun(Step(st, cap, cs[j]).0, cap, cs, m, streamed, j + 1, mask[1..]);
        ConsStep(st, cap, cs[j], rest);
      } else {
        GapRun(st, cap, cs, m, streamed, i, j + 1, mask[1..]);
        assert [] + rest == rest;
      }
    }
  }

  /** What a frame that has begun adds to the count, the streamed one being counted as lost at first. */
  predicate Settles(t: State, st: State, m: Meta, streamed: bool, counted: bool) {
    && Score(t) == Score(st) - One(streamed) + One(counted)
    && Clear(t)
    && (t.active ==> t.frameSeq == m.frameSeq)
    && (t.lastBadSeq == st.lastBadSeq || t.lastBadSeq == Some(m.frameSeq))
  }

  /** How the next chunk's mark tells whether the frame counts. */
  lemma CountedCons(cs: seq<Chunk>, i: nat, mask: seq<bool>, cap: nat, streamed: bool)
    requires mask != [] && i + |mask| == |cs|
    ensures !mask[0] ==> Counted(cs, i, mask, cap, streamed) == (streamed || !NoneSet(mask[1..]))
    ensures mask[0] && |Payloads(cs[..i + 1])| > cap ==> Counted(cs, i, mask, cap, streamed)
    ensures mask[0] && |Payloads(cs[..i + 1])| <= cap ==>
              Counted(cs, i, mask, cap, streamed) == Counted(cs, i + 1, mask[1..], cap, streamed)
    ensures |mask| == 1 && mask[0] && |Payloads(cs[..i + 1])| <= cap ==> !Counted(cs, i, mask, cap, streamed)
  {
    hide Payloads;
    AllSetCons(mask);
    assert mask == [mask[0]] + mask[1..];
    PayloadsGrow(cs, i + 1, |cs|);
    assert cs[..|cs|] == cs;
  }

  lemma {:induction false} BuildRun(st: State, cap: nat, cs: seq<Chunk>, m: Meta, streamed: bool,
                                    i: nat, mask: seq<bool>)
    requires Numbered(cs, m, streamed, 0, |cs|) && m.codec == CODEC_H265
    requires Building(st, cs, m, streamed, i) && st.lastBadSeq != Some(m.frameSeq) && |mask| == |cs| - i
    ensures Settles(Run(st, cap, Through(cs[i..], mask)).0, st, m, streamed, Counted(cs, i, mask, cap, streamed))
    decreases |cs| - i
  {
    hide Step, Numbered, Payloads, Score, Counted, Building, NoneSet, Run;
    BuildingIs(st, cs, m, streamed, i);
    ThroughCons(cs, i, mask);
    CountedCons(cs, i, mask, cap, streamed);
    var rest := Through(cs[i + 1..], mask[1..]);
    if !mask[0] {
      GapRun(st, cap, cs, m, streamed, i, i + 1, mask[1..]);
    } else {
      ConsStep(st, cap, cs[i], rest);
      var s1 := Step(st, cap, cs[i]).0;
      if |Payloads(cs[..i + 1])| > cap {
        GapScore(st, cap, cs, m, streamed, i, i);
        StrayRun(s1, cap, cs, m, streamed, i + 1, mask[1..]);
      } else {
        NextTaken(st, cap, cs, m, streamed, i);
        NextScore(st, cap, cs, m, streamed, i);
        if i + 1 < |cs| {
          BuildRun(s1, cap, cs, m, streamed, i + 1, mask[1..]);
        } else {
          RunNothing(s1, cap);
        }
      }
    }
  }

  lemma ThroughCons(cs: seq<Chunk>, i: nat, mask: seq<bool>)
    requires i < |cs| && |mask| == |cs| - i
    ensures var rest := Through(cs[i + 1..], mask[1..]);
      Through(cs[i..], mask) == if mask[0] then [cs[i]] + rest else rest
  {
    assert cs[i..][1..] == cs[i + 1..];
  }

  lemma BuildingIs(st: State, cs: seq<Chunk>, m: Meta, streamed: bool, i: nat)
    requires Building(st, cs, m, streamed, i)
    ensures 1 <= i < |cs| && st.active && !st.done && st.frameSeq == m.frameSeq
    ensures streamed ==> Score(st) >= 1
  {
  }

  /** A whole frame's worth of chunks, with any of them lost. */
  lemma FrameScore(st: State, cap: nat, cs: seq<Chunk>, m: Meta, streamed: bool, mask: seq<bool>)
    requires 1 <= |cs| == |mask| && Numbered(cs, m, streamed, 0, |cs|) && m.codec == CODEC_H265
    requires Clear(st) && Unseen(st, m.frameSeq)
    ensures var t := Run(st, cap, Through(cs, mask)).0;
      && Score(t) == Score(st) + Toll(cs, mask, cap, streamed)
      && Clear(t) && OnlyMoves(t, st, m.frameSeq)
  {
    hide Step, Numbered, Payloads, Score, Counted, NoneSet, Run;
    assert cs[0..] == cs;
    ThroughCons(cs, 0, mask);
    CountedCons(cs, 0, mask, cap, streamed);
    NoneSetCons(mask);
    var rest := Through(cs[1..], mask[1..]);
    if !mask[0] {
      StrayRun(st, cap, cs, m, streamed, 1, mask[1..]);
    } else {
      ConsStep(st, cap, cs[0], rest);
      var s1 := Step(st, cap, cs[0]).0;
      if |Payloads(cs[..1])| > cap {
        TooLongScore(st, cap, cs, m, streamed);
        StrayRun(s1, cap, cs, m, streamed, 1, mask[1..]);
      } else {
        FirstTaken(st, cap, cs, m, streamed);
        FirstScore(st, cap, cs, m, streamed);
        if |cs| > 1 {
          BuildRun(s1, cap, cs, m, streamed, 1, mask[1..]);
        } else {
          RunNothing(s1, cap);
        }
      }
    }
  }

  lemma NoneSetCons(mask: seq<bool>)
    requires mask != []
    ensures NoneSet(mask) <==> !mask[0] && NoneSet(mask[1..])
  {
    assert mask == [mask[0]] + mask[1..];
  }

  /** No frame_seq but these shows up in the state. */
  predicate OnlyMoves(t: State, st: State, seqNo: u16) {
    && (t.active ==> t.frameSeq == seqNo || (st.active && t.frameSeq == st.frameSeq))
    && (t.lastBadSeq == None || t.lastBadSeq == Some(seqNo) || t.lastBadSeq == st.lastBadSeq
        || (st.active && t.lastBadSeq == Some(st.frameSeq)))
  }

  // Many frames

  predicate AllDistinct(sents: seq<Sent>) {
    forall i, j :: 0 <= i < j < |sents| && sents[i].Video? && sents[j].Video? ==>
      sents[i].frame.meta.frameSeq != sents[j].frame.meta.frameSeq
  }

  /** None of the frames has been seen. */
  predicate AllUnseen(st: State, sents: seq<Sent>) {
    forall i :: 0 <= i < |sents| && sents[i].Video? ==> Unseen(st, sents[i].frame.meta.frameSeq)
  }

  function TollOf(s: Sent, chunkPayload: nat, cap: nat): nat
    requires WellFormed(s, chunkPayload)
  {
    match s
    case Video(f, mask) => Toll(FrameChunks(f, chunkPayload), mask, cap, f.Streamed?)
    case Other(_, _) => 0
  }

  function TotalToll(sents: seq<Sent>, chunkPayload: nat, cap: nat): nat
    requires AllWellFormed(sents, chunkPayload)
  {
    if sents == [] then 0 else TollOf(sents[0], chunkPayload, cap) + TotalToll(sents[1..], chunkPayload, cap)
  }

  lemma SentScore(st: State, cap: nat, s: Sent, chunkPayload: nat)
    requires WellFormed(s, chunkPayload) && Clear(st)
    requires s.Video? ==> Unseen(st, s.frame.meta.frameSeq)
    ensures var t := Run(st, cap, Received(s, chunkPayload)).0;
      && Score(t) == Score(st) + TollOf(s, chunkPayload, cap)
      && Clear(t) && (if s.Video? then OnlyMoves(t, st, s.frame.meta.frameSeq) else t == st)
  {
    hide Numbered, Payloads, FrameChunks, Toll;
    match s
    case Video(f, mask) =>
      FrameIsNumbered(f, chunkPayload);
      FrameScore(st, cap, FrameChunks(f, chunkPayload), f.meta, f.Streamed?, mask);
    case Other(c, through) =>
      RunNothing(st, cap);
      if through {
        ConsStep(st, cap, c, []);
        assert [c] + [] == [c];
      }
  }

  /**
   The counter is exact: with each frame_seq used once, dropped_frames, together with a
   streamed frame that is still open, grows by exactly one for every frame of which something
   arrived and that was not completed, except a frame sent whole that lost only its tail.
   */
  lemma {:induction false} DroppedIsExact(st: State, cap: nat, sents: seq<Sent>, chunkPayload: nat)
    requires AllWellFormed(sents, chunkPayload) && AllDistinct(sents)
    requires Clear(st) && AllUnseen(st, sents)
    ensures Score(Run(st, cap, AllReceived(sents, chunkPayload)).0) == Score(st) + TotalToll(sents, chunkPayload, cap)
    decreases |sents|
  {
    hide Run, WellFormed, Received, Score, Clear, TollOf;
    if sents == [] {
      RunNothing(st, cap);
    } else {
      var head, tail := Received(sents[0], chunkPayload), AllReceived(sents[1..], chunkPayload);
      SentScore(st, cap, sents[0], chunkPayload);
      var s1 := Run(st, cap, head).0;
      forall i | 0 <= i < |sents[1..]| && sents[1..][i].Video?
        ensures Unseen(s1, sents[1..][i].frame.meta.frameSeq)
      {
        assert sents[1..][i] == sents[i + 1];
      }
      DroppedIsExact(s1, cap, sents[1..], chunkPayload);
      RunAppend(st, cap, head, tail);
    }
  }

  /** Which frames leave no mark on the counter. */
  lemma NoTollIff(cs: seq<Chunk>, mask: seq<bool>, cap: nat, streamed: bool)
    requires 1 <= |cs| == |mask|
    ensures Toll(cs, mask, cap, streamed) == 0 <==>
              (if streamed then NoneSet(mask) || Arrives(cs, mask, cap)
               else exists k :: 0 <= k <= |cs| && IsCut(mask, k) && (k > 0 ==> |Payloads(cs[..k])| <= cap))
  {
    hide Payloads;
    assert cs[0..] == cs;
    if !streamed {
      OnlyTailIff(cs, 0, mask, cap);
      if NoneSet(mask) {
        assert IsCut(mask, 0);
      } else if OnlyTailLost(cs, 0, mask, cap) {
        var k :| 0 <= k <= |mask| && IsCut(mask, k) && (k > 0 ==> |Payloads(cs[..k])| <= cap);
      }
    }
  }

  /** The first k marks are set, and no more. */
  predicate IsCut(mask: seq<bool>, k: nat) {
    forall i :: 0 <= i < |mask| ==> (mask[i] <==> i < k)
  }

  lemma {:induction false} OnlyTailIff(cs: seq<Chunk>, i: nat, mask: seq<bool>, cap: nat)
    requires i + |mask| == |cs|
    ensures OnlyTailLost(cs, i, mask, cap) <==>
            exists k :: 0 <= k <= |mask| && IsCut(mask, k) && (k > 0 ==> |Payloads(cs[..i + k])| <= cap)
    decreases |mask|
  {
    hide Payloads;
    if mask == [] {
      assert IsCut(mask, 0);
    } else if !mask[0] {
      if NoneSet(mask) {
        assert IsCut(mask, 0);
      }
    } else {
      OnlyTailIff(cs, i + 1, mask[1..], cap);
      if OnlyTailLost(cs, i, mask, cap) {
        var k :| 0 <= k <= |mask[1..]| && IsCut(mask[1..], k) && (k > 0 ==> |Payloads(cs[..i + 1 + k])| <= cap);
        CutCons(mask, k + 1);
      }
      forall k | 0 <= k <= |mask| && IsCut(mask, k) && (k > 0 ==> |Payloads(cs[..i + k])| <= cap)
        ensures OnlyTailLost(cs, i, mask, cap)
      {
        CutCons(mask, k);
        PayloadsGrow(cs, i + 1, i + k);
        assert i + 1 + (k - 1) == i + k;
      }
    }
  }

  lemma CutCons(mask: seq<bool>, k: nat)
    requires mask != [] && mask[0]
    ensures IsCut(mask, k) <==> k > 0 && IsCut(mask[1..], k - 1)
  {
    assert mask == [mask[0]] + mask[1..];
  }

  /** Frames with distinct numbers are told apart, so exactly the intact ones are delivered as well. */
  lemma {:induction false} DistinctIsEnough(sents: seq<Sent>, chunkPayload: nat, last: Option<u16>)
    requires AllWellFormed(sents, chunkPayload) && AllDistinct(sents)
    requires forall i :: 0 <= i < |sents| && sents[i].Video? ==> last != Some(sents[i].frame.meta.frameSeq)
    ensures Distinguishable(sents, chunkPayload, last)
    decreases |sents|
  {
    hide WellFormed, Received;
    if sents != [] {
      assert forall i :: 0 <= i < |sents[1..]| ==> sents[1..][i] == sents[i + 1];
      var last1 := if sents[0].Video? && Received(sents[0], chunkPayload) != []
                   then Some(sents[0].frame.meta.frameSeq) else last;
      DistinctIsEnough(sents[1..], chunkPayload, last1);
    }
  }

  /** All chunks but the last get through. */
  function TailLost(n: nat): (mask: seq<bool>)
    requires n > 0
    ensures |mask| == n
  {
    seq(n, i requires 0 <= i < n => i < n - 1)
  }

  /** A frame that loses its last chunk leaves no mark if it was sent whole, and one if in parts. */
  lemma TailToll(cs: seq<Chunk>, cap: nat)
    requires |cs| >= 2 && |Payloads(cs)| <= cap
    ensures var mask := TailLost(|cs|);
      && !Arrives(cs, mask, cap) && Through(cs, mask) != []
      && Toll(cs, mask, cap, false) == 0 && Toll(cs, mask, cap, true) == 1
  {
    hide Payloads, Toll;
    var mask, k := TailLost(|cs|), |cs| - 1;
    assert !mask[k] && mask[0];
    assert IsCut(mask, k);
    PayloadsGrow(cs, k, |cs|);
    assert cs[..|cs|] == cs;
    NoTollIff(cs, mask, cap, false);
    NoTollIff(cs, mask, cap, true);
    ThroughNone(cs, mask);
    AtMostOne(cs, mask, cap, true);
  }

  lemma AtMostOne(cs: seq<Chunk>, mask: seq<bool>, cap: nat, streamed: bool)
    requires |mask| == |cs|
    ensures Toll(cs, mask, cap, streamed) <= 1
  {
  }

  /**
   So a lost frame can go uncounted: of a frame sent whole everything but its last chunk gets
   through, the next frame arrives, and dropped_frames is 0.
   */
  lemma TailLossIsUncounted(f: Frame, g: Frame, chunkPayload: nat, cap: nat)
    requires f.Whole? && Sendable(f, chunkPayload) && Sendable(g, chunkPayload)
    requires f.meta.codec == g.meta.codec == CODEC_H265 && f.meta.frameSeq != g.meta.frameSeq
    requires |DataOf(f)| <= cap && |DataOf(g)| <= cap && |FrameChunks(f, chunkPayload)| >= 2
    ensures var sents := [Video(f, TailLost(|FrameChunks(f, chunkPayload)|)),
                          Video(g, AllThrough(|FrameChunks(g, chunkPayload)|))];
      && AllWellFormed(sents, chunkPayload)
      && var (st, out) := Run(INITIAL, cap, AllReceived(sents, chunkPayload));
         out == [OutputOf(g.meta, DataOf(g))] && st.droppedFrames == 0
  {
    hide *;
    var fMask, gMask := TailLost(|FrameChunks(f, chunkPayload)|), AllThrough(|FrameChunks(g, chunkPayload)|);
    FrameIsNumbered(f, chunkPayload);
    FrameIsNumbered(g, chunkPayload);
    TwoSent(f, fMask, g, gMask, chunkPayload);
    TailIsNotAll(|FrameChunks(f, chunkPayload)|);
    TailToll(FrameChunks(f, chunkPayload), cap);
    WholeToll(FrameChunks(g, chunkPayload), cap, g.Streamed?);
    OneOfTwo([Video(f, fMask), Video(g, gMask)], chunkPayload, cap);
  }

  /** Of two frames that leave no mark the second is completed and the first is not. */
  lemma OneOfTwo(sents: seq<Sent>, chunkPayload: nat, cap: nat)
    requires |sents| == 2 && sents[0].Video? && sents[1].Video?
    requires AllWellFormed(sents, chunkPayload) && AllDistinct(sents)
    requires !AllSet(sents[0].mask) && AllSet(sents[1].mask) && |DataOf(sents[1].frame)| <= cap
    requires forall i :: 0 <= i < 2 ==> |sents[i].mask| == |FrameChunks(sents[i].frame, chunkPayload)|
    requires forall i :: 0 <= i < 2 ==>
               Toll(FrameChunks(sents[i].frame, chunkPayload), sents[i].mask, cap, sents[i].frame.Streamed?) == 0
    ensures var (st, out) := Run(INITIAL, cap, AllReceived(sents, chunkPayload));
      out == [OutputOf(sents[1].frame.meta, DataOf(sents[1].frame))] && st.droppedFrames == 0
  {
    hide FrameChunks, Run, Distinguishable, Toll, TotalToll, Score, Clear, AllUnseen, Delivered, AllSet, AllDistinct;
    hide AllReceived;
    DistinctIsEnough(sents, chunkPayload, None);
    LossyDelivery(INITIAL, cap, sents, chunkPayload, None);
    TwoDelivered(sents, cap);
    ClearAtStart(sents);
    DroppedIsExact(INITIAL, cap, sents, chunkPayload);
    TwoTolls(sents, chunkPayload, cap);
    ScoreCounts(Run(INITIAL, cap, AllReceived(sents, chunkPayload)).0);
  }

  lemma TwoSent(f: Frame, fMask: seq<bool>, g: Frame, gMask: seq<bool>, chunkPayload: nat)
    requires Sendable(f, chunkPayload) && Sendable(g, chunkPayload)
    requires f.meta.codec == g.meta.codec == CODEC_H265 && f.meta.frameSeq != g.meta.frameSeq
    requires |fMask| == |FrameChunks(f, chunkPayload)| && |gMask| == |FrameChunks(g, chunkPayload)|
    ensures AllWellFormed([Video(f, fMask), Video(g, gMask)], chunkPayload)
    ensures AllDistinct([Video(f, fMask), Video(g, gMask)])
  {
    hide Sendable, FrameChunks;
  }

  lemma TailIsNotAll(n: nat)
    requires n > 0
    ensures !AllSet(TailLost(n))
  {
    assert !TailLost(n)[n - 1];
  }

  lemma ScoreCounts(st: State)
    ensures st.droppedFrames <= Score(st)
  {
  }

  lemma ClearAtStart(sents: seq<Sent>)
    ensures Clear(INITIAL) && AllUnseen(INITIAL, sents) && Score(INITIAL) == 0
  {
  }

  lemma TwoTolls(sents: seq<Sent>, chunkPayload: nat, cap: nat)
    requires |sents| == 2 && AllWellFormed(sents, chunkPayload) && sents[0].Video? && sents[1].Video?
    ensures TotalToll(sents, chunkPayload, cap)
            == Toll(FrameChunks(sents[0].frame, chunkPayload), sents[0].mask, cap, sents[0].frame.Streamed?)
               + Toll(FrameChunks(sents[1].frame, chunkPayload), sents[1].mask, cap, sents[1].frame.Streamed?)
  {
    hide Toll, FrameChunks;
    assert sents[1..] == [sents[1]] && sents[1..][1..] == [];
    assert TotalToll([], chunkPayload, cap) == 0;
  }

  function AllThrough(n: nat): (mask: seq<bool>)
    ensures |mask| == n && AllSet(mask)
  {
    seq(n, _ => true)
  }

  lemma WholeToll(cs: seq<Chunk>, cap: nat, streamed: bool)
    requires 1 <= |cs| && |Payloads(cs)| <= cap
    ensures Toll(cs, AllThrough(|cs|), cap, streamed) == 0
  {
    hide Payloads, Toll;
    assert cs[..|cs|] == cs && IsCut(AllThrough(|cs|), |cs|);
    NoTollIff(cs, AllThrough(|cs|), cap, streamed);
  }

  lemma TwoDelivered(sents: seq<Sent>, cap: nat)
    requires |sents| == 2 && sents[0].Video? && sents[1].Video?
    requires !AllSet(sents[0].mask) && AllSet(sents[1].mask) && |DataOf(sents[1].frame)| <= cap
    ensures Delivered(sents, cap) == [OutputOf(sents[1].frame.meta, DataOf(sents[1].frame))]
  {
    assert sents[1..] == [sents[1]] && sents[1..][1..] == [];
    assert Delivered([], cap) == [];
  }
}
