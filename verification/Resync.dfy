/**
 Greedy resynchronising parsers over a byte stream, shared by the chunk stream
 (common/chunk_stream.c) and the datagram stream (kmod/artosyn_net.c).

 A classifier looks at a stream from some offset on and says whether a frame starts there.
 The simple parser below walks the whole stream one byte at a time. The programs keep a
 window, skip whole runs of junk and read as much as they are given; each is proved to
 deliver what the simple parser finds.
 */
module Resync {
  import opened Bytes

  datatype Verdict =
    | Undecided            // more bytes are needed to tell
    | Dead(flagged: bool)  // no frame starts here; flagged: a header did, but its checks failed
    | Valid(size: nat)     // a frame of size bytes starts here

  type Classifier = seq<byte> -> Verdict

  /** Names a pair of strings for which a fact about a classifier is wanted. */
  predicate At(s: seq<byte>, t: seq<byte>) { true }

  /** Once a verdict is given, later bytes do not change it, and a frame is not longer than what is there. */
  ghost predicate IsClassifier(f: Classifier) {
    forall s, t {:trigger At(s, t)} :: At(s, t) && f(s) != Undecided ==>
      && |s| > 0
      && (f(s).Valid? ==> 0 < f(s).size <= |s|)
      && f(s + t) == f(s)
  }

  /** How far a verdict takes the parser. */
  function Step(f: Classifier, s: seq<byte>): nat {
    match f(s)
    case Undecided => 0
    case Dead(_) => 1
    case Valid(n) => n
  }

  /** The frames of a stream, leftmost first, none overlapping another. */
  ghost function Frames(f: Classifier, s: seq<byte>): seq<seq<byte>>
    requires IsClassifier(f)
    decreases |s|
  {
    assert At(s, []);
    if f(s) == Undecided then []
    else if f(s).Valid? then [s[..f(s).size]] + Frames(f, s[Step(f, s)..])
    else Frames(f, s[Step(f, s)..])
  }

  /** The suffix that more bytes have to decide. */
  ghost function Rest(f: Classifier, s: seq<byte>): (rest: seq<byte>)
    requires IsClassifier(f)
    ensures |rest| <= |s|
    decreases |s|
  {
    assert At(s, []);
    if f(s) == Undecided then s else Rest(f, s[Step(f, s)..])
  }

  /** How many offsets on the way were flagged. */
  ghost function Flagged(f: Classifier, s: seq<byte>): nat
    requires IsClassifier(f)
    decreases |s|
  {
    assert At(s, []);
    if f(s) == Undecided then 0
    else (if f(s) == Dead(true) then 1 else 0) + Flagged(f, s[Step(f, s)..])
  }

  /** The three at once, behind the first verdict. */
  lemma Unfold(f: Classifier, s: seq<byte>)
    requires IsClassifier(f) && f(s) != Undecided
    ensures 0 < Step(f, s) <= |s|
    ensures f(s).Valid? ==> Frames(f, s) == [s[..Step(f, s)]] + Frames(f, s[Step(f, s)..])
    ensures f(s).Dead? ==> Frames(f, s) == Frames(f, s[Step(f, s)..])
    ensures Rest(f, s) == Rest(f, s[Step(f, s)..])
    ensures Flagged(f, s) == (if f(s) == Dead(true) then 1 else 0) + Flagged(f, s[Step(f, s)..])
  {
    assert At(s, []);
  }

  lemma RegroupFrames(a: seq<seq<byte>>, b: seq<seq<byte>>, c: seq<seq<byte>>)
    ensures (a + b) + c == a + (b + c)
  {
  }

  lemma StepStable(f: Classifier, s: seq<byte>, t: seq<byte>)
    requires IsClassifier(f) && f(s) != Undecided
    ensures f(s + t) == f(s) && 0 < Step(f, s) == Step(f, s + t) <= |s|
    ensures (s + t)[..Step(f, s)] == s[..Step(f, s)]
    ensures (s + t)[Step(f, s)..] == s[Step(f, s)..] + t
  {
    assert At(s, t);
  }

  /** Stopping and going on with what was left over parses the same as never stopping. */
  lemma {:induction false} Resume(f: Classifier, s: seq<byte>, t: seq<byte>)
    requires IsClassifier(f)
    ensures Frames(f, s + t) == Frames(f, s) + Frames(f, Rest(f, s) + t)
    ensures Rest(f, s + t) == Rest(f, Rest(f, s) + t)
    ensures Flagged(f, s + t) == Flagged(f, s) + Flagged(f, Rest(f, s) + t)
    decreases |s|
  {
    if f(s) != Undecided {
      hide Frames, Rest, Flagged, Step, IsClassifier;
      Unfold(f, s);
      var tail := s[Step(f, s)..];
      StepStable(f, s, t);
      Unfold(f, s + t);
      Resume(f, tail, t);
      RegroupFrames([s[..Step(f, s)]], Frames(f, tail), Frames(f, Rest(f, tail) + t));
    }
  }

  lemma {:induction false} RestIsFixed(f: Classifier, s: seq<byte>)
    requires IsClassifier(f)
    ensures f(Rest(f, s)) == Undecided
    decreases |s|
  {
    if f(s) != Undecided {
      StepStable(f, s, []);
      RestIsFixed(f, s[Step(f, s)..]);
    }
  }

  lemma FrontFrame(f: Classifier, first: seq<byte>, rest: seq<byte>)
    requires IsClassifier(f)
    requires f(first + rest) == Valid(|first|)
    ensures Frames(f, first + rest) == [first] + Frames(f, rest)
    ensures Rest(f, first + rest) == Rest(f, rest)
    ensures Flagged(f, first + rest) == Flagged(f, rest)
  {
    StepStable(f, first + rest, []);
    assert (first + rest)[..|first|] == first && (first + rest)[|first|..] == rest;
  }

  /** A parser may drop a run of dead offsets at once. */
  lemma {:induction false} SkipDead(f: Classifier, s: seq<byte>, k: nat)
    requires IsClassifier(f) && k <= |s|
    requires forall i :: 0 <= i < k ==> f(s[i..]) == Dead(false)
    ensures Frames(f, s) == Frames(f, s[k..])
    ensures Rest(f, s) == Rest(f, s[k..])
    ensures Flagged(f, s) == Flagged(f, s[k..])
    decreases k
  {
    assert s[0..] == s;
    if k > 0 {
      forall i | 0 <= i < k - 1
        ensures f(s[1..][i..]) == Dead(false)
      {
        assert s[1..][i..] == s[i + 1..];
      }
      SkipDead(f, s[1..], k - 1);
      assert s[1..][k - 1..] == s[k..];
    }
  }

  /** The frames handed out when the stream arrives in pieces and each piece is parsed at once. */
  ghost function InPieces(f: Classifier, rest: seq<byte>, pieces: seq<seq<byte>>): seq<seq<byte>>
    requires IsClassifier(f)
    decreases |pieces|
  {
    if pieces == [] then []
    else Frames(f, rest + pieces[0]) + InPieces(f, Rest(f, rest + pieces[0]), pieces[1..])
  }

  /** How a stream is cut into pieces makes no difference. */
  lemma {:induction false} CutsDoNotMatter(f: Classifier, rest: seq<byte>, pieces: seq<seq<byte>>)
    requires IsClassifier(f) && f(rest) == Undecided
    ensures InPieces(f, rest, pieces) == Frames(f, rest + Concat(pieces))
    decreases |pieces|
  {
    if pieces == [] {
      assert rest + [] == rest;
    } else {
      var head, tail := rest + pieces[0], Concat(pieces[1..]);
      RestIsFixed(f, head);
      CutsDoNotMatter(f, Rest(f, head), pieces[1..]);
      Resume(f, head, tail);
      assert head + tail == rest + Concat(pieces);
    }
  }

  // What the simple parser finds, said in terms of offsets alone

  ghost predicate StartsFrame(f: Classifier, s: seq<byte>, p: nat) {
    p <= |s| && f(s[p..]).Valid?
  }

  ghost function EndOf(f: Classifier, s: seq<byte>, p: nat): nat
    requires StartsFrame(f, s, p)
  {
    p + f(s[p..]).size
  }

  /** q lies inside a frame of the list, behind its first byte. */
  ghost predicate Covered(f: Classifier, s: seq<byte>, starts: seq<nat>, q: nat)
    requires forall i :: 0 <= i < |starts| ==> StartsFrame(f, s, starts[i])
  {
    exists i :: 0 <= i < |starts| && starts[i] < q < EndOf(f, s, starts[i])
  }

  /**
   From offset p on: the list holds only frames, in order and not overlapping. Every offset
   between p and the horizon starts one of them, lies inside one of them, or is known to
   start no frame. At the horizon itself it is still open whether a frame starts there.
   */
  ghost predicate LeftmostGreedy(f: Classifier, s: seq<byte>, p: nat, starts: seq<nat>, horizon: nat) {
    && p <= horizon <= |s|
    && f(s[horizon..]) == Undecided
    && (forall i :: 0 <= i < |starts| ==>
          StartsFrame(f, s, starts[i]) && p <= starts[i] && EndOf(f, s, starts[i]) <= horizon)
    && (forall i, j :: 0 <= i < j < |starts| ==> EndOf(f, s, starts[i]) <= starts[j])
    && (forall q :: p <= q < horizon && q !in starts && !Covered(f, s, starts, q) ==> f(s[q..]).Dead?)
  }

  ghost function Starts(f: Classifier, s: seq<byte>, p: nat): seq<nat>
    requires IsClassifier(f) && p <= |s|
    decreases |s| - p
  {
    assert At(s[p..], []);
    match f(s[p..])
    case Undecided => []
    case Dead(_) => Starts(f, s, p + 1)
    case Valid(n) => [p] + Starts(f, s, p + n)
  }

  ghost function Horizon(f: Classifier, s: seq<byte>, p: nat): (horizon: nat)
    requires IsClassifier(f) && p <= |s|
    ensures p <= horizon <= |s| && f(s[horizon..]) == Undecided
    decreases |s| - p
  {
    assert At(s[p..], []);
    match f(s[p..])
    case Undecided => p
    case Dead(_) => Horizon(f, s, p + 1)
    case Valid(n) => Horizon(f, s, p + n)
  }

  /** The parser's frames are the stretches of the stream that begin at its starts. */
  ghost predicate AreStretches(f: Classifier, s: seq<byte>, starts: seq<nat>, frames: seq<seq<byte>>) {
    && |frames| == |starts|
    && forall i :: 0 <= i < |starts| ==>
         && StartsFrame(f, s, starts[i]) && EndOf(f, s, starts[i]) <= |s|
         && frames[i] == s[starts[i]..EndOf(f, s, starts[i])]
  }

  lemma {:induction false} FramesAtStarts(f: Classifier, s: seq<byte>, p: nat)
    requires IsClassifier(f) && p <= |s|
    ensures AreStretches(f, s, Starts(f, s, p), Frames(f, s[p..]))
    decreases |s| - p
  {
    assert At(s[p..], []);
    match f(s[p..])
    case Undecided =>
      assert Starts(f, s, p) == [] && Frames(f, s[p..]) == [];
    case Dead(_) =>
      assert s[p..][1..] == s[p + 1..];
      assert Starts(f, s, p) == Starts(f, s, p + 1);
      assert Frames(f, s[p..]) == Frames(f, s[p + 1..]);
      FramesAtStarts(f, s, p + 1);
    case Valid(n) =>
      var first := s[p..][..n];
      assert s[p..][n..] == s[p + n..];
      assert Starts(f, s, p) == [p] + Starts(f, s, p + n);
      assert Frames(f, s[p..]) == [first] + Frames(f, s[p + n..]);
      FramesAtStarts(f, s, p + n);
      assert EndOf(f, s, p) == p + n;
      ConsStretch(f, s, p, Starts(f, s, p + n), Frames(f, s[p + n..]));
  }

  lemma {:induction false} RestAtHorizon(f: Classifier, s: seq<byte>, p: nat)
    requires IsClassifier(f) && p <= |s|
    ensures Rest(f, s[p..]) == s[Horizon(f, s, p)..]
    decreases |s| - p
  {
    assert At(s[p..], []);
    if f(s[p..]) != Undecided {
      var n := if f(s[p..]).Dead? then 1 else f(s[p..]).size;
      assert s[p..][n..] == s[p + n..];
      assert Horizon(f, s, p) == Horizon(f, s, p + n);
      assert Rest(f, s[p..]) == Rest(f, s[p + n..]);
      RestAtHorizon(f, s, p + n);
    }
  }

  lemma ConsStretch(f: Classifier, s: seq<byte>, p: nat, starts: seq<nat>, frames: seq<seq<byte>>)
    requires StartsFrame(f, s, p) && EndOf(f, s, p) <= |s|
    requires AreStretches(f, s, starts, frames)
    ensures AreStretches(f, s, [p] + starts, [s[p..][..f(s[p..]).size]] + frames)
  {
    assert s[p..][..f(s[p..]).size] == s[p..EndOf(f, s, p)];
  }

  lemma {:induction false} StartsAreGreedy(f: Classifier, s: seq<byte>, p: nat)
    requires IsClassifier(f) && p <= |s|
    ensures LeftmostGreedy(f, s, p, Starts(f, s, p), Horizon(f, s, p))
    decreases |s| - p
  {
    hide LeftmostGreedy, EndOf;
    assert At(s[p..], []);
    match f(s[p..])
    case Undecided =>
      NothingHere(f, s, p);
    case Dead(_) =>
      StartsAreGreedy(f, s, p + 1);
      DeadHere(f, s, p, Starts(f, s, p + 1), Horizon(f, s, p + 1));
    case Valid(n) =>
      StartsAreGreedy(f, s, p + n);
      EndHere(f, s, p);
      ConsGreedy(f, s, p, Starts(f, s, p + n), Horizon(f, s, p + n));
  }

  lemma EndHere(f: Classifier, s: seq<byte>, p: nat)
    requires StartsFrame(f, s, p)
    ensures EndOf(f, s, p) == p + f(s[p..]).size
  {
  }

  lemma NothingHere(f: Classifier, s: seq<byte>, p: nat)
    requires p <= |s| && f(s[p..]) == Undecided
    ensures LeftmostGreedy(f, s, p, [], p)
  {
  }

  lemma DeadHere(f: Classifier, s: seq<byte>, p: nat, starts: seq<nat>, horizon: nat)
    requires p < |s| && f(s[p..]).Dead?
    requires LeftmostGreedy(f, s, p + 1, starts, horizon)
    ensures LeftmostGreedy(f, s, p, starts, horizon)
  {
  }

  lemma ConsGreedy(f: Classifier, s: seq<byte>, p: nat, tail: seq<nat>, horizon: nat)
    requires StartsFrame(f, s, p) && p < EndOf(f, s, p) <= |s|
    requires LeftmostGreedy(f, s, EndOf(f, s, p), tail, horizon)
    ensures LeftmostGreedy(f, s, p, [p] + tail, horizon)
  {
    var starts := [p] + tail;
    assert forall i :: 1 <= i < |starts| ==> starts[i] == tail[i - 1];
    forall q | p <= q < horizon && q !in starts && !Covered(f, s, starts, q)
      ensures f(s[q..]).Dead?
    {
      UncoveredHead(f, s, p, starts, q);
      UncoveredTail(f, s, p, tail, q);
      assert q !in tail;
    }
  }

  lemma UncoveredHead(f: Classifier, s: seq<byte>, p: nat, starts: seq<nat>, q: nat)
    requires forall i :: 0 <= i < |starts| ==> StartsFrame(f, s, starts[i])
    requires starts != [] && starts[0] == p <= q && q !in starts && !Covered(f, s, starts, q)
    ensures EndOf(f, s, p) <= q
  {
  }

  lemma UncoveredTail(f: Classifier, s: seq<byte>, p: nat, tail: seq<nat>, q: nat)
    requires StartsFrame(f, s, p) && EndOf(f, s, p) <= q
    requires forall i :: 0 <= i < |tail| ==> StartsFrame(f, s, tail[i])
    ensures forall i :: 0 <= i < |[p] + tail| ==> StartsFrame(f, s, ([p] + tail)[i])
    ensures Covered(f, s, [p] + tail, q) <==> Covered(f, s, tail, q)
  {
    var starts := [p] + tail;
    assert forall i :: 1 <= i < |starts| ==> starts[i] == tail[i - 1];
    if Covered(f, s, tail, q) {
      var i :| 0 <= i < |tail| && tail[i] < q < EndOf(f, s, tail[i]);
      assert starts[i + 1] == tail[i];
    }
  }

  /** The description leaves no choice. */
  lemma {:induction false} GreedyIsUnique(f: Classifier, s: seq<byte>, p: nat, starts: seq<nat>, horizon: nat)
    requires IsClassifier(f) && p <= |s|
    requires LeftmostGreedy(f, s, p, starts, horizon)
    ensures starts == Starts(f, s, p) && horizon == Horizon(f, s, p)
    decreases |s| - p
  {
    hide LeftmostGreedy, EndOf;
    assert At(s[p..], []);
    match f(s[p..])
    case Undecided =>
      GreedyNone(f, s, p, starts, horizon);
    case Dead(_) =>
      GreedyNotHere(f, s, p, starts, horizon);
      GreedyIsUnique(f, s, p + 1, starts, horizon);
    case Valid(n) =>
      GreedyHead(f, s, p, starts, horizon);
      EndHere(f, s, p);
      GreedyIsUnique(f, s, p + n, starts[1..], horizon);
      assert starts == [p] + starts[1..];
  }

  lemma GreedyNone(f: Classifier, s: seq<byte>, p: nat, starts: seq<nat>, horizon: nat)
    requires IsClassifier(f) && p <= |s| && f(s[p..]) == Undecided
    requires LeftmostGreedy(f, s, p, starts, horizon)
    ensures starts == [] && horizon == p
  {
    assert !StartsFrame(f, s, p);
    assert p !in starts && !Covered(f, s, starts, p);
    assert horizon == p;
    assert starts == [] || StartsFrame(f, s, starts[0]);
  }

  lemma GreedyNotHere(f: Classifier, s: seq<byte>, p: nat, starts: seq<nat>, horizon: nat)
    requires IsClassifier(f) && p <= |s| && f(s[p..]).Dead?
    requires LeftmostGreedy(f, s, p, starts, horizon)
    ensures p < |s| && LeftmostGreedy(f, s, p + 1, starts, horizon)
  {
    assert !StartsFrame(f, s, p);
    assert p !in starts;
    assert p < horizon;
  }

  lemma GreedyHead(f: Classifier, s: seq<byte>, p: nat, starts: seq<nat>, horizon: nat)
    requires IsClassifier(f) && StartsFrame(f, s, p)
    requires LeftmostGreedy(f, s, p, starts, horizon)
    ensures |starts| > 0 && starts[0] == p
    ensures LeftmostGreedy(f, s, EndOf(f, s, p), starts[1..], horizon)
  {
    assert p < horizon && !Covered(f, s, starts, p);
    assert p in starts;
    assert starts[0] == p;
    var tail := starts[1..];
    assert starts == [p] + tail;
    forall q | EndOf(f, s, p) <= q < horizon && q !in tail && !Covered(f, s, tail, q)
      ensures f(s[q..]).Dead?
    {
      assert At(s[p..], []);
      UncoveredTail(f, s, p, tail, q);
    }
  }

  /**
   A frame that starts at least limit bytes before the end of the stream has been found,
   unless an earlier one covers its start: whatever came before it, nothing can hold the
   parser back for longer than the longest header claim.
   */
  lemma BoundedResync(f: Classifier, s: seq<byte>, limit: nat, p: nat)
    requires IsClassifier(f)
    requires forall t :: |t| >= limit ==> f(t) != Undecided
    requires p + limit <= |s| && StartsFrame(f, s, p)
    ensures |Rest(f, s)| < limit
    ensures LeftmostGreedy(f, s, 0, Starts(f, s, 0), Horizon(f, s, 0))
    ensures p in Starts(f, s, 0) || Covered(f, s, Starts(f, s, 0), p)
  {
    StartsAreGreedy(f, s, 0);
    RestAtHorizon(f, s, 0);
    assert s[0..] == s;
    assert |s[Horizon(f, s, 0)..]| < limit;
  }

  /** The simple parser's offsets are the one list that fits the description. */
  lemma GreedyIff(f: Classifier, s: seq<byte>, starts: seq<nat>, horizon: nat)
    requires IsClassifier(f)
    ensures LeftmostGreedy(f, s, 0, starts, horizon) <==> starts == Starts(f, s, 0) && horizon == Horizon(f, s, 0)
    ensures AreStretches(f, s, Starts(f, s, 0), Frames(f, s))
  {
    StartsAreGreedy(f, s, 0);
    FramesAtStarts(f, s, 0);
    assert s[0..] == s;
    if LeftmostGreedy(f, s, 0, starts, horizon) {
      GreedyIsUnique(f, s, 0, starts, horizon);
    }
  }
}
