/** rx/clock_sync.c: the air unit's clock mapped onto the ground's. */
module ClockSync {
  import opened Bytes

  const WINDOW: nat := 16
  const MAX_RTT_US: nat := 250000
  const JUMP_SLACK_US: nat := 5000

  /** One answered probe: sent t1, air received t2 and answered t3, received t4. */
  datatype Reply = Reply(t1: u64, t2: u64, t3: u64, t4: u64)

  datatype Sample = Sample(offsetUs: int, rttUs: nat)

  /** C's division, which drops the fraction toward zero. */
  function HalfTowardZero(x: int): int {
    if x >= 0 then x / 2 else -((-x) / 2)
  }

  /** Neither from before a restart nor with a turnaround longer than the round trip. */
  predicate Plausible(r: Reply) {
    r.t1 <= r.t4 && r.t2 <= r.t3 && r.t3 - r.t2 <= r.t4 - r.t1
  }

  /** A time as a signed 64-bit number. */
  function Signed64(x: u64): int {
    if x >= 0x8000_0000_0000_0000 then x as int - 0x1_0000_0000_0000_0000 else x
  }

  /** What the air clock is ahead by if the way up took no time. */
  function Upper(r: Reply): int { Signed64(r.t2) - Signed64(r.t1) }

  /** What the air clock is ahead by if the way down took no time. */
  function Lower(r: Reply): int { Signed64(r.t3) - Signed64(r.t4) }

  function SampleOf(r: Reply): Sample
    requires Plausible(r)
  {
    Sample(HalfTowardZero(Upper(r) + Lower(r)), (r.t4 - r.t1) - (r.t3 - r.t2))
  }

  predicate Fits64(x: int) {
    -0x8000_0000_0000_0000 <= x < 0x8000_0000_0000_0000
  }

  /** The signed arithmetic of clock_sync_on_reply() is defined; it comes behind the first check. */
  predicate InRange(r: Reply) {
    Plausible(r) ==> Fits64(Upper(r)) && Fits64(Lower(r)) && Fits64(Upper(r) + Lower(r))
  }

  /** And then so is the difference of any two offsets, and its negation. */
  lemma DifferencesFit(r: Reply, prior: Reply)
    requires Plausible(r) && Plausible(prior) && InRange(r) && InRange(prior)
    ensures var d := SampleOf(r).offsetUs - SampleOf(prior).offsetUs; Fits64(d) && Fits64(-d)
  {
  }

  function Abs(x: int): nat { if x < 0 then -x else x }

  /** An offset no round trip can explain. */
  predicate Jumped(s: Sample, prior: Sample) {
    Abs(s.offsetUs - prior.offsetUs) > s.rttUs + prior.rttUs + JUMP_SLACK_US
  }

  // What it amounts to: a window of the latest replies

  /** A reply that was taken, and how many had come in before it. */
  datatype Entry = Entry(reply: Reply, at: nat)

  /** The latest replies taken, oldest first. */
  datatype State = State(window: seq<Entry>, seen: nat, staleUntilUs: nat, replies: nat, stale: nat)

  const INITIAL: State := State([], 0, 0, 0, 0)

  predicate AllPlausible(window: seq<Entry>) {
    forall i :: 0 <= i < |window| ==> Plausible(window[i].reply)
  }

  function Latest(window: seq<Entry>): (r: seq<Entry>)
  {
    if |window| <= WINDOW then window else window[|window| - WINDOW..]
  }

  predicate AnyJump(s: Sample, window: seq<Entry>)
    requires AllPlausible(window)
  {
    exists i :: 0 <= i < |window| && Jumped(s, SampleOf(window[i].reply))
  }

  predicate IsStale(r: Reply, staleUntilUs: nat)
    requires Plausible(r)
  {
    SampleOf(r).rttUs > MAX_RTT_US || r.t1 < staleUntilUs
  }

  function OnReply(st: State, r: Reply): (t: State)
    requires AllPlausible(st.window)
    ensures AllPlausible(t.window) && t.seen == st.seen + 1
  {
    if !Plausible(r) then st.(seen := st.seen + 1)
    else if IsStale(r, st.staleUntilUs) then
      State(st.window, st.seen + 1,
            if SampleOf(r).rttUs > MAX_RTT_US && r.t4 > st.staleUntilUs then r.t4 else st.staleUntilUs,
            st.replies, st.stale + 1)
    else
      var kept := if AnyJump(SampleOf(r), st.window) then [] else st.window;
      State(Latest(kept + [Entry(r, st.seen)]), st.seen + 1, st.staleUntilUs, st.replies + 1, st.stale)
  }

  function OnReplies(st: State, rs: seq<Reply>): (t: State)
    requires AllPlausible(st.window)
    ensures AllPlausible(t.window) && t.seen == st.seen + |rs|
    decreases |rs|
  {
    if rs == [] then st else OnReplies(OnReply(st, rs[0]), rs[1..])
  }

  /** How many of the replies are plausible. */
  function Plausibles(rs: seq<Reply>): nat {
    if rs == [] then 0 else (if Plausible(rs[0]) then 1 else 0) + Plausibles(rs[1..])
  }

  /** Each plausible reply is counted once, as taken or as stale, and those in the window were taken. */
  lemma {:induction false} RepliesCounted(st: State, rs: seq<Reply>)
    requires AllPlausible(st.window) && |st.window| <= st.replies
    ensures var t := OnReplies(st, rs);
      t.replies + t.stale == st.replies + st.stale + Plausibles(rs) && |t.window| <= t.replies
    decreases |rs|
  {
    hide Plausible, IsStale, AnyJump, SampleOf;
    if rs != [] {
      RepliesCounted(OnReply(st, rs[0]), rs[1..]);
    }
  }

  /** The ring buffer that holds it. */
  class Sync {
    const samples: array<Sample>
    var n: nat
    var next: nat
    var replies: nat
    var stale: nat
    var staleUntilUs: nat

    ghost var window: seq<Entry>
    ghost var seen: nat

    ghost predicate Valid()
      reads this, samples
    {
      && samples.Length == WINDOW && n <= WINDOW && next < WINDOW && (n < WINDOW ==> next == n)
      && AllPlausible(window) && Ring(window, samples[..], n, next)
    }

    ghost function Abstract(): State
      reads this
    {
      State(window, seen, staleUntilUs, replies, stale)
    }

    constructor ()
      ensures Valid() && Abstract() == INITIAL && fresh(samples)
    {
      samples := new Sample[WINDOW](_ => Sample(0, 0));
      n, next, replies, stale, staleUntilUs := 0, 0, 0, 0, 0;
      window, seen := [], 0;
    }

    /** The loop that looks for a jump of the air clock. */
    method FindJump(s: Sample) returns (jump: bool)
      requires Valid()
      ensures jump <==> AnyJump(s, window)
    {
      for i := 0 to n
        invariant forall k :: 0 <= k < i ==> !Jumped(s, samples[k])
      {
        var d := s.offsetUs - samples[i].offsetUs;
        if d < 0 {
          d := -d;
        }
        if d > s.rttUs + samples[i].rttUs + JUMP_SLACK_US {
          ghost var j := SlotOnto(n, next, i);
          assert Jumped(s, SampleOf(window[j].reply));
          return true;
        }
      }
      return false;
    }

    method Put(s: Sample, ghost r: Reply)
      requires Valid() && Plausible(r) && s == SampleOf(r)
      modifies this`n, this`next, this`window, samples
      ensures Valid() && window == Latest(old(window) + [Entry(r, seen)])
    {
      hide Ring, SampleOf, Latest, AllPlausible;
      ghost var data := samples[..];
      PutKeepsRing(window, data, n, next, Entry(r, seen));
      samples[next] := s;
      assert samples[..] == data[next := s];
      window := Latest(window + [Entry(r, seen)]);
      next := (next + 1) % WINDOW;
      if n < WINDOW {
        n := n + 1;
      }
    }

    /** clock_sync_on_reply() */
    method ReplyArrived(r: Reply)
      requires Valid()
      requires InRange(r)
      modifies this, samples
      ensures Valid() && Abstract() == OnReply(old(Abstract()), r)
    {
      hide Slot, AnyJump, Latest;
      if r.t4 < r.t1 || r.t3 < r.t2 || r.t4 - r.t1 < r.t3 - r.t2 {
        seen := seen + 1;
        return;
      }
      var rtt := (r.t4 - r.t1) - (r.t3 - r.t2);
      var offset := HalfTowardZero((Signed64(r.t2) - Signed64(r.t1)) + (Signed64(r.t3) - Signed64(r.t4)));
      if rtt > MAX_RTT_US || r.t1 < staleUntilUs {
        if rtt > MAX_RTT_US && r.t4 > staleUntilUs {
          staleUntilUs := r.t4;
        }
        stale := stale + 1;
        seen := seen + 1;
        return;
      }
      var jump := FindJump(Sample(offset, rtt));
      if jump {
        n, next, window := 0, 0, [];
      }
      Put(Sample(offset, rtt), r);
      replies := replies + 1;
      seen := seen + 1;
    }

    /**
     clock_sync_get(): the offset of a reply with the shortest round trip in the window, and
     half that round trip.
     */
    method Get() returns (ok: bool, offsetUs: int, uncertaintyUs: u32)
      requires Valid()
      ensures ok <==> window != []
      ensures ok ==> IsEstimate(window, offsetUs, uncertaintyUs)
    {
      ok, offsetUs, uncertaintyUs := false, 0, 0;
      if n == 0 {
        return;
      }
      var best := 0;
      for i := 1 to n
        invariant best < n && forall k :: 0 <= k < i ==> samples[best].rttUs <= samples[k].rttUs
      {
        if samples[i].rttUs < samples[best].rttUs {
          best := i;
        }
      }
      ghost var b := SlotOnto(n, next, best);
      assert SampleOf(window[b].reply) == samples[best];
      assert IsBest(window, b);
      ok, offsetUs := true, samples[best].offsetUs;
      uncertaintyUs := Capped(samples[best].rttUs / 2);
    }
  }

  function Capped(x: nat): u32 { if x > 0xFFFF_FFFF then 0xFFFF_FFFF else x }

  predicate IsBest(window: seq<Entry>, i: nat)
    requires AllPlausible(window) && i < |window|
  {
    forall k :: 0 <= k < |window| ==> SampleOf(window[i].reply).rttUs <= SampleOf(window[k].reply).rttUs
  }

  /** What clock_sync_get() reports: the sample of a shortest round trip. */
  predicate IsEstimate(window: seq<Entry>, offsetUs: int, uncertaintyUs: u32)
    requires AllPlausible(window)
  {
    exists i ::
      0 <= i < |window| && IsBest(window, i) && SampleOf(window[i].reply).offsetUs == offsetUs
      && Capped(SampleOf(window[i].reply).rttUs / 2) == uncertaintyUs
  }

  lemma {:induction false} AnEstimate(window: seq<Entry>) returns (offsetUs: int, uncertaintyUs: u32)
    requires AllPlausible(window) && window != []
    ensures IsEstimate(window, offsetUs, uncertaintyUs)
  {
    hide SampleOf;
    var best := 0;
    for i := 1 to |window|
      invariant best < i
      invariant forall k :: 0 <= k < i ==> SampleOf(window[best].reply).rttUs <= SampleOf(window[k].reply).rttUs
    {
      if SampleOf(window[i].reply).rttUs < SampleOf(window[best].reply).rttUs {
        best := i;
      }
    }
    assert IsBest(window, best);
    offsetUs, uncertaintyUs := SampleOf(window[best].reply).offsetUs, Capped(SampleOf(window[best].reply).rttUs / 2);
  }

  /** Where the i-th oldest sample is. */
  ghost function Slot(n: nat, next: nat, i: nat): (k: nat)
    requires n <= WINDOW && next < WINDOW && i < n
    ensures k < WINDOW
  {
    if n < WINDOW then i else (next + i) % WINDOW
  }

  /** The ring holds the samples of the window. */
  ghost predicate Ring(window: seq<Entry>, data: seq<Sample>, n: nat, next: nat)
    requires AllPlausible(window) && |data| == WINDOW && n <= WINDOW && next < WINDOW
  {
    && |window| == n
    && forall i :: 0 <= i < n ==> SampleOf(window[i].reply) == data[Slot(n, next, i)]
  }

  lemma PutKeepsRing(window: seq<Entry>, data: seq<Sample>, n: nat, next: nat, e: Entry)
    requires AllPlausible(window) && |data| == WINDOW && n <= WINDOW && next < WINDOW
    requires (n < WINDOW ==> next == n) && Ring(window, data, n, next) && Plausible(e.reply)
    ensures AllPlausible(Latest(window + [e]))
    ensures Ring(Latest(window + [e]), data[next := SampleOf(e.reply)],
                 if n < WINDOW then n + 1 else n, (next + 1) % WINDOW)
  {
    hide Slot, SampleOf;
    var m := if n < WINDOW then n + 1 else n;
    var now := Latest(window + [e]);
    forall i | 0 <= i < m
      ensures SampleOf(now[i].reply) == data[next := SampleOf(e.reply)][Slot(m, (next + 1) % WINDOW, i)]
    {
      SlotMoves(n, next, i);
      assert now[i] == if i == m - 1 then e else window[if n < WINDOW then i else i + 1];
    }
  }

  /** Writing the next slot makes it the newest and moves the others one down when it was full. */
  lemma SlotMoves(n: nat, next: nat, i: nat)
    requires n <= WINDOW && next < WINDOW && (n < WINDOW ==> next == n)
    requires i < (if n < WINDOW then n + 1 else n)
    ensures var m := if n < WINDOW then n + 1 else n;
            var to := Slot(m, (next + 1) % WINDOW, i);
            if i == m - 1 then to == next
            else to != next && to == Slot(n, next, if n < WINDOW then i else i + 1)
  {
  }

  /** Every slot in use holds one of the samples of the window. */
  lemma SlotOnto(n: nat, next: nat, k: nat) returns (i: nat)
    requires n <= WINDOW && next < WINDOW && k < n
    ensures i < n && k == Slot(n, next, i)
  {
    i := if n < WINDOW then k else if k >= next then k - next else k + WINDOW - next;
  }
}
