/**
 How far the estimate of rx/clock_sync.c can be from the truth, and what rx/main.c makes of
 it: the capture time of a frame from the low 32 bits its chunks carry.
 */
module ClockBounds {
  import opened Bytes
  import opened ClockSync

  /**
   The reply was really exchanged with an air clock theta ahead of the ground's: neither of
   its two trips took negative time, and neither did the turnaround.
   */
  predicate Honest(r: Reply, theta: int) {
    && Plausible(r)
    && Signed64(r.t1) + theta <= Signed64(r.t2) <= Signed64(r.t3) <= Signed64(r.t4) + theta
  }

  predicate AllHonest(rs: seq<Reply>, theta: int) {
    forall i :: 0 <= i < |rs| ==> Honest(rs[i], theta)
  }

  predicate HonestWindow(window: seq<Entry>, theta: int) {
    forall i :: 0 <= i < |window| ==> Honest(window[i].reply, theta)
  }

  /** The offset is off by half the round trip at most, rounded up. */
  lemma SampleError(r: Reply, theta: int)
    requires Honest(r, theta)
    ensures Plausible(r)
    ensures 2 * Abs(SampleOf(r).offsetUs - theta) <= SampleOf(r).rttUs + SampleOf(r).rttUs % 2
  {
  }

  /** Neither clock's signed reading went over into the negative during the exchange. */
  predicate InOrder(r: Reply) {
    Signed64(r.t1) <= Signed64(r.t4) && Signed64(r.t2) <= Signed64(r.t3)
  }

  /**
   Half the round trip, rounded down as it is reported, is a bound for the error exactly when
   the round trip is even: else the one of the two extreme offsets that C's division rounds
   away from is 1 us further off.
   */
  lemma UncertaintyIff(r: Reply)
    requires Plausible(r)
    ensures (forall theta :: Honest(r, theta) ==> Abs(SampleOf(r).offsetUs - theta) <= SampleOf(r).rttUs / 2)
            <==> SampleOf(r).rttUs % 2 == 0 || !InOrder(r)
  {
    ExtremesAreHonest(r);
    FarEndIs(r);
    forall theta | Honest(r, theta) && SampleOf(r).rttUs % 2 == 0
      ensures Abs(SampleOf(r).offsetUs - theta) <= SampleOf(r).rttUs / 2
    {
      SampleError(r, theta);
    }
  }

  /** Of the two offsets furthest apart that the reply allows, the one further from its sample. */
  function FarEnd(r: Reply): int {
    if Upper(r) + Lower(r) > 0 then Upper(r) else Lower(r)
  }

  lemma ExtremesAreHonest(r: Reply)
    requires Plausible(r)
    ensures InOrder(r) ==> Honest(r, Upper(r)) && Honest(r, Lower(r))
    ensures forall theta :: Honest(r, theta) ==> InOrder(r)
  {
  }

  lemma FarEndIs(r: Reply)
    requires Plausible(r)
    ensures InOrder(r) && SampleOf(r).rttUs % 2 == 1 ==>
              Abs(SampleOf(r).offsetUs - FarEnd(r)) == SampleOf(r).rttUs / 2 + 1
  {
  }

  /**
   For the estimate the same holds with the whole window to judge by: the reported uncertainty
   is a bound exactly when the round trip of the sample it comes from is even, or another
   sample rules out the offset that would break it.
   */
  lemma EstimateUncertaintyIff(window: seq<Entry>, i: nat)
    requires AllPlausible(window) && i < |window|
    ensures var s := SampleOf(window[i].reply);
            (forall theta :: HonestWindow(window, theta) ==> Abs(s.offsetUs - theta) <= s.rttUs / 2)
            <==> s.rttUs % 2 == 0 || !HonestWindow(window, FarEnd(window[i].reply))
  {
    hide SampleOf, FarEnd;
    var r := window[i].reply;
    var s := SampleOf(r);
    FarEndIs(r);
    ExtremesAreHonest(r);
    forall theta | HonestWindow(window, theta) && theta != FarEnd(r)
      ensures Abs(s.offsetUs - theta) <= s.rttUs / 2
    {
      OnlyFarEndIsFar(r, theta);
    }
    forall theta | HonestWindow(window, theta) && s.rttUs % 2 == 0
      ensures Abs(s.offsetUs - theta) <= s.rttUs / 2
    {
      SampleError(r, theta);
    }
  }

  lemma OnlyFarEndIsFar(r: Reply, theta: int)
    requires Honest(r, theta) && theta != FarEnd(r)
    ensures Abs(SampleOf(r).offsetUs - theta) <= SampleOf(r).rttUs / 2
  {
  }

  /** The rounding is real: the error can exceed the uncertainty that is reported for it. */
  lemma RoundingCounts()
    ensures var r := Reply(1, 1, 1, 1);
            Honest(r, 0) && SampleOf(r) == Sample(0, 0)
    ensures var r := Reply(1, 1, 1, 2);
            Honest(r, -1) && SampleOf(r) == Sample(0, 1)
  {
  }

  // The samples the window holds

  /** A reply that came back later than a live exchange ever does. */
  predicate Late(r: Reply) { Plausible(r) && SampleOf(r).rttUs > MAX_RTT_US }

  /** Some late reply had arrived, by the time of the replies rs, after r was sent. */
  predicate Queued(r: Reply, rs: seq<Reply>) {
    exists j :: 0 <= j < |rs| && Late(rs[j]) && r.t1 < rs[j].t4
  }

  /** What is kept of r, when the replies rs came before it. */
  predicate Live(r: Reply, rs: seq<Reply>) {
    Plausible(r) && !Late(r) && !Queued(r, rs)
  }

  /** All replies worth keeping, from the one numbered `from` on. */
  function KeptSince(rs: seq<Reply>, from: nat): (es: seq<Entry>)
    ensures AllPlausible(es)
  {
    if |rs| <= from then []
    else
      var r, before := rs[|rs| - 1], rs[..|rs| - 1];
      if Live(r, before) then KeptSince(before, from) + [Entry(r, |before|)] else KeptSince(before, from)
  }

  ghost predicate StaleIs(st: State, rs: seq<Reply>) {
    && st.seen == |rs|
    && (forall j :: 0 <= j < |rs| && Late(rs[j]) ==> rs[j].t4 <= st.staleUntilUs)
    && (st.staleUntilUs > 0 ==> exists j :: 0 <= j < |rs| && Late(rs[j]) && rs[j].t4 == st.staleUntilUs)
  }

  lemma StaleStep(st: State, rs: seq<Reply>, r: Reply)
    requires AllPlausible(st.window) && StaleIs(st, rs)
    ensures StaleIs(OnReply(st, r), rs + [r])
    ensures Plausible(r) ==> (IsStale(r, st.staleUntilUs) <==> !Live(r, rs))
  {
    hide SampleOf, AnyJump, Latest;
    var t := OnReply(st, r);
    if t.staleUntilUs > 0 {
      if t.staleUntilUs == st.staleUntilUs {
        var j :| 0 <= j < |rs| && Late(rs[j]) && rs[j].t4 == st.staleUntilUs;
        assert (rs + [r])[j] == rs[j];
      } else {
        assert (rs + [r])[|rs|] == r && Late(r);
      }
    }
    forall j | 0 <= j < |rs + [r]| && Late((rs + [r])[j])
      ensures (rs + [r])[j].t4 <= t.staleUntilUs
    {
      if j < |rs| {
        assert (rs + [r])[j] == rs[j];
      }
    }
  }

  lemma {:induction false} RunSnoc(st: State, rs: seq<Reply>, r: Reply)
    requires AllPlausible(st.window)
    ensures OnReplies(st, rs + [r]) == OnReply(OnReplies(st, rs), r)
    decreases |rs|
  {
    if rs == [] {
      assert [] + [r] == [r] && [r][1..] == [];
      assert OnReplies(OnReply(st, r), []) == OnReply(st, r);
    } else {
      RunSnoc(OnReply(st, rs[0]), rs[1..], r);
      assert (rs + [r])[0] == rs[0] && (rs + [r])[1..] == rs[1..] + [r];
    }
  }

  /**
   What the window holds after any replies at all, honest or not: some of those worth keeping,
   in the order they came, the newest of them included.
   */
  ghost predicate Holds(st: State, rs: seq<Reply>)
    requires AllPlausible(st.window)
  {
    && StaleIs(st, rs) && |st.window| <= WINDOW
    && Members(st.window, rs) && Newest(st.window, rs)
  }

  predicate Members(window: seq<Entry>, rs: seq<Reply>) {
    && (forall i :: 0 <= i < |window| ==> FromRun(window[i], rs))
    && (forall i, j :: 0 <= i < j < |window| ==> window[i].at < window[j].at)
  }

  predicate Newest(window: seq<Entry>, rs: seq<Reply>) {
    forall k :: 0 <= k < |rs| && Live(rs[k], rs[..k]) ==>
      window != [] && k <= window[|window| - 1].at
  }

  /** The reply came in at that place and was worth keeping. */
  predicate FromRun(e: Entry, rs: seq<Reply>) {
    e.at < |rs| && e.reply == rs[e.at] && Live(e.reply, rs[..e.at])
  }

  lemma {:induction false} WindowIsLive(rs: seq<Reply>)
    ensures Holds(OnReplies(INITIAL, rs), rs)
  {
    if rs == [] {
      assert OnReplies(INITIAL, []) == INITIAL;
    } else {
      var before, r := rs[..|rs| - 1], rs[|rs| - 1];
      assert before + [r] == rs;
      WindowIsLive(before);
      RunSnoc(INITIAL, before, r);
      HoldsStep(OnReplies(INITIAL, before), before, r);
    }
  }

  lemma HoldsStep(st: State, rs: seq<Reply>, r: Reply)
    requires AllPlausible(st.window) && Holds(st, rs)
    ensures Holds(OnReply(st, r), rs + [r])
  {
    hide OnReply, Live, StaleIs, Latest, Members, Newest, AllPlausible;
    StaleStep(st, rs, r);
    WindowStep(st, rs, r);
    var now, e := OnReply(st, r).window, Entry(r, |rs|);
    if Live(r, rs) {
      var kept :| (kept == [] || kept == st.window) && now == Latest(kept + [e]);
      MembersEmpty(rs);
      MembersSnoc(kept, rs, r);
      var es := kept + [e];
      assert es != [] && es[|es| - 1] == e;
      var k := LatestIsTail(es);
      MembersTail(es, k, rs + [r]);
      assert now[|now| - 1] == e;
    } else {
      MembersSame(now, rs, r);
    }
    NewestStep(st.window, now, rs, r);
  }

  lemma MembersEmpty(rs: seq<Reply>)
    ensures Members([], rs)
  {
  }

  lemma MembersSame(window: seq<Entry>, rs: seq<Reply>, r: Reply)
    requires Members(window, rs)
    ensures Members(window, rs + [r])
  {
    hide Live;
    FromLonger(rs, r);
  }

  lemma MembersSnoc(window: seq<Entry>, rs: seq<Reply>, r: Reply)
    requires Members(window, rs) && Live(r, rs)
    ensures Members(window + [Entry(r, |rs|)], rs + [r])
  {
    hide Live;
    FromLonger(rs, r);
  }

  lemma MembersTail(window: seq<Entry>, k: nat, rs: seq<Reply>)
    requires Members(window, rs) && k <= |window|
    ensures Members(window[k..], rs)
  {
    hide FromRun;
  }

  lemma NewestStep(window: seq<Entry>, now: seq<Entry>, rs: seq<Reply>, r: Reply)
    requires Newest(window, rs)
    requires if Live(r, rs) then now != [] && now[|now| - 1].at == |rs| else now == window
    ensures Newest(now, rs + [r])
  {
    hide Live;
    assert (rs + [r])[..|rs|] == rs;
    forall k | 0 <= k < |rs + [r]| && Live((rs + [r])[k], (rs + [r])[..k])
      ensures now != [] && k <= now[|now| - 1].at
    {
      if k < |rs| {
        assert (rs + [r])[..k] == rs[..k] && (rs + [r])[k] == rs[k];
      }
    }
  }

  lemma WindowStep(st: State, rs: seq<Reply>, r: Reply)
    requires AllPlausible(st.window) && StaleIs(st, rs)
    ensures Live(r, rs) ==>
              exists kept ::
                (kept == [] || kept == st.window) && OnReply(st, r).window == Latest(kept + [Entry(r, |rs|)])
    ensures !Live(r, rs) ==> OnReply(st, r).window == st.window
  {
    hide SampleOf, AnyJump, IsStale, Latest;
    StaleStep(st, rs, r);
  }

  lemma LatestIsTail(es: seq<Entry>) returns (k: nat)
    ensures k <= |es| && Latest(es) == es[k..] && (es != [] ==> k < |es|) && |Latest(es)| <= WINDOW
  {
    k := if |es| <= WINDOW then 0 else |es| - WINDOW;
    assert es[0..] == es;
  }

  lemma FromLonger(rs: seq<Reply>, r: Reply)
    ensures forall e :: FromRun(e, rs) ==> FromRun(e, rs + [r]) && e.at < |rs|
    ensures Live(r, rs) ==> FromRun(Entry(r, |rs|), rs + [r])
  {
    assert (rs + [r])[..|rs|] == rs;
    forall e | FromRun(e, rs)
      ensures FromRun(e, rs + [r]) && e.at < |rs|
    {
      assert (rs + [r])[..e.at] == rs[..e.at];
    }
  }

  // When the window is emptied

  /** As long as the air clock runs on, no reply looks like a jump. */
  lemma HonestIsNoJump(r: Reply, window: seq<Entry>, theta: int)
    requires Honest(r, theta) && AllPlausible(window) && HonestWindow(window, theta)
    ensures Plausible(r) && !AnyJump(SampleOf(r), window)
  {
    hide SampleOf;
    SampleError(r, theta);
    forall i | 0 <= i < |window|
      ensures !Jumped(SampleOf(r), SampleOf(window[i].reply))
    {
      SampleError(window[i].reply, theta);
    }
  }

  lemma LatestOfLatest(es: seq<Entry>, e: Entry)
    ensures Latest(Latest(es) + [e]) == Latest(es + [e])
  {
  }

  lemma HonestStep(st: State, rs: seq<Reply>, r: Reply, theta: int)
    requires AllPlausible(st.window) && StaleIs(st, rs)
    requires HonestWindow(st.window, theta) && Honest(r, theta)
    ensures OnReply(st, r).window
            == if Live(r, rs) then Latest(st.window + [Entry(r, |rs|)]) else st.window
    ensures HonestWindow(OnReply(st, r).window, theta)
  {
    hide SampleOf, AnyJump, IsStale, Live;
    StaleStep(st, rs, r);
    HonestIsNoJump(r, st.window, theta);
  }

  lemma KeptSnoc(rs: seq<Reply>, r: Reply, from: nat)
    requires from <= |rs|
    ensures KeptSince(rs + [r], from)
            == if Live(r, rs) then KeptSince(rs, from) + [Entry(r, |rs|)] else KeptSince(rs, from)
  {
    hide Live;
    assert (rs + [r])[..|rs|] == rs;
  }

  /** From a window with nothing but samples of one air clock, only age removes any. */
  lemma {:induction false} HonestRun(rs: seq<Reply>, b: nat, from: nat, theta: int)
    requires from <= b <= |rs| && forall i :: b <= i < |rs| ==> Honest(rs[i], theta)
    requires OnReplies(INITIAL, rs[..b]).window == Latest(KeptSince(rs[..b], from))
    requires HonestWindow(OnReplies(INITIAL, rs[..b]).window, theta)
    ensures OnReplies(INITIAL, rs).window == Latest(KeptSince(rs, from))
    ensures HonestWindow(OnReplies(INITIAL, rs).window, theta)
  {
    hide SampleOf, Live, OnReply, OnReplies, Latest, KeptSince, HonestWindow, StaleIs;
    if b == |rs| {
      assert rs[..b] == rs;
    } else {
      var before, r := rs[..|rs| - 1], rs[|rs| - 1];
      assert before + [r] == rs && before[..b] == rs[..b];
      HonestRun(before, b, from, theta);
      RunSnoc(INITIAL, before, r);
      var st := OnReplies(INITIAL, before);
      WindowIsLive(before);
      HonestStep(st, before, r, theta);
      KeptSnoc(before, r, from);
      LatestOfLatest(KeptSince(before, from), Entry(r, |before|));
    }
  }

  /** With a constant air clock the window is simply the latest sixteen replies worth keeping. */
  lemma NeverReset(rs: seq<Reply>, theta: int)
    requires AllHonest(rs, theta)
    ensures var kept := KeptSince(rs, 0);
      OnReplies(INITIAL, rs).window == if |kept| <= 16 then kept else kept[|kept| - 16..]
    ensures HonestWindow(OnReplies(INITIAL, rs).window, theta)
  {
    assert rs[..0] == [];
    HonestRun(rs, 0, 0, theta);
  }

  /** The air clock went from one offset to another further than two samples can differ by. */
  predicate BigJump(r: Reply, prior: Reply, jump: int)
    requires Plausible(r) && Plausible(prior)
  {
    2 * Abs(jump) > 3 * (SampleOf(r).rttUs + SampleOf(prior).rttUs) + 2 * 5000 + 2
  }

  lemma BigJumpShows(r: Reply, prior: Reply, theta: int, jump: int)
    requires Honest(prior, theta) && Honest(r, theta + jump)
    requires Plausible(r) && Plausible(prior) && BigJump(r, prior, jump)
    ensures Jumped(SampleOf(r), SampleOf(prior))
  {
    hide SampleOf, Honest;
    SampleError(r, theta + jump);
    SampleError(prior, theta);
  }

  /**
   The first reply kept after the air clock jumped throws out every sample from before, and
   from then on the window is the latest replies from that one on. Whatever came before, one
   sample of the clock as it was is enough.
   */
  lemma JumpIsSeen(before: seq<Reply>, r: Reply, after: seq<Reply>, theta: int, jump: int, i: nat)
    requires Honest(r, theta + jump) && AllHonest(after, theta + jump) && Live(r, before)
    requires i < |OnReplies(INITIAL, before).window|
    requires Honest(OnReplies(INITIAL, before).window[i].reply, theta)
    requires BigJump(r, OnReplies(INITIAL, before).window[i].reply, jump)
    ensures OnReplies(INITIAL, before + [r]).window == [Entry(r, |before|)]
    ensures var rs := before + [r] + after;
            && OnReplies(INITIAL, rs).window == Latest(KeptSince(rs, |before|))
            && HonestWindow(OnReplies(INITIAL, rs).window, theta + jump)
  {
    hide SampleOf, IsStale, Live, OnReplies, BigJump;
    var st := OnReplies(INITIAL, before);
    BigJumpShows(r, st.window[i].reply, theta, jump);
    assert AnyJump(SampleOf(r), st.window);
    WindowIsLive(before);
    StaleStep(st, before, r);
    RunSnoc(INITIAL, before, r);
    var rs, b := before + [r] + after, |before| + 1;
    assert rs[..b] == before + [r];
    KeptFirst(before, r);
    forall k | b <= k < |rs|
      ensures Honest(rs[k], theta + jump)
    {
      assert rs[k] == after[k - b];
    }
    HonestRun(rs, b, |before|, theta + jump);
  }

  lemma KeptFirst(before: seq<Reply>, r: Reply)
    requires Live(r, before)
    ensures KeptSince(before + [r], |before|) == [Entry(r, |before|)]
  {
    hide Live;
    assert (before + [r])[..|before|] == before;
  }

  // What the estimate is worth

  /** A window of honest samples gives the offset to within the reported uncertainty and 1 us. */
  lemma EstimateError(window: seq<Entry>, theta: int, offsetUs: int, uncertaintyUs: u32)
    requires AllPlausible(window) && HonestWindow(window, theta)
    requires forall i :: 0 <= i < |window| ==> !Late(window[i].reply)
    requires IsEstimate(window, offsetUs, uncertaintyUs)
    ensures Abs(offsetUs - theta) <= uncertaintyUs + 1 && 2 * uncertaintyUs <= 250000
    ensures forall i :: 0 <= i < |window| ==> uncertaintyUs <= SampleOf(window[i].reply).rttUs / 2
  {
    hide SampleOf;
    var i :| 0 <= i < |window| && IsBest(window, i) && SampleOf(window[i].reply).offsetUs == offsetUs
             && Capped(SampleOf(window[i].reply).rttUs / 2) == uncertaintyUs;
    SampleError(window[i].reply, theta);
    assert !Late(window[i].reply);
  }

  // The capture time, from its low 32 bits

  const HALF: int := 0x8000_0000
  const WRAP: int := 0x1_0000_0000

  /** unwrap_air_pts(): the time with these low bits nearest to the air clock's reading. */
  function UnwrapAirPts(pts: u32, airNowUs: u64): u64 {
    var cand := airNowUs as int / WRAP * WRAP + pts as int;
    if cand > Wrapped(airNowUs as int + HALF) && cand >= WRAP then Wrapped(cand - WRAP)
    else if Wrapped(cand + HALF) < airNowUs as int then Wrapped(cand + WRAP)
    else cand
  }

  function Wrapped(x: int): u64 { x % 0x1_0000_0000_0000_0000 }

  /**
   It gives the capture time exactly when that is within 2^31 us of the reading; at 2^31 when
   both are in the same 2^32; and in the first 2^32 us, where there is nothing lower to take,
   also when the capture time lies ahead by more.
   */
  lemma UnwrapIff(capture: u64, airNowUs: u64)
    requires capture < 0x8000_0000_0000_0000 && airNowUs < 0x8000_0000_0000_0000
    ensures UnwrapAirPts(capture % 0x1_0000_0000, airNowUs) == capture <==>
            || Abs(capture as int - airNowUs as int) < HALF
            || (Abs(capture as int - airNowUs as int) == HALF
                && capture as int / WRAP == airNowUs as int / WRAP)
            || (capture as int < WRAP && capture as int > airNowUs as int + HALF)
  {
    hide UnwrapAirPts;
    var block, low := airNowUs as int / WRAP, airNowUs as int % WRAP;
    var at, pts := capture as int / WRAP, capture as int % WRAP;
    UnwrapCases(pts, airNowUs, block, low);
    if at > block + 1 {
      assert (at - block - 2) * WRAP >= 0;
    } else if at < block - 1 {
      assert (block - at - 2) * WRAP >= 0;
    }
  }

  /** It looks one wrap up or down at most. */
  lemma UnwrapCases(pts: u32, airNowUs: u64, block: int, low: int)
    requires airNowUs as int < 0x8000_0000_0000_0000
    requires block == airNowUs as int / WRAP && low == airNowUs as int % WRAP
    ensures UnwrapAirPts(pts, airNowUs) as int == pts as int +
            (if pts as int > low + HALF && block >= 1 then block - 1
             else if pts as int + HALF < low then block + 1
             else block) * WRAP
  {
    assert airNowUs as int == block * WRAP + low;
    assert Wrapped(airNowUs as int + HALF) == airNowUs as int + HALF;
    assert Wrapped(block * WRAP + pts as int + HALF) == block * WRAP + pts as int + HALF;
    assert pts as int > low + HALF ==> block < 1 || block * WRAP + pts as int >= WRAP;
  }

  /**
   The capture time on the ground clock, as rx/main.c writes it into the timing SEI: when the
   frame is younger than half a wrap, less what the estimate may be off, the air unit's time is
   recovered exactly and the ground's is within the reported uncertainty and 1 us of the truth.
   */
  lemma CaptureTime(rs: seq<Reply>, theta: int, offsetUs: int, uncertaintyUs: u32, capture: u64, rxDoneUs: u64)
    requires HonestWindow(OnReplies(INITIAL, rs).window, theta)
    requires IsEstimate(OnReplies(INITIAL, rs).window, offsetUs, uncertaintyUs)
    requires 0 <= rxDoneUs as int + offsetUs < 0x8000_0000_0000_0000
    requires capture < 0x8000_0000_0000_0000
    requires capture as int <= rxDoneUs as int + theta
    requires rxDoneUs as int + theta - capture as int + uncertaintyUs as int + 1 < HALF
    ensures UnwrapAirPts(capture % 0x1_0000_0000, (rxDoneUs as int + offsetUs) as u64) == capture
    ensures Abs((capture as int - offsetUs) - (capture as int - theta)) <= uncertaintyUs + 1
    ensures 2 * uncertaintyUs <= MAX_RTT_US
  {
    hide Live, OnReplies, SampleOf, UnwrapAirPts;
    WindowIsLive(rs);
    var window := OnReplies(INITIAL, rs).window;
    forall i | 0 <= i < |window|
      ensures !Late(window[i].reply)
    {
      assert FromRun(window[i], rs);
      LiveIsNotLate(window[i].reply, rs[..window[i].at]);
    }
    EstimateError(window, theta, offsetUs, uncertaintyUs);
    UnwrapIff(capture, (rxDoneUs as int + offsetUs) as u64);
  }

  lemma LiveIsNotLate(r: Reply, rs: seq<Reply>)
    requires Live(r, rs)
    ensures !Late(r)
  {
  }
}
