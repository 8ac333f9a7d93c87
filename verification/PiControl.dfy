/** run_pi() of tx/bitrate_ctl.c, over the reals: the rate and the frame rate asked of waybeam. */
module PiControl {
  import opened Waybeam

  const DISTURB_HOLD_MS: nat := 500
  const CUT_HOLDOFF_MS: nat := 1500
  const RETRY_MS: nat := 1000
  const MIN_UP_STEP: real := 0.05
  const MIN_DOWN_STEP: real := 0.03
  const FPS_RESTORE: real := 1.25

  datatype Config = Config(minKbps: nat, maxKbps: nat, margin: real, kMin: real, kMax: real,
                           kpUp: real, kpDown: real, kiUp: real, kiDown: real, delaySetMs: real,
                           recoverPerS: real, slewUp: real, severeK: real, mildTrim: real, ringBackoff: real,
                           fpsDivMax: int, fpsRecoveryMs: nat)

  /** The settings that the properties below need. */
  predicate Sensible(c: Config) {
    0.0 <= c.kMin <= c.kMax && 0.0 <= c.margin && 0.0 <= c.slewUp && 0.0 <= c.kiUp && 0.0 <= c.kiDown
  }

  function StageMax(c: Config): nat { if c.fpsDivMax > 1 then c.fpsDivMax else 1 }

  /**
   What one tick finds: the time, whether waybeam was started anew, the delay, the capacity
   if it was polled, and the signs of a disturbance.
   */
  datatype Input = Input(now: nat, restarted: bool, delayMs: real, capacity: nat,
                         severe: bool, mild: bool, backlog: bool)

  predicate IsPow2(n: nat) {
    n == 1 || (n > 1 && n % 2 == 0 && IsPow2(n / 2))
  }

  function Clamp(x: real, lo: real, hi: real): (r: real)
    ensures lo <= hi ==> lo <= r <= hi
  {
    var y := if x < lo then lo else x;
    if y > hi then hi else y
  }

  function Quotient(a: nat, b: nat): real
    requires b > 0
  {
    a as real / b as real
  }

  // What is noted of a run

  /** A tick's wish: the unclamped target, and the floor and divisor it was held against. */
  datatype Wish = Wish(now: nat, target: real, floorKbps: nat, div: nat)

  /** It wanted a quarter more than the floor of the next stage up. */
  predicate WantsUp(w: Wish) {
    w.div > 1 && w.target >= Quotient(w.floorKbps, w.div / 2) * FPS_RESTORE
  }

  /** From wish i on, every tick wanted the next stage up. */
  predicate AllWantUp(wishes: seq<Wish>, i: nat) {
    forall j :: i <= j < |wishes| ==> WantsUp(wishes[j])
  }

  /**
   What a turn worked out: the rate t, from the capacity and the gain, with the floor known, the
   divisor asked for, the rate before and the time since the turn before.
   */
  datatype Plan = Plan(t: nat, cap: nat, k: real, floorKbps: nat, div: nat, prior: nat, dt: real)

  /** The capacity less the margin, as far as the gain goes. */
  function Wanted(p: Plan, c: Config): real { p.cap as real * c.margin * p.k }

  /** What the slew limit allows. */
  function SlewLimit(p: Plan, c: Config): real { p.prior as real * (1.0 + c.slewUp * p.dt) }

  predicate Slewed(p: Plan, c: Config) { p.prior > 0 && Wanted(p, c) > SlewLimit(p, c) }

  /**
   The rate is what is wanted, rounded down, unless the slew limit, the floor of the stage or the
   maximum holds it, the later of these the stronger; and then it is that.
   */
  predicate IsRate(p: Plan, c: Config)
    requires p.div > 0
  {
    var floor, max := Quotient(p.floorKbps, p.div), c.maxKbps as real;
    var wanted := p.cap as real * c.margin * p.k;
    && (!Slewed(p, c) && floor <= wanted <= max ==> p.t as real <= wanted < p.t as real + 1.0)
    && (Slewed(p, c) && floor <= SlewLimit(p, c) <= max ==> p.t as real <= SlewLimit(p, c) < p.t as real + 1.0)
    && (!Slewed(p, c) && floor <= max <= wanted ==> p.t == c.maxKbps)
    && (Slewed(p, c) && floor <= max <= SlewLimit(p, c) ==> p.t == c.maxKbps)
    && (!Slewed(p, c) && wanted <= floor <= max ==> p.t == p.floorKbps / p.div)
    && (Slewed(p, c) && SlewLimit(p, c) <= floor <= max ==> p.t == p.floorKbps / p.div)
    && (max <= floor ==> p.t == c.maxKbps)
  }

  /**
   The rate is no more than the capacity less the margin at the largest gain, nor than the slew
   limit, unless it is the floor; no less than the floor, unless it is the maximum.
   */
  predicate PlanOk(p: Plan, c: Config) {
    && p.div > 0 && IsRate(p, c)
    && p.t <= c.maxKbps
    && (p.t >= p.floorKbps / p.div || p.t == c.maxKbps)
    && (p.t as real <= p.cap as real * c.margin * c.kMax || p.t <= p.floorKbps / p.div)
    && (p.prior == 0 || p.t as real <= SlewLimit(p, c) || p.t <= p.floorKbps / p.div)
  }

  /** A rate waybeam accepted: the one worked out, or in a cut one between that and the rate before. */
  datatype Rate = Rate(kbps: nat, plan: Plan)

  predicate RateOk(r: Rate, c: Config) {
    && PlanOk(r.plan, c)
    && (r.kbps == r.plan.t || r.plan.t < r.kbps < r.plan.prior)
    && r.kbps <= c.maxKbps
    && (r.kbps >= r.plan.floorKbps / r.plan.div || r.kbps == c.maxKbps)
    && (r.plan.prior == 0 || r.kbps as real <= SlewLimit(r.plan, c)
        || r.kbps <= r.plan.floorKbps / r.plan.div)
  }

  /** The requests of a turn: for a new stage one, for a rate one, and in a cut more, nearer to the rate before. */
  predicate AskedFor(reqs: seq<Request>, p: Plan, cur: int) {
    if p.div != cur then reqs == [ForStage(p.div, p.t)]
    else forall i :: 0 <= i < |reqs| ==>
      reqs[i].ForRate? && if i == 0 then reqs[i].kbps == p.t else p.t < reqs[i].kbps < p.prior
  }

  /** A request comes of a plan. */
  predicate ComesOf(r: Request, p: Plan) {
    match r
    case ForStage(div, kbps) => div == p.div && kbps == p.t
    case ForRate(kbps) => kbps == p.t || p.t < kbps < p.prior
  }

  /** For this long, up to now, every tick wanted the next stage up. */
  predicate HeldLongEnough(wishes: seq<Wish>, ms: nat, now: nat) {
    exists i :: 0 <= i < |wishes| && now - wishes[i].now >= ms && AllWantUp(wishes, i)
  }

  lemma HeldFrom(wishes: seq<Wish>, ms: nat, now: nat, i: nat, since: nat)
    requires i < |wishes| && AllWantUp(wishes, i) && now - since >= ms && wishes[i].now == since
    ensures HeldLongEnough(wishes, ms, now)
  {
  }

  lemma OneMoreWish(wishes: seq<Wish>, w: Wish)
    ensures WantsUp(w) ==> AllWantUp(wishes + [w], |wishes|)
    ensures forall i :: 0 <= i < |wishes| && AllWantUp(wishes, i) && WantsUp(w) ==> AllWantUp(wishes + [w], i)
  {
    hide WantsUp;
  }

  /** What a turn may change of the controller and of waybeam. */
  datatype View = View(applied: nat, floorKbps: nat, div: int, divMax: nat, divTryMs: nat, upSinceMs: nat,
                       disturbMs: nat, backlogMs: nat, kI: real, k: real,
                       answers: seq<int>, rateKbps: nat, serverDiv: nat)

  /** What a probe does, if one is due at that time; ok if waybeam agrees. */
  predicate ProbeStep(was: View, mid: View, now: nat, ok: bool, serverFloor: nat) {
    var due := was.div < 0 && now >= was.divTryMs + RETRY_MS;
    var status := Reply(was.answers, was.floorKbps != 0 && FullRate(was.floorKbps, 1) < serverFloor);
    && ok == (due && IsOk(status))
    && mid == was.(div := if ok || (due && status in {404, 501}) then 1 else was.div,
                   divMax := if due && status in {404, 501} then 1 else was.divMax,
                   divTryMs := if due then now else was.divTryMs,
                   answers := if due then Tail(was.answers) else was.answers,
                   rateKbps := if ok && was.floorKbps > 0 then was.floorKbps else was.rateKbps,
                   serverDiv := if ok then 1 else was.serverDiv)
  }

  /** A mild disturbance counts when the one before was a while ago. */
  predicate Trims(v: View, tk: Input) {
    !tk.severe && tk.mild && tk.now >= v.disturbMs + DISTURB_HOLD_MS
  }

  predicate Cuts(v: View, tk: Input) {
    tk.backlog && tk.now >= v.backlogMs + CUT_HOLDOFF_MS
  }

  /** When the last disturbance was, this turn's counted in. */
  function DisturbedAt(v: View, tk: Input): nat {
    if tk.severe || Trims(v, tk) then tk.now else v.disturbMs
  }

  /** The integrator behind the signs of a disturbance. */
  function Disturbed(c: Config, kI: real, k: real, severe: bool, trims: bool, cuts: bool): real {
    var x := if severe && kI > c.severeK then c.severeK else if trims then ShareOf(kI, c.mildTrim) else kI;
    if cuts then ShareOf(if k < x then k else x, c.ringBackoff) else x
  }

  function ShareOf(x: real, part: real): real { x * part }

  /**
   A disturbance never raises the integrator: a severe one leaves it at severeK at most, a mild one
   takes its share off, and a backlog takes its share off the gain in force.
   */
  lemma DisturbanceLowers(c: Config, kI: real, k: real, severe: bool, trims: bool, cuts: bool)
    requires 0.0 <= c.mildTrim <= 1.0 && 0.0 <= c.ringBackoff <= 1.0 && 0.0 <= kI && 0.0 <= k && 0.0 <= c.severeK
    ensures var x := Disturbed(c, kI, k, severe, trims, cuts);
      && 0.0 <= x <= kI && (severe ==> x <= c.severeK) && (cuts ==> x <= k * c.ringBackoff)
      && (trims && !severe && !cuts ==> x == kI * c.mildTrim) && (!severe && !trims && !cuts ==> x == kI)
  {
    hide ShareOf;
    var x := if severe && kI > c.severeK then c.severeK else if trims then ShareOf(kI, c.mildTrim) else kI;
    Share(kI, kI, c.mildTrim);
    Share(if k < x then k else x, k, c.ringBackoff);
  }

  lemma Share(x: real, y: real, part: real)
    requires 0.0 <= x <= y && 0.0 <= part <= 1.0
    ensures 0.0 <= ShareOf(x, part) <= x && ShareOf(x, part) <= y * part && ShareOf(x, part) == x * part
  {
    assert x * (1.0 - part) >= 0.0 && (y - x) * part >= 0.0;
  }

  /** At the floor of the last stage. */
  predicate AtFloor(v: View) {
    v.applied > 0 && v.applied <= v.floorKbps / Cur(v.div) && Cur(v.div) >= v.divMax
  }

  /** The ceiling or the slew limit holds the rate below nine tenths of what the gain asks for. */
  predicate HeldUp(c: Config, v: View, cap: nat) {
    v.applied > 0 && v.applied as real < cap as real * c.margin * v.k * 0.9
  }

  /** The integrator and the gain behind a turn. */
  function NextGain(c: Config, v: View, tk: Input, cap: nat, dt: real): (real, real)
    requires v.divMax > 0
  {
    var e := c.delaySetMs - tk.delayMs;
    var kD := Disturbed(c, v.kI, v.k, tk.severe, Trims(v, tk), Cuts(v, tk));
    GainOf(c, kD, e, dt, AtFloor(v), HeldUp(c, v, cap), v.applied, Quiet(DisturbedAt(v, tk), tk.now), v.divMax)
  }

  /** No disturbance for a second. */
  predicate Quiet(disturbMs: nat, now: nat) {
    disturbMs == 0 || now >= disturbMs + 1000
  }

  /** The integrator and the gain; kD is the integrator behind a disturbance, e how far the delay is below setpoint. */
  function GainOf(c: Config, kD: real, e: real, dt: real, atFloor: bool, heldUp: bool, applied: nat, quiet: bool,
                  divMax: nat): (real, real)
    requires divMax > 0
  {
    var kI := Bounded(c, Integrated(c, kD, e, dt, atFloor, heldUp, applied, quiet), divMax);
    (kI, Bounded(c, kI + Product(if e < 0.0 then c.kpDown else c.kpUp, e, 1.0), divMax))
  }

  /** The stage asked for, and since when the next one up has been wanted. */
  function NextStage(c: Config, v: View, now: nat, target: real): (r: (nat, nat)) {
    var cur := Cur(v.div);
    if v.div <= 0 || v.divMax <= 1 then (cur, v.upSinceMs)
    else if target < Quotient(v.floorKbps, cur) && cur * 2 <= v.divMax then (cur * 2, 0)
    else if cur > 1 && target >= Quotient(v.floorKbps, cur / 2) * FPS_RESTORE then
      var since := if v.upSinceMs == 0 then now else v.upSinceMs;
      (if now >= since + c.fpsRecoveryMs then cur / 2 else cur, since)
    else (cur, 0)
  }

  /** What the answer to a request for a new stage makes of things. */
  predicate StageStep(mid: View, end: View, plan: Plan, serverFloor: nat) {
    var status := Reply(mid.answers, plan.t != 0 && FullRate(plan.t, plan.div) < serverFloor);
    if status in {404, 501} then end == mid.(answers := Tail(mid.answers), divMax := 1)
    else if !IsOk(status) then
      end == mid.(answers := Tail(mid.answers),
                  floorKbps := LearnFloor(mid.floorKbps, status, FullRate(plan.t, plan.div)))
    else
      end == mid.(answers := Tail(mid.answers), div := plan.div, serverDiv := plan.div, upSinceMs := 0,
                  applied := plan.t, rateKbps := if plan.t != 0 then plan.t else mid.rateKbps)
  }

  /**
   What the rest of a turn does, from how things are behind a probe: the gain and the stage, the
   rate that comes of them, and in full a turn that asks for a new stage, or whose rate is the
   first, or stays as it is.
   */
  predicate ControlStep(c: Config, mid: View, end: View, cap: nat, dt: real, plan: Plan, tk: Input, serverFloor: nat) {
    && PlanOk(plan, c) && plan.cap == cap && plan.k == end.k && plan.dt == dt
    && plan.prior == mid.applied && plan.floorKbps == mid.floorKbps
    && mid.divMax > 0 && (end.kI, end.k) == NextGain(c, mid, tk, cap, dt)
    && end.disturbMs == DisturbedAt(mid, tk)
    && end.backlogMs == (if Cuts(mid, tk) then tk.now else mid.backlogMs)
    && plan.div == NextStage(c, mid, tk.now, TargetOf(c, cap, end.k)).0
    && var calm := mid.(kI := end.kI, k := end.k, disturbMs := end.disturbMs, backlogMs := end.backlogMs,
                        upSinceMs := NextStage(c, mid, tk.now, TargetOf(c, cap, end.k)).1);
       && (plan.div != Cur(mid.div) ==> StageStep(calm, end, plan, serverFloor))
       && (plan.div == Cur(mid.div) && plan.t == mid.applied > 0 ==> end == calm)
       && (plan.div == Cur(mid.div) && mid.applied == 0 ==>
             var ok := IsOk(Reply(mid.answers, FullRate(plan.t, mid.serverDiv) < serverFloor));
             end == calm.(answers := Tail(mid.answers),
                          applied := if ok then plan.t else 0, rateKbps := if ok then plan.t else mid.rateKbps))
  }

  /** The divisor in force. */
  function Cur(div: int): (d: nat)
    ensures d >= 1
  {
    if div > 0 then div else 1
  }

  // The steps of one tick

  /** The capacity, less the margin, as far as the gain goes. */
  function TargetOf(c: Config, cap: nat, k: real): real { cap as real * c.margin * k }

  /** The target within the slew limit, above the floor and below the maximum. */
  function Limited(c: Config, target: real, applied: nat, dt: real, floorKbps: nat, div: nat): real
    requires div > 0
  {
    var up := applied as real * (1.0 + c.slewUp * dt);
    var slewed := if applied > 0 && target > applied as real && target > up then up else target;
    var lifted := if slewed < Quotient(floorKbps, div) then Quotient(floorKbps, div) else slewed;
    if lifted > c.maxKbps as real then c.maxKbps as real else lifted
  }

  lemma QuotientFloor(a: nat, b: nat)
    requires b > 0
    ensures Quotient(a, b) >= 0.0 && Quotient(a, b).Floor == a / b
  {
    var q, r := a / b, a % b;
    assert a == q * b + r;
    assert a as real == q as real * b as real + r as real;
    assert Quotient(a, b) == q as real + r as real / b as real;
    assert 0.0 <= r as real / b as real < 1.0;
  }

  /** The code's rate for a plan is what the plan asks for. */
  lemma LimitedIsOk(p: Plan, c: Config)
    requires Sensible(c) && p.div > 0 && p.dt >= 0.0 && 0.0 <= p.k <= c.kMax
    requires p.t as int == Limited(c, TargetOf(c, p.cap, p.k), p.prior, p.dt, p.floorKbps, p.div).Floor
    ensures PlanOk(p, c)
  {
    hide Quotient, Limited, TargetOf, IsRate, SlewLimit;
    QuotientFloor(p.floorKbps, p.div);
    LimitNotBelow(p, c);
    var target := TargetOf(c, p.cap, p.k);
    var x := Limited(c, target, p.prior, p.dt, p.floorKbps, p.div);
    LimitedBounds(p, c, target);
    TargetBound(p, c);
    FloorGrows(Quotient(p.floorKbps, p.div), x);
    FloorGrows(x, Quotient(p.floorKbps, p.div));
    FloorGrows(x, c.maxKbps as real);
    assert (c.maxKbps as real).Floor == c.maxKbps;
    LimitedIsRate(p, c);
  }

  lemma LimitNotBelow(p: Plan, c: Config)
    requires Sensible(c) && p.dt >= 0.0
    ensures p.prior as real <= SlewLimit(p, c)
  {
    SignOf(c.slewUp, p.prior as real, p.dt);
    assert SlewLimit(p, c) == p.prior as real + c.slewUp * p.prior as real * p.dt;
  }

  lemma LimitedBounds(p: Plan, c: Config, target: real)
    requires p.div > 0 && p.prior as real <= SlewLimit(p, c)
    ensures var x := Limited(c, target, p.prior, p.dt, p.floorKbps, p.div);
      var q := Quotient(p.floorKbps, p.div);
      && x <= c.maxKbps as real && (x >= q || x == c.maxKbps as real) && (x <= target || x <= q)
      && (p.prior == 0 || x <= SlewLimit(p, c) || x <= q)
  {
    hide Quotient;
  }

  lemma TargetBound(p: Plan, c: Config)
    requires Sensible(c) && 0.0 <= p.k <= c.kMax
    ensures TargetOf(c, p.cap, p.k) <= p.cap as real * c.margin * c.kMax
  {
    GainBound(p.cap as real * c.margin, p.k, c.kMax);
  }

  /** Case by case. */
  lemma LimitedIsRate(p: Plan, c: Config)
    requires Sensible(c) && p.div > 0 && p.prior as real <= SlewLimit(p, c)
    requires p.t as int == Limited(c, TargetOf(c, p.cap, p.k), p.prior, p.dt, p.floorKbps, p.div).Floor
    ensures IsRate(p, c)
  {
    hide Quotient;
    QuotientFloor(p.floorKbps, p.div);
    assert (c.maxKbps as real).Floor == c.maxKbps;
  }

  lemma LimitedIsNat(c: Config, target: real, applied: nat, dt: real, floorKbps: nat, div: nat)
    requires div > 0
    ensures Limited(c, target, applied, dt, floorKbps, div) >= 0.0
  {
    hide Quotient;
    QuotientFloor(floorKbps, div);
  }

  lemma GainBound(x: real, k: real, kMax: real)
    requires x >= 0.0 && k <= kMax
    ensures x * k <= x * kMax
  {
    assert x * (kMax - k) >= 0.0;
  }

  lemma FloorGrows(x: real, y: real)
    ensures x <= y ==> x.Floor <= y.Floor
  {
  }

  function Product(a: real, x: real, dt: real): real { a * x * dt }

  /** The bounds of the gain: the lower one goes down with the frame-rate stages. */
  function Bounded(c: Config, k: real, divMax: nat): real
    requires divMax > 0
  {
    Clamp(k, c.kMin / divMax as real, c.kMax)
  }

  lemma BoundedFits(c: Config, k: real, divMax: nat)
    requires Sensible(c) && 1 <= divMax <= StageMax(c)
    ensures GainOk(c, Bounded(c, k, divMax)) && Bounded(c, k, divMax) >= 0.0
  {
    LowerBound(c.kMin, divMax, StageMax(c));
    GainFits(c, Bounded(c, k, divMax), divMax);
  }

  /** The integrator behind one tick, before its bounds: e is what the delay is short of the setpoint. */
  function Integrated(c: Config, kI: real, e: real, dt: real, atFloor: bool, heldUp: bool, applied: nat,
                      quiet: bool): real
  {
    var ki := if e < 0.0 then c.kiDown else c.kiUp;
    var moves := (e > 0.0 && !heldUp && applied < c.maxKbps) || (e < 0.0 && !atFloor);
    var next := if moves then kI + Product(ki, e, dt) else kI;
    if c.recoverPerS > 0.0 && e > 0.0 && !heldUp && next < 1.0 && quiet then next + Product(c.recoverPerS, 1.0, dt)
    else next
  }

  /**
   A long delay never raises the integrator and a short one never lowers it. It does not wind
   up while the rate is held below what is asked for, nor down at the last stage's floor.
   */
  lemma NoWindup(c: Config, kI: real, e: real, dt: real, atFloor: bool, heldUp: bool, applied: nat, quiet: bool)
    requires Sensible(c) && dt >= 0.0
    ensures var next := Integrated(c, kI, e, dt, atFloor, heldUp, applied, quiet);
      && (e <= 0.0 ==> next <= kI) && (e >= 0.0 ==> next >= kI)
      && ((e > 0.0 && heldUp) || (e < 0.0 && atFloor) ==> next == kI)
  {
    SignOf(if e < 0.0 then c.kiDown else c.kiUp, e, dt);
    if c.recoverPerS > 0.0 {
      SignOf(c.recoverPerS, 1.0, dt);
    }
  }

  /**
   The control law, where no bound is in reach: the integrator moves by its gain times the error
   times the time, faster by recoverPerS while it climbs back to 1 in quiet, and the gain in force
   is off it by the proportional gain times the error.
   */
  lemma PiLaw(c: Config, kD: real, e: real, dt: real, applied: nat, quiet: bool, divMax: nat,
              move: real, push: real, rise: real)
    requires divMax > 0 && applied < c.maxKbps
    requires move == (if e < 0.0 then c.kiDown else c.kiUp) * e * dt && rise == c.recoverPerS * dt
    requires push == (if e < 0.0 then c.kpDown else c.kpUp) * e
    ensures var (kI, k) := GainOf(c, kD, e, dt, false, false, applied, quiet, divMax);
      var x := kD + move + if c.recoverPerS > 0.0 && e > 0.0 && quiet && kD + move < 1.0 then rise else 0.0;
      && (c.kMin / divMax as real <= x <= c.kMax ==> kI == x)
      && (c.kMin / divMax as real <= kI + push <= c.kMax ==> k == kI + push)
      && (x < c.kMin / divMax as real <= c.kMax ==> kI == c.kMin / divMax as real)
      && (c.kMin / divMax as real <= c.kMax < x ==> kI == c.kMax)
  {
    hide Product, GainOf;
    ProductIs(if e < 0.0 then c.kiDown else c.kiUp, e, dt);
    ProductIs(if e < 0.0 then c.kpDown else c.kpUp, e, 1.0);
    ProductIs(c.recoverPerS, 1.0, dt);
    LawOf(c, kD, e, dt, applied, quiet, divMax, move, push, rise);
  }

  lemma LawOf(c: Config, kD: real, e: real, dt: real, applied: nat, quiet: bool, divMax: nat,
              move: real, push: real, rise: real)
    requires divMax > 0 && applied < c.maxKbps && (e == 0.0 ==> move == 0.0)
    requires move == Product(if e < 0.0 then c.kiDown else c.kiUp, e, dt) && rise == Product(c.recoverPerS, 1.0, dt)
    requires push == Product(if e < 0.0 then c.kpDown else c.kpUp, e, 1.0)
    ensures var (kI, k) := GainOf(c, kD, e, dt, false, false, applied, quiet, divMax);
      var x := kD + move + if c.recoverPerS > 0.0 && e > 0.0 && quiet && kD + move < 1.0 then rise else 0.0;
      && (c.kMin / divMax as real <= x <= c.kMax ==> kI == x)
      && (c.kMin / divMax as real <= kI + push <= c.kMax ==> k == kI + push)
      && (x < c.kMin / divMax as real <= c.kMax ==> kI == c.kMin / divMax as real)
      && (c.kMin / divMax as real <= c.kMax < x ==> kI == c.kMax)
  {
    hide Product, Integrated, Bounded;
    FreeIntegrator(c, kD, e, dt, applied, quiet);
    var kI := GainOf(c, kD, e, dt, false, false, applied, quiet, divMax).0;
    BoundedIs(c, Integrated(c, kD, e, dt, false, false, applied, quiet), divMax);
    BoundedIs(c, kI + push, divMax);
  }

  lemma ProductIs(a: real, x: real, dt: real)
    ensures Product(a, x, dt) == a * x * dt && (x == 0.0 ==> Product(a, x, dt) == 0.0)
    ensures x == 1.0 ==> Product(a, x, dt) == a * dt
    ensures dt == 1.0 ==> Product(a, x, dt) == a * x
  {
  }

  lemma FreeIntegrator(c: Config, kD: real, e: real, dt: real, applied: nat, quiet: bool)
    requires applied < c.maxKbps && (e == 0.0 ==> Product(c.kiUp, e, dt) == 0.0)
    ensures var move := Product(if e < 0.0 then c.kiDown else c.kiUp, e, dt);
      Integrated(c, kD, e, dt, false, false, applied, quiet)
      == kD + move + if c.recoverPerS > 0.0 && e > 0.0 && quiet && kD + move < 1.0
                     then Product(c.recoverPerS, 1.0, dt) else 0.0
  {
    hide Product;
  }

  lemma BoundedIs(c: Config, k: real, divMax: nat)
    requires divMax > 0
    ensures var lo := c.kMin / divMax as real;
      && (lo <= k <= c.kMax ==> Bounded(c, k, divMax) == k)
      && (k < lo <= c.kMax ==> Bounded(c, k, divMax) == lo) && (lo <= c.kMax < k ==> Bounded(c, k, divMax) == c.kMax)
  {
  }

  /**
   The stage goes down exactly when less than its floor is wanted and there is one below, and up
   exactly when a quarter more than the floor of the next is, and has been for long enough.
   */
  lemma StageMoves(c: Config, v: View, now: nat, target: real)
    requires v.div > 0 && v.divMax > 1 && v.upSinceMs <= now
    ensures var want := NextStage(c, v, now, target).0;
      && (want == v.div || want == 2 * v.div || want == v.div / 2)
      && (want > v.div <==> target * v.div as real < v.floorKbps as real && 2 * v.div <= v.divMax)
      && (want < v.div <==> v.div > 1 && target * 4.0 * (v.div / 2) as real >= 5.0 * v.floorKbps as real
                            && !(target * v.div as real < v.floorKbps as real && 2 * v.div <= v.divMax)
                            && (if v.upSinceMs > 0 then now - v.upSinceMs else 0) >= c.fpsRecoveryMs)
  {
    QuotientTimes(target, v.floorKbps, v.div, 1.0);
    if v.div > 1 {
      QuotientTimes(target, v.floorKbps, v.div / 2, FPS_RESTORE);
    }
  }

  lemma QuotientTimes(x: real, a: nat, b: nat, f: real)
    requires b > 0 && f >= 0.0
    ensures x < Quotient(a, b) * f <==> x * b as real < a as real * f
  {
    var q := Quotient(a, b) * f;
    assert q * b as real == a as real * f;
    if x < q {
      assert (q - x) * b as real > 0.0;
    } else {
      assert (x - q) * b as real >= 0.0;
    }
  }

  /**
   Without a disturbance the integrator stays as it is while a long delay finds the rate at the
   floor of the last stage, and while a short one finds it below nine tenths of what the gain asks
   for, held there by the maximum or the slew limit.
   */
  lemma GainHolds(c: Config, v: View, tk: Input, cap: nat, dt: real)
    requires Sensible(c) && v.divMax > 0 && dt >= 0.0 && c.kMin <= v.kI <= c.kMax && v.applied > 0
    requires !tk.severe && !tk.mild && !tk.backlog
    requires || (tk.delayMs > c.delaySetMs && v.applied <= v.floorKbps / Cur(v.div) && Cur(v.div) >= v.divMax)
             || (tk.delayMs < c.delaySetMs && v.applied as real < cap as real * c.margin * v.k * 0.9)
    ensures NextGain(c, v, tk, cap, dt).0 == v.kI
  {
    hide Product;
    var e := c.delaySetMs - tk.delayMs;
    NoWindup(c, v.kI, e, dt, AtFloor(v), HeldUp(c, v, cap), v.applied, Quiet(DisturbedAt(v, tk), tk.now));
    LowerBound(c.kMin, v.divMax, v.divMax);
  }

  /** With the delay at the setpoint the gain stays. */
  lemma CalmGain(c: Config, kI: real, dt: real, atFloor: bool, heldUp: bool, applied: nat, quiet: bool, divMax: nat)
    requires Sensible(c) && divMax > 0
    ensures Integrated(c, kI, 0.0, dt, atFloor, heldUp, applied, quiet) == kI
    ensures Product(c.kpUp, 0.0, 1.0) == 0.0
    ensures c.kMin <= kI <= c.kMax ==> Bounded(c, kI, divMax) == kI
  {
    LowerBound(c.kMin, divMax, divMax);
  }

  lemma OneIsPow2()
    ensures IsPow2(1)
  {
  }

  lemma {:induction false} StageUp(n: nat)
    requires IsPow2(n)
    ensures n > 1 ==> n % 2 == 0 && IsPow2(n / 2)
  {
  }

  lemma {:induction false} StageDown(n: nat, m: nat)
    requires IsPow2(n) && m == 2 * n
    ensures IsPow2(m)
  {
    assert m / 2 == n;
  }

  /** The time since which a stage up has been wanted is the time of a tick from which on all did. */
  ghost predicate SinceOk(wishes: seq<Wish>, sinceMs: nat, divMax: nat) {
    divMax > 1 && sinceMs > 0 ==>
      exists i :: 0 <= i < |wishes| && wishes[i].now == sinceMs && AllWantUp(wishes, i)
  }

  predicate GainOk(c: Config, k: real) {
    c.kMin / StageMax(c) as real <= k <= c.kMax
  }

  predicate RatesOk(rates: seq<Rate>, c: Config) {
    forall i :: 0 <= i < |rates| ==> RateOk(rates[i], c)
  }

  predicate PlansOk(plans: seq<Plan>, c: Config) {
    forall i :: 0 <= i < |plans| ==> PlanOk(plans[i], c)
  }

  lemma OneMorePlan(plans: seq<Plan>, p: Plan, c: Config)
    requires PlansOk(plans, c) && PlanOk(p, c)
    ensures PlansOk(plans + [p], c)
  {
    hide PlanOk;
  }

  lemma OneMoreRate(rates: seq<Rate>, r: Rate, c: Config)
    requires RatesOk(rates, c) && RateOk(r, c)
    ensures RatesOk(rates + [r], c) && r.kbps <= c.maxKbps
  {
  }

  class Controller {
    const cfg: Config
    const waybeam: Server
    var cap: nat
    var kI: real
    var k: real
    var applied: nat
    var floorKbps: nat
    var lastApplyMs: nat
    var lastDisturbMs: nat
    var lastSevereMs: nat
    var lastBacklogMs: nat
    var lastTickMs: nat
    var divMax: nat
    var div: int
    var divUpSinceMs: nat
    var divTryMs: nat

    ghost var wishes: seq<Wish>
    ghost var rates: seq<Rate>
    ghost var plans: seq<Plan>

    ghost predicate TimesOk(now: nat)
      reads this
    {
      && lastApplyMs <= now && lastDisturbMs <= now && lastSevereMs <= now && lastBacklogMs <= now
      && divUpSinceMs <= now && divTryMs <= now
    }

    /** The floor is no lower than configured, and no higher than that and waybeam's own. */
    ghost predicate FloorOk()
      reads this
    {
      cfg.minKbps <= floorKbps && (floorKbps <= cfg.minKbps || floorKbps <= waybeam.floorKbps)
    }

    ghost predicate StageOk()
      reads this
    {
      && 1 <= divMax <= StageMax(cfg)
      && (div == -1 || (1 <= div <= StageMax(cfg) && IsPow2(div)))
    }

    ghost predicate Valid()
      reads this, waybeam
    {
      && Sensible(cfg) && waybeam.Valid() && TimesOk(lastTickMs)
      && FloorOk() && StageOk() && applied <= cfg.maxKbps
      && SinceOk(wishes, divUpSinceMs, divMax) && (cap == 0 || div == -1 ==> divUpSinceMs == 0)
      && (wishes != [] ==> GainOk(cfg, kI) && GainOk(cfg, k))
      && RatesOk(rates, cfg) && PlansOk(plans, cfg)
    }

    /** waybeam divides the frame rate by no less than it was last told to. */
    ghost predicate Synced()
      reads this, waybeam
    {
      div > 0 ==> div <= waybeam.div
    }

    /** waybeam runs at the rate that the controller takes it to run at. */
    ghost predicate Tracks()
      reads this, waybeam
    {
      applied > 0 ==> waybeam.rateKbps == applied
    }

    ghost function Now(): View
      reads this, waybeam
    {
      View(applied, floorKbps, div, divMax, divTryMs, divUpSinceMs, lastDisturbMs, lastBacklogMs, kI, k,
           waybeam.answers, waybeam.rateKbps, waybeam.div)
    }

    function CurDiv(): (d: nat)
      reads this
      requires div == -1 || div >= 1
      ensures d >= 1
    {
      Cur(div)
    }

    constructor (cfg: Config, waybeam: Server, now: nat)
      requires Sensible(cfg) && waybeam.Valid()
      ensures Valid() && Synced() && this.cfg == cfg && this.waybeam == waybeam
      ensures rates == [] && wishes == [] && plans == [] && lastTickMs == now && Tracks()
      ensures kI == k == 1.0 && applied == 0 && floorKbps == cfg.minKbps && divTryMs == 0
      ensures divMax == (if cfg.fpsDivMax > 1 then cfg.fpsDivMax else 1) && (div == -1 <==> cfg.fpsDivMax > 1)
      ensures divUpSinceMs == 0 && lastDisturbMs == 0 && lastBacklogMs == 0
      ensures cap == 0 && lastApplyMs == 0 && lastSevereMs == 0
      ensures div == if StageMax(cfg) > 1 then -1 else 1
    {
      this.cfg, this.waybeam := cfg, waybeam;
      cap, kI, k, applied, floorKbps := 0, 1.0, 1.0, 0, cfg.minKbps;
      lastApplyMs, lastDisturbMs, lastSevereMs, lastBacklogMs, lastTickMs := 0, 0, 0, 0, now;
      divMax := StageMax(cfg);
      div := if StageMax(cfg) > 1 then -1 else 1;
      divUpSinceMs, divTryMs := 0, 0;
      wishes, rates, plans := [], [], [];
    }

    /** waybeam was started anew: everything is sent again. */
    method Forget()
      requires Valid() && waybeam.div == 1
      modifies this`applied, this`divMax, this`div, this`divUpSinceMs
      ensures Valid() && Synced()
      ensures applied == 0 && divMax == (if cfg.fpsDivMax > 1 then cfg.fpsDivMax else 1)
      ensures div == 1 && divUpSinceMs == 0
    {
      hide RatesOk, PlansOk, SinceOk, GainOk;
      SinceReset(wishes, divMax);
      SinceReset(wishes, StageMax(cfg));
      applied, divMax, div, divUpSinceMs := 0, StageMax(cfg), 1, 0;
    }

    /**
     At start waybeam may be at any divisor: it is told the full frame rate, and the floor as
     its rate, until it agrees. The rate taken to be applied is left as it is: exactly when one
     other than the floor has been accepted before, waybeam is no longer at it.
     */
    method Probe(now: nat) returns (ok: bool)
      requires Valid() && Synced() && lastTickMs == now
      modifies this`divTryMs, this`divMax, this`div, waybeam`answers, waybeam`rateKbps, waybeam`div, waybeam`asked
      ensures Valid() && Synced()
      ensures waybeam.asked == old(waybeam.asked) || waybeam.asked == old(waybeam.asked) + [ForStage(1, floorKbps)]
      ensures ProbeStep(old(Now()), Now(), now, ok, waybeam.floorKbps)
      ensures divMax == if old(div) < 0 && div == 1 && !ok then 1 else old(divMax)
      ensures old(div) == -1 ==> div == -1 || div == 1
      ensures old(div) > 0 ==> div == old(div) && !ok
      ensures old(Tracks()) ==> (Tracks() <==> !(ok && applied > 0 && floorKbps > 0 && applied != floorKbps))
    {
      hide RatesOk, PlansOk, SinceOk, GainOk, FullRate;
      SinceReset(wishes, divMax);
      ok := false;
      if div < 0 && now - divTryMs >= RETRY_MS {
        divTryMs := now;
        var status := waybeam.SetDivisor(1, floorKbps);
        ok := IsOk(status);
        if status == 404 || status == 501 {
          divMax, div := 1, 1;
        } else if IsOk(status) {
          div := 1;
        }
      }
    }

    /** Signs of a disturbance lower the integrator at once. */
    method Disturb(tk: Input) returns (why: bool)
      requires TimesOk(tk.now)
      modifies this`kI, this`lastDisturbMs, this`lastSevereMs, this`lastBacklogMs
      ensures TimesOk(tk.now)
      ensures kI == old(Disturbed(cfg, kI, k, tk.severe, Trims(Now(), tk), Cuts(Now(), tk)))
      ensures lastDisturbMs == old(DisturbedAt(Now(), tk))
      ensures lastSevereMs == if tk.severe then tk.now else old(lastSevereMs)
      ensures lastBacklogMs == if old(Cuts(Now(), tk)) then tk.now else old(lastBacklogMs)
      ensures why <==> (tk.severe && old(kI) > cfg.severeK) || old(Trims(Now(), tk)) || old(Cuts(Now(), tk))
    {
      hide ShareOf;
      why := false;
      if tk.severe {
        if kI > cfg.severeK {
          kI := cfg.severeK;
          why := true;
        }
        lastSevereMs, lastDisturbMs := tk.now, tk.now;
      } else if tk.mild && tk.now - lastDisturbMs >= DISTURB_HOLD_MS {
        kI := ShareOf(kI, cfg.mildTrim);
        lastDisturbMs := tk.now;
        why := true;
      }
      if tk.backlog && tk.now - lastBacklogMs >= CUT_HOLDOFF_MS {
        kI := ShareOf(if k < kI then k else kI, cfg.ringBackoff);
        lastBacklogMs := tk.now;
        why := true;
      }
    }

    lemma HeldIs(base: real)
      requires StageOk() && base == cap as real * cfg.margin
      ensures HeldUp(cfg, Now(), cap) <==> applied > 0 && applied as real < base * k * 0.9
      ensures AtFloor(Now()) <==> applied > 0 && applied <= floorKbps / CurDiv() && CurDiv() >= divMax
    {
      hide IsPow2;
    }

    /** PI on the delay. */
    method Integrate(tk: Input, dt: real, base: real)
      requires Sensible(cfg) && StageOk() && TimesOk(tk.now) && base == cap as real * cfg.margin
      modifies this`kI, this`k
      ensures GainOk(cfg, kI) && GainOk(cfg, k) && k >= 0.0
      ensures (kI, k) == old(GainOf(cfg, kI, cfg.delaySetMs - tk.delayMs, dt, AtFloor(Now()), HeldUp(cfg, Now(), cap),
                                    applied, Quiet(lastDisturbMs, tk.now), divMax))
    {
      hide IsPow2, Bounded, Product, GainOk, HeldUp, AtFloor;
      HeldIs(base);
      var e := cfg.delaySetMs - tk.delayMs;
      var kp := if e < 0.0 then cfg.kpDown else cfg.kpUp;
      var ki := if e < 0.0 then cfg.kiDown else cfg.kiUp;
      var atFloor := applied > 0 && applied <= floorKbps / CurDiv() && CurDiv() >= divMax;
      var heldUp := applied > 0 && applied as real < base * k * 0.9;
      if (e > 0.0 && !heldUp && applied < cfg.maxKbps) || (e < 0.0 && !atFloor) {
        kI := kI + Product(ki, e, dt);
      }
      if cfg.recoverPerS > 0.0 && e > 0.0 && !heldUp && kI < 1.0
         && (lastDisturbMs == 0 || tk.now - lastDisturbMs >= 1000) {
        kI := kI + Product(cfg.recoverPerS, 1.0, dt);
      }
      BoundedFits(cfg, kI, divMax);
      kI := Bounded(cfg, kI, divMax);
      BoundedFits(cfg, kI + Product(kp, e, 1.0), divMax);
      k := Bounded(cfg, kI + Product(kp, e, 1.0), divMax);
    }

    /** The frame-rate stage that the target asks for. */
    method ChooseStage(now: nat, target: real) returns (want: nat)
      requires StageOk() && SinceOk(wishes, divUpSinceMs, divMax) && TimesOk(now)
      requires div == -1 ==> divUpSinceMs == 0
      modifies this`divUpSinceMs, this`wishes
      ensures SinceOk(wishes, divUpSinceMs, divMax) && TimesOk(now) && (div == -1 ==> divUpSinceMs == 0)
      ensures wishes == old(wishes) + [Wish(now, target, floorKbps, CurDiv())]
      ensures (want, divUpSinceMs) == old(NextStage(cfg, Now(), now, target))
      ensures want == CurDiv() || (div > 0 && want == 2 * div && want <= StageMax(cfg) && IsPow2(want))
              || (div > 0 && div == 2 * want && IsPow2(want) && HeldLongEnough(wishes, cfg.fpsRecoveryMs, now))
      ensures want < CurDiv() ==> target >= Quotient(floorKbps, want) * FPS_RESTORE
      ensures want > CurDiv() ==> target < Quotient(floorKbps, CurDiv())
    {
      hide Quotient;
      var curDiv := CurDiv();
      ghost var w := Wish(now, target, floorKbps, curDiv);
      want := curDiv;
      OneMoreWish(wishes, w);
      if div > 0 && divMax > 1 {
        if target < Quotient(floorKbps, curDiv) && curDiv * 2 <= divMax {
          want := curDiv * 2;
          StageDown(curDiv, want);
          divUpSinceMs := 0;
        } else if curDiv > 1 && target >= Quotient(floorKbps, curDiv / 2) * FPS_RESTORE {
          assert WantsUp(w);
          ghost var i := |wishes|;
          if divUpSinceMs == 0 {
            divUpSinceMs := now;
          } else {
            i :| 0 <= i < |wishes| && wishes[i].now == divUpSinceMs && AllWantUp(wishes, i);
          }
          assert AllWantUp(wishes + [w], i);
          if now - divUpSinceMs >= cfg.fpsRecoveryMs {
            StageUp(curDiv);
            want := curDiv / 2;
            HeldFrom(wishes + [w], cfg.fpsRecoveryMs, now, i, divUpSinceMs);
          }
        } else {
          divUpSinceMs := 0;
        }
      }
      wishes := wishes + [w];
    }

    /** This is what a turn worked out, the floor and the rate being as they are. */
    ghost predicate Planned(plan: Plan, want: nat, t: nat)
      reads this
    {
      plan.t == t && plan.div == want && plan.floorKbps == floorKbps && plan.prior == applied && PlanOk(plan, cfg)
    }

    lemma PlanIsRate(plan: Plan)
      requires Valid() && Planned(plan, plan.div, plan.t)
      ensures RateOk(Rate(plan.t, plan), cfg)
    {
      hide IsRate;
    }

    /** The rate worked out is a plan, with the gain within its bounds. */
    lemma PlanIsOk(plan: Plan)
      requires Sensible(cfg) && plan.div > 0 && plan.dt >= 0.0 && plan.k >= 0.0 && GainOk(cfg, plan.k)
      requires plan.t as int
               == Limited(cfg, TargetOf(cfg, plan.cap, plan.k), plan.prior, plan.dt, plan.floorKbps, plan.div).Floor
      ensures PlanOk(plan, cfg)
    {
      hide Limited, TargetOf, PlanOk;
      LimitedIsOk(plan, cfg);
    }

    /** A new stage goes out together with its rate. */
    method SendStage(now: nat, want: nat, t: nat, ghost plan: Plan)
      requires Valid() && Synced() && lastTickMs == now && div > 0 && want >= 1
      requires want <= StageMax(cfg) && IsPow2(want)
      requires Planned(plan, want, t)
      modifies this`divMax, this`floorKbps, this`div, this`divUpSinceMs, this`applied, this`lastApplyMs, this`rates,
               waybeam`answers, waybeam`rateKbps, waybeam`div, waybeam`asked
      ensures waybeam.asked == old(waybeam.asked) + [ForStage(want, t)]
      ensures Valid() && Synced() && old(floorKbps) <= floorKbps && (div == old(div) || div == want)
      ensures NotedRate(old(rates), rates, applied, plan)
      ensures lastApplyMs == if rates == old(rates) then old(lastApplyMs) else now
      ensures if rates == old(rates) then waybeam.rateKbps == old(waybeam.rateKbps) && div == old(div)
              else applied == t && waybeam.div == want == div && (t > 0 ==> waybeam.rateKbps == t)
      ensures StageStep(old(Now()), Now(), plan, waybeam.floorKbps)
    {
      hide RatesOk, RateOk, PlansOk, PlanOk, SinceOk, GainOk, IsPow2, FullRate, Valid;
      StageNow();
      var status := AskStage(want, t);
      if status == 404 || status == 501 {
        NoStages();
      } else if IsOk(status) {
        AtStage(now, want, t, plan);
      } else {
        Learn(status, t, want);
      }
    }

    lemma StageNow()
      requires Valid()
      ensures Sensible(cfg) && waybeam.Valid() && TimesOk(lastTickMs) && StageOk() && RatesOk(rates, cfg)
    {
    }

    /** send_fps_div() for a new stage: what waybeam is at changes, and nothing of the controller. */
    method AskStage(want: nat, t: nat) returns (status: int)
      requires Valid() && want >= 1
      modifies waybeam`answers, waybeam`rateKbps, waybeam`div, waybeam`asked
      ensures Valid() && waybeam.asked == old(waybeam.asked) + [ForStage(want, t)]
      ensures waybeam.answers == Tail(old(waybeam.answers))
      ensures status == Reply(old(waybeam.answers), t != 0 && FullRate(t, want) < waybeam.floorKbps)
      ensures waybeam.div == if IsOk(status) then want else old(waybeam.div)
      ensures waybeam.rateKbps == if IsOk(status) && t != 0 then t else old(waybeam.rateKbps)
    {
      hide RatesOk, PlansOk, SinceOk, GainOk, IsPow2, FullRate;
      status := waybeam.SetDivisor(want, t);
    }

    /** waybeam has no stages. */
    method NoStages()
      requires Valid()
      modifies this`divMax
      ensures Valid() && divMax == 1
    {
      hide RatesOk, PlansOk, SinceOk, GainOk, IsPow2;
      SinceReset(wishes, divMax);
      divMax := 1;
    }

    /** What a request at a stage that was not taken teaches. */
    method Learn(status: int, t: nat, want: nat)
      requires Valid() && want >= 1 && (status == REFUSED ==> FullRate(t, want) < waybeam.floorKbps)
      modifies this`floorKbps
      ensures Valid() && old(floorKbps) <= floorKbps
      ensures floorKbps == LearnFloor(old(floorKbps), status, FullRate(t, want))
    {
      hide RatesOk, PlansOk, SinceOk, GainOk, IsPow2, FullRate;
      if status == REFUSED {
        LearnedIsSound(floorKbps, t, want, waybeam.floorKbps, want);
      }
      floorKbps := LearnFloor(floorKbps, status, FullRate(t, want));
    }

    /** waybeam has taken the stage and its rate. */
    method AtStage(now: nat, want: nat, t: nat, ghost plan: Plan)
      requires Valid() && lastTickMs == now && 1 <= want <= StageMax(cfg) && IsPow2(want) && Planned(plan, want, t)
      modifies this`div, this`divUpSinceMs, this`applied, this`lastApplyMs, this`rates
      ensures Valid() && rates == old(rates) + [Rate(t, plan)]
      ensures div == want && divUpSinceMs == 0 && applied == t && lastApplyMs == now
    {
      hide RatesOk, RateOk, PlansOk, PlanOk, SinceOk, GainOk, IsPow2;
      SinceReset(wishes, divMax);
      PlanIsRate(plan);
      OneMoreRate(rates, Rate(t, plan), cfg);
      rates := rates + [Rate(t, plan)];
      div, divUpSinceMs, applied, lastApplyMs := want, 0, t, now;
    }

    /** The change is too small to be sent. */
    predicate TooSmall(now: nat, t: nat, why: bool)
      reads this
      requires lastApplyMs <= now
    {
      applied > 0 &&
      (var rel := (t as real - applied as real) / applied as real;
       var due := now - lastApplyMs >= 1000;
       (if rel > 0.0 then rel < MIN_UP_STEP && !due else -rel < MIN_DOWN_STEP && !why) || t == applied)
    }

    /**
     With a rate applied, a rise of less than 5 % waits until a second has gone by since the last
     change, a cut of less than 3 % for a disturbance, and no change is never sent.
     */
    lemma TooSmallIff(now: nat, t: nat, why: bool)
      requires lastApplyMs <= now
      ensures TooSmall(now, t, why) <==>
              && applied > 0
              && (t == applied
                  || (t > applied && 100 * (t - applied) < 5 * applied && now - lastApplyMs < 1000)
                  || (t < applied && 100 * (applied - t) < 3 * applied && !why))
    {
      if applied > 0 {
        var x, a := t as real - applied as real, applied as real;
        Ratio(x, a, MIN_UP_STEP);
        Ratio(-x, a, MIN_DOWN_STEP);
        Ratio(x, a, 0.0);
        assert -(x / a) == -x / a;
      }
    }

    lemma Ratio(x: real, a: real, f: real)
      requires a > 0.0
      ensures x / a < f <==> x < f * a
      ensures x / a > f <==> x > f * a
    {
      var q := x / a;
      assert q * a == x;
      if q < f {
        assert (f - q) * a > 0.0;
      } else if q > f {
        assert (q - f) * a > 0.0;
      }
    }

    /** The request for a rate: a cut looks for waybeam's floor, a rise is asked for once. */
    method Ask(t: nat) returns (ok: bool, kbps: nat)
      requires waybeam.Valid() && FloorOk() && Synced() && (div == -1 || div >= 1)
      modifies this`floorKbps, waybeam`answers, waybeam`rateKbps, waybeam`asked
      ensures waybeam.Valid() && FloorOk() && old(floorKbps) <= floorKbps
      ensures waybeam.rateKbps == if ok then kbps else old(waybeam.rateKbps)
      ensures ok ==> kbps == t || t <= kbps < applied
      ensures old(waybeam.asked) <= waybeam.asked && AskedRates(waybeam.asked[|old(waybeam.asked)|..], t, applied)
      ensures t >= applied ==>
                && floorKbps == old(floorKbps) && waybeam.answers == Tail(old(waybeam.answers))
                && (ok <==> IsOk(Reply(old(waybeam.answers), FullRate(t, waybeam.div) < waybeam.floorKbps)))
    {
      hide FullRate, IsCut;
      var status;
      kbps := t;
      if applied > 0 && t < applied {
        ghost var tried;
        status, kbps, floorKbps, tried := ApplyCut(waybeam, t, applied, floorKbps, CurDiv());
        TriedRates(tried, t, applied, floorKbps, CurDiv());
        assert waybeam.asked[|old(waybeam.asked)|..] == RateRequests(tried);
      } else {
        status := waybeam.SetRate(t);
      }
      ok := IsOk(status);
    }

    /** A rate for the stage in force. */
    method SendRate(now: nat, t: nat, why: bool, ghost plan: Plan)
      requires Valid() && Synced() && lastTickMs == now && plan.dt >= 0.0
      requires Planned(plan, CurDiv(), t)
      modifies this`floorKbps, this`applied, this`lastApplyMs, this`rates,
               waybeam`answers, waybeam`rateKbps, waybeam`asked
      ensures Valid() && Synced() && old(floorKbps) <= floorKbps
      ensures NotedRate(old(rates), rates, applied, plan)
      ensures lastApplyMs == if rates == old(rates) then old(lastApplyMs) else now
      ensures waybeam.rateKbps == if rates == old(rates) then old(waybeam.rateKbps) else applied
      ensures if old(TooSmall(now, t, why)) then waybeam.asked == old(waybeam.asked)
              else old(waybeam.asked) <= waybeam.asked
                   && AskedRates(waybeam.asked[|old(waybeam.asked)|..], t, old(applied))
      ensures old(TooSmall(now, t, why)) ==>
                rates == old(rates) && waybeam.answers == old(waybeam.answers) && floorKbps == old(floorKbps)
      ensures old(applied) == 0 ==> waybeam.answers == Tail(old(waybeam.answers)) && floorKbps == old(floorKbps)
      ensures old(applied) == 0 ==>
                var ok := IsOk(Reply(old(waybeam.answers), FullRate(t, waybeam.div) < waybeam.floorKbps));
                applied == (if ok then t else 0) && waybeam.rateKbps == if ok then t else old(waybeam.rateKbps)
    {
      hide RatesOk, RateOk, PlansOk, PlanOk, SinceOk, GainOk, IsPow2, FullRate, Reply, AskedRates;
      if TooSmall(now, t, why) {
        return;
      }
      var ok, kbps := Ask(t);
      if ok {
        CutIsOk(plan, kbps, cfg);
        OneMoreRate(rates, Rate(kbps, plan), cfg);
        rates := rates + [Rate(kbps, plan)];
        applied, lastApplyMs := kbps, now;
      }
    }

    /** The gain of a turn. */
    method Gain(tk: Input, dt: real) returns (why: bool)
      requires Sensible(cfg) && StageOk() && TimesOk(tk.now)
      modifies this`kI, this`k, this`lastDisturbMs, this`lastSevereMs, this`lastBacklogMs
      ensures TimesOk(tk.now) && GainOk(cfg, kI) && GainOk(cfg, k) && k >= 0.0
      ensures (kI, k) == old(NextGain(cfg, Now(), tk, cap, dt))
      ensures lastDisturbMs == old(DisturbedAt(Now(), tk))
      ensures lastBacklogMs == if old(Cuts(Now(), tk)) then tk.now else old(lastBacklogMs)
    {
      hide GainOf, Disturbed, IsPow2, Trims, Cuts, GainOk;
      why := Disturb(tk);
      Integrate(tk, dt, cap as real * cfg.margin);
    }

    /** The gain, the stage and the rate of a turn. */
    method WorkOut(tk: Input, dt: real) returns (want: nat, t: nat, why: bool, ghost plan: Plan)
      requires Valid() && Synced() && lastTickMs == tk.now && cap > 0 && dt >= 0.0
      modifies this`kI, this`k, this`lastDisturbMs, this`lastSevereMs, this`lastBacklogMs, this`divUpSinceMs,
               this`wishes, this`plans
      ensures Valid() && Synced() && plans == old(plans) + [plan]
      ensures 1 <= want <= StageMax(cfg) && IsPow2(want) && (div < 0 ==> want == 1)
      ensures want == CurDiv() || want == 2 * div
              || (div == 2 * want && HeldLongEnough(wishes, cfg.fpsRecoveryMs, tk.now))
      ensures Planned(plan, want, t) && plan.cap == cap && plan.k == k && plan.dt == dt
      ensures (kI, k) == old(NextGain(cfg, Now(), tk, cap, dt))
      ensures (want, divUpSinceMs) == NextStage(cfg, old(Now()), tk.now, TargetOf(cfg, cap, k))
      ensures lastDisturbMs == DisturbedAt(old(Now()), tk)
      ensures lastBacklogMs == if Cuts(old(Now()), tk) then tk.now else old(lastBacklogMs)
    {
      hide RatesOk, RateOk, PlansOk, PlanOk, SinceOk, GainOk, HeldLongEnough, AllWantUp;
      hide NextGain, TargetOf, IsPow2, NextStage, Trims, Cuts, Quotient;
      OneIsPow2();
      ghost var v := Now();
      why := Gain(tk, dt);
      var target := TargetOf(cfg, cap, k);
      StageAlike(cfg, v, Now(), tk.now, target);
      want := ChooseStage(tk.now, target);
      t, plan := RateFor(target, want, dt);
      OneMorePlan(plans, plan, cfg);
      plans := plans + [plan];
    }

    /** The rate for the target, at the stage that goes with it. */
    method RateFor(target: real, want: nat, dt: real) returns (t: nat, ghost plan: Plan)
      requires Sensible(cfg) && want > 0 && dt >= 0.0 && k >= 0.0 && GainOk(cfg, k)
      requires target == TargetOf(cfg, cap, k)
      ensures Planned(plan, want, t) && plan.cap == cap && plan.k == k && plan.dt == dt
      ensures PlanOk(Plan(t, cap, k, floorKbps, want, applied, dt), cfg)
    {
      hide Limited, TargetOf, PlanOk;
      LimitedIsNat(cfg, target, applied, dt, floorKbps, want);
      t := Limited(cfg, target, applied, dt, floorKbps, want).Floor;
      plan := Plan(t, cap, k, floorKbps, want, applied, dt);
      PlanIsOk(plan);
    }

    /** The request of a turn, if there is one. */
    method Send(now: nat, want: nat, t: nat, why: bool, ghost plan: Plan)
      requires Valid() && Synced() && lastTickMs == now && plan.dt >= 0.0
      requires 1 <= want <= StageMax(cfg) && IsPow2(want) && (div < 0 ==> want == 1)
      requires Planned(plan, want, t)
      modifies this`divMax, this`floorKbps, this`div, this`divUpSinceMs, this`applied, this`lastApplyMs, this`rates,
               waybeam`answers, waybeam`rateKbps, waybeam`div, waybeam`asked
      ensures Valid() && Synced() && (old(Tracks()) ==> Tracks())
      ensures old(floorKbps) <= floorKbps && (div == old(div) || div == want)
      ensures want == old(CurDiv()) ==>
                div == old(div) && divMax == old(divMax) && divUpSinceMs == old(divUpSinceMs)
      ensures NotedRate(old(rates), rates, applied, plan)
      ensures old(waybeam.asked) <= waybeam.asked
      ensures AskedFor(waybeam.asked[|old(waybeam.asked)|..], plan, old(CurDiv()))
      ensures want != old(CurDiv()) ==> StageStep(old(Now()), Now(), plan, waybeam.floorKbps)
      ensures want == old(CurDiv()) && t == old(applied) > 0 ==>
                && applied == old(applied) && floorKbps == old(floorKbps) && waybeam.answers == old(waybeam.answers)
                && waybeam.rateKbps == old(waybeam.rateKbps) && waybeam.div == old(waybeam.div) && div == old(div)
      ensures want == old(CurDiv()) && old(applied) == 0 ==>
                && waybeam.answers == Tail(old(waybeam.answers)) && floorKbps == old(floorKbps)
                && waybeam.div == old(waybeam.div) && div == old(div)
                && var ok := IsOk(Reply(old(waybeam.answers), FullRate(t, waybeam.div) < waybeam.floorKbps));
                   applied == (if ok then t else 0) && waybeam.rateKbps == if ok then t else old(waybeam.rateKbps)
    {
      hide RatesOk, RateOk, PlansOk, PlanOk, SinceOk, GainOk, IsPow2, FullRate, StageStep;
      if want != CurDiv() {
        SendStage(now, want, t, plan);
      } else {
        if t == applied && applied > 0 {
          SameIsTooSmall(now, t, why);
        }
        SendRate(now, t, why, plan);
      }
    }

    /** The part of a turn behind the capacity, and what it works out. */
    method Control(tk: Input, dt: real) returns (ghost plan: Plan)
      requires Valid() && Synced() && lastTickMs == tk.now && cap > 0 && dt >= 0.0
      modifies this, waybeam
      ensures Valid() && Synced() && lastTickMs == tk.now && (old(Tracks()) ==> Tracks())
      ensures old(floorKbps) <= floorKbps && cap == old(cap)
      ensures NotedRate(old(rates), rates, applied, plan) && plans == old(plans) + [plan]
      ensures old(waybeam.asked) <= waybeam.asked
      ensures AskedFor(waybeam.asked[|old(waybeam.asked)|..], plan, Cur(old(div)))
      ensures div == old(div) || (old(div) > 0 && div == 2 * old(div))
              || (old(div) == 2 * div && HeldLongEnough(wishes, cfg.fpsRecoveryMs, tk.now))
      ensures ControlStep(cfg, old(Now()), Now(), cap, dt, plan, tk, waybeam.floorKbps)
    {
      hide RatesOk, RateOk, PlansOk, PlanOk, SinceOk, GainOk, IsPow2, HeldLongEnough, NotedRate, FullRate, AskedFor;
      hide NextGain, NextStage, TargetOf, Trims, Cuts;
      var want, t, why;
      want, t, why, plan := WorkOut(tk, dt);
      Send(tk.now, want, t, why, plan);
    }

    lemma SameIsTooSmall(now: nat, t: nat, why: bool)
      requires lastApplyMs <= now && applied > 0 && t == applied
      ensures TooSmall(now, t, why)
    {
    }

    /** The part of a turn up to the capacity: a restart, a probe, the capacity if it was polled. */
    method Begin(tk: Input) returns (ok: bool)
      requires Valid() && lastTickMs <= tk.now
      requires if tk.restarted then waybeam.div == 1 else Synced()
      modifies this`lastTickMs, this`applied, this`divMax, this`div, this`divUpSinceMs, this`divTryMs, this`cap,
               waybeam`answers, waybeam`rateKbps, waybeam`div, waybeam`asked
      ensures waybeam.asked == old(waybeam.asked) || waybeam.asked == old(waybeam.asked) + [ForStage(1, floorKbps)]
      ensures Valid() && Synced() && lastTickMs == tk.now
      ensures tk.restarted ==> applied == 0 && div == 1 && !ok
      ensures !tk.restarted ==> applied == old(applied) && ProbeStep(old(Now()), Now(), tk.now, ok, waybeam.floorKbps)
      ensures !tk.restarted && old(div) == -1 ==> div == -1 || div == 1
      ensures !tk.restarted && old(div) > 0 ==> div == old(div) && !ok
      ensures old(Tracks()) && !(ok && old(applied) > 0 && floorKbps > 0 && old(applied) != floorKbps) ==> Tracks()
      ensures tk.restarted ==> Tracks()
      ensures cap == if tk.capacity > 0 then tk.capacity else old(cap)
    {
      hide RatesOk, PlansOk, SinceOk, GainOk, IsPow2, ProbeStep, Valid;
      Advance(tk.now);
      if tk.restarted {
        Forget();
      }
      ok := Probe(tk.now);
      if tk.capacity > 0 {
        TakeCapacity(tk.capacity);
      }
      DivKnown();
    }

    method Advance(now: nat)
      requires Valid() && lastTickMs <= now
      modifies this`lastTickMs
      ensures Valid() && lastTickMs == now
    {
      hide RatesOk, PlansOk, SinceOk, GainOk, IsPow2;
      lastTickMs := now;
    }

    method TakeCapacity(capacity: nat)
      requires Valid() && capacity > 0
      modifies this`cap
      ensures Valid() && cap == capacity
    {
      hide RatesOk, PlansOk, SinceOk, GainOk, IsPow2;
      cap := capacity;
    }

    /**
     One turn of the loop of run_pi(). ok says that a probe was answered well, mid how things are
     behind it, and probes what it asked for; plan is what was worked out, if it came to that.
     */
    method Tick(tk: Input) returns (ghost ok: bool, ghost mid: View, ghost plan: Plan, ghost probes: seq<Request>)
      requires Valid() && lastTickMs <= tk.now
      requires if tk.restarted then waybeam.div == 1 else Synced()
      modifies this, waybeam
      ensures Valid() && Synced() && lastTickMs == tk.now
      ensures old(floorKbps) <= floorKbps && old(rates) <= rates && |rates| <= |old(rates)| + 1
      ensures !tk.restarted && old(div) > 0 ==>
                div == old(div) || div == 2 * old(div)
                || (old(div) == 2 * div && HeldLongEnough(wishes, cfg.fpsRecoveryMs, tk.now))
      ensures tk.restarted ==> div == 1 || div == 2
      ensures !tk.restarted && old(div) == -1 ==> div == -1 || div == 1 || div == 2
      ensures old(Tracks()) && !(ok && old(applied) > 0 && old(floorKbps) > 0 && old(applied) != old(floorKbps)) ==>
                Tracks()
      ensures tk.restarted ==> Tracks()
      ensures !tk.restarted ==> ProbeStep(old(Now()), mid, tk.now, ok, waybeam.floorKbps)
      ensures cap == if tk.capacity > 0 then tk.capacity else old(cap)
      ensures cap > 0 ==>
                ControlStep(cfg, mid, Now(), cap, (tk.now - old(lastTickMs)) as real / 1000.0, plan, tk,
                            waybeam.floorKbps)
      ensures plans == if cap > 0 then old(plans) + [plan] else old(plans)
      ensures probes == [] || probes == [ForStage(1, old(floorKbps))]
      ensures old(waybeam.asked) + probes <= waybeam.asked
      ensures var reqs := waybeam.asked[|old(waybeam.asked) + probes|..];
              if cap > 0 then AskedFor(reqs, plan, Cur(mid.div)) else reqs == []
    {
      hide RatesOk, RateOk, SinceOk, GainOk, IsPow2, HeldLongEnough, NotedRate, ProbeStep, ControlStep, Valid, Synced;
      hide AskedFor, PlanOk, PlansOk;
      plan := Plan(0, 0, 0.0, 0, 0, 0, 0.0);
      ghost var asked := waybeam.asked;
      var dt := (tk.now - lastTickMs) as real / 1000.0;
      ghost var before := rates;
      ok := Begin(tk);
      probes := waybeam.asked[|asked|..];
      assert waybeam.asked == asked + probes;
      mid := Now();
      if cap == 0 {
        return;
      }
      DivKnown();
      plan := Control(tk, dt);
      NotedOne(before, rates, applied, plan);
    }

    lemma DivKnown()
      requires Valid()
      ensures div == -1 || div >= 1
    {
    }
  }

  predicate Ascending(inputs: seq<Input>, start: nat) {
    && (forall i :: 0 <= i < |inputs| ==> start <= inputs[i].now)
    && (forall i, j :: 0 <= i < j < |inputs| ==> inputs[i].now <= inputs[j].now)
  }

  /**
   run_pi() from start to stop. Whatever the link and waybeam do: every request is for what some
   turn worked out, or in a cut for a rate between that and the one before, or puts waybeam at the
   floor. What is worked out is the capacity less the margin times the gain within its limits;
   every rate accepted is no lower than the floor known then and no higher than the maximum, rises
   no faster than the slew limit unless onto the floor, and the floor learned is not above
   waybeam's own.
   */
  method RunPi(cfg: Config, waybeam: Server, configuredKbps: nat, start: nat, inputs: seq<Input>)
    returns (pi: Controller)
    requires Sensible(cfg) && waybeam.Valid() && Ascending(inputs, start)
    modifies waybeam
    ensures fresh(pi) && pi.cfg == cfg && pi.waybeam == waybeam
    ensures pi.Valid() && RatesOk(pi.rates, cfg) && PlansOk(pi.plans, cfg)
    ensures cfg.minKbps <= pi.floorKbps && (pi.floorKbps <= cfg.minKbps || pi.floorKbps <= waybeam.floorKbps)
    ensures old(waybeam.asked) <= waybeam.asked
    ensures AllExplained(waybeam.asked[|old(waybeam.asked)|..], pi.plans, cfg.minKbps, pi.floorKbps)
  {
    hide RatesOk, PlansOk, SinceOk, GainOk, ControlStep, ProbeStep, AskedFor, AllExplained;
    pi := new Controller(cfg, waybeam, start);
    ghost var before := waybeam.asked;
    NothingAsked(cfg.minKbps);
    assert waybeam.asked[|before|..] == [];
    for i := 0 to |inputs|
      invariant pi.Valid() && pi.Synced() && fresh(pi) && pi.cfg == cfg && pi.waybeam == waybeam
      invariant i < |inputs| ==> pi.lastTickMs <= inputs[i].now
      invariant before <= waybeam.asked
      invariant AllExplained(waybeam.asked[|before|..], pi.plans, cfg.minKbps, pi.floorKbps)
    {
      NextIsLater(inputs, start, i);
      if inputs[i].restarted {
        waybeam.Restart(configuredKbps);
      }
      ghost var asked, plans, floorKbps := waybeam.asked, pi.plans, pi.floorKbps;
      ghost var ok, mid, plan, probes := pi.Tick(inputs[i]);
      ghost var reqs := waybeam.asked[|asked + probes|..];
      assert waybeam.asked[|before|..] == asked[|before|..] + probes + reqs;
      TurnExplained(asked[|before|..], probes, reqs, plans, pi.plans, plan, mid.div, cfg.minKbps, floorKbps,
                    pi.floorKbps);
    }
  }

  /** A request for a rate or a stage that some turn worked out, or for the full frame rate at the floor. */
  predicate Explained(r: Request, plans: seq<Plan>, minKbps: nat, floorKbps: nat) {
    || (exists j :: 0 <= j < |plans| && ComesOf(r, plans[j]))
    || (r.ForStage? && r.div == 1 && minKbps <= r.kbps <= floorKbps)
  }

  predicate AllExplained(reqs: seq<Request>, plans: seq<Plan>, minKbps: nat, floorKbps: nat) {
    forall i :: 0 <= i < |reqs| ==> Explained(reqs[i], plans, minKbps, floorKbps)
  }

  lemma NothingAsked(minKbps: nat)
    ensures AllExplained([], [], minKbps, minKbps)
  {
  }

  lemma TurnExplained(asked: seq<Request>, probes: seq<Request>, reqs: seq<Request>, before: seq<Plan>,
                      after: seq<Plan>, plan: Plan, div: int, minKbps: nat, floor0: nat, floorKbps: nat)
    requires AllExplained(asked, before, minKbps, floor0) && minKbps <= floor0 <= floorKbps
    requires probes == [] || probes == [ForStage(1, floor0)]
    requires (after == before && reqs == []) || (after == before + [plan] && AskedFor(reqs, plan, Cur(div)))
    ensures AllExplained(asked + probes + reqs, after, minKbps, floorKbps)
  {
    hide ComesOf;
    assert forall j :: 0 <= j < |before| ==> after[j] == before[j];
    forall i | 0 <= i < |asked|
      ensures Explained(asked[i], after, minKbps, floorKbps)
    {
      if exists j :: 0 <= j < |before| && ComesOf(asked[i], before[j]) {
        var j :| 0 <= j < |before| && ComesOf(asked[i], before[j]);
        assert ComesOf(asked[i], after[j]);
      }
    }
    forall i | 0 <= i < |reqs|
      ensures Explained(reqs[i], after, minKbps, floorKbps)
    {
      ComesOfPlan(reqs, plan, div, i);
      assert ComesOf(reqs[i], after[|before|]);
    }
  }

  lemma ComesOfPlan(reqs: seq<Request>, plan: Plan, div: int, i: nat)
    requires AskedFor(reqs, plan, Cur(div)) && i < |reqs|
    ensures ComesOf(reqs[i], plan)
  {
  }

  lemma NextIsLater(inputs: seq<Input>, start: nat, i: nat)
    requires Ascending(inputs, start) && i < |inputs|
    ensures start <= inputs[i].now && (i + 1 < |inputs| ==> inputs[i].now <= inputs[i + 1].now)
  {
  }

  const EXAMPLE: Config :=
    Config(512, 8000, 0.8, 0.2, 1.1, 0.0, 0.0, 0.0, 0.0, 10.0, 0.0, 2.0, 0.3, 0.8, 0.5, 2, 1000)

  function ExampleInput(now: nat): Input { Input(now, false, 10.0, 5000, false, false, false) }

  lemma ExampleRate(plan: Plan)
    requires plan.cap == 5000 && plan.k == 1.0 && plan.floorKbps == 512 && plan.div == 1 && IsRate(plan, EXAMPLE)
    requires plan.dt >= 0.0 && (plan.prior == 0 || plan.prior == 4000)
    ensures plan.t == 4000
  {
    assert Quotient(512, 1) == 512.0;
    SignOf(EXAMPLE.slewUp, plan.prior as real, plan.dt);
    assert SlewLimit(plan, EXAMPLE) == plan.prior as real + EXAMPLE.slewUp * plan.prior as real * plan.dt;
  }

  /** The example as long as the delay is at its setpoint, and the full frame rate in force or taken to be. */
  function ExampleView(applied: nat, div: int, divTryMs: nat, answers: seq<int>, rateKbps: nat): View {
    View(applied, 512, div, 2, divTryMs, 0, 0, 0, 1.0, 1.0, answers, rateKbps, 1)
  }

  /** The gain stays at 1 then, and so does the stage. */
  lemma ExampleGain(v: View, now: nat, dt: real)
    requires v.kI == v.k == 1.0 && v.divMax == 2 && v.disturbMs == 0 && v.upSinceMs == 0 && v.div <= 1
    requires v.floorKbps == 512
    ensures NextGain(EXAMPLE, v, ExampleInput(now), 5000, dt) == (1.0, 1.0)
    ensures TargetOf(EXAMPLE, 5000, 1.0) == 4000.0 && NextStage(EXAMPLE, v, now, 4000.0) == (1, 0)
  {
    assert Quotient(512, 1) == 512.0;
    CalmGain(EXAMPLE, 1.0, dt, AtFloor(v), HeldUp(EXAMPLE, v, 5000), v.applied, true, 2);
  }

  /** How a turn of the example ends: at a first rate, behind a late probe, and from then on. */
  lemma ExampleTurn(was: View, mid: View, end: View, now: nat, ok: bool, dt: real, plan: Plan)
    requires ProbeStep(was, mid, now, ok, 500)
    requires ControlStep(EXAMPLE, mid, end, 5000, dt, plan, ExampleInput(now), 500)
    requires dt >= 0.0 && was == ExampleView(was.applied, was.div, was.divTryMs, was.answers, was.rateKbps)
    requires now >= was.divTryMs + RETRY_MS
    ensures was.applied == 0 && was.div == -1 && was.answers == [0, 200, 200] ==>
              end == ExampleView(4000, -1, now, [200], 4000)
    ensures was.applied == 4000 && was.div == -1 && was.answers == [200] ==>
              end == ExampleView(4000, 1, now, [], 512)
    ensures was.applied == 4000 && was.div == 1 ==> end == was
  {
    hide IsRate, NextGain, NextStage, TargetOf;
    if was.applied in {0, 4000} && mid.div <= 1 && mid.divMax == 2 {
      ExampleGain(mid, now, dt);
      ExampleRate(plan);
    }
    assert FullRate(512, 1) == 512 && FullRate(4000, 1) == 4000;
  }

  /**
   A probe that comes too late, at work. waybeam does not answer the first one; 4000 kbps is
   accepted; the second probe puts waybeam at 512 kbps. The controller takes the rate to be 4000
   still, that is what it wants, and so for however many turns it asks for nothing.
   */
  method StaleRate(turns: nat) returns (pi: Controller, waybeam: Server)
    ensures pi.Valid() && pi.waybeam == waybeam && pi.applied == 4000 && waybeam.rateKbps == 512
  {
    hide RatesOk, SinceOk, GainOk, IsPow2, HeldLongEnough, ProbeStep, ControlStep;
    ghost var ok, mid, plan, probes;
    waybeam := new Server(500, 1, 6000, [0, 200, 200]);
    pi := new Controller(EXAMPLE, waybeam, 0);
    ghost var was := pi.Now();
    ok, mid, plan, probes := pi.Tick(ExampleInput(1000));
    ExampleTurn(was, mid, pi.Now(), 1000, ok, 1.0, plan);
    was := pi.Now();
    ok, mid, plan, probes := pi.Tick(ExampleInput(2000));
    ExampleTurn(was, mid, pi.Now(), 2000, ok, 1.0, plan);
    for i := 0 to turns
      invariant pi.Valid() && pi.Synced() && pi.waybeam == waybeam && pi.cfg == EXAMPLE
      invariant pi.Now() == ExampleView(4000, 1, 2000, [], 512) && pi.lastTickMs == 2000 + 1000 * i
    {
      was := pi.Now();
      ok, mid, plan, probes := pi.Tick(ExampleInput(3000 + 1000 * i));
      ExampleTurn(was, mid, pi.Now(), 3000 + 1000 * i, ok, 1.0, plan);
    }
  }

  /**
   When the slew limit leaves every target as it is: when no rate is taken to be applied, or
   the limit or the floor is at the maximum anyway. So the first rate behind a probe is sent
   unslewed exactly if none was accepted before it.
   */
  lemma UnslewedIff(c: Config, applied: nat, dt: real, floorKbps: nat, div: nat)
    requires Sensible(c) && dt >= 0.0 && div > 0
    ensures (forall target ::
               Limited(c, target, applied, dt, floorKbps, div) == Limited(c, target, 0, dt, floorKbps, div))
            <==> applied == 0 || applied as real * (1.0 + c.slewUp * dt) >= c.maxKbps as real
                 || Quotient(floorKbps, div) >= c.maxKbps as real
  {
    hide Quotient;
    var up, max := applied as real * (1.0 + c.slewUp * dt), c.maxKbps as real;
    SignOf(c.slewUp, applied as real, dt);
    assert up == applied as real + c.slewUp * applied as real * dt;
    if applied > 0 && up < max && Quotient(floorKbps, div) < max {
      assert Limited(c, max, applied, dt, floorKbps, div) < max;
      assert Limited(c, max, 0, dt, floorKbps, div) == max;
    }
  }

  /** Nothing was accepted, or one rate, noted with what it was worked out from. */
  ghost predicate NotedRate(before: seq<Rate>, after: seq<Rate>, applied: nat, plan: Plan) {
    if after == before then applied == plan.prior else after == before + [Rate(applied, plan)]
  }

  lemma NotedOne(before: seq<Rate>, after: seq<Rate>, applied: nat, plan: Plan)
    requires NotedRate(before, after, applied, plan)
    ensures before <= after && |after| <= |before| + 1
  {
  }

  lemma SinceReset(wishes: seq<Wish>, divMax: nat)
    ensures SinceOk(wishes, 0, divMax) && forall since: nat :: SinceOk(wishes, since, 1)
  {
  }

  lemma GainFits(c: Config, k: real, divMax: nat)
    requires Sensible(c) && 1 <= divMax <= StageMax(c) && c.kMin / divMax as real <= k <= c.kMax
    ensures GainOk(c, k) && k >= 0.0
  {
    LowerBound(c.kMin, divMax, StageMax(c));
  }

  /** Requests for a rate: for t, and then, if at all, for more, but less than is applied. */
  predicate AskedRates(reqs: seq<Request>, t: nat, applied: nat) {
    && reqs != []
    && forall i :: 0 <= i < |reqs| ==>
         reqs[i].ForRate? && if i == 0 then reqs[i].kbps == t else t < reqs[i].kbps < applied
  }

  lemma TriedRates(tried: seq<nat>, want: nat, current: nat, floorKbps: nat, div: nat)
    requires IsCut(tried, want, current, floorKbps, div)
    ensures AskedRates(RateRequests(tried), want, current)
  {
    hide FullRate;
  }

  /** The stage asked for does not go by the gain but by the target. */
  lemma StageAlike(c: Config, v: View, w: View, now: nat, target: real)
    requires w == v.(kI := w.kI, k := w.k, disturbMs := w.disturbMs, backlogMs := w.backlogMs)
    ensures NextStage(c, v, now, target) == NextStage(c, w, now, target)
  {
    hide Quotient;
  }

  /** What a cut ends at, between the rate worked out and the one before. */
  lemma CutIsOk(p: Plan, kbps: nat, c: Config)
    requires PlanOk(p, c) && Sensible(c) && p.dt >= 0.0
    requires kbps == p.t || p.t < kbps < p.prior <= c.maxKbps
    ensures RateOk(Rate(kbps, p), c)
  {
    hide IsRate;
    SignOf(c.slewUp, p.prior as real, p.dt);
    assert SlewLimit(p, c) == p.prior as real + c.slewUp * p.prior as real * p.dt;
  }

  lemma SignOf(a: real, x: real, dt: real)
    requires a >= 0.0 && dt >= 0.0
    ensures x >= 0.0 ==> a * x * dt >= 0.0
    ensures x <= 0.0 ==> a * x * dt <= 0.0
  {
    var p := a * x;
    assert x >= 0.0 ==> p >= 0.0;
    assert x <= 0.0 ==> p <= 0.0;
  }

  lemma LowerBound(kMin: real, divMax: nat, stageMax: nat)
    requires kMin >= 0.0 && 1 <= divMax <= stageMax
    ensures 0.0 <= kMin / stageMax as real <= kMin / divMax as real <= kMin
  {
  }
}
