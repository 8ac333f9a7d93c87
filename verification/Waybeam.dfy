/**
 tx/bitrate_ctl.c against the encoder's HTTP interface: the floor below which waybeam refuses
 a rate, and how a cut finds it.
 */
module Waybeam {

  /** A rate at a divisor, as a rate at the full frame rate. */
  function FullRate(kbps: nat, div: nat): nat { kbps * div }

  const REFUSED: int := 409
  const CUT_ATTEMPTS: nat := 5
  const CUT_GAP: nat := 32

  predicate IsOk(status: int) { 200 <= status < 300 }

  /** The status of a request: refused if it would be accepted but is below the floor. */
  function Reply(answers: seq<int>, below: bool): (status: int)
    ensures status == REFUSED ==> below
    ensures IsOk(status) ==> !below
  {
    var status := if answers == [] then 0 else answers[0];
    if below then if IsOk(status) then REFUSED else status
    else if status == REFUSED then 0 else status
  }

  function Tail(answers: seq<int>): seq<int> {
    if answers == [] then [] else answers[1..]
  }

  /** A request for a rate alone, or for a frame-rate divisor together with a rate. */
  datatype Request = ForRate(kbps: nat) | ForStage(div: nat, kbps: nat)

  function RateRequests(tried: seq<nat>): seq<Request> {
    seq(|tried|, i requires 0 <= i < |tried| => ForRate(tried[i]))
  }

  /**
   waybeam at its fpsDivisor refuses a rate exactly when the rate times the divisor is below
   its floor. answers are the statuses of requests it has no reason to refuse, or never sees.
   */
  class Server {
    const floorKbps: nat
    var div: nat
    var rateKbps: nat
    var answers: seq<int>
    ghost var asked: seq<Request>

    ghost predicate Valid()
      reads this
    {
      div >= 1
    }

    constructor (floorKbps: nat, div: nat, rateKbps: nat, answers: seq<int>)
      requires div >= 1
      ensures Valid() && this.div == div && this.floorKbps == floorKbps && this.answers == answers
      ensures this.rateKbps == rateKbps
    {
      this.floorKbps, this.div, this.rateKbps, this.answers, asked := floorKbps, div, rateKbps, answers, [];
    }

    /** Started anew: at the full frame rate, and at its configured rate. */
    method Restart(configuredKbps: nat)
      modifies this`div, this`rateKbps
      ensures Valid() && div == 1
    {
      div, rateKbps := 1, configuredKbps;
    }

    /** What becomes of a request that is, or is not, below the floor. */
    method Answer(below: bool) returns (status: int)
      modifies this`answers
      ensures status == Reply(old(answers), below) && answers == Tail(old(answers))
    {
      status := Reply(answers, below);
      answers := Tail(answers);
    }

    /** video0.bitrate */
    method SetRate(kbps: nat) returns (status: int)
      requires Valid()
      modifies this`answers, this`rateKbps, this`asked
      ensures asked == old(asked) + [ForRate(kbps)]
      ensures status == Reply(old(answers), FullRate(kbps, div) < floorKbps) && answers == Tail(old(answers))
      ensures status == REFUSED ==> FullRate(kbps, div) < floorKbps
      ensures IsOk(status) ==> FullRate(kbps, div) >= floorKbps && rateKbps == kbps
      ensures !IsOk(status) ==> rateKbps == old(rateKbps)
    {
      asked := asked + [ForRate(kbps)];
      status := Answer(FullRate(kbps, div) < floorKbps);
      if IsOk(status) {
        rateKbps := kbps;
      }
    }

    /** send_fps_div(): video0.fpsDivisor, with the rate in the same request unless it is 0. */
    method SetDivisor(d: nat, kbps: nat) returns (status: int)
      requires Valid() && d >= 1
      modifies this`answers, this`rateKbps, this`div, this`asked
      ensures Valid() && asked == old(asked) + [ForStage(d, kbps)]
      ensures status == Reply(old(answers), kbps != 0 && FullRate(kbps, d) < floorKbps)
      ensures answers == Tail(old(answers))
      ensures status == REFUSED ==> kbps != 0 && FullRate(kbps, d) < floorKbps
      ensures IsOk(status) ==> div == d && (kbps != 0 ==> rateKbps == kbps && FullRate(kbps, d) >= floorKbps)
      ensures !IsOk(status) ==> div == old(div) && rateKbps == old(rateKbps)
      ensures kbps == 0 ==> rateKbps == old(rateKbps)
    {
      asked := asked + [ForStage(d, kbps)];
      status := Answer(kbps != 0 && FullRate(kbps, d) < floorKbps);
      if IsOk(status) {
        div := d;
        if kbps != 0 {
          rateKbps := kbps;
        }
      }
    }
  }

  /** learn_floor(), where the sum stays within 32 bits. */
  function LearnFloor(floorKbps: nat, status: int, rejectedKbps: nat): nat {
    if status == REFUSED && rejectedKbps + 1 > floorKbps then rejectedKbps + 1 else floorKbps
  }

  /**
   A floor learned from a refusal is at most waybeam's own, if waybeam divides its floor by at
   least what the rate was multiplied by.
   */
  lemma LearnedIsSound(floorKbps: nat, kbps: nat, div: nat, serverFloor: nat, serverDiv: nat)
    requires 1 <= div <= serverDiv && FullRate(kbps, serverDiv) < serverFloor
    ensures var learned := LearnFloor(floorKbps, REFUSED, FullRate(kbps, div));
      floorKbps <= learned && FullRate(kbps, div) < learned && (learned <= floorKbps || learned <= serverFloor)
  {
    assert kbps * (serverDiv - div) >= 0;
  }

  /** What a refusal teaches is no more than the floor known before, or waybeam's. */
  predicate Sound(floorKbps: nat, learned: nat, serverFloor: nat) {
    learned <= floorKbps || learned <= serverFloor
  }

  /** Every refusal by a waybeam at serverDiv teaches a controller at div a sound floor. */
  ghost predicate AlwaysSound(div: nat, serverDiv: nat) {
    forall floorKbps: nat, kbps: nat, serverFloor: nat ::
      FullRate(kbps, serverDiv) < serverFloor ==>
        Sound(floorKbps, LearnFloor(floorKbps, REFUSED, FullRate(kbps, div)), serverFloor)
  }

  /**
   That is so exactly when waybeam divides by no less than the controller thinks. Behind a
   restart, which puts waybeam back to the full frame rate, it does not until the next turn.
   */
  lemma SoundIff(div: nat, serverDiv: nat)
    requires div >= 1 && serverDiv >= 1
    ensures AlwaysSound(div, serverDiv) <==> div <= serverDiv
  {
    if div <= serverDiv {
      forall floorKbps: nat, kbps: nat, serverFloor: nat | FullRate(kbps, serverDiv) < serverFloor
        ensures Sound(floorKbps, LearnFloor(floorKbps, REFUSED, FullRate(kbps, div)), serverFloor)
      {
        LearnedIsSound(floorKbps, kbps, div, serverFloor, serverDiv);
      }
    } else {
      assert FullRate(1, serverDiv) < serverDiv + 1;
      assert !Sound(0, LearnFloor(0, REFUSED, FullRate(1, div)), serverDiv + 1);
    }
  }

  /**
   The requests of a cut: rising from the rate wanted, each half way from the one before to
   the current rate, and all but the last refused, which the floor tells.
   */
  predicate IsCut(tried: seq<nat>, want: nat, current: nat, floorKbps: nat, div: nat) {
    && |tried| >= 1 && tried[0] == want
    && (forall i :: 0 <= i < |tried| ==> tried[i] < current)
    && (forall i :: 0 < i < |tried| ==> tried[i] == HalfWay(tried[i - 1], current))
    && (forall i, j :: 0 <= i < j < |tried| ==> tried[i] < tried[j])
    && (forall i :: 0 <= i < |tried| - 1 ==> FullRate(tried[i], div) < floorKbps)
  }

  function HalfWay(kbps: nat, current: nat): nat {
    if kbps < current then kbps + (current - kbps) / 2 else kbps
  }

  lemma FirstTry(want: nat, current: nat, floorKbps: nat, div: nat)
    requires want < current
    ensures IsCut([want], want, current, floorKbps, div)
  {
  }

  lemma NextTry(tried: seq<nat>, want: nat, current: nat, floor0: nat, floorKbps: nat, div: nat)
    requires IsCut(tried, want, current, floor0, div) && floor0 <= floorKbps
    requires current - tried[|tried| - 1] > CUT_GAP && FullRate(tried[|tried| - 1], div) < floorKbps
    ensures IsCut(tried + [HalfWay(tried[|tried| - 1], current)], want, current, floorKbps, div)
  {
    hide FullRate;
  }

  lemma LaterTry(tried: seq<nat>, want: nat, current: nat, floor0: nat, floorKbps: nat, div: nat)
    requires IsCut(tried, want, current, floor0, div) && floor0 <= floorKbps
    ensures IsCut(tried, want, current, floorKbps, div)
    ensures tried[0] == want <= tried[|tried| - 1] < current
  {
    hide FullRate;
  }

  /** Five tries close in on the current rate by a factor of sixteen. */
  lemma FifthTry(tried: seq<nat>, want: nat, current: nat, floorKbps: nat, div: nat)
    requires IsCut(tried, want, current, floorKbps, div) && |tried| == CUT_ATTEMPTS
    ensures current - tried[4] <= (current - want) / 16 + 1
  {
    hide FullRate;
    var g0, g1, g2, g3 := current - want, current - tried[1], current - tried[2], current - tried[3];
    assert g1 == g0 - g0 / 2 && g2 == g1 - g1 / 2 && g3 == g2 - g2 / 2;
  }

  /**
   apply_cut() from a rate that waybeam has accepted: the last status, the rate it is about,
   and the floor as known then. tried are the requests made.
   */
  method ApplyCut(server: Server, want: nat, current: nat, floor0: nat, div: nat)
    returns (status: int, kbps: nat, floorKbps: nat, ghost tried: seq<nat>)
    requires server.Valid() && want < current
    modifies server`answers, server`rateKbps, server`asked
    ensures server.asked == old(server.asked) + RateRequests(tried)
    ensures |tried| <= 5 && IsCut(tried, want, current, floorKbps, div)
    ensures IsOk(status) ==> kbps == tried[|tried| - 1] && want <= kbps < current && server.rateKbps == kbps
    ensures !IsOk(status) ==> server.rateKbps == old(server.rateKbps)
    ensures floor0 <= floorKbps && (1 <= div <= server.div ==> Sound(floor0, floorKbps, server.floorKbps))
    ensures Reply(old(server.answers), FullRate(want, server.div) < server.floorKbps) == REFUSED ==>
              FullRate(want, div) < floorKbps
    ensures status == REFUSED ==> FullRate(tried[|tried| - 1], div) < floorKbps
    ensures status == REFUSED ==> |tried| == 5 || current - tried[|tried| - 1] <= 32
  {
    hide FullRate, IsCut;
    floorKbps, kbps := floor0, want;
    FirstTry(want, current, floorKbps, div);
    tried := [want];
    var attempt := 1;
    while true
      invariant 1 <= attempt <= CUT_ATTEMPTS && |tried| == attempt && kbps == tried[attempt - 1]
      invariant server.Valid() && server.asked + [ForRate(kbps)] == old(server.asked) + RateRequests(tried)
      invariant IsCut(tried, want, current, floorKbps, div)
      invariant floor0 <= floorKbps && (1 <= div <= server.div ==> Sound(floor0, floorKbps, server.floorKbps))
      invariant attempt == 1 ==> server.answers == old(server.answers)
      invariant attempt > 1 ==> FullRate(want, div) < floorKbps
      invariant server.rateKbps == old(server.rateKbps)
      decreases CUT_ATTEMPTS - attempt
    {
      LaterTry(tried, want, current, floorKbps, floorKbps, div);
      status := server.SetRate(kbps);
      if status != REFUSED {
        return;
      }
      ghost var before := floorKbps;
      if 1 <= div <= server.div {
        LearnedIsSound(floorKbps, kbps, div, server.floorKbps, server.div);
      }
      floorKbps := LearnFloor(floorKbps, status, FullRate(kbps, div));
      LaterTry(tried, want, current, before, floorKbps, div);
      if kbps >= current || current - kbps <= CUT_GAP || attempt == CUT_ATTEMPTS {
        return;
      }
      NextTry(tried, want, current, before, floorKbps, div);
      kbps := HalfWay(kbps, current);
      assert RateRequests(tried + [kbps]) == RateRequests(tried) + [ForRate(kbps)];
      tried := tried + [kbps];
      attempt := attempt + 1;
    }
  }

  /**
   Such a refusal at work: the controller cuts from 8000 to 400 kbps at every 4th frame, but
   waybeam, with a floor of 1000 kbps, has just started anew. The floor learned is above it.
   */
  method CutBehindRestart(accepted: int) returns (server: Server, floorKbps: nat)
    requires IsOk(accepted)
    ensures server.div == 1 && server.floorKbps == 1000 && floorKbps > 1600
  {
    server := new Server(1000, 4, 8000, [accepted, accepted]);
    server.Restart(4000);
    var status, kbps;
    ghost var tried;
    assert FullRate(400, 1) < 1000 && FullRate(400, 4) == 1600;
    status, kbps, floorKbps, tried := ApplyCut(server, 400, 8000, 512, 4);
  }
}
