/** A session's reply allowance (crates/irtt-server/src/session.rs, `RateState`). */
module RateLimit {
  import opened Prelude
  import opened ServerConfig

  datatype RateState = RateState(burst: u32, intervalNs: i64, allowance: u32, refilledAtNs: i64) {

    /** What every reachable state keeps. */
    predicate Valid() {
      intervalNs >= 0 && allowance <= burst && refilledAtNs >= 0
    }

    /** Judges one echo request: the decision and the state to keep either way. */
    function Charge(nowNs: i64): RateDecision {
      if burst == 0 then Limited(this)
      else if intervalNs == 0 then Allowed(this)
      else
        var refilled := Replenish(nowNs);
        if refilled.allowance == 0 then Limited(refilled)
        else Allowed(refilled.(allowance := refilled.allowance - 1))
    }

    /** Credits whole elapsed intervals, up to the burst, and carries the remainder. A clock
        that ran backwards credits nothing. */
    function Replenish(nowNs: i64): RateState {
      if allowance >= burst then this.(allowance := burst, refilledAtNs := nowNs)
      else
        var elapsed := Saturate(nowNs - refilledAtNs);
        if elapsed < intervalNs || intervalNs <= 0 then this
        else
          var gained := elapsed / intervalNs;
          var credited: u32 := Min(Min(allowance + Min(gained, U32_MAX), U32_MAX), burst);
          this.(allowance := credited,
                refilledAtNs := if credited == burst then nowNs
                                else Saturate(refilledAtNs + Saturate(gained * intervalNs)))
    }
  }

  datatype RateDecision = Allowed(next: RateState) | Limited(next: RateState)

  /** A full allowance. It refills at the faster of the two paces, the server's floor and what the
      client was told, but a floor or a pace of zero is no pace at all. */
  function Opened(config: Config, negotiatedNs: i64, nowNs: i64): RateState {
    var configured := SaturatingI64(config.minSendInterval);
    var interval := if configured <= 0 || negotiatedNs <= 0 then configured else Min(configured, negotiatedNs);
    RateState(config.burstAllowance, interval, config.burstAllowance, nowNs)
  }

  // ---------- the bound on every window ----------

  predicate Nondecreasing(times: seq<i64>) {
    forall i, j :: 0 <= i < j < |times| ==> times[i] <= times[j]
  }

  /** How many of the requests at `times` are allowed within `[t0, t1]`. */
  function AllowedWithin(state: RateState, times: seq<i64>, t0: i64, t1: i64): nat
    decreases |times|
  {
    if times == [] then 0
    else
      var decision := state.Charge(times[0]);
      (if decision.Allowed? && t0 <= times[0] <= t1 then 1 else 0)
      + AllowedWithin(decision.next, times[1..], t0, t1)
  }

  /** Allowance, and time towards the next unit, available until `t`. */
  function Potential(state: RateState, t: i64): int {
    state.allowance * state.intervalNs + (t - state.refilledAtNs)
  }

  lemma Quotient(elapsed: nat, interval: nat)
    requires interval > 0
    ensures 0 <= elapsed / interval * interval <= elapsed < elapsed / interval * interval + interval
  {
  }

  lemma Product(a: nat, b: nat, interval: nat)
    requires a <= b
    ensures a * interval <= b * interval
  {
  }

  lemma OneMore(n: nat, interval: nat)
    ensures (n + 1) * interval == n * interval + interval
  {
  }

  lemma Divide(n: nat, burst: nat, interval: nat, span: nat)
    requires interval > 0 && n * interval <= burst * interval + span
    ensures n <= burst + span / interval
  {
    Quotient(span, interval);
    var most := burst + span / interval;
    assert most * interval == burst * interval + span / interval * interval;
    if n > most {
      Product(most + 1, n, interval);
      OneMore(most, interval);
    }
  }

  /** Replenishing yields a valid state, never raises the potential and never lowers the
      allowance, and leaves no more than a full burst to spend at that instant. */
  lemma ReplenishBounds(state: RateState, nowNs: i64, t: i64)
    requires state.Valid() && state.intervalNs > 0 && state.refilledAtNs <= nowNs <= t
    ensures var next := state.Replenish(nowNs);
            && next.Valid() && next.intervalNs == state.intervalNs && next.burst == state.burst
            && next.refilledAtNs <= nowNs
            && next.allowance >= state.allowance
            && Potential(next, t) <= Potential(state, t)
            && Potential(next, nowNs) <= state.burst * state.intervalNs
  {
    var a, b, interval, elapsed := state.allowance, state.burst, state.intervalNs, nowNs - state.refilledAtNs;
    if a < b && elapsed < interval {
      NoCredit(a, b, interval, elapsed);
    } else if a < b {
      var gained := elapsed / interval;
      Quotient(elapsed, interval);
      if a + gained < b {
        PartCredit(a, b, gained, interval, elapsed);
      } else {
        FullCredit(a, b, gained, interval, elapsed);
      }
    }
  }

  lemma NoCredit(a: nat, b: nat, interval: nat, elapsed: nat)
    requires a < b && elapsed < interval
    ensures a * interval + elapsed <= b * interval
  {
    Product(a + 1, b, interval);
    OneMore(a, interval);
  }

  lemma PartCredit(a: nat, b: nat, gained: nat, interval: nat, elapsed: nat)
    requires a + gained < b && gained * interval <= elapsed < gained * interval + interval
    ensures (a + gained) * interval == a * interval + gained * interval
    ensures (a + gained) * interval + (elapsed - gained * interval) <= b * interval
  {
    assert (a + gained) * interval == a * interval + gained * interval;
    Product(a + gained + 1, b, interval);
    OneMore(a + gained, interval);
  }

  lemma FullCredit(a: nat, b: nat, gained: nat, interval: nat, elapsed: nat)
    requires b <= a + gained && gained * interval <= elapsed
    ensures b * interval <= a * interval + elapsed
  {
    assert (a + gained) * interval == a * interval + gained * interval;
    Product(b, a + gained, interval);
  }

  /** An allowed request spends one interval of potential; a limited one spends none. */
  lemma ChargeBounds(state: RateState, nowNs: i64, t: i64)
    requires state.Valid() && state.intervalNs > 0 && state.burst > 0 && state.refilledAtNs <= nowNs <= t
    ensures var decision := state.Charge(nowNs);
            var spent := if decision.Allowed? then state.intervalNs else 0;
            var next := decision.next;
            && next.Valid() && next.intervalNs == state.intervalNs && next.burst == state.burst
            && next.refilledAtNs <= nowNs
            && Potential(next, t) + spent <= Potential(state, t)
            && Potential(next, nowNs) + spent <= state.burst * state.intervalNs
  {
    hide RateState.Replenish;
    ReplenishBounds(state, nowNs, t);
    var refilled := state.Replenish(nowNs);
    if refilled.allowance > 0 {
      OneMore(refilled.allowance - 1, refilled.intervalNs);
    }
  }

  /** Once in the window, what is still allowed is paid for by the potential at its end. */
  lemma {:induction false} SpendsPotential(state: RateState, times: seq<i64>, t0: i64, t1: i64)
    requires state.Valid() && state.intervalNs > 0 && state.burst > 0 && state.refilledAtNs <= t1
    requires Nondecreasing(times) && (times != [] ==> state.refilledAtNs <= times[0])
    ensures AllowedWithin(state, times, t0, t1) * state.intervalNs <= Potential(state, t1)
    decreases |times|
  {
    if times == [] {
      Product(0, state.allowance, state.intervalNs);
    } else if times[0] > t1 {
      NoneAfter(state, times, t0, t1);
      Product(0, state.allowance, state.intervalNs);
    } else {
      ChargeBounds(state, times[0], t1);
      var decision := state.Charge(times[0]);
      SpendsPotential(decision.next, times[1..], t0, t1);
      var rest := AllowedWithin(decision.next, times[1..], t0, t1);
      OneMore(rest, state.intervalNs);
    }
  }

  lemma {:induction false} NoneAfter(state: RateState, times: seq<i64>, t0: i64, t1: i64)
    requires Nondecreasing(times) && times != [] && times[0] > t1
    ensures AllowedWithin(state, times, t0, t1) == 0
    decreases |times|
  {
    if |times| > 1 {
      NoneAfter(state.Charge(times[0]).next, times[1..], t0, t1);
    }
  }

  lemma {:induction false} SpendsBurst(state: RateState, times: seq<i64>, t0: i64, t1: i64)
    requires state.Valid() && state.intervalNs > 0 && state.burst > 0 && t0 <= t1
    requires Nondecreasing(times) && (times != [] ==> state.refilledAtNs <= times[0])
    ensures AllowedWithin(state, times, t0, t1) * state.intervalNs <= state.burst * state.intervalNs + (t1 - t0)
    decreases |times|
  {
    if times == [] {
      Product(0, state.burst, state.intervalNs);
    } else if times[0] > t1 {
      NoneAfter(state, times, t0, t1);
      Product(0, state.burst, state.intervalNs);
    } else {
      ChargeBounds(state, times[0], times[0]);
      var decision := state.Charge(times[0]);
      if times[0] < t0 {
        SpendsBurst(decision.next, times[1..], t0, t1);
      } else {
        SpendsPotential(decision.next, times[1..], t0, t1);
        var rest := AllowedWithin(decision.next, times[1..], t0, t1);
        OneMore(rest, state.intervalNs);
      }
    }
  }

  /** Over any run of requests at nondecreasing times, at most the burst plus one per whole
      refill interval are allowed in any closed window; with no burst, none is. */
  lemma WindowBound(state: RateState, times: seq<i64>, t0: i64, t1: i64)
    requires state.Valid() && t0 <= t1
    requires Nondecreasing(times) && (times != [] ==> state.refilledAtNs <= times[0])
    ensures state.intervalNs > 0 ==>
              AllowedWithin(state, times, t0, t1) <= state.burst + (t1 - t0) / state.intervalNs
    ensures state.burst == 0 ==> AllowedWithin(state, times, t0, t1) == 0
  {
    hide AllowedWithin, Nondecreasing;
    if state.burst == 0 {
      NoBurst(state, times, t0, t1);
    } else if state.intervalNs > 0 {
      SpendsBurst(state, times, t0, t1);
      Divide(AllowedWithin(state, times, t0, t1), state.burst, state.intervalNs, t1 - t0);
    }
  }

  lemma {:induction false} NoBurst(state: RateState, times: seq<i64>, t0: i64, t1: i64)
    requires state.burst == 0
    ensures AllowedWithin(state, times, t0, t1) == 0
    decreases |times|
  {
    if times != [] {
      NoBurst(state, times[1..], t0, t1);
    }
  }

  // ---------- and its converse: a paced sender is never limited ----------

  /** A state from which a request at least one refill interval later is allowed. */
  predicate Paced(state: RateState, lastNs: i64) {
    state.Valid() && state.burst > 0 && state.refilledAtNs <= lastNs
  }

  /** A request one refill interval after the last instant accounted for is allowed, as is the
      first request of a session whose allowance is full, and the next state is paced again. */
  lemma PacedIsAllowed(state: RateState, lastNs: i64, nowNs: i64)
    requires Paced(state, lastNs)
    requires nowNs >= lastNs && (state.allowance == state.burst || nowNs - lastNs >= state.intervalNs)
    ensures state.Charge(nowNs).Allowed?
    ensures Paced(state.Charge(nowNs).next, nowNs)
    ensures state.Charge(nowNs).next.intervalNs == state.intervalNs
  {
    if state.intervalNs > 0 {
      ReplenishBounds(state, nowNs, nowNs);
      if state.allowance == 0 {
        Quotient(nowNs - state.refilledAtNs, state.intervalNs);
      }
    }
  }
}
