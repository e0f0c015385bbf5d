/** Sessions, clock samples and endpoints (crates/irtt-server/src/session.rs, clock.rs, core.rs). */
module Session {
  import opened Prelude
  import opened Params
  import opened ServerConfig
  import opened Fill
  import opened ReceiveWindow
  import RateLimit

  // ---------- endpoints ----------

  datatype Endpoint =
    | V4(address: nat, port: nat)
    | V6(address: nat, port: nat, flow: nat, scope: nat)

  /** The flow label identifies no endpoint; the scope does. */
  predicate SameEndpoint(session: Endpoint, peer: Endpoint) {
    match (session, peer)
    case (V6(a, p, _, s), V6(b, q, _, t)) => a == b && p == q && s == t
    case _ => session == peer
  }

  // ---------- clock samples ----------

  datatype ClockSample = ClockSample(wallNs: i64, monoNs: i64) {
    function NotAfter(later: ClockSample): ClockSample {
      ClockSample(Min(wallNs, later.wallNs), Min(monoNs, later.monoNs))
    }

    function Midpoint(other: ClockSample): ClockSample {
      ClockSample(MeanNs(wallNs, other.wallNs), MeanNs(monoNs, other.monoNs))
    }
  }

  /** The mean, truncated toward zero. */
  function MeanNs(a: i64, b: i64): i64 {
    if a + b >= 0 then (a + b) / 2 else -(-(a + b) / 2)
  }

  // ---------- lifetime ----------

  const CLOSE_GRACE_NS: nat := 2_000_000_000

  datatype LifetimeState = LifetimeState(lastActivityNs: i64, firstServedNs: Option<i64>) {
    predicate IdleExpired(nowNs: i64, idleTimeoutNs: i64) {
      Saturate(nowNs - lastActivityNs) >= idleTimeoutNs
    }

    predicate MaxDurationReached(nowNs: i64, maxDurationNs: i64) {
      && firstServedNs.Some?
      && nowNs >= Saturate(Saturate(firstServedNs.value + maxDurationNs) + CLOSE_GRACE_NS)
    }

    /** After a rate-limited echo. */
    function Refreshed(nowNs: i64): LifetimeState {
      this.(lastActivityNs := nowNs)
    }

    /** After an echo about to be answered. */
    function Served(nowNs: i64): LifetimeState {
      LifetimeState(nowNs, if firstServedNs.Some? then firstServedNs else Some(nowNs))
    }
  }

  datatype Session = Session(
    peer: Endpoint,
    params: Params,
    fill: FillMode,
    receive: ReceiveState,
    rate: RateLimit.RateState,
    lifetime: LifetimeState)

  function Opened(peer: Endpoint, params: Params, fill: FillMode, config: Config, nowNs: i64): Session {
    Session(peer, params, fill, FRESH, RateLimit.Opened(config, params.intervalNs, nowNs),
            LifetimeState(nowNs, None))
  }
}
