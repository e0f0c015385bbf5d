/** The server's side of negotiation (crates/irtt-server/src/negotiate.rs). */
module Negotiate {
  import opened Prelude
  import opened Params
  import opened Layout
  import opened ServerConfig
  import opened Fill

  function RestrictStampAt(requested: StampAt, allowance: TimestampAllowance): StampAt {
    match allowance
    case Dual => requested
    case Single => if requested.AtBoth? then AtMidpoint else requested
    case NoTimestamps => NoStamp
  }

  /** Floor first, cap second: the cap may end below the floor. */
  function NegotiatedInterval(requestedNs: i64, config: Config): i64 {
    var floored := Max(requestedNs, SaturatingI64(config.minSendInterval));
    var cap := SaturatingI64(config.idleTimeout / 4);
    if cap > 0 && floored > cap then cap else floored
  }

  function NegotiatedDuration(requestedNs: i64, config: Config): i64 {
    match config.maxTestDuration
    case None => requestedNs
    case Some(maximum) =>
      if requestedNs == 0 || requestedNs > SaturatingI64(maximum) then SaturatingI64(maximum) else requestedNs
  }

  function NegotiatedParams(requested: Params, config: Config): Params {
    requested.(
      protocolVersion := PROTOCOL_VERSION,
      length := Min(requested.length, SaturatingI64(config.maxPacketLength)),
      durationNs := NegotiatedDuration(requested.durationNs, config),
      intervalNs := NegotiatedInterval(requested.intervalNs, config),
      stampAt := RestrictStampAt(requested.stampAt, config.timestampAllowance),
      dscp := if config.dscpAllowed then requested.dscp else 0)
  }

  method NegotiateParams(requested: Params, config: Config) returns (p: Params)
    ensures p == NegotiatedParams(requested, config)
  {
    p := requested.(protocolVersion := PROTOCOL_VERSION);
    var maxLength := SaturatingI64(config.maxPacketLength);
    if p.length > maxLength {
      p := p.(length := maxLength);
    }
    if config.maxTestDuration.Some? {
      var maximum := SaturatingI64(config.maxTestDuration.value);
      if p.durationNs == 0 || p.durationNs > maximum {
        p := p.(durationNs := maximum);
      }
    }
    var minimum := SaturatingI64(config.minSendInterval);
    if p.intervalNs < minimum {
      p := p.(intervalNs := minimum);
    }
    var idleCap := SaturatingI64(config.idleTimeout / 4);
    if idleCap > 0 && p.intervalNs > idleCap {
      p := p.(intervalNs := idleCap);
    }
    p := p.(stampAt := RestrictStampAt(p.stampAt, config.timestampAllowance));
    if !config.dscpAllowed {
      p := p.(dscp := 0);
    }
  }

  /** What the server settles on: parameters, descriptor and fill. */
  function Settled(requested: Params, config: Config): (Params, FillMode) {
    NegotiateFill(NegotiatedParams(requested, config))
  }

  /** Settling what was already settled changes nothing, fill included. */
  lemma SettledIsIdempotent(requested: Params, config: Config)
    ensures var (p, mode) := Settled(requested, config);
            NegotiatedParams(p, config) == p && Settled(p, config) == (p, mode)
  {
    FillIsHonest(NegotiatedParams(requested, config));
  }

  /** How the negotiated interval relates to what the server enforces: never slower than a
      quarter of a usable idle timeout, never faster than both the request and the floor unless
      that cap says so, and positive whenever the request or the floor is. */
  lemma IntervalBounds(requestedNs: i64, config: Config)
    ensures var n := NegotiatedInterval(requestedNs, config);
            && (4 <= config.idleTimeout ==> n <= config.idleTimeout / 4)
            && (n < requestedNs || n < SaturatingI64(config.minSendInterval) ==> n == SaturatingI64(config.idleTimeout / 4))
            && (n > requestedNs ==> n <= SaturatingI64(config.minSendInterval))
            && (requestedNs > 0 || config.minSendInterval > 0 ==> n > 0)
  {
  }

  /** A continuous or too long request ends within the configured maximum; a finite request
      never becomes continuous. */
  lemma DurationBounds(requestedNs: i64, config: Config)
    requires requestedNs >= 0
    ensures var n := NegotiatedDuration(requestedNs, config);
            && (config.maxTestDuration.Some? ==> 0 < n <= config.maxTestDuration.value)
            && (requestedNs > 0 ==> 0 < n <= requestedNs)
            && (n != requestedNs ==> config.maxTestDuration.Some? && n == SaturatingI64(config.maxTestDuration.value))
  {
  }
}
