/** The server's configuration (crates/irtt-server/src/config.rs). */
module ServerConfig {
  import opened Prelude
  import Envelope

  datatype TimestampAllowance = NoTimestamps | Single | Dual

  type Positive = n: nat | n > 0 witness 1

  /** Durations are nanoseconds. A stored maximum test duration is never zero. */
  datatype Config = Config(
    hmacKey: Option<Envelope.Key>,
    maxSessions: nat,
    maxPacketLength: nat,
    minSendInterval: nat,
    burstAllowance: u32,
    idleTimeout: nat,
    maxTestDuration: Option<Positive>,
    timestampAllowance: TimestampAllowance,
    dscpAllowed: bool)
}
