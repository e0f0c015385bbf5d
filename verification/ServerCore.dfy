/** The server's deterministic engine (crates/irtt-server/src/core.rs): the specification of one
    step as a function of the table, and the object that performs it in place. */
module ServerCore {
  import opened Prelude
  import opened ProtoErrors
  import opened Params
  import opened Layout
  import opened Envelope
  import opened ServerConfig
  import opened Negotiate
  import opened Fill
  import opened Session
  import E = Echo
  import O = Open
  import Q = Request
  import RateLimit

  type Token = u64

  /** What stays fixed: the configuration, the keyed digest and the token source, whose `n`-th
      draw is `tokens(n)`, or `None` when the random source fails. */
  datatype Env = Env(config: Config, mac: Mac, tokens: nat -> Option<Token>)

  /** The session table and how many tokens have been drawn. */
  datatype Core = Core(sessions: map<Token, Session>, draws: nat)

  const EMPTY_TABLE := Core(map[], 0)

  /** One received datagram with everything else the step reads: the samples of its arrival and
      of its reply's departure, the kernel's arrival reading if any, and the fill's entropy. */
  datatype Datagram = Datagram(
    peer: Endpoint,
    packet: seq<u8>,
    received: ClockSample,
    sent: ClockSample,
    kernelWallNs: Option<i64>,
    entropy: Option<nat -> u8>)

  datatype Outbound = Outbound(bytes: seq<u8>, trafficClass: u8)

  datatype ServerError = RandomSource | TokenExhausted | ReplyEncoding(source: ProtoError)

  type Outcome = Result<Option<Outbound>, ServerError>

  const TOKEN_ATTEMPTS: nat := 8
  const MAX_KERNEL_RX_LAG_NS: nat := 1_000_000_000

  // ---------- one step, as a function ----------

  function Sweep(config: Config, sessions: map<Token, Session>, nowNs: i64): map<Token, Session> {
    map t | t in sessions && !sessions[t].lifetime.IdleExpired(nowNs, SaturatingI64(config.idleTimeout))
      :: sessions[t]
  }

  /** The kernel's arrival reading, where it is not later than the sample and lags at most a second. */
  function PreferredReceiveWallNs(kernelWallNs: Option<i64>, received: ClockSample): i64 {
    match kernelWallNs
    case None => received.wallNs
    case Some(kernel) => if 0 <= received.wallNs - kernel <= MAX_KERNEL_RX_LAG_NS then kernel else received.wallNs
  }

  function When(present: bool, value: i64): Option<i64> {
    if present then Some(value) else None
  }

  /** What the reply says of time: a field is filled exactly when the session asked for it. */
  function Timestamps(p: Params, received: ClockSample, sent: ClockSample, receiveWallNs: i64): E.TimestampFields {
    var received := received.NotAfter(sent);
    var mid := received.Midpoint(sent);
    var wall, mono := p.clock.HasWall(), p.clock.HasMono();
    var receives := p.stampAt.AtReceive? || p.stampAt.AtBoth?;
    var sends := p.stampAt.AtSend? || p.stampAt.AtBoth?;
    E.TimestampFields(
      When(receives && wall, Min(receiveWallNs, sent.wallNs)),
      When(receives && mono, received.monoNs),
      When(p.stampAt.AtMidpoint? && wall, mid.wallNs),
      When(p.stampAt.AtMidpoint? && mono, mid.monoNs),
      When(sends && wall, sent.wallNs),
      When(sends && mono, sent.monoNs))
  }

  function TransportTrafficClass(p: Params): u8 {
    if 0 <= p.dscp < 0x100 then p.dscp else 0
  }

  function EchoPayloadLen(authenticated: bool, p: Params): nat {
    EchoPacketLen(authenticated, p) - Echo(authenticated, p).HeaderLen()
  }

  predicate Closing(config: Config, session: Session, nowNs: i64) {
    && config.maxTestDuration.Some?
    && session.lifetime.MaxDurationReached(nowNs, SaturatingI64(config.maxTestDuration.value))
  }

  /** The reply to an accepted echo. */
  function ReplyTo(env: Env, session: Session, token: Token, sequence: u32, d: Datagram): E.EchoReply {
    var p := session.params;
    var next := session.receive.Accepted(sequence);
    E.EchoReply(
      Flags(false, true, Closing(env.config, session, d.received.monoNs), false, 0),
      token,
      sequence,
      if p.receivedStats.HasCount() then Some(next.count) else None,
      if p.receivedStats.HasWindow() then Some(next.window) else None,
      Timestamps(p, d.received, d.sent, PreferredReceiveWallNs(d.kernelWallNs, d.received)),
      session.fill.Payload(EchoPayloadLen(env.config.hmacKey.Some?, p), d.entropy))
  }

  /** Whether an echo request reaches its session's policy. */
  predicate Admitted(config: Config, sessions: map<Token, Session>, token: Token, d: Datagram) {
    && |d.packet| <= config.maxPacketLength
    && token in sessions
    && SameEndpoint(sessions[token].peer, d.peer)
  }

  function HandleEchoSpec(env: Env, core: Core, token: Token, sequence: u32, d: Datagram): (Core, Outcome) {
    if !Admitted(env.config, core.sessions, token, d) then (core, Ok(None))
    else
      var session := core.sessions[token];
      var now := d.received.monoNs;
      match session.rate.Charge(now)
      case Limited(next) =>
        (core.(sessions := core.sessions[token := session.(rate := next, lifetime := session.lifetime.Refreshed(now))]),
         Ok(None))
      case Allowed(next) =>
        match E.EncodeEchoReply(env.mac, ReplyTo(env, session, token, sequence, d), session.params, env.config.hmacKey)
        case Err(source) => (core, Err(ReplyEncoding(source)))
        case Ok(bytes) =>
          var served := session.(rate := next, receive := session.receive.Accepted(sequence),
                                 lifetime := session.lifetime.Served(now));
          (core.(sessions := if Closing(env.config, session, now) then core.sessions - {token}
                             else core.sessions[token := served]),
           Ok(Some(Outbound(bytes, TransportTrafficClass(session.params)))))
  }

  /** Draws until a token is non-zero and names no live session. */
  function AllocateSpec(env: Env, core: Core, attempts: nat): (Core, Result<Token, ServerError>)
    decreases attempts
  {
    if attempts == 0 then (core, Err(TokenExhausted))
    else
      var drawn := core.(draws := core.draws + 1);
      match env.tokens(core.draws)
      case None => (drawn, Err(RandomSource))
      case Some(token) =>
        if token != 0 && token !in core.sessions then (drawn, Ok(token))
        else AllocateSpec(env, drawn, attempts - 1)
  }

  predicate OpenAdmissible(decoded: Decoded) {
    && (decoded.presence.durationNs ==> decoded.params.durationNs > 0)
    && (decoded.presence.intervalNs ==> decoded.params.intervalNs > 0)
  }

  /** Whether a session on these terms could be served: stamps need a clock, replies must fit. */
  predicate Admissible(p: Params, config: Config) {
    && (p.stampAt != NoStamp ==> p.clock != Unspecified)
    && EchoPacketLen(config.hmacKey.Some?, p) <= config.maxPacketLength
  }

  function Unmarked(encoded: Result<seq<u8>, ProtoError>): Outcome {
    match encoded
    case Ok(bytes) => Ok(Some(Outbound(bytes, 0)))
    case Err(source) => Err(ReplyEncoding(source))
  }

  function HandleOpenSpec(env: Env, core: Core, noTest: bool, encoded: seq<u8>, d: Datagram): (Core, Outcome) {
    match DecodedFrom(encoded, NOTHING)
    case Err(_) => (core, Ok(None))
    case Ok(decoded) =>
      if !OpenAdmissible(decoded) then (core, Ok(None))
      else
        var (params, fill) := Settled(decoded.params, env.config);
        if !Admissible(params, env.config) then (core, Ok(None))
        else if noTest then
          (core, Unmarked(O.EncodeOpenReply(env.mac,
            O.OpenReply(Flags(true, true, true, false, 0), 0, params), env.config.hmacKey)))
        else if |core.sessions| >= env.config.maxSessions then (core, Ok(None))
        else
          match AllocateSpec(env, core, TOKEN_ATTEMPTS)
          case (drawn, Err(error)) => (drawn, Err(error))
          case (drawn, Ok(token)) =>
            var reply := O.EncodeOpenReply(env.mac,
              O.OpenReply(Flags(true, true, false, false, 0), token, params), env.config.hmacKey);
            var session := Opened(d.peer, params, fill, env.config, d.received.monoNs);
            (if reply.Ok? then drawn.(sessions := drawn.sessions[token := session]) else drawn, Unmarked(reply))
  }

  function HandleCloseSpec(core: Core, token: Token, peer: Endpoint): Core {
    if token in core.sessions && SameEndpoint(core.sessions[token].peer, peer)
    then core.(sessions := core.sessions - {token})
    else core
  }

  /** The request a datagram carries, if it is structurally valid and authentic here. */
  function Authenticated(env: Env, packet: seq<u8>): Option<Q.RequestKind> {
    match Q.DecodeRequest(packet)
    case Err(_) => None
    case Ok(request) =>
      if request.hmacPresent != env.config.hmacKey.Some? then None
      else if Verify(env.mac, env.config.hmacKey, packet).Err? then None
      else Some(request.kind)
  }

  function Dispatch(env: Env, core: Core, kind: Q.RequestKind, d: Datagram): (Core, Outcome) {
    match kind
    case OpenRequest(noTest, encoded) => HandleOpenSpec(env, core, noTest, encoded, d)
    case CloseRequest(token) => (HandleCloseSpec(core, token, d.peer), Ok(None))
    case EchoRequest(token, sequence, _) => HandleEchoSpec(env, core, token, sequence, d)
  }

  /** Every authentic request sweeps the table at its own instant, then is dispatched. */
  function Process(env: Env, core: Core, d: Datagram): (Core, Outcome) {
    match Authenticated(env, d.packet)
    case None => (core, Ok(None))
    case Some(kind) => Dispatch(env, Swept(env, core, d.received.monoNs), kind, d)
  }

  function Swept(env: Env, core: Core, nowNs: i64): Core {
    core.(sessions := Sweep(env.config, core.sessions, nowNs))
  }

  // ---------- the engine itself ----------

  class Engine {
    const env: Env
    var sessions: map<Token, Session>
    var draws: nat

    function State(): Core
      reads this
    {
      Core(sessions, draws)
    }

    constructor (env: Env)
      ensures this.env == env && State() == EMPTY_TABLE
    {
      this.env := env;
      sessions := map[];
      draws := 0;
    }

    method HandleDatagram(d: Datagram) returns (outcome: Outcome)
      modifies this
      ensures (State(), outcome) == Process(env, old(State()), d)
    {
      var request := Q.DecodeRequest(d.packet);
      if request.Err? {
        return Ok(None);
      }
      if request.value.hmacPresent != env.config.hmacKey.Some? {
        return Ok(None);
      }
      if env.config.hmacKey.Some? {
        var verified := Verify(env.mac, env.config.hmacKey, d.packet);
        if verified.Err? {
          return Ok(None);
        }
      }
      ReleaseExpired(d.received.monoNs);
      match request.value.kind {
        case OpenRequest(noTest, encoded) =>
          outcome := HandleOpen(noTest, encoded, d);
        case CloseRequest(token) =>
          HandleClose(token, d.peer);
          outcome := Ok(None);
        case EchoRequest(token, sequence, _) =>
          outcome := HandleEcho(token, sequence, d);
      }
    }

    method Maintain(nowNs: i64)
      modifies this
      ensures State() == Swept(env, old(State()), nowNs)
    {
      ReleaseExpired(nowNs);
    }

    /** Visits every session once, in any order: those idle too long go, and the rest stay as they
        are. */
    method ReleaseExpired(nowNs: i64)
      modifies this`sessions
      ensures forall t :: t in sessions <==>
                            && t in old(sessions)
                            && !old(sessions)[t].lifetime.IdleExpired(nowNs, SaturatingI64(env.config.idleTimeout))
      ensures forall t :: t in sessions ==> sessions[t] == old(sessions)[t]
      ensures State() == Swept(env, old(State()), nowNs)
    {
      var idleTimeoutNs := SaturatingI64(env.config.idleTimeout);
      var unvisited := sessions.Keys;
      while unvisited != {}
        invariant unvisited <= sessions.Keys
        invariant forall t :: t in sessions <==>
                    && t in old(sessions)
                    && (t in unvisited || !old(sessions)[t].lifetime.IdleExpired(nowNs, idleTimeoutNs))
        invariant forall t :: t in sessions ==> sessions[t] == old(sessions)[t]
        decreases unvisited
      {
        var t :| t in unvisited;
        unvisited := unvisited - {t};
        if sessions[t].lifetime.IdleExpired(nowNs, idleTimeoutNs) {
          sessions := sessions - {t};
        }
      }
    }

    method HandleEcho(token: Token, sequence: u32, d: Datagram) returns (outcome: Outcome)
      modifies this
      ensures (State(), outcome) == HandleEchoSpec(env, old(State()), token, sequence, d)
    {
      if |d.packet| > env.config.maxPacketLength || token !in sessions {
        return Ok(None);
      }
      var session := sessions[token];
      if !SameEndpoint(session.peer, d.peer) {
        return Ok(None);
      }
      var now := d.received.monoNs;
      var decision := session.rate.Charge(now);
      if decision.Limited? {
        sessions := sessions[token := session.(rate := decision.next, lifetime := session.lifetime.Refreshed(now))];
        return Ok(None);
      }
      var closing := Closing(env.config, session, now);
      var next := session.receive.Accepted(sequence);
      var lifetime := session.lifetime.Served(now);
      var reply := ReplyTo(env, session, token, sequence, d);
      var packet := E.EncodeEchoReply(env.mac, reply, session.params, env.config.hmacKey);
      if packet.Err? {
        return Err(ReplyEncoding(packet.error));
      }
      if closing {
        sessions := sessions - {token};
      } else {
        sessions := sessions[token := session.(rate := decision.next, receive := next, lifetime := lifetime)];
      }
      return Ok(Some(Outbound(packet.value, TransportTrafficClass(session.params))));
    }

    method HandleOpen(noTest: bool, encoded: seq<u8>, d: Datagram) returns (outcome: Outcome)
      modifies this
      ensures (State(), outcome) == HandleOpenSpec(env, old(State()), noTest, encoded, d)
    {
      var decoded := DecodeWithPresence(encoded);
      if decoded.Err? || !OpenAdmissible(decoded.value) {
        return Ok(None);
      }
      var negotiated := NegotiateParams(decoded.value.params, env.config);
      var params, fill := NegotiateServerFill(negotiated);
      if !Admissible(params, env.config) {
        return Ok(None);
      }
      if noTest {
        var reply := O.OpenReply(Flags(true, true, true, false, 0), 0, params);
        return Unmarked(O.EncodeOpenReply(env.mac, reply, env.config.hmacKey));
      }
      if |sessions| >= env.config.maxSessions {
        return Ok(None);
      }
      var token := AllocateToken();
      if token.Err? {
        return Err(token.error);
      }
      var reply := O.OpenReply(Flags(true, true, false, false, 0), token.value, params);
      var packet := O.EncodeOpenReply(env.mac, reply, env.config.hmacKey);
      if packet.Ok? {
        sessions := sessions[token.value := Opened(d.peer, params, fill, env.config, d.received.monoNs)];
      }
      return Unmarked(packet);
    }

    method HandleClose(token: Token, peer: Endpoint)
      modifies this
      ensures State() == HandleCloseSpec(old(State()), token, peer)
    {
      if token in sessions && SameEndpoint(sessions[token].peer, peer) {
        sessions := sessions - {token};
      }
    }

    method AllocateToken() returns (result: Result<Token, ServerError>)
      modifies this`draws
      ensures (State(), result) == AllocateSpec(env, old(State()), TOKEN_ATTEMPTS)
    {
      for attempt := 0 to TOKEN_ATTEMPTS
        invariant AllocateSpec(env, State(), TOKEN_ATTEMPTS - attempt) == AllocateSpec(env, old(State()), TOKEN_ATTEMPTS)
      {
        var drawn := env.tokens(draws);
        draws := draws + 1;
        if drawn.None? {
          return Err(RandomSource);
        }
        if drawn.value != 0 && drawn.value !in sessions {
          return Ok(drawn.value);
        }
      }
      return Err(TokenExhausted);
    }
  }
}
