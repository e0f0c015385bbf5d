/** What every step of the server keeps, and why none of its replies fails to encode. */
module ServerInvariant {
  import opened Prelude
  import opened Params
  import opened Layout
  import opened Envelope
  import opened ServerConfig
  import opened Negotiate
  import opened Fill
  import opened Session
  import opened ServerCore
  import E = Echo
  import O = Open
  import Q = Request
  import RateLimit

  /** A live session: its parameters are settled and executable, its fill is the one they
      settled on, its refill interval is no longer than the interval it advertised, and its
      instants are in order. */
  predicate SessionOk(config: Config, s: Session, nowNs: i64) {
    && Admissible(s.params, config)
    && FillOk(s.params.serverFill)
    && NegotiatedParams(s.params, config) == s.params
    && NegotiateFill(s.params) == (s.params, s.fill)
    && s.rate.Valid() && s.rate.burst == config.burstAllowance
    && s.rate.intervalNs == RateLimit.Opened(config, s.params.intervalNs, 0).intervalNs
    && s.rate.refilledAtNs <= s.lifetime.lastActivityNs <= nowNs
    && (s.lifetime.firstServedNs.Some? ==> 0 <= s.lifetime.firstServedNs.value <= s.lifetime.lastActivityNs)
  }

  predicate CoreOk(env: Env, core: Core, nowNs: i64) {
    && 0 !in core.sessions
    && |core.sessions| <= env.config.maxSessions
    && forall t :: t in core.sessions ==> SessionOk(env.config, core.sessions[t], nowNs)
  }

  // ---------- sizes ----------

  lemma {:induction false} SubsetSize<T>(a: set<T>, b: set<T>)
    requires a <= b
    ensures |a| <= |b|
  {
    if a != {} {
      var x :| x in a;
      SubsetSize(a - {x}, b - {x});
    }
  }

  lemma SmallerTable(a: map<Token, Session>, b: map<Token, Session>)
    requires a.Keys <= b.Keys
    ensures |a| <= |b|
  {
    SubsetSize(a.Keys, b.Keys);
    assert |a| == |a.Keys| && |b| == |b.Keys|;
  }

  lemma SweepKeeps(env: Env, core: Core, beforeNs: i64, nowNs: i64)
    requires CoreOk(env, core, beforeNs) && beforeNs <= nowNs
    ensures CoreOk(env, Swept(env, core, nowNs), nowNs)
  {
    SmallerTable(Swept(env, core, nowNs).sessions, core.sessions);
  }

  // ---------- replies encode ----------

  lemma TimestampsMatch(p: Params, received: ClockSample, sent: ClockSample, wallNs: i64, authenticated: bool)
    ensures var t, l := Timestamps(p, received, sent, wallNs), Echo(authenticated, p);
            && (t.recvWall.Some? <==> l.recvWall) && (t.recvMono.Some? <==> l.recvMono)
            && (t.midpointWall.Some? <==> l.midpointWall) && (t.midpointMono.Some? <==> l.midpointMono)
            && (t.sendWall.Some? <==> l.sendWall) && (t.sendMono.Some? <==> l.sendMono)
  {
  }

  lemma ReplyMatches(reply: E.EchoReply, l: EchoLayout)
    requires reply.recvCount.Some? <==> l.recvCount
    requires reply.recvWindow.Some? <==> l.recvWindow
    requires reply.timestamps.recvWall.Some? <==> l.recvWall
    requires reply.timestamps.recvMono.Some? <==> l.recvMono
    requires reply.timestamps.midpointWall.Some? <==> l.midpointWall
    requires reply.timestamps.midpointMono.Some? <==> l.midpointMono
    requires reply.timestamps.sendWall.Some? <==> l.sendWall
    requires reply.timestamps.sendMono.Some? <==> l.sendMono
    ensures E.Matches(reply, l)
  {
    TenAgree(E.FieldValues(reply), l.Slots());
  }

  predicate Agrees(value: Option<nat>, slot: Slot) {
    value.Some? <==> slot.present
  }

  lemma TenAgree(v: seq<Option<nat>>, s: seq<Slot>)
    requires |v| == |s| == 10
    requires Agrees(v[0], s[0]) && Agrees(v[1], s[1]) && Agrees(v[2], s[2]) && Agrees(v[3], s[3]) && Agrees(v[4], s[4])
    requires Agrees(v[5], s[5]) && Agrees(v[6], s[6]) && Agrees(v[7], s[7]) && Agrees(v[8], s[8]) && Agrees(v[9], s[9])
    ensures forall i :: 0 <= i < 10 ==> (v[i].Some? <==> s[i].present)
  {
    assert forall i :: 0 <= i < 10 ==> Agrees(v[i], s[i]);
  }

  /** Whatever was negotiated, the reply to an accepted echo encodes, to exactly the negotiated
      packet length. */
  lemma ReplyEncodes(env: Env, s: Session, token: Token, sequence: u32, d: Datagram)
    ensures E.Encodable(ReplyTo(env, s, token, sequence, d), s.params, env.config.hmacKey.Some?)
    ensures var encoded := E.EncodeEchoReply(env.mac, ReplyTo(env, s, token, sequence, d), s.params, env.config.hmacKey);
            encoded.Ok? && |encoded.value| == EchoPacketLen(env.config.hmacKey.Some?, s.params)
  {
    var reply := ReplyTo(env, s, token, sequence, d);
    TimestampsMatch(s.params, d.received, d.sent, PreferredReceiveWallNs(d.kernelWallNs, d.received),
                    env.config.hmacKey.Some?);
    ReplyMatches(reply, Echo(env.config.hmacKey.Some?, s.params));
    E.EncodesExactly(env.mac, reply, s.params, env.config.hmacKey);
  }

  // ---------- each handler keeps the invariant ----------

  lemma ChargeKeeps(s: RateLimit.RateState, nowNs: i64)
    requires s.Valid() && s.refilledAtNs <= nowNs
    ensures var next := s.Charge(nowNs).next;
            next.Valid() && next.burst == s.burst && next.intervalNs == s.intervalNs && next.refilledAtNs <= nowNs
  {
    if s.burst > 0 && s.intervalNs > 0 {
      RateLimit.ChargeBounds(s, nowNs, nowNs);
    }
  }

  lemma TableSizes(table: map<Token, Session>, token: Token, s: Session)
    ensures |table - {token}| <= |table|
    ensures |table[token := s]| == if token in table then |table| else |table| + 1
  {
    SmallerTable(table - {token}, table);
    assert table[token := s].Keys == table.Keys + {token};
  }

  lemma RemovalKeeps(env: Env, core: Core, token: Token, nowNs: i64)
    requires CoreOk(env, core, nowNs)
    ensures CoreOk(env, core.(sessions := core.sessions - {token}), nowNs)
  {
    SmallerTable(core.sessions - {token}, core.sessions);
  }

  lemma UpdateKeeps(env: Env, core: Core, token: Token, s: Session, nowNs: i64)
    requires CoreOk(env, core, nowNs) && token != 0 && SessionOk(env.config, s, nowNs)
    requires token in core.sessions || |core.sessions| < env.config.maxSessions
    ensures CoreOk(env, core.(sessions := core.sessions[token := s]), nowNs)
  {
    TableSizes(core.sessions, token, s);
  }

  /** After a judged echo, limited or served, the session is still good. */
  lemma JudgedSessionOk(config: Config, s: Session, sequence: u32, nowNs: i64)
    requires SessionOk(config, s, nowNs)
    ensures var next := s.rate.Charge(nowNs).next;
            && SessionOk(config, s.(rate := next, lifetime := s.lifetime.Refreshed(nowNs)), nowNs)
            && SessionOk(config, s.(rate := next, receive := s.receive.Accepted(sequence),
                                    lifetime := s.lifetime.Served(nowNs)), nowNs)
  {
    ChargeKeeps(s.rate, nowNs);
  }

  lemma EchoKeeps(env: Env, core: Core, token: Token, sequence: u32, d: Datagram)
    requires CoreOk(env, core, d.received.monoNs)
    ensures CoreOk(env, HandleEchoSpec(env, core, token, sequence, d).0, d.received.monoNs)
    ensures HandleEchoSpec(env, core, token, sequence, d).1.Ok?
  {
    var now := d.received.monoNs;
    if Admitted(env.config, core.sessions, token, d) {
      var s := core.sessions[token];
      ReplyEncodes(env, s, token, sequence, d);
      JudgedSessionOk(env.config, s, sequence, now);
      var next := s.rate.Charge(now).next;
      RemovalKeeps(env, core, token, now);
      UpdateKeeps(env, core, token, s.(rate := next, lifetime := s.lifetime.Refreshed(now)), now);
      UpdateKeeps(env, core, token,
        s.(rate := next, receive := s.receive.Accepted(sequence), lifetime := s.lifetime.Served(now)), now);
    }
  }

  lemma {:induction false} AllocateFinds(env: Env, core: Core, attempts: nat)
    ensures var (drawn, result) := AllocateSpec(env, core, attempts);
            && drawn.sessions == core.sessions
            && core.draws <= drawn.draws <= core.draws + attempts
            && match result {
                 case Ok(token) => token != 0 && token !in core.sessions
                 case Err(error) => error.RandomSource? || error.TokenExhausted?
               }
    decreases attempts
  {
    if attempts > 0 && env.tokens(core.draws).Some? {
      AllocateFinds(env, core.(draws := core.draws + 1), attempts - 1);
    }
  }

  /** A draw that cannot be issued. */
  predicate Unusable(env: Env, sessions: map<Token, Session>, draw: nat) {
    var drawn := env.tokens(draw);
    drawn.Some? && (drawn.value == 0 || drawn.value in sessions)
  }

  /** The issued token is the first usable draw; the random source's failure is reported as soon as
      it happens, and exhaustion exactly when every attempt was unusable. */
  lemma {:induction false} AllocateExactly(env: Env, core: Core, attempts: nat)
    ensures var (drawn, result) := AllocateSpec(env, core, attempts);
            var last := drawn.draws - 1;
            && core.draws <= drawn.draws <= core.draws + attempts
            && (forall n :: core.draws <= n < last ==> Unusable(env, core.sessions, n))
            && match result {
                 case Ok(token) =>
                   core.draws <= last && env.tokens(last) == Some(token) && !Unusable(env, core.sessions, last)
                 case Err(error) =>
                   if error.RandomSource? then core.draws <= last && env.tokens(last) == None
                   else drawn.draws == core.draws + attempts
                        && forall n :: core.draws <= n < drawn.draws ==> Unusable(env, core.sessions, n)
               }
    decreases attempts
  {
    if attempts > 0 {
      var n := core.draws;
      if Unusable(env, core.sessions, n) {
        AllocateExactly(env, core.(draws := n + 1), attempts - 1);
      }
    }
  }

  lemma NewSessionOk(config: Config, requested: Decoded, peer: Endpoint, nowNs: i64)
    requires WellDecoded(requested) && nowNs >= 0
    requires Admissible(Settled(requested.params, config).0, config)
    ensures var (p, fill) := Settled(requested.params, config);
            SessionOk(config, Opened(peer, p, fill, config, nowNs), nowNs)
  {
    SettledIsIdempotent(requested.params, config);
    FillIsHonest(NegotiatedParams(requested.params, config));
  }

  lemma DrawnKeeps(env: Env, core: Core, drawn: Core, nowNs: i64)
    requires CoreOk(env, core, nowNs) && drawn.sessions == core.sessions
    ensures CoreOk(env, drawn, nowNs)
  {
  }

  lemma OpenKeeps(env: Env, core: Core, noTest: bool, encoded: seq<u8>, d: Datagram)
    requires CoreOk(env, core, d.received.monoNs) && d.received.monoNs >= 0
    ensures CoreOk(env, HandleOpenSpec(env, core, noTest, encoded, d).0, d.received.monoNs)
    ensures var outcome := HandleOpenSpec(env, core, noTest, encoded, d).1;
            outcome.Err? ==> outcome.error.RandomSource? || outcome.error.TokenExhausted?
  {
    hide CoreOk, Admissible, O.EncodeOpenReply, O.DecodeOpenReply, NegotiatedParams, NegotiateFill, SessionOk,
      OpenAdmissible;
    if DecodedFrom(encoded, NOTHING).Ok? {
      var decoded := DecodedFrom(encoded, NOTHING).value;
      DecodeIsWellFormed(encoded, NOTHING);
      var (params, fill) := Settled(decoded.params, env.config);
      AllocateFinds(env, core, TOKEN_ATTEMPTS);
      O.OpenReplyRoundTrip(env.mac, O.OpenReply(Flags(true, true, true, false, 0), 0, params), env.config.hmacKey);
      DrawnKeeps(env, core, AllocateSpec(env, core, TOKEN_ATTEMPTS).0, d.received.monoNs);
      if Admissible(params, env.config) {
        NewSessionOk(env.config, decoded, d.peer, d.received.monoNs);
        match AllocateSpec(env, core, TOKEN_ATTEMPTS) {
          case (drawn, Ok(token)) =>
            O.OpenReplyRoundTrip(env.mac, O.OpenReply(Flags(true, true, false, false, 0), token, params), env.config.hmacKey);
            if |core.sessions| < env.config.maxSessions {
              UpdateKeeps(env, drawn, token, Opened(d.peer, params, fill, env.config, d.received.monoNs), d.received.monoNs);
            }
          case (_, Err(_)) =>
        }
      }
    }
  }

  lemma CloseKeeps(env: Env, core: Core, token: Token, peer: Endpoint, nowNs: i64)
    requires CoreOk(env, core, nowNs)
    ensures CoreOk(env, HandleCloseSpec(core, token, peer), nowNs)
  {
    RemovalKeeps(env, core, token, nowNs);
  }

  /** Every step from a good table leaves a good table: tokens are non-zero, the table is within
      capacity and every session is executable as advertised; and a step fails only when the
      token source does. */
  lemma ProcessKeeps(env: Env, core: Core, d: Datagram, beforeNs: i64)
    requires CoreOk(env, core, beforeNs) && beforeNs <= d.received.monoNs && d.received.monoNs >= 0
    ensures CoreOk(env, Process(env, core, d).0, d.received.monoNs)
    ensures var outcome := Process(env, core, d).1;
            outcome.Err? ==> outcome.error.RandomSource? || outcome.error.TokenExhausted?
  {
    var now := d.received.monoNs;
    SweepKeeps(env, core, beforeNs, now);
    var swept := Swept(env, core, now);
    match Authenticated(env, d.packet) {
      case None =>
      case Some(kind) =>
        match kind {
          case OpenRequest(noTest, encoded) => OpenKeeps(env, swept, noTest, encoded, d);
          case CloseRequest(token) => CloseKeeps(env, swept, token, d.peer, now);
          case EchoRequest(token, sequence, _) => EchoKeeps(env, swept, token, sequence, d);
        }
    }
  }

  /** A session is touched only by its own endpoint's requests for its own token: whatever else
      arrives, if the sweep keeps it, it stays exactly as it was. */
  lemma OthersLeaveItAlone(env: Env, core: Core, d: Datagram, token: Token)
    requires token in Swept(env, core, d.received.monoNs).sessions
    requires !Names(env, core.sessions[token].peer, d, token)
    ensures token in Process(env, core, d).0.sessions
    ensures Process(env, core, d).0.sessions[token] == core.sessions[token]
  {
    var swept := Swept(env, core, d.received.monoNs);
    match Authenticated(env, d.packet) {
      case None =>
      case Some(kind) =>
        hide Authenticated, HandleOpenSpec, HandleEchoSpec, HandleCloseSpec, Swept;
        DispatchLeaves(env, swept, kind, d, token);
    }
  }

  /** A dispatched request changes no session but the one it names for its owner. */
  lemma DispatchLeaves(env: Env, swept: Core, kind: Q.RequestKind, d: Datagram, token: Token)
    requires token in swept.sessions
    requires !(&& SameEndpoint(swept.sessions[token].peer, d.peer)
               && ((kind.EchoRequest? && kind.token == token) || (kind.CloseRequest? && kind.token == token)))
    ensures token in Dispatch(env, swept, kind, d).0.sessions
    ensures Dispatch(env, swept, kind, d).0.sessions[token] == swept.sessions[token]
  {
    if kind.OpenRequest? {
      AllocateFinds(env, swept, TOKEN_ATTEMPTS);
    }
  }

  /** An authentic echo or close request for `token` from its owner. */
  predicate Names(env: Env, owner: Endpoint, d: Datagram, token: Token) {
    match Authenticated(env, d.packet)
    case None => false
    case Some(kind) =>
      && SameEndpoint(owner, d.peer)
      && ((kind.EchoRequest? && kind.token == token) || (kind.CloseRequest? && kind.token == token))
  }
}
