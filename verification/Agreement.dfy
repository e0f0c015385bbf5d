/** Server and client agree, end to end, on the bytes they exchange. */
module Agreement {
  import opened Prelude
  import opened Params
  import opened Layout
  import opened Envelope
  import opened ServerConfig
  import opened Negotiate
  import opened Fill
  import opened Session
  import opened ServerCore
  import opened ServerInvariant
  import opened ServerRuns
  import E = Echo
  import O = Open
  import Q = Request

  /** The open reply a datagram was answered with, as the client decodes it. */
  function OpenAnswer(env: Env, core: Core, d: Datagram): Option<O.OpenReply> {
    match (Authenticated(env, d.packet), Process(env, core, d).1)
    case (Some(OpenRequest(_, _)), Ok(Some(o))) =>
      (match O.DecodeOpenReply(env.mac, o.bytes, env.config.hmacKey)
       case Ok(reply) => Some(reply)
       case Err(_) => None)
    case _ => None
  }

  /** Every answered open decodes at the client; a no-test answer has a zero token and changes
      nothing but the sweep, and any other names a session that did not exist, belongs to the
      requester's endpoint, holds exactly the parameters the client was told, and has its whole
      allowance, no echo received and its idle deadline counted from this instant. */
  lemma OpenAgreement(env: Env, core: Core, d: Datagram, nowNs: i64)
    requires CoreOk(env, core, nowNs) && nowNs <= d.received.monoNs && d.received.monoNs >= 0
    requires Authenticated(env, d.packet).Some? && Authenticated(env, d.packet).value.OpenRequest?
    requires Process(env, core, d).1.Ok? && Process(env, core, d).1.value.Some?
    ensures OpenAnswer(env, core, d).Some?
    ensures var kind, reply := Authenticated(env, d.packet).value, OpenAnswer(env, core, d).value;
            var before, after := Swept(env, core, d.received.monoNs), Process(env, core, d).0;
            if kind.noTest then reply.token == 0 && reply.flags.close && after == before
            else
              && reply.token != 0 && !reply.flags.close && reply.token !in before.sessions
              && reply.token in after.sessions
              && after.sessions == before.sessions[reply.token := after.sessions[reply.token]]
              && after.sessions[reply.token].peer == d.peer
              && after.sessions[reply.token].params == reply.params
              && var s := after.sessions[reply.token];
              && s == Opened(s.peer, s.params, s.fill, env.config, d.received.monoNs)
  {
    var kind := Authenticated(env, d.packet).value;
    var swept := Swept(env, core, d.received.monoNs);
    var decoded := DecodedFrom(kind.params, NOTHING).value;
    DecodeIsWellFormed(kind.params, NOTHING);
    var (params, fill) := Settled(decoded.params, env.config);
    FillIsHonest(NegotiatedParams(decoded.params, env.config));
    assert FillOk(params.serverFill);
    if kind.noTest {
      O.OpenReplyRoundTrip(env.mac, O.OpenReply(Flags(true, true, true, false, 0), 0, params), env.config.hmacKey);
    } else {
      AllocateFinds(env, swept, TOKEN_ATTEMPTS);
      var token := AllocateSpec(env, swept, TOKEN_ATTEMPTS).1.value;
      O.OpenReplyRoundTrip(env.mac, O.OpenReply(Flags(true, true, false, false, 0), token, params), env.config.hmacKey);
    }
  }

  /** `token` is in the table before every step of the run and after its last. */
  predicate Lives(env: Env, core: Core, actions: seq<Action>, token: Token)
    decreases |actions|
  {
    && token in core.sessions
    && (actions == [] || (token in AfterSweep(env, core, actions[0]).sessions
                          && Lives(env, Next(env, core, actions[0]), actions[1..], token)))
  }

  /** A session's endpoint, parameters and fill never change while it lives. */
  lemma {:induction false} TermsAreFixed(env: Env, core: Core, actions: seq<Action>, token: Token, nowNs: i64)
    requires CoreOk(env, core, nowNs) && 0 <= nowNs && Ordered(actions, nowNs)
    requires Lives(env, core, actions, token)
    ensures token in RunOf(env, core, actions).sessions
    ensures var before, after := core.sessions[token], RunOf(env, core, actions).sessions[token];
            after.params == before.params && after.peer == before.peer && after.fill == before.fill
    decreases |actions|
  {
    hide Process, CoreOk;
    if actions != [] {
      var a := actions[0];
      NextKeeps(env, core, a, nowNs);
      if Presented(env, core, a, token) {
        PresentedStep(env, core, a, token, nowNs);
      } else {
        UntouchedUnlessPresented(env, core, a, token);
      }
      TermsAreFixed(env, Next(env, core, a), actions[1..], token, a.Time());
    }
  }

  /** What the client decodes from the answer to its echo. */
  predicate Understood(env: Env, s: Session, token: Token, sequence: u32, d: Datagram, bytes: seq<u8>, p: Params) {
    var key := env.config.hmacKey;
    var sent := ReplyTo(env, s, token, sequence, d);
    && |bytes| == EchoPacketLen(key.Some?, p) <= env.config.maxPacketLength
    && E.ValidateEchoLength(|bytes|, p, Echo(key.Some?, p)) == Ok(false)
    && var decoded := E.DecodeEchoReply(env.mac, bytes, p, key);
       && decoded.Ok?
       && decoded.value.token == token && decoded.value.sequence == sequence
       && decoded.value.recvCount == sent.recvCount && decoded.value.recvWindow == sent.recvWindow
       && decoded.value.timestamps == sent.timestamps
       && decoded.value.flags.close == Closing(env.config, s, d.received.monoNs)
       && sent.payload <= decoded.value.payload
       && forall i :: |sent.payload| <= i < |decoded.value.payload| ==> decoded.value.payload[i] == 0
  }

  lemma ReplyIsUnderstood(env: Env, s: Session, token: Token, sequence: u32, d: Datagram)
    requires Admissible(s.params, env.config)
    ensures var encoded := E.EncodeEchoReply(env.mac, ReplyTo(env, s, token, sequence, d), s.params, env.config.hmacKey);
            encoded.Ok? && Understood(env, s, token, sequence, d, encoded.value, s.params)
  {
    var reply := ReplyTo(env, s, token, sequence, d);
    ReplyEncodes(env, s, token, sequence, d);
    hide E.EncodeEchoReply, E.DecodeEchoReply, Closing, Timestamps;
    E.EchoRoundTrip(env.mac, reply, s.params, env.config.hmacKey);
  }

  /** The whole conversation. A client opens; the run goes on; while its session lives, an echo it
      encodes from the parameters it was told is recognised, is short enough to be judged, and,
      if the allowance permits, is answered with exactly the negotiated number of bytes, from
      which the client decodes the same token, sequence number, statistics, timestamps and
      zero-filled payload, never through the two-midpoint form. */
  lemma Conversation(env: Env, core: Core, opening: Datagram, actions: seq<Action>, d: Datagram,
                     sequence: u32, payload: seq<u8>, nowNs: i64)
    requires CoreOk(env, core, nowNs) && 0 <= nowNs <= opening.received.monoNs
    requires OpenAnswer(env, core, opening).Some?
    requires !Authenticated(env, opening.packet).value.noTest
    requires var token := OpenAnswer(env, core, opening).value.token;
             Ordered(actions + [Receive(d)], opening.received.monoNs)
             && Lives(env, Process(env, core, opening).0, actions, token)
    requires SameEndpoint(opening.peer, d.peer)
    requires var reply := OpenAnswer(env, core, opening).value;
             var request := Q.EncodeRequest(env.mac, Q.EchoTo(reply.token, sequence, reply.params, payload), env.config.hmacKey);
             request == Ok(d.packet)
    requires var reply := OpenAnswer(env, core, opening).value;
             reply.token in Swept(env, RunOf(env, Process(env, core, opening).0, actions), d.received.monoNs).sessions
    ensures var reply := OpenAnswer(env, core, opening).value;
            var before := RunOf(env, Process(env, core, opening).0, actions);
            var outcome := Process(env, before, d).1;
            && reply.token in before.sessions
            && var s := before.sessions[reply.token];
            && Presented(env, before, Receive(d), reply.token)
            && outcome.Ok?
            && (outcome.value.Some? <==> s.rate.Charge(d.received.monoNs).Allowed?)
            && (outcome.value.Some? ==>
                  Understood(env, s, reply.token, sequence, d, outcome.value.value.bytes, reply.params))
  {
    hide Process, OpenAnswer, Q.EncodeRequest, CoreOk;
    var reply := OpenAnswer(env, core, opening).value;
    var start := Process(env, core, opening).0;
    var before := RunOf(env, start, actions);
    Opens(env, core, opening, nowNs);
    OrderedSplit(actions, Receive(d), opening.received.monoNs);
    TermsAreFixed(env, start, actions, reply.token, opening.received.monoNs);
    RunsKeep(env, start, actions, opening.received.monoNs);
    Recognised(env, reply.token, sequence, reply.params, payload, d);
    Answered(env, before, reply.token, sequence, d, EndTime(actions, opening.received.monoNs));
  }

  lemma Opens(env: Env, core: Core, d: Datagram, nowNs: i64)
    requires CoreOk(env, core, nowNs) && 0 <= nowNs <= d.received.monoNs
    requires OpenAnswer(env, core, d).Some? && !Authenticated(env, d.packet).value.noTest
    ensures CoreOk(env, Process(env, core, d).0, d.received.monoNs)
    ensures var reply, after := OpenAnswer(env, core, d).value, Process(env, core, d).0;
            && reply.token in after.sessions
            && after.sessions[reply.token].peer == d.peer && after.sessions[reply.token].params == reply.params
            && SessionOk(env.config, after.sessions[reply.token], d.received.monoNs)
            && var s := after.sessions[reply.token];
            && s == Opened(s.peer, s.params, s.fill, env.config, d.received.monoNs)
  {
    ProcessKeeps(env, core, d, nowNs);
    OpenAgreement(env, core, d, nowNs);
  }

  lemma {:induction false} OrderedSplit(actions: seq<Action>, last: Action, fromNs: i64)
    requires Ordered(actions + [last], fromNs)
    ensures Ordered(actions, fromNs) && EndTime(actions, fromNs) <= last.Time()
    ensures fromNs <= EndTime(actions, fromNs)
    decreases |actions|
  {
    if actions != [] {
      assert (actions + [last])[1..] == actions[1..] + [last];
      OrderedSplit(actions[1..], last, actions[0].Time());
    }
  }

  /** An echo encoded from negotiated parameters is seen by the server as that echo. */
  lemma Recognised(env: Env, token: Token, sequence: u32, p: Params, payload: seq<u8>, d: Datagram)
    requires Q.EncodeRequest(env.mac, Q.EchoTo(token, sequence, p, payload), env.config.hmacKey) == Ok(d.packet)
    ensures |d.packet| == EchoPacketLen(env.config.hmacKey.Some?, p)
    ensures match Authenticated(env, d.packet)
            case Some(EchoRequest(t, s, _)) => t == token && s == sequence
            case _ => false
  {
    Q.RequestRoundTrip(env.mac, Q.EchoTo(token, sequence, p, payload), env.config.hmacKey);
  }

  lemma Answered(env: Env, core: Core, token: Token, sequence: u32, d: Datagram, nowNs: i64)
    requires CoreOk(env, core, nowNs) && nowNs <= d.received.monoNs
    requires token in Swept(env, core, d.received.monoNs).sessions
    requires SameEndpoint(core.sessions[token].peer, d.peer)
    requires |d.packet| == EchoPacketLen(env.config.hmacKey.Some?, core.sessions[token].params)
    requires match Authenticated(env, d.packet)
             case Some(EchoRequest(t, s, _)) => t == token && s == sequence
             case _ => false
    ensures Presented(env, core, Receive(d), token)
    ensures var s, outcome := core.sessions[token], Process(env, core, d).1;
            && outcome.Ok?
            && (outcome.value.Some? <==> s.rate.Charge(d.received.monoNs).Allowed?)
            && (outcome.value.Some? ==>
                  Understood(env, s, token, sequence, d, outcome.value.value.bytes, s.params))
  {
    hide Understood, ReplyTo, E.EncodeEchoReply, CoreOk, Closing;
    var swept := Swept(env, core, d.received.monoNs);
    assert Process(env, core, d) == HandleEchoSpec(env, swept, token, sequence, d);
    hide Process;
    Judged(env, core, swept, token, sequence, d, nowNs);
  }

  lemma Judged(env: Env, core: Core, swept: Core, token: Token, sequence: u32, d: Datagram, nowNs: i64)
    requires CoreOk(env, core, nowNs) && nowNs <= d.received.monoNs
    requires swept == Swept(env, core, d.received.monoNs) && token in swept.sessions
    requires SameEndpoint(core.sessions[token].peer, d.peer)
    requires |d.packet| == EchoPacketLen(env.config.hmacKey.Some?, core.sessions[token].params)
    ensures Admitted(env.config, swept.sessions, token, d)
    ensures var s, outcome := core.sessions[token], HandleEchoSpec(env, swept, token, sequence, d).1;
            && outcome.Ok?
            && (outcome.value.Some? <==> s.rate.Charge(d.received.monoNs).Allowed?)
            && (outcome.value.Some? ==>
                  Understood(env, s, token, sequence, d, outcome.value.value.bytes, s.params))
  {
    ReplyIsUnderstood(env, core.sessions[token], token, sequence, d);
    hide Understood, ReplyTo, E.EncodeEchoReply, Closing;
  }
}
