/** The opening handshake, from a client's request to what it accepts
    (crates/irtt-server/src/core.rs, crates/irtt-client/src/session/negotiation.rs). */
module Handshake {
  import opened Prelude
  import opened Params
  import opened Envelope
  import opened Negotiate
  import opened Fill
  import opened ServerCore
  import opened ServerInvariant
  import opened Agreement
  import C = ClientNegotiation
  import O = Open
  import Q = Request

  /** When the server, its table swept to `swept`, can grant an open for `q`. */
  predicate Granted(env: Env, swept: Core, q: Params, noTest: bool) {
    && Admissible(Settled(q, env.config).0, env.config)
    && (noTest || (|swept.sessions| < env.config.maxSessions && AllocateSpec(env, swept, TOKEN_ATTEMPTS).1.Ok?))
  }

  /** The server sees a valid client's open request as exactly its parameters, all admissible. */
  lemma OpenRecognised(env: Env, q: Params, noTest: bool, d: Datagram)
    requires C.ValidParams(q) && FillOk(q.serverFill)
    requires Q.EncodeRequest(env.mac, Q.OpenTo(q, noTest), env.config.hmacKey) == Ok(d.packet)
    ensures Authenticated(env, d.packet) == Some(Q.OpenRequest(noTest, Encoded(q)))
    ensures DecodedFrom(Encoded(q), NOTHING) == Ok(Decoded(q, Mentioned(q)))
    ensures OpenAdmissible(Decoded(q, Mentioned(q)))
  {
    Q.RequestRoundTrip(env.mac, Q.OpenTo(q, noTest), env.config.hmacKey);
    ParamsRoundTrip(q);
  }

  /** A valid open request is answered exactly when its settled parameters are admissible and, for
      a real test, there is room and a token; the answer carries the settled parameters, which a
      loose client always accepts and a strict one exactly when the server changed nothing. */
  lemma OpensAreAnsweredExactly(env: Env, core: Core, q: Params, noTest: bool, d: Datagram)
    requires C.ValidParams(q) && FillOk(q.serverFill)
    requires Q.EncodeRequest(env.mac, Q.OpenTo(q, noTest), env.config.hmacKey) == Ok(d.packet)
    ensures var answer, settled := OpenAnswer(env, core, d), Settled(q, env.config).0;
            && (answer.Some? <==> Granted(env, Swept(env, core, d.received.monoNs), q, noTest))
            && (answer.Some? ==>
                  && answer.value.params == settled && answer.value.flags.close == noTest
                  && C.Negotiate(q, answer.value.params, C.Loose).Ok?
                  && (C.Negotiate(q, answer.value.params, C.Strict).Ok? <==> settled == q))
  {
    hide HandleOpenSpec, HandleEchoSpec, HandleCloseSpec, Settled, Granted, O.DecodeOpenReply, Authenticated,
      C.Negotiate, Q.EncodeRequest, Encoded;
    var swept := Swept(env, core, d.received.monoNs);
    OpenRecognised(env, q, noTest, d);
    assert Process(env, core, d) == HandleOpenSpec(env, swept, noTest, Encoded(q), d);
    C.ServerIsAcceptable(q, env.config);
    GrantedReplies(env, swept, q, noTest, d);
  }

  /** The reply to a granted open decodes to the settled parameters. */
  lemma GrantedReplies(env: Env, swept: Core, q: Params, noTest: bool, d: Datagram)
    requires FillOk(q.serverFill)
    requires DecodedFrom(Encoded(q), NOTHING) == Ok(Decoded(q, Mentioned(q))) && OpenAdmissible(Decoded(q, Mentioned(q)))
    ensures var outcome := HandleOpenSpec(env, swept, noTest, Encoded(q), d).1;
            && (outcome.Ok? && outcome.value.Some? <==> Granted(env, swept, q, noTest))
            && (outcome.Ok? && outcome.value.Some? ==>
                  var reply := O.DecodeOpenReply(env.mac, outcome.value.value.bytes, env.config.hmacKey);
                  reply.Ok? && reply.value.params == Settled(q, env.config).0 && reply.value.flags.close == noTest)
  {
    hide Encoded, O.DecodeOpenReply, O.EncodeOpenReply, AllocateSpec, OpenAdmissible, Admissible;
    var params := Settled(q, env.config).0;
    FillIsHonest(NegotiatedParams(q, env.config));
    assert FillOk(params.serverFill);
    hide NegotiatedParams, NegotiateFill;
    AllocateFinds(env, swept, TOKEN_ATTEMPTS);
    O.OpenReplyRoundTrip(env.mac, O.OpenReply(Flags(true, true, true, false, 0), 0, params), env.config.hmacKey);
    match AllocateSpec(env, swept, TOKEN_ATTEMPTS).1 {
      case Ok(token) =>
        O.OpenReplyRoundTrip(env.mac, O.OpenReply(Flags(true, true, false, false, 0), token, params), env.config.hmacKey);
      case Err(_) =>
    }
  }
}
