/** A whole test at the advertised cadence, from the opening to the maximum-duration close
    (crates/irtt-server/src/core.rs, session.rs, negotiate.rs). */
module Cadence {
  import opened Prelude
  import opened Params
  import opened Envelope
  import opened Session
  import opened ServerCore
  import opened ServerInvariant
  import opened ServerRuns
  import opened Agreement
  import opened ReceiveWindow
  import S = ServedWindow
  import Q = Request

  /** The client at `peer` sends, in this step, an echo it encoded from the terms it was told. */
  ghost predicate Echoes(env: Env, a: Action, peer: Endpoint, token: Token, p: Params) {
    && a.Receive? && SameEndpoint(peer, a.d.peer)
    && exists sequence, payload ::
         Q.EncodeRequest(env.mac, Q.EchoTo(token, sequence, p, payload), env.config.hmacKey) == Ok(a.d.packet)
  }

  /** The step's echo is answered with a packet the client decodes to what the server meant. */
  ghost predicate AnsweredWell(env: Env, core: Core, a: Action, token: Token, p: Params) {
    && Presented(env, core, a, token) && token in core.sessions
    && var outcome := Process(env, core, a.d).1;
    && outcome.Ok? && outcome.value.Some?
    && Understood(env, core.sessions[token], token, Sequence(env, core, a, token), a.d, outcome.value.value.bytes, p)
  }

  /** The two ways a session kept alive may end: the reply that carries the maximum-duration close,
      or its owner's own close request. */
  predicate Ends(env: Env, core: Core, a: Action, token: Token)
    requires token in core.sessions
  {
    || (Presented(env, core, a, token) && Closing(env.config, core.sessions[token], a.Time()))
    || (&& a.Receive? && SameEndpoint(core.sessions[token].peer, a.d.peer)
        && match Authenticated(env, a.d.packet)
           case Some(CloseRequest(t)) => t == token
           case _ => false)
  }

  /** As long as the session lives, each of the client's echoes is answered well, and nothing but
      a close ends it. */
  ghost predicate ServedThroughout(env: Env, core: Core, actions: seq<Action>, peer: Endpoint, token: Token, p: Params)
    decreases |actions|
  {
    actions == [] || token !in core.sessions ||
    var a, next := actions[0], Next(env, core, actions[0]);
    && (Echoes(env, a, peer, token, p) ==> AnsweredWell(env, core, a, token, p))
    && (token in next.sessions || Ends(env, core, a, token))
    && ServedThroughout(env, next, actions[1..], peer, token, p)
  }

  /** Where a client at the advertised cadence stands: its last echo was judged at `last`, or none
      was, and its session is the one it was told of. */
  ghost predicate OnCadence(env: Env, core: Core, token: Token, peer: Endpoint, p: Params, last: Option<i64>, lastNs: i64)
  {
    && token in core.sessions
    && var s := core.sessions[token];
    && s.params == p && s.peer == peer && s.lifetime.lastActivityNs == lastNs
    && (last.Some? ==> last.value == lastNs) && PacedSession(s, last)
  }

  /** After the sweep only a close takes the session away. */
  lemma OnlyClosesEnd(env: Env, core: Core, a: Action, token: Token, nowNs: i64)
    requires CoreOk(env, core, nowNs) && nowNs <= a.Time() && token in core.sessions
    requires token in AfterSweep(env, core, a).sessions
    ensures token in Next(env, core, a).sessions || Ends(env, core, a, token)
  {
    if Presented(env, core, a, token) {
      hide Process, Closing;
      PresentedStep(env, core, a, token, nowNs);
    } else if a.Receive? && Authenticated(env, a.d.packet).Some? {
      hide Presented, Authenticated, HandleOpenSpec, HandleEchoSpec, HandleCloseSpec;
      DispatchKeeps(env, AfterSweep(env, core, a), Authenticated(env, a.d.packet).value, a.d, token);
    }
  }

  /** What a dispatched request that is not a judged echo for `token` may do to its session. */
  lemma DispatchKeeps(env: Env, swept: Core, kind: Q.RequestKind, d: Datagram, token: Token)
    requires token in swept.sessions
    requires kind.EchoRequest? && kind.token == token ==> !Admitted(env.config, swept.sessions, token, d)
    ensures token in Dispatch(env, swept, kind, d).0.sessions
         || (kind == Q.CloseRequest(token) && SameEndpoint(swept.sessions[token].peer, d.peer))
  {
    if kind.OpenRequest? {
      AllocateFinds(env, swept, TOKEN_ATTEMPTS);
    }
  }

  /** One judged echo, one interval after the last, is allowed and leaves the client on cadence. */
  lemma PacedStep(env: Env, core: Core, a: Action, token: Token, peer: Endpoint, p: Params,
                  last: Option<i64>, lastNs: i64, nowNs: i64)
    requires env.config.burstAllowance > 0
    requires CoreOk(env, core, nowNs) && 0 <= nowNs <= a.Time()
    requires OnCadence(env, core, token, peer, p, last, lastNs) && Presented(env, core, a, token)
    requires last.Some? ==> a.Time() - last.value >= p.intervalNs
    ensures core.sessions[token].rate.Charge(a.Time()).Allowed?
    ensures token in Next(env, core, a).sessions ==>
              OnCadence(env, Next(env, core, a), token, peer, p, Some(a.Time()), a.Time())
  {
    hide Process, CoreOk, Presented, Next, PacedSession;
    PresentedStep(env, core, a, token, nowNs);
    PacedCharge(env, core, a, token, last, nowNs);
  }

  /** An echo of the client's is judged and, being allowed, answered well. */
  lemma EchoAnswered(env: Env, core: Core, a: Action, token: Token, nowNs: i64)
    requires CoreOk(env, core, nowNs) && nowNs <= a.Time()
    requires token in AfterSweep(env, core, a).sessions && token in core.sessions
    requires Echoes(env, a, core.sessions[token].peer, token, core.sessions[token].params)
    requires Presented(env, core, a, token) ==> core.sessions[token].rate.Charge(a.Time()).Allowed?
    ensures AnsweredWell(env, core, a, token, core.sessions[token].params)
  {
    hide Process, CoreOk, Understood, Q.EncodeRequest;
    var p := core.sessions[token].params;
    var sequence, payload :|
      Q.EncodeRequest(env.mac, Q.EchoTo(token, sequence, p, payload), env.config.hmacKey) == Ok(a.d.packet);
    Recognised(env, token, sequence, p, payload, a.d);
    Answered(env, core, token, sequence, a.d, nowNs);
  }

  lemma {:induction false} PacedFrom(env: Env, core: Core, actions: seq<Action>, token: Token, peer: Endpoint, p: Params,
                                     last: Option<i64>, lastNs: i64, nowNs: i64)
    requires env.config.burstAllowance > 0 && 4 <= env.config.idleTimeout <= I64_MAX
    requires CoreOk(env, core, nowNs) && 0 <= nowNs && Ordered(actions, nowNs)
    requires token in core.sessions ==> OnCadence(env, core, token, peer, p, last, lastNs)
    requires Spaced(env, core, actions, token, last) && KeepsUp(env, core, actions, token, lastNs)
    ensures ServedThroughout(env, core, actions, peer, token, p)
    decreases |actions|
  {
    hide Process, CoreOk, Presented, Echoes, AnsweredWell, Ends, Next, AfterSweep;
    if actions != [] && token in core.sessions {
      var a, next := actions[0], Next(env, core, actions[0]);
      NextKeeps(env, core, a, nowNs);
      SurvivesSweep(env, core, a, token, nowNs);
      OnlyClosesEnd(env, core, a, token, nowNs);
      if Presented(env, core, a, token) {
        PacedStep(env, core, a, token, peer, p, last, lastNs, nowNs);
        PacedFrom(env, next, actions[1..], token, peer, p, Some(a.Time()), a.Time(), a.Time());
      } else {
        if token in next.sessions {
          UntouchedUnlessPresented(env, core, a, token);
        }
        PacedFrom(env, next, actions[1..], token, peer, p, last, lastNs, a.Time());
      }
      if Echoes(env, a, peer, token, p) {
        EchoAnswered(env, core, a, token, nowNs);
      }
    }
  }

  /** After an answered open for a real test, a client that echoes at the advertised interval, with
      the terms it was told, has every echo answered with a packet it understands until the session
      is closed; nothing else ends the session, whatever anyone else sends meanwhile. */
  lemma CadenceIsHonoured(env: Env, core: Core, opening: Datagram, actions: seq<Action>, nowNs: i64)
    requires env.config.burstAllowance > 0 && 4 <= env.config.idleTimeout <= I64_MAX
    requires CoreOk(env, core, nowNs) && 0 <= nowNs <= opening.received.monoNs
    requires OpenAnswer(env, core, opening).Some? && !Authenticated(env, opening.packet).value.noTest
    requires Ordered(actions, opening.received.monoNs)
    requires var token, start := OpenAnswer(env, core, opening).value.token, Process(env, core, opening).0;
             && Spaced(env, start, actions, token, None)
             && KeepsUp(env, start, actions, token, opening.received.monoNs)
    ensures var reply, start := OpenAnswer(env, core, opening).value, Process(env, core, opening).0;
            && reply.token in start.sessions
            && ServedThroughout(env, start, actions, opening.peer, reply.token, reply.params)
  {
    hide Process, OpenAnswer, CoreOk, Spaced, KeepsUp, ServedThroughout;
    var reply, start := OpenAnswer(env, core, opening).value, Process(env, core, opening).0;
    Opens(env, core, opening, nowNs);
    PacedFrom(env, start, actions, reply.token, opening.peer, reply.params, None,
              opening.received.monoNs, opening.received.monoNs);
  }

  /** What any later reply reports, counted from the opening itself. */
  lemma CountedFromTheOpening(env: Env, core: Core, opening: Datagram, actions: seq<Action>, sequence: u32, d: Datagram,
                              nowNs: i64, k: nat)
    requires CoreOk(env, core, nowNs) && 0 <= nowNs <= opening.received.monoNs && k < 64
    requires OpenAnswer(env, core, opening).Some? && !Authenticated(env, opening.packet).value.noTest
    requires var token, start := OpenAnswer(env, core, opening).value.token, Process(env, core, opening).0;
             token in RunOf(env, start, actions).sessions && NotReissued(env, start, actions, token)
    ensures var token, start := OpenAnswer(env, core, opening).value.token, Process(env, core, opening).0;
            var served := S.ServedBy(env, start, actions, token) + [sequence];
            var reply := ReplyTo(env, RunOf(env, start, actions).sessions[token], token, sequence, d);
            && (reply.recvCount.Some? ==> reply.recvCount.value == |served| % 0x1_0000_0000)
            && (reply.recvWindow.Some? ==> (Bit(reply.recvWindow.value, k) <==> SeenAt(served, k)))
  {
    hide Process, OpenAnswer, CoreOk, ReplyTo, RunOf, NotReissued, S.ServedBy, Bit, SeenAt;
    var token, start := OpenAnswer(env, core, opening).value.token, Process(env, core, opening).0;
    Opens(env, core, opening, nowNs);
    S.ReplyReportsTheServed(env, start, actions, token, sequence, d, k);
  }
}
