/** Properties of whole runs of the server: any sequence of datagrams and maintenance sweeps at
    nondecreasing instants. */
module ServerRuns {
  import opened Prelude
  import opened Params
  import opened Layout
  import opened Envelope
  import opened ServerConfig
  import opened Negotiate
  import opened Session
  import opened ServerCore
  import opened ServerInvariant
  import E = Echo
  import RateLimit

  datatype Action = Receive(d: Datagram) | Maintenance(atNs: i64) {
    function Time(): i64 {
      match this case Receive(d) => d.received.monoNs case Maintenance(t) => t
    }
  }

  function Next(env: Env, core: Core, a: Action): Core {
    match a
    case Receive(d) => Process(env, core, d).0
    case Maintenance(t) => Swept(env, core, t)
  }

  function RunOf(env: Env, core: Core, actions: seq<Action>): Core
    decreases |actions|
  {
    if actions == [] then core else RunOf(env, Next(env, core, actions[0]), actions[1..])
  }

  /** What the received datagrams are answered with. */
  function Outcomes(env: Env, core: Core, actions: seq<Action>): seq<Outcome>
    decreases |actions|
  {
    if actions == [] then []
    else
      (if actions[0].Receive? then [Process(env, core, actions[0].d).1] else [])
      + Outcomes(env, Next(env, core, actions[0]), actions[1..])
  }

  predicate Ordered(actions: seq<Action>, fromNs: i64) {
    actions == [] || (fromNs <= actions[0].Time() && Ordered(actions[1..], actions[0].Time()))
  }

  function EndTime(actions: seq<Action>, nowNs: i64): i64 {
    if actions == [] then nowNs else EndTime(actions[1..], actions[0].Time())
  }

  // ---------- maintenance is invisible ----------

  function WithoutMaintenance(actions: seq<Action>): seq<Action> {
    if actions == [] then []
    else (if actions[0].Receive? then [actions[0]] else []) + WithoutMaintenance(actions[1..])
  }

  lemma SweepTwice(config: Config, table: map<Token, Session>, t: i64, u: i64)
    requires t <= u
    ensures Sweep(config, Sweep(config, table, t), u) == Sweep(config, table, u)
  {
  }

  lemma LaterSweepsAgree(env: Env, a: Core, b: Core, t: i64, u: i64)
    requires t <= u && Swept(env, a, t) == Swept(env, b, t)
    ensures Swept(env, a, u) == Swept(env, b, u)
  {
    SweepTwice(env.config, a.sessions, t, u);
    SweepTwice(env.config, b.sessions, t, u);
  }

  /** Two tables that agree on the sessions not yet expired answer alike, and agree again. */
  lemma {:induction false} MaintenanceSimulation(env: Env, a: Core, b: Core, actions: seq<Action>, nowNs: i64)
    requires Swept(env, a, nowNs) == Swept(env, b, nowNs) && Ordered(actions, nowNs)
    ensures Outcomes(env, a, actions) == Outcomes(env, b, WithoutMaintenance(actions))
    ensures RunOf(env, a, actions).draws == RunOf(env, b, WithoutMaintenance(actions)).draws
    decreases |actions|
  {
    if actions != [] {
      var head, rest := actions[0], actions[1..];
      var t := head.Time();
      LaterSweepsAgree(env, a, b, nowNs, t);
      var a' := Next(env, a, head);
      match head {
        case Maintenance(_) =>
          SweepTwice(env.config, a.sessions, t, t);
          MaintenanceSimulation(env, a', b, rest, t);
          assert WithoutMaintenance(actions) == WithoutMaintenance(rest);
        case Receive(d) =>
          var b' := Next(env, b, head);
          assert Authenticated(env, d.packet).Some? ==> a' == b';
          MaintenanceSimulation(env, a', b', rest, t);
          assert WithoutMaintenance(actions)[0] == head;
          assert WithoutMaintenance(actions)[1..] == WithoutMaintenance(rest);
      }
    }
  }

  /** However maintenance sweeps are interleaved with the datagrams of a run, every reply, every
      token drawn and every capacity decision is the same as with no maintenance at all. */
  lemma MaintenanceIsInvisible(env: Env, core: Core, actions: seq<Action>, nowNs: i64)
    requires Ordered(actions, nowNs)
    ensures Outcomes(env, core, actions) == Outcomes(env, core, WithoutMaintenance(actions))
    ensures RunOf(env, core, actions).draws == RunOf(env, core, WithoutMaintenance(actions)).draws
  {
    MaintenanceSimulation(env, core, core, actions, nowNs);
  }

  // ---------- good tables stay good ----------

  lemma NextKeeps(env: Env, core: Core, a: Action, nowNs: i64)
    requires CoreOk(env, core, nowNs) && 0 <= nowNs <= a.Time()
    ensures CoreOk(env, Next(env, core, a), a.Time())
  {
    match a {
      case Receive(d) => ProcessKeeps(env, core, d, nowNs);
      case Maintenance(t) => SweepKeeps(env, core, nowNs, t);
    }
  }

  /** From a good table, every run stays good and no outcome is ever an encoding failure. */
  lemma {:induction false} RunsKeep(env: Env, core: Core, actions: seq<Action>, nowNs: i64)
    requires CoreOk(env, core, nowNs) && 0 <= nowNs && Ordered(actions, nowNs)
    ensures forall o :: o in Outcomes(env, core, actions) ==> o.Err? ==> !o.error.ReplyEncoding?
    ensures CoreOk(env, RunOf(env, core, actions), EndTime(actions, nowNs))
    decreases |actions|
  {
    if actions != [] {
      NextKeeps(env, core, actions[0], nowNs);
      if actions[0].Receive? {
        ProcessKeeps(env, core, actions[0].d, nowNs);
      }
      RunsKeep(env, Next(env, core, actions[0]), actions[1..], actions[0].Time());
    }
  }

  /** The server starts with a good table, so no run of it ever fails to encode a reply. */
  lemma RunsFromTheStart(env: Env, actions: seq<Action>)
    requires Ordered(actions, 0)
    ensures CoreOk(env, EMPTY_TABLE, 0)
    ensures CoreOk(env, RunOf(env, EMPTY_TABLE, actions), EndTime(actions, 0))
    ensures forall o :: o in Outcomes(env, EMPTY_TABLE, actions) ==> o.Err? ==> !o.error.ReplyEncoding?
  {
    RunsKeep(env, EMPTY_TABLE, actions, 0);
  }

  // ---------- one token's life ----------

  /** The table an action's own work starts from: swept, unless the datagram is not authentic. */
  function AfterSweep(env: Env, core: Core, a: Action): Core {
    if a.Receive? && Authenticated(env, a.d.packet).None? then core else Swept(env, core, a.Time())
  }

  lemma SweepOnlyDrops(env: Env, core: Core, a: Action, token: Token)
    ensures token in AfterSweep(env, core, a).sessions ==> token in core.sessions
  {
  }

  /** No step of the run issues `token` anew. */
  predicate NotReissued(env: Env, core: Core, actions: seq<Action>, token: Token)
    decreases |actions|
  {
    actions == []
    || (&& (token in Next(env, core, actions[0]).sessions ==> token in AfterSweep(env, core, actions[0]).sessions)
        && NotReissued(env, Next(env, core, actions[0]), actions[1..], token))
  }

  /** An authentic echo for `token` from its owner, short enough to be judged. */
  predicate Presented(env: Env, core: Core, a: Action, token: Token) {
    && a.Receive?
    && match Authenticated(env, a.d.packet)
       case Some(EchoRequest(t, _, _)) => t == token && Admitted(env.config, AfterSweep(env, core, a).sessions, token, a.d)
       case _ => false
  }

  function Sequence(env: Env, core: Core, a: Action, token: Token): u32
    requires Presented(env, core, a, token)
  {
    Authenticated(env, a.d.packet).value.sequence
  }

  /** A step that is not a presented echo leaves a surviving session's state as it was. */
  lemma UntouchedUnlessPresented(env: Env, core: Core, a: Action, token: Token)
    requires token in AfterSweep(env, core, a).sessions && token in Next(env, core, a).sessions
    requires !Presented(env, core, a, token)
    ensures token in core.sessions && Next(env, core, a).sessions[token] == core.sessions[token]
  {
    if a.Receive? && Authenticated(env, a.d.packet).Some? {
      var kind := Authenticated(env, a.d.packet).value;
      if kind.OpenRequest? {
        AllocateFinds(env, AfterSweep(env, core, a), TOKEN_ATTEMPTS);
      }
    }
  }

  // ---------- the advertised cadence is honoured ----------

  /** Consecutive presented echoes are at least the session's negotiated interval apart. */
  predicate Spaced(env: Env, core: Core, actions: seq<Action>, token: Token, last: Option<i64>)
    decreases |actions|
  {
    actions == [] ||
    var a, next := actions[0], Next(env, core, actions[0]);
    if Presented(env, core, a, token) then
      && (last.Some? ==> a.Time() - last.value >= core.sessions[token].params.intervalNs)
      && Spaced(env, next, actions[1..], token, Some(a.Time()))
    else Spaced(env, next, actions[1..], token, last)
  }

  /** Some presented echo of the run is not answered. */
  predicate SomeLimited(env: Env, core: Core, actions: seq<Action>, token: Token)
    decreases |actions|
  {
    && actions != []
    && (|| (Presented(env, core, actions[0], token)
            && !(Process(env, core, actions[0].d).1.Ok? && Process(env, core, actions[0].d).1.value.Some?))
        || SomeLimited(env, Next(env, core, actions[0]), actions[1..], token))
  }

  /** The server refills at least as fast as the interval it advertised. */
  lemma RefillsAsAdvertised(config: Config, s: Session, nowNs: i64)
    requires SessionOk(config, s, nowNs)
    ensures s.rate.intervalNs <= Max(s.params.intervalNs, 0)
  {
    IntervalBounds(s.params.intervalNs, config);
  }

  lemma PresentedStep(env: Env, core: Core, a: Action, token: Token, nowNs: i64)
    requires CoreOk(env, core, nowNs) && nowNs <= a.Time()
    requires Presented(env, core, a, token)
    ensures var s, outcome := core.sessions[token], Process(env, core, a.d).1;
            var decision := s.rate.Charge(a.Time());
            && token in core.sessions
            && outcome.Ok?
            && (outcome.value.Some? <==> decision.Allowed?)
            && (token in Next(env, core, a).sessions ==>
                  var n := Next(env, core, a).sessions[token];
                  && n.params == s.params && n.peer == s.peer && n.fill == s.fill && n.rate == decision.next
                  && n.lifetime == if decision.Allowed? then s.lifetime.Served(a.Time()) else s.lifetime.Refreshed(a.Time()))
            && (token in Next(env, core, a).sessions <==> decision.Limited? || !Closing(env.config, s, a.Time()))
  {
    ReplyEncodes(env, core.sessions[token], token, Sequence(env, core, a, token), a.d);
  }

  /** A session whose last judged echo came at `last`, or which has not been charged since its
      allowance was full. */
  predicate PacedSession(s: Session, last: Option<i64>) {
    if last.Some? then s.rate.refilledAtNs <= last.value else s.rate.allowance == s.rate.burst
  }

  lemma LiveIsOk(env: Env, core: Core, token: Token, nowNs: i64)
    requires CoreOk(env, core, nowNs) && token in core.sessions
    ensures SessionOk(env.config, core.sessions[token], nowNs)
  {
  }

  /** One judged echo, an interval or more after the last, is allowed and leaves the session paced. */
  lemma PacedCharge(env: Env, core: Core, a: Action, token: Token, last: Option<i64>, nowNs: i64)
    requires env.config.burstAllowance > 0
    requires CoreOk(env, core, nowNs) && 0 <= nowNs <= a.Time() && Presented(env, core, a, token)
    requires token in core.sessions && PacedSession(core.sessions[token], last)
    requires last.Some? ==> a.Time() - last.value >= core.sessions[token].params.intervalNs
    ensures core.sessions[token].rate.Charge(a.Time()).Allowed?
    ensures token in Next(env, core, a).sessions ==> PacedSession(Next(env, core, a).sessions[token], Some(a.Time()))
  {
    hide Process, CoreOk, Presented, Next, RateLimit.RateState.Charge;
    var s := core.sessions[token];
    LiveIsOk(env, core, token, nowNs);
    PresentedStep(env, core, a, token, nowNs);
    RefillsAsAdvertised(env.config, s, nowNs);
    RateLimit.PacedIsAllowed(s.rate, if last.Some? then Min(last.value, a.Time()) else nowNs, a.Time());
  }

  lemma {:induction false} SpacedIsServed(env: Env, core: Core, actions: seq<Action>, token: Token,
                                          last: Option<i64>, nowNs: i64)
    requires env.config.burstAllowance > 0
    requires CoreOk(env, core, nowNs) && 0 <= nowNs && Ordered(actions, nowNs)
    requires NotReissued(env, core, actions, token) && Spaced(env, core, actions, token, last)
    requires token in core.sessions ==> PacedSession(core.sessions[token], last)
    ensures !SomeLimited(env, core, actions, token)
    decreases |actions|
  {
    hide Process, CoreOk, PacedSession, Next, AfterSweep;
    if actions != [] {
      var a, next := actions[0], Next(env, core, actions[0]);
      NextKeeps(env, core, a, nowNs);
      if Presented(env, core, a, token) {
        PresentedStep(env, core, a, token, nowNs);
        PacedCharge(env, core, a, token, last, nowNs);
        SpacedIsServed(env, next, actions[1..], token, Some(a.Time()), a.Time());
      } else {
        if token in next.sessions {
          UntouchedUnlessPresented(env, core, a, token);
        }
        SpacedIsServed(env, next, actions[1..], token, last, a.Time());
      }
    }
  }

  /** With a burst of at least one, a client whose echoes are at least its negotiated interval
      apart is never rate-limited, whatever anyone else sends. */
  lemma AdvertisedPaceIsServed(env: Env, core: Core, actions: seq<Action>, token: Token, nowNs: i64)
    requires env.config.burstAllowance > 0
    requires CoreOk(env, core, nowNs) && 0 <= nowNs && Ordered(actions, nowNs)
    requires token in core.sessions
    requires var s := core.sessions[token]; s == Opened(s.peer, s.params, s.fill, env.config, nowNs)
    requires NotReissued(env, core, actions, token) && Spaced(env, core, actions, token, None)
    ensures !SomeLimited(env, core, actions, token)
  {
    SpacedIsServed(env, core, actions, token, None, nowNs);
  }

  /** The client of `token` never lets more than its negotiated interval pass without an echo. */
  predicate KeepsUp(env: Env, core: Core, actions: seq<Action>, token: Token, lastNs: i64)
    decreases |actions|
  {
    actions == [] || token !in core.sessions ||
    (&& actions[0].Time() - lastNs <= core.sessions[token].params.intervalNs
     && KeepsUp(env, Next(env, core, actions[0]), actions[1..], token,
                if Presented(env, core, actions[0], token) then actions[0].Time() else lastNs))
  }

  /** Some sweep of the run drops `token`. */
  predicate SomeExpiry(env: Env, core: Core, actions: seq<Action>, token: Token)
    decreases |actions|
  {
    && actions != []
    && (|| (token in core.sessions && token !in AfterSweep(env, core, actions[0]).sessions)
        || SomeExpiry(env, Next(env, core, actions[0]), actions[1..], token))
  }

  /** A session that keeps up survives the sweep of the next step. */
  lemma SurvivesSweep(env: Env, core: Core, a: Action, token: Token, nowNs: i64)
    requires 4 <= env.config.idleTimeout <= I64_MAX
    requires CoreOk(env, core, nowNs) && 0 <= nowNs <= a.Time() && token in core.sessions
    requires a.Time() - core.sessions[token].lifetime.lastActivityNs <= core.sessions[token].params.intervalNs
    ensures token in AfterSweep(env, core, a).sessions
  {
    IntervalBounds(core.sessions[token].params.intervalNs, env.config);
  }

  /** With a usable idle timeout, a client whose gaps are at most its negotiated interval is
      never idle-expired, whatever anyone else sends, even when the idle cap pulled that interval
      below the configured minimum. */
  lemma {:induction false} AdvertisedPaceKeepsAlive(env: Env, core: Core, actions: seq<Action>, token: Token,
                                                    lastNs: i64, nowNs: i64)
    requires 4 <= env.config.idleTimeout <= I64_MAX
    requires CoreOk(env, core, nowNs) && 0 <= nowNs && Ordered(actions, nowNs)
    requires token in core.sessions ==> core.sessions[token].lifetime.lastActivityNs == lastNs
    requires NotReissued(env, core, actions, token) && KeepsUp(env, core, actions, token, lastNs)
    ensures !SomeExpiry(env, core, actions, token)
    decreases |actions|
  {
    hide Process, CoreOk, Next, AfterSweep;
    if actions != [] {
      var a, next := actions[0], Next(env, core, actions[0]);
      NextKeeps(env, core, a, nowNs);
      if token in core.sessions {
        SurvivesSweep(env, core, a, token, nowNs);
        if Presented(env, core, a, token) {
          PresentedStep(env, core, a, token, nowNs);
          AdvertisedPaceKeepsAlive(env, next, actions[1..], token, a.Time(), a.Time());
        } else {
          if token in next.sessions {
            UntouchedUnlessPresented(env, core, a, token);
          }
          AdvertisedPaceKeepsAlive(env, next, actions[1..], token, lastNs, a.Time());
        }
      } else {
        SweepOnlyDrops(env, core, a, token);
        AdvertisedPaceKeepsAlive(env, next, actions[1..], token, lastNs, a.Time());
      }
    }
  }

  // ---------- the maximum-duration close ----------

  /** One echo reply: when its request arrived and whether the packet carries the Close flag. */
  datatype Reply = Reply(atNs: i64, close: bool)

  function CloseFlag(packet: seq<u8>): bool {
    |packet| >= HEADER_SIZE && FlagsOf(packet[3]).close
  }

  /** The replies a run gives to echo requests for `token`. */
  function Replies(env: Env, core: Core, actions: seq<Action>, token: Token): seq<Reply>
    decreases |actions|
  {
    if actions == [] then []
    else ReplyAt(env, core, actions[0], token) + Replies(env, Next(env, core, actions[0]), actions[1..], token)
  }

  function ReplyAt(env: Env, core: Core, a: Action, token: Token): seq<Reply> {
    match a
    case Maintenance(_) => []
    case Receive(d) =>
      match (Authenticated(env, d.packet), Process(env, core, d).1)
      case (Some(EchoRequest(t, _, _)), Ok(Some(o))) => if t == token then [Reply(a.Time(), CloseFlag(o.bytes))] else []
      case _ => []
  }

  /** The Close flag on the wire is the closing decision. */
  lemma FlagIsDecision(env: Env, s: Session, token: Token, sequence: u32, d: Datagram)
    ensures var encoded := E.EncodeEchoReply(env.mac, ReplyTo(env, s, token, sequence, d), s.params, env.config.hmacKey);
            encoded.Ok? && CloseFlag(encoded.value) == Closing(env.config, s, d.received.monoNs)
  {
    var reply := ReplyTo(env, s, token, sequence, d);
    ReplyEncodes(env, s, token, sequence, d);
    hide Closing, E.EncodeEchoReply;
    E.Sealed(env.mac, reply, s.params, env.config.hmacKey);
  }

  lemma ReplyOnlyWhenServed(env: Env, core: Core, a: Action, token: Token)
    ensures if Presented(env, core, a, token) && core.sessions[token].rate.Charge(a.Time()).Allowed?
            then ReplyAt(env, core, a, token) == [Reply(a.Time(), Closing(env.config, core.sessions[token], a.Time()))]
            else ReplyAt(env, core, a, token) == []
  {
    if Presented(env, core, a, token) {
      FlagIsDecision(env, core.sessions[token], token, Sequence(env, core, a, token), a.d);
    }
    hide Closing, E.EncodeEchoReply, ReplyTo, CloseFlag;
  }

  /** A token not in the table is answered with silence until it is issued again. */
  lemma {:induction false} ReleasedIsSilent(env: Env, core: Core, actions: seq<Action>, token: Token, nowNs: i64)
    requires CoreOk(env, core, nowNs) && 0 <= nowNs && Ordered(actions, nowNs)
    requires token !in core.sessions && NotReissued(env, core, actions, token)
    ensures Replies(env, core, actions, token) == []
    ensures token !in RunOf(env, core, actions).sessions
    decreases |actions|
  {
    if actions != [] {
      NextKeeps(env, core, actions[0], nowNs);
      ReplyOnlyWhenServed(env, core, actions[0], token);
      ReleasedIsSilent(env, Next(env, core, actions[0]), actions[1..], token, actions[0].Time());
    }
  }

  /** When the first echo was served: before the run, or by its first reply. */
  function Origin(first: Option<i64>, replies: seq<Reply>): i64
    requires first.Some? || replies != []
  {
    if first.Some? then first.value else replies[0].atNs
  }

  predicate ClosesOnce(config: Config, first: Option<i64>, replies: seq<Reply>) {
    forall i :: 0 <= i < |replies| ==>
      if replies[i].close then
        && i == |replies| - 1 && config.maxTestDuration.Some? && (first.Some? || i > 0)
        && replies[i].atNs >= Min(Origin(first, replies) + config.maxTestDuration.value + CLOSE_GRACE_NS, I64_MAX)
      else config.maxTestDuration.Some? ==>
        replies[i].atNs < Origin(first, replies) + config.maxTestDuration.value + CLOSE_GRACE_NS
  }

  lemma ClosesOnceExtends(config: Config, first: Option<i64>, head: Reply, rest: seq<Reply>)
    requires ClosesOnce(config, Some(if first.Some? then first.value else head.atNs), rest)
    requires if head.close then
               && rest == [] && config.maxTestDuration.Some? && first.Some?
               && head.atNs >= Min(first.value + config.maxTestDuration.value + CLOSE_GRACE_NS, I64_MAX)
             else config.maxTestDuration.Some? && first.Some? ==>
               head.atNs < first.value + config.maxTestDuration.value + CLOSE_GRACE_NS
    ensures ClosesOnce(config, first, [head] + rest)
  {
    var all := [head] + rest;
    assert Origin(first, all) == if first.Some? then first.value else head.atNs;
    forall i | 0 < i < |all| ensures all[i] == rest[i - 1] {
    }
  }

  /** What one step does to a token's replies and to the origin of its deadline. */
  lemma DurationStep(env: Env, core: Core, a: Action, token: Token, nowNs: i64)
    requires CoreOk(env, core, nowNs) && nowNs <= a.Time() && token in core.sessions
    requires token in Next(env, core, a).sessions ==> token in AfterSweep(env, core, a).sessions
    ensures var s := core.sessions[token];
            var next, replies := Next(env, core, a).sessions, ReplyAt(env, core, a, token);
            || (replies == [] && (token in next ==> next[token].lifetime.firstServedNs == s.lifetime.firstServedNs))
            || (&& replies == [Reply(a.Time(), Closing(env.config, s, a.Time()))]
                && (token in next <==> !Closing(env.config, s, a.Time()))
                && (token in next ==> next[token].lifetime.firstServedNs == s.lifetime.Served(a.Time()).firstServedNs))
  {
    ReplyOnlyWhenServed(env, core, a, token);
    hide Process, ReplyAt, Closing;
    if Presented(env, core, a, token) {
      PresentedStep(env, core, a, token, nowNs);
    } else if token in Next(env, core, a).sessions {
      UntouchedUnlessPresented(env, core, a, token);
    }
  }

  /** The closing decision against the deadline, in unsaturated time. */
  lemma ClosingIsDeadline(env: Env, core: Core, token: Token, beforeNs: i64, nowNs: i64)
    requires CoreOk(env, core, beforeNs) && token in core.sessions
    ensures var config, s := env.config, core.sessions[token];
            var first := s.lifetime.firstServedNs;
            if Closing(config, s, nowNs) then
              && config.maxTestDuration.Some? && first.Some?
              && nowNs >= Min(first.value + config.maxTestDuration.value + CLOSE_GRACE_NS, I64_MAX)
            else config.maxTestDuration.Some? && first.Some? ==>
              nowNs < first.value + config.maxTestDuration.value + CLOSE_GRACE_NS
  {
    hide CoreOk;
    LiveIsOk(env, core, token, beforeNs);
  }

  /** Over any run in which `token` is not reissued: its replies are unflagged ones, all served
      before first-served + maximum + 2 s, then at most one close-flagged reply, no earlier than
      that deadline, which releases the session; a rate-limited echo starts nothing; and without
      a configured maximum no reply is ever flagged. */
  lemma {:induction false} MaximumDurationCloses(env: Env, core: Core, actions: seq<Action>, token: Token, nowNs: i64)
    requires CoreOk(env, core, nowNs) && 0 <= nowNs && Ordered(actions, nowNs)
    requires token in core.sessions && NotReissued(env, core, actions, token)
    ensures var replies := Replies(env, core, actions, token);
            && ClosesOnce(env.config, core.sessions[token].lifetime.firstServedNs, replies)
            && (replies != [] && replies[|replies| - 1].close ==> token !in RunOf(env, core, actions).sessions)
    decreases |actions|
  {
    hide Process, ReplyAt, Closing, Next, ClosesOnce, CoreOk, AfterSweep;
    if actions == [] {
      assert ClosesOnce(env.config, core.sessions[token].lifetime.firstServedNs, []) by {
        NoReplies(env.config, core.sessions[token].lifetime.firstServedNs);
      }
    } else {
      var a, next := actions[0], Next(env, core, actions[0]);
      var s := core.sessions[token];
      var rest := Replies(env, next, actions[1..], token);
      NextKeeps(env, core, a, nowNs);
      DurationStep(env, core, a, token, nowNs);
      ClosingIsDeadline(env, core, token, nowNs, a.Time());
      if token in next.sessions {
        MaximumDurationCloses(env, next, actions[1..], token, a.Time());
      } else {
        ReleasedIsSilent(env, next, actions[1..], token, a.Time());
        NoReplies(env.config, s.lifetime.firstServedNs);
        NoReplies(env.config, s.lifetime.Served(a.Time()).firstServedNs);
      }
      if ReplyAt(env, core, a, token) == [] {
        assert Replies(env, core, actions, token) == rest;
      } else {
        ClosesOnceExtends(env.config, s.lifetime.firstServedNs, ReplyAt(env, core, a, token)[0], rest);
      }
    }
  }

  lemma NoReplies(config: Config, first: Option<i64>)
    ensures ClosesOnce(config, first, [])
  {
  }
}
