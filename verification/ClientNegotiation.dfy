/** The client's side of negotiation (crates/irtt-client/src/session/negotiation.rs and the
    request validation of session/machine.rs). */
module ClientNegotiation {
  import opened Prelude
  import opened Params
  import opened ServerConfig
  import N = Negotiate
  import F = Fill

  const MAX_DSCP_CODEPOINT := 63
  const MAX_UDP_PAYLOAD_LENGTH := 65_507

  // ---------- the request ----------

  /** Durations are nanoseconds; a descriptor is its UTF-8 bytes. */
  datatype SessionRequest = SessionRequest(
    duration: Option<nat>,
    interval: nat,
    length: u32,
    receivedStats: ReceivedStats,
    stampAt: StampAt,
    clock: Clock,
    dscp: u8,
    serverFill: Option<seq<u8>>)

  datatype ConfigError =
    | ZeroDuration | ZeroInterval | ClockUnspecified | DscpTooLarge | LengthTooLarge
    | FillEmpty | FillTooLong | TooLongInNanoseconds

  function ValidateRequest(r: SessionRequest): Result<(), ConfigError> {
    if r.duration == Some(0) then Err(ZeroDuration)
    else if r.interval == 0 then Err(ZeroInterval)
    else if r.clock.Unspecified? then Err(ClockUnspecified)
    else if r.dscp > MAX_DSCP_CODEPOINT then Err(DscpTooLarge)
    else if r.length > MAX_UDP_PAYLOAD_LENGTH then Err(LengthTooLarge)
    else if r.serverFill == Some([]) then Err(FillEmpty)
    else if r.serverFill.Some? && |r.serverFill.value| > MAX_SERVER_FILL_BYTES then Err(FillTooLong)
    else Ok(())
  }

  function Nanoseconds(duration: nat): Result<i64, ConfigError> {
    if duration > I64_MAX then Err(TooLongInNanoseconds) else Ok(duration)
  }

  function ParamsFromRequest(r: SessionRequest): Result<Params, ConfigError> {
    var _ :- ValidateRequest(r);
    var duration :- Nanoseconds(r.duration.GetOr(0));
    var interval :- Nanoseconds(r.interval);
    Ok(Params(PROTOCOL_VERSION, duration, interval, r.length, r.receivedStats, r.stampAt, r.clock,
              r.dscp * 4, r.serverFill))
  }

  /** What a validated request's parameters satisfy. */
  predicate ValidParams(p: Params) {
    && p.protocolVersion == PROTOCOL_VERSION
    && p.durationNs >= 0 && p.intervalNs > 0
    && 0 <= p.length <= MAX_UDP_PAYLOAD_LENGTH
    && p.clock != Unspecified
    && 0 <= p.dscp <= 4 * MAX_DSCP_CODEPOINT && p.dscp % 4 == 0
    && (p.serverFill.Some? ==> 0 < |p.serverFill.value| <= MAX_SERVER_FILL_BYTES)
  }

  /** Requests that pass validation are exactly those that make valid parameters, and every valid
      set of parameters is some request's. */
  lemma ValidParamsExactly(p: Params)
    ensures ValidParams(p) <==> exists r :: ParamsFromRequest(r) == Ok(p)
  {
    if ValidParams(p) {
      var r := SessionRequest(if p.durationNs == 0 then None else Some(p.durationNs), p.intervalNs, p.length,
                              p.receivedStats, p.stampAt, p.clock, p.dscp / 4, p.serverFill);
      assert ParamsFromRequest(r) == Ok(p);
    }
  }

  // ---------- negotiation ----------

  datatype Policy = Strict | Loose

  datatype Change =
    | DurationReduced(requestedDuration: Option<nat>, negotiatedDuration: nat)
    | IntervalIncreased(requestedNs: nat, negotiatedNs: nat)
    | IntervalReduced(requestedNs: nat, negotiatedNs: nat)
    | LengthReduced(requestedLength: u32, negotiatedLength: u32)
    | ReceivedStatsChanged(requestedStats: ReceivedStats, negotiatedStats: ReceivedStats)
    | StampAtChanged(requestedStamp: StampAt, negotiatedStamp: StampAt)
    | ClockChanged(requestedClock: Clock, negotiatedClock: Clock)
    | DscpChanged(requestedDscp: u8, negotiatedDscp: u8)
    | ServerFillChanged(requestedFill: Option<seq<u8>>, negotiatedFill: Option<seq<u8>>)

  datatype Accepted = Accepted(
    duration: Option<nat>,
    interval: nat,
    length: u32,
    receivedStats: ReceivedStats,
    stampAt: StampAt,
    clock: Clock,
    dscp: u8,
    serverFill: Option<seq<u8>>)

  datatype Negotiated = Negotiated(accepted: Accepted, peerParams: Params, changes: seq<Change>)

  datatype Refusal =
    | VersionMismatch(received: i64)
    | DurationNegative | DurationContinuous | DurationIncreased
    | LengthNegative | LengthIncreased
    | IntervalNotPositive
    | DscpOutOfRange | DscpUnsupported
    | StrictChange(change: Change)

  function FiniteDuration(nanos: i64): Option<nat>
    requires nanos >= 0
  {
    if nanos == 0 then None else Some(nanos)
  }

  /** The checks on the returned numbers alone. */
  function Validate(requested: Params, returned: Params): (refusal: Option<Refusal>)
    ensures refusal.None? ==> returned.durationNs >= 0 && returned.length >= 0 && returned.intervalNs > 0
                              && 0 <= returned.dscp <= 255
  {
    if returned.protocolVersion != PROTOCOL_VERSION then Some(VersionMismatch(returned.protocolVersion))
    else if returned.durationNs < 0 then Some(DurationNegative)
    else if requested.durationNs > 0 && returned.durationNs == 0 then Some(DurationContinuous)
    else if requested.durationNs > 0 && returned.durationNs > requested.durationNs then Some(DurationIncreased)
    else if returned.length < 0 then Some(LengthNegative)
    else if returned.length > requested.length then Some(LengthIncreased)
    else if returned.intervalNs <= 0 then Some(IntervalNotPositive)
    else if !(0 <= returned.dscp <= 255) then Some(DscpOutOfRange)
    else None
  }

  /** Records a change if there is one; under the strict policy any change is an error. */
  method RecordChange(policy: Policy, present: bool, change: Change, changes: seq<Change>)
    returns (r: Result<seq<Change>, Refusal>)
    ensures r == if present && policy.Strict? then Err(StrictChange(change)) else Ok(changes + When(present, change))
  {
    if !present {
      assert changes + [] == changes;
      return Ok(changes);
    }
    if policy == Strict {
      return Err(StrictChange(change));
    }
    return Ok(changes + [change]);
  }

  function When<T>(present: bool, value: T): seq<T> {
    if present then [value] else []
  }

  function TimingChanges(q: Params, r: Params): seq<Change>
    requires ValidParams(q) && Validate(q, r).None?
  {
    When(r.durationNs < q.durationNs || (q.durationNs == 0 && r.durationNs > 0),
         DurationReduced(FiniteDuration(q.durationNs), r.durationNs))
    + When(r.intervalNs > q.intervalNs, IntervalIncreased(q.intervalNs, r.intervalNs))
    + When(r.intervalNs < q.intervalNs, IntervalReduced(q.intervalNs, r.intervalNs))
  }

  function ReportChanges(q: Params, r: Params): seq<Change>
    requires ValidParams(q) && Validate(q, r).None?
  {
    TimingChanges(q, r)
    + When(r.length < q.length, LengthReduced(q.length, r.length))
    + When(r.receivedStats != q.receivedStats, ReceivedStatsChanged(q.receivedStats, r.receivedStats))
  }

  /** The differences up to the clock, in the order they are recorded. */
  function EarlyChanges(q: Params, r: Params): seq<Change>
    requires ValidParams(q) && Validate(q, r).None?
  {
    ReportChanges(q, r)
    + When(r.stampAt != q.stampAt, StampAtChanged(q.stampAt, r.stampAt))
    + When(r.clock != q.clock, ClockChanged(q.clock, r.clock))
  }

  function LateChanges(q: Params, r: Params): seq<Change>
    requires ValidParams(q) && Validate(q, r).None?
  {
    When(r.dscp == 0 && q.dscp != 0, DscpChanged(q.dscp / 4, r.dscp / 4))
    + When(r.serverFill != q.serverFill, ServerFillChanged(q.serverFill, r.serverFill))
  }

  function AcceptedOf(r: Params): Accepted
    requires r.durationNs >= 0 && 0 <= r.length <= MAX_UDP_PAYLOAD_LENGTH && r.intervalNs > 0 && 0 <= r.dscp <= 255
  {
    Accepted(FiniteDuration(r.durationNs), r.intervalNs, r.length, r.receivedStats, r.stampAt, r.clock,
             r.dscp / 4, r.serverFill)
  }

  /** What the client makes of the parameters a server returned to a valid request. */
  function Negotiate(q: Params, r: Params, policy: Policy): Result<Negotiated, Refusal>
    requires ValidParams(q)
  {
    if Validate(q, r).Some? then Err(Validate(q, r).value)
    else
      var early := EarlyChanges(q, r);
      if policy.Strict? && early != [] then Err(StrictChange(early[0]))
      else if r.dscp != q.dscp && r.dscp != 0 then Err(DscpUnsupported)
      else
        var late := LateChanges(q, r);
        if policy.Strict? && late != [] then Err(StrictChange(late[0]))
        else Ok(Negotiated(AcceptedOf(r), r, early + late))
  }

  /** The client's own order of checks; its conversions cannot trip for a valid request. */
  method NegotiateParams(q: Params, r: Params, policy: Policy) returns (result: Result<Negotiated, Refusal>)
    requires ValidParams(q)
    ensures result == Negotiate(q, r, policy)
  {
    hide EarlyChanges, Judged;
    var refusal := Validate(q, r);
    if refusal.Some? {
      return Err(refusal.value);
    }
    RecordedEarly(q, r, policy);
    var changes :- RecordEarly(q, r, policy);
    if r.dscp != q.dscp && r.dscp != 0 {
      return Err(DscpUnsupported);
    }
    var early := changes;
    changes :- RecordChange(policy, r.dscp == 0 && q.dscp != 0, DscpChanged(q.dscp / 4, r.dscp / 4), changes);
    changes :- RecordChange(policy, r.serverFill != q.serverFill,
                            ServerFillChanged(q.serverFill, r.serverFill), changes);
    assert changes == early + LateChanges(q, r);
    return Ok(Negotiated(AcceptedOf(r), r, changes));
  }

  /** What a policy makes of the changes found so far: strict stops at the first. */
  function Judged(policy: Policy, changes: seq<Change>): Result<seq<Change>, Refusal> {
    if policy.Strict? && changes != [] then Err(StrictChange(changes[0])) else Ok(changes)
  }

  lemma RecordedEarly(q: Params, r: Params, policy: Policy)
    requires ValidParams(q) && Validate(q, r).None?
    ensures var early := EarlyChanges(q, r);
            Judged(policy, early) == if policy.Strict? && early != [] then Err(StrictChange(early[0])) else Ok(early)
  {
  }

  method RecordTiming(q: Params, r: Params, policy: Policy) returns (result: Result<seq<Change>, Refusal>)
    requires ValidParams(q) && Validate(q, r).None?
    ensures result == Judged(policy, TimingChanges(q, r))
  {
    var changes :- RecordChange(policy, r.durationNs < q.durationNs || (q.durationNs == 0 && r.durationNs > 0),
                                DurationReduced(FiniteDuration(q.durationNs), r.durationNs), []);
    assert changes == When(r.durationNs < q.durationNs || (q.durationNs == 0 && r.durationNs > 0),
                           DurationReduced(FiniteDuration(q.durationNs), r.durationNs));
    changes :- RecordChange(policy, r.intervalNs > q.intervalNs, IntervalIncreased(q.intervalNs, r.intervalNs), changes);
    changes :- RecordChange(policy, r.intervalNs < q.intervalNs, IntervalReduced(q.intervalNs, r.intervalNs), changes);
    return Ok(changes);
  }

  method RecordReports(q: Params, r: Params, policy: Policy, found: seq<Change>)
    returns (result: Result<seq<Change>, Refusal>)
    requires ValidParams(q) && Validate(q, r).None?
    requires found == TimingChanges(q, r) && (policy.Strict? ==> found == [])
    ensures result == Judged(policy, ReportChanges(q, r))
  {
    hide TimingChanges;
    var changes :- RecordChange(policy, r.length < q.length, LengthReduced(q.length, r.length), found);
    changes :- RecordChange(policy, r.receivedStats != q.receivedStats,
                            ReceivedStatsChanged(q.receivedStats, r.receivedStats), changes);
    return Ok(changes);
  }

  method RecordEarly(q: Params, r: Params, policy: Policy) returns (result: Result<seq<Change>, Refusal>)
    requires ValidParams(q) && Validate(q, r).None?
    ensures result == Judged(policy, EarlyChanges(q, r))
  {
    hide TimingChanges;
    var changes :- RecordTiming(q, r, policy);
    changes :- RecordReports(q, r, policy, changes);
    hide ReportChanges;
    changes :- RecordChange(policy, r.stampAt != q.stampAt, StampAtChanged(q.stampAt, r.stampAt), changes);
    changes :- RecordChange(policy, r.clock != q.clock, ClockChanged(q.clock, r.clock), changes);
    return Ok(changes);
  }

  // ---------- exactly what each policy accepts ----------

  /** Strict accepts exactly the request's own parameters, and records nothing. */
  lemma StrictAcceptsOnlyTheRequest(q: Params, r: Params)
    requires ValidParams(q)
    ensures Negotiate(q, r, Strict).Ok? <==> r == q
    ensures Negotiate(q, r, Strict).Ok? ==> Negotiate(q, r, Strict).value.changes == []
  {
  }

  /** Returned parameters a loose client can live with. */
  predicate Acceptable(q: Params, r: Params) {
    && r.protocolVersion == PROTOCOL_VERSION
    && (if q.durationNs == 0 then r.durationNs >= 0 else 0 < r.durationNs <= q.durationNs)
    && 0 <= r.length <= q.length
    && r.intervalNs > 0
    && (r.dscp == 0 || r.dscp == q.dscp)
  }

  /** Loose accepts exactly what is acceptable, and records no change exactly when nothing changed. */
  lemma LooseAcceptsTheAcceptable(q: Params, r: Params)
    requires ValidParams(q)
    ensures Negotiate(q, r, Loose).Ok? <==> Acceptable(q, r)
    ensures Negotiate(q, r, Loose).Ok? ==>
              (Negotiate(q, r, Loose).value.changes == [] <==> r == q)
  {
  }

  datatype Aspect = OfDuration | OfInterval | OfLength | OfStats | OfStamp | OfClock | OfDscp | OfFill

  function AspectOf(change: Change): Aspect {
    match change
    case DurationReduced(_, _) => OfDuration
    case IntervalIncreased(_, _) => OfInterval
    case IntervalReduced(_, _) => OfInterval
    case LengthReduced(_, _) => OfLength
    case ReceivedStatsChanged(_, _) => OfStats
    case StampAtChanged(_, _) => OfStamp
    case ClockChanged(_, _) => OfClock
    case DscpChanged(_, _) => OfDscp
    case ServerFillChanged(_, _) => OfFill
  }

  predicate Differs(q: Params, r: Params, aspect: Aspect) {
    match aspect
    case OfDuration => r.durationNs != q.durationNs
    case OfInterval => r.intervalNs != q.intervalNs
    case OfLength => r.length != q.length
    case OfStats => r.receivedStats != q.receivedStats
    case OfStamp => r.stampAt != q.stampAt
    case OfClock => r.clock != q.clock
    case OfDscp => r.dscp != q.dscp
    case OfFill => r.serverFill != q.serverFill
  }

  function Rank(aspect: Aspect): nat {
    match aspect
    case OfDuration => 0
    case OfInterval => 1
    case OfLength => 2
    case OfStats => 3
    case OfStamp => 4
    case OfClock => 5
    case OfDscp => 6
    case OfFill => 7
  }

  ghost predicate Records(changes: seq<Change>, aspect: Aspect) {
    exists i :: 0 <= i < |changes| && AspectOf(changes[i]) == aspect
  }

  /** The changes are of exactly the differing aspects ranked below `n`, one each. */
  ghost predicate Covers(q: Params, r: Params, changes: seq<Change>, n: nat) {
    && (forall a :: Records(changes, a) <==> Rank(a) < n && Differs(q, r, a))
    && forall i, j :: 0 <= i < j < |changes| ==> AspectOf(changes[i]) != AspectOf(changes[j])
  }

  lemma CoversNext(q: Params, r: Params, changes: seq<Change>, present: bool, change: Change)
    requires Covers(q, r, changes, Rank(AspectOf(change)))
    requires present <==> Differs(q, r, AspectOf(change))
    ensures Covers(q, r, changes + When(present, change), Rank(AspectOf(change)) + 1)
  {
    var longer, n := changes + When(present, change), Rank(AspectOf(change));
    forall a ensures Records(longer, a) <==> Rank(a) < n + 1 && Differs(q, r, a) {
      if Records(changes, a) {
        var i :| 0 <= i < |changes| && AspectOf(changes[i]) == a;
        assert longer[i] == changes[i];
      }
      if present {
        assert longer[|changes|] == change;
      }
      assert Rank(a) == n <==> a == AspectOf(change);
    }
    forall i, j | 0 <= i < j < |longer| ensures AspectOf(longer[i]) != AspectOf(longer[j]) {
      assert j == |changes| ==> Records(changes, AspectOf(longer[i]));
    }
  }

  /** A loose client records a change for exactly the aspects that differ, each once. */
  lemma ChangesAreTheDifferences(q: Params, r: Params, aspect: Aspect)
    requires ValidParams(q) && Negotiate(q, r, Loose).Ok?
    ensures var changes := Negotiate(q, r, Loose).value.changes;
            && (Records(changes, aspect) <==> Differs(q, r, aspect))
            && forall i, j :: 0 <= i < j < |changes| ==> AspectOf(changes[i]) != AspectOf(changes[j])
  {
    hide Negotiate, Covers, EarlyChanges, Validate, Records;
    LooseChanges(q, r);
    EarlyCovered(q, r);
    var early := EarlyChanges(q, r);
    var c := Next(q, r, early, r.dscp == 0 && q.dscp != 0, DscpChanged(q.dscp / 4, r.dscp / 4));
    c := Next(q, r, c, r.serverFill != q.serverFill, ServerFillChanged(q.serverFill, r.serverFill));
    assert c == early + LateChanges(q, r);
    CoversAll(q, r, c, aspect);
  }

  /** What a loose client records. */
  lemma LooseChanges(q: Params, r: Params)
    requires ValidParams(q) && Negotiate(q, r, Loose).Ok?
    ensures Acceptable(q, r) && Validate(q, r).None?
    ensures Negotiate(q, r, Loose).value.changes == EarlyChanges(q, r) + LateChanges(q, r)
  {
    hide EarlyChanges, LateChanges;
  }

  lemma EarlyCovered(q: Params, r: Params)
    requires ValidParams(q) && Negotiate(q, r, Loose).Ok?
    ensures Covers(q, r, EarlyChanges(q, r), 6)
  {
    hide Covers, ReportChanges, Negotiate, Validate;
    LooseChanges(q, r);
    ReportsCovered(q, r);
    var c := ReportChanges(q, r);
    c := Next(q, r, c, r.stampAt != q.stampAt, StampAtChanged(q.stampAt, r.stampAt));
    c := Next(q, r, c, r.clock != q.clock, ClockChanged(q.clock, r.clock));
    assert c == EarlyChanges(q, r);
  }

  lemma ReportsCovered(q: Params, r: Params)
    requires ValidParams(q) && Negotiate(q, r, Loose).Ok?
    ensures Covers(q, r, ReportChanges(q, r), 4)
  {
    hide Covers, TimingChanges, Negotiate, Validate;
    LooseChanges(q, r);
    IntervalCovered(q, r);
    var c := TimingChanges(q, r);
    c := Next(q, r, c, r.length < q.length, LengthReduced(q.length, r.length));
    c := Next(q, r, c, r.receivedStats != q.receivedStats, ReceivedStatsChanged(q.receivedStats, r.receivedStats));
    assert c == ReportChanges(q, r);
  }

  lemma IntervalCovered(q: Params, r: Params)
    requires ValidParams(q) && Negotiate(q, r, Loose).Ok?
    ensures Covers(q, r, TimingChanges(q, r), 2)
  {
    CoversStart(q, r);
    hide Covers;
    var up, down := IntervalIncreased(q.intervalNs, r.intervalNs), IntervalReduced(q.intervalNs, r.intervalNs);
    var d := When(r.durationNs < q.durationNs || (q.durationNs == 0 && r.durationNs > 0),
                  DurationReduced(FiniteDuration(q.durationNs), r.durationNs));
    var c := Next(q, r, [], r.durationNs < q.durationNs || (q.durationNs == 0 && r.durationNs > 0),
                  DurationReduced(FiniteDuration(q.durationNs), r.durationNs));
    assert c == d;
    c := Next(q, r, c, r.intervalNs != q.intervalNs, if r.intervalNs > q.intervalNs then up else down);
    assert c == TimingChanges(q, r);
  }

  lemma Next(q: Params, r: Params, changes: seq<Change>, present: bool, change: Change) returns (longer: seq<Change>)
    requires Covers(q, r, changes, Rank(AspectOf(change)))
    requires present <==> Differs(q, r, AspectOf(change))
    ensures longer == changes + When(present, change)
    ensures Covers(q, r, longer, Rank(AspectOf(change)) + 1)
  {
    longer := changes + When(present, change);
    CoversNext(q, r, changes, present, change);
  }

  lemma CoversStart(q: Params, r: Params)
    ensures Covers(q, r, [], 0)
  {
  }

  lemma CoversAll(q: Params, r: Params, changes: seq<Change>, aspect: Aspect)
    requires Covers(q, r, changes, 8)
    ensures Records(changes, aspect) <==> Differs(q, r, aspect)
    ensures forall i, j :: 0 <= i < j < |changes| ==> AspectOf(changes[i]) != AspectOf(changes[j])
  {
  }

  // ---------- against this server ----------

  /** Whatever its configuration, what the server settles on for a valid request is acceptable to
      a loose client, and acceptable to a strict one exactly when the server changed nothing. */
  lemma ServerIsAcceptable(q: Params, config: Config)
    requires ValidParams(q)
    ensures var settled := N.Settled(q, config).0;
            && Acceptable(q, settled)
            && Negotiate(q, settled, Loose).Ok?
            && (Negotiate(q, settled, Strict).Ok? <==> settled == q)
  {
    var settled := N.Settled(q, config).0;
    N.IntervalBounds(q.intervalNs, config);
    N.DurationBounds(q.durationNs, config);
    LooseAcceptsTheAcceptable(q, settled);
    StrictAcceptsOnlyTheRequest(q, settled);
  }
}
