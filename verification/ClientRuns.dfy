/** Properties of whole runs of the client's session: any sends, polls, packets, kernel timestamps
    and closes, with send anchors that never go back. */
module ClientRuns {
  import opened Prelude
  import opened ProbeOrder
  import opened SequenceOrder
  import opened ClientSteps
  import E = Echo

  datatype Action =
    | Sending(anchor: Timestamp, storage: bool, accepted: Option<Timestamp>)
    | Polling(now: Instant, limit: nat)
    | Receiving(packet: seq<u8>, at: Timestamp)
    | KernelTx(wireSeq: u32, timestamp: int)
    | LocalClose

  function Next(env: ClientEnv, c: Active, a: Action): Client {
    match a
    case Sending(anchor, storage, accepted) => Open(Send(env, c, anchor, storage, accepted).0)
    case Polling(now, limit) => Open(Poll(env, c, now, limit).0)
    case Receiving(packet, at) => ProcessPacket(env, c, packet, at).0
    case KernelTx(wireSeq, timestamp) => Open(RecordKernelTx(c, wireSeq, timestamp))
    case LocalClose => Closed(false, c.packetsSent)
  }

  /** A closed session takes no further step. */
  function RunOf(env: ClientEnv, c: Client, actions: seq<Action>): Client
    decreases |actions|
  {
    if actions == [] || c.Closed? then c else RunOf(env, Next(env, c.session, actions[0]), actions[1..])
  }

  /** Send anchors never go back. */
  predicate Anchored(actions: seq<Action>, fromNs: Instant) {
    actions == [] ||
    (&& (actions[0].Sending? ==> fromNs <= actions[0].anchor.mono)
     && Anchored(actions[1..], AnchorAfter(actions[0], fromNs)))
  }

  function AnchorAfter(a: Action, fromNs: Instant): Instant {
    if a.Sending? then a.anchor.mono else fromNs
  }

  function LastAnchor(actions: seq<Action>, fromNs: Instant): Instant {
    if actions == [] then fromNs else LastAnchor(actions[1..], AnchorAfter(actions[0], fromNs))
  }

  /** The sequence number of a reply that reaches classification. */
  function Replied(env: ClientEnv, a: Action): Option<u32> {
    if !a.Receiving? then None
    else
      match E.DecodeEchoReply(env.mac, a.packet, env.params, env.key)
      case Ok(reply) => if reply.token == env.token then Some(reply.sequence) else None
      case Err(_) => None
  }

  // ---------- the stores of every reachable session ----------

  lemma NextKeeps(env: ClientEnv, c: Active, a: Action, anchorNs: Instant)
    requires SessionOk(env, c, anchorNs) && (a.Sending? ==> anchorNs <= a.anchor.mono)
    ensures Next(env, c, a).Open? ==> SessionOk(env, Next(env, c, a).session, AnchorAfter(a, anchorNs))
  {
    hide SessionOk;
    match a {
      case Sending(anchor, storage, accepted) => SendKeeps(env, c, anchor, storage, accepted, anchorNs);
      case Polling(now, limit) => PollKeeps(env, c, now, limit, anchorNs);
      case Receiving(_, at) =>
        if Replied(env, a).Some? {
          ClassifyKeeps(env, c, Replied(env, a).value, at, anchorNs);
        }
      case KernelTx(wireSeq, timestamp) => KernelTxKeeps(env, c, wireSeq, timestamp, anchorNs);
      case LocalClose =>
    }
  }

  /** Every reachable open session keeps its stores disjoint and within capacity, its deadlines
      sorted and its next sequence number equal to the packets sent, wrapping. */
  lemma {:induction false} RunsKeep(env: ClientEnv, c: Client, actions: seq<Action>, anchorNs: Instant)
    requires c.Open? ==> SessionOk(env, c.session, anchorNs)
    requires Anchored(actions, anchorNs)
    ensures var end := RunOf(env, c, actions);
            end.Open? ==> SessionOk(env, end.session, LastAnchor(actions, anchorNs))
    decreases |actions|
  {
    hide SessionOk, Next;
    if actions != [] && c.Open? {
      NextKeeps(env, c.session, actions[0], anchorNs);
      RunsKeep(env, Next(env, c.session, actions[0]), actions[1..], AnchorAfter(actions[0], anchorNs));
    }
  }

  // ---------- conservation ----------

  /** How many of a run's replies matched a probe that was still pending. */
  function MatchedPending(env: ClientEnv, c: Client, actions: seq<Action>): nat
    decreases |actions|
  {
    if actions == [] || c.Closed? then 0
    else
      (if Replied(env, actions[0]).Some? && Find(c.session.pending, Replied(env, actions[0]).value).Some? then 1 else 0)
      + MatchedPending(env, Next(env, c.session, actions[0]), actions[1..])
  }

  /** How many losses a run emits. */
  function LossesEmitted(env: ClientEnv, c: Client, actions: seq<Action>): nat
    decreases |actions|
  {
    if actions == [] || c.Closed? then 0
    else
      (if actions[0].Polling? then |Poll(env, c.session, actions[0].now, actions[0].limit).1| else 0)
      + LossesEmitted(env, Next(env, c.session, actions[0]), actions[1..])
  }

  /** Packets sent are exactly those still pending, matched while pending, or lost. */
  lemma {:induction false} Conservation(env: ClientEnv, c: Client, actions: seq<Action>, anchorNs: Instant)
    requires c.Open? && SessionOk(env, c.session, anchorNs) && Anchored(actions, anchorNs)
    requires RunOf(env, c, actions).Open?
    ensures var end := RunOf(env, c, actions).session;
            end.packetsSent - c.session.packetsSent
            == |end.pending| - |c.session.pending| + MatchedPending(env, c, actions) + LossesEmitted(env, c, actions)
    decreases |actions|
  {
    hide SessionOk;
    if actions != [] {
      var a, s := actions[0], c.session;
      NextKeeps(env, s, a, anchorNs);
      PendingStep(env, s, a, anchorNs);
      hide Next;
      if Next(env, s, a).Open? {
        Conservation(env, Next(env, s, a), actions[1..], AnchorAfter(a, anchorNs));
      }
    }
  }

  lemma PendingStep(env: ClientEnv, c: Active, a: Action, anchorNs: Instant)
    requires SessionOk(env, c, anchorNs)
    ensures var next := Next(env, c, a);
            next.Open? ==>
              && next.session.packetsSent - c.packetsSent
                 == |next.session.pending| - |c.pending|
                    + (if Replied(env, a).Some? && Find(c.pending, Replied(env, a).value).Some? then 1 else 0)
                    + (if a.Polling? then |Poll(env, c, a.now, a.limit).1| else 0)
  {
    SeqsOfConcat(c.timedOut, c.pending);
    assert Distinct(c.pending);
    hide SessionOk, Replied, Seqs, Distinct, Sorted, Without, Find, Filtered, RetainAll, Recorded, DuePrefix, Preflight,
         UpdateHighest, IsBefore, Stamped;
    match a {
      case Sending(_, _, _) =>
      case Polling(_, _) =>
      case Receiving(packet, at) => ReceivePending(env, c, packet, at);
      case KernelTx(_, _) =>
      case LocalClose =>
    }
  }

  lemma ReceivePending(env: ClientEnv, c: Active, packet: seq<u8>, at: Timestamp)
    requires Distinct(c.pending)
    ensures var next, replied := ProcessPacket(env, c, packet, at).0, Replied(env, Receiving(packet, at));
            next.Open? ==>
              && next.session.packetsSent == c.packetsSent
              && |c.pending| == |next.session.pending|
                 + (if replied.Some? && Find(c.pending, replied.value).Some? then 1 else 0)
  {
    if Replied(env, Receiving(packet, at)).Some? {
      ClassifyPending(env, c, Replied(env, Receiving(packet, at)).value, at);
    }
    hide Distinct, Classify, E.DecodeEchoReply;
  }

  lemma ClassifyPending(env: ClientEnv, c: Active, s: u32, at: Timestamp)
    requires Distinct(c.pending)
    ensures var next := Classify(env, c, s, at).0;
            && next.packetsSent == c.packetsSent
            && |c.pending| == |next.pending| + (if Find(c.pending, s).Some? then 1 else 0)
  {
    FindAbsent(c.pending, s);
    RemovalMeans(c.pending, s);
    hide Distinct, Without, Recorded, UpdateHighest, IsBefore, Seqs;
  }

  /** From the start of the session: packets sent = pending + matched + lost. */
  lemma PacketsSentAreAccountedFor(env: ClientEnv, actions: seq<Action>)
    requires Anchored(actions, 0) && RunOf(env, Open(STARTED), actions).Open?
    ensures var end := RunOf(env, Open(STARTED), actions).session;
            && end.packetsSent == |end.pending| + MatchedPending(env, Open(STARTED), actions)
                                  + LossesEmitted(env, Open(STARTED), actions)
            && end.nextWireSeq == Wire(end.packetsSent)
  {
    StartedOk(env, 0);
    Conservation(env, Open(STARTED), actions, 0);
    RunsKeep(env, Open(STARTED), actions, 0);
  }

  // ---------- one measured reply per probe ----------

  datatype Mark = Sent(seqNo: u32) | Measured(seqNo: u32)

  function MarkOf(env: ClientEnv, c: Active, a: Action): seq<Mark> {
    match a
    case Sending(anchor, storage, accepted) =>
      (match Send(env, c, anchor, storage, accepted).1 case Ok(s) => [Sent(s)] case Err(_) => [])
    case Receiving(packet, at) =>
      if Replied(env, a).None? then []
      else
        (match Classify(env, c, Replied(env, a).value, at).1
         case EchoReply(s, _, _) => [Measured(s)]
         case LateReply(s, _, Some(_), _) => [Measured(s)]
         case _ => [])
    case _ => []
  }

  /** The sends and measured replies of a run, in order. */
  function Marks(env: ClientEnv, c: Client, actions: seq<Action>): seq<Mark>
    decreases |actions|
  {
    if actions == [] || c.Closed? then []
    else MarkOf(env, c.session, actions[0]) + Marks(env, Next(env, c.session, actions[0]), actions[1..])
  }

  /** Some send of `s` in the trace has not been followed by a measured reply for `s`. */
  ghost predicate Unanswered(trace: seq<Mark>, s: u32) {
    exists i :: 0 <= i < |trace| && trace[i] == Sent(s) && Measured(s) !in trace[i..]
  }

  /** Every measured reply answers a send that no earlier measured reply answered. */
  ghost predicate OncePerSend(trace: seq<Mark>) {
    forall j :: 0 <= j < |trace| && trace[j].Measured? ==> Unanswered(trace[..j], trace[j].seqNo)
  }

  ghost predicate KnownAreUnanswered(c: Active, trace: seq<Mark>) {
    forall s :: s in Seqs(Known(c)) ==> Unanswered(trace, s)
  }

  lemma UnansweredStays(trace: seq<Mark>, mark: Mark, s: u32)
    requires Unanswered(trace, s) && mark != Measured(s)
    ensures Unanswered(trace + [mark], s)
  {
    var i :| 0 <= i < |trace| && trace[i] == Sent(s) && Measured(s) !in trace[i..];
    assert (trace + [mark])[i..] == trace[i..] + [mark];
  }

  lemma SendIsUnanswered(trace: seq<Mark>, s: u32)
    ensures Unanswered(trace + [Sent(s)], s)
  {
    var all := trace + [Sent(s)];
    assert all[|trace|..] == [Sent(s)];
    assert all[|trace|] == Sent(s);
  }

  lemma OncePerSendExtends(trace: seq<Mark>, mark: Mark)
    requires OncePerSend(trace)
    requires mark.Measured? ==> Unanswered(trace, mark.seqNo)
    ensures OncePerSend(trace + [mark])
  {
    var all := trace + [mark];
    forall j | 0 <= j < |all| && all[j].Measured? ensures Unanswered(all[..j], all[j].seqNo) {
      if j < |trace| {
        assert all[..j] == trace[..j];
      } else {
        assert all[..j] == trace;
      }
    }
  }

  /** A step marks at most once; a measured number was known and is known no longer; a sent
      number is new; and nothing else becomes known. */
  lemma MarkStep(env: ClientEnv, c: Active, a: Action, anchorNs: Instant)
    requires SessionOk(env, c, anchorNs)
    ensures var marks, next := MarkOf(env, c, a), Next(env, c, a);
            && |marks| <= 1
            && (marks != [] && marks[0].Measured? ==> marks[0].seqNo in Seqs(Known(c)))
            && (next.Open? ==> forall s :: s in Seqs(Known(next.session)) ==>
                  if s in Seqs(Known(c)) then marks != [Measured(s)] else marks == [Sent(s)])
  {
    SeqsOfConcat(c.timedOut, c.pending);
    match a {
      case Sending(anchor, storage, accepted) =>
        if Preflight(env, c, anchor, storage).None? && accepted.Some? {
          StoresAfterCommit(c, NewProbe(env, c, anchor, accepted.value));
          RemovalMeans(Known(c), c.nextWireSeq);
          SeqsOfAppend(Without(Known(c), c.nextWireSeq), NewProbe(env, c, anchor, accepted.value));
        }
      case Polling(now, limit) => PollKnows(env, c, now, limit, anchorNs);
      case Receiving(_, at) =>
        if Replied(env, a).Some? {
          ClassifyKnows(env, c, Replied(env, a).value, at, anchorNs);
        }
      case KernelTx(wireSeq, timestamp) =>
        var next := RecordKernelTx(c, wireSeq, timestamp);
        StampedKeeps(c.pending, wireSeq, timestamp);
        StampedKeeps(c.timedOut, wireSeq, timestamp);
        SeqsOfConcat(next.timedOut, next.pending);
      case LocalClose =>
    }
  }

  lemma PollKnows(env: ClientEnv, c: Active, now: Instant, limit: nat, anchorNs: Instant)
    requires SessionOk(env, c, anchorNs)
    ensures Seqs(Known(Poll(env, c, now, limit).0)) <= Seqs(Known(c))
  {
    var k := PollSuffix(env, c, now, limit);
    SuffixSeqs(Known(c), k);
  }

  lemma ClassifyKnows(env: ClientEnv, c: Active, wireSeq: u32, at: Timestamp, anchorNs: Instant)
    requires SessionOk(env, c, anchorNs)
    ensures var (next, event) := Classify(env, c, wireSeq, at);
            var measured := event.EchoReply? || (event.LateReply? && event.origin.Some?);
            && (measured <==> wireSeq in Seqs(Known(c)))
            && Seqs(Known(next)) == (if measured then Seqs(Known(c)) - {wireSeq} else Seqs(Known(c)))
            && (measured ==> event.seqNo == wireSeq)
  {
    SeqsOfConcat(c.timedOut, c.pending);
    FindAbsent(c.pending, wireSeq);
    FindAbsent(c.timedOut, wireSeq);
    RemovalMeans(c.pending, wireSeq);
    RemovalMeans(c.timedOut, wireSeq);
    hide SessionOk, Distinct, Seqs, Find, Without;
    var next := Classify(env, c, wireSeq, at).0;
    SeqsOfConcat(next.timedOut, next.pending);
  }

  lemma TraceStep(env: ClientEnv, c: Active, a: Action, anchorNs: Instant, trace: seq<Mark>)
    requires SessionOk(env, c, anchorNs) && KnownAreUnanswered(c, trace) && OncePerSend(trace)
    ensures var longer := trace + MarkOf(env, c, a);
            && OncePerSend(longer)
            && (Next(env, c, a).Open? ==> KnownAreUnanswered(Next(env, c, a).session, longer))
  {
    MarkStep(env, c, a, anchorNs);
    var next, marks := Next(env, c, a), MarkOf(env, c, a);
    hide SessionOk, OncePerSend, Unanswered, Next, MarkOf, Known, Seqs;
    if marks == [] {
      assert trace + marks == trace;
    } else {
      assert marks == [marks[0]];
      OncePerSendExtends(trace, marks[0]);
      if next.Open? {
        forall x | x in Seqs(Known(next.session)) ensures Unanswered(trace + marks, x) {
          if x in Seqs(Known(c)) {
            UnansweredStays(trace, marks[0], x);
          } else {
            SendIsUnanswered(trace, x);
          }
        }
      }
    }
  }

  lemma {:induction false} TracesMeasureOnce(env: ClientEnv, c: Client, actions: seq<Action>, anchorNs: Instant,
                                             trace: seq<Mark>)
    requires c.Open? ==> SessionOk(env, c.session, anchorNs) && KnownAreUnanswered(c.session, trace)
    requires Anchored(actions, anchorNs) && OncePerSend(trace)
    ensures OncePerSend(trace + Marks(env, c, actions))
    decreases |actions|
  {
    hide SessionOk, OncePerSend, KnownAreUnanswered, Next, MarkOf;
    if actions == [] || c.Closed? {
      assert trace + Marks(env, c, actions) == trace;
    } else {
      var a, s := actions[0], c.session;
      NextKeeps(env, s, a, anchorNs);
      TraceStep(env, s, a, anchorNs, trace);
      var longer, next := trace + MarkOf(env, s, a), Next(env, s, a);
      TracesMeasureOnce(env, next, actions[1..], AnchorAfter(a, anchorNs), longer);
      assert trace + Marks(env, c, actions) == longer + Marks(env, next, actions[1..]);
    }
  }

  /** Over any run, every measured reply for a sequence number is preceded by a send of that
      number with no measured reply for it in between: each sent probe is measured at most once,
      however often its number is reused and however its replies are duplicated. */
  lemma EachProbeIsMeasuredOnce(env: ClientEnv, actions: seq<Action>)
    requires Anchored(actions, 0)
    ensures OncePerSend(Marks(env, Open(STARTED), actions))
  {
    hide SessionOk, Marks, KnownAreUnanswered, OncePerSend, Anchored;
    NothingYet(env);
    TracesMeasureOnce(env, Open(STARTED), actions, 0, []);
    assert [] + Marks(env, Open(STARTED), actions) == Marks(env, Open(STARTED), actions);
  }

  /** A session's start is good, and knows, tracks and has measured nothing. */
  lemma NothingYet(env: ClientEnv)
    ensures SessionOk(env, STARTED, 0)
    ensures Seqs(Known(STARTED)) == {} && STARTED.completed == []
    ensures KnownAreUnanswered(STARTED, []) && OncePerSend([])
  {
    StartedOk(env, 0);
    assert Known(STARTED) == [];
  }

  // ---------- the highest received number ----------

  predicate Tracked(c: Active, s: u32) {
    s in Seqs(Known(c)) || s in c.completed
  }

  /** Every number the session tracks was sent. */
  ghost predicate TrackedWereSent(c: Active) {
    forall s: u32 :: Tracked(c, s) ==> s < c.packetsSent
  }

  function Highest(known: Option<nat>, index: nat): nat {
    if known.Some? then Max(known.value, index) else index
  }

  /** The send index of the probe a tracked number stands for. */
  function IndexOf(c: Active, s: u32): nat
    requires s < c.packetsSent
  {
    LatestIndexMeans(c.packetsSent, s);
    LatestIndex(c.packetsSent, s)
  }

  /** If a reply lies within less than half the number space of the highest index received, the
      highest received number stays that of the true highest index, and a pending reply is called
      late exactly when its index is smaller. */
  lemma ReplyOrder(env: ClientEnv, c: Active, s: u32, at: Timestamp, highest: Option<nat>)
    requires Tracked(c, s) && s < c.packetsSent
    requires c.highest == if highest.Some? then Some(Wire(highest.value)) else None
    requires highest.Some? ==> IndexOf(c, s) < highest.value + HALF && highest.value < IndexOf(c, s) + HALF
    ensures var (next, event) := Classify(env, c, s, at);
            && next.highest == Some(Wire(Highest(highest, IndexOf(c, s))))
            && next.packetsSent == c.packetsSent
            && (Find(c.pending, s).Some? ==>
                  (event.LateReply? <==> highest.Some? && IndexOf(c, s) < highest.value))
  {
    SeqsOfConcat(c.timedOut, c.pending);
    FindAbsent(c.pending, s);
    FindAbsent(c.timedOut, s);
    hide Seqs, UpdateHighest, IsBefore, Recorded, Without;
    OrderStep(c.packetsSent, s, highest);
  }

  lemma OrderStep(sent: nat, s: u32, highest: Option<nat>)
    requires s < sent
    requires highest.Some? ==>
               LatestIndex(sent, s) < highest.value + HALF && highest.value < LatestIndex(sent, s) + HALF
    ensures LatestIndex(sent, s) >= 0
    ensures var h := if highest.Some? then Some(Wire(highest.value)) else None;
            && UpdateHighest(h, s) == Some(Wire(Highest(highest, LatestIndex(sent, s))))
            && (h.Some? ==> (IsBefore(s, h.value) <==> LatestIndex(sent, s) < highest.value))
  {
    LatestIndexMeans(sent, s);
    if highest.Some? {
      WrappingIsOrder(LatestIndex(sent, s), highest.value);
    }
  }

  /** Every tracked reply of the run is near the highest index received before it. */
  predicate Near(env: ClientEnv, c: Client, actions: seq<Action>, highest: Option<nat>)
    decreases |actions|
  {
    actions == [] || c.Closed? ||
    var a, s := actions[0], c.session;
    var r := Replied(env, a);
    if r.Some? && Tracked(s, r.value) && r.value < s.packetsSent then
      && (highest.Some? ==> IndexOf(s, r.value) < highest.value + HALF && highest.value < IndexOf(s, r.value) + HALF)
      && Near(env, Next(env, s, a), actions[1..], Some(Highest(highest, IndexOf(s, r.value))))
    else Near(env, Next(env, s, a), actions[1..], highest)
  }

  /** The highest index among the run's tracked replies. */
  function HighestOf(env: ClientEnv, c: Client, actions: seq<Action>, highest: Option<nat>): Option<nat>
    decreases |actions|
  {
    if actions == [] || c.Closed? then highest
    else
      var a, s := actions[0], c.session;
      var r := Replied(env, a);
      HighestOf(env, Next(env, s, a), actions[1..],
        if r.Some? && Tracked(s, r.value) && r.value < s.packetsSent
        then Some(Highest(highest, IndexOf(s, r.value))) else highest)
  }

  lemma CompletedStep(env: ClientEnv, c: Active, a: Action, anchorNs: Instant)
    requires SessionOk(env, c, anchorNs)
    ensures Next(env, c, a).Open? ==>
              forall s :: s in Next(env, c, a).session.completed ==> Tracked(c, s)
  {
    match a {
      case Sending(_, _, _) => FilteredMeans(c.completed, c.nextWireSeq);
      case Receiving(_, at) =>
        if Replied(env, a).Some? {
          ClassifyCompletes(env, c, Replied(env, a).value, at);
        }
      case _ =>
    }
    hide SessionOk, Classify, Seqs, Known, Without, Filtered, RetainAll, E.DecodeEchoReply, Find, Stamped;
  }

  lemma ClassifyCompletes(env: ClientEnv, c: Active, s: u32, at: Timestamp)
    requires NoRepeats(c.completed) && |c.completed| <= env.capacity
    ensures forall x :: x in Classify(env, c, s, at).0.completed ==> Tracked(c, x)
  {
    RecordedMeans(c.completed, s, env.capacity);
    SeqsOfConcat(c.timedOut, c.pending);
    FindAbsent(c.pending, s);
    FindAbsent(c.timedOut, s);
    hide Seqs, Recorded, Without, Distinct, UpdateHighest, IsBefore;
  }

  lemma SentStep(env: ClientEnv, c: Active, a: Action)
    requires c.nextWireSeq == Wire(c.packetsSent)
    ensures Next(env, c, a).Open? ==> Next(env, c, a).session.packetsSent >= c.packetsSent
    ensures forall s :: MarkOf(env, c, a) == [Sent(s)] ==>
              Next(env, c, a).Open? && s == c.nextWireSeq < Next(env, c, a).session.packetsSent
  {
    hide Seqs, Without, Filtered, RetainAll, Recorded, UpdateHighest, IsBefore, E.DecodeEchoReply, Find, Stamped;
  }

  lemma TrackedStep(env: ClientEnv, c: Active, a: Action, anchorNs: Instant)
    requires SessionOk(env, c, anchorNs) && TrackedWereSent(c)
    ensures Next(env, c, a).Open? ==> TrackedWereSent(Next(env, c, a).session)
  {
    MarkStep(env, c, a, anchorNs);
    CompletedStep(env, c, a, anchorNs);
    SentStep(env, c, a);
    var next := Next(env, c, a);
    hide Next, MarkOf, Known, Seqs, SessionOk;
    if next.Open? {
      forall s: u32 | Tracked(next.session, s) ensures s < next.session.packetsSent {
        if s in Seqs(Known(next.session)) && s !in Seqs(Known(c)) {
          assert MarkOf(env, c, a) == [Sent(s)];
        } else {
          assert Tracked(c, s);
        }
      }
    }
  }

  lemma OnlyTrackedRaise(env: ClientEnv, c: Active, a: Action)
    requires Replied(env, a).Some? ==> !Tracked(c, Replied(env, a).value)
    ensures Next(env, c, a).Open? ==> Next(env, c, a).session.highest == c.highest
  {
    if Replied(env, a).Some? {
      SeqsOfConcat(c.timedOut, c.pending);
      FindAbsent(c.pending, Replied(env, a).value);
      FindAbsent(c.timedOut, Replied(env, a).value);
    }
    hide Seqs, Without, Recorded, UpdateHighest, IsBefore, E.DecodeEchoReply, Preflight;
  }

  /** Over any run whose tracked replies stay within less than half the number space of the
      highest index received, `highest` is always the number of the true highest index. */
  lemma {:induction false} HighestIsTrue(env: ClientEnv, c: Client, actions: seq<Action>, anchorNs: Instant,
                                         highest: Option<nat>)
    requires c.Open? && SessionOk(env, c.session, anchorNs) && TrackedWereSent(c.session)
    requires c.session.highest == if highest.Some? then Some(Wire(highest.value)) else None
    requires Anchored(actions, anchorNs) && Near(env, c, actions, highest)
    requires RunOf(env, c, actions).Open?
    ensures var h := HighestOf(env, c, actions, highest);
            RunOf(env, c, actions).session.highest == if h.Some? then Some(Wire(h.value)) else None
    decreases |actions|
  {
    hide SessionOk;
    if actions != [] {
      var a, s := actions[0], c.session;
      NextKeeps(env, s, a, anchorNs);
      TrackedStep(env, s, a, anchorNs);
      var r := Replied(env, a);
      if r.Some? && Tracked(s, r.value) {
        ReplyOrder(env, s, r.value, a.at, highest);
      } else {
        OnlyTrackedRaise(env, s, a);
      }
      var raised := if r.Some? && Tracked(s, r.value) then Some(Highest(highest, IndexOf(s, r.value))) else highest;
      if Next(env, s, a).Open? {
        HighestIsTrue(env, Next(env, s, a), actions[1..], AnchorAfter(a, anchorNs), raised);
      }
    }
  }

  /** So it is over any such run from the start of the session. */
  lemma HighestIsTrueFromTheStart(env: ClientEnv, actions: seq<Action>)
    requires Anchored(actions, 0) && Near(env, Open(STARTED), actions, None)
    requires RunOf(env, Open(STARTED), actions).Open?
    ensures var h := HighestOf(env, Open(STARTED), actions, None);
            RunOf(env, Open(STARTED), actions).session.highest == if h.Some? then Some(Wire(h.value)) else None
  {
    hide SessionOk, Near, RunOf, HighestOf, Anchored, Known, Seqs, KnownAreUnanswered, OncePerSend;
    NothingYet(env);
    HighestIsTrue(env, Open(STARTED), actions, 0, None);
  }
}
