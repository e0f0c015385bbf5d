/** The client's session machine over its in-place probe stores
    (crates/irtt-client/src/session/machine.rs), from the moment a session is open. */
module SessionMachine {
  import opened Prelude
  import opened Envelope
  import opened ProbeOrder
  import opened Probe
  import opened SequenceOrder
  import opened ClientSteps
  import E = Echo

  datatype TimeoutBatch = TimeoutBatch(events: seq<Event>, moreDue: bool)

  datatype CloseRecord = CloseRecord(byPeer: bool, packetsSent: u64)

  class SessionMachine {
    const env: ClientEnv
    var closed: Option<CloseRecord>
    var nextWireSeq: u32
    var highestReceivedSeq: Option<u32>
    var packetsSent: u64
    var kernelTxValid: bool
    const pending: PendingMap
    const timedOut: TimedOutMap
    const completed: CompletedSet
    ghost var anchorNs: Instant

    ghost function Session(): Active
      reads this, pending, timedOut.probes, completed
    {
      Active(nextWireSeq, highestReceivedSeq, packetsSent, pending.order, timedOut.probes.order,
             completed.insertionOrder, kernelTxValid)
    }

    /** What the machine is, as a value: a closed one has dropped its session. */
    ghost function State(): Client
      reads this, pending, timedOut.probes, completed
    {
      if closed.Some? then Closed(closed.value.byPeer, closed.value.packetsSent) else Open(Session())
    }

    ghost predicate Valid()
      reads this, pending, timedOut, timedOut.probes, completed
    {
      && pending != timedOut.probes
      && pending.Valid() && timedOut.Valid() && completed.Valid()
      && pending.maxCapacity == timedOut.probes.maxCapacity == completed.maxCapacity == env.capacity
      && SessionOk(env, Session(), anchorNs)
    }

    constructor (env: ClientEnv)
      ensures Valid() && State() == Open(STARTED) && anchorNs == 0 && this.env == env
      ensures fresh(pending) && fresh(timedOut) && fresh(timedOut.probes) && fresh(completed)
    {
      this.env := env;
      closed, highestReceivedSeq, kernelTxValid := None, None, true;
      nextWireSeq, packetsSent := 0, 0;
      pending := new PendingMap(env.capacity);
      timedOut := new TimedOutMap(env.capacity);
      completed := new CompletedSet(env.capacity);
      anchorNs := 0;
      new;
      StartedOk(env, 0);
      assert Session() == STARTED;
    }

    /** The checks before the socket is used, in the order they are made. */
    method PreflightProbe(anchor: Timestamp, storage: bool) returns (refusal: Option<ClientError>)
      requires Valid()
      ensures refusal == if closed.Some? then Some(AlreadyClosed) else Preflight(env, Session(), anchor, storage)
    {
      if closed.Some? {
        return Some(AlreadyClosed);
      }
      var inserted := pending.PreflightInsert(nextWireSeq, storage);
      match inserted {
        case Err(PendingSequenceCollision(s)) => return Some(ClientError.PendingSequenceCollision(s));
        case Err(PendingLimitExceeded(n)) => return Some(ClientError.PendingLimitExceeded(n));
        case Err(AllocationFailed) => return Some(ClientError.AllocationFailed);
        case Ok(_) =>
      }
      if packetsSent == 0xFFFF_FFFF_FFFF_FFFF {
        return Some(CounterOverflow);
      }
      if anchor.mono + env.probeTimeout > env.maxInstant {
        return Some(DurationOverflow);
      }
      return None;
    }

    /** A reused number's earlier generation leaves retention and the completed set. */
    method ForgetGeneration(seqNo: u32)
      requires pending != timedOut.probes && timedOut.Valid() && completed.Valid()
      modifies timedOut.probes, completed
      ensures timedOut.Valid() && timedOut.probes.order == Without(old(timedOut.probes.order), seqNo)
      ensures completed.Valid() && completed.insertionOrder == Filtered(old(completed.insertionOrder), seqNo)
    {
      hide Spells, NoRepeats;
      var replaced := timedOut.probes.Remove(seqNo);
      var forgotten := completed.Remove(seqNo);
    }

    /** The infallible commit after a successful send whose anchor was `anchor`. */
    method CommitProbeSent(probe: PendingProbe, ghost anchor: Instant)
      requires Valid() && closed.None? && anchorNs <= anchor
      requires probe.wireSeq == nextWireSeq && probe.timeoutAt == anchor + env.probeTimeout
      requires nextWireSeq !in Seqs(pending.order) && |pending.order| < env.capacity
      requires packetsSent < 0xFFFF_FFFF_FFFF_FFFF
      modifies this, pending, timedOut.probes, completed
      ensures Valid() && closed.None? && Session() == Commit(old(Session()), probe)
    {
      ghost var before := Session();
      CommitKeeps(env, before, probe, anchorNs, anchor);
      hide SessionOk, Spells, NoRepeats, Seqs, Without, Filtered;
      ForgetGeneration(probe.wireSeq);
      Append(probe);
      anchorNs := anchor;
      assert Session() == Commit(before, probe);
    }

    /** The new probe joins the pending tail, and the counters advance. */
    method Append(probe: PendingProbe)
      requires pending.Valid() && probe.wireSeq !in Seqs(pending.order)
      requires packetsSent < 0xFFFF_FFFF_FFFF_FFFF
      modifies this`nextWireSeq, this`packetsSent, pending
      ensures pending.Valid() && pending.order == old(pending.order) + [probe]
      ensures nextWireSeq == Succ32(probe.wireSeq) && packetsSent == old(packetsSent) + 1
    {
      pending.CommitInsert(probe);
      nextWireSeq := Succ32(probe.wireSeq);
      packetsSent := packetsSent + 1;
    }

    /** One whole send; `accepted` is when the socket took the datagram, or `None`. */
    method SendProbe(anchor: Timestamp, storage: bool, accepted: Option<Timestamp>)
      returns (r: Result<u32, ClientError>)
      requires Valid() && anchorNs <= anchor.mono
      modifies this, pending, timedOut.probes, completed
      ensures Valid()
      ensures old(closed).Some? ==> r == Err(AlreadyClosed) && State() == old(State())
      ensures old(closed).None? ==>
                var (next, result) := Send(env, old(Session()), anchor, storage, accepted);
                State() == Open(next) && r == result
    {
      hide Spells, Distinct, NoRepeats, Find, Without, Seqs;
      var refusal := PreflightProbe(anchor, storage);
      if refusal.Some? {
        return Err(refusal.value);
      }
      if accepted.None? {
        kernelTxValid := false;
        return Err(SocketFailed);
      }
      r := Ok(nextWireSeq);
      var sentAt := accepted.value;
      var probe := PendingProbe(nextWireSeq, sentAt, anchor.mono + env.probeTimeout, anchor.wall, None);
      CommitProbeSent(probe, anchor.mono);
    }

    method PollTimeouts(now: Instant, limit: nat) returns (r: Result<TimeoutBatch, ClientError>)
      requires Valid()
      modifies pending, timedOut.probes
      ensures Valid()
      ensures closed.Some? ==> r == Err(AlreadyClosed) && State() == old(State())
      ensures closed.None? ==>
                var (next, losses, more) := Poll(env, old(Session()), now, limit);
                State() == Open(next) && r == Ok(TimeoutBatch(losses, more))
    {
      if closed.Some? {
        return Err(AlreadyClosed);
      }
      hide Distinct, NoRepeats, Spells, Seqs, Sorted, RetainAll;
      ghost var before := Session();
      PollKeeps(env, before, now, limit, anchorNs);
      RetainedStaysDistinct(env, before, now, limit, anchorNs);
      hide SessionOk;
      var batch := pending.DrainExpiredBounded(now, limit);
      var events := Retain(batch.probes);
      assert Session() == Poll(env, before, now, limit).0;
      return Ok(TimeoutBatch(events, batch.moreDue));
    }

    /** Each expired probe is a loss and is retained. */
    method Retain(probes: seq<PendingProbe>) returns (events: seq<Event>)
      requires timedOut.Valid()
      requires forall i :: 0 <= i < |probes| ==>
                 var retained := RetainAll(timedOut.probes.order, probes[..i], timedOut.probes.maxCapacity);
                 |retained| <= timedOut.probes.maxCapacity && probes[i].wireSeq !in Seqs(retained)
      modifies timedOut.probes
      ensures timedOut.Valid()
      ensures timedOut.probes.order == RetainAll(old(timedOut.probes.order), probes, timedOut.probes.maxCapacity)
      ensures events == Losses(probes)
    {
      hide Spells;
      events := [];
      for i := 0 to |probes|
        invariant timedOut.Valid()
        invariant events == Losses(probes[..i])
        invariant timedOut.probes.order
               == RetainAll(old(timedOut.probes.order), probes[..i], timedOut.probes.maxCapacity)
      {
        var probe := probes[i];
        assert probes[..i + 1] == probes[..i] + [probe];
        RetainAllAppend(old(timedOut.probes.order), probes[..i], probe, timedOut.probes.maxCapacity);
        events := events + [EchoLoss(probe.wireSeq, probe.sentAt, probe.timeoutAt)];
        timedOut.Insert(probe);
      }
      assert probes[..|probes|] == probes;
    }

    method ProcessReceivedPacket(packet: seq<u8>, now: Timestamp) returns (r: Result<seq<Event>, ClientError>)
      requires Valid()
      modifies this, pending, timedOut.probes, completed
      ensures Valid()
      ensures old(closed).Some? ==> r == Err(AlreadyClosed) && State() == old(State())
      ensures old(closed).None? ==>
                var (next, events) := ProcessPacket(env, old(Session()), packet, now);
                State() == next && r == Ok(events)
    {
      if closed.Some? {
        return Err(AlreadyClosed);
      }
      var decoded := E.DecodeEchoReply(env.mac, packet, env.params, env.key);
      if decoded.Err? {
        return Ok([MalformedPacket]);
      }
      var events := ProcessEchoReply(decoded.value, now);
      return Ok(events);
    }

    method ProcessEchoReply(reply: E.EchoReply, now: Timestamp) returns (events: seq<Event>)
      requires Valid() && closed.None?
      modifies this, pending, timedOut.probes, completed
      ensures Valid()
      ensures (State(), events) == ProcessReply(env, old(Session()), reply, now)
    {
      if reply.token != env.token {
        return [WrongToken(reply.token)];
      }
      ghost var before := Session();
      var event := ClassifyReply(reply.sequence, now);
      ghost var next := Session();
      assert (next, event) == Classify(env, before, reply.sequence, now);
      hide Classify, SessionOk;
      if reply.flags.close {
        closed := Some(CloseRecord(true, packetsSent));
        assert Session() == next;
        events := [event, SessionClosed(env.token)];
      } else {
        events := [event];
      }
    }

    /** A matched number raises the highest received and joins the completed set. */
    method Complete(wireSeq: u32)
      requires completed.Valid()
      modifies this`highestReceivedSeq, completed
      ensures completed.Valid()
      ensures completed.insertionOrder == Recorded(old(completed.insertionOrder), wireSeq, completed.maxCapacity)
      ensures highestReceivedSeq == UpdateHighest(old(highestReceivedSeq), wireSeq)
    {
      highestReceivedSeq := UpdateHighest(highestReceivedSeq, wireSeq);
      completed.Insert(wireSeq);
    }

    method ClassifyReply(wireSeq: u32, now: Timestamp) returns (event: Event)
      requires Valid() && closed.None?
      modifies this, pending, timedOut.probes, completed
      ensures Valid()
      ensures closed.None? && (Session(), event) == Classify(env, old(Session()), wireSeq, now)
    {
      ClassifyKeeps(env, Session(), wireSeq, now, anchorNs);
      hide SessionOk, Spells, NoRepeats, Classify;
      event := ClassifyInStores(wireSeq, now);
    }

    method ClassifyInStores(wireSeq: u32, now: Timestamp) returns (event: Event)
      requires pending != timedOut.probes && pending.Valid() && timedOut.Valid() && completed.Valid()
      requires completed.maxCapacity == env.capacity
      modifies this`highestReceivedSeq, pending, timedOut.probes, completed
      ensures pending.Valid() && timedOut.Valid() && completed.Valid()
      ensures (Session(), event) == Classify(env, old(Session()), wireSeq, now)
    {
      ghost var before := Session();
      assert forall s :: s in completed.seqNos <==> s in completed.insertionOrder;
      hide Distinct, NoRepeats, Sorted, Spells, Without, Recorded, IsBefore, UpdateHighest;
      FindAbsent(before.pending, wireSeq);
      FindAbsent(before.timedOut, wireSeq);
      var late := highestReceivedSeq.Some? && IsBefore(wireSeq, highestReceivedSeq.value);
      var highestSeen := highestReceivedSeq.GetOr(wireSeq);
      var matched := pending.Remove(wireSeq);
      if matched.Some? {
        Complete(wireSeq);
        event := if late then LateReply(wireSeq, highestSeen, Some(matched.value.sentAt), now)
                 else EchoReply(wireSeq, matched.value.sentAt, now);
      } else if wireSeq in completed.seqNos {
        highestReceivedSeq := UpdateHighest(highestReceivedSeq, wireSeq);
        event := DuplicateReply(wireSeq);
      } else {
        var retained := timedOut.probes.Remove(wireSeq);
        if retained.Some? {
          Complete(wireSeq);
          event := LateReply(wireSeq, highestSeen, Some(retained.value.sentAt), now);
        } else if late {
          event := LateReply(wireSeq, highestSeen, None, now);
        } else {
          event := UntrackedReply(wireSeq);
        }
      }
      assert Session() == Classify(env, before, wireSeq, now).0;
    }

    method RecordKernelTxTimestamp(wireSeq: u32, timestamp: int)
      requires Valid()
      modifies pending, timedOut.probes
      ensures Valid()
      ensures State() == if closed.Some? then old(State()) else Open(RecordKernelTx(old(Session()), wireSeq, timestamp))
    {
      if closed.Some? {
        return;
      }
      ghost var before := Session();
      KernelTxKeeps(env, before, wireSeq, timestamp, anchorNs);
      hide SessionOk;
      if !kernelTxValid {
        return;
      }
      var found := wireSeq in pending.entries;
      assert found <==> wireSeq in Seqs(before.pending);
      if found {
        var attached := pending.AttachKernelTx(wireSeq, timestamp);
      } else {
        var attached := timedOut.probes.AttachKernelTx(wireSeq, timestamp);
      }
      assert Session() == RecordKernelTx(before, wireSeq, timestamp);
    }

    method CommitLocalClose() returns (event: Event)
      requires Valid() && closed.None?
      modifies this`closed
      ensures Valid() && State() == Closed(false, packetsSent) && event == SessionClosed(env.token)
    {
      closed := Some(CloseRecord(false, packetsSent));
      event := SessionClosed(env.token);
    }

    /** The latest deadline of every probe an open session still knows. */
    method LatestProbeTimeoutDeadline() returns (deadline: Option<Instant>)
      requires Valid()
      ensures deadline.None? <==> closed.Some? || Known(Session()) == []
      ensures deadline.Some? ==>
                && (exists p :: p in Known(Session()) && p.timeoutAt == deadline.value)
                && forall p :: p in Known(Session()) ==> p.timeoutAt <= deadline.value
    {
      hide Spells, Distinct, NoRepeats, Seqs, Sorted;
      if closed.Some? {
        return None;
      }
      var ofPending := pending.LatestTimeoutDeadline();
      var ofRetained := timedOut.probes.LatestTimeoutDeadline();
      LatestIsLast(Session().timedOut, Session().pending);
      deadline := if ofPending.None? then ofRetained
                  else if ofRetained.None? then ofPending
                  else Some(Max(ofPending.value, ofRetained.value));
    }
  }

  lemma LatestIsLast(a: seq<PendingProbe>, b: seq<PendingProbe>)
    requires Sorted(a + b)
    ensures a + b != [] ==> (a + b)[|a + b| - 1] in a + b
    ensures forall p :: p in a + b ==> p.timeoutAt <= (a + b)[|a + b| - 1].timeoutAt
    ensures a != [] && b != [] ==> a[|a| - 1].timeoutAt <= b[|b| - 1].timeoutAt
    ensures b != [] ==> (a + b)[|a + b| - 1] == b[|b| - 1]
    ensures b == [] ==> a + b == a
  {
    var all := a + b;
    if a != [] && b != [] {
      assert all[|a| - 1].timeoutAt <= all[|all| - 1].timeoutAt;
    }
  }

  lemma {:induction false} RetainAllAppend(order: seq<PendingProbe>, probes: seq<PendingProbe>, probe: PendingProbe, capacity: nat)
    ensures RetainAll(order, probes + [probe], capacity) == Retained(RetainAll(order, probes, capacity), probe, capacity)
    decreases |probes|
  {
    if probes == [] {
      assert [probe][1..] == [];
      assert probes + [probe] == [probe];
    } else {
      assert (probes + [probe])[1..] == probes[1..] + [probe];
      RetainAllAppend(Retained(order, probes[0], capacity), probes[1..], probe, capacity);
    }
  }

  lemma HeadSeq(order: seq<PendingProbe>)
    requires order != []
    ensures order[0].wireSeq in Seqs(order)
  {
  }

  /** While expired probes move over, the next one is never already retained, and there is room. */
  lemma RetainedStaysDistinct(env: ClientEnv, c: Active, now: Instant, limit: nat, anchorNs: Instant)
    requires SessionOk(env, c, anchorNs)
    ensures var n := Taken(c.pending, now, limit);
            forall i :: 0 <= i < n ==>
              var retained := RetainAll(c.timedOut, c.pending[..n][..i], env.capacity);
              |retained| <= env.capacity && c.pending[..n][i].wireSeq !in Seqs(retained)
  {
    hide RetainAll, Taken, Distinct, Sorted, NoRepeats, Seqs;
    var n := Taken(c.pending, now, limit);
    var expired := c.pending[..n];
    forall i | 0 <= i < n
      ensures var retained := RetainAll(c.timedOut, expired[..i], env.capacity);
              |retained| <= env.capacity && expired[i].wireSeq !in Seqs(retained)
    {
      RetainKeepsLast(c.timedOut, expired[..i], env.capacity);
      var upTo := c.timedOut + expired[..i];
      assert Known(c) == upTo + c.pending[i..];
      SeqsOfConcat(upTo, c.pending[i..]);
      HeadSeq(c.pending[i..]);
      var k := Max(0, |upTo| - env.capacity);
      assert upTo == upTo[..k] + upTo[k..];
      SeqsOfConcat(upTo[..k], upTo[k..]);
    }
  }
}
