/** The client's open session as a value, one step at a time
    (crates/irtt-client/src/session/machine.rs). */
module ClientSteps {
  import opened Prelude
  import opened Params
  import opened Envelope
  import opened ProbeOrder
  import opened SequenceOrder
  import E = Echo

  /** What an open session was given: the digest, the key and parameters it negotiated, its
      capacity and probe timeout, and the platform's largest instant. */
  datatype ClientEnv = ClientEnv(
    mac: Mac,
    key: Option<Key>,
    params: Params,
    token: u64,
    capacity: Capacity,
    probeTimeout: nat,
    maxInstant: Instant)

  type Capacity = n: nat | n > 0 witness 1

  /** The mutable part of an open session. */
  datatype Active = Active(
    nextWireSeq: u32,
    highest: Option<u32>,
    packetsSent: u64,
    pending: seq<PendingProbe>,
    timedOut: seq<PendingProbe>,
    completed: seq<u32>,
    kernelTxValid: bool)

  datatype Client = Open(session: Active) | Closed(byPeer: bool, packetsSent: u64)

  const STARTED := Active(0, None, 0, [], [], [], true)

  datatype Event =
    | EchoReply(seqNo: u32, sentAt: Timestamp, receivedAt: Timestamp)
    | LateReply(seqNo: u32, highestSeen: u32, origin: Option<Timestamp>, receivedAt: Timestamp)
    | DuplicateReply(seqNo: u32)
    | EchoLoss(seqNo: u32, sentAt: Timestamp, timeoutAt: Instant)
    | UntrackedReply(seqNo: u32)
    | WrongToken(found: u64)
    | MalformedPacket
    | SessionClosed(token: u64)

  datatype ClientError =
    | AlreadyClosed
    | PendingSequenceCollision(seqNo: u32)
    | PendingLimitExceeded(limit: nat)
    | AllocationFailed
    | CounterOverflow
    | DurationOverflow
    | SocketFailed

  // ---------- sending ----------

  /** Everything that can refuse a send before the socket is used; `storage` is whether memory for
      one more pending probe can be had. */
  function Preflight(env: ClientEnv, c: Active, anchor: Timestamp, storage: bool): Option<ClientError> {
    if c.nextWireSeq in Seqs(c.pending) then Some(PendingSequenceCollision(c.nextWireSeq))
    else if |c.pending| >= env.capacity then Some(PendingLimitExceeded(env.capacity))
    else if !storage then Some(AllocationFailed)
    else if c.packetsSent == 0xFFFF_FFFF_FFFF_FFFF then Some(CounterOverflow)
    else if anchor.mono + env.probeTimeout > env.maxInstant then Some(DurationOverflow)
    else None
  }

  function NewProbe(env: ClientEnv, c: Active, anchor: Timestamp, sentAt: Timestamp): PendingProbe {
    PendingProbe(c.nextWireSeq, sentAt, anchor.mono + env.probeTimeout, anchor.wall, None)
  }

  function Commit(c: Active, probe: PendingProbe): Active
    requires c.packetsSent < 0xFFFF_FFFF_FFFF_FFFF
  {
    c.(timedOut := Without(c.timedOut, probe.wireSeq),
       completed := Filtered(c.completed, probe.wireSeq),
       pending := c.pending + [probe],
       nextWireSeq := Succ32(probe.wireSeq),
       packetsSent := c.packetsSent + 1)
  }

  /** One send: `accepted` is when the socket took the datagram, or `None` if it refused, which
      ends kernel timestamp correlation. */
  function Send(env: ClientEnv, c: Active, anchor: Timestamp, storage: bool, accepted: Option<Timestamp>)
    : (Active, Result<u32, ClientError>)
  {
    match Preflight(env, c, anchor, storage)
    case Some(error) => (c, Err(error))
    case None =>
      match accepted
      case None => (c.(kernelTxValid := false), Err(SocketFailed))
      case Some(sentAt) => (Commit(c, NewProbe(env, c, anchor, sentAt)), Ok(c.nextWireSeq))
  }

  // ---------- timeouts ----------

  function Losses(probes: seq<PendingProbe>): (events: seq<Event>)
    ensures |events| == |probes|
  {
    seq(|probes|, i requires 0 <= i < |probes| => EchoLoss(probes[i].wireSeq, probes[i].sentAt, probes[i].timeoutAt))
  }

  function RetainAll(order: seq<PendingProbe>, probes: seq<PendingProbe>, capacity: nat): seq<PendingProbe>
    decreases |probes|
  {
    if probes == [] then order else RetainAll(Retained(order, probes[0], capacity), probes[1..], capacity)
  }

  function Poll(env: ClientEnv, c: Active, now: Instant, limit: nat): (Active, seq<Event>, bool) {
    var n := Taken(c.pending, now, limit);
    (c.(pending := c.pending[n..], timedOut := RetainAll(c.timedOut, c.pending[..n], env.capacity)),
     Losses(c.pending[..n]),
     DuePrefix(c.pending, now) > limit)
  }

  // ---------- replies ----------

  /** How a reply carrying the session's token is classified, and what it changes. */
  function Classify(env: ClientEnv, c: Active, wireSeq: u32, now: Timestamp): (Active, Event) {
    var late := c.highest.Some? && IsBefore(wireSeq, c.highest.value);
    var highestSeen := c.highest.GetOr(wireSeq);
    var raised := UpdateHighest(c.highest, wireSeq);
    match Find(c.pending, wireSeq)
    case Some(probe) =>
      (c.(pending := Without(c.pending, wireSeq), highest := raised,
          completed := Recorded(c.completed, wireSeq, env.capacity)),
       if late then LateReply(wireSeq, highestSeen, Some(probe.sentAt), now)
       else EchoReply(wireSeq, probe.sentAt, now))
    case None =>
      if wireSeq in c.completed then (c.(highest := raised), DuplicateReply(wireSeq))
      else
        match Find(c.timedOut, wireSeq)
        case Some(probe) =>
          (c.(timedOut := Without(c.timedOut, wireSeq), highest := raised,
              completed := Recorded(c.completed, wireSeq, env.capacity)),
           LateReply(wireSeq, highestSeen, Some(probe.sentAt), now))
        case None =>
          (c, if late then LateReply(wireSeq, highestSeen, None, now) else UntrackedReply(wireSeq))
  }

  function ProcessReply(env: ClientEnv, c: Active, reply: E.EchoReply, now: Timestamp): (Client, seq<Event>) {
    if reply.token != env.token then (Open(c), [WrongToken(reply.token)])
    else
      var (next, event) := Classify(env, c, reply.sequence, now);
      if reply.flags.close then (Closed(true, next.packetsSent), [event, SessionClosed(env.token)])
      else (Open(next), [event])
  }

  function ProcessPacket(env: ClientEnv, c: Active, packet: seq<u8>, now: Timestamp): (Client, seq<Event>) {
    match E.DecodeEchoReply(env.mac, packet, env.params, env.key)
    case Err(_) => (Open(c), [MalformedPacket])
    case Ok(reply) => ProcessReply(env, c, reply, now)
  }

  // ---------- kernel timestamps ----------

  function RecordKernelTx(c: Active, wireSeq: u32, timestamp: int): Active {
    if !c.kernelTxValid then c
    else if wireSeq in Seqs(c.pending) then c.(pending := Stamped(c.pending, wireSeq, timestamp))
    else c.(timedOut := Stamped(c.timedOut, wireSeq, timestamp))
  }

  // ---------- what every step keeps ----------

  /** The probes the session still knows, in deadline order: retained first, then pending. */
  function Known(c: Active): seq<PendingProbe> {
    c.timedOut + c.pending
  }

  /** The three stores are pairwise disjoint and within capacity; deadlines are sorted across
      retention and pending and are no later than a send at `anchorNs` would get; the next
      sequence number is the number of packets sent, wrapping. */
  ghost predicate SessionOk(env: ClientEnv, c: Active, anchorNs: Instant) {
    && Distinct(Known(c)) && NoRepeats(c.completed)
    && (forall s :: s in c.completed ==> s !in Seqs(Known(c)))
    && |c.pending| <= env.capacity && |c.timedOut| <= env.capacity && |c.completed| <= env.capacity
    && Sorted(Known(c))
    && (forall p :: p in Known(c) ==> p.timeoutAt <= anchorNs + env.probeTimeout)
    && c.nextWireSeq == Wire(c.packetsSent)
  }

  lemma StartedOk(env: ClientEnv, anchorNs: Instant)
    ensures SessionOk(env, STARTED, anchorNs)
  {
  }

  // ---------- facts about two stores side by side ----------

  lemma SeqsOfConcat(a: seq<PendingProbe>, b: seq<PendingProbe>)
    ensures Seqs(a + b) == Seqs(a) + Seqs(b)
    ensures Distinct(a + b) ==> Distinct(a) && Distinct(b) && Seqs(a) !! Seqs(b)
  {
    var all := a + b;
    forall s | s in Seqs(a) + Seqs(b) ensures s in Seqs(all) {
      if s in Seqs(a) {
        var i :| 0 <= i < |a| && a[i].wireSeq == s;
        assert all[i].wireSeq == s;
      } else {
        var i :| 0 <= i < |b| && b[i].wireSeq == s;
        assert all[|a| + i].wireSeq == s;
      }
    }
    forall s | s in Seqs(all) ensures s in Seqs(a) + Seqs(b) {
      var i :| 0 <= i < |all| && all[i].wireSeq == s;
      if i >= |a| { assert b[i - |a|].wireSeq == s; }
    }
    if Distinct(all) {
      forall i, j | 0 <= i < j < |a| ensures a[i].wireSeq != a[j].wireSeq {
        assert all[i].wireSeq != all[j].wireSeq;
      }
      forall i, j | 0 <= i < j < |b| ensures b[i].wireSeq != b[j].wireSeq {
        assert all[|a| + i].wireSeq != all[|a| + j].wireSeq;
      }
      forall i, j | 0 <= i < |a| && 0 <= j < |b| ensures a[i].wireSeq != b[j].wireSeq {
        assert all[i].wireSeq != all[|a| + j].wireSeq;
      }
    }
  }

  lemma {:induction false} WithoutConcat(a: seq<PendingProbe>, b: seq<PendingProbe>, s: u32)
    ensures Without(a + b, s) == if Find(a, s).Some? then Without(a, s) + b else a + Without(b, s)
  {
    if a == [] {
      assert a + b == b;
    } else {
      var rest := a[1..];
      WithoutConcat(rest, b, s);
      TailOfConcat(a, b);
      ConsConcat(a[0], Without(rest, s), b);
      ConsConcat(a[0], rest, Without(b, s));
    }
  }

  lemma TailOfConcat(a: seq<PendingProbe>, b: seq<PendingProbe>)
    requires a != []
    ensures (a + b)[0] == a[0] && (a + b)[1..] == a[1..] + b && a == [a[0]] + a[1..]
  {
  }

  lemma ConsConcat(x: PendingProbe, a: seq<PendingProbe>, b: seq<PendingProbe>)
    ensures [x] + (a + b) == [x] + a + b
  {
  }

  /** Retention keeps the last `capacity` of everything ever retained in order. */
  function LastOf(order: seq<PendingProbe>, capacity: nat): seq<PendingProbe> {
    order[Max(0, |order| - capacity)..]
  }

  lemma {:induction false} RetainKeepsLast(order: seq<PendingProbe>, probes: seq<PendingProbe>, capacity: nat)
    requires capacity > 0 && |order| <= capacity
    ensures RetainAll(order, probes, capacity) == LastOf(order + probes, capacity)
    decreases |probes|
  {
    hide LastOf, Retained;
    if probes == [] {
      assert order + probes == order;
      AllOfIt(order, capacity);
    } else {
      var once, whole := Retained(order, probes[0], capacity), order + [probes[0]];
      RetainedIsLast(order, probes[0], capacity);
      RetainKeepsLast(once, probes[1..], capacity);
      assert order + probes == whole + probes[1..];
      LastOfLast(whole, probes[1..], capacity);
    }
  }

  lemma AllOfIt(order: seq<PendingProbe>, capacity: nat)
    requires |order| <= capacity
    ensures LastOf(order, capacity) == order
  {
  }

  lemma RetainedIsLast(order: seq<PendingProbe>, probe: PendingProbe, capacity: nat)
    requires capacity > 0 && |order| <= capacity
    ensures Retained(order, probe, capacity) == LastOf(order + [probe], capacity)
    ensures |Retained(order, probe, capacity)| <= capacity
  {
  }

  lemma LastOfLast(a: seq<PendingProbe>, b: seq<PendingProbe>, capacity: nat)
    ensures LastOf(LastOf(a, capacity) + b, capacity) == LastOf(a + b, capacity)
    ensures |LastOf(a, capacity)| <= capacity
  {
  }

  lemma RecordedMeans(order: seq<u32>, s: u32, capacity: nat)
    requires NoRepeats(order) && |order| <= capacity && capacity > 0
    ensures NoRepeats(Recorded(order, s, capacity)) && |Recorded(order, s, capacity)| <= capacity
    ensures s in Recorded(order, s, capacity)
    ensures forall x :: x in Recorded(order, s, capacity) ==> x == s || x in order
  {
  }

  // ---------- each step keeps the invariant ----------

  lemma LaterDeadlines(order: seq<PendingProbe>, latest: Instant, probe: PendingProbe)
    requires Sorted(order) && latest <= probe.timeoutAt
    requires forall p :: p in order ==> p.timeoutAt <= latest
    ensures Sorted(order + [probe])
    ensures forall p :: p in order + [probe] ==> p.timeoutAt <= probe.timeoutAt
  {
    var all := order + [probe];
    forall i, j | 0 <= i < j < |all| ensures all[i].timeoutAt <= all[j].timeoutAt {
      assert all[i] in order;
    }
  }

  lemma WireOfNext(sent: nat)
    ensures Succ32(Wire(sent)) == Wire(sent + 1)
  {
  }

  lemma SendKeeps(env: ClientEnv, c: Active, anchor: Timestamp, storage: bool, accepted: Option<Timestamp>,
                  anchorNs: Instant)
    requires SessionOk(env, c, anchorNs) && anchorNs <= anchor.mono
    ensures SessionOk(env, Send(env, c, anchor, storage, accepted).0, anchor.mono)
  {
    if Preflight(env, c, anchor, storage).None? && accepted.Some? {
      CommitKeeps(env, c, NewProbe(env, c, anchor, accepted.value), anchorNs, anchor.mono);
    }
  }

  lemma CommitKeeps(env: ClientEnv, c: Active, probe: PendingProbe, anchorNs: Instant, nextNs: Instant)
    requires SessionOk(env, c, anchorNs) && anchorNs <= nextNs
    requires probe.wireSeq == c.nextWireSeq && probe.timeoutAt == nextNs + env.probeTimeout
    requires probe.wireSeq !in Seqs(c.pending) && |c.pending| < env.capacity
    requires c.packetsSent < 0xFFFF_FFFF_FFFF_FFFF
    ensures SessionOk(env, Commit(c, probe), nextNs)
  {
    var s, next := probe.wireSeq, Commit(c, probe);
    var rest := Without(Known(c), s);
    StoresAfterCommit(c, probe);
    RemovalMeans(Known(c), s);
    LaterDeadlines(rest, anchorNs + env.probeTimeout, probe);
    WireOfNext(c.packetsSent);
    hide Distinct, Sorted, Seqs, Without, Filtered, NoRepeats;
  }

  lemma StoresAfterCommit(c: Active, probe: PendingProbe)
    requires Distinct(Known(c)) && NoRepeats(c.completed) && probe.wireSeq !in Seqs(c.pending)
    requires forall s :: s in c.completed ==> s !in Seqs(Known(c))
    requires c.packetsSent < 0xFFFF_FFFF_FFFF_FFFF
    ensures var next := Commit(c, probe);
            && Known(next) == Without(Known(c), probe.wireSeq) + [probe]
            && Distinct(Known(next)) && NoRepeats(next.completed)
            && (forall s :: s in next.completed ==> s !in Seqs(Known(next)))
            && |next.timedOut| <= |c.timedOut| && |next.completed| <= |c.completed|
  {
    hide Distinct, NoRepeats, Seqs, Find, Without, Filtered;
    var s, next := probe.wireSeq, Commit(c, probe);
    SeqsOfConcat(c.timedOut, c.pending);
    FindAbsent(c.pending, s);
    WithoutConcat(c.timedOut, c.pending, s);
    FindAbsent(c.timedOut, s);
    RemovalMeans(c.timedOut, s);
    RemovalMeans(Known(c), s);
    FilteredMeans(c.completed, s);
    assert Known(next) == Without(Known(c), s) + [probe];
    SeqsOfAppend(Without(Known(c), s), probe);
  }

  // ---------- repeated polls ----------

  /** Bounded polls at one instant, one for each limit: what is left, and every loss reported. */
  function Polls(env: ClientEnv, c: Active, now: Instant, limits: seq<nat>): (Active, seq<Event>)
    decreases |limits|
  {
    if limits == [] then (c, [])
    else
      var (next, losses, _) := Poll(env, c, now, limits[0]);
      var (left, later) := Polls(env, next, now, limits[1..]);
      (left, losses + later)
  }

  /** One poll as the drain of its first `n` probes. */
  function PollFirst(env: ClientEnv, c: Active, n: nat): (Active, seq<Event>)
    requires n <= |c.pending|
  {
    (c.(pending := c.pending[n..], timedOut := RetainAll(c.timedOut, c.pending[..n], env.capacity)), Losses(c.pending[..n]))
  }

  lemma {:induction false} RetainAllConcat(order: seq<PendingProbe>, a: seq<PendingProbe>, b: seq<PendingProbe>, capacity: nat)
    ensures RetainAll(order, a + b, capacity) == RetainAll(RetainAll(order, a, capacity), b, capacity)
    decreases |a|
  {
    if a == [] {
      assert a + b == b;
    } else {
      assert (a + b)[1..] == a[1..] + b;
      RetainAllConcat(Retained(order, a[0], capacity), a[1..], b, capacity);
    }
  }

  lemma PollFirstTwice(env: ClientEnv, c: Active, a: nat, b: nat)
    requires a + b <= |c.pending|
    ensures var (next, losses) := PollFirst(env, c, a);
            var (left, later) := PollFirst(env, next, b);
            (left, losses + later) == PollFirst(env, c, a + b)
  {
    var rest := c.pending[a..];
    assert c.pending[..a] + rest[..b] == c.pending[..a + b];
    assert rest[b..] == c.pending[a + b..];
    RetainAllConcat(c.timedOut, c.pending[..a], rest[..b], env.capacity);
    assert Losses(c.pending[..a]) + Losses(rest[..b]) == Losses(c.pending[..a + b]);
  }

  lemma {:induction false} PollsTake(env: ClientEnv, c: Active, now: Instant, limits: seq<nat>)
    ensures Polls(env, c, now, limits) == PollFirst(env, c, Taken(c.pending, now, Sum(limits)))
    decreases |limits|
  {
    hide Taken, Poll, PollFirst;
    if limits == [] {
      NoneTaken(env, c, now);
    } else {
      var next := Poll(env, c, now, limits[0]).0;
      PollIsFirst(env, c, now, limits[0]);
      PollsTake(env, next, now, limits[1..]);
      DrainsCompose(c.pending, now, limits[0], Sum(limits[1..]));
      PollFirstTwice(env, c, Taken(c.pending, now, limits[0]), Taken(next.pending, now, Sum(limits[1..])));
    }
  }

  lemma PollIsFirst(env: ClientEnv, c: Active, now: Instant, limit: nat)
    ensures var n, (next, losses, _) := Taken(c.pending, now, limit), Poll(env, c, now, limit);
            (next, losses) == PollFirst(env, c, n) && next.pending == c.pending[n..]
  {
  }

  lemma NoneTaken(env: ClientEnv, c: Active, now: Instant)
    ensures Taken(c.pending, now, 0) == 0 && PollFirst(env, c, 0) == (c, [])
  {
    assert c.pending[0..] == c.pending && c.pending[..0] == [];
  }

  /** Any bounded polls at one instant leave the same session, and report the same losses in the
      same order, as one poll with their summed limit; once nothing more is due, as one unbounded
      poll. */
  lemma PollsAreOnePoll(env: ClientEnv, c: Active, now: Instant, limits: seq<nat>)
    ensures var (left, losses) := Polls(env, c, now, limits);
            && Poll(env, c, now, Sum(limits)).0 == left && Poll(env, c, now, Sum(limits)).1 == losses
            && (DuePrefix(left.pending, now) == 0 ==>
                  forall limit :: limit >= |c.pending| ==>
                    Poll(env, c, now, limit) == (left, losses, false))
  {
    PollsTake(env, c, now, limits);
    var n := Taken(c.pending, now, Sum(limits));
    DuePrefixAfter(c.pending, now, n);
    hide RetainAll;
  }

  /** A poll only forgets the oldest known probes, by eviction. */
  lemma PollSuffix(env: ClientEnv, c: Active, now: Instant, limit: nat) returns (k: nat)
    requires |c.timedOut| <= env.capacity
    ensures k <= |Known(c)| && Known(Poll(env, c, now, limit).0) == Known(c)[k..]
    ensures |Poll(env, c, now, limit).0.timedOut| <= env.capacity
  {
    hide RetainAll, Taken;
    var n := Taken(c.pending, now, limit);
    var upTo := c.timedOut + c.pending[..n];
    RetainKeepsLast(c.timedOut, c.pending[..n], env.capacity);
    k := Max(0, |upTo| - env.capacity);
    assert upTo + c.pending[n..] == Known(c);
    assert upTo[k..] + c.pending[n..] == Known(c)[k..];
  }

  lemma SuffixSeqs(order: seq<PendingProbe>, k: nat)
    requires k <= |order|
    ensures Seqs(order[k..]) <= Seqs(order)
    ensures Distinct(order) ==> Distinct(order[k..])
    ensures Sorted(order) ==> Sorted(order[k..])
  {
    assert order == order[..k] + order[k..];
    SeqsOfConcat(order[..k], order[k..]);
  }

  lemma PollKeeps(env: ClientEnv, c: Active, now: Instant, limit: nat, anchorNs: Instant)
    requires SessionOk(env, c, anchorNs)
    ensures SessionOk(env, Poll(env, c, now, limit).0, anchorNs)
  {
    var k := PollSuffix(env, c, now, limit);
    SuffixSeqs(Known(c), k);
    hide Distinct, Sorted, NoRepeats, Seqs;
  }

  lemma ClassifyKeeps(env: ClientEnv, c: Active, wireSeq: u32, now: Timestamp, anchorNs: Instant)
    requires SessionOk(env, c, anchorNs)
    ensures SessionOk(env, Classify(env, c, wireSeq, now).0, anchorNs)
  {
    FindAbsent(c.pending, wireSeq);
    FindAbsent(c.timedOut, wireSeq);
    SeqsOfConcat(c.timedOut, c.pending);
    WithoutConcat(c.timedOut, c.pending, wireSeq);
    RemovalMeans(Known(c), wireSeq);
    RemovalMeans(c.pending, wireSeq);
    RemovalMeans(c.timedOut, wireSeq);
    RecordedMeans(c.completed, wireSeq, env.capacity);
  }

  lemma StampedKeeps(order: seq<PendingProbe>, wireSeq: u32, timestamp: int)
    ensures var after := Stamped(order, wireSeq, timestamp);
            && Seqs(after) == Seqs(order)
            && (Distinct(order) ==> Distinct(after)) && (Sorted(order) ==> Sorted(after))
            && forall i :: 0 <= i < |order| ==> after[i].timeoutAt == order[i].timeoutAt
  {
    var after := Stamped(order, wireSeq, timestamp);
    forall s | s in Seqs(order) ensures s in Seqs(after) {
      var i :| 0 <= i < |order| && order[i].wireSeq == s;
      assert after[i].wireSeq == s;
    }
  }

  lemma KernelTxKeeps(env: ClientEnv, c: Active, wireSeq: u32, timestamp: int, anchorNs: Instant)
    requires SessionOk(env, c, anchorNs)
    ensures SessionOk(env, RecordKernelTx(c, wireSeq, timestamp), anchorNs)
  {
    if c.kernelTxValid {
      StampedTogether(c, wireSeq, timestamp);
      StampedKeeps(Known(c), wireSeq, timestamp);
      hide Seqs, Distinct, Sorted, NoRepeats, Stamped;
      var next := RecordKernelTx(c, wireSeq, timestamp);
      forall p | p in Known(next) ensures p.timeoutAt <= anchorNs + env.probeTimeout {
        var i :| 0 <= i < |Known(next)| && Known(next)[i] == p;
        assert Known(c)[i] in Known(c);
      }
    }
  }

  /** Stamping the store that holds the number stamps it in both side by side. */
  lemma StampedTogether(c: Active, wireSeq: u32, timestamp: int)
    requires c.kernelTxValid && Distinct(Known(c))
    ensures Known(RecordKernelTx(c, wireSeq, timestamp)) == Stamped(Known(c), wireSeq, timestamp)
  {
    SeqsOfConcat(c.timedOut, c.pending);
    var next := RecordKernelTx(c, wireSeq, timestamp);
    forall i | 0 <= i < |Known(c)| ensures Known(next)[i] == Stamped(Known(c), wireSeq, timestamp)[i] {
      if i < |c.timedOut| {
        assert c.timedOut[i].wireSeq in Seqs(c.timedOut);
      } else {
        assert c.pending[i - |c.timedOut|].wireSeq in Seqs(c.pending);
      }
    }
  }
}
