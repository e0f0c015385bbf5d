/** Directional loss over a rolling window (crates/irtt-stats/src/rolling.rs, `DirectionalPosition`
    and `snapshot_window`). */
module Directional {
  import opened Prelude

  type Instant = nat

  const HALF_RANGE: nat := 0x8000_0000

  /** A normalized event; of a reply's sample only the server's receive count matters here. */
  datatype Event =
    | Sent(at: Instant)
    | UniqueReply(at: Instant, isLate: bool, receivedCount: Option<u32>)
    | DuplicateReply(at: Instant)
    | Loss(at: Instant)
    | Warning(at: Instant)
    | UntrackedLate(at: Instant)

  predicate IsPacket(event: Event) {
    !event.Loss? && !event.Warning?
  }

  function ServerCount(event: Event): Option<u32> {
    if event.UniqueReply? then event.receivedCount else None
  }

  function AbsDiff(a: nat, b: nat): nat {
    if a < b then b - a else a - b
  }

  datatype Position = Position(
    packetEvents: nat, serverReceived: Option<nat>, serverObservedAt: nat, counterResetAt: nat)
  {
    /** The position after an event; losses and warnings do not move it. */
    function Advance(event: Event): Position {
      if !IsPacket(event) then this
      else Observe(ServerCount(event)).(packetEvents := packetEvents + 1)
    }

    function Observe(count: Option<u32>): Position {
      if count.None? then this
      else
        var reset := Discontinuous(count.value);
        var segment := if reset then this.(serverReceived := None, counterResetAt := packetEvents + 1) else this;
        if segment.serverReceived.None? || count.value >= segment.serverReceived.value then
          segment.(serverReceived := Some(count.value), serverObservedAt := packetEvents + 1)
        else segment
    }

    predicate Discontinuous(count: u32) {
      serverReceived.Some? && AbsDiff(serverReceived.value, count) >= HALF_RANGE
    }
  }

  const START := Position(0, None, 0, 0)

  /** An event and the position before it. */
  datatype RollingEvent = RollingEvent(event: Event, before: Position) {
    function After(): Position {
      before.Advance(event)
    }
  }

  function PositionAfter(events: seq<Event>): Position {
    if events == [] then START else PositionAfter(events[..|events| - 1]).Advance(events[|events| - 1])
  }

  /** Everything ever pushed, each event with the position it found. */
  function Annotated(events: seq<Event>): (history: seq<RollingEvent>)
    ensures |history| == |events|
  {
    if events == [] then []
    else
      var earlier := events[..|events| - 1];
      Annotated(earlier) + [RollingEvent(events[|events| - 1], PositionAfter(earlier))]
  }

  function Packets(items: seq<RollingEvent>): seq<RollingEvent> {
    if items == [] then []
    else
      var last := items[|items| - 1];
      Packets(items[..|items| - 1]) + if IsPacket(last.event) then [last] else []
  }

  // ---------- the packet history ----------

  /** The position after the first `n` packet events. */
  function At(packets: seq<RollingEvent>, n: nat): Position
    requires n <= |packets|
  {
    if n == 0 then START else packets[n - 1].After()
  }

  ghost predicate PacketChain(packets: seq<RollingEvent>) {
    forall j :: 0 <= j < |packets| ==> IsPacket(packets[j].event) && packets[j].before == At(packets, j)
  }

  lemma {:induction false} HistoryChain(events: seq<Event>)
    ensures var packets := Packets(Annotated(events));
            PacketChain(packets) && At(packets, |packets|) == PositionAfter(events)
  {
    if events != [] {
      var earlier, history := events[..|events| - 1], Annotated(events);
      HistoryChain(earlier);
      assert history[..|history| - 1] == Annotated(earlier);
      ChainNext(Packets(Annotated(earlier)), history[|history| - 1]);
    }
  }

  lemma ChainNext(packets: seq<RollingEvent>, item: RollingEvent)
    requires PacketChain(packets) && item.before == At(packets, |packets|)
    ensures var longer := packets + if IsPacket(item.event) then [item] else [];
            PacketChain(longer) && At(longer, |longer|) == item.After()
  {
    hide At;
    if IsPacket(item.event) {
      var longer := packets + [item];
      forall j | 0 <= j < |longer| ensures IsPacket(longer[j].event) && longer[j].before == At(longer, j) {
        AtLonger(packets, item, j);
        assert j < |packets| ==> longer[j] == packets[j];
      }
      AtLonger(packets, item, |packets| + 1);
    } else {
      assert packets + [] == packets;
    }
  }

  lemma AtLonger(packets: seq<RollingEvent>, item: RollingEvent, j: nat)
    requires j <= |packets| + 1
    ensures At(packets + [item], j) == if j <= |packets| then At(packets, j) else item.After()
  {
  }

  lemma ChainStart(packets: seq<RollingEvent>)
    ensures At(packets, 0) == START
  {
  }

  lemma ChainStep(packets: seq<RollingEvent>, n: nat)
    requires PacketChain(packets) && n < |packets|
    ensures IsPacket(packets[n].event) && packets[n].before == At(packets, n)
    ensures At(packets, n + 1) == packets[n].After() == At(packets, n).Advance(packets[n].event)
  {
  }

  lemma {:induction false} Ordinals(packets: seq<RollingEvent>, n: nat)
    requires PacketChain(packets) && n <= |packets|
    ensures var p := At(packets, n);
            p.packetEvents == n && p.serverObservedAt <= n && p.counterResetAt <= n
  {
    hide PacketChain, At;
    if n == 0 {
      ChainStart(packets);
    } else {
      Ordinals(packets, n - 1);
      ChainStep(packets, n - 1);
    }
  }

  /** This packet's count starts a new observation segment. */
  predicate Resets(item: RollingEvent) {
    ServerCount(item.event).Some? && item.before.Discontinuous(ServerCount(item.event).value)
  }

  /** Between two points with no reset the segment stays the same and its highest count never
      decreases; with a reset the segment is a later one. */
  lemma {:induction false} SegmentRises(packets: seq<RollingEvent>, i: nat, j: nat)
    requires PacketChain(packets) && i <= j <= |packets|
    ensures var p, q := At(packets, i), At(packets, j);
            && p.counterResetAt <= q.counterResetAt
            && (p.counterResetAt == q.counterResetAt <==> forall k :: i <= k < j ==> !Resets(packets[k]))
            && (p.counterResetAt == q.counterResetAt && p.serverReceived.Some? ==>
                  q.serverReceived.Some? && p.serverReceived.value <= q.serverReceived.value)
    decreases j
  {
    hide PacketChain, At;
    if i < j {
      SegmentRises(packets, i, j - 1);
      Ordinals(packets, j - 1);
      ChainStep(packets, j - 1);
    }
  }

  /** Over the packets from `first` to `n`: the highest count, and the ordinal of the last packet
      that reported it. */
  predicate HighestReported(packets: seq<RollingEvent>, first: nat, n: nat, highest: Option<nat>, ordinal: nat)
    requires first <= n <= |packets|
  {
    && (highest.None? <==> forall k :: first <= k < n ==> ServerCount(packets[k].event).None?)
    && (highest.Some? ==>
          && first < ordinal <= n && ServerCount(packets[ordinal - 1].event) == highest
          && (forall k :: first <= k < n && ServerCount(packets[k].event).Some? ==>
                ServerCount(packets[k].event).value <= highest.value)
          && forall k :: ordinal <= k < n ==> ServerCount(packets[k].event) != highest)
  }

  function SegmentStart(p: Position): nat {
    if p.counterResetAt == 0 then 0 else p.counterResetAt - 1
  }

  lemma HighestStep(packets: seq<RollingEvent>, n: nat, p: Position)
    requires n < |packets| && IsPacket(packets[n].event) && p.packetEvents == n
    requires p.counterResetAt <= n && HighestReported(packets, SegmentStart(p), n, p.serverReceived, p.serverObservedAt)
    ensures var q := p.Advance(packets[n].event);
            && q.counterResetAt <= n + 1
            && HighestReported(packets, SegmentStart(q), n + 1, q.serverReceived, q.serverObservedAt)
  {
  }

  /** `n` packets in, the position holds the highest count reported since the segment began, and
      the ordinal of the last packet that reported it. */
  lemma {:induction false} PeakIsTheMaximum(packets: seq<RollingEvent>, n: nat)
    requires PacketChain(packets) && n <= |packets|
    ensures var p := At(packets, n);
            && p.counterResetAt <= n
            && HighestReported(packets, SegmentStart(p), n, p.serverReceived, p.serverObservedAt)
  {
    hide PacketChain, At, HighestReported, Position.Advance, IsPacket;
    if n == 0 {
      ChainStart(packets);
      NothingReported(packets);
    } else {
      PeakIsTheMaximum(packets, n - 1);
      Ordinals(packets, n - 1);
      ChainStep(packets, n - 1);
      HighestStep(packets, n - 1, At(packets, n - 1));
    }
  }

  lemma NothingReported(packets: seq<RollingEvent>)
    ensures HighestReported(packets, 0, 0, None, 0)
  {
  }

  // ---------- the rise over a window ----------

  /** Each packet's ordinal follows the one before. */
  predicate GapFree(packets: seq<RollingEvent>) {
    forall i :: 0 < i < |packets| ==> packets[i - 1].After().packetEvents == packets[i].before.packetEvents
  }

  function DeltaBetween(start: Position, end: Position): Option<int> {
    if start.counterResetAt != end.counterResetAt || end.serverReceived.None? then None
    else if start.packetEvents == 0 then Some(end.serverReceived.value)
    else if start.serverObservedAt == start.packetEvents && start.serverReceived.Some? then
      Some(end.serverReceived.value - start.serverReceived.value)
    else None
  }

  function Delta(items: seq<RollingEvent>): Option<int> {
    var packets := Packets(items);
    if packets == [] || !GapFree(packets) then None
    else DeltaBetween(packets[0].before, packets[|packets| - 1].After())
  }

  /** `items` are the events at increasing positions `at` of the history. */
  ghost predicate Drawn(items: seq<RollingEvent>, at: seq<nat>, history: seq<RollingEvent>) {
    && |at| == |items|
    && (forall i :: 0 <= i < |at| ==> at[i] < |history| && items[i] == history[at[i]])
    && forall i, j :: 0 <= i < j < |at| ==> at[i] < at[j]
  }

  /** The snapshot's one pass over the retained events. No subtraction underflows. */
  method SnapshotDelta(items: seq<RollingEvent>, ghost at: seq<nat>, ghost events: seq<Event>)
    returns (delta: Option<nat>)
    requires Drawn(items, at, Annotated(events))
    ensures delta == Delta(items)
  {
    hide Packets, GapFree, Annotated, Drawn, Position.Advance;
    NoPackets(items);
    var start: Option<Position>, end: Option<Position> := None, None;
    var contiguous := true;
    for n := 0 to |items|
      invariant start.Some? <==> Packets(items[..n]) != []
      invariant end.Some? <==> Packets(items[..n]) != []
      invariant start.Some? ==> start.value == Packets(items[..n])[0].before
      invariant end.Some? ==> end.value == Packets(items[..n])[|Packets(items[..n])| - 1].After()
      invariant contiguous <==> GapFree(Packets(items[..n]))
    {
      var event := items[n];
      PacketsNext(items, n);
      GapFreeNext(Packets(items[..n]), event);
      var after := event.before.Advance(event.event);
      if IsPacket(event.event) {
        if start.None? {
          start := Some(event.before);
        }
        if end.Some? && end.value.packetEvents != event.before.packetEvents {
          contiguous := false;
        }
        end := Some(after);
      }
    }
    NoUnderflow(items, at, events);
    if start.None? || end.None? || !contiguous || start.value.counterResetAt != end.value.counterResetAt {
      return None;
    }
    var baseline: nat := 0;
    if start.value.packetEvents == 0 {
      baseline := 0;
    } else if start.value.serverObservedAt == start.value.packetEvents {
      if start.value.serverReceived.None? {
        return None;
      }
      baseline := start.value.serverReceived.value;
    } else {
      return None;
    }
    if end.value.serverReceived.None? {
      return None;
    }
    return Some(end.value.serverReceived.value - baseline);
  }

  lemma NoPackets(items: seq<RollingEvent>)
    ensures Packets([]) == Packets(items[..0]) == [] && GapFree([])
    ensures items[..|items|] == items
  {
  }

  lemma PacketsNext(items: seq<RollingEvent>, n: nat)
    requires n < |items|
    ensures Packets(items[..n + 1])
            == if IsPacket(items[n].event) then Packets(items[..n]) + [items[n]] else Packets(items[..n])
  {
    assert items[..n + 1][..n] == items[..n];
  }

  lemma GapFreeNext(packets: seq<RollingEvent>, item: RollingEvent)
    ensures GapFree(packets + [item]) <==>
              && GapFree(packets)
              && (packets != [] ==> packets[|packets| - 1].After().packetEvents == item.before.packetEvents)
  {
    var longer := packets + [item];
    if GapFree(longer) {
      forall i | 0 < i < |packets|
        ensures packets[i - 1].After().packetEvents == packets[i].before.packetEvents
      {
        assert longer[i] == packets[i] && longer[i - 1] == packets[i - 1];
      }
      assert packets != [] ==> longer[|packets| - 1] == packets[|packets| - 1] && longer[|packets|] == item;
    }
  }

  // ---------- what a reported delta means ----------

  /** The retained packets are the run `a..b` of the packet history, inside one segment, with the
      segment's highest count before the run reported by the packet just before it. */
  ghost predicate Supports(packets: seq<RollingEvent>, retained: seq<RollingEvent>, a: nat, b: nat) {
    && a < b <= |packets| && retained == packets[a..b]
    && (forall k :: a <= k < b ==> !Resets(packets[k]))
    && BaselineReported(packets, a)
    && At(packets, b).serverReceived.Some?
  }

  predicate BaselineReported(packets: seq<RollingEvent>, a: nat)
    requires a <= |packets|
  {
    a == 0 || (At(packets, a).serverReceived.Some? && ServerCount(packets[a - 1].event) == At(packets, a).serverReceived)
  }

  function Rise(packets: seq<RollingEvent>, a: nat, b: nat): int
    requires a <= b <= |packets| && BaselineReported(packets, a) && At(packets, b).serverReceived.Some?
  {
    At(packets, b).serverReceived.value - if a == 0 then 0 else At(packets, a).serverReceived.value
  }

  lemma {:induction false} PacketsPrefix(history: seq<RollingEvent>, h: nat, h': nat)
    requires h <= h' <= |history|
    ensures Packets(history[..h]) <= Packets(history[..h'])
    decreases h'
  {
    hide Packets;
    if h < h' {
      PacketsPrefix(history, h, h' - 1);
      PacketsNext(history, h' - 1);
    }
  }

  /** The packets among drawn events are packets of the history, in order. */
  lemma {:induction false} DrawnPackets(items: seq<RollingEvent>, at: seq<nat>, history: seq<RollingEvent>)
    returns (where: seq<nat>)
    requires Drawn(items, at, history)
    ensures Drawn(Packets(items), where, Packets(history))
    ensures where != [] ==> at != [] && where[|where| - 1] < |Packets(history[..at[|at| - 1] + 1])|
  {
    hide Packets, Drawn;
    if items == [] {
      where := [];
      NoPackets([]);
      DrawnNone(Packets(history));
    } else {
      var n := |items| - 1;
      assert items[..n + 1] == items && history[..|history|] == history;
      DrawnInit(items, at, history);
      var earlier := DrawnPackets(items[..n], at[..n], history);
      PacketsNext(items, n);
      PacketsNext(history, at[n]);
      PacketsPrefix(history, at[n] + 1, |history|);
      if n > 0 {
        PacketsPrefix(history, at[n - 1] + 1, at[n]);
      }
      where := earlier;
      if IsPacket(items[n].event) {
        DrawnNext(Packets(items[..n]), earlier, Packets(history), items[n], |Packets(history[..at[n]])|);
        where := earlier + [|Packets(history[..at[n]])|];
      }
    }
  }

  lemma DrawnNone(history: seq<RollingEvent>)
    ensures Drawn([], [], history)
  {
  }

  lemma DrawnInit(items: seq<RollingEvent>, at: seq<nat>, history: seq<RollingEvent>)
    requires Drawn(items, at, history) && items != []
    ensures var n := |items| - 1;
            && |at| == n + 1 && Drawn(items[..n], at[..n], history)
            && at[n] < |history| && items[n] == history[at[n]] && (n > 0 ==> at[n - 1] < at[n])
  {
  }

  lemma DrawnNext(items: seq<RollingEvent>, at: seq<nat>, history: seq<RollingEvent>, item: RollingEvent, where: nat)
    requires Drawn(items, at, history) && where < |history| && history[where] == item
    requires at != [] ==> at[|at| - 1] < where
    ensures Drawn(items + [item], at + [where], history)
  {
  }

  lemma DrawnOrdinals(retained: seq<RollingEvent>, where: seq<nat>, packets: seq<RollingEvent>)
    requires PacketChain(packets) && Drawn(retained, where, packets)
    ensures forall i :: 0 <= i < |where| ==>
              && retained[i].before == At(packets, where[i]) && retained[i].After() == At(packets, where[i] + 1)
              && retained[i].before.packetEvents == where[i] && retained[i].After().packetEvents == where[i] + 1
  {
    hide PacketChain, At;
    forall i | 0 <= i < |where|
      ensures retained[i].before == At(packets, where[i]) && retained[i].After() == At(packets, where[i] + 1)
      ensures retained[i].before.packetEvents == where[i] && retained[i].After().packetEvents == where[i] + 1
    {
      ChainStep(packets, where[i]);
      Ordinals(packets, where[i]);
    }
  }

  predicate Consecutive(where: seq<nat>) {
    forall i :: 0 <= i < |where| ==> where[i] == where[0] + i
  }

  lemma {:induction false} StepsAreConsecutive(where: seq<nat>, n: nat)
    requires forall i {:trigger where[i]} :: 0 < i < |where| ==> where[i] == where[i - 1] + 1
    requires n <= |where|
    ensures forall i :: 0 <= i < n ==> where[i] == where[0] + i
  {
    if n > 0 {
      StepsAreConsecutive(where, n - 1);
    }
  }

  /** A gap-free selection of the packet history has consecutive ordinals. */
  lemma GapFreeIsConsecutive(retained: seq<RollingEvent>, where: seq<nat>, packets: seq<RollingEvent>)
    requires PacketChain(packets) && Drawn(retained, where, packets)
    ensures GapFree(retained) <==> Consecutive(where)
  {
    DrawnOrdinals(retained, where, packets);
    hide PacketChain, At, Drawn, RollingEvent.After;
    assert |where| == |retained|;
    if GapFree(retained) {
      forall i | 0 < i < |where| ensures where[i] == where[i - 1] + 1 {
        assert retained[i - 1].After().packetEvents == retained[i].before.packetEvents;
      }
      StepsAreConsecutive(where, |where|);
    }
  }

  /** It is then the run of the history that begins at its first ordinal, and no other. */
  lemma RunExactly(retained: seq<RollingEvent>, where: seq<nat>, packets: seq<RollingEvent>, a: nat, b: nat)
    requires PacketChain(packets) && Drawn(retained, where, packets) && retained != [] && a < b <= |packets|
    ensures retained == packets[a..b] <==> Consecutive(where) && where[0] == a && a + |where| == b
  {
    if retained == packets[a..b] {
      RunIsConsecutive(retained, where, packets, a, b);
    }
    if Consecutive(where) && where[0] == a && a + |where| == b {
      ConsecutiveIsRun(retained, where, packets);
    }
  }

  lemma RunIsConsecutive(retained: seq<RollingEvent>, where: seq<nat>, packets: seq<RollingEvent>, a: nat, b: nat)
    requires PacketChain(packets) && Drawn(retained, where, packets) && retained != [] && a < b <= |packets|
    requires retained == packets[a..b]
    ensures Consecutive(where) && where[0] == a && a + |where| == b
  {
    hide PacketChain, At, RollingEvent.After;
    DrawnOrdinals(retained, where, packets);
    assert |where| == b - a;
    forall i | 0 <= i < |where| ensures where[i] == a + i {
      ChainStep(packets, a + i);
      Ordinals(packets, a + i);
      assert retained[i] == packets[a + i];
    }
  }

  lemma ConsecutiveIsRun(retained: seq<RollingEvent>, where: seq<nat>, packets: seq<RollingEvent>)
    requires Drawn(retained, where, packets) && where != [] && Consecutive(where)
    ensures where[0] + |where| <= |packets| && retained == packets[where[0]..where[0] + |where|]
  {
    assert where[|where| - 1] == where[0] + |where| - 1;
    var run := packets[where[0]..where[0] + |where|];
    assert forall i :: 0 <= i < |where| ==> retained[i] == run[i];
  }

  lemma DrawnBounds(items: seq<RollingEvent>, at: seq<nat>, history: seq<RollingEvent>)
    requires Drawn(items, at, history)
    ensures |at| == |items|
    ensures items != [] ==> at[0] <= at[|at| - 1] < |history|
  {
  }

  /** What the retained packets show at their ends. */
  lemma Ends(items: seq<RollingEvent>, at: seq<nat>, events: seq<Event>) returns (where: seq<nat>)
    requires Drawn(items, at, Annotated(events))
    ensures var packets, retained := Packets(Annotated(events)), Packets(items);
            && PacketChain(packets) && Drawn(retained, where, packets)
            && (GapFree(retained) <==> Consecutive(where))
            && (retained != [] ==>
                  && retained[0].before == At(packets, where[0])
                  && retained[|retained| - 1].After() == At(packets, where[|where| - 1] + 1)
                  && where[0] < where[|where| - 1] + 1)
  {
    hide PacketChain, At, Packets, Annotated, GapFree, Drawn, Consecutive, RollingEvent.After;
    HistoryChain(events);
    where := DrawnPackets(items, at, Annotated(events));
    DrawnBounds(Packets(items), where, Packets(Annotated(events)));
    DrawnOrdinals(Packets(items), where, Packets(Annotated(events)));
    GapFreeIsConsecutive(Packets(items), where, Packets(Annotated(events)));
  }

  lemma NoUnderflow(items: seq<RollingEvent>, at: seq<nat>, events: seq<Event>)
    requires Drawn(items, at, Annotated(events))
    ensures Delta(items).Some? ==> Delta(items).value >= 0
  {
    hide PacketChain, At, Packets, Annotated, GapFree, Resets, RollingEvent.After;
    var where := Ends(items, at, events);
    if Packets(items) != [] {
      SegmentRises(Packets(Annotated(events)), where[0], where[|where| - 1] + 1);
    }
  }

  lemma BaselineExactly(packets: seq<RollingEvent>, a: nat)
    requires PacketChain(packets) && a <= |packets|
    ensures At(packets, a).packetEvents == a
    ensures BaselineReported(packets, a) <==>
              a == 0 || (At(packets, a).serverObservedAt == a && At(packets, a).serverReceived.Some?)
  {
    hide PacketChain, At;
    Ordinals(packets, a);
    if a > 0 {
      Ordinals(packets, a - 1);
      ChainStep(packets, a - 1);
    }
  }

  /** Whatever was retained of the history, a delta is reported exactly when the retained packets
      are a gap-free run of the packet history inside one segment with a known baseline, and it is
      the rise of that segment's highest count over the run, never negative. */
  lemma DeltaExactly(items: seq<RollingEvent>, at: seq<nat>, events: seq<Event>)
    requires Drawn(items, at, Annotated(events))
    ensures var packets, retained := Packets(Annotated(events)), Packets(items);
            && (Delta(items).Some? <==> exists a, b :: Supports(packets, retained, a, b))
            && forall a, b :: Supports(packets, retained, a, b) ==>
                                Delta(items) == Some(Rise(packets, a, b)) && Rise(packets, a, b) >= 0
  {
    hide PacketChain, At, Packets, Annotated, GapFree, Resets, Consecutive, RollingEvent.After;
    var packets, retained := Packets(Annotated(events)), Packets(items);
    var where := Ends(items, at, events);
    if retained != [] {
      var x, y := where[0], where[|where| - 1] + 1;
      SegmentRises(packets, x, y);
      BaselineExactly(packets, x);
      NoUnderflow(items, at, events);
      SupportsExactly(retained, where, packets, x, y);
      forall a, b | Supports(packets, retained, a, b) ensures a == x && b == y {
        RunExactly(retained, where, packets, a, b);
        ConsecutiveEnd(where);
      }
    }
  }

  lemma ConsecutiveEnd(where: seq<nat>)
    requires where != [] && Consecutive(where)
    ensures where[|where| - 1] + 1 == where[0] + |where|
  {
  }

  lemma SupportsExactly(retained: seq<RollingEvent>, where: seq<nat>, packets: seq<RollingEvent>, x: nat, y: nat)
    requires PacketChain(packets) && Drawn(retained, where, packets) && retained != []
    requires x == where[0] && y == where[|where| - 1] + 1
    ensures Supports(packets, retained, x, y) <==>
              && Consecutive(where) && BaselineReported(packets, x) && At(packets, y).serverReceived.Some?
              && At(packets, x).counterResetAt == At(packets, y).counterResetAt
  {
    hide PacketChain, At, Drawn, Resets, Consecutive, BaselineReported;
    DrawnBounds(retained, where, packets);
    SegmentRises(packets, x, y);
    RunExactly(retained, where, packets, x, y);
    if Consecutive(where) {
      ConsecutiveEnd(where);
    }
  }
}
