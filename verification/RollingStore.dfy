/** The store of retained events, updated in place (crates/irtt-stats/src/rolling.rs,
    `RollingEvents`). */
module RollingStore {
  import opened Prelude
  import opened Directional
  import opened Rolling

  // ---------- dropping one live entry ----------

  function Drop(live: seq<Entry>, i: nat): seq<Entry>
    requires i < |live|
  {
    live[..i] + live[i + 1..]
  }

  lemma DropAscends(live: seq<Entry>, i: nat)
    requires Ascending(live) && i < |live|
    ensures Ascending(Drop(live, i))
  {
  }

  lemma IndexesUnique(index: map<ArrivalKey, RollingEvent>, live: seq<Entry>)
    requires Ascending(live) && Indexes(index, live)
    ensures index == ByArrival(live)
  {
    ByArrivalIndexes(live);
    var other := ByArrival(live);
    hide ByArrival;
    forall k ensures k in index <==> k in other {
      if k in index {
        var i :| 0 <= i < |live| && live[i].key == k;
      }
      if k in other {
        var i :| 0 <= i < |live| && live[i].key == k;
      }
    }
    forall k | k in index ensures index[k] == other[k] {
      var i :| 0 <= i < |live| && live[i].key == k;
    }
  }

  lemma KeysDiffer(live: seq<Entry>, i: nat)
    requires Ascending(live) && i < |live|
    ensures forall j :: 0 <= j < |live| && j != i ==> live[j].key != live[i].key
  {
  }

  lemma DropIndexes(index: map<ArrivalKey, RollingEvent>, live: seq<Entry>, i: nat)
    requires Ascending(live) && i < |live| && Indexes(index, live)
    ensures live[i].key in index && Indexes(index - {live[i].key}, Drop(live, i))
  {
    var rest, dropped := Drop(live, i), index - {live[i].key};
    KeysDiffer(live, i);
    hide Ascending;
    forall j | 0 <= j < |rest| ensures rest[j].key in dropped && dropped[rest[j].key] == rest[j].item {
      var was := if j < i then j else j + 1;
      assert rest[j] == live[was] && live[was].key != live[i].key;
    }
    forall k | k in dropped ensures exists j :: 0 <= j < |rest| && rest[j].key == k {
      var was :| 0 <= was < |live| && live[was].key == k;
      assert rest[if was < i then was else was - 1] == live[was];
    }
  }

  lemma DropArrival(live: seq<Entry>, i: nat)
    requires Ascending(live) && i < |live|
    ensures live[i].key in ByArrival(live) && ByArrival(live) - {live[i].key} == ByArrival(Drop(live, i))
  {
    hide Indexes, ByArrival, Ascending, Drop;
    ByArrivalIndexes(live);
    DropIndexes(ByArrival(live), live, i);
    DropAscends(live, i);
    IndexesUnique(ByArrival(live) - {live[i].key}, Drop(live, i));
  }

  lemma DropExpiry(live: seq<Entry>, i: nat)
    requires Ascending(live) && i < |live|
    ensures ByExpiry(live) - {ExpiryOf(live[i])} == ByExpiry(Drop(live, i))
  {
    var rest, dropped := Drop(live, i), ByExpiry(live) - {ExpiryOf(live[i])};
    forall x | x in dropped ensures x in ByExpiry(rest) {
      var was :| 0 <= was < |live| && x == ExpiryOf(live[was]);
      var j := if was < i then was else was - 1;
      assert was != i && rest[j] == live[was];
      assert x == ExpiryOf(rest[j]);
    }
    forall x | x in ByExpiry(rest) ensures x in dropped {
      var j :| 0 <= j < |rest| && x == ExpiryOf(rest[j]);
      var was := if j < i then j else j + 1;
      assert rest[j] == live[was] && live[was].key != live[i].key;
    }
  }

  lemma {:induction false} KeepConcat(a: seq<Entry>, b: seq<Entry>, cutoff: int)
    ensures Keep(a + b, cutoff) == Keep(a, cutoff) + Keep(b, cutoff)
  {
    if b == [] {
      assert a + b == a;
    } else {
      KeepConcat(a, b[..|b| - 1], cutoff);
      assert (a + b)[..|a + b| - 1] == a + b[..|b| - 1];
    }
  }

  lemma DropKeep(live: seq<Entry>, i: nat, cutoff: int)
    requires i < |live| && live[i].item.event.at < cutoff
    ensures Keep(Drop(live, i), cutoff) == Keep(live, cutoff)
  {
    KeepConcat(live[..i], live[i + 1..], cutoff);
    KeepConcat(live[..i], live[i..], cutoff);
    KeepConcat([live[i]], live[i + 1..], cutoff);
    assert live == live[..i] + live[i..] && live[i..] == [live[i]] + live[i + 1..];
  }

  lemma JoinIndexes(live: seq<Entry>, last: Entry)
    requires Ascending(live + [last])
    ensures ByArrival(live + [last]) == ByArrival(live)[last.key := last.item]
    ensures ByExpiry(live + [last]) == ByExpiry(live) + {ExpiryOf(last)}
  {
    var longer := live + [last];
    assert longer[..|longer| - 1] == live;
    assert longer[|live|] == last;
    forall x | x in ByExpiry(live) ensures x in ByExpiry(longer) {
      var i :| 0 <= i < |live| && x == ExpiryOf(live[i]);
      assert longer[i] == live[i];
    }
  }

  // ---------- the first of an ordered index ----------

  lemma {:induction false} SoonestExists(index: set<Expiry>) returns (first: Expiry)
    requires index != {}
    ensures first in index && forall x :: x in index ==> x == first || Sooner(first, x)
  {
    var some :| some in index;
    if index == {some} {
      first := some;
    } else {
      var other := SoonestExists(index - {some});
      first := if Sooner(some, other) then some else other;
      forall x | x in index ensures x == first || Sooner(first, x) {
        assert x == some || x in index - {some};
      }
    }
  }

  lemma {:induction false} EarliestExists(keys: set<ArrivalKey>) returns (first: ArrivalKey)
    requires keys != {}
    ensures first in keys && forall k :: k in keys ==> k == first || Before(first, k)
  {
    var some :| some in keys;
    if keys == {some} {
      first := some;
    } else {
      var other := EarliestExists(keys - {some});
      first := if Before(some, other) then some else other;
      forall x | x in keys ensures x == first || Before(first, x) {
        assert x == some || x in keys - {some};
      }
    }
  }

  // ---------- the newest events ----------

  lemma NewestNext(items: seq<RollingEvent>, item: RollingEvent, limit: nat)
    ensures Newest(Newest(items, limit) + [item], limit) == Newest(items + [item], limit)
  {
  }

  lemma AnnotatedNext(events: seq<Event>, event: Event)
    ensures Annotated(events + [event]) == Annotated(events) + [RollingEvent(event, PositionAfter(events))]
    ensures PositionAfter(events + [event]) == PositionAfter(events).Advance(event)
  {
    assert (events + [event])[..|events|] == events;
  }

  // ---------- the store ----------

  class RollingEvents {
    const timeLimit: Option<nat>
    const countLimit: Option<nat>
    var countEvents: seq<RollingEvent>
    var timeEvents: map<ArrivalKey, RollingEvent>
    var timeExpiry: set<Expiry>
    var timeAnchor: Option<Instant>
    var position: Position
    ghost var history: seq<Event>

    ghost function Everything(): seq<RollingEvent>
      reads this
    {
      Annotated(history)
    }

    /** Both indexes hold exactly the live entries of everything pushed. */
    ghost predicate TimeValid()
      reads this
    {
      if timeLimit.None? then timeEvents == map[] && timeExpiry == {}
      else
        && timeEvents == ByArrival(Live(Everything(), timeLimit.value))
        && timeExpiry == ByExpiry(Live(Everything(), timeLimit.value))
        && timeAnchor == Anchor(Everything())
    }

    ghost predicate Valid()
      reads this
    {
      && position == PositionAfter(history)
      && countEvents == (if countLimit.Some? then Newest(Everything(), countLimit.value) else [])
      && TimeValid()
    }

    constructor (timeLimit: Option<nat>, countLimit: Option<nat>)
      ensures Valid() && history == [] && this.timeLimit == timeLimit && this.countLimit == countLimit
    {
      this.timeLimit, this.countLimit := timeLimit, countLimit;
      countEvents, timeEvents, timeExpiry, timeAnchor, position, history := [], map[], {}, None, START, [];
      new;
      assert ByExpiry([]) == {};
    }

    method Push(event: Event)
      requires Valid()
      modifies this
      ensures Valid()
      ensures history == if timeLimit.Some? || countLimit.Some? then old(history) + [event] else old(history)
    {
      hide Live, Newest, Annotated, PositionAfter, Anchor, Position.Advance;
      if countLimit.None? && timeLimit.None? {
        return;
      }
      AnnotatedNext(history, event);
      var item := RollingEvent(event, position);
      position := position.Advance(event);
      ghost var before := Everything();
      history := history + [event];
      if countLimit.Some? {
        NewestNext(before, item, countLimit.value);
        countEvents := Newest(countEvents + [item], countLimit.value);
      }
      if timeLimit.Some? {
        PushTimed(item, before);
      }
    }

    /** Expires what fell out of the window, then indexes the newcomer unless it is already out. */
    method PushTimed(item: RollingEvent, ghost before: seq<RollingEvent>)
      requires timeLimit.Some? && timeAnchor == Anchor(before)
      requires timeEvents == ByArrival(Live(before, timeLimit.value))
      requires timeExpiry == ByExpiry(Live(before, timeLimit.value))
      modifies `timeEvents, `timeExpiry, `timeAnchor
      ensures timeAnchor == Anchor(before + [item])
      ensures timeEvents == ByArrival(Live(before + [item], timeLimit.value))
      ensures timeExpiry == ByExpiry(Live(before + [item], timeLimit.value))
    {
      hide Live, Anchor, Keep, ByArrival, ByExpiry, InOrder, Ascending, Window, Items, Issued, Indexes;
      var at, duration := item.event.at, timeLimit.value;
      ghost var live := Live(before, duration);
      ghost var anchored := Latest(timeAnchor, at);
      LiveNext(before, item, duration);
      var anchor := Latest(timeAnchor, at);
      timeAnchor := Some(anchor);
      if anchor >= duration {
        var cutoff := anchor - duration;
        ExpireBefore(cutoff, live);
        if at < cutoff {
          return;
        }
      }
      var arrival := ArrivalKey(anchor, |timeEvents|);
      timeExpiry := timeExpiry + {Expiry(at, arrival)};
      timeEvents := timeEvents[arrival := item];
    }

    method ExpireBefore(cutoff: Instant, ghost live: seq<Entry>)
      requires Ascending(live) && timeEvents == ByArrival(live) && timeExpiry == ByExpiry(live)
      modifies `timeEvents, `timeExpiry
      ensures timeEvents == ByArrival(Keep(live, cutoff)) && timeExpiry == ByExpiry(Keep(live, cutoff))
    {
      hide Ascending, ByArrival, Keep, Drop;
      ghost var rest := live;
      while timeExpiry != {}
        invariant Ascending(rest) && Keep(rest, cutoff) == Keep(live, cutoff)
        invariant timeEvents == ByArrival(rest) && timeExpiry == ByExpiry(rest)
        decreases |timeExpiry|
      {
        ghost var soonest := SoonestExists(timeExpiry);
        var first :| first in timeExpiry && forall x :: x in timeExpiry ==> x == first || Sooner(first, x);
        if first.at >= cutoff {
          AllLate(rest, first, cutoff);
          return;
        }
        ghost var i :| 0 <= i < |rest| && first == ExpiryOf(rest[i]);
        DropArrival(rest, i);
        DropExpiry(rest, i);
        DropKeep(rest, i, cutoff);
        DropAscends(rest, i);
        timeExpiry := timeExpiry - {first};
        timeEvents := timeEvents - {first.arrival};
        rest := Drop(rest, i);
      }
      NoneLeft(rest, cutoff);
    }

    /** The retained events in key order: the history filtered to the window, as it arrived. */
    method TimeValues() returns (values: seq<RollingEvent>)
      requires Valid() && timeLimit.Some?
      ensures values == Window(Everything(), timeLimit.value)
    {
      hide Live, Window, Annotated, Anchor, Following, Items;
      ghost var live := Live(Everything(), timeLimit.value);
      LiveAscends(Everything(), timeLimit.value);
      TakeNone(live);
      values := [];
      var remaining := timeEvents;
      ghost var n := 0;
      while remaining != map[]
        invariant 0 <= n <= |live| && values == Items(live)[..n]
        invariant remaining == Following(live, n) && |remaining| == |live| - n
        decreases |remaining|
      {
        ghost var least := EarliestExists(remaining.Keys);
        var first :| first in remaining && forall k :: k in remaining ==> k == first || Before(first, k);
        TakeNext(live, n, first);
        values := values + [remaining[first]];
        remaining := remaining - {first};
        n := n + 1;
      }
      assert Items(live)[..n] == Items(live);
    }

    /** The directional estimate's numerator for the time window. */
    method TimeDelta() returns (delta: Option<nat>)
      requires Valid() && timeLimit.Some?
      ensures delta == Delta(Window(Everything(), timeLimit.value))
    {
      var values := TimeValues();
      ghost var at := WindowDrawn(Everything(), timeLimit.value);
      delta := SnapshotDelta(values, at, history);
    }

    method CountDelta() returns (delta: Option<nat>)
      requires Valid() && countLimit.Some?
      ensures delta == Delta(Newest(Everything(), countLimit.value))
    {
      ghost var at := NewestDrawn(Everything(), countLimit.value);
      delta := SnapshotDelta(countEvents, at, history);
    }
  }

  lemma LiveNext(before: seq<RollingEvent>, item: RollingEvent, duration: nat)
    ensures var live, anchor := Live(before, duration), Latest(Anchor(before), item.event.at);
            var kept := Keep(live, anchor - duration);
            var last := Entry(ArrivalKey(anchor, |kept|), item);
            && Ascending(live) && Anchor(before + [item]) == Some(anchor)
            && |ByArrival(kept)| == |kept|
            && (anchor < duration ==> kept == live)
            && (if item.event.at < anchor - duration then Live(before + [item], duration) == kept
                else
                  && Live(before + [item], duration) == kept + [last]
                  && ByArrival(kept + [last]) == ByArrival(kept)[last.key := item]
                  && ByExpiry(kept + [last]) == ByExpiry(kept) + {ExpiryOf(last)})
  {
    hide Live, Anchor, Keep, Ascending, Items, Window, ByArrival, ByExpiry;
    var live, anchor := Live(before, duration), Latest(Anchor(before), item.event.at);
    var kept := Keep(live, anchor - duration);
    HistoryNext(before, item, anchor - duration);
    LiveAscends(before, duration);
    LiveAscends(before + [item], duration);
    KeepAscends(live, anchor - duration);
    KeptSize(kept);
    if anchor < duration {
      KeepAll(live, anchor - duration);
    }
    LiveStep(before, item, duration);
    if item.event.at >= anchor - duration {
      JoinIndexes(kept, Entry(ArrivalKey(anchor, |kept|), item));
    }
  }

  lemma KeptSize(kept: seq<Entry>)
    requires Ascending(kept)
    ensures |ByArrival(kept)| == |kept|
  {
    ByArrivalIndexes(kept);
  }

  lemma LiveStep(before: seq<RollingEvent>, item: RollingEvent, duration: nat)
    ensures Live(before + [item], duration)
            == NextLive(Live(before, duration), Latest(Anchor(before), item.event.at), item, duration)
  {
    var items := before + [item];
    assert items[..|items| - 1] == before;
  }

  lemma LiveAscends(items: seq<RollingEvent>, duration: nat)
    ensures Ascending(Live(items, duration)) && Items(Live(items, duration)) == Window(items, duration)
  {
    hide Live, Window, Items, Issued;
    LiveIsTheWindow(items, duration);
  }

  lemma AllLate(rest: seq<Entry>, first: Expiry, cutoff: Instant)
    requires forall x :: x in ByExpiry(rest) ==> x == first || Sooner(first, x)
    requires first.at >= cutoff
    ensures Keep(rest, cutoff) == rest
  {
    forall i | 0 <= i < |rest| ensures rest[i].item.event.at >= cutoff {
      assert ExpiryOf(rest[i]) in ByExpiry(rest);
    }
    KeepAll(rest, cutoff);
  }

  lemma HeadExpiry(rest: seq<Entry>)
    ensures rest != [] ==> ExpiryOf(rest[0]) in ByExpiry(rest)
  {
  }

  lemma NoneLeft(rest: seq<Entry>, cutoff: Instant)
    requires ByExpiry(rest) == {}
    ensures Keep(rest, cutoff) == rest
  {
    HeadExpiry(rest);
  }

  /** What the index still holds after the first `n` entries were taken. */
  function Following(live: seq<Entry>, n: nat): map<ArrivalKey, RollingEvent>
    requires n <= |live|
  {
    ByArrival(live[n..])
  }

  lemma TakeNone(live: seq<Entry>)
    requires Ascending(live)
    ensures Following(live, 0) == ByArrival(live) && |ByArrival(live)| == |live|
  {
    ByArrivalIndexes(live);
    assert live[0..] == live;
  }

  lemma TakeNext(live: seq<Entry>, n: nat, first: ArrivalKey)
    requires Ascending(live) && n < |live| && first in Following(live, n)
    requires forall k :: k in Following(live, n) ==> k == first || Before(first, k)
    ensures first == live[n].key && Following(live, n)[first] == live[n].item
    ensures Following(live, n) - {first} == Following(live, n + 1)
    ensures Items(live)[..n] + [live[n].item] == Items(live)[..n + 1]
  {
    assert Items(live)[..n] + [live[n].item] == Items(live)[..n + 1];
    LeastIsNext(live[n..], first);
    hide Items, Ascending, Indexes, ByArrival;
    DropArrival(live[n..], 0);
    assert Drop(live[n..], 0) == live[n + 1..];
  }

  lemma LeastIsNext(rest: seq<Entry>, first: ArrivalKey)
    requires Ascending(rest) && rest != [] && first in ByArrival(rest)
    requires forall k :: k in ByArrival(rest) ==> k == first || Before(first, k)
    ensures first == rest[0].key && ByArrival(rest)[first] == rest[0].item
  {
    ByArrivalIndexes(rest);
    hide ByArrival;
    var head := rest[0].key;
    var i :| 0 <= i < |rest| && rest[i].key == first;
    assert i == 0 || Before(head, rest[i].key);
    assert head == first || Before(first, head);
  }

  // ---------- both windows are drawn from the history ----------

  lemma {:induction false} SinceDrawn(items: seq<RollingEvent>, cutoff: int) returns (at: seq<nat>)
    ensures Drawn(Since(items, cutoff), at, items)
  {
    hide Drawn;
    at := [];
    if items == [] {
      DrawnNone(items);
    } else {
      var n := |items| - 1;
      at := SinceDrawn(items[..n], cutoff);
      var earlier := Since(items[..n], cutoff);
      StillDrawn(earlier, at, items);
      if items[n].event.at >= cutoff {
        DrawnNext(earlier, at, items, items[n], n);
        at := at + [n];
      } else {
        assert earlier + [] == earlier;
      }
    }
  }

  lemma StillDrawn(earlier: seq<RollingEvent>, at: seq<nat>, items: seq<RollingEvent>)
    requires items != [] && Drawn(earlier, at, items[..|items| - 1])
    ensures Drawn(earlier, at, items) && (at != [] ==> at[|at| - 1] < |items| - 1)
  {
  }

  lemma WindowDrawn(items: seq<RollingEvent>, duration: nat) returns (at: seq<nat>)
    ensures Drawn(Window(items, duration), at, items)
  {
    if items == [] {
      at := [];
    } else {
      at := SinceDrawn(items, Anchor(items).value - duration);
    }
  }

  lemma NewestDrawn(items: seq<RollingEvent>, limit: nat) returns (at: seq<nat>)
    ensures Drawn(Newest(items, limit), at, items)
  {
    var first := Max(0, |items| - limit);
    at := From(first, |items| - first);
    assert items[0..] == items;
    SuffixDrawn(items, first);
  }

  function From(first: nat, n: nat): (at: seq<nat>)
    ensures |at| == n && forall i :: 0 <= i < n ==> at[i] == first + i
  {
    seq(n, i requires 0 <= i < n => first + i)
  }

  lemma SuffixDrawn(items: seq<RollingEvent>, first: nat)
    requires first <= |items|
    ensures Drawn(items[first..], From(first, |items| - first), items)
  {
    hide From;
  }
}
