/** The rolling windows of retained events (crates/irtt-stats/src/rolling.rs). */
module Rolling {
  import opened Prelude
  import opened Directional

  /** The largest timestamp seen and the window's length when the event arrived. */
  datatype ArrivalKey = ArrivalKey(anchor: Instant, length: nat)

  predicate Before(a: ArrivalKey, b: ArrivalKey) {
    a.anchor < b.anchor || (a.anchor == b.anchor && a.length < b.length)
  }

  /** An entry of the expiry index: its event's timestamp, then its arrival. */
  datatype Expiry = Expiry(at: Instant, arrival: ArrivalKey)

  predicate Sooner(a: Expiry, b: Expiry) {
    a.at < b.at || (a.at == b.at && Before(a.arrival, b.arrival))
  }

  // ---------- what the windows mean ----------

  /** The events at or after `cutoff`, in order; a cutoff below the clock's origin keeps all. */
  function Since(items: seq<RollingEvent>, cutoff: int): seq<RollingEvent> {
    if items == [] then []
    else
      var last := items[|items| - 1];
      Since(items[..|items| - 1], cutoff) + if last.event.at >= cutoff then [last] else []
  }

  function Anchor(items: seq<RollingEvent>): Option<Instant> {
    if items == [] then None else Some(Latest(Anchor(items[..|items| - 1]), items[|items| - 1].event.at))
  }

  function Latest(anchor: Option<Instant>, at: Instant): Instant {
    if anchor.Some? && anchor.value >= at then anchor.value else at
  }

  /** The history filtered to the last `duration` before its largest timestamp. */
  function Window(items: seq<RollingEvent>, duration: nat): seq<RollingEvent> {
    if items == [] then [] else Since(items, Anchor(items).value - duration)
  }

  /** The newest `limit` of the history. */
  function Newest(items: seq<RollingEvent>, limit: nat): seq<RollingEvent> {
    if |items| <= limit then items else items[|items| - limit..]
  }

  // ---------- the two indexes, as one list of live entries ----------

  datatype Entry = Entry(key: ArrivalKey, item: RollingEvent)

  function Items(live: seq<Entry>): (items: seq<RollingEvent>)
    ensures |items| == |live| && forall i :: 0 <= i < |live| ==> items[i] == live[i].item
  {
    seq(|live|, i requires 0 <= i < |live| => live[i].item)
  }

  predicate Ascending(live: seq<Entry>) {
    forall i, j :: 0 <= i < j < |live| ==> Before(live[i].key, live[j].key)
  }

  function ByArrival(live: seq<Entry>): map<ArrivalKey, RollingEvent> {
    if live == [] then map[] else ByArrival(live[..|live| - 1])[live[|live| - 1].key := live[|live| - 1].item]
  }

  function ExpiryOf(e: Entry): Expiry {
    Expiry(e.item.event.at, e.key)
  }

  function ByExpiry(live: seq<Entry>): set<Expiry> {
    set i | 0 <= i < |live| :: ExpiryOf(live[i])
  }

  /** `index` holds exactly the entries of `live`. */
  ghost predicate Indexes(index: map<ArrivalKey, RollingEvent>, live: seq<Entry>) {
    && |index| == |live|
    && (forall i :: 0 <= i < |live| ==> live[i].key in index && index[live[i].key] == live[i].item)
    && forall k :: k in index ==> exists i :: 0 <= i < |live| && live[i].key == k
  }

  lemma IndexesNext(index: map<ArrivalKey, RollingEvent>, live: seq<Entry>, last: Entry)
    requires Indexes(index, live) && Ascending(live + [last])
    ensures last.key !in index && Indexes(index[last.key := last.item], live + [last])
  {
    var longer, next := live + [last], index[last.key := last.item];
    assert longer[|live|] == last;
    forall k | k in index ensures k != last.key {
      var i :| 0 <= i < |live| && live[i].key == k;
      assert Before(longer[i].key, longer[|live|].key);
    }
    forall k | k in next ensures exists i :: 0 <= i < |longer| && longer[i].key == k {
      if k in index {
        var i :| 0 <= i < |live| && live[i].key == k;
        assert longer[i].key == k;
      }
    }
  }

  lemma {:induction false} ByArrivalIndexes(live: seq<Entry>)
    requires Ascending(live)
    ensures Indexes(ByArrival(live), live)
  {
    if live != [] {
      var n := |live| - 1;
      assert live == live[..n] + [live[n]];
      ByArrivalIndexes(live[..n]);
      hide Indexes;
      IndexesNext(ByArrival(live[..n]), live[..n], live[n]);
    }
  }

  function Keep(live: seq<Entry>, cutoff: int): seq<Entry> {
    if live == [] then []
    else
      var last := live[|live| - 1];
      Keep(live[..|live| - 1], cutoff) + if last.item.event.at >= cutoff then [last] else []
  }

  lemma {:induction false} KeepMembers(live: seq<Entry>, cutoff: int)
    ensures forall e :: e in Keep(live, cutoff) <==> e in live && e.item.event.at >= cutoff
  {
    if live != [] {
      var n := |live| - 1;
      KeepMembers(live[..n], cutoff);
      assert live == live[..n] + [live[n]];
    }
  }

  lemma {:induction false} KeepAscends(live: seq<Entry>, cutoff: int)
    requires Ascending(live)
    ensures Ascending(Keep(live, cutoff))
  {
    if live != [] {
      var n := |live| - 1;
      KeepAscends(live[..n], cutoff);
      KeepMembers(live[..n], cutoff);
      var kept := Keep(live[..n], cutoff);
      forall i | 0 <= i < |kept| ensures Before(kept[i].key, live[n].key) {
        assert kept[i] in kept;
        var j :| 0 <= j < n && live[..n][j] == kept[i];
        assert Before(live[j].key, live[n].key);
      }
    }
  }

  lemma ItemsNext(live: seq<Entry>, e: Entry)
    ensures Items(live + [e]) == Items(live) + [e.item]
  {
  }

  lemma {:induction false} KeepItems(live: seq<Entry>, cutoff: int)
    ensures Items(Keep(live, cutoff)) == Since(Items(live), cutoff)
  {
    if live != [] {
      var n := |live| - 1;
      KeepItems(live[..n], cutoff);
      assert Items(live)[..n] == Items(live[..n]);
      assert Items(live)[n] == live[n].item;
      hide Items;
      var kept := Keep(live[..n], cutoff);
      ItemsNext(kept, live[n]);
      assert kept + [] == kept && Items(kept) + [] == Items(kept);
    }
  }

  /** The live entries after a history of pushes. */
  function Live(items: seq<RollingEvent>, duration: nat): seq<Entry> {
    if items == [] then [] else NextLive(Live(items[..|items| - 1], duration), Anchor(items).value, items[|items| - 1], duration)
  }

  /** Expires what is older than the window, then appends the newcomer unless it is older too. */
  function NextLive(live: seq<Entry>, anchor: Instant, item: RollingEvent, duration: nat): seq<Entry> {
    var kept := Keep(live, anchor - duration);
    if item.event.at < anchor - duration then kept else kept + [Entry(ArrivalKey(anchor, |kept|), item)]
  }

  /** Every key issued over a history of pushes, in order. */
  function Issued(items: seq<RollingEvent>, duration: nat): seq<ArrivalKey> {
    if items == [] then []
    else
      var earlier, last, anchor := items[..|items| - 1], items[|items| - 1], Anchor(items).value;
      Issued(earlier, duration)
      + if last.event.at < anchor - duration then []
        else [ArrivalKey(anchor, |Keep(Live(earlier, duration), anchor - duration)|)]
  }

  /** A key that sorts before whatever key is issued next. */
  predicate Spent(key: ArrivalKey, anchor: Instant, length: nat) {
    Before(key, ArrivalKey(anchor, length))
  }

  /** Every entry is in the window, every key so far is spent, and keys were issued in order. */
  ghost predicate InOrder(live: seq<Entry>, issued: seq<ArrivalKey>, anchor: Instant, duration: nat) {
    && Ascending(live)
    && AllSpent(live, anchor, |live|)
    && (forall i :: 0 <= i < |live| ==> live[i].item.event.at >= anchor - duration)
    && (forall i :: 0 <= i < |issued| ==> Spent(issued[i], anchor, |live|))
    && forall i, j :: 0 <= i < j < |issued| ==> Before(issued[i], issued[j])
  }

  predicate AllSpent(live: seq<Entry>, anchor: Instant, length: nat) {
    forall i :: 0 <= i < |live| ==> Spent(live[i].key, anchor, length)
  }

  lemma {:induction false} KeepAll(live: seq<Entry>, cutoff: int)
    requires forall i :: 0 <= i < |live| ==> live[i].item.event.at >= cutoff
    ensures Keep(live, cutoff) == live
  {
    if live != [] {
      var n := |live| - 1;
      KeepAll(live[..n], cutoff);
      assert live == live[..n] + [live[n]];
    }
  }

  lemma {:induction false} SinceSince(items: seq<RollingEvent>, c: int, c': int)
    requires c <= c'
    ensures Since(Since(items, c), c') == Since(items, c')
  {
    if items != [] {
      var n := |items| - 1;
      SinceSince(items[..n], c, c');
      var earlier := Since(items[..n], c);
      assert (earlier + [items[n]])[..|earlier|] == earlier;
      assert earlier + [] == earlier;
    }
  }

  lemma KeptInOrder(live: seq<Entry>, issued: seq<ArrivalKey>, anchor: Instant, anchor': Instant, duration: nat)
    requires InOrder(live, issued, anchor, duration) && anchor <= anchor'
    ensures InOrder(Keep(live, anchor' - duration), issued, anchor', duration)
  {
    hide Keep, Ascending, Spent, AllSpent;
    var kept := Keep(live, anchor' - duration);
    if anchor' == anchor {
      KeepAll(live, anchor - duration);
    } else {
      KeepAscends(live, anchor' - duration);
      KeptLater(live, anchor, anchor', anchor' - duration);
      forall i | 0 <= i < |issued| ensures Spent(issued[i], anchor', |kept|) {
        SpentLater(issued[i], anchor, |live|, anchor', |kept|);
      }
    }
  }

  /** A spent key stays spent under a later anchor. */
  lemma SpentLater(key: ArrivalKey, anchor: Instant, length: nat, anchor': Instant, length': nat)
    requires Spent(key, anchor, length) && anchor < anchor'
    ensures Spent(key, anchor', length')
  {
  }

  lemma KeptLater(live: seq<Entry>, anchor: Instant, anchor': Instant, cutoff: int)
    requires AllSpent(live, anchor, |live|) && anchor < anchor'
    ensures var kept := Keep(live, cutoff);
            && AllSpent(kept, anchor', |kept|)
            && forall i :: 0 <= i < |kept| ==> kept[i].item.event.at >= cutoff
  {
    KeepMembers(live, cutoff);
    var kept := Keep(live, cutoff);
    hide Keep;
    forall i | 0 <= i < |kept|
      ensures Spent(kept[i].key, anchor', |kept|) && kept[i].item.event.at >= cutoff
    {
      assert kept[i] in kept;
      var j :| 0 <= j < |live| && live[j] == kept[i];
      SpentLater(live[j].key, anchor, |live|, anchor', |kept|);
    }
  }

  lemma JoinInOrder(kept: seq<Entry>, issued: seq<ArrivalKey>, anchor: Instant, duration: nat, item: RollingEvent)
    requires InOrder(kept, issued, anchor, duration) && item.event.at >= anchor - duration
    ensures var key := ArrivalKey(anchor, |kept|);
            InOrder(kept + [Entry(key, item)], issued + [key], anchor, duration)
  {
  }

  lemma NextInOrder(live: seq<Entry>, issued: seq<ArrivalKey>, anchor: Instant, duration: nat, item: RollingEvent)
    requires InOrder(live, issued, anchor, duration)
    ensures var anchor' := Max(anchor, item.event.at);
            var kept := Keep(live, anchor' - duration);
            var longer := issued + if item.event.at < anchor' - duration then [] else [ArrivalKey(anchor', |kept|)];
            InOrder(NextLive(live, anchor', item, duration), longer, anchor', duration)
  {
    hide InOrder, Keep;
    var anchor' := Max(anchor, item.event.at);
    KeptInOrder(live, issued, anchor, anchor', duration);
    if item.event.at >= anchor' - duration {
      JoinInOrder(Keep(live, anchor' - duration), issued, anchor', duration, item);
    } else {
      assert issued + [] == issued;
    }
  }

  lemma NoneInOrder(duration: nat)
    ensures InOrder([], [], 0, duration)
    ensures Live([], duration) == [] && Issued([], duration) == [] && Window([], duration) == []
  {
  }

  /** Keys are issued in strictly ascending order, so none is ever reused and each new arrival sorts
      last; iterating the live entries by key yields exactly the history filtered to the window, in
      order of arrival. */
  lemma {:induction false} LiveIsTheWindow(items: seq<RollingEvent>, duration: nat)
    ensures Items(Live(items, duration)) == Window(items, duration)
    ensures InOrder(Live(items, duration), Issued(items, duration), Anchor(items).GetOr(0), duration)
  {
    hide InOrder, Keep, Items, NextLive;
    if items == [] {
      NoneInOrder(duration);
      NoItems();
    } else {
      var earlier, last := items[..|items| - 1], items[|items| - 1];
      var live, anchor := Live(earlier, duration), Anchor(earlier).GetOr(0);
      LiveIsTheWindow(earlier, duration);
      NextInOrder(live, Issued(earlier, duration), anchor, duration, last);
      assert Anchor(items).value == Max(anchor, last.event.at);
      NextWindow(earlier, live, last, duration);
    }
  }

  lemma NoItems()
    ensures Items([]) == []
  {
  }

  lemma HistoryNext(earlier: seq<RollingEvent>, last: RollingEvent, cutoff: int)
    ensures Anchor(earlier + [last]) == Some(Latest(Anchor(earlier), last.event.at))
    ensures Since(earlier + [last], cutoff)
            == if last.event.at >= cutoff then Since(earlier, cutoff) + [last] else Since(earlier, cutoff)
  {
    var items := earlier + [last];
    assert items[..|items| - 1] == earlier;
  }

  lemma Narrowed(items: seq<RollingEvent>, duration: nat, cutoff: int)
    requires items != [] ==> Anchor(items).value - duration <= cutoff
    ensures Since(Window(items, duration), cutoff) == Since(items, cutoff)
  {
    if items != [] {
      SinceSince(items, Anchor(items).value - duration, cutoff);
    }
  }

  lemma NextWindow(earlier: seq<RollingEvent>, live: seq<Entry>, last: RollingEvent, duration: nat)
    requires Items(live) == Window(earlier, duration)
    ensures var items, anchor := earlier + [last], Latest(Anchor(earlier), last.event.at);
            Items(NextLive(live, anchor, last, duration)) == Window(items, duration)
  {
    hide Since, Keep, Items, Anchor;
    var anchor := Latest(Anchor(earlier), last.event.at);
    var cutoff := anchor - duration;
    AnchorSome(earlier);
    KeepItems(live, cutoff);
    Narrowed(earlier, duration, cutoff);
    HistoryNext(earlier, last, cutoff);
    var kept := Keep(live, cutoff);
    ItemsNext(kept, Entry(ArrivalKey(anchor, |kept|), last));
  }

  lemma AnchorSome(items: seq<RollingEvent>)
    ensures Anchor(items).Some? <==> items != []
  {
  }
}
