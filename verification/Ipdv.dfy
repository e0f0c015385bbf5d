/** Delay variation between adjacent probes (crates/irtt-stats/src/ipdv.rs). */
module Ipdv {
  import opened Prelude

  type Instant = nat

  datatype Sample = Sample(
    seqNo: u32,
    rtt: int,
    clientSendMono: Instant,
    clientReceiveMono: Instant,
    clientSendWall: Option<int>,
    clientReceiveWall: Option<int>,
    serverReceiveMono: Option<i64>,
    serverSendMono: Option<i64>,
    serverReceiveWall: Option<i64>,
    serverSendWall: Option<i64>)

  datatype CompletedPair = CompletedPair(
    previousSeq: u32, currentSeq: u32, rttIpdv: int, sendIpdv: Option<int>, receiveIpdv: Option<int>)

  function SendIpdv(previous: Sample, current: Sample): Option<int> {
    if previous.serverReceiveMono.Some? && current.serverReceiveMono.Some? then
      Some(current.serverReceiveMono.value - previous.serverReceiveMono.value
           - (current.clientSendMono - previous.clientSendMono))
    else if previous.serverReceiveWall.Some? && current.serverReceiveWall.Some?
            && previous.clientSendWall.Some? && current.clientSendWall.Some? then
      Some(current.serverReceiveWall.value - previous.serverReceiveWall.value
           - (current.clientSendWall.value - previous.clientSendWall.value))
    else None
  }

  function ReceiveIpdv(previous: Sample, current: Sample): Option<int> {
    if previous.serverSendMono.Some? && current.serverSendMono.Some? then
      Some(current.clientReceiveMono - previous.clientReceiveMono
           - (current.serverSendMono.value - previous.serverSendMono.value))
    else if previous.serverSendWall.Some? && current.serverSendWall.Some?
            && previous.clientReceiveWall.Some? && current.clientReceiveWall.Some? then
      Some(current.clientReceiveWall.value - previous.clientReceiveWall.value
           - (current.serverSendWall.value - previous.serverSendWall.value))
    else None
  }

  function PairOf(previous: Sample, current: Sample): CompletedPair {
    CompletedPair(previous.seqNo, current.seqNo, current.rtt - previous.rtt,
                  SendIpdv(previous, current), ReceiveIpdv(previous, current))
  }

  /** Both server readings of each clock still fit 64 bits when that clock is moved ahead. */
  predicate CanShift(s: Sample, mono: int, wall: int) {
    && Shifts(s.serverReceiveMono, mono) && Shifts(s.serverSendMono, mono)
    && Shifts(s.serverReceiveWall, wall) && Shifts(s.serverSendWall, wall)
  }

  /** The sample with the server's monotonic clock `mono` ahead and its wall clock `wall` ahead. */
  function Ahead(s: Sample, mono: int, wall: int): Sample
    requires CanShift(s, mono, wall)
  {
    s.(serverReceiveMono := Shifted(s.serverReceiveMono, mono),
       serverSendMono := Shifted(s.serverSendMono, mono),
       serverReceiveWall := Shifted(s.serverReceiveWall, wall),
       serverSendWall := Shifted(s.serverSendWall, wall))
  }

  predicate Shifts(at: Option<i64>, offset: int) {
    at.Some? ==> -0x8000_0000_0000_0000 <= at.value + offset <= I64_MAX
  }

  function Shifted(at: Option<i64>, offset: int): Option<i64>
    requires Shifts(at, offset)
  {
    if at.Some? then Some(at.value + offset) else None
  }

  /** Neither direction's variation depends on how far apart the two ends' clocks are, the
      monotonic and the wall clocks each by their own distance. */
  lemma ClockOffsetCancels(previous: Sample, current: Sample, mono: int, wall: int)
    requires CanShift(previous, mono, wall) && CanShift(current, mono, wall)
    ensures PairOf(Ahead(previous, mono, wall), Ahead(current, mono, wall)) == PairOf(previous, current)
  {
  }

  /** `wrapping_sub(1)` on 32 bits. */
  function Pred32(x: u32): u32 {
    WrappingSub32(x, 1)
  }

  /** The sequences whose predecessor is there too. */
  function Adjacent(kept: set<u32>): set<u32> {
    set s | s in kept && Pred32(s) in kept
  }

  predicate Distinct(order: seq<u32>) {
    forall i, j :: 0 <= i < j < |order| ==> order[i] != order[j]
  }

  // ---------- what the tracker means ----------

  /** The samples kept, and their sequences in order of first arrival. */
  datatype Retained = Retained(samples: map<u32, Sample>, order: seq<u32>) {
    predicate Valid() {
      && Distinct(order)
      && (forall s: u32 :: s in order <==> s in samples)
      && forall s: u32 :: s in samples ==> samples[s].seqNo == s
    }
  }

  const EMPTY := Retained(map[], [])

  /** The newest `limit` of an order. */
  function Newest(order: seq<u32>, limit: Option<nat>): seq<u32> {
    if limit.None? || |order| <= limit.value then order else order[|order| - limit.value..]
  }

  function Restrict(samples: map<u32, Sample>, order: seq<u32>): map<u32, Sample> {
    map s | s in samples && s in order :: samples[s]
  }

  /** A known sequence has its sample replaced; a new one joins and may push out the oldest. */
  function After(r: Retained, sample: Sample, limit: Option<nat>): Retained {
    if sample.seqNo in r.samples then r.(samples := r.samples[sample.seqNo := sample])
    else
      var order := Newest(r.order + [sample.seqNo], limit);
      Retained(Restrict(r.samples[sample.seqNo := sample], order), order)
  }

  function PairAt(samples: map<u32, Sample>, s: u32): seq<CompletedPair> {
    if s in samples && Pred32(s) in samples then [PairOf(samples[Pred32(s)], samples[s])] else []
  }

  /** A replaced sample emits nothing; a new one the pair it ends and the pair it starts. */
  function Emitted(r: Retained, sample: Sample, limit: Option<nat>): seq<CompletedPair> {
    if sample.seqNo in r.samples then []
    else
      var samples := After(r, sample, limit).samples;
      PairAt(samples, sample.seqNo) + PairAt(samples, Succ32(sample.seqNo))
  }

  // ---------- the tracker ----------

  class IpdvTracker {
    var samples: map<u32, Sample>
    var sampleOrder: seq<u32>
    var completedPairs: set<u32>
    const sequenceLimit: Option<nat>

    function Value(): Retained
      reads this
    {
      Retained(samples, sampleOrder)
    }

    /** The completed pairs are exactly the adjacent retained samples, and the order lists each
        retained sample once, within the limit. */
    ghost predicate Valid()
      reads this
    {
      && Value().Valid()
      && completedPairs == Adjacent(samples.Keys)
      && (sequenceLimit.Some? ==> |sampleOrder| <= sequenceLimit.value)
    }

    constructor (sequenceLimit: Option<nat>)
      ensures Valid() && Value() == EMPTY && this.sequenceLimit == sequenceLimit
    {
      samples, sampleOrder, completedPairs, this.sequenceLimit := map[], [], {}, sequenceLimit;
    }

    method Insert(sample: Sample) returns (pairs: seq<CompletedPair>)
      requires Valid()
      modifies this
      ensures Valid()
      ensures Value() == After(old(Value()), sample, sequenceLimit)
      ensures pairs == Emitted(old(Value()), sample, sequenceLimit)
    {
      hide Retained.Valid, Distinct, Restrict, Surviving, Newest, Adjacent;
      var s := sample.seqNo;
      ghost var before := Value();
      var replaced := s in samples;
      samples := samples[s := sample];
      AfterValid(before, sample, sequenceLimit);
      if replaced {
        ReplacedValid(before, sample);
        return [];
      }
      sampleOrder := sampleOrder + [s];
      JoinedValid(before, sample);
      EnforceSequenceLimit();
      assert before.samples[s := sample].Keys == before.samples.Keys + {s};
      RemainingPairs(before.samples.Keys, s, samples.Keys);
      NewPairs(samples.Keys, s);
      pairs := [];
      var pair := TryPair(s);
      if pair.Some? {
        pairs := pairs + [pair.value];
      }
      pair := TryPair(Succ32(s));
      if pair.Some? {
        pairs := pairs + [pair.value];
      }
    }

    method EnforceSequenceLimit()
      requires Value().Valid()
      modifies `samples, `sampleOrder, `completedPairs
      ensures sampleOrder == Newest(old(sampleOrder), sequenceLimit)
      ensures samples == Restrict(old(samples), sampleOrder)
      ensures completedPairs == Surviving(old(completedPairs), old(samples).Keys, samples.Keys)
    {
      hide Surviving, Retained.Valid, Restrict, Distinct;
      ghost var all, dropped := Value(), 0;
      SuffixValid(all, 0);
      NothingEvicted(all, completedPairs);
      assert all.order[0..] == all.order;
      if sequenceLimit.None? {
        return;
      }
      while |samples| > sequenceLimit.value
        invariant 0 <= dropped <= |all.order| && sampleOrder == all.order[dropped..]
        invariant samples == Restrict(all.samples, sampleOrder) && |samples| == |sampleOrder|
        invariant dropped > 0 ==> |sampleOrder| >= sequenceLimit.value
        invariant completedPairs == Surviving(old(completedPairs), all.samples.Keys, samples.Keys)
        decreases |sampleOrder|
      {
        if sampleOrder == [] {
          break;
        }
        EvictOldest(all, dropped, old(completedPairs));
        var s := sampleOrder[0];
        sampleOrder := sampleOrder[1..];
        if s in samples {
          samples := samples - {s};
          completedPairs := completedPairs - {s};
          completedPairs := completedPairs - {Succ32(s)};
        }
        dropped := dropped + 1;
      }
    }

    method TryPair(currentSeq: u32) returns (pair: Option<CompletedPair>)
      requires Value().Valid()
      modifies `completedPairs
      ensures var emitted := PairAt(samples, currentSeq);
              if currentSeq in old(completedPairs) || emitted == [] then
                pair == None && completedPairs == old(completedPairs)
              else
                pair == Some(emitted[0]) && completedPairs == old(completedPairs) + {currentSeq}
    {
      var previousSeq := Pred32(currentSeq);
      if currentSeq in completedPairs {
        return None;
      }
      completedPairs := completedPairs + {currentSeq};
      if previousSeq !in samples || currentSeq !in samples {
        completedPairs := completedPairs - {currentSeq};
        return None;
      }
      return Some(PairOf(samples[previousSeq], samples[currentSeq]));
    }
  }

  lemma {:induction false} DistinctSize(order: seq<u32>, kept: set<u32>)
    requires Distinct(order) && forall s: u32 :: s in order <==> s in kept
    ensures |order| == |kept|
  {
    if order == [] {
      assert kept == {};
    } else {
      var n := |order| - 1;
      DistinctSize(order[..n], kept - {order[n]});
    }
  }

  lemma OrderSize(r: Retained)
    requires r.Valid()
    ensures |r.samples| == |r.order|
  {
    DistinctSize(r.order, r.samples.Keys);
    assert |r.samples.Keys| == |r.samples|;
  }

  /** The pairs left when the samples outside `after` are evicted from `before`. */
  function Surviving(completed: set<u32>, before: set<u32>, after: set<u32>): set<u32> {
    set p | p in completed && (p in after || p !in before) && (Pred32(p) in after || Pred32(p) !in before)
  }

  lemma SuffixValid(r: Retained, n: nat)
    requires r.Valid() && n <= |r.order|
    ensures var rest := Retained(Restrict(r.samples, r.order[n..]), r.order[n..]);
            rest.Valid() && |rest.samples| == |rest.order| && rest.samples.Keys <= r.samples.Keys
  {
    var rest := Retained(Restrict(r.samples, r.order[n..]), r.order[n..]);
    OrderSize(rest);
  }

  lemma NothingEvicted(r: Retained, completed: set<u32>)
    requires r.Valid()
    ensures Restrict(r.samples, r.order) == r.samples
    ensures Surviving(completed, r.samples.Keys, r.samples.Keys) == completed
  {
  }

  lemma EvictOne(r: Retained, n: nat)
    requires r.Valid() && n < |r.order|
    ensures r.order[n] in Restrict(r.samples, r.order[n..])
    ensures Restrict(r.samples, r.order[n..]) - {r.order[n]} == Restrict(r.samples, r.order[n + 1..])
    ensures Restrict(r.samples, r.order[n..]).Keys <= r.samples.Keys
  {
    SuffixMembers(r.order, n);
    assert r.order[n] in r.samples by {
      assert r.order[n] in r.order;
    }
    hide Retained.Valid, Distinct;
  }

  lemma SuffixMembers(order: seq<u32>, n: nat)
    requires Distinct(order) && n < |order|
    ensures forall s: u32 :: s in order[n..] <==> s == order[n] || s in order[n + 1..]
    ensures order[n] !in order[n + 1..]
  {
    assert order[n..] == [order[n]] + order[n + 1..];
  }

  lemma EvictOldest(r: Retained, n: nat, completed: set<u32>)
    requires r.Valid() && n < |r.order|
    ensures var s, kept, rest := r.order[n], Restrict(r.samples, r.order[n..]), Restrict(r.samples, r.order[n + 1..]);
            && s in kept && kept - {s} == rest && |rest| == |r.order| - n - 1
            && Surviving(completed, r.samples.Keys, kept.Keys) - {s} - {Succ32(s)}
               == Surviving(completed, r.samples.Keys, rest.Keys)
  {
    var s, kept, rest := r.order[n], Restrict(r.samples, r.order[n..]), Restrict(r.samples, r.order[n + 1..]);
    SuffixValid(r, n + 1);
    EvictOne(r, n);
    hide Retained.Valid, Distinct, Restrict, Surviving;
    SurvivingStep(completed, r.samples.Keys, kept.Keys, s);
    assert kept.Keys - {s} == rest.Keys;
  }

  lemma SurvivingStep(completed: set<u32>, before: set<u32>, kept: set<u32>, s: u32)
    requires s in kept && kept <= before
    ensures Surviving(completed, before, kept) - {s} - {Succ32(s)} == Surviving(completed, before, kept - {s})
  {
    assert forall p: u32 :: Pred32(p) == s <==> p == Succ32(s);
  }

  /** Dropping evicted samples from the pairs of the old ones leaves the pairs that do not involve
      the newcomer. */
  lemma RemainingPairs(before: set<u32>, s: u32, after: set<u32>)
    requires s !in before && after <= before + {s}
    ensures Surviving(Adjacent(before), before + {s}, after) == Adjacent(after) - {s, Succ32(s)}
  {
    assert forall p: u32 :: Pred32(p) == s <==> p == Succ32(s);
  }

  /** The two candidate pairs of a newcomer are the ones its arrival completes. */
  lemma NewPairs(after: set<u32>, s: u32)
    ensures Adjacent(after) == Adjacent(after) - {s, Succ32(s)} + Completing(after, s) + Completing(after, Succ32(s))
    ensures s != Succ32(s)
  {
  }

  function Completing(kept: set<u32>, s: u32): set<u32> {
    if s in kept && Pred32(s) in kept then {s} else {}
  }

  // ---------- over any run of insertions ----------

  lemma JoinedValid(r: Retained, sample: Sample)
    requires r.Valid() && sample.seqNo !in r.samples
    ensures Retained(r.samples[sample.seqNo := sample], r.order + [sample.seqNo]).Valid()
  {
  }

  lemma AfterValid(r: Retained, sample: Sample, limit: Option<nat>)
    requires r.Valid() && (limit.Some? ==> |r.order| <= limit.value)
    ensures var next := After(r, sample, limit);
            && next.Valid() && (limit.Some? ==> |next.order| <= limit.value)
            && next.samples.Keys <= r.samples.Keys + {sample.seqNo}
  {
    hide Retained.Valid, Distinct, Restrict;
    if sample.seqNo in r.samples {
      ReplacedValid(r, sample);
    } else {
      JoinedValid(r, sample);
      var joined := Retained(r.samples[sample.seqNo := sample], r.order + [sample.seqNo]);
      var n := if limit.Some? && |joined.order| > limit.value then |joined.order| - limit.value else 0;
      assert Newest(joined.order, limit) == joined.order[n..];
      SuffixValid(joined, n);
    }
  }

  lemma ReplacedValid(r: Retained, sample: Sample)
    requires r.Valid() && sample.seqNo in r.samples
    ensures r.(samples := r.samples[sample.seqNo := sample]).Valid()
    ensures r.samples[sample.seqNo := sample].Keys == r.samples.Keys
  {
  }

  function Times(pairs: seq<CompletedPair>, s: u32): nat {
    if pairs == [] then 0 else (if pairs[0].currentSeq == s then 1 else 0) + Times(pairs[1..], s)
  }

  function Indicator(b: bool): nat {
    if b then 1 else 0
  }

  /** A pair is emitted exactly when it becomes complete, once, and joins a sequence to the one
      before it. */
  lemma EmittedIsNewlyCompleted(r: Retained, sample: Sample, limit: Option<nat>, s: u32)
    requires r.Valid() && (limit.Some? ==> |r.order| <= limit.value)
    ensures var next, pairs := After(r, sample, limit), Emitted(r, sample, limit);
            && Times(pairs, s)
               == Indicator(s in Adjacent(next.samples.Keys) && s !in Adjacent(r.samples.Keys))
            && forall pair :: pair in pairs ==> pair.previousSeq == Pred32(pair.currentSeq)
  {
    var next := After(r, sample, limit);
    AfterValid(r, sample, limit);
    if sample.seqNo in r.samples {
      ReplacedValid(r, sample);
    } else {
      assert forall k :: k in next.samples ==> next.samples[k].seqNo == k;
      hide Retained.Valid, After, Adjacent, Times;
      var a, b := PairAt(next.samples, sample.seqNo), PairAt(next.samples, Succ32(sample.seqNo));
      TimesOfTwo(a, b, s);
      CompletedBy(r.samples.Keys, next.samples.Keys, sample.seqNo, s);
    }
  }

  /** A newcomer completes only the pair it ends and the pair it starts. */
  lemma CompletedBy(before: set<u32>, after: set<u32>, n: u32, s: u32)
    requires n !in before && after <= before + {n}
    ensures s in Adjacent(after) && s !in Adjacent(before)
       <==> s in Completing(after, n) + Completing(after, Succ32(n))
    ensures n != Succ32(n)
  {
  }

  lemma TimesOfTwo(a: seq<CompletedPair>, b: seq<CompletedPair>, s: u32)
    requires |a| <= 1 && |b| <= 1
    ensures Times(a + b, s) == Indicator(a != [] && a[0].currentSeq == s) + Indicator(b != [] && b[0].currentSeq == s)
  {
    TimesConcat(a, b, s);
    assert a != [] ==> a[1..] == [];
    assert b != [] ==> b[1..] == [];
  }

  function Final(r: Retained, inserted: seq<Sample>, limit: Option<nat>): Retained
    decreases |inserted|
  {
    if inserted == [] then r else Final(After(r, inserted[0], limit), inserted[1..], limit)
  }

  /** Everything emitted over a run. */
  function AllEmitted(r: Retained, inserted: seq<Sample>, limit: Option<nat>): seq<CompletedPair>
    decreases |inserted|
  {
    if inserted == [] then []
    else Emitted(r, inserted[0], limit) + AllEmitted(After(r, inserted[0], limit), inserted[1..], limit)
  }

  lemma {:induction false} TimesConcat(a: seq<CompletedPair>, b: seq<CompletedPair>, s: u32)
    ensures Times(a + b, s) == Times(a, s) + Times(b, s)
  {
    if a == [] {
      assert a + b == b;
    } else {
      TimesConcat(a[1..], b, s);
      assert (a + b)[1..] == a[1..] + b;
    }
  }

  predicate Arrived(inserted: seq<Sample>, s: u32) {
    exists i :: 0 <= i < |inserted| && inserted[i].seqNo == s
  }

  lemma {:induction false} UnlimitedFrom(r: Retained, inserted: seq<Sample>, s: u32)
    requires r.Valid()
    ensures forall x: u32 :: x in Final(r, inserted, None).samples <==> x in r.samples || Arrived(inserted, x)
    ensures Times(AllEmitted(r, inserted, None), s) + Indicator(s in Adjacent(r.samples.Keys))
            == Indicator(s in Adjacent(Final(r, inserted, None).samples.Keys))
    decreases |inserted|
  {
    hide Retained.Valid, Arrived;
    if inserted == [] {
      assert forall x: u32 :: !Arrived(inserted, x) by {
        NoneArrived();
      }
    } else {
      var first, rest := inserted[0], inserted[1..];
      var next := After(r, first, None);
      AfterValid(r, first, None);
      EmittedIsNewlyCompleted(r, first, None, s);
      UnlimitedFrom(next, rest, s);
      TimesConcat(Emitted(r, first, None), AllEmitted(next, rest, None), s);
      UnlimitedKeys(r, first);
      ArrivedNext(inserted);
    }
  }

  lemma UnlimitedKeys(r: Retained, sample: Sample)
    requires r.Valid()
    ensures After(r, sample, None).samples.Keys == r.samples.Keys + {sample.seqNo}
  {
  }

  lemma NoneArrived()
    ensures forall x: u32 :: !Arrived([], x)
  {
  }

  lemma ArrivedNext(inserted: seq<Sample>)
    requires inserted != []
    ensures forall x: u32 :: Arrived(inserted, x) <==> x == inserted[0].seqNo || Arrived(inserted[1..], x)
  {
    var rest := inserted[1..];
    forall x: u32 ensures Arrived(inserted, x) <==> x == inserted[0].seqNo || Arrived(rest, x) {
      if Arrived(rest, x) {
        var i :| 0 <= i < |rest| && rest[i].seqNo == x;
        assert inserted[i + 1].seqNo == x;
      }
    }
  }

  /** With no limit, whatever the order of arrival and however often samples repeat, each adjacent
      pair of sequences is emitted exactly once if both arrived and never otherwise. */
  lemma EachPairOnce(inserted: seq<Sample>, s: u32)
    ensures Times(AllEmitted(EMPTY, inserted, None), s) == Indicator(Arrived(inserted, s) && Arrived(inserted, Pred32(s)))
  {
    UnlimitedFrom(EMPTY, inserted, s);
  }

  lemma {:induction false} LimitedFrom(r: Retained, inserted: seq<Sample>, limit: Option<nat>)
    requires r.Valid() && (limit.Some? ==> |r.order| <= limit.value)
    ensures var last := Final(r, inserted, limit);
            last.Valid() && (limit.Some? ==> |last.order| <= limit.value)
    decreases |inserted|
  {
    if inserted != [] {
      AfterValid(r, inserted[0], limit);
      LimitedFrom(After(r, inserted[0], limit), inserted[1..], limit);
    }
  }

  lemma {:induction false} FinalStep(r: Retained, inserted: seq<Sample>, limit: Option<nat>, k: nat)
    requires k < |inserted|
    ensures Final(r, inserted[..k + 1], limit) == After(Final(r, inserted[..k], limit), inserted[k], limit)
    decreases k
  {
    if k == 0 {
      assert inserted[..1] == [inserted[0]] && inserted[..0] == [];
      assert Final(r, inserted[..1], limit) == Final(After(r, inserted[0], limit), [], limit);
    } else {
      FinalStep(After(r, inserted[0], limit), inserted[1..], limit, k - 1);
      assert inserted[..k + 1][1..] == inserted[1..][..k];
      assert inserted[..k][1..] == inserted[1..][..k - 1];
    }
  }

  /** With a limit, a pair emitted by the first and again by the last of some insertions lost an
      endpoint in between: it is not re-emitted while both stay retained. Never more than the limit
      is kept, of samples or of pairs. */
  lemma NoPairAgainWhileRetained(inserted: seq<Sample>, limit: Option<nat>, i: nat, j: nat, s: u32)
    requires i < j < |inserted|
    requires Times(Emitted(Final(EMPTY, inserted[..i], limit), inserted[i], limit), s) > 0
    requires Times(Emitted(Final(EMPTY, inserted[..j], limit), inserted[j], limit), s) > 0
    ensures s in Adjacent(Final(EMPTY, inserted[..i + 1], limit).samples.Keys)
    ensures exists k :: i + 1 < k <= j && s !in Adjacent(Final(EMPTY, inserted[..k], limit).samples.Keys)
  {
    LimitedFrom(EMPTY, inserted[..i], limit);
    LimitedFrom(EMPTY, inserted[..j], limit);
    EmittedIsNewlyCompleted(Final(EMPTY, inserted[..i], limit), inserted[i], limit, s);
    EmittedIsNewlyCompleted(Final(EMPTY, inserted[..j], limit), inserted[j], limit, s);
    FinalStep(EMPTY, inserted, limit, i);
    assert s !in Adjacent(Final(EMPTY, inserted[..j], limit).samples.Keys);
    assert j != i + 1;
  }

  lemma NeverMoreThanTheLimit(inserted: seq<Sample>, limit: nat)
    ensures var kept := Final(EMPTY, inserted, Some(limit)).samples;
            |kept| <= limit && |Adjacent(kept.Keys)| <= limit
  {
    LimitedFrom(EMPTY, inserted, Some(limit));
    var last := Final(EMPTY, inserted, Some(limit));
    OrderSize(last);
    SubsetSize(Adjacent(last.samples.Keys), last.samples.Keys);
    assert |last.samples.Keys| == |last.samples|;
  }

  lemma {:induction false} SubsetSize(a: set<u32>, b: set<u32>)
    requires a <= b
    ensures |a| <= |b|
  {
    if x :| x in a {
      SubsetSize(a - {x}, b - {x});
    }
  }
}
