/** What the client's probe stores mean: insertion-ordered sequences and the operations on them
    (crates/irtt-client/src/probe.rs). */
module ProbeOrder {
  import opened Prelude

  /** Monotonic instants are nanoseconds from the clock's origin. */
  type Instant = nat

  datatype Timestamp = Timestamp(mono: Instant, wall: int)

  datatype PendingProbe = PendingProbe(
    wireSeq: u32,
    sentAt: Timestamp,
    timeoutAt: Instant,
    txNotBeforeWall: int,
    kernelTx: Option<int>)

  predicate Distinct(order: seq<PendingProbe>) {
    forall i, j :: 0 <= i < j < |order| ==> order[i].wireSeq != order[j].wireSeq
  }

  /** Deadlines never decrease along the order. */
  predicate Sorted(order: seq<PendingProbe>) {
    forall i, j :: 0 <= i < j < |order| ==> order[i].timeoutAt <= order[j].timeoutAt
  }

  function Seqs(order: seq<PendingProbe>): set<u32> {
    set i | 0 <= i < |order| :: order[i].wireSeq
  }

  lemma {:induction false} SeqsSize(order: seq<PendingProbe>)
    requires Distinct(order)
    ensures |Seqs(order)| == |order|
  {
    if order != [] {
      var n := |order| - 1;
      SeqsSize(order[..n]);
      assert Seqs(order) == Seqs(order[..n]) + {order[n].wireSeq};
    }
  }

  // ---------- removal ----------

  function Find(order: seq<PendingProbe>, seqNo: u32): Option<PendingProbe> {
    if order == [] then None
    else if order[0].wireSeq == seqNo then Some(order[0])
    else Find(order[1..], seqNo)
  }

  function Without(order: seq<PendingProbe>, seqNo: u32): seq<PendingProbe> {
    if order == [] then []
    else if order[0].wireSeq == seqNo then order[1..]
    else [order[0]] + Without(order[1..], seqNo)
  }

  lemma {:induction false} FindAndRemoveAt(order: seq<PendingProbe>, k: nat)
    requires Distinct(order) && k < |order|
    ensures Find(order, order[k].wireSeq) == Some(order[k])
    ensures Without(order, order[k].wireSeq) == order[..k] + order[k + 1..]
    decreases k
  {
    if k > 0 {
      var rest := order[1..];
      FindAndRemoveAt(rest, k - 1);
      assert [order[0]] + (rest[..k - 1] + rest[k..]) == order[..k] + order[k + 1..];
    }
  }

  lemma HeadRemoval(order: seq<PendingProbe>)
    requires order != []
    ensures Find(order, order[0].wireSeq) == Some(order[0])
    ensures Without(order, order[0].wireSeq) == order[1..]
  {
  }

  lemma {:induction false} FindAbsent(order: seq<PendingProbe>, seqNo: u32)
    ensures seqNo !in Seqs(order) ==> Find(order, seqNo) == None && Without(order, seqNo) == order
    ensures Find(order, seqNo).Some? <==> seqNo in Seqs(order)
  {
    if order != [] {
      FindAbsent(order[1..], seqNo);
      assert Seqs(order) == {order[0].wireSeq} + Seqs(order[1..]) by {
        forall i | 0 <= i < |order| ensures order[i].wireSeq in {order[0].wireSeq} + Seqs(order[1..]) {
          if i > 0 { assert order[i] == order[1..][i - 1]; }
        }
      }
      assert order == [order[0]] + order[1..];
    }
  }

  lemma SeqsOfAppend(order: seq<PendingProbe>, probe: PendingProbe)
    ensures Seqs(order + [probe]) == Seqs(order) + {probe.wireSeq}
    ensures Distinct(order) && probe.wireSeq !in Seqs(order) ==> Distinct(order + [probe])
  {
    var all := order + [probe];
    forall i | 0 <= i < |all| ensures all[i].wireSeq in Seqs(order) + {probe.wireSeq} {
    }
    forall i | 0 <= i < |order| ensures order[i].wireSeq in Seqs(all) {
      assert all[i] == order[i];
    }
    assert all[|order|].wireSeq in Seqs(all);
  }

  /** The index in the order before removal at `k` of index `i` after it. */
  function Before(i: nat, k: nat): nat {
    if i < k then i else i + 1
  }

  lemma SeqsOfRemoval(order: seq<PendingProbe>, k: nat)
    requires Distinct(order) && k < |order|
    ensures var rest := order[..k] + order[k + 1..];
            && (forall i :: 0 <= i < |rest| ==> rest[i] == order[Before(i, k)])
            && Seqs(rest) == Seqs(order) - {order[k].wireSeq}
            && Distinct(rest)
  {
    var rest := order[..k] + order[k + 1..];
    forall s | s in Seqs(rest) ensures s in Seqs(order) - {order[k].wireSeq} {
      var i :| 0 <= i < |rest| && rest[i].wireSeq == s;
      assert order[Before(i, k)].wireSeq == s;
    }
    forall s | s in Seqs(order) - {order[k].wireSeq} ensures s in Seqs(rest) {
      var j :| 0 <= j < |order| && order[j].wireSeq == s;
      assert rest[if j < k then j else j - 1].wireSeq == s;
    }
  }

  lemma RemovalKeeps(order: seq<PendingProbe>, k: nat)
    requires k < |order|
    ensures var rest := order[..k] + order[k + 1..];
            && (Sorted(order) ==> Sorted(rest))
            && forall p :: p in rest ==> p in order
  {
    var rest := order[..k] + order[k + 1..];
    forall i | 0 <= i < |rest| ensures rest[i] == order[Before(i, k)] {
    }
    if Sorted(order) {
      forall i, j | 0 <= i < j < |rest| ensures rest[i].timeoutAt <= rest[j].timeoutAt {
        assert order[Before(i, k)].timeoutAt <= order[Before(j, k)].timeoutAt;
      }
    }
  }

  /** Removal keeps the order, drops exactly the named probe and keeps deadlines sorted. */
  lemma RemovalMeans(order: seq<PendingProbe>, seqNo: u32)
    requires Distinct(order)
    ensures Distinct(Without(order, seqNo))
    ensures Seqs(Without(order, seqNo)) == Seqs(order) - {seqNo}
    ensures Sorted(order) ==> Sorted(Without(order, seqNo))
    ensures forall p :: p in Without(order, seqNo) ==> p in order
    ensures |Without(order, seqNo)| == if seqNo in Seqs(order) then |order| - 1 else |order|
  {
    FindAbsent(order, seqNo);
    if seqNo in Seqs(order) {
      var k :| 0 <= k < |order| && order[k].wireSeq == seqNo;
      FindAndRemoveAt(order, k);
      SeqsOfRemoval(order, k);
      RemovalKeeps(order, k);
      hide Distinct, Sorted;
    }
  }

  // ---------- draining ----------

  /** The length of the longest prefix whose deadlines have all passed. */
  function DuePrefix(order: seq<PendingProbe>, now: Instant): (n: nat)
    ensures n <= |order|
  {
    if order == [] || order[0].timeoutAt > now then 0 else 1 + DuePrefix(order[1..], now)
  }

  /** How many probes a bounded drain takes. */
  function Taken(order: seq<PendingProbe>, now: Instant, limit: nat): (n: nat)
    ensures n <= |order| && n <= limit
  {
    Min(limit, DuePrefix(order, now))
  }

  lemma {:induction false} DuePrefixIsLongest(order: seq<PendingProbe>, now: Instant)
    ensures forall i :: 0 <= i < DuePrefix(order, now) ==> order[i].timeoutAt <= now
    ensures DuePrefix(order, now) < |order| ==> order[DuePrefix(order, now)].timeoutAt > now
  {
    if order != [] && order[0].timeoutAt <= now {
      DuePrefixIsLongest(order[1..], now);
    }
  }

  lemma {:induction false} DuePrefixAfter(order: seq<PendingProbe>, now: Instant, k: nat)
    requires k <= DuePrefix(order, now)
    ensures DuePrefix(order[k..], now) == DuePrefix(order, now) - k
    decreases k
  {
    if k > 0 {
      DuePrefixAfter(order[1..], now, k - 1);
      assert order[1..][k - 1..] == order[k..];
    }
  }

  /** Two bounded drains at one instant take what one drain with their summed limit takes. */
  lemma DrainsCompose(order: seq<PendingProbe>, now: Instant, first: nat, second: nat)
    ensures var a := Taken(order, now, first);
            var b := Taken(order[a..], now, second);
            && a + b == Taken(order, now, first + second)
            && order[..a] + order[a..][..b] == order[..a + b]
            && order[a..][b..] == order[a + b..]
            && (DuePrefix(order[a + b..], now) > 0 <==> DuePrefix(order, now) > first + second)
  {
    var a := Taken(order, now, first);
    DuePrefixAfter(order, now, a);
    DuePrefixAfter(order, now, Taken(order, now, first + second));
  }

  function Sum(limits: seq<nat>): nat {
    if limits == [] then 0 else limits[0] + Sum(limits[1..])
  }

  /** What is left after bounded drains at one instant, one for each limit. */
  function AfterDrains(order: seq<PendingProbe>, now: Instant, limits: seq<nat>): seq<PendingProbe>
    decreases |limits|
  {
    if limits == [] then order else AfterDrains(order[Taken(order, now, limits[0])..], now, limits[1..])
  }

  /** Any bounded drains at one instant leave what one drain with their summed limit leaves; once
      nothing more is due, that is what one unbounded drain leaves. */
  lemma {:induction false} DrainsRepeat(order: seq<PendingProbe>, now: Instant, limits: seq<nat>)
    ensures var left := AfterDrains(order, now, limits);
            && left == order[Taken(order, now, Sum(limits))..]
            && (DuePrefix(left, now) == 0 <==> left == order[DuePrefix(order, now)..])
    decreases |limits|
  {
    DuePrefixAfter(order, now, Taken(order, now, Sum(limits)));
    if limits == [] {
      assert order[0..] == order;
    } else {
      var a := Taken(order, now, limits[0]);
      DrainsRepeat(order[a..], now, limits[1..]);
      DrainsCompose(order, now, limits[0], Sum(limits[1..]));
    }
    DueIsTaken(order, now, Taken(order, now, Sum(limits)));
  }

  lemma DueIsTaken(order: seq<PendingProbe>, now: Instant, k: nat)
    requires k <= DuePrefix(order, now)
    ensures order[k..] == order[DuePrefix(order, now)..] <==> k == DuePrefix(order, now)
  {
    assert |order[k..]| == |order| - k;
  }

  /** When deadlines are sorted, an unbounded drain takes exactly the probes that are due. */
  lemma DrainTakesAllDue(order: seq<PendingProbe>, now: Instant, i: nat)
    requires Sorted(order) && i < |order|
    ensures i < DuePrefix(order, now) <==> order[i].timeoutAt <= now
  {
    DuePrefixIsLongest(order, now);
  }

  // ---------- retention and completion ----------

  /** Retaining a timed-out probe evicts the oldest when full. */
  function Retained(order: seq<PendingProbe>, probe: PendingProbe, capacity: nat): seq<PendingProbe> {
    if capacity == 0 then order
    else (if |order| == capacity then order[1..] else order) + [probe]
  }

  function Recorded(order: seq<u32>, seqNo: u32, capacity: nat): seq<u32> {
    if seqNo in order then order
    else (if |order| >= capacity && order != [] then order[1..] else order) + [seqNo]
  }

  /** What eviction of the oldest member leaves: everything after it. */
  function AfterEviction(order: seq<u32>, members: set<u32>): seq<u32> {
    if order == [] then []
    else if order[0] in members then order[1..]
    else AfterEviction(order[1..], members)
  }

  function Filtered(order: seq<u32>, seqNo: u32): seq<u32> {
    if order == [] then []
    else (if order[0] == seqNo then [] else [order[0]]) + Filtered(order[1..], seqNo)
  }

  predicate NoRepeats(order: seq<u32>) {
    forall i, j :: 0 <= i < j < |order| ==> order[i] != order[j]
  }

  lemma {:induction false} FilteredMeans(order: seq<u32>, seqNo: u32)
    ensures seqNo !in Filtered(order, seqNo)
    ensures forall s :: s != seqNo ==> (s in Filtered(order, seqNo) <==> s in order)
    ensures |Filtered(order, seqNo)| <= |order|
    ensures NoRepeats(order) ==> NoRepeats(Filtered(order, seqNo))
    ensures seqNo !in order ==> Filtered(order, seqNo) == order
  {
    if order != [] {
      var rest := order[1..];
      FilteredMeans(rest, seqNo);
      assert order == [order[0]] + rest;
      if NoRepeats(order) {
        assert forall j :: 0 <= j < |rest| ==> rest[j] == order[j + 1];
        assert order[0] !in rest;
      }
    }
  }

  // ---------- kernel timestamps ----------

  /** The first usable kernel timestamp of a probe wins. */
  function Stamp(probe: PendingProbe, timestamp: int): PendingProbe {
    if probe.kernelTx.Some? then probe else probe.(kernelTx := Some(timestamp))
  }

  function Stamped(order: seq<PendingProbe>, seqNo: u32, timestamp: int): (r: seq<PendingProbe>)
    ensures |r| == |order|
    ensures forall i :: 0 <= i < |order| ==>
              r[i] == if order[i].wireSeq == seqNo then Stamp(order[i], timestamp) else order[i]
  {
    seq(|order|, i requires 0 <= i < |order| =>
      if order[i].wireSeq == seqNo then Stamp(order[i], timestamp) else order[i])
  }
}
