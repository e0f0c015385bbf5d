/** The client's probe stores (crates/irtt-client/src/probe.rs): a doubly linked list threaded
    through a hash map, its reuse for timed-out retention, and the completed set. */
module Probe {
  import opened Prelude
  import opened ProbeOrder

  datatype Entry = Entry(probe: PendingProbe, previous: Option<u32>, next: Option<u32>)

  datatype InsertError = PendingSequenceCollision(seqNo: u32) | PendingLimitExceeded(limit: nat) | AllocationFailed

  datatype ExpiredBatch = ExpiredBatch(probes: seq<PendingProbe>, moreDue: bool)

  function SeqAt(order: seq<PendingProbe>, i: int): Option<u32> {
    if 0 <= i < |order| then Some(order[i].wireSeq) else None
  }

  /** Entry `i` of the order is in the map and points to its neighbours. */
  ghost predicate Linked(entries: map<u32, Entry>, order: seq<PendingProbe>, i: nat)
    requires i < |order|
  {
    && order[i].wireSeq in entries
    && entries[order[i].wireSeq] == Entry(order[i], SeqAt(order, i - 1), SeqAt(order, i + 1))
  }

  /** The map and its links spell `order`: the map holds the order's probes and no others. */
  ghost predicate Spells(entries: map<u32, Entry>, first: Option<u32>, last: Option<u32>, order: seq<PendingProbe>) {
    && Distinct(order)
    && entries.Keys == Seqs(order)
    && first == SeqAt(order, 0) && last == SeqAt(order, |order| - 1)
    && forall i :: 0 <= i < |order| ==> Linked(entries, order, i)
  }

  /** The map after a probe is linked behind the tail. */
  function LinkLast(entries: map<u32, Entry>, last: Option<u32>, probe: PendingProbe): map<u32, Entry>
    requires last.Some? ==> last.value in entries
  {
    var tailed := if last.Some? then entries[last.value := entries[last.value].(next := Some(probe.wireSeq))] else entries;
    tailed[probe.wireSeq := Entry(probe, last, None)]
  }

  lemma LinkLastSpells(entries: map<u32, Entry>, first: Option<u32>, last: Option<u32>,
                       order: seq<PendingProbe>, probe: PendingProbe)
    requires Spells(entries, first, last, order) && probe.wireSeq !in Seqs(order)
    ensures last.Some? ==> last.value in entries
    ensures Spells(LinkLast(entries, last, probe), if first.Some? then first else Some(probe.wireSeq),
                   Some(probe.wireSeq), order + [probe])
  {
    var n, all := |order|, order + [probe];
    if n > 0 {
      assert Linked(entries, order, n - 1);
    }
    var linked := LinkLast(entries, last, probe);
    SeqsOfAppend(order, probe);
    assert linked.Keys == Seqs(all);
    forall i | 0 <= i < |all| ensures Linked(linked, all, i) {
      if i < n {
        assert Linked(entries, order, i);
        assert all[i] == order[i] && order[i].wireSeq in Seqs(order);
      }
    }
  }

  /** The map after an entry's neighbours are linked past it. */
  function Unlink(entries: map<u32, Entry>, wireSeq: u32): map<u32, Entry>
    requires wireSeq in entries
    requires var e := entries[wireSeq];
             && (e.previous.Some? ==> e.previous.value in entries && e.previous.value != wireSeq)
             && (e.next.Some? ==> e.next.value in entries && e.next.value != wireSeq)
  {
    var Entry(_, previous, next) := entries[wireSeq];
    var gone := entries - {wireSeq};
    var back := if previous.Some? then gone[previous.value := gone[previous.value].(next := next)] else gone;
    if next.Some? then back[next.value := back[next.value].(previous := previous)] else back
  }

  lemma UnlinkSpells(entries: map<u32, Entry>, first: Option<u32>, last: Option<u32>,
                     order: seq<PendingProbe>, k: nat)
    requires Spells(entries, first, last, order) && k < |order|
    ensures order[k].wireSeq in entries
    ensures var e := entries[order[k].wireSeq];
            && e.probe == order[k]
            && (e.previous.Some? ==> e.previous.value in entries && e.previous.value != order[k].wireSeq)
            && (e.next.Some? ==> e.next.value in entries && e.next.value != order[k].wireSeq)
            && Spells(Unlink(entries, order[k].wireSeq),
                      if e.previous.Some? then first else e.next,
                      if e.next.Some? then last else e.previous,
                      order[..k] + order[k + 1..])
  {
    var rest := order[..k] + order[k + 1..];
    Neighbours(entries, first, last, order, k);
    SeqsOfRemoval(order, k);
    var unlinked := Unlink(entries, order[k].wireSeq);
    assert unlinked.Keys == Seqs(rest);
    forall i | 0 <= i < |rest| ensures Linked(unlinked, rest, i) {
      StillLinked(entries, first, last, order, k, i);
    }
  }

  lemma Neighbours(entries: map<u32, Entry>, first: Option<u32>, last: Option<u32>,
                   order: seq<PendingProbe>, k: nat)
    requires Spells(entries, first, last, order) && k < |order|
    ensures Linked(entries, order, k)
    ensures k > 0 ==> order[k - 1].wireSeq in entries && order[k - 1].wireSeq != order[k].wireSeq
    ensures k + 1 < |order| ==> order[k + 1].wireSeq in entries && order[k + 1].wireSeq != order[k].wireSeq
  {
    assert Linked(entries, order, k);
    if k > 0 {
      assert Linked(entries, order, k - 1);
    }
    if k + 1 < |order| {
      assert Linked(entries, order, k + 1);
    }
  }

  lemma LinkedAt(entries: map<u32, Entry>, first: Option<u32>, last: Option<u32>, order: seq<PendingProbe>, j: nat)
    requires Spells(entries, first, last, order) && j < |order|
    ensures Linked(entries, order, j) && Distinct(order)
  {
  }

  lemma StillLinked(entries: map<u32, Entry>, first: Option<u32>, last: Option<u32>,
                    order: seq<PendingProbe>, k: nat, i: nat)
    requires Spells(entries, first, last, order) && k < |order| && i < |order| - 1
    ensures Linked(entries, order, k)
    ensures k > 0 ==> order[k - 1].wireSeq in entries && order[k - 1].wireSeq != order[k].wireSeq
    ensures k + 1 < |order| ==> order[k + 1].wireSeq in entries && order[k + 1].wireSeq != order[k].wireSeq
    ensures Linked(Unlink(entries, order[k].wireSeq), order[..k] + order[k + 1..], i)
  {
    hide Spells;
    Neighbours(entries, first, last, order, k);
    var rest := order[..k] + order[k + 1..];
    var j := Before(i, k);
    LinkedAt(entries, first, last, order, j);
    assert rest[i] == order[j] && order[j].wireSeq != order[k].wireSeq;
    assert k > 0 ==> (order[j].wireSeq == order[k - 1].wireSeq <==> j == k - 1);
    assert k + 1 < |order| ==> (order[j].wireSeq == order[k + 1].wireSeq <==> j == k + 1);
    assert i > 0 ==> rest[i - 1] == order[Before(i - 1, k)];
    assert i + 1 < |rest| ==> rest[i + 1] == order[Before(i + 1, k)];
  }

  lemma StampSpells(entries: map<u32, Entry>, first: Option<u32>, last: Option<u32>,
                    order: seq<PendingProbe>, wireSeq: u32, timestamp: int)
    requires Spells(entries, first, last, order)
    ensures Spells(if wireSeq in entries
                   then entries[wireSeq := entries[wireSeq].(probe := Stamp(entries[wireSeq].probe, timestamp))]
                   else entries, first, last, Stamped(order, wireSeq, timestamp))
    ensures Seqs(Stamped(order, wireSeq, timestamp)) == Seqs(order)
  {
    var stamped := Stamped(order, wireSeq, timestamp);
    var after := if wireSeq in entries
                 then entries[wireSeq := entries[wireSeq].(probe := Stamp(entries[wireSeq].probe, timestamp))]
                 else entries;
    assert forall i :: 0 <= i < |order| ==> stamped[i].wireSeq == order[i].wireSeq;
    forall s | s in Seqs(order) ensures s in Seqs(stamped) {
      var i :| 0 <= i < |order| && order[i].wireSeq == s;
      assert stamped[i].wireSeq == s;
    }
    assert Seqs(stamped) == Seqs(order);
    assert after.Keys == entries.Keys;
    forall i | 0 <= i < |stamped| ensures Linked(after, stamped, i) {
      assert Linked(entries, order, i);
    }
  }

  class PendingMap {
    var entries: map<u32, Entry>
    var first: Option<u32>
    var last: Option<u32>
    const maxCapacity: nat
    ghost var order: seq<PendingProbe>

    ghost predicate Valid()
      reads this
    {
      Spells(entries, first, last, order)
    }

    constructor (maxCapacity: nat)
      ensures Valid() && order == [] && this.maxCapacity == maxCapacity
    {
      this.maxCapacity := maxCapacity;
      entries := map[];
      first, last := None, None;
      order := [];
    }

    lemma Size()
      requires Valid()
      ensures |entries| == |order|
    {
      SeqsSize(order);
      assert |entries| == |entries.Keys|;
    }

    /** `storage` is whether the map has, or can get, memory for one more entry. */
    method PreflightInsert(wireSeq: u32, storage: bool) returns (r: Result<(), InsertError>)
      requires Valid()
      ensures r == if wireSeq in Seqs(order) then Err(PendingSequenceCollision(wireSeq))
                   else if |order| >= maxCapacity then Err(PendingLimitExceeded(maxCapacity))
                   else if !storage then Err(AllocationFailed)
                   else Ok(())
    {
      Size();
      if wireSeq in entries {
        return Err(PendingSequenceCollision(wireSeq));
      }
      if |entries| >= maxCapacity {
        return Err(PendingLimitExceeded(maxCapacity));
      }
      if !storage {
        return Err(AllocationFailed);
      }
      return Ok(());
    }

    method CommitInsert(probe: PendingProbe)
      requires Valid() && probe.wireSeq !in Seqs(order)
      modifies this
      ensures Valid() && order == old(order) + [probe]
    {
      LinkLastSpells(entries, first, last, order, probe);
      hide Spells;
      var wireSeq := probe.wireSeq;
      var previous := last;
      if previous.Some? {
        entries := entries[previous.value := entries[previous.value].(next := Some(wireSeq))];
      } else {
        first := Some(wireSeq);
      }
      entries := entries[wireSeq := Entry(probe, previous, None)];
      last := Some(wireSeq);
      order := order + [probe];
    }

    method Remove(wireSeq: u32) returns (r: Option<PendingProbe>)
      requires Valid()
      modifies this
      ensures Valid()
      ensures r == Find(old(order), wireSeq) && order == Without(old(order), wireSeq)
    {
      FindAbsent(order, wireSeq);
      if wireSeq !in entries {
        return None;
      }
      ghost var k := Position(wireSeq);
      FindAndRemoveAt(order, k);
      UnlinkSpells(entries, first, last, order, k);
      hide Spells;
      var Entry(probe, previous, next) := entries[wireSeq];
      entries := entries - {wireSeq};
      if previous.Some? {
        entries := entries[previous.value := entries[previous.value].(next := next)];
      } else {
        first := next;
      }
      if next.Some? {
        entries := entries[next.value := entries[next.value].(previous := previous)];
      } else {
        last := previous;
      }
      order := order[..k] + order[k + 1..];
      return Some(probe);
    }

    ghost method Position(wireSeq: u32) returns (k: nat)
      requires Valid() && wireSeq in entries
      ensures k < |order| && order[k].wireSeq == wireSeq
    {
      k :| 0 <= k < |order| && order[k].wireSeq == wireSeq;
    }

    method DrainExpiredBounded(now: Instant, limit: nat) returns (batch: ExpiredBatch)
      requires Valid()
      modifies this
      ensures Valid()
      ensures var n := Taken(old(order), now, limit);
              && batch.probes == old(order)[..n] && order == old(order)[n..]
              && (batch.moreDue <==> DuePrefix(old(order), now) > limit)
    {
      ghost var whole := order;
      hide Spells;
      var probes := [];
      while |probes| < limit
        invariant Valid() && |probes| <= limit && |probes| <= DuePrefix(whole, now)
        invariant probes == whole[..|probes|] && order == whole[|probes|..]
        decreases limit - |probes|
      {
        HeadEntry();
        DuePrefixAfter(whole, now, |probes|);
        if first.None? || entries[first.value].probe.timeoutAt > now {
          break;
        }
        HeadRemoval(order);
        var probe := Remove(first.value);
        probes := probes + [probe.value];
      }
      HeadEntry();
      DuePrefixAfter(whole, now, |probes|);
      batch := ExpiredBatch(probes, first.Some? && entries[first.value].probe.timeoutAt <= now);
    }

    /** The head and tail entries hold the first and last probes of the order. */
    lemma HeadEntry()
      requires Valid()
      ensures first.None? <==> order == []
      ensures last.None? <==> order == []
      ensures first.Some? ==>
                && first == Some(order[0].wireSeq) && first.value in entries && entries[first.value].probe == order[0]
                && last.value in entries && entries[last.value].probe == order[|order| - 1]
      ensures Distinct(order)
    {
      if order != [] {
        assert Linked(entries, order, 0);
        assert Linked(entries, order, |order| - 1);
      }
    }

    method IsEmpty() returns (empty: bool)
      requires Valid()
      ensures empty <==> order == []
    {
      empty := |entries| == 0;
      Size();
    }

    /** Attaches a kernel timestamp in place, without disturbing the order. */
    method AttachKernelTx(wireSeq: u32, timestamp: int) returns (found: bool)
      requires Valid()
      modifies this
      ensures Valid() && order == Stamped(old(order), wireSeq, timestamp)
      ensures found <==> wireSeq in Seqs(old(order))
    {
      StampSpells(entries, first, last, order, wireSeq, timestamp);
      assert entries.Keys == Seqs(order);
      hide Spells;
      found := wireSeq in entries;
      if found {
        var entry := entries[wireSeq];
        entries := entries[wireSeq := entry.(probe := Stamp(entry.probe, timestamp))];
      }
      order := Stamped(order, wireSeq, timestamp);
    }

    /** The earliest deadline, when deadlines are sorted. */
    method NextTimeoutDeadline() returns (deadline: Option<Instant>)
      requires Valid()
      ensures deadline == if order == [] then None else Some(order[0].timeoutAt)
      ensures deadline.Some? && Sorted(order) ==>
                && (exists p :: p in order && p.timeoutAt == deadline.value)
                && forall p :: p in order ==> deadline.value <= p.timeoutAt
    {
      if first.None? {
        return None;
      }
      HeadEntry();
      assert order[0] in order;
      return Some(entries[first.value].probe.timeoutAt);
    }

    /** The latest deadline, when deadlines are sorted. */
    method LatestTimeoutDeadline() returns (deadline: Option<Instant>)
      requires Valid()
      ensures deadline == if order == [] then None else Some(order[|order| - 1].timeoutAt)
      ensures deadline.Some? && Sorted(order) ==>
                && (exists p :: p in order && p.timeoutAt == deadline.value)
                && forall p :: p in order ==> p.timeoutAt <= deadline.value
    {
      if last.None? {
        return None;
      }
      HeadEntry();
      assert order[|order| - 1] in order;
      return Some(entries[last.value].probe.timeoutAt);
    }
  }

  class TimedOutMap {
    const probes: PendingMap

    ghost predicate Valid()
      reads this, probes
    {
      probes.Valid()
    }

    constructor (maxCapacity: nat)
      ensures Valid() && probes.order == [] && probes.maxCapacity == maxCapacity && fresh(probes)
    {
      probes := new PendingMap(maxCapacity);
    }

    method Insert(probe: PendingProbe)
      requires Valid() && probe.wireSeq !in Seqs(probes.order) && |probes.order| <= probes.maxCapacity
      modifies probes
      ensures Valid() && probes.order == Retained(old(probes.order), probe, probes.maxCapacity)
    {
      if probes.maxCapacity == 0 {
        return;
      }
      probes.Size();
      if |probes.entries| == probes.maxCapacity {
        FindAndRemoveAt(probes.order, 0);
        RemovalMeans(probes.order, probes.first.value);
        var evicted := probes.Remove(probes.first.value);
      }
      probes.CommitInsert(probe);
    }
  }

  class CompletedSet {
    var seqNos: set<u32>
    var insertionOrder: seq<u32>
    const maxCapacity: nat

    ghost predicate Valid()
      reads this
    {
      && NoRepeats(insertionOrder)
      && forall s :: s in seqNos <==> s in insertionOrder
    }

    constructor (maxCapacity: nat)
      ensures Valid() && insertionOrder == [] && this.maxCapacity == maxCapacity
    {
      this.maxCapacity := maxCapacity;
      seqNos, insertionOrder := {}, [];
    }

    lemma Size()
      requires Valid()
      ensures |seqNos| == |insertionOrder|
    {
      ListedSize(insertionOrder, seqNos);
    }

    method Insert(seqNo: u32)
      requires Valid()
      modifies this
      ensures Valid() && insertionOrder == Recorded(old(insertionOrder), seqNo, maxCapacity)
    {
      if seqNo in seqNos {
        return;
      }
      Size();
      if |seqNos| >= maxCapacity {
        EvictOldest();
      }
      insertionOrder := insertionOrder + [seqNo];
      seqNos := seqNos + {seqNo};
    }

    method Remove(seqNo: u32) returns (removed: bool)
      requires Valid()
      modifies this
      ensures Valid() && insertionOrder == Filtered(old(insertionOrder), seqNo)
      ensures removed <==> seqNo in old(insertionOrder)
    {
      FilteredMeans(insertionOrder, seqNo);
      removed := seqNo in seqNos;
      if removed {
        seqNos := seqNos - {seqNo};
        insertionOrder := Filtered(insertionOrder, seqNo);
      }
    }

    /** Pops until a popped number was a member; every member is listed. */
    method EvictOldest()
      requires NoRepeats(insertionOrder) && forall s :: s in seqNos ==> s in insertionOrder
      modifies this
      ensures insertionOrder == AfterEviction(old(insertionOrder), old(seqNos))
      ensures seqNos == set s | s in old(seqNos) && s in insertionOrder
    {
      while insertionOrder != []
        invariant NoRepeats(insertionOrder) && forall s :: s in seqNos ==> s in insertionOrder
        invariant seqNos == old(seqNos)
        invariant AfterEviction(insertionOrder, seqNos) == AfterEviction(old(insertionOrder), old(seqNos))
        decreases |insertionOrder|
      {
        var oldest, rest := insertionOrder[0], insertionOrder[1..];
        assert insertionOrder == [oldest] + rest;
        assert oldest !in rest;
        insertionOrder := rest;
        if oldest in seqNos {
          seqNos := seqNos - {oldest};
          break;
        }
      }
    }
  }

  lemma {:induction false} ListedSize(order: seq<u32>, seqNos: set<u32>)
    requires NoRepeats(order) && forall s :: s in seqNos <==> s in order
    ensures |seqNos| == |order|
  {
    if order == [] {
      assert seqNos == {};
    } else {
      var n := |order| - 1;
      ListedSize(order[..n], seqNos - {order[n]});
    }
  }
}
