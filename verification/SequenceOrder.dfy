/** Wrapping comparison of 32-bit sequence numbers (crates/irtt-client/src/session/machine.rs,
    `sequence_is_after`, `update_highest_received`), in the sense of section 3.2 of RFC 1982. */
module SequenceOrder {
  import opened Prelude

  const HALF: nat := 0x8000_0000
  const WRAP: nat := 0x1_0000_0000

  predicate IsAfter(candidate: u32, current: u32) {
    candidate != current && WrappingSub32(candidate, current) < HALF
  }

  predicate IsBefore(candidate: u32, current: u32) {
    IsAfter(current, candidate)
  }

  function UpdateHighest(highest: Option<u32>, wireSeq: u32): Option<u32> {
    match highest
    case None => Some(wireSeq)
    case Some(h) => if IsAfter(wireSeq, h) then Some(wireSeq) else highest
  }

  /** The wire form of the `index`-th probe ever sent. */
  function Wire(index: nat): u32 {
    index % WRAP
  }

  /** Between indices less than half the number space apart, the wrapping comparison is the
      comparison of the indices. */
  lemma WrappingIsOrder(i: nat, j: nat)
    requires i < j + HALF && j < i + HALF
    ensures IsAfter(Wire(i), Wire(j)) <==> i > j
    ensures IsBefore(Wire(i), Wire(j)) <==> i < j
    ensures Wire(i) == Wire(j) <==> i == j
  {
    var a, b := i / WRAP, j / WRAP;
    assert i - j == WRAP * (a - b) + (Wire(i) - Wire(j));
    assert -1 <= a - b <= 1;
  }

  /** At exactly half the number space the comparison puts neither number after the other. */
  lemma HalfIsUnordered(i: nat)
    ensures !IsAfter(Wire(i + HALF), Wire(i)) && !IsBefore(Wire(i + HALF), Wire(i))
  {
  }

  /** The index of the latest of the first `sent` probes that went out as `wireSeq`. */
  function LatestIndex(sent: nat, wireSeq: u32): int {
    sent - 1 - (sent - 1 - wireSeq) % WRAP
  }

  /** It is that index: it has that wire form and every later one has another. It exists exactly
      when one of the probes went out under that number. */
  lemma LatestIndexMeans(sent: nat, wireSeq: u32)
    ensures LatestIndex(sent, wireSeq) < sent <= LatestIndex(sent, wireSeq) + WRAP
    ensures LatestIndex(sent, wireSeq) >= 0 ==> Wire(LatestIndex(sent, wireSeq)) == wireSeq
    ensures LatestIndex(sent, wireSeq) >= 0 <==> wireSeq < sent
    ensures forall i: nat :: LatestIndex(sent, wireSeq) < i < sent ==> Wire(i) != wireSeq
  {
    var q := (sent - 1 - wireSeq) / WRAP;
    assert LatestIndex(sent, wireSeq) == wireSeq + WRAP * q;
    forall i: nat | LatestIndex(sent, wireSeq) < i < sent ensures Wire(i) != wireSeq {
      assert i == i / WRAP * WRAP + Wire(i);
    }
    if LatestIndex(sent, wireSeq) >= 0 {
      assert q >= 0;
    }
  }

  /** Sending another probe gives its own number the new index and changes no other's. */
  lemma LatestIndexAdvances(sent: nat, wireSeq: u32)
    ensures LatestIndex(sent + 1, wireSeq) == if wireSeq == Wire(sent) then sent else LatestIndex(sent, wireSeq)
  {
    LatestIndexMeans(sent, wireSeq);
    LatestIndexMeans(sent + 1, wireSeq);
  }
}
