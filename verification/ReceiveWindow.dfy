/** A session's received count and window (crates/irtt-server/src/session.rs, `ReceiveState`). */
module ReceiveWindow {
  import opened Prelude

  function Pow2(k: nat): (p: nat)
    ensures p > 0
  {
    if k == 0 then 1 else 2 * Pow2(k - 1)
  }

  /** Bit `k` of `n`. */
  predicate Bit(n: nat, k: nat) {
    if k == 0 then n % 2 == 1 else Bit(n / 2, k - 1)
  }

  lemma SixtyFour()
    ensures Pow2(64) == 0x1_0000_0000_0000_0000
  {
    assert Pow2(8) == 256;
    PowersMultiply(8, 8);
    PowersMultiply(16, 16);
    PowersMultiply(32, 32);
  }

  lemma {:induction false} PowersMultiply(a: nat, b: nat)
    ensures Pow2(a + b) == Pow2(a) * Pow2(b)
  {
    if a > 0 {
      PowersMultiply(a - 1, b);
      Twice(Pow2(a - 1), Pow2(b));
    }
  }

  lemma Twice(x: nat, y: nat)
    ensures 2 * (x * y) == (2 * x) * y
  {
  }

  /** A left shift of a 64-bit word. */
  function ShiftLeft(word: u64, distance: nat): u64 {
    (word * Pow2(distance)) % 0x1_0000_0000_0000_0000
  }

  /** `word | 1`. */
  function SetLowest(word: u64): u64 {
    if word % 2 == 1 then word else word + 1
  }

  datatype ReceiveState = ReceiveState(count: u32, window: u64, lastSequence: Option<u32>) {
    /** One more request is counted, and its number becomes the reference of the next step. */
    function Accepted(sequence: u32): ReceiveState {
      ReceiveState(Succ32(count), NextWindow(sequence), Some(sequence))
    }

    function NextWindow(sequence: u32): u64 {
      match lastSequence
      case None => 1
      case Some(last) =>
        var distance := WrappingSub32(sequence, last);
        if distance == 0 then SetLowest(window)
        else if distance <= 63 then SetLowest(ShiftLeft(window, distance))
        else 1
    }
  }

  const FRESH := ReceiveState(0, 0, None)

  /** The state a list of accepted sequence numbers leaves. */
  function Received(history: seq<u32>): ReceiveState {
    if history == [] then FRESH
    else Received(history[..|history| - 1]).Accepted(history[|history| - 1])
  }

  // ---------- what the window means ----------

  /** The forward step, wrapping, from the request before `i` to request `i`. */
  function Step(history: seq<u32>, i: nat): u32
    requires 0 < i < |history|
  {
    WrappingSub32(history[i], history[i - 1])
  }

  /** No step after request `i` reset the window. */
  predicate Kept(history: seq<u32>, i: nat)
    requires i < |history|
  {
    forall j :: i < j < |history| ==> Step(history, j) < 64
  }

  /** The total forward distance from request `i` to the latest one. */
  function Distance(history: seq<u32>, i: nat): nat
    requires i < |history|
    decreases |history|
  {
    if i == |history| - 1 then 0
    else Distance(history[..|history| - 1], i) + Step(history, |history| - 1)
  }

  /** Some request since the last reset lies `k` before the latest one. */
  ghost predicate SeenAt(history: seq<u32>, k: nat) {
    exists i :: 0 <= i < |history| && Kept(history, i) && Distance(history, i) == k
  }

  lemma {:induction false} CountAndLatest(history: seq<u32>)
    ensures Received(history).count == |history| % 0x1_0000_0000
    ensures history != [] ==> Received(history).lastSequence == Some(history[|history| - 1])
  {
    hide ReceiveState.NextWindow;
    if history != [] {
      CountAndLatest(history[..|history| - 1]);
      NextCount(|history| - 1);
    }
  }

  lemma NextCount(n: nat)
    ensures Succ32(n % 0x1_0000_0000) == (n + 1) % 0x1_0000_0000
  {
  }

  /** One step shifts the window by the forward distance, or empties it from 64 on. */
  lemma StepBits(state: ReceiveState, last: u32, sequence: u32, k: nat)
    requires state.lastSequence == Some(last) && k < 64
    ensures var d := WrappingSub32(sequence, last);
            Bit(state.NextWindow(sequence), k) <==> k == 0 || (d < 64 && k >= d && Bit(state.window, k - d))
  {
    var d := WrappingSub32(sequence, last);
    if d >= 64 {
      OneBit(k);
    } else if d == 0 {
      SetLowestBits(state.window, k);
    } else {
      ShiftBits(state.window, d, k);
      SetLowestBits(ShiftLeft(state.window, d), k);
    }
  }

  /** After any list of accepted sequence numbers, the window's bit `k` is set exactly when some
      request since the last reset lies `k` before the latest; the count is the list's length,
      wrapping. */
  lemma {:induction false} WindowExactly(history: seq<u32>, k: nat)
    requires history != [] && k < 64
    ensures Received(history).count == |history| % 0x1_0000_0000
    ensures Received(history).lastSequence == Some(history[|history| - 1])
    ensures Bit(Received(history).window, k) <==> SeenAt(history, k)
    decreases |history|
  {
    CountAndLatest(history);
    var n := |history| - 1;
    assert Kept(history, n) && Distance(history, n) == 0;
    var earlier := history[..n];
    if n == 0 {
      assert Received(earlier) == FRESH;
      OneBit(k);
    } else {
      CountAndLatest(earlier);
      StepBits(Received(earlier), history[n - 1], history[n], k);
      var d := Step(history, n);
      if d < 64 {
        SeenAfterStep(history, k);
        if k >= d {
          WindowExactly(earlier, k - d);
        }
      }
    }
  }

  lemma SeenAfterStep(history: seq<u32>, k: nat)
    requires |history| > 1 && Step(history, |history| - 1) < 64
    ensures var d := Step(history, |history| - 1);
            SeenAt(history, k)
            <==> k == 0 || (k >= d && SeenAt(history[..|history| - 1], k - d))
  {
    var n := |history| - 1;
    var earlier, d := history[..n], Step(history, n);
    assert Kept(history, n) && Distance(history, n) == 0;
    forall i | 0 <= i < n
      ensures Kept(history, i) <==> Kept(earlier, i)
      ensures Distance(history, i) == Distance(earlier, i) + d
    {
      assert forall j :: i < j < n ==> Step(history, j) == Step(earlier, j);
    }
    if SeenAt(history, k) && k > 0 {
      var i :| 0 <= i < |history| && Kept(history, i) && Distance(history, i) == k;
      assert Kept(earlier, i) && Distance(earlier, i) == k - d;
    }
    if k >= d && SeenAt(earlier, k - d) {
      var i :| 0 <= i < |earlier| && Kept(earlier, i) && Distance(earlier, i) == k - d;
      assert Kept(history, i) && Distance(history, i) == k;
    }
  }

  /** A set bit `k` always means that the sequence number `k` before the latest was accepted
      since the last reset. */
  lemma SetBitWasAccepted(history: seq<u32>, k: nat)
    requires history != [] && k < 64 && Bit(Received(history).window, k)
    ensures exists i :: 0 <= i < |history| && Kept(history, i)
              && history[i] == (history[|history| - 1] - k) % 0x1_0000_0000
  {
    hide Bit, Received, Kept, Distance;
    WindowExactly(history, k);
    var i :| 0 <= i < |history| && Kept(history, i) && Distance(history, i) == k;
    DistanceIsDifference(history, i);
    var latest := history[|history| - 1];
    assert (latest - Distance(history, i)) % 0x1_0000_0000 == history[i];
  }

  lemma {:induction false} DistanceIsDifference(history: seq<u32>, i: nat)
    requires i < |history|
    ensures (history[|history| - 1] - Distance(history, i)) % 0x1_0000_0000 == history[i]
    decreases |history|
  {
    var n := |history| - 1;
    if i < n {
      DistanceIsDifference(history[..n], i);
      var a: int, b: int := history[n], history[n - 1];
      assert a - Step(history, n) == b || a - Step(history, n) == b - 0x1_0000_0000;
      WrapOnce(b - Distance(history[..n], i));
    }
  }

  lemma WrapOnce(x: int)
    ensures (x - 0x1_0000_0000) % 0x1_0000_0000 == x % 0x1_0000_0000
  {
  }

  // ---------- bits ----------

  lemma {:induction false} ZeroBits(k: nat)
    ensures !Bit(0, k)
  {
    if k > 0 {
      ZeroBits(k - 1);
    }
  }

  lemma OneBit(k: nat)
    ensures Bit(1, k) <==> k == 0
  {
    if k > 0 {
      ZeroBits(k - 1);
    }
  }

  lemma {:induction false} ProductBits(n: nat, d: nat, k: nat)
    ensures Bit(n * Pow2(d), k) <==> k >= d && Bit(n, k - d)
  {
    hide Bit;
    if d == 0 {
      assert n * Pow2(d) == n;
    } else {
      Twice(Pow2(d - 1), n);
      DoubledBits(n * Pow2(d - 1), k);
      if k > 0 {
        ProductBits(n, d - 1, k - 1);
      }
    }
  }

  lemma DoubledBits(n: nat, k: nat)
    ensures Bit(2 * n, k) <==> k > 0 && Bit(n, k - 1)
  {
  }

  lemma {:induction false} ModuloBits(n: nat, m: nat, k: nat)
    requires k < m
    ensures Bit(n % Pow2(m), k) <==> Bit(n, k)
  {
    var p := Pow2(m - 1);
    HalfOfModulo(n, p);
    if k > 0 {
      ModuloBits(n / 2, m - 1, k - 1);
    }
  }

  lemma HalfOfModulo(n: nat, p: nat)
    requires p > 0
    ensures n % (2 * p) / 2 == n / 2 % p
    ensures n % (2 * p) % 2 == n % 2
  {
    var q, r := n / (2 * p), n % (2 * p);
    assert n == 2 * (p * q) + r;
    assert n / 2 == p * q + r / 2;
    assert r / 2 < p;
    ModuloUnique(n / 2, p, q, r / 2);
  }

  lemma ShiftBits(word: u64, d: nat, k: nat)
    requires k < 64
    ensures Bit(ShiftLeft(word, d), k) <==> k >= d && Bit(word, k - d)
  {
    SixtyFour();
    ModuloBits(word * Pow2(d), 64, k);
    ProductBits(word, d, k);
  }

  lemma SetLowestBits(word: u64, k: nat)
    ensures Bit(SetLowest(word), k) <==> k == 0 || Bit(word, k)
  {
    assert SetLowest(word) / 2 == word / 2;
  }
}
