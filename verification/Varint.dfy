/** Base-128 varints and the zigzag transform (crates/irtt-proto/src/varint.rs). */
module Varint {
  import opened Prelude
  import opened ProtoErrors

  /** The shortest base-128 form of `value`, least significant group first. */
  function Uvarint(value: nat): (bytes: seq<u8>)
    ensures |bytes| > 0
  {
    if value < 0x80 then [value] else [value % 0x80 + 0x80] + Uvarint(value / 0x80)
  }

  method EncodeUvarint(value: u64, out: seq<u8>) returns (result: seq<u8>)
    ensures result == out + Uvarint(value)
  {
    var rest := value;
    result := out;
    while rest >= 0x80
      invariant 0 <= rest
      invariant result + Uvarint(rest) == out + Uvarint(value)
      decreases rest
    {
      result := result + [rest % 0x80 + 0x80];
      rest := rest / 0x80;
    }
    result := result + [rest];
  }

  function Weight(groups: nat): (w: nat)
    ensures w > 0
  {
    if groups == 0 then 1 else 0x80 * Weight(groups - 1)
  }

  /** The number the low seven bits of `groups` spell, least significant group first. */
  function Spelled(groups: seq<u8>): nat {
    if groups == [] then 0 else groups[0] % 0x80 + 0x80 * Spelled(groups[1..])
  }

  /** `groups` is one whole varint: only its last byte lacks the continuation bit. */
  predicate Terminated(groups: seq<u8>) {
    && groups != []
    && groups[|groups| - 1] < 0x80
    && forall i :: 0 <= i < |groups| - 1 ==> groups[i] >= 0x80
  }

  /** What a decoder reads, having consumed `idx` groups that spell `value`. */
  function DecodedFrom(input: seq<u8>, idx: nat, value: nat): Result<(nat, nat), ProtoError>
    requires idx <= |input|
    decreases |input| - idx
  {
    if idx == |input| then Err(TruncatedVarint)
    else if idx == 10 then Err(VarintOverflow)
    else
      var low := input[idx] % 0x80;
      if idx == 9 && low > 1 then Err(VarintOverflow)
      else if input[idx] < 0x80 then Ok((value + low * Weight(idx), idx + 1))
      else DecodedFrom(input, idx + 1, value + low * Weight(idx))
  }

  function Decoded(input: seq<u8>): Result<(nat, nat), ProtoError> {
    DecodedFrom(input, 0, 0)
  }

  method DecodeUvarint(input: seq<u8>) returns (result: Result<(nat, nat), ProtoError>)
    ensures result == Decoded(input)
  {
    var value := 0;
    for idx := 0 to |input|
      invariant idx <= 10
      invariant value >= 0
      invariant DecodedFrom(input, idx, value) == Decoded(input)
    {
      if idx == 10 {
        return Err(VarintOverflow);
      }
      var low := input[idx] % 0x80;
      if idx == 9 && low > 1 {
        return Err(VarintOverflow);
      }
      value := value + low * Weight(idx);
      if input[idx] < 0x80 {
        return Ok((value, idx + 1));
      }
    }
    return Err(TruncatedVarint);
  }

  // ---------- which inputs decode, and to what ----------

  lemma {:induction false} SpelledAppend(groups: seq<u8>, last: u8)
    ensures Spelled(groups + [last]) == Spelled(groups) + last % 0x80 * Weight(|groups|)
  {
    if groups != [] {
      var rest := groups[1..];
      SpelledAppend(rest, last);
      assert (groups + [last])[1..] == rest + [last];
      TimesEighty(last % 0x80, Weight(|rest|));
    }
  }

  lemma TimesEighty(l: nat, w: nat)
    ensures 0x80 * (l * w) == l * (0x80 * w)
  {
  }

  lemma {:induction false} SpelledBound(groups: seq<u8>)
    ensures Spelled(groups) < Weight(|groups|)
  {
    if groups != [] {
      SpelledBound(groups[1..]);
    }
  }

  lemma NineAndTenGroups()
    ensures Weight(9) == 0x8000_0000_0000_0000
  {
    assert Weight(4) == 0x80 * (0x80 * (0x80 * (0x80 * Weight(0))));
    assert Weight(9) == 0x80 * (0x80 * (0x80 * (0x80 * (0x80 * Weight(4)))));
  }

  /** Decoding succeeds exactly on a terminated varint of at most ten groups whose value fits 64 bits. */
  predicate Reads(input: seq<u8>, value: nat, used: nat) {
    && 0 < used <= |input| && used <= 10
    && Terminated(input[..used])
    && Spelled(input[..used]) == value
    && value < 0x1_0000_0000_0000_0000
  }

  lemma DecodedExactly(input: seq<u8>, value: nat, used: nat)
    ensures Decoded(input) == Ok((value, used)) <==> Reads(input, value, used)
  {
    DecodedFromExactly(input, 0, value, used);
    assert Spelled(input[..0]) == 0;
  }

  lemma {:induction false} DecodedFromExactly(input: seq<u8>, idx: nat, value: nat, used: nat)
    requires idx <= |input| && idx <= 10
    requires forall i :: 0 <= i < idx ==> input[i] >= 0x80
    requires idx == 10 ==> input[9] % 0x80 <= 1
    ensures DecodedFrom(input, idx, Spelled(input[..idx])) == Ok((value, used))
       <==> Reads(input, value, used)
    decreases |input| - idx
  {
    hide Spelled, Weight;
    NineAndTenGroups();
    if Reads(input, value, used) {
      assert idx < used;
    }
    if idx < |input| && idx < 10 {
      var low := input[idx] % 0x80;
      assert input[..idx] + [input[idx]] == input[..idx + 1];
      SpelledAppend(input[..idx], input[idx]);
      SpelledBound(input[..idx]);
      if idx == 9 && Reads(input, value, used) {
        TenthGroup(input, value, used);
      }
      if !(idx == 9 && low > 1) {
        if input[idx] < 0x80 {
          StopsAt(input, idx, value, used);
        } else {
          DecodedFromExactly(input, idx + 1, value, used);
        }
      }
    }
  }

  lemma StopsAt(input: seq<u8>, idx: nat, value: nat, used: nat)
    requires idx < |input| && idx < 10 && input[idx] < 0x80
    requires forall i :: 0 <= i < idx ==> input[i] >= 0x80
    requires idx == 9 ==> input[9] % 0x80 <= 1
    ensures Reads(input, value, used) <==> used == idx + 1 && value == Spelled(input[..idx + 1])
  {
    NineAndTenGroups();
    SpelledBound(input[..idx]);
    SpelledAppend(input[..idx], input[idx]);
    assert input[..idx] + [input[idx]] == input[..idx + 1];
    if idx < 9 {
      SpelledBound(input[..idx + 1]);
      WeightMonotone(idx + 1, 9);
    }
  }

  lemma {:induction false} WeightMonotone(a: nat, b: nat)
    requires a <= b
    ensures Weight(a) <= Weight(b)
    decreases b
  {
    if a < b {
      WeightMonotone(a, b - 1);
    }
  }

  /** A tenth group above one is refused because its value would not fit. */
  lemma TenthGroup(input: seq<u8>, value: nat, used: nat)
    requires |input| >= 10 && Reads(input, value, used)
    requires forall i :: 0 <= i < 9 ==> input[i] >= 0x80
    ensures input[9] % 0x80 <= 1
  {
    NineAndTenGroups();
    assert used == 10;
    SpelledAppend(input[..9], input[9]);
    assert input[..9] + [input[9]] == input[..10];
  }

  // ---------- round trips ----------

  lemma {:induction false} UvarintSpells(value: nat)
    ensures Terminated(Uvarint(value)) && Spelled(Uvarint(value)) == value
  {
    if value >= 0x80 {
      UvarintSpells(value / 0x80);
      var rest := Uvarint(value / 0x80);
      assert Uvarint(value)[1..] == rest;
      forall i | 0 <= i < |Uvarint(value)| - 1 ensures Uvarint(value)[i] >= 0x80 {
        if i > 0 { assert Uvarint(value)[i] == rest[i - 1]; }
      }
    }
  }

  lemma {:induction false} UvarintLength(value: nat, groups: nat)
    requires groups > 0 && value < Weight(groups)
    ensures |Uvarint(value)| <= groups
  {
    assert Weight(1) == 0x80 * Weight(0);
    if value >= 0x80 {
      UvarintLength(value / 0x80, groups - 1);
    }
  }

  /** Encoding then decoding returns the value and its own length, whatever follows. */
  lemma UvarintRoundTrip(value: u64, suffix: seq<u8>)
    ensures Decoded(Uvarint(value) + suffix) == Ok((value, |Uvarint(value)|))
    ensures |Uvarint(value)| <= 10
  {
    UvarintSpells(value);
    NineAndTenGroups();
    assert Weight(10) == 0x80 * Weight(9);
    UvarintLength(value, 10);
    assert (Uvarint(value) + suffix)[..|Uvarint(value)|] == Uvarint(value);
    DecodedExactly(Uvarint(value) + suffix, value, |Uvarint(value)|);
  }

  /** Any successful decode, canonical or not, ignores later bytes, and the value it returns
      re-encodes to a form at most as long, which decodes to the same value. */
  lemma DecodeIsStable(input: seq<u8>, suffix: seq<u8>, value: nat, used: nat)
    requires Decoded(input) == Ok((value, used))
    ensures 0 < used <= |input| && used <= 10
    ensures value < 0x1_0000_0000_0000_0000
    ensures Decoded(input + suffix) == Ok((value, used))
    ensures Decoded(Uvarint(value)) == Ok((value, |Uvarint(value)|))
    ensures |Uvarint(value)| <= used
  {
    DecodedExactly(input, value, used);
    assert (input + suffix)[..used] == input[..used];
    DecodedExactly(input + suffix, value, used);
    UvarintRoundTrip(value, []);
    assert Uvarint(value) + [] == Uvarint(value);
    SpelledBound(input[..used]);
    UvarintLength(value, used);
  }

  // ---------- zigzag ----------

  /** `(value << 1) ^ (value >> 63)`: an arithmetic shift yields all zeroes or all ones, and
      an exclusive or with all ones is the complement. */
  function ZigzagEncode(value: i64): u64 {
    var doubled := (2 * Unsigned(value)) % 0x1_0000_0000_0000_0000;
    if value < 0 then 0xFFFF_FFFF_FFFF_FFFF - doubled else doubled
  }

  /** `(value >> 1) ^ -(value & 1)`. */
  function ZigzagDecode(value: u64): i64 {
    var half := value / 2;
    if value % 2 == 1 then -half - 1 else half
  }

  /** Zigzag is a bijection between the signed and the unsigned 64-bit integers. */
  lemma ZigzagBijection(signed: i64, unsigned: u64)
    ensures ZigzagDecode(ZigzagEncode(signed)) == signed
    ensures ZigzagEncode(ZigzagDecode(unsigned)) == unsigned
    ensures ZigzagEncode(signed) == unsigned <==> signed == ZigzagDecode(unsigned)
  {
    ZigzagMeans(signed);
    ZigzagMeans(ZigzagDecode(unsigned));
    hide ZigzagEncode;
  }

  lemma ZigzagMeans(signed: i64)
    ensures ZigzagEncode(signed) == if signed < 0 then -2 * signed - 1 else 2 * signed
  {
    var doubled := 2 * Unsigned(signed);
    if doubled >= 0x1_0000_0000_0000_0000 {
      ModuloUnique(doubled, 0x1_0000_0000_0000_0000, 1, doubled - 0x1_0000_0000_0000_0000);
    }
  }

  function Varint(value: i64): (bytes: seq<u8>)
    ensures |bytes| > 0
  {
    Uvarint(ZigzagEncode(value))
  }

  function DecodedVarint(input: seq<u8>): (r: Result<(i64, nat), ProtoError>)
    ensures r.Ok? ==> 0 < r.value.1 <= |input|
  {
    var (value, used) :- Decoded(input);
    DecodeIsStable(input, [], value, used);
    Ok((ZigzagDecode(value), used))
  }

  lemma VarintRoundTrip(value: i64, suffix: seq<u8>)
    ensures DecodedVarint(Varint(value) + suffix) == Ok((value, |Varint(value)|))
  {
    UvarintRoundTrip(ZigzagEncode(value), suffix);
    ZigzagBijection(value, 0);
  }
}
