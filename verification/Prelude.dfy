/** Machine integers, little-endian fields and the result types shared by every module. */
module Prelude {

  type u8 = x: int | 0 <= x < 0x100
  type u32 = x: int | 0 <= x < 0x1_0000_0000
  type u64 = x: int | 0 <= x < 0x1_0000_0000_0000_0000
  type i64 = x: int | -0x8000_0000_0000_0000 <= x < 0x8000_0000_0000_0000

  const U32_MAX: nat := 0xFFFF_FFFF
  const I64_MAX: nat := 0x7FFF_FFFF_FFFF_FFFF

  datatype Option<+T> = None | Some(value: T) {
    function GetOr(default: T): T {
      match this
      case Some(v) => v
      case None => default
    }
  }

  datatype Result<+T, +E> = Ok(value: T) | Err(error: E) {
    predicate IsFailure() {
      Err?
    }

    function PropagateFailure<U>(): Result<U, E>
      requires Err?
    {
      Err(error)
    }

    function Extract(): T
      requires Ok?
    {
      value
    }
  }

  function Min(a: int, b: int): int {
    if a <= b then a else b
  }

  function Max(a: int, b: int): int {
    if a <= b then b else a
  }

  /** `wrapping_add(1)` on 32 bits. */
  function Succ32(x: u32): u32 {
    if x == U32_MAX then 0 else x + 1
  }

  /** `wrapping_sub` on 32 bits. */
  function WrappingSub32(x: u32, y: u32): u32 {
    if x >= y then x - y else x - y + 0x1_0000_0000
  }

  /** A value clamped into 64 signed bits: saturating addition and subtraction. */
  function Saturate(x: int): i64 {
    if x > I64_MAX then I64_MAX else if x < -0x8000_0000_0000_0000 then -0x8000_0000_0000_0000 else x
  }

  /** A non-negative quantity saturated into 64 signed bits. */
  function SaturatingI64(duration: nat): i64 {
    if duration > I64_MAX then I64_MAX else duration
  }

  /** The bit pattern of a signed 64-bit value, and back. */
  function Unsigned(x: i64): u64 {
    if x < 0 then x + 0x1_0000_0000_0000_0000 else x
  }

  function Signed(x: u64): i64 {
    if x > I64_MAX then x - 0x1_0000_0000_0000_0000 else x
  }

  function Pow256(k: nat): (p: nat)
    ensures p > 0
  {
    if k == 0 then 1 else 256 * Pow256(k - 1)
  }

  /** The `width` low-order bytes of `x`, least significant first. */
  function ToLe(x: nat, width: nat): (bytes: seq<u8>)
    ensures |bytes| == width
  {
    if width == 0 then [] else [x % 256] + ToLe(x / 256, width - 1)
  }

  function FromLe(bytes: seq<u8>): nat {
    if bytes == [] then 0 else bytes[0] + 256 * FromLe(bytes[1..])
  }

  lemma {:induction false} LeRoundTrip(x: nat, width: nat)
    requires x < Pow256(width)
    ensures FromLe(ToLe(x, width)) == x
  {
    if width > 0 {
      LeRoundTrip(x / 256, width - 1);
    }
  }

  lemma {:induction false} FromLeBound(bytes: seq<u8>)
    ensures FromLe(bytes) < Pow256(|bytes|)
  {
    if bytes != [] {
      FromLeBound(bytes[1..]);
    }
  }

  lemma WidthsFit()
    ensures Pow256(4) == 0x1_0000_0000
    ensures Pow256(8) == 0x1_0000_0000_0000_0000
  {
    assert Pow256(4) == 256 * (256 * (256 * (256 * Pow256(0))));
    assert Pow256(8) == 256 * (256 * (256 * (256 * Pow256(4))));
  }

  function Zeros(n: nat): (z: seq<u8>)
    ensures |z| == n
  {
    seq(n, _ => 0)
  }

  // ---------- division ----------

  lemma ModuloUnique(n: nat, p: nat, q: nat, r: nat)
    requires r < p && n == p * q + r
    ensures n % p == r
  {
    SameRemainder(p, q, r, n / p, n % p);
  }

  lemma SameRemainder(p: nat, q: nat, r: nat, q': nat, r': nat)
    requires r < p && r' < p && p * q + r == p * q' + r'
    ensures r == r'
  {
    if q < q' {
      Farther(p, q, q');
    } else if q' < q {
      Farther(p, q', q);
    }
  }

  lemma Farther(p: nat, a: nat, b: nat)
    requires a < b
    ensures p * b >= p * a + p
  {
    var rest := b - a - 1;
    assert p * rest >= 0;
    assert p * b == p * a + p + p * rest by {
      assert b == a + 1 + rest;
    }
  }
}
