/** Server fill policy (crates/irtt-server/src/fill.rs). */
module Fill {
  import opened Prelude
  import opened Params
  import opened Layout

  datatype FillMode = NoFill | RandomFill | Pattern(bytes: seq<u8>) {
    /** The bytes of one reply's payload region; `entropy` is what the random source gave, or
        `None` when the draw failed. A pattern starts at its first byte in every reply. */
    function Payload(len: nat, entropy: Option<nat -> u8>): (payload: seq<u8>)
      ensures |payload| <= len
    {
      match this
      case NoFill => []
      case RandomFill => if entropy.Some? then seq(len, i requires 0 <= i => entropy.value(i)) else Zeros(len)
      case Pattern(bytes) => if bytes == [] then [] else seq(len, i requires 0 <= i => bytes[i % |bytes|])
    }
  }

  const NONE_NAME: seq<u8> := [0x6E, 0x6F, 0x6E, 0x65]
  const RAND_NAME: seq<u8> := [0x72, 0x61, 0x6E, 0x64]
  const PATTERN_PREFIX: seq<u8> := [0x70, 0x61, 0x74, 0x74, 0x65, 0x72, 0x6E, 0x3A]

  /** `irtt`, and its descriptor `pattern:69727474`. */
  const DEFAULT_PATTERN: seq<u8> := [0x69, 0x72, 0x74, 0x74]
  const DEFAULT_BODY: seq<u8> := [0x36, 0x39, 0x37, 0x32, 0x37, 0x34, 0x37, 0x34]
  const DEFAULT_DESCRIPTOR: seq<u8> := PATTERN_PREFIX + DEFAULT_BODY

  function HexDigit(digit: u8): Option<nat> {
    if 0x30 <= digit <= 0x39 then Some(digit - 0x30)
    else if 0x61 <= digit <= 0x66 then Some(digit - 0x61 + 10)
    else if 0x41 <= digit <= 0x46 then Some(digit - 0x41 + 10)
    else None
  }

  /** Both cases are accepted; anything but whole pairs of digits names no pattern. */
  function HexPairs(body: seq<u8>): (r: Option<seq<u8>>)
    ensures r.Some? ==> 2 * |r.value| == |body|
  {
    if body == [] then Some([])
    else if |body| == 1 then None
    else
      match (HexDigit(body[0]), HexDigit(body[1]), HexPairs(body[2..]))
      case (Some(high), Some(low), Some(rest)) => Some([PairByte(high, low)] + rest)
      case _ => None
  }

  /** The pattern a body names: at least one pair. */
  function HexPattern(body: seq<u8>): Option<seq<u8>> {
    if body == [] then None else HexPairs(body)
  }

  function PairByte(high: nat, low: nat): u8 {
    if high < 16 && low < 16 then 16 * high + low else 0
  }

  function Parse(descriptor: seq<u8>): Option<FillMode> {
    if descriptor == NONE_NAME then Some(NoFill)
    else if descriptor == RAND_NAME then Some(RandomFill)
    else if PATTERN_PREFIX <= descriptor then
      match HexPattern(descriptor[|PATTERN_PREFIX|..])
      case Some(bytes) => Some(Pattern(bytes))
      case None => None
    else None
  }

  /** The effective fill, and the descriptor the open reply returns. */
  function NegotiateFill(p: Params): (Params, FillMode) {
    if p.serverFill.None? || p.serverFill.value == [] then (p, Pattern(DEFAULT_PATTERN))
    else
      match Parse(p.serverFill.value)
      case Some(mode) => (p, mode)
      case None => (p.(serverFill := Some(DEFAULT_DESCRIPTOR)), Pattern(DEFAULT_PATTERN))
  }

  method NegotiateServerFill(requested: Params) returns (p: Params, mode: FillMode)
    ensures (p, mode) == NegotiateFill(requested)
  {
    p := requested;
    mode := Pattern(DEFAULT_PATTERN);
    if p.serverFill.Some? && p.serverFill.value != [] {
      var parsed := Parse(p.serverFill.value);
      if parsed.Some? {
        mode := parsed.value;
      } else {
        p := p.(serverFill := Some(DEFAULT_DESCRIPTOR));
      }
    }
  }

  /** A body names a pattern exactly when it is one or more whole pairs of hexadecimal digits. */
  lemma HexPatternAccepts(body: seq<u8>)
    ensures HexPattern(body).Some?
       <==> body != [] && |body| % 2 == 0 && forall i :: 0 <= i < |body| ==> HexDigit(body[i]).Some?
  {
    HexPairsAccept(body);
  }

  lemma {:induction false} HexPairsAccept(body: seq<u8>)
    ensures HexPairs(body).Some? <==> |body| % 2 == 0 && forall i :: 0 <= i < |body| ==> HexDigit(body[i]).Some?
    decreases |body|
  {
    if |body| >= 2 {
      HexPairsAccept(body[2..]);
      assert body == body[..2] + body[2..];
    }
  }

  /** And byte `i` of that pattern is what digits `2i` and `2i + 1` spell. */
  lemma {:induction false} HexPairsSpell(body: seq<u8>, i: nat)
    requires HexPairs(body).Some? && i < |HexPairs(body).value|
    ensures HexDigit(body[2 * i]).Some? && HexDigit(body[2 * i + 1]).Some?
    ensures HexPairs(body).value[i] == 16 * HexDigit(body[2 * i]).value + HexDigit(body[2 * i + 1]).value
    decreases i
  {
    if i > 0 {
      HexPairsSpell(body[2..], i - 1);
    }
  }

  /** The descriptor a client is told for the default fill names exactly the default bytes. */
  lemma DefaultDescriptorIsDefault()
    ensures Parse(DEFAULT_DESCRIPTOR) == Some(Pattern(DEFAULT_PATTERN))
    ensures FillOk(Some(DEFAULT_DESCRIPTOR))
  {
    assert DEFAULT_DESCRIPTOR[|PATTERN_PREFIX|..] == DEFAULT_BODY;
    HexPairsAccept(DEFAULT_BODY);
    var bytes := HexPairs(DEFAULT_BODY).value;
    HexPairsSpell(DEFAULT_BODY, 0);
    HexPairsSpell(DEFAULT_BODY, 1);
    HexPairsSpell(DEFAULT_BODY, 2);
    HexPairsSpell(DEFAULT_BODY, 3);
    assert bytes == DEFAULT_PATTERN;
    AsciiIsUtf8(DEFAULT_DESCRIPTOR);
  }

  /** No preference and every honoured descriptor are returned untouched; only a descriptor that
      names no fill is replaced, and then by one that names the fill actually used. */
  lemma FillIsHonest(p: Params)
    ensures var (q, mode) := NegotiateFill(p);
            && q.(serverFill := p.serverFill) == p
            && (q == p <==> p.serverFill.None? || p.serverFill.value == [] || Parse(p.serverFill.value).Some?)
            && (q.serverFill.Some? && q.serverFill.value != [] ==> Parse(q.serverFill.value) == Some(mode))
            && (FillOk(p.serverFill) ==> FillOk(q.serverFill))
            && NegotiateFill(q) == (q, mode)
  {
    DefaultDescriptorIsDefault();
  }

  /** A payload never outgrows its region, and byte `i` of a pattern's is byte `i` of the
      repeated pattern. */
  lemma PatternRepeats(bytes: seq<u8>, len: nat, entropy: Option<nat -> u8>, i: nat)
    requires bytes != [] && i < len
    ensures |Pattern(bytes).Payload(len, entropy)| == len
    ensures i + |bytes| < len ==>
              Pattern(bytes).Payload(len, entropy)[i + |bytes|] == Pattern(bytes).Payload(len, entropy)[i]
    ensures i < |bytes| ==> Pattern(bytes).Payload(len, entropy)[i] == bytes[i]
  {
    Periodic(i, |bytes|);
  }

  lemma Periodic(i: nat, n: nat)
    requires n > 0
    ensures (i + n) % n == i % n
    ensures i < n ==> i % n == i
  {
    var q, r := i / n, i % n;
    assert i == n * q + r;
    NextMultiple(n, q);
    ModuloUnique(i + n, n, q + 1, r);
    if i < n {
      ModuloUnique(i, n, 0, i);
    }
  }

  lemma NextMultiple(n: nat, q: nat)
    ensures n * (q + 1) == n * q + n
  {
  }
}
