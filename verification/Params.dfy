/** Open parameters and their tag/value codec (crates/irtt-proto/src/params.rs). */
module Params {
  import opened Prelude
  import opened ProtoErrors
  import V = Varint

  const PROTOCOL_VERSION: i64 := 1
  const MAX_SERVER_FILL_BYTES := 32

  datatype ReceivedStats = NoStats | Count | Window | CountAndWindow {
    predicate HasCount() { Count? || CountAndWindow? }
    predicate HasWindow() { Window? || CountAndWindow? }
    function Code(): i64 {
      match this case NoStats => 0 case Count => 1 case Window => 2 case CountAndWindow => 3
    }
  }

  datatype StampAt = NoStamp | AtSend | AtReceive | AtBoth | AtMidpoint {
    function Code(): i64 {
      match this case NoStamp => 0 case AtSend => 1 case AtReceive => 2 case AtBoth => 3 case AtMidpoint => 4
    }
  }

  datatype Clock = Unspecified | Wall | Monotonic | WallAndMonotonic {
    predicate HasWall() { Wall? || WallAndMonotonic? }
    predicate HasMono() { Monotonic? || WallAndMonotonic? }
    function Code(): i64 {
      match this case Unspecified => 0 case Wall => 1 case Monotonic => 2 case WallAndMonotonic => 3
    }
  }

  /** A server fill descriptor is a string; it is held here as its UTF-8 bytes. */
  datatype Params = Params(
    protocolVersion: i64,
    durationNs: i64,
    intervalNs: i64,
    length: i64,
    receivedStats: ReceivedStats,
    stampAt: StampAt,
    clock: Clock,
    dscp: i64,
    serverFill: Option<seq<u8>>)

  datatype Presence = Presence(
    protocolVersion: bool,
    durationNs: bool,
    intervalNs: bool,
    length: bool,
    receivedStats: bool,
    stampAt: bool,
    clock: bool,
    dscp: bool,
    serverFill: bool)

  datatype Decoded = Decoded(params: Params, presence: Presence)

  const WIRE_DEFAULT := Params(0, 0, 0, 0, NoStats, NoStamp, Unspecified, 0, None)
  const NOTHING :=
    Decoded(WIRE_DEFAULT, Presence(false, false, false, false, false, false, false, false, false))

  // ---------- UTF-8 (the well-formed sequences of section 4 of RFC 3629) ----------

  predicate Continuation(b: u8) { 0x80 <= b <= 0xBF }

  /** The length of the well-formed character at the head of `s`, or 0. */
  function CharLength(s: seq<u8>): (n: nat)
    ensures n <= |s|
  {
    if s == [] then 0
    else if s[0] <= 0x7F then 1
    else if |s| < 2 || !Continuation(s[1]) then 0
    else if 0xC2 <= s[0] <= 0xDF then 2
    else if |s| < 3 || !Continuation(s[2]) then 0
    else if s[0] == 0xE0 && s[1] >= 0xA0 then 3
    else if (0xE1 <= s[0] <= 0xEC || 0xEE <= s[0] <= 0xEF) then 3
    else if s[0] == 0xED && s[1] <= 0x9F then 3
    else if |s| < 4 || !Continuation(s[3]) then 0
    else if s[0] == 0xF0 && s[1] >= 0x90 then 4
    else if 0xF1 <= s[0] <= 0xF3 then 4
    else if s[0] == 0xF4 && s[1] <= 0x8F then 4
    else 0
  }

  predicate ValidUtf8(s: seq<u8>) {
    s == [] || (CharLength(s) > 0 && ValidUtf8(s[CharLength(s)..]))
  }

  lemma {:induction false} AsciiIsUtf8(s: seq<u8>)
    requires forall i :: 0 <= i < |s| ==> s[i] <= 0x7F
    ensures ValidUtf8(s)
  {
    if s != [] {
      AsciiIsUtf8(s[1..]);
    }
  }

  /** A descriptor the decoder accepts. */
  predicate FillOk(fill: Option<seq<u8>>) {
    fill.Some? ==> |fill.value| <= MAX_SERVER_FILL_BYTES && ValidUtf8(fill.value)
  }

  // ---------- encoding ----------

  function EncodedInt(tag: nat, value: i64): seq<u8> {
    if value == 0 then [] else V.Uvarint(tag) + V.Varint(value)
  }

  function EncodedFill(fill: Option<seq<u8>>): seq<u8> {
    match fill
    case None => []
    case Some(text) => V.Uvarint(9) + V.Uvarint(|text|) + text
  }

  /** The integer a parameter's tag carries. */
  function CodeOf(p: Params, tag: nat): i64
    requires 1 <= tag <= 8
  {
    match tag
    case 1 => p.protocolVersion
    case 2 => p.durationNs
    case 3 => p.intervalNs
    case 4 => p.length
    case 5 => p.receivedStats.Code()
    case 6 => p.stampAt.Code()
    case 7 => p.clock.Code()
    case _ => p.dscp
  }

  /** The encoding of the fields from `tag` on, in tag order. */
  function EncodedFromTag(p: Params, tag: nat): seq<u8>
    requires 1 <= tag <= 9
    decreases 9 - tag
  {
    if tag == 9 then EncodedFill(p.serverFill)
    else EncodedInt(tag, CodeOf(p, tag)) + EncodedFromTag(p, tag + 1)
  }

  function Encoded(p: Params): seq<u8> {
    EncodedFromTag(p, 1)
  }

  method PushInt(tag: u64, value: i64, out: seq<u8>) returns (result: seq<u8>)
    ensures result == out + EncodedInt(tag, value)
  {
    hide V.Uvarint;
    result := out;
    if value == 0 {
      return;
    }
    result := V.EncodeUvarint(tag, result);
    result := V.EncodeUvarint(V.ZigzagEncode(value), result);
  }

  lemma Pushed(p: Params, tag: nat, whole: seq<u8>, before: seq<u8>)
    requires 1 <= tag <= 8
    requires before + EncodedFromTag(p, tag) == whole
    ensures before + EncodedInt(tag, CodeOf(p, tag)) + EncodedFromTag(p, tag + 1) == whole
  {
    var e, rest := EncodedInt(tag, CodeOf(p, tag)), EncodedFromTag(p, tag + 1);
    assert before + e + rest == before + (e + rest);
  }

  lemma LastTag(p: Params)
    ensures EncodedFromTag(p, 9) == EncodedFill(p.serverFill)
  {
  }

  /** The eight integer pushes, in tag order, then the descriptor, whatever it says; its length
      only has to be a machine length. */
  method Encode(p: Params) returns (out: seq<u8>)
    requires p.serverFill.Some? ==> |p.serverFill.value| < 0x1_0000_0000_0000_0000
    ensures out == Encoded(p)
  {
    hide EncodedFromTag, EncodedInt, V.Uvarint, V.Varint;
    ghost var whole := Encoded(p);
    LastTag(p);
    assert [] + whole == whole;
    out := [];
    Pushed(p, 1, whole, out);
    out := PushInt(1, p.protocolVersion, out);
    Pushed(p, 2, whole, out);
    out := PushInt(2, p.durationNs, out);
    Pushed(p, 3, whole, out);
    out := PushInt(3, p.intervalNs, out);
    Pushed(p, 4, whole, out);
    out := PushInt(4, p.length, out);
    Pushed(p, 5, whole, out);
    out := PushInt(5, p.receivedStats.Code(), out);
    Pushed(p, 6, whole, out);
    out := PushInt(6, p.stampAt.Code(), out);
    Pushed(p, 7, whole, out);
    out := PushInt(7, p.clock.Code(), out);
    Pushed(p, 8, whole, out);
    out := PushInt(8, p.dscp, out);
    if p.serverFill.Some? {
      out := V.EncodeUvarint(9, out);
      out := V.EncodeUvarint(|p.serverFill.value|, out);
      out := out + p.serverFill.value;
    }
  }

  // ---------- decoding ----------

  /** One tag and its value. */
  datatype Field =
    | ProtocolVersion(number: i64)
    | DurationNs(number: i64)
    | IntervalNs(number: i64)
    | Length(number: i64)
    | Stats(stats: ReceivedStats)
    | Stamp(stamp: StampAt)
    | ClockSource(clock: Clock)
    | Dscp(number: i64)
    | Fill(text: seq<u8>)
    | Unknown

  function ReceivedStatsOf(value: i64): Result<ReceivedStats, ProtoError> {
    if value == 0 then Ok(NoStats)
    else if value == 1 then Ok(Count)
    else if value == 2 then Ok(Window)
    else if value == 3 then Ok(CountAndWindow)
    else Err(InvalidEnum("ReceivedStats", value))
  }

  function StampAtOf(value: i64): Result<StampAt, ProtoError> {
    if value == 0 then Ok(NoStamp)
    else if value == 1 then Ok(AtSend)
    else if value == 2 then Ok(AtReceive)
    else if value == 3 then Ok(AtBoth)
    else if value == 4 then Ok(AtMidpoint)
    else Err(InvalidEnum("StampAt", value))
  }

  /** An explicit zero is not a clock; only omission leaves it unspecified. */
  function ClockOf(value: i64): Result<Clock, ProtoError> {
    if value == 1 then Ok(Wall)
    else if value == 2 then Ok(Monotonic)
    else if value == 3 then Ok(WallAndMonotonic)
    else Err(InvalidEnum("Clock", value))
  }

  /** The field a known integer tag and its value make. */
  function IntField(tag: nat, value: i64): Result<Field, ProtoError>
    requires 1 <= tag <= 8
  {
    match tag
    case 1 => Ok(ProtocolVersion(value))
    case 2 => Ok(DurationNs(value))
    case 3 => Ok(IntervalNs(value))
    case 4 => Ok(Length(value))
    case 5 => (var s :- ReceivedStatsOf(value); Ok(Stats(s)))
    case 6 => (var s :- StampAtOf(value); Ok(Stamp(s)))
    case 7 => (var c :- ClockOf(value); Ok(ClockSource(c)))
    case _ => Ok(Dscp(value))
  }

  function FillValue(input: seq<u8>): (r: Result<(seq<u8>, nat), ProtoError>)
    ensures r.Ok? ==> r.value.1 <= |input| && FillOk(Some(r.value.0))
  {
    var (len, used) :- V.Decoded(input);
    V.DecodeIsStable(input, [], len, used);
    if len > MAX_SERVER_FILL_BYTES then Err(ParameterLengthTooLarge(9, len))
    else if |input| - used < len then Err(MalformedParams)
    else if !ValidUtf8(input[used..used + len]) then Err(InvalidUtf8)
    else Ok((input[used..used + len], used + len))
  }

  /** Reads one tag and its value from the head of `input`; every step consumes input. */
  function FieldAt(input: seq<u8>): (r: Result<(Field, nat), ProtoError>)
    ensures r.Ok? ==> 0 < r.value.1 <= |input|
    ensures r.Ok? && r.value.0.Fill? ==> FillOk(Some(r.value.0.text))
    ensures r.Ok? && r.value.0.ClockSource? ==> r.value.0.clock != Unspecified
  {
    var (tag, used) :- V.Decoded(input);
    V.DecodeIsStable(input, [], tag, used);
    var rest := input[used..];
    if 1 <= tag <= 8 then
      var (value, more) :- V.DecodedVarint(rest);
      var field :- IntField(tag, value);
      Ok((field, used + more))
    else if tag == 9 then
      var (text, more) :- FillValue(rest);
      Ok((Fill(text), used + more))
    else
      var (_, more) :- V.Decoded(rest);
      V.DecodedExactly(rest, V.Decoded(rest).value.0, more);
      Ok((Unknown, used + more))
  }

  function Apply(d: Decoded, field: Field): Decoded {
    var Decoded(p, q) := d;
    match field
    case ProtocolVersion(v) => Decoded(p.(protocolVersion := v), q.(protocolVersion := true))
    case DurationNs(v) => Decoded(p.(durationNs := v), q.(durationNs := true))
    case IntervalNs(v) => Decoded(p.(intervalNs := v), q.(intervalNs := true))
    case Length(v) => Decoded(p.(length := v), q.(length := true))
    case Stats(s) => Decoded(p.(receivedStats := s), q.(receivedStats := true))
    case Stamp(s) => Decoded(p.(stampAt := s), q.(stampAt := true))
    case ClockSource(c) => Decoded(p.(clock := c), q.(clock := true))
    case Dscp(v) => Decoded(p.(dscp := v), q.(dscp := true))
    case Fill(text) => Decoded(p.(serverFill := Some(text)), q.(serverFill := true))
    case Unknown => d
  }

  function DecodedFrom(input: seq<u8>, d: Decoded): Result<Decoded, ProtoError>
    decreases |input|
  {
    if input == [] then Ok(d)
    else
      var (field, used) :- FieldAt(input);
      DecodedFrom(input[used..], Apply(d, field))
  }

  method DecodeWithPresence(input: seq<u8>) returns (result: Result<Decoded, ProtoError>)
    ensures result == DecodedFrom(input, NOTHING)
  {
    hide FieldAt, Apply;
    var d := NOTHING;
    var pos := 0;
    assert input[0..] == input;
    while pos < |input|
      invariant 0 <= pos <= |input|
      invariant DecodedFrom(input[pos..], d) == DecodedFrom(input, NOTHING)
    {
      var step := FieldAt(input[pos..]);
      if step.Err? {
        return Err(step.error);
      }
      var (field, used) := step.value;
      assert input[pos..][used..] == input[pos + used..];
      d := Apply(d, field);
      pos := pos + used;
    }
    return Ok(d);
  }

  function Decode(input: seq<u8>): Result<Params, ProtoError> {
    var d :- DecodedFrom(input, NOTHING);
    Ok(d.params)
  }

  // ---------- decoding is a homomorphism ----------

  /** `later`'s present fields win over `earlier`'s; presence is united. */
  function Override(earlier: Decoded, later: Decoded): Decoded {
    var Decoded(p, q) := earlier;
    var Decoded(r, s) := later;
    Decoded(
      Params(
        if s.protocolVersion then r.protocolVersion else p.protocolVersion,
        if s.durationNs then r.durationNs else p.durationNs,
        if s.intervalNs then r.intervalNs else p.intervalNs,
        if s.length then r.length else p.length,
        if s.receivedStats then r.receivedStats else p.receivedStats,
        if s.stampAt then r.stampAt else p.stampAt,
        if s.clock then r.clock else p.clock,
        if s.dscp then r.dscp else p.dscp,
        if s.serverFill then r.serverFill else p.serverFill),
      Presence(
        q.protocolVersion || s.protocolVersion,
        q.durationNs || s.durationNs,
        q.intervalNs || s.intervalNs,
        q.length || s.length,
        q.receivedStats || s.receivedStats,
        q.stampAt || s.stampAt,
        q.clock || s.clock,
        q.dscp || s.dscp,
        q.serverFill || s.serverFill))
  }

  lemma FillIgnoresSuffix(input: seq<u8>, suffix: seq<u8>)
    requires FillValue(input).Ok?
    ensures FillValue(input + suffix) == FillValue(input)
  {
    var (len, used) := V.Decoded(input).value;
    V.DecodeIsStable(input, suffix, len, used);
    assert (input + suffix)[used..used + len] == input[used..used + len];
  }

  lemma VarintIgnoresSuffix(input: seq<u8>, suffix: seq<u8>)
    requires V.Decoded(input).Ok?
    ensures V.Decoded(input + suffix) == V.Decoded(input)
    ensures V.DecodedVarint(input + suffix) == V.DecodedVarint(input)
  {
    var (value, used) := V.Decoded(input).value;
    V.DecodeIsStable(input, suffix, value, used);
  }

  lemma FieldAtIgnoresSuffix(input: seq<u8>, suffix: seq<u8>)
    requires FieldAt(input).Ok?
    ensures FieldAt(input + suffix) == FieldAt(input)
  {
    VarintIgnoresSuffix(input, suffix);
    var (tag, used) := V.Decoded(input).value;
    var rest := input[used..];
    assert (input + suffix)[used..] == rest + suffix;
    if tag == 9 {
      FillIgnoresSuffix(rest, suffix);
    } else {
      VarintIgnoresSuffix(rest, suffix);
    }
  }

  lemma {:induction false} DecodeContinues(a: seq<u8>, b: seq<u8>, d: Decoded)
    requires DecodedFrom(a, d).Ok?
    ensures DecodedFrom(a + b, d) == DecodedFrom(b, DecodedFrom(a, d).value)
    decreases |a|
  {
    if a == [] {
      assert a + b == b;
    } else {
      var (field, used) := FieldAt(a).value;
      FieldAtIgnoresSuffix(a, b);
      assert (a + b)[used..] == a[used..] + b;
      DecodeContinues(a[used..], b, Apply(d, field));
    }
  }

  lemma ApplyOverrides(d: Decoded, e: Decoded, field: Field)
    ensures Apply(Override(d, e), field) == Override(d, Apply(e, field))
  {
    match field {
      case ProtocolVersion(_) =>
      case DurationNs(_) =>
      case IntervalNs(_) =>
      case Length(_) =>
      case Stats(_) =>
      case Stamp(_) =>
      case ClockSource(_) =>
      case Dscp(_) =>
      case Fill(_) =>
      case Unknown =>
    }
  }

  lemma {:induction false} DecodeOverrides(input: seq<u8>, d: Decoded, e: Decoded)
    ensures DecodedFrom(input, Override(d, e)).Ok? == DecodedFrom(input, e).Ok?
    ensures match DecodedFrom(input, e)
            case Ok(f) => DecodedFrom(input, Override(d, e)) == Ok(Override(d, f))
            case Err(error) => DecodedFrom(input, Override(d, e)) == Err(error)
    decreases |input|
  {
    if input != [] && FieldAt(input).Ok? {
      var (field, used) := FieldAt(input).value;
      ApplyOverrides(d, e, field);
      DecodeOverrides(input[used..], d, Apply(e, field));
    }
  }

  /** A payload that decodes, followed by any other, decodes to the second's fields over the
      first's: the last value of a repeated tag wins and presence is united. */
  lemma DecodeHomomorphism(a: seq<u8>, b: seq<u8>)
    requires DecodedFrom(a, NOTHING).Ok?
    ensures match DecodedFrom(b, NOTHING)
            case Ok(later) =>
              DecodedFrom(a + b, NOTHING) == Ok(Override(DecodedFrom(a, NOTHING).value, later))
            case Err(error) => DecodedFrom(a + b, NOTHING) == Err(error)
  {
    var d := DecodedFrom(a, NOTHING).value;
    DecodeContinues(a, b, NOTHING);
    assert Override(d, NOTHING) == d;
    DecodeOverrides(b, d, NOTHING);
  }

  /** What every successful decode guarantees: an absent field holds its wire default, the
      clock is unspecified only by omission, and a descriptor is short, valid UTF-8. */
  predicate WellDecoded(d: Decoded) {
    var Decoded(p, q) := d;
    && (!q.protocolVersion ==> p.protocolVersion == 0)
    && (!q.durationNs ==> p.durationNs == 0)
    && (!q.intervalNs ==> p.intervalNs == 0)
    && (!q.length ==> p.length == 0)
    && (!q.receivedStats ==> p.receivedStats == NoStats)
    && (!q.stampAt ==> p.stampAt == NoStamp)
    && (q.clock <==> p.clock != Unspecified)
    && (!q.dscp ==> p.dscp == 0)
    && (q.serverFill <==> p.serverFill.Some?)
    && FillOk(p.serverFill)
  }

  lemma ApplyIsWellFormed(d: Decoded, field: Field)
    requires WellDecoded(d)
    requires field.Fill? ==> FillOk(Some(field.text))
    requires field.ClockSource? ==> field.clock != Unspecified
    ensures WellDecoded(Apply(d, field))
  {
    hide FillOk;
    match field {
      case ProtocolVersion(_) =>
      case DurationNs(_) =>
      case IntervalNs(_) =>
      case Length(_) =>
      case Stats(_) =>
      case Stamp(_) =>
      case ClockSource(_) =>
      case Dscp(_) =>
      case Fill(_) =>
      case Unknown =>
    }
  }

  lemma {:induction false} DecodeIsWellFormed(input: seq<u8>, d: Decoded)
    requires WellDecoded(d) && DecodedFrom(input, d).Ok?
    ensures WellDecoded(DecodedFrom(input, d).value)
    decreases |input|
  {
    if input != [] {
      var (field, used) := FieldAt(input).value;
      ApplyIsWellFormed(d, field);
      DecodeIsWellFormed(input[used..], Apply(d, field));
    }
  }

  // ---------- round trip ----------

  lemma IntFieldReads(tag: nat, value: i64, rest: seq<u8>, d: Decoded)
    requires 1 <= tag <= 8
    requires value != 0 ==> IntField(tag, value).Ok?
    ensures DecodedFrom(EncodedInt(tag, value) + rest, d)
         == DecodedFrom(rest, if value == 0 then d else Apply(d, IntField(tag, value).value))
  {
    var encoded := EncodedInt(tag, value);
    if value == 0 {
      assert encoded + rest == rest;
    } else {
      var t, v := V.Uvarint(tag), V.Varint(value);
      assert encoded + rest == t + (v + rest);
      V.UvarintRoundTrip(tag, v + rest);
      assert (encoded + rest)[|t|..] == v + rest;
      V.VarintRoundTrip(value, rest);
      assert (encoded + rest)[|t| + |v|..] == rest;
    }
  }

  lemma FillReads(fill: Option<seq<u8>>, d: Decoded)
    requires FillOk(fill)
    ensures DecodedFrom(EncodedFill(fill), d)
         == Ok(if fill.None? then d else Apply(d, Fill(fill.value)))
  {
    hide V.Decoded, V.DecodedFrom, V.Uvarint, ValidUtf8, Apply;
    if fill.Some? {
      var text := fill.value;
      var t, l := V.Uvarint(9), V.Uvarint(|text|);
      var encoded := t + l + text;
      assert encoded == t + (l + text);
      V.UvarintRoundTrip(9, l + text);
      assert encoded[|t|..] == l + text;
      V.UvarintRoundTrip(|text|, text);
      assert (l + text)[|l|..|l| + |text|] == text;
      assert FieldAt(encoded) == Ok((Fill(text), |encoded|));
      assert encoded[|encoded|..] == [];
    }
  }

  /** Which fields an encoding mentions: the non-zero ones. */
  function Mentioned(p: Params): Presence {
    Presence(p.protocolVersion != 0, p.durationNs != 0, p.intervalNs != 0, p.length != 0,
             p.receivedStats != NoStats, p.stampAt != NoStamp, p.clock != Unspecified,
             p.dscp != 0, p.serverFill.Some?)
  }

  /** What the fields before `tag` leave decoded. */
  function Before(p: Params, tag: nat): Decoded
    requires 1 <= tag <= 9
  {
    var m := Mentioned(p);
    Decoded(
      Params(
        if tag > 1 then p.protocolVersion else 0,
        if tag > 2 then p.durationNs else 0,
        if tag > 3 then p.intervalNs else 0,
        if tag > 4 then p.length else 0,
        if tag > 5 then p.receivedStats else NoStats,
        if tag > 6 then p.stampAt else NoStamp,
        if tag > 7 then p.clock else Unspecified,
        if tag > 8 then p.dscp else 0,
        None),
      Presence(
        tag > 1 && m.protocolVersion,
        tag > 2 && m.durationNs,
        tag > 3 && m.intervalNs,
        tag > 4 && m.length,
        tag > 5 && m.receivedStats,
        tag > 6 && m.stampAt,
        tag > 7 && m.clock,
        tag > 8 && m.dscp,
        false))
  }

  /** The field an integer tag's code decodes to. */
  function FieldFor(p: Params, tag: nat): Field
    requires 1 <= tag <= 8
  {
    match tag
    case 1 => ProtocolVersion(p.protocolVersion)
    case 2 => DurationNs(p.durationNs)
    case 3 => IntervalNs(p.intervalNs)
    case 4 => Length(p.length)
    case 5 => Stats(p.receivedStats)
    case 6 => Stamp(p.stampAt)
    case 7 => ClockSource(p.clock)
    case _ => Dscp(p.dscp)
  }

  lemma CodeReads(p: Params, tag: nat)
    requires 1 <= tag <= 8
    ensures CodeOf(p, tag) != 0 ==> IntField(tag, CodeOf(p, tag)) == Ok(FieldFor(p, tag))
  {
  }

  lemma FieldStep(p: Params, tag: nat)
    requires 1 <= tag <= 8
    ensures CodeOf(p, tag) != 0 ==> IntField(tag, CodeOf(p, tag)).Ok?
    ensures Before(p, tag + 1)
         == if CodeOf(p, tag) == 0 then Before(p, tag)
            else Apply(Before(p, tag), IntField(tag, CodeOf(p, tag)).value)
  {
    hide IntField;
    CodeReads(p, tag);
    match tag {
      case 1 =>
      case 2 =>
      case 3 =>
      case 4 =>
      case 5 =>
      case 6 =>
      case 7 =>
      case _ =>
    }
  }

  lemma BeforeTheLast(p: Params)
    ensures Decoded(p, Mentioned(p)) == if p.serverFill.None? then Before(p, 9) else Apply(Before(p, 9), Fill(p.serverFill.value))
  {
  }

  lemma {:induction false} DecodesFromTag(p: Params, tag: nat)
    requires 1 <= tag <= 9 && FillOk(p.serverFill)
    ensures DecodedFrom(EncodedFromTag(p, tag), Before(p, tag)) == Ok(Decoded(p, Mentioned(p)))
    decreases 9 - tag
  {
    hide EncodedFill, EncodedInt, CodeOf, Before, Mentioned, Apply, IntField, FillOk;
    BeforeTheLast(p);
    if tag == 9 {
      FillReads(p.serverFill, Before(p, 9));
    } else {
      FieldStep(p, tag);
      IntFieldReads(tag, CodeOf(p, tag), EncodedFromTag(p, tag + 1), Before(p, tag));
      DecodesFromTag(p, tag + 1);
    }
  }

  /** Decoding an encoding returns the parameters, and reports exactly the fields it mentions. */
  lemma ParamsRoundTrip(p: Params)
    requires FillOk(p.serverFill)
    ensures DecodedFrom(Encoded(p), NOTHING) == Ok(Decoded(p, Mentioned(p)))
    ensures Decode(Encoded(p)) == Ok(p)
  {
    DecodesFromTag(p, 1);
  }
}
