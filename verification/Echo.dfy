/** Echo replies (crates/irtt-proto/src/echo.rs). */
module Echo {
  import opened Prelude
  import opened ProtoErrors
  import opened Params
  import opened Layout
  import opened Envelope

  datatype TimestampFields = TimestampFields(
    recvWall: Option<i64>,
    recvMono: Option<i64>,
    midpointWall: Option<i64>,
    midpointMono: Option<i64>,
    sendWall: Option<i64>,
    sendMono: Option<i64>)

  datatype EchoReply = EchoReply(
    flags: Flags,
    token: u64,
    sequence: u32,
    recvCount: Option<u32>,
    recvWindow: Option<u64>,
    timestamps: TimestampFields,
    payload: seq<u8>)

  const RULES: seq<FlagRule> := [Reject(Open), Require(Reply)]

  // ---------- the optional reply fields, as one list ----------

  function Bits(field: Option<i64>): Option<nat> {
    match field case None => None case Some(v) => Some(Unsigned(v))
  }

  function Plain32(field: Option<u32>): Option<nat> {
    match field case None => None case Some(v) => Some(v)
  }

  function Plain64(field: Option<u64>): Option<nat> {
    match field case None => None case Some(v) => Some(v)
  }

  function FieldValues(reply: EchoReply): (values: seq<Option<nat>>)
    ensures |values| == 10
  {
    var t := reply.timestamps;
    [ Some(reply.token), Some(reply.sequence), Plain32(reply.recvCount), Plain64(reply.recvWindow), Bits(t.recvWall), Bits(t.recvMono),
      Bits(t.midpointWall), Bits(t.midpointMono), Bits(t.sendWall), Bits(t.sendMono)]
  }

  function AsU32(field: Option<nat>): Option<u32>
    requires field.Some? ==> field.value < 0x1_0000_0000
  {
    match field case None => None case Some(v) => Some(v)
  }

  function AsU64(field: Option<nat>): Option<u64>
    requires field.Some? ==> field.value < 0x1_0000_0000_0000_0000
  {
    match field case None => None case Some(v) => Some(v)
  }

  function AsI64(field: Option<nat>): Option<i64>
    requires field.Some? ==> field.value < 0x1_0000_0000_0000_0000
  {
    match field case None => None case Some(v) => Some(Signed(v))
  }

  /** The reply fields, each checked against its slot, in wire order. */
  function PushFields(slots: seq<Slot>, values: seq<Option<nat>>): Result<seq<u8>, ProtoError>
    requires |slots| == |values|
  {
    if slots == [] then Ok([])
    else if slots[0].present && values[0].None? then Err(MissingField(slots[0].name))
    else if !slots[0].present && values[0].Some? then Err(UnexpectedField(slots[0].name))
    else
      var rest :- PushFields(slots[1..], values[1..]);
      Ok((if values[0].Some? then ToLe(values[0].value, slots[0].width) else []) + rest)
  }

  predicate SlotFits(slot: Slot, value: Option<nat>) {
    && (value.Some? <==> slot.present)
    && (value.Some? ==> value.value < Pow256(slot.width))
  }

  function ReadFields(slots: seq<Slot>, input: seq<u8>): (values: seq<Option<nat>>)
    requires |input| >= SlotsSize(slots)
    ensures |values| == |slots|
    ensures forall i :: 0 <= i < |slots| ==>
              SlotFits(slots[i], values[i])
  {
    if slots == [] then []
    else if slots[0].present then
      FromLeBound(input[..slots[0].width]);
      [Some(FromLe(input[..slots[0].width]))] + ReadFields(slots[1..], input[slots[0].width..])
    else [None] + ReadFields(slots[1..], input)
  }

  /** Ten values that make a reply: the first two present, each within its width. */
  predicate ReplyValues(v: seq<Option<nat>>) {
    && |v| == 10 && v[0].Some? && v[1].Some?
    && (forall i | i in {1, 2} :: v[i].Some? ==> v[i].value < 0x1_0000_0000)
    && (forall i | 0 <= i < 10 :: v[i].Some? ==> v[i].value < 0x1_0000_0000_0000_0000)
  }

  function ReplyOf(flags: Flags, v: seq<Option<nat>>, payload: seq<u8>): EchoReply
    requires ReplyValues(v)
  {
    EchoReply(flags, v[0].value, v[1].value, AsU32(v[2]), AsU64(v[3]),
      TimestampFields(AsI64(v[4]), AsI64(v[5]), AsI64(v[6]), AsI64(v[7]), AsI64(v[8]), AsI64(v[9])),
      payload)
  }

  lemma FieldsAreReplies(layout: EchoLayout, v: seq<Option<nat>>)
    requires Fits(layout.Slots(), v)
    ensures ReplyValues(v)
  {
    WidthsFit();
    var s := layout.Slots();
    forall i | 0 <= i < 10
      ensures v[i].Some? ==> v[i].value < if i == 1 || i == 2 then 0x1_0000_0000 else 0x1_0000_0000_0000_0000
    {
      assert SlotFits(s[i], v[i]);
      assert s[i].width == if i == 1 || i == 2 then 4 else 8;
    }
    assert SlotFits(s[0], v[0]) && SlotFits(s[1], v[1]);
  }

  predicate Small(value: Option<nat>) {
    value.Some? ==> value.value < 0x1_0000_0000_0000_0000
  }

  lemma TenSmall(v: seq<Option<nat>>)
    requires |v| == 10
    requires Small(v[0]) && Small(v[1]) && Small(v[2]) && Small(v[3]) && Small(v[4])
    requires Small(v[5]) && Small(v[6]) && Small(v[7]) && Small(v[8]) && Small(v[9])
    ensures forall i :: 0 <= i < 10 ==> Small(v[i])
  {
  }

  lemma ValuesMakeReply(reply: EchoReply, flags: Flags, payload: seq<u8>)
    ensures ReplyValues(FieldValues(reply))
    ensures ReplyOf(flags, FieldValues(reply), payload) == reply.(flags := flags, payload := payload)
  {
    TenSmall(FieldValues(reply));
  }

  /** Every value is where its slot says it is, and fits it. */
  predicate Fits(slots: seq<Slot>, values: seq<Option<nat>>) {
    && |slots| == |values|
    && forall i :: 0 <= i < |slots| ==> SlotFits(slots[i], values[i])
  }

  lemma Split(field: seq<u8>, rest: seq<u8>, suffix: seq<u8>)
    ensures (field + rest + suffix)[..|field|] == field
    ensures (field + rest + suffix)[|field|..] == rest + suffix
  {
  }

  lemma {:induction false} FieldsRoundTrip(slots: seq<Slot>, values: seq<Option<nat>>, suffix: seq<u8>)
    requires Fits(slots, values)
    ensures PushFields(slots, values).Ok?
    ensures var bytes := PushFields(slots, values).value;
            |bytes| == SlotsSize(slots) && ReadFields(slots, bytes + suffix) == values
  {
    if slots != [] {
      FieldsRoundTrip(slots[1..], values[1..], suffix);
      var rest := PushFields(slots[1..], values[1..]).value;
      if slots[0].present {
        var field := ToLe(values[0].value, slots[0].width);
        LeRoundTrip(values[0].value, slots[0].width);
        Split(field, rest, suffix);
      } else {
        assert [] + rest == rest;
      }
    }
  }

  /** Fields that do not match their slots are refused. */
  lemma {:induction false} FieldsRefused(slots: seq<Slot>, values: seq<Option<nat>>)
    requires |slots| == |values|
    ensures PushFields(slots, values).Ok?
       <==> forall i :: 0 <= i < |slots| ==> (values[i].Some? <==> slots[i].present)
  {
    if slots != [] {
      FieldsRefused(slots[1..], values[1..]);
      forall i | 0 <= i < |slots| - 1
        ensures slots[1..][i] == slots[i + 1] && values[1..][i] == values[i + 1]
      {
      }
      if PushFields(slots, values).Ok? {
        forall i | 0 <= i < |slots| ensures values[i].Some? <==> slots[i].present {
          if i > 0 {
            assert values[1..][i - 1].Some? <==> slots[1..][i - 1].present;
          }
        }
      }
    }
  }

  // ---------- encoding ----------

  function EncodeEchoReply(mac: Mac, reply: EchoReply, p: Params, key: Option<Key>): Result<seq<u8>, ProtoError> {
    var layout := Echo(key.Some?, p);
    var room := EchoPacketLen(key.Some?, p) - layout.HeaderLen();
    if |reply.payload| > room then Err(PayloadTooLarge(room, |reply.payload|))
    else SealFields(mac, reply.flags, layout.Slots(), FieldValues(reply), Padded(reply.payload, room), key)
  }

  /** The payload, zero-filled to `room`. */
  function Padded(payload: seq<u8>, room: nat): seq<u8>
    requires |payload| <= room
  {
    payload + Zeros(room - |payload|)
  }

  function SealFields(mac: Mac, flags: Flags, slots: seq<Slot>, values: seq<Option<nat>>,
                      payload: seq<u8>, key: Option<Key>): Result<seq<u8>, ProtoError>
    requires |slots| == |values|
  {
    var head :- BeginChecked(flags, key, RULES);
    var fields :- PushFields(slots, values);
    Finish(mac, key, head + (fields + payload))
  }

  // ---------- decoding ----------

  predicate MidpointSingleClock(p: Params) {
    p.stampAt.AtMidpoint? && (p.clock.Wall? || p.clock.Monotonic?)
  }

  /** Whether the packet has the longer two-midpoint form (`true`) or the negotiated one. */
  function ValidateEchoLength(size: nat, p: Params, layout: EchoLayout): Result<bool, ProtoError> {
    if size < layout.HeaderLen() then Err(PacketTooShort(layout.HeaderLen(), size))
    else
      var expected := EchoPacketLen(layout.hmac, p);
      var compat := Max(layout.HeaderLen() + TIMESTAMP_SIZE, expected);
      if size == expected then Ok(false)
      else if MidpointSingleClock(p) && compat > expected && size == compat then Ok(true)
      else Err(PacketLengthMismatch(expected, size))
  }

  function DecodeEchoReply(mac: Mac, packet: seq<u8>, p: Params, key: Option<Key>): Result<EchoReply, ProtoError> {
    var envelope :- DecodeEnvelope(packet, key, RULES);
    var layout := Echo(key.Some?, p);
    var compat :- ValidateEchoLength(|packet|, p, layout);
    var _ :- Verify(mac, key, packet);
    if compat then
      var reply := ReadReply(packet, envelope, layout.(midpointWall := true, midpointMono := true));
      Ok(reply.(timestamps := KeepNegotiated(reply.timestamps, p.clock)))
    else Ok(ReadReply(packet, envelope, layout))
  }

  /** Reads the fields of `layout`, then the payload. */
  function ReadReply(packet: seq<u8>, envelope: Structure, layout: EchoLayout): EchoReply
    requires envelope.bodyOffset == layout.BodyOffset()
    requires |packet| >= layout.HeaderLen()
  {
    HeaderIsSlots(layout);
    var values := ReadFields(layout.Slots(), packet[envelope.bodyOffset..]);
    FieldsAreReplies(layout, values);
    ReplyOf(envelope.flags, values, packet[layout.HeaderLen()..])
  }

  /** Of two reported midpoints, only the negotiated clock's is exposed. */
  function KeepNegotiated(t: TimestampFields, clock: Clock): TimestampFields {
    if clock.Wall? then t.(midpointMono := None) else t.(midpointWall := None)
  }

  // ---------- what the codec promises ----------

  /** A reply carries exactly the fields its negotiated layout has. */
  predicate Matches(reply: EchoReply, layout: EchoLayout) {
    forall i :: 0 <= i < 10 ==> (FieldValues(reply)[i].Some? <==> layout.Slots()[i].present)
  }

  /** When a reply encodes. */
  predicate Encodable(reply: EchoReply, p: Params, authenticated: bool) {
    && Matches(reply, Echo(authenticated, p))
    && reply.flags.reserved == 0 && !reply.flags.open && reply.flags.reply
    && |reply.payload| + Echo(authenticated, p).HeaderLen()
       <= Max(Echo(authenticated, p).HeaderLen(), p.length)
  }

  lemma MatchesFits(reply: EchoReply, layout: EchoLayout)
    requires Matches(reply, layout)
    ensures Fits(layout.Slots(), FieldValues(reply))
  {
    WidthsFit();
    var s, v := layout.Slots(), FieldValues(reply);
    forall i | 0 <= i < 10 ensures SlotFits(s[i], v[i]) {
      assert i == 0 || i == 1 || i == 2 || i == 3 || i == 4 || i == 5 || i == 6 || i == 7 || i == 8 || i == 9;
    }
  }

  /** A reply encodes exactly when its flags, fields and payload fit what was negotiated, and
      then to exactly the negotiated number of bytes. */
  lemma EncodesExactly(mac: Mac, reply: EchoReply, p: Params, key: Option<Key>)
    ensures EncodeEchoReply(mac, reply, p, key).Ok? <==> Encodable(reply, p, key.Some?)
    ensures Encodable(reply, p, key.Some?) ==>
              EchoPacketLen(key.Some?, p) == |EncodeEchoReply(mac, reply, p, key).value|
  {
    var layout := Echo(key.Some?, p);
    TwoRules(reply.flags.(hmac := key.Some?), Reject(Open), Require(Reply));
    FieldsRefused(layout.Slots(), FieldValues(reply));
    if Encodable(reply, p, key.Some?) {
      Sealed(mac, reply, p, key);
    }
  }

  /** The parts of an encoded reply. */
  lemma Sealed(mac: Mac, reply: EchoReply, p: Params, key: Option<Key>)
    requires Encodable(reply, p, key.Some?)
    ensures EncodeEchoReply(mac, reply, p, key).Ok?
    ensures var packet := EncodeEchoReply(mac, reply, p, key).value;
            var layout := Echo(key.Some?, p);
            && |packet| == EchoPacketLen(key.Some?, p)
            && layout.BodyOffset() + SlotsSize(layout.Slots()) == layout.HeaderLen()
            && ReadFields(layout.Slots(), packet[layout.BodyOffset()..]) == FieldValues(reply)
            && packet[layout.HeaderLen()..] == Padded(reply.payload, |packet| - layout.HeaderLen())
            && Verify(mac, key, packet) == Ok(())
            && DecodeEnvelope(packet, key, RULES)
               == Ok(Structure(reply.flags.(hmac := key.Some?), key.Some?, layout.BodyOffset()))
  {
    hide SealFields, PushFields, ReadFields, FieldValues, SlotsSize, Verify, DecodeEnvelope, Matches, EchoLayout.Slots;
    SealedLayout(mac, reply, Echo(key.Some?, p), EchoPacketLen(key.Some?, p) - Echo(key.Some?, p).HeaderLen(), key);
  }

  lemma SealedLayout(mac: Mac, reply: EchoReply, layout: EchoLayout, room: nat, key: Option<Key>)
    requires Matches(reply, layout) && layout.hmac == key.Some? && |reply.payload| <= room
    requires reply.flags.reserved == 0 && !reply.flags.open && reply.flags.reply
    ensures layout.BodyOffset() + SlotsSize(layout.Slots()) == layout.HeaderLen()
    ensures var sealed := SealFields(mac, reply.flags, layout.Slots(), FieldValues(reply), Padded(reply.payload, room), key);
            && sealed.Ok?
            && var packet := sealed.value;
            && |packet| == layout.HeaderLen() + room
            && ReadFields(layout.Slots(), packet[layout.BodyOffset()..]) == FieldValues(reply)
            && packet[layout.HeaderLen()..] == Padded(reply.payload, room)
            && Verify(mac, key, packet) == Ok(())
            && DecodeEnvelope(packet, key, RULES)
               == Ok(Structure(reply.flags.(hmac := key.Some?), key.Some?, layout.BodyOffset()))
  {
    hide PushFields, ReadFields, FieldValues, Fits, Matches, Verify, DecodeEnvelope, SealFields, SlotsSize,
      EchoLayout.Slots;
    MatchesFits(reply, layout);
    HeaderIsSlots(layout);
    TwoRules(reply.flags.(hmac := key.Some?), Reject(Open), Require(Reply));
    SealedFields(mac, reply.flags, layout.Slots(), FieldValues(reply), Padded(reply.payload, room), key);
  }

  lemma SealedFields(mac: Mac, flags: Flags, slots: seq<Slot>, values: seq<Option<nat>>,
                     payload: seq<u8>, key: Option<Key>)
    requires Fits(slots, values) && BeginChecked(flags, key, RULES).Ok?
    ensures SealFields(mac, flags, slots, values, payload, key).Ok?
    ensures var packet := SealFields(mac, flags, slots, values, payload, key).value;
            var offset := BodyOffset(key.Some?);
            && |packet| == offset + SlotsSize(slots) + |payload|
            && ReadFields(slots, packet[offset..]) == values
            && packet[offset + SlotsSize(slots)..] == payload
            && Verify(mac, key, packet) == Ok(())
            && DecodeEnvelope(packet, key, RULES)
               == Ok(Structure(flags.(hmac := key.Some?), key.Some?, offset))
  {
    FieldsRoundTrip(slots, values, payload);
    var fields := PushFields(slots, values).value;
    HeaderRoundTrip(mac, key, flags, RULES, fields + payload);
    var packet := SealFields(mac, flags, slots, values, payload, key).value;
    var offset := BodyOffset(key.Some?);
    assert packet[offset..] == fields + payload;
    assert packet[offset + |fields|..] == packet[offset..][|fields|..] == payload;
  }

  /** What a client reads back: the key's authentication flag and the payload zero-filled to
      the negotiated length. */
  function Received(reply: EchoReply, p: Params, authenticated: bool): EchoReply
    requires Encodable(reply, p, authenticated)
  {
    var room := Max(Echo(authenticated, p).HeaderLen(), p.length) - Echo(authenticated, p).HeaderLen();
    reply.(flags := reply.flags.(hmac := authenticated),
           payload := Padded(reply.payload, room))
  }

  lemma FieldsFit(reply: EchoReply, p: Params, authenticated: bool)
    requires Encodable(reply, p, authenticated)
    ensures |reply.payload| + Echo(authenticated, p).HeaderLen() <= EchoPacketLen(authenticated, p)
  {
  }

  /** A reply decoded under the parameters it was encoded with is the reply that was sent, its
      payload zero-filled, and is never taken for the two-midpoint form. */
  lemma EchoRoundTrip(mac: Mac, reply: EchoReply, p: Params, key: Option<Key>)
    requires Encodable(reply, p, key.Some?)
    ensures EncodeEchoReply(mac, reply, p, key).Ok?
    ensures var packet := EncodeEchoReply(mac, reply, p, key).value;
            && ValidateEchoLength(|packet|, p, Echo(key.Some?, p)) == Ok(false)
            && DecodeEchoReply(mac, packet, p, key) == Ok(Received(reply, p, key.Some?))
  {
    hide EncodeEchoReply, Encodable, FieldValues, ReadFields, ReplyValues, ReplyOf, Verify, DecodeEnvelope, SlotsSize,
      EchoLayout.Slots;
    Sealed(mac, reply, p, key);
    FieldsFit(reply, p, key.Some?);
    var layout := Echo(key.Some?, p);
    var packet := EncodeEchoReply(mac, reply, p, key).value;
    ValuesMakeReply(reply, reply.flags.(hmac := key.Some?), packet[layout.HeaderLen()..]);
  }

  /** The two-midpoint form is recognised exactly when one clock was negotiated for a midpoint,
      the longer field block outgrows the negotiated length, and the packet has its length. */
  lemma CompatExactly(size: nat, p: Params, authenticated: bool)
    ensures var header := Echo(authenticated, p).HeaderLen();
            ValidateEchoLength(size, p, Echo(authenticated, p)) == Ok(true)
            <==> MidpointSingleClock(p) && p.length < header + TIMESTAMP_SIZE && size == header + TIMESTAMP_SIZE
  {
  }

  /** The layout of both midpoints is the single-clock one with the missing midpoint added. */
  lemma TwoMidpointLayout(p: Params, both: Params, authenticated: bool)
    requires MidpointSingleClock(p) && both == p.(clock := WallAndMonotonic)
    ensures Echo(authenticated, both) == Echo(authenticated, p).(midpointWall := true, midpointMono := true)
    ensures Echo(authenticated, both).HeaderLen() == Echo(authenticated, p).HeaderLen() + TIMESTAMP_SIZE
  {
  }

  /** A peer that reports both midpoints for a single-clock negotiation, in a packet too long
      for the negotiated form, is understood: the negotiated clock's midpoint is kept. */
  lemma TwoMidpointsUnderstood(mac: Mac, reply: EchoReply, p: Params, both: Params, key: Option<Key>)
    requires MidpointSingleClock(p) && both == p.(clock := WallAndMonotonic)
    requires p.length < Echo(key.Some?, both).HeaderLen()
    requires Encodable(reply, both, key.Some?)
    ensures EncodeEchoReply(mac, reply, both, key).Ok?
    ensures DecodeEchoReply(mac, EncodeEchoReply(mac, reply, both, key).value, p, key)
         == Ok(Received(reply, both, key.Some?).(timestamps := KeepNegotiated(reply.timestamps, p.clock)))
  {
    hide EncodeEchoReply, Encodable, FieldValues, ReadFields, ReplyValues, ReplyOf, Verify, DecodeEnvelope, SlotsSize,
      EchoLayout.Slots, Echo, ValidateEchoLength;
    Sealed(mac, reply, both, key);
    FieldsFit(reply, both, key.Some?);
    var packet := EncodeEchoReply(mac, reply, both, key).value;
    TwoMidpointLayout(p, both, key.Some?);
    CompatExactly(|packet|, p, key.Some?);
    ValuesMakeReply(reply, reply.flags.(hmac := key.Some?), packet[Echo(key.Some?, both).HeaderLen()..]);
  }
}
