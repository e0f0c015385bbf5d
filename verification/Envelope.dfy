/** Packet headers, flags and authentication (crates/irtt-proto/src/envelope.rs, hmac.rs, flags.rs). */
module Envelope {
  import opened Prelude
  import opened ProtoErrors
  import opened Layout

  const MAGIC: seq<u8> := [0x14, 0xA7, 0x5B]

  /** A keyed digest. Nothing is assumed of it but its size. */
  type Digest = d: seq<u8> | |d| == HMAC_SIZE witness Zeros(HMAC_SIZE)
  type Mac = (seq<u8>, seq<u8>) -> Digest
  type Key = seq<u8>

  type Nibble = x: int | 0 <= x < 0x10

  /** A flags byte, bit by bit: 0x01, 0x02, 0x04, 0x08 and the four reserved bits. */
  datatype Flags = Flags(open: bool, reply: bool, close: bool, hmac: bool, reserved: Nibble) {
    predicate Has(flag: Flag) {
      match flag case Open => open case Reply => reply case Close => close case Hmac => hmac
    }

    function Byte(): u8 {
      (if open then 1 else 0) + (if reply then 2 else 0) + (if close then 4 else 0)
      + (if hmac then 8 else 0) + 16 * reserved
    }
  }

  function FlagsOf(b: u8): Flags {
    Flags(b % 2 == 1, b / 2 % 2 == 1, b / 4 % 2 == 1, b / 8 % 2 == 1, b / 16)
  }

  lemma FlagsRoundTrip(flags: Flags)
    ensures FlagsOf(flags.Byte()) == flags
  {
    var o, r, c, h := if flags.open then 1 else 0, if flags.reply then 1 else 0,
                      if flags.close then 1 else 0, if flags.hmac then 1 else 0;
    var b := flags.Byte();
    assert b == o + 2 * (r + 2 * (c + 2 * (h + 2 * flags.reserved)));
    assert b / 2 == r + 2 * (c + 2 * (h + 2 * flags.reserved));
    assert b / 4 == c + 2 * (h + 2 * flags.reserved);
    assert b / 8 == h + 2 * flags.reserved;
    assert b / 16 == flags.reserved;
  }

  datatype FlagRule = Require(flag: Flag) | Reject(flag: Flag)

  function RequireFlags(flags: Flags, rules: seq<FlagRule>): Result<(), ProtoError> {
    if rules == [] then Ok(())
    else match rules[0]
      case Require(flag) =>
        if flags.Has(flag) then RequireFlags(flags, rules[1..]) else Err(MissingFlag(flag))
      case Reject(flag) =>
        if flags.Has(flag) then Err(UnexpectedFlag(flag)) else RequireFlags(flags, rules[1..])
  }

  /** What a two-rule codec demands of its flags. */
  lemma TwoRules(flags: Flags, first: FlagRule, second: FlagRule)
    ensures RequireFlags(flags, [first, second]).Ok?
       <==> flags.Has(first.flag) == first.Require? && flags.Has(second.flag) == second.Require?
  {
    var last := [second];
    assert [first, second][1..] == last;
    assert last[1..] == [];
    assert RequireFlags(flags, last).Ok? <==> flags.Has(second.flag) == second.Require?;
  }

  function ValidateFlags(flags: Flags): Result<(), ProtoError> {
    if flags.reserved != 0 then Err(ReservedFlags(flags.reserved)) else Ok(())
  }

  // ---------- authentication ----------

  /** The digest covers the packet with its authentication field zeroed. */
  function ComputeHmac(mac: Mac, key: Key, packet: seq<u8>): Digest
    requires |packet| >= HEADER_SIZE + HMAC_SIZE
  {
    mac(key, packet[..HEADER_SIZE] + Zeros(HMAC_SIZE) + packet[HEADER_SIZE + HMAC_SIZE..])
  }

  function Finish(mac: Mac, key: Option<Key>, packet: seq<u8>): Result<seq<u8>, ProtoError> {
    match key
    case None => Ok(packet)
    case Some(k) =>
      if |packet| < HEADER_SIZE + HMAC_SIZE then Err(InvalidHmacOffset)
      else Ok(packet[..HEADER_SIZE] + ComputeHmac(mac, k, packet) + packet[HEADER_SIZE + HMAC_SIZE..])
  }

  function Verify(mac: Mac, key: Option<Key>, packet: seq<u8>): Result<(), ProtoError> {
    match key
    case None => Ok(())
    case Some(k) =>
      if |packet| < HEADER_SIZE + HMAC_SIZE then Err(InvalidHmacOffset)
      else if ComputeHmac(mac, k, packet) == packet[HEADER_SIZE..HEADER_SIZE + HMAC_SIZE] then Ok(())
      else Err(BadHmac)
  }

  // ---------- headers ----------

  function BodyOffset(authenticated: bool): nat {
    HEADER_SIZE + if authenticated then HMAC_SIZE else 0
  }

  /** A packet's first bytes, from flags that must obey the codec's rules. The key alone
      decides the authentication flag. */
  function BeginChecked(flags: Flags, key: Option<Key>, rules: seq<FlagRule>): (r: Result<seq<u8>, ProtoError>)
    ensures r.Ok? ==> |r.value| == BodyOffset(key.Some?)
  {
    var flags := flags.(hmac := key.Some?);
    var _ :- ValidateFlags(flags);
    var _ :- RequireFlags(flags, rules);
    Ok(MAGIC + [flags.Byte()] + if key.Some? then Zeros(HMAC_SIZE) else [])
  }

  datatype Structure = Structure(flags: Flags, hmacPresent: bool, bodyOffset: nat)

  function DecodeStructural(packet: seq<u8>): (r: Result<Structure, ProtoError>)
    ensures r.Ok? ==> r.value.bodyOffset == BodyOffset(r.value.hmacPresent)
  {
    if |packet| < HEADER_SIZE then Err(PacketTooShort(HEADER_SIZE, |packet|))
    else if packet[..3] != MAGIC then Err(BadMagic)
    else
      var flags := FlagsOf(packet[3]);
      var _ :- ValidateFlags(flags);
      Ok(Structure(flags, flags.hmac, BodyOffset(flags.hmac)))
  }

  function DecodeEnvelope(packet: seq<u8>, key: Option<Key>, rules: seq<FlagRule>): Result<Structure, ProtoError> {
    var structure :- DecodeStructural(packet);
    var _ :- RequireFlags(structure.flags, rules);
    if structure.hmacPresent != key.Some? then Err(HmacPresenceMismatch) else Ok(structure)
  }

  /** Sealing keeps every byte outside the authentication field, and what it seals verifies. */
  lemma SealVerifies(mac: Mac, key: Option<Key>, packet: seq<u8>)
    requires |packet| >= BodyOffset(key.Some?)
    ensures Finish(mac, key, packet).Ok?
    ensures var sealed := Finish(mac, key, packet).value;
            && |sealed| == |packet|
            && sealed[..HEADER_SIZE] == packet[..HEADER_SIZE]
            && sealed[BodyOffset(key.Some?)..] == packet[BodyOffset(key.Some?)..]
            && Verify(mac, key, sealed) == Ok(())
  {
    if key.Some? {
      var digest := ComputeHmac(mac, key.value, packet);
      var sealed := Finish(mac, key, packet).value;
      assert sealed[..HEADER_SIZE] == packet[..HEADER_SIZE];
      assert sealed[HEADER_SIZE..HEADER_SIZE + HMAC_SIZE] == digest;
      assert sealed[HEADER_SIZE + HMAC_SIZE..] == packet[HEADER_SIZE + HMAC_SIZE..];
    }
  }

  /** What a codec writes after a checked header, its reader finds there, sealed. */
  lemma HeaderRoundTrip(mac: Mac, key: Option<Key>, flags: Flags, rules: seq<FlagRule>, body: seq<u8>)
    requires BeginChecked(flags, key, rules).Ok?
    ensures var packet := BeginChecked(flags, key, rules).value + body;
            && Finish(mac, key, packet).Ok?
            && var sealed := Finish(mac, key, packet).value;
            && |sealed| == |packet|
            && sealed[BodyOffset(key.Some?)..] == body
            && Verify(mac, key, sealed) == Ok(())
            && DecodeStructural(sealed)
               == Ok(Structure(flags.(hmac := key.Some?), key.Some?, BodyOffset(key.Some?)))
            && DecodeEnvelope(sealed, key, rules) == DecodeStructural(sealed)
  {
    var packet := BeginChecked(flags, key, rules).value + body;
    SealVerifies(mac, key, packet);
    FlagsRoundTrip(flags.(hmac := key.Some?));
    var sealed := Finish(mac, key, packet).value;
    assert packet[BodyOffset(key.Some?)..] == body;
    assert sealed[..3] == sealed[..HEADER_SIZE][..3] == packet[..3] == MAGIC;
    assert sealed[3] == sealed[..HEADER_SIZE][3] == packet[3];
  }
}
