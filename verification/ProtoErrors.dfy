/** The wire errors that change a decision somewhere (crates/irtt-proto/src/error.rs). */
module ProtoErrors {
  import opened Prelude

  datatype Flag = Open | Reply | Close | Hmac

  datatype ProtoError =
    | PacketTooShort(needed: nat, actual: nat)
    | PacketLengthMismatch(expected: nat, actual: nat)
    | BadMagic
    | ReservedFlags(bits: nat)
    | MissingFlag(flag: Flag)
    | UnexpectedFlag(flag: Flag)
    | HmacPresenceMismatch
    | BadHmac
    | InvalidHmacOffset
    | TruncatedVarint
    | VarintOverflow
    | InvalidUtf8
    | InvalidEnum(name: string, value: i64)
    | ParameterLengthTooLarge(tag: nat, bytes: nat)
    | ZeroToken
    | MalformedParams
    | PayloadTooLarge(available: nat, provided: nat)
    | MissingField(name: string)
    | UnexpectedField(name: string)
}
