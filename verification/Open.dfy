/** Open replies (crates/irtt-proto/src/open.rs). */
module Open {
  import opened Prelude
  import opened ProtoErrors
  import opened Params
  import opened Layout
  import opened Envelope

  datatype OpenReply = OpenReply(flags: Flags, token: u64, params: Params)

  const RULES: seq<FlagRule> := [Require(Open), Require(Reply)]

  function EncodeOpenReply(mac: Mac, reply: OpenReply, key: Option<Key>): Result<seq<u8>, ProtoError> {
    var head :- BeginChecked(reply.flags, key, RULES);
    if reply.token == 0 && !reply.flags.close then Err(ZeroToken)
    else Finish(mac, key, head + (ToLe(reply.token, TOKEN_SIZE) + Encoded(reply.params)))
  }

  function DecodeOpenReply(mac: Mac, packet: seq<u8>, key: Option<Key>): Result<OpenReply, ProtoError> {
    var envelope :- DecodeEnvelope(packet, key, RULES);
    var _ :- Verify(mac, key, packet);
    var pos := envelope.bodyOffset;
    if |packet| < pos + TOKEN_SIZE then Err(PacketTooShort(pos + TOKEN_SIZE, |packet|))
    else
      var token := ReadToken(packet, pos);
      if token == 0 && !envelope.flags.close then Err(ZeroToken)
      else
        var params :- Decode(packet[pos + TOKEN_SIZE..]);
        Ok(OpenReply(envelope.flags, token, params))
  }

  function ReadToken(packet: seq<u8>, pos: nat): u64
    requires |packet| >= pos + TOKEN_SIZE
  {
    FromLeBound(packet[pos..pos + TOKEN_SIZE]);
    WidthsFit();
    FromLe(packet[pos..pos + TOKEN_SIZE])
  }

  /** When an open reply may be sent. */
  predicate Sendable(reply: OpenReply) {
    && reply.flags.open && reply.flags.reply && reply.flags.reserved == 0
    && (reply.token != 0 || reply.flags.close)
  }

  lemma TokenReads(token: u64, packet: seq<u8>, pos: nat, rest: seq<u8>)
    requires pos <= |packet| && packet[pos..] == ToLe(token, TOKEN_SIZE) + rest
    ensures |packet| >= pos + TOKEN_SIZE && ReadToken(packet, pos) == token
    ensures packet[pos + TOKEN_SIZE..] == rest
  {
    assert packet[pos..pos + TOKEN_SIZE] == packet[pos..][..TOKEN_SIZE] == ToLe(token, TOKEN_SIZE);
    assert packet[pos + TOKEN_SIZE..] == packet[pos..][TOKEN_SIZE..];
    WidthsFit();
    LeRoundTrip(token, TOKEN_SIZE);
  }

  /** An open reply encodes exactly when it may be sent, and its reader gets back the same
      token, the same parameters and the key's authentication flag. */
  lemma OpenReplyRoundTrip(mac: Mac, reply: OpenReply, key: Option<Key>)
    ensures EncodeOpenReply(mac, reply, key).Ok? <==> Sendable(reply)
    ensures Sendable(reply) && FillOk(reply.params.serverFill) ==>
              DecodeOpenReply(mac, EncodeOpenReply(mac, reply, key).value, key)
              == Ok(reply.(flags := reply.flags.(hmac := key.Some?)))
  {
    TwoRules(reply.flags.(hmac := key.Some?), Require(Flag.Open), Require(Flag.Reply));
    if Sendable(reply) {
      var body := ToLe(reply.token, TOKEN_SIZE) + Encoded(reply.params);
      HeaderRoundTrip(mac, key, reply.flags, RULES, body);
      if FillOk(reply.params.serverFill) {
        var packet := EncodeOpenReply(mac, reply, key).value;
        TokenReads(reply.token, packet, BodyOffset(key.Some?), Encoded(reply.params));
        ParamsRoundTrip(reply.params);
      }
    }
  }
}
