/** Requests: the client's encoder and the server's structural decoder (crates/irtt-proto/src/request.rs). */
module Request {
  import opened Prelude
  import opened ProtoErrors
  import opened Params
  import opened Layout
  import opened Envelope
  import O = Open

  datatype RequestToEncode =
    | OpenTo(params: Params, noTest: bool)
    | CloseTo(token: u64)
    | EchoTo(token: u64, sequence: u32, negotiated: Params, payload: seq<u8>)

  datatype RequestKind =
    | OpenRequest(noTest: bool, params: seq<u8>)
    | CloseRequest(token: u64)
    | EchoRequest(token: u64, sequence: u32, tail: seq<u8>)

  datatype DecodedRequest = DecodedRequest(hmacPresent: bool, kind: RequestKind)

  const NO_FLAGS := Flags(false, false, false, false, 0)

  /** The flags and the bytes after the header of a request. */
  function RequestBody(request: RequestToEncode, authenticated: bool): Result<(Flags, seq<u8>), ProtoError> {
    match request
    case OpenTo(params, noTest) => Ok((NO_FLAGS.(open := true, close := noTest), Encoded(params)))
    case CloseTo(token) => Ok((NO_FLAGS.(close := true), ToLe(token, TOKEN_SIZE)))
    case EchoTo(token, sequence, negotiated, payload) =>
      var header := Echo(authenticated, negotiated).HeaderLen();
      var len := EchoPacketLen(authenticated, negotiated);
      if |payload| > len - header then Err(PayloadTooLarge(len - header, |payload|))
      else
        Ok((NO_FLAGS, ToLe(token, TOKEN_SIZE)
                      + (ToLe(sequence, SEQ_SIZE) + EchoTail(negotiated, payload, authenticated))))
  }

  /** What follows the sequence number: the reply fields' places and the spare length zeroed,
      the payload at the negotiated payload offset. */
  function EchoTail(negotiated: Params, payload: seq<u8>, authenticated: bool): seq<u8>
    requires |payload| + Echo(authenticated, negotiated).HeaderLen() <= EchoPacketLen(authenticated, negotiated)
  {
    var header, len := Echo(authenticated, negotiated).HeaderLen(), EchoPacketLen(authenticated, negotiated);
    var unfilled := header - BodyOffset(authenticated) - TOKEN_SIZE - SEQ_SIZE;
    Zeros(unfilled) + payload + Zeros(len - header - |payload|)
  }

  function EncodeRequest(mac: Mac, request: RequestToEncode, key: Option<Key>): Result<seq<u8>, ProtoError> {
    var (flags, body) :- RequestBody(request, key.Some?);
    var head :- BeginChecked(flags, key, []);
    Finish(mac, key, head + body)
  }

  function ReadSequence(packet: seq<u8>, pos: nat): u32
    requires |packet| >= pos + SEQ_SIZE
  {
    FromLeBound(packet[pos..pos + SEQ_SIZE]);
    WidthsFit();
    FromLe(packet[pos..pos + SEQ_SIZE])
  }

  function RequireLen(packet: seq<u8>, needed: nat): (r: Result<(), ProtoError>)
    ensures r.Ok? <==> |packet| >= needed
  {
    if |packet| < needed then Err(PacketTooShort(needed, |packet|)) else Ok(())
  }

  /** Open wins over Close, and Close over an echo-shaped body. */
  function DecodeRequest(packet: seq<u8>): Result<DecodedRequest, ProtoError> {
    var envelope :- DecodeStructural(packet);
    if envelope.flags.reply then Err(UnexpectedFlag(Reply))
    else
      var body := envelope.bodyOffset;
      var kind :-
        if envelope.flags.open then
          var _ :- RequireLen(packet, body);
          Ok(OpenRequest(envelope.flags.close, packet[body..]))
        else if envelope.flags.close then
          var _ :- RequireLen(packet, body + TOKEN_SIZE);
          Ok(CloseRequest(O.ReadToken(packet, body)))
        else
          var _ :- RequireLen(packet, body + TOKEN_SIZE + SEQ_SIZE);
          Ok(EchoRequest(O.ReadToken(packet, body), ReadSequence(packet, body + TOKEN_SIZE),
                         packet[body + TOKEN_SIZE + SEQ_SIZE..]));
      Ok(DecodedRequest(envelope.hmacPresent, kind))
  }

  /** Whether a decoded request says what was encoded: an echo's payload sits where the
      negotiated field block ends, and everything around it is zero. */
  predicate Says(kind: RequestKind, request: RequestToEncode, authenticated: bool) {
    match request
    case OpenTo(params, noTest) => kind == OpenRequest(noTest, Encoded(params))
    case CloseTo(token) => kind == CloseRequest(token)
    case EchoTo(token, sequence, negotiated, payload) =>
      var offset := Echo(authenticated, negotiated).HeaderLen() - BodyOffset(authenticated) - TOKEN_SIZE - SEQ_SIZE;
      && kind.EchoRequest? && kind.token == token && kind.sequence == sequence
      && |kind.tail| >= offset + |payload|
      && kind.tail[offset..offset + |payload|] == payload
      && forall i :: 0 <= i < |kind.tail| && !(offset <= i < offset + |payload|) ==> kind.tail[i] == 0
  }

  /** Every request the client can encode is classified by the server as what it is, and
      authenticates under the same key; an echo has exactly the negotiated length. */
  lemma RequestRoundTrip(mac: Mac, request: RequestToEncode, key: Option<Key>)
    ensures EncodeRequest(mac, request, key).Ok?
       <==> (request.EchoTo? ==>
               |request.payload| + Echo(key.Some?, request.negotiated).HeaderLen()
               <= EchoPacketLen(key.Some?, request.negotiated))
    ensures EncodeRequest(mac, request, key).Ok? ==>
              var packet := EncodeRequest(mac, request, key).value;
              && DecodeRequest(packet).Ok?
              && DecodeRequest(packet).value.hmacPresent == key.Some?
              && Says(DecodeRequest(packet).value.kind, request, key.Some?)
              && Verify(mac, key, packet) == Ok(())
              && (request.EchoTo? ==> |packet| == EchoPacketLen(key.Some?, request.negotiated))
  {
    if RequestBody(request, key.Some?).Ok? {
      var (flags, body) := RequestBody(request, key.Some?).value;
      assert BeginChecked(flags, key, []).Ok?;
      hide BeginChecked, Finish, Verify, DecodeStructural, DecodeEnvelope, Encoded, EchoTail, O.ReadToken, ReadSequence,
        ToLe;
      HeaderRoundTrip(mac, key, flags, [], body);
      var packet := EncodeRequest(mac, request, key).value;
      var offset := BodyOffset(key.Some?);
      match request {
        case OpenTo(_, _) =>
        case CloseTo(token) =>
          assert body == ToLe(token, TOKEN_SIZE) + [];
          O.TokenReads(token, packet, offset, []);
        case EchoTo(token, sequence, negotiated, payload) =>
          EchoReads(packet, offset, token, sequence, negotiated, payload, key.Some?);
          TailSays(token, sequence, negotiated, payload, key.Some?);
      }
    }
  }

  lemma EchoReads(packet: seq<u8>, offset: nat, token: u64, sequence: u32, negotiated: Params,
                  payload: seq<u8>, authenticated: bool)
    requires |payload| + Echo(authenticated, negotiated).HeaderLen() <= EchoPacketLen(authenticated, negotiated)
    requires offset <= |packet|
    requires packet[offset..]
          == ToLe(token, TOKEN_SIZE) + (ToLe(sequence, SEQ_SIZE) + EchoTail(negotiated, payload, authenticated))
    ensures |packet| >= offset + TOKEN_SIZE + SEQ_SIZE
    ensures O.ReadToken(packet, offset) == token
    ensures ReadSequence(packet, offset + TOKEN_SIZE) == sequence
    ensures packet[offset + TOKEN_SIZE + SEQ_SIZE..] == EchoTail(negotiated, payload, authenticated)
  {
    var tail := EchoTail(negotiated, payload, authenticated);
    O.TokenReads(token, packet, offset, ToLe(sequence, SEQ_SIZE) + tail);
    var rest := packet[offset + TOKEN_SIZE..];
    assert rest[..SEQ_SIZE] == ToLe(sequence, SEQ_SIZE);
    assert packet[offset + TOKEN_SIZE..offset + TOKEN_SIZE + SEQ_SIZE] == rest[..SEQ_SIZE];
    assert packet[offset + TOKEN_SIZE + SEQ_SIZE..] == rest[SEQ_SIZE..] == tail;
    WidthsFit();
    LeRoundTrip(sequence, SEQ_SIZE);
  }

  lemma TailSays(token: u64, sequence: u32, negotiated: Params, payload: seq<u8>, authenticated: bool)
    requires |payload| + Echo(authenticated, negotiated).HeaderLen() <= EchoPacketLen(authenticated, negotiated)
    ensures Says(EchoRequest(token, sequence, EchoTail(negotiated, payload, authenticated)),
                 EchoTo(token, sequence, negotiated, payload), authenticated)
  {
    var header, len := Echo(authenticated, negotiated).HeaderLen(), EchoPacketLen(authenticated, negotiated);
    ZerosAround(header - BodyOffset(authenticated) - TOKEN_SIZE - SEQ_SIZE, payload, len - header - |payload|);
  }

  lemma ZerosAround(before: nat, payload: seq<u8>, after: nat)
    ensures var tail := Zeros(before) + payload + Zeros(after);
            && tail[before..before + |payload|] == payload
            && forall i :: 0 <= i < |tail| && !(before <= i < before + |payload|) ==> tail[i] == 0
  {
    var tail := Zeros(before) + payload + Zeros(after);
    forall i | 0 <= i < |tail| && !(before <= i < before + |payload|) ensures tail[i] == 0 {
      if i >= before {
        assert tail[i] == Zeros(after)[i - before - |payload|];
      }
    }
  }
}
