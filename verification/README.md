# irtt-rs, verified

irtt-rs measures round trips over UDP. A client opens a session on a server, sends numbered echo
requests at a negotiated interval, and learns from the replies how long each trip took and what was
lost. The I/O is kept apart from deterministic engines, and those engines are what this project
models and proves: the codecs both ends share, the server's session table and policies, the client's
probe stores and session machine, its negotiation and send cadence, and the indexes behind the
rolling statistics.

Modules follow the program's files. Code the program writes as expressions is a function here, and
code that updates state in place is a method or a class: the server engine, the linked probe map and
its companions, the session machine, the send schedule, the rolling store and the delay-variation
tracker. Each class is proved to do, step by step, exactly what a function on its abstract value
says; properties of whole runs are then proved about those functions.

| layer | modules |
|---|---|
| codecs | `Prelude`, `ProtoErrors`, `Varint`, `Params`, `Layout`, `Envelope`, `Echo`, `Open`, `Request` |
| server | `ServerConfig`, `ReceiveWindow`, `RateLimit`, `Fill`, `Negotiate`, `Session`, `ServerCore`, `ServerInvariant`, `ServerRuns`, `ServedWindow` |
| both ends | `Agreement`, `Handshake`, `Cadence` |
| client | `ProbeOrder`, `Probe`, `SequenceOrder`, `ClientSteps`, `SessionMachine`, `ClientRuns`, `ClientNegotiation`, `Schedule` |
| statistics | `Ipdv`, `Directional`, `Rolling`, `RollingStore` |

What is taken from outside is a parameter: the keyed digest is any function from a key and bytes to
sixteen bytes; tokens are an unknown stream that may fail, repeat or return zero; random fill is an
unknown byte stream or a failure; whether memory for a probe can be had, and whether the socket takes
it, arrive with each send; clock samples arrive with each step. Runs are arbitrary finite
lists of steps. Server instants are non-negative and nondecreasing over a run, and so are the
client's pre-send instants; nothing else about time is assumed.

The results a reader should look at first:

- `ServerRuns.MaintenanceIsInvisible`, `ServerRuns.AdvertisedPaceIsServed`,
  `ServerRuns.AdvertisedPaceKeepsAlive`, `ServerRuns.MaximumDurationCloses` and
  `ServedWindow.ReplyReportsTheServed`: what any run of the server promises one session.
- `Handshake.OpensAreAnsweredExactly`: when an open succeeds, and that the client then accepts it.
- `Agreement.Conversation` and `Cadence.CadenceIsHonoured`: a client that opens and echoes with the
  parameters it was told is understood, and at the advertised cadence always answered until the
  close, whatever else the server is doing.
- `Probe.PendingMap` and `ProbeOrder.DrainsCompose`: the linked hash map is one sequence.
- `ClientRuns.PacketsSentAreAccountedFor`, `ClientRuns.EachProbeIsMeasuredOnce`,
  `ClientRuns.HighestIsTrue`: conservation, single measurement and order over any client run.
- `RateLimit.WindowBound`, `ReceiveWindow.WindowExactly`, `Schedule.SlotsStayOnTheGrid`,
  `Rolling.LiveIsTheWindow`, `Directional.DeltaExactly`, `Ipdv.EachPairOnce`.

Where a comment in the program and its code differ, the model follows the code. One place a reader
might trip over: a wrapping comparison of numbers exactly half the space apart puts neither after
the other (`SequenceOrder.HalfIsUnordered`), which is why the order results need less than half.

`dafny verify dfyconfig.toml` verifies everything.

## Model

| member | source | states |
|---|---|---|
| `Varint.EncodeUvarint` | crates/irtt-proto/src/varint.rs:19-25 | the loop appends to whatever is already in the buffer exactly the shortest base-128 form of the value |
| `Varint.DecodeUvarint` | crates/irtt-proto/src/varint.rs:27-44 | the loop returns what the decoding function says on every input, errors included, and stops within the input |
| `Varint.DecodedExactly` | crates/irtt-proto/src/varint.rs:27-44 | decoding succeeds exactly when the input begins with at most ten groups of which only the last has no continuation bit and whose value fits 64 bits, and returns that value and their number |
| `Varint.UvarintRoundTrip` | crates/irtt-proto/src/varint.rs:19-44 | decoding an encoded value followed by any bytes returns the value and exactly its own length, at most ten |
| `Varint.DecodeIsStable` | crates/irtt-proto/src/varint.rs:27-44 | any successful decode, canonical or not, is unaffected by later bytes, and its value re-encodes to a form no longer that decodes to the same value |
| `Varint.ZigzagBijection` | crates/irtt-proto/src/varint.rs:46-52 | zigzag is a bijection between the signed and unsigned 64-bit integers |
| `Varint.VarintRoundTrip` | crates/irtt-proto/src/varint.rs:54-61 | a signed value round-trips through its varint, whatever follows |
| `Params.Encode` | crates/irtt-proto/src/params.rs:72-97 | the pushes in tag order build exactly the specified payload, for any descriptor, whether or not a decoder would take it |
| `Params.DecodeWithPresence` | crates/irtt-proto/src/params.rs:129-197 | the tag loop terminates on every input, because each step consumes some, and returns what the field-by-field function says, every error included |
| `Params.DecodeHomomorphism` | crates/irtt-proto/src/params.rs:129-197 | two payloads that decode, concatenated, decode to the second's present fields over the first's, presence united: the last value of a repeated tag wins and unknown tags are skipped |
| `Params.DecodeIsWellFormed` | crates/irtt-proto/src/params.rs:129-197 | whatever decodes has a descriptor that is valid UTF-8 of at most 32 bytes |
| `Params.ParamsRoundTrip` | crates/irtt-proto/src/params.rs:72-197 | decoding an encoding returns the very parameters, for every set with a valid descriptor, and reports exactly the fields the encoding mentions |
| `Layout.HeaderIsSlots` | crates/irtt-proto/src/layout.rs:81-93 | the length of an echo reply's field block is the header, the authentication field and the widths of the slots that are present |
| `Envelope.FlagsRoundTrip` | crates/irtt-proto/src/flags.rs:10-20 | a flag byte is read back as the flags that made it, reserved bits included |
| `Envelope.TwoRules` | crates/irtt-proto/src/envelope.rs:106-122 | a codec's two rules hold exactly when each flag it requires is set and each it forbids is clear |
| `Envelope.SealVerifies` | crates/irtt-proto/src/envelope.rs:92-104 | sealing changes no byte outside the authentication field, and what it seals verifies under the same key |
| `Envelope.HeaderRoundTrip` | crates/irtt-proto/src/envelope.rs:40-90 | a packet begun under a codec's rules and sealed is read back with the same flags and body offset, and verifies |
| `Echo.FieldsRoundTrip` | crates/irtt-proto/src/echo.rs:249-306 | the tail's fields, written for a layout, are read back under that layout and leave the payload |
| `Echo.FieldsRefused` | crates/irtt-proto/src/echo.rs:249-288 | a field that is present where the layout has none, or missing where it has one, is refused |
| `Echo.EncodesExactly` | crates/irtt-proto/src/echo.rs:107-152 | a reply encodes exactly when its flags, fields and payload fit what was negotiated, and then to exactly the negotiated number of bytes |
| `Echo.EchoRoundTrip` | crates/irtt-proto/src/echo.rs:107-223 | decoding an encoded reply under the same parameters and key returns it, its payload zero-filled to the negotiated length, and never through the two-midpoint form |
| `Echo.CompatExactly` | crates/irtt-proto/src/echo.rs:21-41 | the two-midpoint form is recognised exactly when one clock was negotiated for a midpoint, the longer field block outgrows the negotiated length and the packet has that length |
| `Echo.TwoMidpointsUnderstood` | crates/irtt-proto/src/echo.rs:154-247 | a peer that sends both midpoints for a single-clock negotiation in a packet too long for the negotiated form is understood, keeping the negotiated clock's midpoint |
| `Open.OpenReplyRoundTrip` | crates/irtt-proto/src/open.rs:44-100 | an open reply encodes exactly when its flags, token and version allow it to be sent, and is read back with the same token, flags and parameters |
| `Request.RequestRoundTrip` | crates/irtt-proto/src/request.rs:111-282 | every open, close and echo request the client can encode is classified by the server as that request and authenticates under the same key; an echo has exactly the negotiated length |
| `ReceiveWindow.WindowExactly` | crates/irtt-server/src/session.rs:181-223 | after any list of accepted numbers the count is its length modulo 2^32, and bit k is set exactly when some request since the last jump of 64 or more lies at total forward distance k from the latest |
| `ReceiveWindow.SetBitWasAccepted` | crates/irtt-server/src/session.rs:181-223 | a set bit k always means that the number k before the latest was accepted since the last jump |
| `ReceiveWindow.StepBits` | crates/irtt-server/src/session.rs:196-223 | one request moves every bit by the forward wrapping distance and sets the lowest, or leaves only the lowest from distance 64 on |
| `RateLimit.ReplenishBounds` | crates/irtt-server/src/session.rs:321-351 | a refill never raises the credit plus elapsed time, never lowers the allowance, and never leaves more than one full burst to spend at that instant |
| `RateLimit.ChargeBounds` | crates/irtt-server/src/session.rs:301-319 | an allowed request spends one interval's worth; a limited one spends nothing |
| `RateLimit.WindowBound` | crates/irtt-server/src/session.rs:279-351 | over any run of requests at nondecreasing times, at most the burst plus one per whole refill interval are allowed in any closed window; with no burst, none |
| `RateLimit.PacedIsAllowed` | crates/irtt-server/src/session.rs:301-351 | a request a whole interval after the last one accounted for is always allowed, and leaves the state paced again |
| `Fill.NegotiateServerFill` | crates/irtt-server/src/fill.rs:181-198 | the rewriting in place returns the parameters and the fill mode the specification gives |
| `Fill.HexPatternAccepts` | crates/irtt-server/src/fill.rs:112-141 | a pattern body is accepted exactly when it is one or more whole pairs of hexadecimal digits of either case |
| `Fill.HexPairsSpell` | crates/irtt-server/src/fill.rs:112-141 | byte i of an accepted pattern is what digits 2i and 2i+1 spell |
| `Fill.DefaultDescriptorIsDefault` | crates/irtt-server/src/fill.rs:37-86 | the descriptor advertised for the default fill parses to exactly the default bytes |
| `Fill.FillIsHonest` | crates/irtt-server/src/fill.rs:181-198 | a descriptor the server honours, or none, is returned untouched; only one that names no fill is replaced, by one that parses to the fill actually used, so negotiating again changes nothing |
| `Fill.PatternRepeats` | crates/irtt-server/src/fill.rs:88-110 | a pattern's payload fills its region exactly, beginning with the pattern and repeating with its period |
| `Negotiate.NegotiateParams` | crates/irtt-server/src/negotiate.rs:79-140 | the field-by-field rewriting returns what the specification gives |
| `Negotiate.SettledIsIdempotent` | crates/irtt-server/src/negotiate.rs:79-151 | settling what was already settled changes nothing, parameters and fill, under any configuration |
| `Negotiate.IntervalBounds` | crates/irtt-server/src/negotiate.rs:101-117 | the negotiated interval is no slower than a quarter of a usable idle timeout, no faster than the request and the configured minimum unless that cap pulls it down, and positive whenever the request was |
| `Negotiate.DurationBounds` | crates/irtt-server/src/negotiate.rs:79-100 | under a configured maximum no negotiated test is longer than it or continuous, and a finite request never becomes continuous |
| `ServerCore.Engine.HandleDatagram` | crates/irtt-server/src/core.rs:187-287 | one datagram changes the session table and is answered exactly as the step function says: inauthentic ones change nothing, authentic ones sweep first |
| `ServerCore.Engine.Maintain` | crates/irtt-server/src/core.rs:289-308 | a maintenance call sweeps at its instant and does nothing else |
| `ServerCore.Engine.ReleaseExpired` | crates/irtt-server/src/core.rs:310-314 | the pass over the table leaves a token exactly when it was there and its session is not past the idle timeout, every kept session is unchanged, and the result is the sweep every other property speaks of |
| `ServerCore.Engine.HandleEcho` | crates/irtt-server/src/core.rs:387-487 | an echo is ignored, limited, refused on an encoding failure without any change, answered, or answered with a close that releases the session, each with the stated new state |
| `ServerCore.Engine.HandleOpen` | crates/irtt-server/src/core.rs:497-577 | an open inserts a session only when its parameters are admissible, there is room, a token was found and the reply encoded; a no-test open never does |
| `ServerCore.Engine.HandleClose` | crates/irtt-server/src/core.rs:579-587 | a close removes the session only for its own endpoint |
| `ServerCore.Engine.AllocateToken` | crates/irtt-server/src/core.rs:599-621 | the bounded loop draws exactly the tokens the recursion draws and returns its answer |
| `ServerInvariant.AllocateFinds` | crates/irtt-server/src/core.rs:599-621 | an allocated token is non-zero and names no live session, at most eight are drawn and the table is untouched |
| `ServerInvariant.AllocateExactly` | crates/irtt-server/src/core.rs:599-621 | the issued token is the first draw that is non-zero and unused; a source failure is reported when it happens, and exhaustion exactly when every attempt was unusable |
| `ServerInvariant.NewSessionOk` | crates/irtt-server/src/core.rs:497-577 | every session opened from decoded parameters satisfies the session invariant: admissible, settled, its fill the advertised one |
| `ServerInvariant.ReplyEncodes` | crates/irtt-server/src/core.rs:428-486 | for any session parameters the reply to an accepted echo encodes, to exactly the negotiated packet length |
| `ServerInvariant.ProcessKeeps` | crates/irtt-server/src/core.rs:229-287 | every step keeps tokens non-zero, the table within capacity and every session executable as advertised, and the only failures are the token source's |
| `ServerInvariant.OthersLeaveItAlone` | crates/irtt-server/src/core.rs:387-587 | whatever arrives that is not an echo or close for this token from its owner leaves the surviving session exactly as it was |
| `ServerRuns.RunsKeep` | crates/irtt-server/src/core.rs:187-314 | over every run from a good table the table stays good and no reply ever fails to encode |
| `ServerRuns.RunsFromTheStart` | crates/irtt-server/src/core.rs:93-111 | the empty table a server starts with is good, so the same holds of every run of it |
| `ServerRuns.MaintenanceIsInvisible` | crates/irtt-server/src/core.rs:259-314 | however maintenance sweeps are interleaved, every reply, token draw and capacity decision is the same as with none |
| `ServerRuns.RefillsAsAdvertised` | crates/irtt-server/src/session.rs:279-299 | a live session's refill interval is no longer than the interval it advertised |
| `ServerRuns.AdvertisedPaceIsServed` | crates/irtt-server/src/core.rs:397-486 | with a burst of at least one, a client whose admitted echoes are at least its negotiated interval apart is never rate-limited, whatever else arrives |
| `ServerRuns.AdvertisedPaceKeepsAlive` | crates/irtt-server/src/negotiate.rs:101-117 | with an idle timeout of at least 4 ns that fits 63 bits, a client whose gaps are at most its negotiated interval is never idle-expired, whatever else arrives, even when the idle cap undercuts the configured minimum |
| `ServerRuns.ReleasedIsSilent` | crates/irtt-server/src/core.rs:397-426 | a token not in the table gets no echo reply until it is issued again |
| `ServerRuns.ClosingIsDeadline` | crates/irtt-server/src/session.rs:422-436 | the saturated closing test is the comparison with first-served plus maximum plus two seconds |
| `ServerRuns.DurationStep` | crates/irtt-server/src/core.rs:397-486 | one step gives a token no reply and keeps its deadline's origin, or one reply whose close flag is the closing decision and which releases the session exactly when set |
| `ServerRuns.MaximumDurationCloses` | crates/irtt-server/src/core.rs:397-486 | over any run one session's replies are unflagged ones served before first-served plus maximum plus two seconds, then at most one flagged reply, not before that deadline, that releases the session; limited echoes start nothing; with no maximum none is flagged |
| `ServedWindow.ReceiveIsServed` | crates/irtt-server/src/core.rs:397-486 | after any run a session's receive state is that of exactly the sequences it was served, in order |
| `ServedWindow.ReplyReportsTheServed` | crates/irtt-server/src/core.rs:428-486 | the count and window a reply reports after any run are the number of echoes served, wrapping, and in bit k whether one of them since the last jump lies k before this one |
| `Agreement.OpenAgreement` | crates/irtt-server/src/core.rs:513-562 | every answered open decodes at the client; a no-test answer has token zero and opens nothing, any other names a session that did not exist, owned by the requester, holding exactly the parameters the client decoded, with its whole allowance, nothing received and its idle deadline counted from then |
| `Agreement.TermsAreFixed` | crates/irtt-server/src/session.rs:34-151 | a session's endpoint, parameters and fill never change while it lives, over any run |
| `Agreement.ReplyIsUnderstood` | crates/irtt-proto/src/echo.rs:154-223 | a client holding the session's parameters decodes the reply to the same token, sequence, counters, timestamps and zero-padded fill, from a packet of the negotiated length |
| `Agreement.Conversation` | crates/irtt-server/src/core.rs:229-287 | end to end: after an open and any run in which the session lives, an echo the client encodes from the parameters it was told is recognised and, if the allowance permits, answered with a packet the client decodes to what the server meant |
| `Cadence.CadenceIsHonoured` | crates/irtt-server/src/core.rs:229-287 | end to end: after an answered open, a client that echoes at the advertised interval with the terms it was told has every echo answered with a packet it understands, and only the maximum-duration close or its own close ends the session, whatever anyone else sends |
| `Cadence.CountedFromTheOpening` | crates/irtt-server/src/core.rs:428-486 | what any later reply reports counts exactly the echoes served since that opening |
| `Handshake.OpenRecognised` | crates/irtt-server/src/core.rs:229-287 | the server sees a valid client's open request as exactly that client's parameters, and finds them admissible to negotiate |
| `Handshake.OpensAreAnsweredExactly` | crates/irtt-server/src/core.rs:497-577 | a valid open is answered exactly when its settled parameters are admissible and, for a real test, there is room and a token is found; the answer decodes to the settled parameters, which a loose client always accepts and a strict one exactly when nothing changed |
| `ProbeOrder.RemovalMeans` | crates/irtt-client/src/probe.rs:132-164 | removal drops exactly the named probe, keeps every other and keeps deadlines sorted |
| `ProbeOrder.FindAndRemoveAt` | crates/irtt-client/src/probe.rs:132-164 | removing the probe at an index finds it and cuts out exactly that index |
| `ProbeOrder.DuePrefixIsLongest` | crates/irtt-client/src/probe.rs:166-192 | what a drain may take is the longest prefix whose deadlines have all passed |
| `ProbeOrder.DrainsCompose` | crates/irtt-client/src/probe.rs:166-192 | two bounded drains at one instant take what one drain of their summed limit takes, with the same answer to whether more is due |
| `ProbeOrder.DrainsRepeat` | crates/irtt-client/src/probe.rs:166-192 | any number of bounded drains at one instant leave what one drain of their summed limit leaves, and exactly once nothing more is due, what one unbounded drain leaves |
| `ProbeOrder.DrainTakesAllDue` | crates/irtt-client/src/probe.rs:166-192 | with sorted deadlines, an unbounded drain takes exactly the due probes and leaves exactly the rest |
| `ProbeOrder.FilteredMeans` | crates/irtt-client/src/probe.rs:336-342 | forgetting a completed number drops it and no other, and changes nothing if it was not there |
| `Probe.LinkLastSpells` | crates/irtt-client/src/probe.rs:98-130 | appending an entry and patching the old tail's link keeps the links spelling the order, with the new probe last |
| `Probe.UnlinkSpells` | crates/irtt-client/src/probe.rs:132-164 | patching the two neighbours around any removed entry leaves links that spell the order without it |
| `Probe.PendingMap.PreflightInsert` | crates/irtt-client/src/probe.rs:78-96 | refuses exactly a number already pending, a full map, or a map that cannot get memory for one more entry, in that order |
| `Probe.PendingMap.CommitInsert` | crates/irtt-client/src/probe.rs:98-130 | the map with links then represents the old order with the probe at its end |
| `Probe.PendingMap.Remove` | crates/irtt-client/src/probe.rs:132-164 | returns the named probe, if any, and the map then represents the order without it |
| `Probe.PendingMap.DrainExpiredBounded` | crates/irtt-client/src/probe.rs:166-192 | the loop removes and returns, in order, exactly the longest due prefix up to the limit, and says whether more was due |
| `Probe.PendingMap.AttachKernelTx` | crates/irtt-client/src/probe.rs:202-204 | a stamp changes only the named probe's stamp and leaves the links alone |
| `Probe.PendingMap.NextTimeoutDeadline` | crates/irtt-client/src/probe.rs:206-211 | the head's deadline, which is the smallest of all when they are sorted |
| `Probe.PendingMap.LatestTimeoutDeadline` | crates/irtt-client/src/probe.rs:213-217 | the tail's deadline, which is the largest of all when they are sorted |
| `Probe.PendingMap.IsEmpty` | crates/irtt-client/src/probe.rs:194-200 | answers whether the represented order is empty |
| `Probe.TimedOutMap.Insert` | crates/irtt-client/src/probe.rs:262-276 | retention keeps the newest probes up to its capacity, evicting the oldest |
| `Probe.CompletedSet.Insert` | crates/irtt-client/src/probe.rs:319-330 | the set keeps the newest numbers up to its capacity, each once, in order of insertion |
| `Probe.CompletedSet.Remove` | crates/irtt-client/src/probe.rs:336-342 | a removed number is gone from the set and the order, and the answer says whether it was there |
| `Probe.CompletedSet.EvictOldest` | crates/irtt-client/src/probe.rs:344-351 | pops until a member was popped, which is the oldest |
| `SequenceOrder.WrappingIsOrder` | crates/irtt-client/src/session/machine.rs:895-911 | between send indices less than 2^31 apart, the wrapping comparison of their wire numbers is the comparison of the indices (section 3.2 of RFC 1982) |
| `SequenceOrder.HalfIsUnordered` | crates/irtt-client/src/session/machine.rs:905-911 | at exactly 2^31 apart neither number is after the other |
| `SequenceOrder.LatestIndexMeans` | crates/irtt-client/src/session/machine.rs:386-415 | the index a live wire number stands for is the last send under that number, and exists exactly when there was one |
| `SequenceOrder.LatestIndexAdvances` | crates/irtt-client/src/session/machine.rs:386-415 | one more send gives its own number a new index and changes no other's |
| `ClientSteps.SendKeeps` | crates/irtt-client/src/session/machine.rs:325-415 | a whole send, refused, failed or accepted, keeps the stores disjoint and within capacity, deadlines sorted and the next number equal to packets sent modulo 2^32 |
| `ClientSteps.PollKeeps` | crates/irtt-client/src/session/machine.rs:488-510 | moving expired probes to retention keeps the same invariant |
| `ClientSteps.PollsAreOnePoll` | crates/irtt-client/src/session/machine.rs:479-510 | any number of bounded polls at one instant leave the session, and report the losses, of one poll of their summed limit; once nothing more is due, of one unbounded poll |
| `ClientSteps.ClassifyKeeps` | crates/irtt-client/src/session/machine.rs:670-825 | every way a reply can be classified keeps the same invariant |
| `ClientSteps.KernelTxKeeps` | crates/irtt-client/src/session/machine.rs:445-459 | recording a transmit timestamp keeps the same invariant |
| `ClientSteps.RetainKeepsLast` | crates/irtt-client/src/probe.rs:262-276 | retaining a batch one by one keeps the last capacity's worth of everything retained |
| `SessionMachine.SessionMachine.constructor` | crates/irtt-client/src/session/machine.rs:599-636 | a newly open session has empty stores and counts from zero |
| `SessionMachine.SessionMachine.PreflightProbe` | crates/irtt-client/src/session/machine.rs:325-384 | the refusals before the socket is used, a closed session, a collision, the limit, memory, the counter and the deadline, are exactly these, in this order, and change nothing |
| `SessionMachine.SessionMachine.CommitProbeSent` | crates/irtt-client/src/session/machine.rs:386-415 | the commit drops the reused number's earlier generation, appends the probe and advances both counters, keeping the invariant |
| `SessionMachine.SessionMachine.SendProbe` | crates/irtt-client/src/session/machine.rs:325-427 | one send over the in-place stores is the send step: a refusal changes nothing and a failed socket ends transmit correlation only |
| `SessionMachine.SessionMachine.PollTimeouts` | crates/irtt-client/src/session/machine.rs:488-510 | a bounded poll reports one loss per drained probe, in order, and moves each to retention; a closed session refuses and stays as it is |
| `SessionMachine.SessionMachine.ProcessReceivedPacket` | crates/irtt-client/src/session/machine.rs:461-477 | a packet that does not decode is reported and changes nothing; one that does is processed as a reply; a closed session refuses and stays as it is |
| `SessionMachine.SessionMachine.ProcessEchoReply` | crates/irtt-client/src/session/machine.rs:670-825 | a foreign token changes nothing; a matched reply is classified, and a close flag ends the session after it |
| `SessionMachine.SessionMachine.ClassifyReply` | crates/irtt-client/src/session/machine.rs:706-810 | the lookups over the three in-place stores, in order, give the specified event and stores |
| `SessionMachine.SessionMachine.RecordKernelTxTimestamp` | crates/irtt-client/src/session/machine.rs:445-459 | a stamp reaches the one probe that carries the number, pending or retained, only while the session is open and correlation is valid |
| `SessionMachine.SessionMachine.CommitLocalClose` | crates/irtt-client/src/session/machine.rs:523-541 | a local close drops the session and keeps the packet count |
| `SessionMachine.SessionMachine.LatestProbeTimeoutDeadline` | crates/irtt-client/src/session/machine.rs:583-593 | the reported deadline is the largest of every pending and retained probe's; a closed session has none |
| `ClientRuns.RunsKeep` | crates/irtt-client/src/session/machine.rs:325-825 | every reachable open session keeps its three stores pairwise disjoint and within capacity, its deadlines sorted, and its next number equal to packets sent modulo 2^32 |
| `ClientRuns.Conservation` | crates/irtt-client/src/session/machine.rs:386-825 | over any run from any good state, new sends equal the change in pending plus replies matched while pending plus losses |
| `ClientRuns.PacketsSentAreAccountedFor` | crates/irtt-client/src/session/machine.rs:386-825 | from the start of a session, packets sent = pending + matched while pending + lost |
| `ClientRuns.EachProbeIsMeasuredOnce` | crates/irtt-client/src/session/machine.rs:670-825 | over any run, each measured reply for a number follows a send of it with no measured reply between, through timeouts, eviction and reuse after the wrap |
| `ClientRuns.ReplyOrder` | crates/irtt-client/src/session/machine.rs:711-745 | for a reply within less than 2^31 of the highest index received, the highest number stays that of the highest index, and a pending reply is late exactly when its index is smaller |
| `ClientRuns.HighestIsTrue` | crates/irtt-client/src/session/machine.rs:895-911 | over any run of such replies, the highest received number is always the true highest index modulo 2^32 |
| `ClientRuns.HighestIsTrueFromTheStart` | crates/irtt-client/src/session/machine.rs:711-745 | the same over any such run from a session's start, where nothing was received yet |
| `ClientNegotiation.ValidParamsExactly` | crates/irtt-client/src/session/machine.rs:1072-1120 | the parameters a request can make are exactly the valid ones, and each is some valid request's |
| `ClientNegotiation.RecordChange` | crates/irtt-client/src/session/negotiation.rs:385-399 | a change is appended, or under the strict policy refused |
| `ClientNegotiation.NegotiateParams` | crates/irtt-client/src/session/negotiation.rs:195-347 | the client's own order of checks and pushes gives the specified result for every returned set, with no conversion failing |
| `ClientNegotiation.StrictAcceptsOnlyTheRequest` | crates/irtt-client/src/session/negotiation.rs:195-347 | strict accepts a reply exactly when its parameters are the request's |
| `ClientNegotiation.LooseAcceptsTheAcceptable` | crates/irtt-client/src/session/negotiation.rs:195-383 | loose accepts exactly the stated restrictions of the request, and records no change exactly when nothing changed |
| `ClientNegotiation.ChangesAreTheDifferences` | crates/irtt-client/src/session/negotiation.rs:225-347 | loose records one change for exactly each aspect that differs |
| `ClientNegotiation.ServerIsAcceptable` | crates/irtt-server/src/negotiate.rs:79-151 | whatever its configuration, what the server settles on for a valid request is acceptable to a loose client, and to a strict one exactly when nothing changed |
| `Schedule.OnGridExactly` | crates/irtt-client/src/managed/schedule.rs:102-139 | being on the grid is being the start plus a whole number of intervals |
| `Schedule.CadenceExactly` | crates/irtt-client/src/managed/schedule.rs:102-148 | the chosen slot is the last grid point that has passed, or the deadline when none has; the next is the first after it and still to come; it fails exactly for a zero interval or when no next grid point can be represented |
| `Schedule.ProbeSchedule.New` | crates/irtt-client/src/managed/schedule.rs:19-40 | a schedule starts at its first slot and is refused exactly when its end cannot be represented |
| `Schedule.ProbeSchedule.PermitProbeAt` | crates/irtt-client/src/managed/schedule.rs:55-64 | permission ends, for good, at the end instant |
| `Schedule.ProbeSchedule.SkipMissedSlotsAt` | crates/irtt-client/src/managed/schedule.rs:87-95 | slots that passed are skipped without a send; a failure changes nothing |
| `Schedule.ProbeSchedule.EndDeadline` | crates/irtt-client/src/managed/schedule.rs:46-49 | there is an end deadline exactly while a finite schedule can still send |
| `Schedule.ProbeSchedule.SubmitOne` | crates/irtt-client/src/managed/task/pacing.rs:137-206 | one send opportunity updates the schedule as specified for every outcome of the socket |
| `Schedule.SlotsStayOnTheGrid` | crates/irtt-client/src/managed/schedule.rs:55-139 | over any run of opportunities every used slot is on the grid, before the end, the last to have passed when permitted, and at least an interval after the one used before |
| `Schedule.FiniteSchedulesAreBounded` | crates/irtt-client/src/managed/schedule.rs:55-139 | a finite schedule uses at most its duration over its interval, rounded up, slots |
| `Ipdv.ClockOffsetCancels` | crates/irtt-stats/src/ipdv.rs:108-158 | neither direction's variation changes when the server's monotonic and wall clocks are each shifted by a constant of their own |
| `Ipdv.IpdvTracker.Insert` | crates/irtt-stats/src/ipdv.rs:38-55 | the completed pairs stay exactly the adjacent retained samples, the order lists each retained sample once, and the pairs returned are those the newcomer completes |
| `Ipdv.IpdvTracker.EnforceSequenceLimit` | crates/irtt-stats/src/ipdv.rs:57-70 | the loop keeps the newest samples up to the limit and drops exactly the pairs that lost an endpoint |
| `Ipdv.IpdvTracker.TryPair` | crates/irtt-stats/src/ipdv.rs:72-96 | a pair is returned, and marked, exactly when it was not yet and both samples are retained |
| `Ipdv.EmittedIsNewlyCompleted` | crates/irtt-stats/src/ipdv.rs:38-97 | an insertion emits a pair exactly when the pair becomes complete by it, once, and it joins a number to the one before |
| `Ipdv.EachPairOnce` | crates/irtt-stats/src/ipdv.rs:38-97 | with no limit, in any order of arrival and with any duplicates, each adjacent pair is emitted exactly once if both arrived and never otherwise |
| `Ipdv.NoPairAgainWhileRetained` | crates/irtt-stats/src/ipdv.rs:57-97 | with a limit, a pair emitted twice lost an endpoint in between |
| `Ipdv.NeverMoreThanTheLimit` | crates/irtt-stats/src/ipdv.rs:57-70 | neither the samples nor the completed pairs ever exceed the limit |
| `Directional.SegmentRises` | crates/irtt-stats/src/rolling.rs:25-56 | between two points with no reset the highest count never decreases, and a reset always begins a later segment |
| `Directional.PeakIsTheMaximum` | crates/irtt-stats/src/rolling.rs:25-56 | the position holds the highest count reported since its segment began and the ordinal of the last packet that reported it |
| `Directional.SnapshotDelta` | crates/irtt-stats/src/rolling.rs:157-190 | the one-pass loop over any retained part of the history computes the delta, with no subtraction underflowing |
| `Directional.DeltaExactly` | crates/irtt-stats/src/rolling.rs:157-194 | a delta is reported exactly when the retained packets are a gap-free run of the packet history in one segment with a known baseline, and equals the rise of that segment's highest count over the run |
| `Rolling.LiveIsTheWindow` | crates/irtt-stats/src/rolling.rs:106-139 | after any history the live entries in key order are exactly the history filtered to the window, and keys are issued in strictly ascending order, so none is reused and each new one sorts last |
| `RollingStore.RollingEvents.Push` | crates/irtt-stats/src/rolling.rs:106-139 | pushing keeps both indexes holding the same live entries of everything pushed, the count window its newest events, and the position that of the history |
| `RollingStore.RollingEvents.PushTimed` | crates/irtt-stats/src/rolling.rs:118-138 | the expiry and the insertion together turn the indexes of a history into those of the longer one |
| `RollingStore.RollingEvents.ExpireBefore` | crates/irtt-stats/src/rolling.rs:122-127 | popping the earliest until the cutoff removes exactly the older entries from both indexes |
| `RollingStore.RollingEvents.TimeValues` | crates/irtt-stats/src/rolling.rs:147-151 | iterating by key yields the history filtered to the window, in order of arrival |
| `RollingStore.RollingEvents.TimeDelta` | crates/irtt-stats/src/rolling.rs:147-190 | the time window's delta is that of the filtered history |
| `RollingStore.RollingEvents.CountDelta` | crates/irtt-stats/src/rolling.rs:141-145 | the count window's delta is that of the newest events |

## Left out

- Digests: HMAC-MD5 and constant-time comparison are one unknown function of key and bytes (crates/irtt-proto/src/hmac.rs), so nothing is claimed about forgery.
- Machine size: `usize` is taken to have 64 bits; the length error that only a 32-bit platform can raise is not modelled (crates/irtt-proto/src/layout.rs:152-165).
- Values inside the table: a session, its rate, receive and lifetime states are values replaced in the server's table, not objects updated through references.
- Opening: the client's acceptance of an open reply beyond negotiation (retry, no-test completion, cleanup close packets) is not a state machine here; a client session begins open.
- Prepared packets: preparing, preflighting, finalising and committing a probe are one send step, so a prepared probe is never stale.
- Timing arithmetic: round-trip, one-way and server-processing times, and the plausibility checks on kernel timestamps, are not part of the model; events carry the instants they are computed from.
- Messages: the text of errors, warnings and negotiation changes.
- Managed task: target lifecycle, staggering, release gates and silence detection (crates/irtt-client/src/managed/task.rs and its submodules) beyond the one send opportunity `Schedule` models.
- Rolling statistics: of a reply's sample only the server's count is kept, and of a snapshot only the directional delta; floating-point statistics, percentages and the collector's replay are not part of the model.
- Count window: it is taken to keep the newest events up to its size, as the external `measurement-stats` crate documents.
- Wide integers: 128-bit differences and ordinals are unbounded, since no input can overflow them.
- Sockets, ancillary data, async runtimes, wakers, command line, output formats and fuzzing harnesses.
