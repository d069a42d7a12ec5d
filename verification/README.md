# A verified model of the ASH and EZSP host stack

The repository drives a Zigbee network co-processor (NCP) over a serial line. It stacks four layers:
ASH framing (whitening, CRC, byte stuffing), the ASH connection (three-bit sequence numbers, a window
of seven, bounded resends), the EZSP codec (headers and fields whose widths depend on the negotiated
version), and the runtime that matches responses to commands, queues callbacks and negotiates the
version. This project models all four in Dafny and proves what they keep over whole runs.

## How it is organised

| file | what it models |
|---|---|
| `AshFrame.dfy` | frame kinds, control bytes and bodies |
| `AshCrc.dfy` | the CRC: serial form, polynomial division, linearity, bursts |
| `AshCodec.dfy` | whitening, stuffing, `Encode`, the `Decoder` object |
| `AshStream.dfy` | whole byte streams: a declarative reading, the decoder's refinement of it, round trips |
| `AshWire.dfy` | the bytes of a frame in numbers: keystream, control byte, frame check, escapes |
| `AshConnection.dfy` | one endpoint: the value `Endpoint` and the object `Connection` |
| `AshConnectionRuns.dfy` | one endpoint under arbitrary events |
| `AshPhaseLaws.dfy` | what its phase, flags, counters and answers say about the events so far |
| `RejectionLaws.dfy` | which undecodable bytes ask the NCP to send again, and which are passed over |
| `AshLink.dfy` | two endpoints joined by lossy lines of frames, and the unbounded protocol they implement |
| `ByteLink.dfy` | the same over lines of bytes, cut anywhere, with frames lost, damaged, marked bad, cancelled or mixed with flow control |
| `EzspCodec.dfy`, `EzspFrame.dfy`, `Aps.dfy` | `Reader`, `Writer`, headers, APS frames, statuses |
| `EzspWire.dfy`, `RequestWire.dfy` | received frames and requests by byte offset, with versions, ids and widths as numbers |
| `Callback.dfy`, `Command.dfy` | callback decoding; the encoders of `addEndpoint` and the three sends |
| `MessageLaws.dfy` | those requests as whole frames, and which of them can be sent |
| `Correlator.dfy` | which frame answers the outstanding command |
| `Runtime.dfy`, `Ncp.dfy` | the runtime as functions on a value, and as the object `Ncp` proved to follow them |
| `RuntimeInduction.dfy` | induction over reads, commands, resets, connections and sessions |
| `RuntimeLaws.dfy`, `FormatLaws.dfy` | where payloads and callbacks go, and in which header format and version they are read |
| `ConservationLaws.dfy` | exactly when the client gets the callbacks that the NCP sent |
| `OwnershipLaws.dfy` | over whole sessions, a command gets the response produced for it |
| `CommandLaws.dfy`, `OutcomeLaws.dfy` | what a command rests on, and exactly what it returns, from the bytes on the line |
| `ResetLaws.dfy` | exactly when a reset completes, and how many RSTs it writes |
| `ConnectLaws.dfy` | what `connect` returns and sends, as a function of the bytes on the line |
| `PeerLaws.dfy` | the runtime as one end of the byte link |
| `NegotiationLaws.dfy`, `AnswerLaws.dfy` | what a successful connection rests on, and that every supported version can be had |

Code that changes fields in place is a class (`Connection`, `Decoder`, `Correlator`, `Reader`,
`Writer`, `Ncp`). Each of its methods is proved to compute a function of the old abstract value, given
by `View()`; the properties are then proved about those functions.

A serial port is a list of reads: each is a chunk of bytes or a deadline. Writing to it always
succeeds. Every theorem about runs holds for every such list, so for every way the bytes may be cut.

## Where the code differs from what its documentation suggests

- `MAX_RETRANSMITS` (`src/ash/state.rs:22`) is described as the number of resends; it bounds all
  sends, the first included, so a frame is resent at most twice.
- A test says that a failed link must stop resending (`src/ash/state.rs:569`). A NAK makes it resend
  whenever it leaves a head sent fewer than three times: `FailedLinkCanResend` reaches such a state
  and `NakResendsWhateverTheState` says exactly when.
- `encode` accepts data fields of up to 130 bytes (`src/ash/codec.rs:105`) but the parser refuses more
  than 128 (`src/ash/frame.rs:173`): a frame survives the line exactly when it is portable.
- EZSP allows frames of 218 bytes (`src/ezsp/frame.rs:268`) but an ASH data frame can carry 130.
  Requests in between are registered as pending and then fail to be written. From then on commands
  are refused until a reset renews the correlator or some payload happens to match the pending
  sequence number and id: `CommandLeavesClean`, `PendingBlocks` and `SendableExactly` say exactly when.
- `NcpReset` is documented for an NCP that resets during a command (`src/ncp.rs:259-260`). An RSTACK
  does not produce it: the command times out (`RstAckReadsAsTimeout`). It comes exactly when an ERROR,
  or a NAK that leaves a head sent three times, takes the link down with no RSTACK behind it in the
  same read (`UnansweredCommand`, `LinkDownExactly`).
- The pending header format is described as `None` when nothing is outstanding (`src/ncp.rs:91-96`).
  A timeout clears the command and not the format (`src/ncp.rs:345`), nor does a reset clear it, so
  after a `version` command that timed out callbacks are read with the legacy header:
  `LegacyExactlyWhenOutstanding` says exactly when. So the promise that callbacks are not dropped
  (`src/ncp.rs:19-25`) can fail: `StatusIsLost` is a whole session that hands the client a stack status
  as an unknown callback, and `CallbacksAreConservedExactly` gives the exact condition.
- A frame marked by SUBSTITUTE is described as one to ask for again (`src/ash/error.rs:116-119`). If data
  bytes beyond the 133rd follow the mark it counts as overlong and nothing is sent: `MarkAsksAgainExactly`.
- `ack_pending` is described as set when a received frame needs acknowledging (`src/ash/state.rs:79-80`).
  Nothing ever sets it: `PendingFlagsExactly`.
- The parser of EZSP headers says that it infers the format (`src/ezsp/frame.rs:314`); it is passed in.
- The one-byte sequence number alone does not tell commands 256 apart; `LateAnswerIsMisattributed`
  shows it and `AnswersAreOwn` gives the bound within which answers are never confused;
  `CommandsGetTheirOwnAnswers` carries it to commands in whole sessions.

## Model

| member | source | states |
|---|---|---|
| AshLinks.RunRefinesIdeal | src/ash/state.rs:150-317 | over every run of two peers joined by lossy first-in first-out lines, with a window of at most seven, the three-bit protocol is the protocol with unbounded numbers reduced mod 8, and the inductive invariant of both directions holds |
| AshLinks.DeliveryInOrder | src/ash/state.rs:182-253 | over every run what each side delivered is a prefix of what the other accepted for sending: no duplicate, gap or reordering |
| AshLinks.QueuesAreIntervals | src/ash/state.rs:25-32 | over every run each queue is the interval [base, next) mod 8 with the payload of each number, base at or below what the peer delivered, next at most seven above it |
| AshLinks.AcknowledgementIsUnambiguous | src/ash/state.rs:296-317 | over every run the acknowledgement read next stands for one number between base and next, and positional retirement keeps exactly the entries from it on, the drain on an absent number included |
| AshLinks.RetireAgrees | src/ash/state.rs:310-316 | for any queue of at most seven consecutive numbers, retiring by position is retiring every entry numbered below the acknowledgement |
| AshLinks.AcceptStep | src/ash/state.rs:219-234 | the three-bit comparison accepts a data frame exactly when its unbounded number is the one expected |
| AshLinks.EightIsAmbiguous | src/ash/state.rs:25-32 | with a window of eight or more there is a run that delivers a payload twice |
| AshLinks.WindowSafeExactlyUpToSeven | src/ash/state.rs:25-32 | a window keeps every run in order if and only if it is at most seven |
| ByteLinks.BytesArriveInOrder | src/ash/codec.rs:94-281 | over every run of two peers joined by lines of bytes, read in pieces cut anywhere, with every frame intact, lost, damaged within sixteen consecutive bits, marked bad by SUBSTITUTE, given up by CANCEL, or interspersed with flow control, each side delivers a prefix of what the other accepted |
| ByteLinks.RunRefines | src/ash/codec.rs:94-281 | every such run stands for a run of the link of frames: the bytes not yet read decode to its frames, after the outputs not yet handled |
| ByteLinks.PaddedYields | src/ash/codec.rs:193-195 | a portable frame interspersed with flow control decodes to that frame alone |
| ByteLinks.DamageIsRejected | src/ash/codec.rs:240-281 | a frame damaged so decodes to one rejection and leaves the decoder at rest |
| PeerLaws.RuntimeKeepsOrder | src/ncp.rs:374-434 | whatever the runtime reads, hands to ASH and does besides, and whatever befalls the frames of an NCP that runs the protocol at the other end of a line of bytes, the payloads ASH returns to the runtime are a prefix of those the NCP sent, and the NCP has delivered a prefix of the requests ASH took |
| PeerLaws.TheRestIsQuiet | src/ncp.rs:261-368 | beginning and concluding a command and taking the queue touch neither connection, decoder, deliveries nor bytes written, so every part of a command and a poll is a turn of that theorem |
| PeerLaws.HandleAllActs | src/ncp.rs:412-434 | handling decoder outputs changes connection, decoder, deliveries and bytes written exactly as the link's peer does: every reply is written, in order, up to the first that cannot be |
| RejectionLaws.NakExactly | src/ash/error.rs:120-122 | failure by failure: a bad frame check or a SUBSTITUTE is answered with a NAK of the number expected, every other kind with nothing |
| RejectionLaws.RejectionsAreAnswered | src/ncp.rs:423-430 | from the bytes: a segment marked bad, or long enough with a failing check, makes the runtime write exactly that NAK; one that is overlong, too short, or sound but no frame changes and writes nothing |
| RejectionLaws.FrameOtherwise | src/ash/codec.rs:240-281 | every other segment is a frame |
| RejectionLaws.DamageAsksAgain | src/ash/state.rs:261-271 | a frame damaged within sixteen bits is of the first kind |
| RejectionLaws.MarkAsksAgainExactly | src/ash/codec.rs:202-207 | so is one marked by SUBSTITUTE if and only if no data byte beyond the 133rd follows the last mark |
| RejectionLaws.PeerAsksAgain | src/ash/state.rs:261-271 | the same for a peer of the byte link |
| AshPhaseLaws.PhaseExactly | src/ash/state.rs:122-294 | over every run the phase is the one the events say: up by RSTACK, resetting up to five times, failed by ERROR, exhausted resends or a sixth reset |
| AshPhaseLaws.ConnectedExactly | src/ash/state.rs:105-108 | a connection is up if and only if an RSTACK has come and nothing since took it down |
| AshPhaseLaws.PendingFlagsExactly | src/ash/state.rs:79-82 | `nak_pending` holds if and only if a frame was spoilt and neither the one expected nor a new beginning has come since; `ack_pending` never holds |
| AshPhaseLaws.CountersExactly | src/ash/state.rs:122-234 | both counters are counts since the last new beginning, mod 8 |
| AshPhaseLaws.SixthResetFails | src/ash/state.rs:122-142 | five resets in a row send an RST, the sixth fails and sends nothing, and so on |
| AshPhaseLaws.QuietUntilRstAck | src/ash/state.rs:136-204 | from an ERROR or a reset up to the next RSTACK no data frame goes out and none is accepted, whatever arrives |
| AshPhaseLaws.NothingForgotten | src/ash/state.rs:122-317 | until an acknowledgement, an ERROR or a new beginning comes, every queued payload keeps its number and its place, whatever else happens |
| AshPhaseLaws.AnswersExactly | src/ash/state.rs:182-253 | every data frame is answered with an ACK of the number expected next, a NAK with the head it leaves unless sent three times, nothing else at all |
| AshPhaseLaws.AcceptedExactly | src/ash/state.rs:150-174 | a payload is refused when the link is down or seven wait, and otherwise goes out under the next number |
| AshConnections.Position | src/ash/state.rs:310-315 | the index of the first entry with the given number, or the length of the queue when none has it |
| AshConnections.Connection.constructor | src/ash/state.rs:91-100 | a fresh connection is disconnected and empty |
| AshConnections.Connection.Begin | src/ash/state.rs:122-142 | counts the attempt, clears counters and queue and sends RST, or fails after five attempts |
| AshConnections.Connection.Submit | src/ash/state.rs:150-174 | refuses when not connected or seven are outstanding; otherwise numbers, queues and acknowledges |
| AshConnections.Connection.Receive | src/ash/state.rs:182-253 | the new state, the delivered payload and the reply for each kind of frame |
| AshConnections.Connection.Accept | src/ash/state.rs:227-253 | the payload of a data frame is delivered, and the counter moves on, if and only if its number is the one expected |
| AshConnections.Connection.DecodeFailure | src/ash/state.rs:261-271 | a NAK for recoverable failures, nothing otherwise |
| AshConnections.Connection.Resend | src/ash/state.rs:278-294 | resends the head with the retransmit bit, or fails once it was sent three times |
| AshConnections.Connection.RetireAcknowledged | src/ash/state.rs:310-317 | the loop drops exactly the entries ahead of the acknowledged number |
| AshConnectionRuns.RunKeepsInvariant | src/ash/state.rs:122-317 | whatever frames, failures, timeouts and resets occur, the queue stays consecutive mod 8, at most seven long, with only its head sent more than once, and its send counters equal the transmissions made |
| AshConnectionRuns.ResendsAreBounded | src/ash/state.rs:277-294 | in every run each payload is transmitted at most three times, every transmission carries its own payload, and resends are at most twice the submissions |
| AshConnectionRuns.UnansweredHeadFails | src/ash/state.rs:278-287 | a connected link with an unanswered head has failed after k timeouts if and only if k exceeds three minus the sends already made |
| AshConnectionRuns.NakResendsWhateverTheState | src/ash/state.rs:205-208 | in any state a NAK resends if and only if the head it leaves was sent fewer than three times |
| AshConnectionRuns.FailedLinkCanResend | src/ash/state.rs:282-293 | a reachable failed link that resends a later frame |
| AshFrames.ParsePrinted | src/ash/frame.rs:94-229 | parsing a printed frame gives it with its numbers mod 8; only an oversized data field is refused |
| AshFrames.PrintParsed | src/ash/frame.rs:94-229 | printing an accepted control byte and body gives both back, but for bit 4 of ACK and NAK, which is cleared |
| AshFrames.RoundTripExactlyWhenPortable | src/ash/frame.rs:94-229 | a frame survives print and parse if and only if its numbers are below eight and its data field is at most 128 bytes |
| AshWire.WhitenedExactly | src/ash/codec.rs:74-87 | bytes are the whitened form of data if and only if their difference is the keystream, which begins 42 21 a8 54 2a 15 b2 59 and continues by a linear recurrence |
| AshWire.KeystreamIsUnique | src/ash/codec.rs:34-37 | there is one such keystream of each length |
| AshWire.ControlByArithmetic | src/ash/frame.rs:94-119 | control bytes by arithmetic: sixteen per frame number, eight for a flag, one per acknowledgement number, on a base per kind |
| AshWire.ParsedByArithmetic | src/ash/frame.rs:164-229 | the parser accepts exactly these control bytes with these body lengths, and names the fault otherwise |
| AshWire.FrameCheckExactly | src/ash/codec.rs:49-72 | two bytes are the frame check if and only if they are the remainder of the division by x^16 + x^12 + x^5 + 1 |
| AshWire.EncodedExactly | src/ash/codec.rs:94-128 | a byte string is the encoding of a frame if and only if it is control byte, field with the keystream added and remainder, with the six bytes 11 13 18 1a 7d 7e escaped, and then 7e |
| AshWire.UnencodableExactly | src/ash/codec.rs:105-110 | only a data field of more than 130 bytes is refused |
| AshWire.CheckedExactly | src/ash/codec.rs:240-281 | unescaped bytes are taken as a frame if and only if they are a control byte, a field and a frame check that say it |
| AshWire.RefusedExactly | src/ash/codec.rs:240-281 | and refused, in this order, as too short, for their check, or for control byte and length |
| AshWire.FlowControlByLiterals | src/ash/codec.rs:195 | in any state, 11 and 13 are skipped |
| AshWire.CancelByLiteral | src/ash/codec.rs:196-201 | 1a forgets everything since the last delimiter |
| AshWire.SubstituteByLiteral | src/ash/codec.rs:202-216 | 18 spoils the frame up to its 7e |
| AshWire.EscapeByLiteral | src/ash/codec.rs:208-237 | 7d lifts the next byte by 20 |
| AshCrc.ComputeCrc16 | src/ash/codec.rs:55-67 | the bit loop computes one byte's step of the register |
| AshCrc.CrcIsSerial | src/ash/codec.rs:55-72 | the byte-wise CRC is the bit-serial register over the message bits, for every seed and length |
| AshCrc.CrcIsRemainder | src/ash/codec.rs:49-72 | the CRC is the remainder of the message followed by sixteen zeros, its first sixteen bits inverted, divided by x^16 + x^12 + x^5 + 1 |
| AshCrc.ShiftsInjective | src/ash/codec.rs:57-66 | only the zero register ever shifts to zero, so with linearity every step is invertible |
| AshCrc.CrcLinear | src/ash/codec.rs:55-72 | XOR of seeds and of messages goes through to the register |
| AshCrc.CrcAffine | src/ash/codec.rs:70-72 | the CRC commutes with the XOR of any three messages of one length |
| AshCrc.CheckIsZeroResidue | src/ash/codec.rs:256-261 | the receiver's comparison passes if and only if the register over message and CRC is zero |
| AshCrc.BurstsAreCaught | src/ash/codec.rs:256-261 | two frames of one length that differ only within sixteen consecutive bits, CRC included, cannot both pass |
| AshCrc.AdjacentBytesAreCaught | src/ash/codec.rs:256-261 | nor can two that differ only within two adjacent bytes |
| AshCodec.Randomise | src/ash/codec.rs:77-87 | whitening in place XORs each byte with a key that depends on its position alone |
| AshCodec.RandomisedInvolution | src/ash/codec.rs:74-87 | whitening twice gives the data back |
| AshCodec.StuffBytes | src/ash/codec.rs:117-125 | the escaping loop stuffs every byte in order |
| AshCodec.Encode | src/ash/codec.rs:94-128 | control, whitened body and big-endian CRC, stuffed and delimited; refused beyond 133 bytes |
| AshCodec.Decoder.constructor | src/ash/codec.rs:161-163 | a new decoder holds nothing |
| AshCodec.Decoder.Reset | src/ash/codec.rs:169-173 | forgets the partial frame, the escape and the rejection |
| AshCodec.Decoder.Feed | src/ash/codec.rs:180-188 | the loop is the fold of one-byte steps, outputs in order |
| AshCodec.Decoder.Push | src/ash/codec.rs:191-237 | the step for each control byte, for escapes and for overflow |
| AshCodec.Decoder.Finish | src/ash/codec.rs:240-281 | the outcome at a delimiter: pending rejection, length, CRC, whitening and parse, in that order |
| AshStreams.DecoderReadsStream | src/ash/codec.rs:180-281 | for every stream the outputs are those of a declarative reading: split at FLAG, keep what follows the last CANCEL, drop flow control, unstuff, let the last of SUBSTITUTE and overflow reject, otherwise check and parse |
| AshStreams.EncodedDiscipline | src/ash/codec.rs:94-128 | an encoding has one FLAG, at the end, no raw flow control, CANCEL or SUBSTITUTE, an unreserved byte after each ESCAPE, and at most 267 bytes |
| AshStreams.StuffedDiscipline | src/ash/codec.rs:117-125 | stuffed bytes contain no reserved byte but ESCAPE, each followed by an unreserved one, and at most double in length |
| AshStreams.UnstuffStuffed | src/ash/codec.rs:117-125 | unstuffing undoes stuffing |
| AshStreams.EncodedDecodes | src/ash/codec.rs:94-128 | a decoder at rest turns one encoding into one output, the reduced frame or a refusal of its length |
| AshStreams.RoundTripExactlyWhenPortable | src/ash/codec.rs:94-281 | a frame survives encoding and decoding if and only if it is portable |
| AshStreams.ChunksDoNotMatter | src/ash/codec.rs:175-188 | feeding a stream in any chunks is feeding it whole |
| AshStreams.StreamRoundTrip | src/ash/codec.rs:94-281 | any list of portable frames, encoded and cut anywhere, comes out as that list and leaves the decoder empty |
| AshStreams.Resynchronises | src/ash/codec.rs:200-219 | from any state and after any junk, a FLAG or CANCEL lets the next encoding through intact |
| AshStreams.FlowControlIsInvisible | src/ash/codec.rs:193-195 | flow control inserted anywhere, even after an ESCAPE, changes nothing |
| AshStreams.DecoderIsBounded | src/ash/codec.rs:226-235 | the buffer never exceeds 133 bytes and outputs never exceed the FLAGs seen |
| EzspCodec.Reader.constructor | src/ezsp/codec.rs:35-41 | a new cursor has everything left |
| EzspCodec.Reader.Take | src/ezsp/codec.rs:69-86 | takes the next bytes or fails without moving |
| EzspCodec.Reader.U8 | src/ezsp/codec.rs:96-101 | one byte, or a truncation error without moving |
| EzspCodec.Reader.U16 | src/ezsp/codec.rs:104-113 | two bytes, little-endian |
| EzspCodec.Reader.U32 | src/ezsp/codec.rs:116-125 | four bytes, little-endian |
| EzspCodec.Reader.U64 | src/ezsp/codec.rs:128-134 | the eight bytes of an address |
| EzspCodec.Reader.LengthPrefixed | src/ezsp/codec.rs:140-143 | length and bytes; when the bytes are missing the length byte stays consumed |
| EzspCodec.Writer.U8 | src/ezsp/codec.rs:178-180 | appends one byte |
| EzspCodec.Writer.U16 | src/ezsp/codec.rs:183-185 | appends two bytes, little-endian |
| EzspCodec.Writer.LengthPrefixed | src/ezsp/codec.rs:204-212 | appends length and bytes, or refuses 256 bytes and more and writes nothing |
| EzspCodec.U16Printed | src/ezsp/codec.rs:104-113 | a written integer is read back, whatever follows |
| EzspCodec.U32Printed | src/ezsp/codec.rs:116-125 | likewise for four bytes |
| EzspCodec.U64Printed | src/ezsp/codec.rs:128-134 | and for eight |
| EzspCodec.LengthPrefixedPrinted | src/ezsp/codec.rs:140-143 | a written payload of at most 255 bytes is read back, whatever follows |
| EzspCodec.LengthPrefixedParsed | src/ezsp/codec.rs:140-143 | whatever the reader accepts is what the writer would have written |
| EzspFrames.WriteHeader | src/ezsp/frame.rs:278-306 | the header of each format; a legacy header refuses an id above one byte |
| EzspFrames.RequestParsesBack | src/ezsp/frame.rs:278-378 | a request is parsed back into its sequence, id and body if and only if the id fits the format and the frame fits 218 bytes |
| Aps.EncodeAps | src/types/aps.rs:77-88 | the eleven bytes of an APS frame, in field order |
| Aps.DecodeAps | src/types/aps.rs:90-102 | reads them from a cursor |
| Aps.ApsPrinted | src/types/aps.rs:77-102 | a written APS frame is read back, whatever follows |
| Aps.ApsParsed | src/types/aps.rs:77-102 | and whatever is read is what would have been written |
| Aps.DecodeStatus | src/types/status.rs:69-81 | one byte below version 14, four from there on |
| Aps.StatusPrinted | src/types/status.rs:60-81 | a status the version can carry is read back, whatever follows |
| EzspWire.StatusByVersion | src/types/status.rs:69-81 | up to version 13 a status is one byte and one is consumed; from 14 on it is four, least significant first, and four are consumed |
| EzspWire.TagByVersion | src/ezsp/callback.rs:145-151 | up to version 13 a message tag is one byte, from 14 on two |
| EzspWire.ApsByOffset | src/types/aps.rs:90-102 | the eleven bytes of an APS frame and the field each belongs to |
| EzspWire.U16ByOffset | src/ezsp/codec.rs:104-113 | two bytes are the number lo + 256 hi |
| EzspWire.U32ByOffset | src/ezsp/codec.rs:116-125 | likewise for four |
| EzspWire.U64ByOffset | src/ezsp/codec.rs:128-134 | and for eight |
| EzspWire.CallbacksByOffset | src/ezsp/callback.rs:122-179 | at every version each field of each callback is read from its byte offset, which the version shifts from 14 on, and parameters that end early are refused as truncated |
| EzspWire.ControlByNumber | src/ezsp/frame.rs:226-243 | what each bit of the control byte says |
| EzspWire.HeadersByOffset | src/ezsp/frame.rs:323-378 | a payload of at least its header and at most 218 bytes is a frame, with number, control, id and parameters at these offsets, and no other is |
| EzspWire.AnswersByOffset | src/ezsp/correlation.rs:166-205 | a payload answers a command if and only if its bytes echo number and id, say response and do not say callback |
| EzspWire.VersionByOffset | src/ezsp/command.rs:91-99 | the four bytes of a version response |
| Callbacks.DecodeTrustCenterJoin | src/ezsp/callback.rs:132-138 | reads the join fields from a cursor |
| Callbacks.DecodeMessageSent | src/ezsp/callback.rs:139-159 | reads a delivery report, its tag and status as wide as the version says |
| Callbacks.DecodeIncomingMessage | src/ezsp/callback.rs:160-174 | reads an incoming message, signal strength as a signed byte |
| Callbacks.Decode | src/ezsp/callback.rs:122-179 | dispatches on the id; an unknown id keeps its bytes |
| Callbacks.CallbackPrinted | src/ezsp/callback.rs:122-179 | against a reference printer, a printed callback followed by anything decodes to it and leaves the rest |
| Callbacks.CallbackParsed | src/ezsp/callback.rs:122-179 | whatever a known id's decoder accepts is the printed form of its result followed by what is left |
| Callbacks.DecodingIsPrefixCode | src/ezsp/callback.rs:114-179 | at every version a callback's bytes plus any tail decode to it, every strict prefix is a truncation error, an unknown id keeps its bytes |
| Callbacks.DecodingIsLocal | src/ezsp/callback.rs:122-179 | bytes added after a decodable string are left over and change nothing |
| Callbacks.DecoderAcceptsExactlyPrinted | src/ezsp/callback.rs:122-179 | a known id's decoder returns a callback if and only if its printed form begins the parameters |
| Commands.EncodeClusters | src/ezsp/command.rs:403-408 | the loop writes every cluster in order |
| Commands.EncodeAddEndpoint | src/ezsp/command.rs:381-411 | fields, both counts, then both lists; a list of 256 or more is refused |
| Commands.EncodeTagged | src/ezsp/command.rs:464-473 | the tag as wide as the version says, then the message with its length |
| Commands.EncodeSendUnicast | src/ezsp/command.rs:459-475 | the body of a unicast |
| Commands.EncodeSendBroadcast | src/ezsp/command.rs:934-947 | the body of a broadcast |
| Commands.EncodeSendMulticast | src/ezsp/command.rs:1037-1050 | the body of a multicast |
| Commands.BodiesAreUnambiguous | src/ezsp/command.rs:381-475 | two requests of one kind have equal encodings, whatever follows, if and only if all fields are equal; below version 14 a tag counts only mod 256 |
| RequestWire.BodiesByOffset | src/ezsp/command.rs:381-475 | bytes are the body of a request if and only if a reader by offsets, with literal ids, type numbers and version boundary, reads the request from them, up to a tag mod 256 below version 14 |
| RequestWire.FramesByOffset | src/ezsp/frame.rs:278-306 | bytes are the frame of a request if and only if they are at most 218, headed by number, 0, 1 and id, and followed by such a body |
| RequestWire.UnicastWritten | src/ezsp/command.rs:459-475 | for a unicast: type, destination, APS frame, tag, length, message, and the end |
| RequestWire.BroadcastWritten | src/ezsp/command.rs:934-947 | for a broadcast |
| RequestWire.MulticastWritten | src/ezsp/command.rs:1037-1050 | for a multicast |
| RequestWire.EndpointWritten | src/ezsp/command.rs:381-411 | for an endpoint: both counts, then all inputs, then all outputs |
| RequestWire.AcceptedByOffset | src/ezsp/command.rs:477-484 | the answer by offsets: a status as wide as the version says, and for a send the APS sequence number |
| MessageLaws.UnsupportedExactly | src/ezsp/command.rs:47-49 | these requests are refused for their version if and only if it is not one of 13 to 19 |
| MessageLaws.FramesAreUnambiguous | src/ncp.rs:276-288 | two framed requests are equal if and only if sequence, kind and fields are |
| MessageLaws.SendableExactly | src/ncp.rs:276-310 | on an open link with room, a send can go out if and only if its message has at most 108 bytes (109 below version 14, one more for a multicast) |
| Correlators.Correlator.Begin | src/ezsp/correlation.rs:149-160 | takes the next sequence byte, or refuses while a command is pending |
| Correlators.Correlator.Receive | src/ezsp/correlation.rs:166-205 | callback first, then direction, then sequence and id; an answer clears the pending command |
| Correlators.Correlator.Expire | src/ezsp/correlation.rs:213-220 | clears and names the pending command |
| Correlators.Correlator.Abandon | src/ezsp/correlation.rs:232-240 | likewise, and restarts the sequence at zero |
| Correlators.AnswerExactly | src/ezsp/correlation.rs:149-220 | after any run, the response to command k is taken as the answer if and only if a command is pending, has the same id and was issued a multiple of 256 later |
| Correlators.AnswersAreOwn | src/ezsp/correlation.rs:149-220 | if no response is 256 or more commands late, every accepted frame was produced for the command it answered and none answers twice, despite timeouts and the one-byte wrap |
| Correlators.LateAnswerIsMisattributed | src/ezsp/correlation.rs:105-111 | the bound is tight: a response 256 commands late answers the wrong one |
| Correlators.PendingExactly | src/ezsp/correlation.rs:149-220 | over every run a command is pending if and only if it was begun and has been neither given up nor answered since, and another is begun only when none is |
| Correlators.StraysAreCounted | src/ezsp/correlation.rs:166-205 | over every run the counter of stale frames is the number of frames that were neither callbacks nor answers, capped at the largest 64-bit number |
| OwnershipLaws.SessionIsNumbered | src/ezsp/correlation.rs:149-160 | over every session consecutive commands carry consecutive sequence bytes, wrapping at 256, and start again from zero after each reset; the next number follows the last |
| OwnershipLaws.CommandsGetTheirOwnAnswers | src/ezsp/correlation.rs:149-220 | after any connected session of sendable or unavailable commands, over every script, a command that succeeds returns the decoded parameters of the response produced for that very command, provided that each response filed meanwhile was produced fewer than 256 commands before |
| Ncps.Ncp.constructor | src/ncp.rs:111-127 | a runtime that has done nothing |
| Ncps.Ncp.Dispatch | src/ncp.rs:437-486 | reads one payload under the pending command's header format, classifies and files it |
| Ncps.Ncp.File | src/ncp.rs:464-484 | parks an answer and clears the pending format, queues a callback that decodes, drops the rest |
| Ncps.Ncp.WriteFrame | src/ncp.rs:376-382 | encodes and writes, or reports why not and writes nothing |
| Ncps.Ncp.Handle | src/ncp.rs:413-431 | replies before filing; a failed reply drops the payload |
| Ncps.Ncp.Consume | src/ncp.rs:412-434 | feeds the decoder and handles its outputs in order up to the first failure |
| Ncps.Ncp.PumpUntil | src/ncp.rs:385-409 | the read loop |
| Ncps.Ncp.BuildRequest | src/ncp.rs:279-288 | header and body, refused beyond 218 bytes |
| Ncps.Ncp.Transmit | src/ncp.rs:310-311 | hands the request to ASH and writes the frame |
| Ncps.Ncp.Issue | src/ncp.rs:261-311 | everything a command does before it waits |
| Ncps.Ncp.Conclude | src/ncp.rs:323-347 | decodes the parked response to its last byte, or tells reset, failure and timeout apart |
| Ncps.Ncp.Perform | src/ncp.rs:261-347 | a whole command |
| Ncps.Ncp.TryReset | src/ncp.rs:227-248 | one handshake: completed, unanswered, or not worth repeating |
| Ncps.Ncp.AwaitRstAck | src/ncp.rs:233-247 | reads until the link is up or the deadline, and completes the reset if it is up |
| Ncps.Ncp.CompleteReset | src/ncp.rs:238-241 | renews the correlator and allows a legacy request again |
| Ncps.Ncp.Reset | src/ncp.rs:225-252 | at most five handshakes; success renews the correlator and allows a legacy request again |
| Ncps.Ncp.Negotiate | src/ncp.rs:159-198 | the offer, and the second exchange when the answer differs |
| Ncps.Ncp.Adopt | src/ncp.rs:130-137 | negotiates, and takes over version and firmware only on success |
| Ncps.Ncp.Connect | src/ncp.rs:110-138 | reset, then negotiation, then adopting the agreed version |
| Ncps.Ncp.TakeCallbacks | src/ncp.rs:216-218 | hands over the queue and empties it |
| Ncps.Ncp.Poll | src/ncp.rs:364-368 | reads until a callback is queued or the deadline, then takes the queue |
| RuntimeLaws.ArrivalsAreFiled | src/ncp.rs:412-434 | over every session the payloads filed are exactly those that `on_frame` returned, in order |
| RuntimeLaws.CallbacksAreConserved | src/ncp.rs:19-25 | over every interleaving of commands, polls, resets and reads, the callbacks handed out followed by those queued are, in order, those of the payloads filed, each read in the format and version filed with it |
| FormatLaws.FormatsAreExplained | src/ncp.rs:437-441 | over every session a payload is read in the format of the last command begun before it unless that command has been answered, and as extended otherwise |
| FormatLaws.LegacyExactlyWhenOutstanding | src/ncp.rs:437-441 | it is read as legacy if and only if the last command begun was legacy and is unanswered, timed out or not |
| FormatLaws.SessionReadsNegotiated | src/ncp.rs:128-137 | after the connection every payload is read in the negotiated version, and nothing filed before changes |
| FormatLaws.CallbacksAreThoseReturned | src/ncp.rs:19-25 | in a connected session where no flagged payload arrives while a legacy command is outstanding, the callbacks handed out and queued are exactly those that the payloads `on_frame` returned carry in the extended format, in order: the preferred version while connecting, the negotiated one after |
| ConservationLaws.CallbacksAreConservedExactly | src/ncp.rs:19-25 | in a connected session whose flagged payloads have extended headers, those callbacks are handed out and queued, all and in order, if and only if no flagged payload arrived while a legacy command was outstanding: no misread entry can make up for another |
| ConservationLaws.ShapeIsNeeded | src/ezsp/frame.rs:323-378 | a flagged payload without an extended header that reads as the same status in both formats |
| ConservationLaws.StatusIsLost | src/ncp.rs:337-346 | for every version 13 NCP and status there is a script over which a client that connects, resets, sends `version` and polls is handed an unknown callback instead of the status the NCP sent |
| FormatLaws.PlainSession | src/ncp.rs:19-25 | in a session that sends no version command the client gets the callbacks queued while connecting and then exactly those of the payloads returned since, extended and in the negotiated version |
| FormatLaws.TimeoutLeavesLegacyFormat | src/ncp.rs:337-346 | after a version command that timed out, a stack status report is queued as an unknown callback of another id; without the stale format it is the status |
| RuntimeLaws.DispatchAdds | src/ncp.rs:437-486 | one payload adds its own callback to the queue; a flagged payload, decodable or not, answers no command and changes nothing else |
| RuntimeLaws.HandleAllDelivers | src/ncp.rs:412-434 | whether or not a reply fails, log and record gain exactly what the connection delivers from the outputs handled, in order; all are handled unless a reply cannot be written |
| RuntimeLaws.PumpStops | src/ncp.rs:385-409 | the read loop takes chunks in order, none after the deadline, and misses its goal only when reads are used up or the deadline has passed |
| RuntimeLaws.PumpReadsNoFurther | src/ncp.rs:391-394 | and it reads nothing once its goal is reached |
| RuntimeLaws.EncodesUpTo130 | src/ash/codec.rs:105-110 | a frame can be written if and only if it is not data or carries at most 130 bytes |
| CommandLaws.CommandIsSound | src/ncp.rs:261-347 | a command succeeds only on the first payload delivered after it was issued that answers it, read in its own header format, whose parameters its decoder consumes to the last byte; nothing stays pending or parked |
| CommandLaws.CommandSucceedsExactly | src/ncp.rs:261-347 | from a clean state, over every script, a sendable command returns v if and only if the first delivery that answers it was read in its header format and decodes to v with nothing left over |
| OutcomeLaws.CommandFollowsReading | src/ncp.rs:261-347 | from a clean state and any decoder state, over every script, a sendable command returns what a reference reading of the bytes says: the first answer decoded, a reset when a read leaves the link down without one, a timeout otherwise |
| OutcomeLaws.CommandReturnsExactly | src/ncp.rs:313-336 | it returns v if and only if the first answering payload that the connection delivers from the bytes decodes to v and nothing more, whatever callbacks and stale frames come first |
| OutcomeLaws.CutsDoNotMatter | src/ncp.rs:385-434 | while no frame takes the link down, the outcome is the first answer in the whole stream before the deadline, however the reads cut it |
| OutcomeLaws.LinkFallsExactly | src/ash/state.rs:182-253 | after one decoded item the link is up if and only if the item is an RSTACK, or it was up and the item is neither an ERROR nor a NAK that leaves a head sent three times |
| OutcomeLaws.LinkDownExactly | src/ash/state.rs:182-294 | a connected link is down after a read if and only if a frame of the read took it down with no RSTACK behind it |
| CommandLaws.DispatchFilesOrAnswers | src/ncp.rs:460-468 | filing a payload leaves the pending command and the response slot alone, or is the answer to the one and fills the other |
| CommandLaws.CommandLeavesClean | src/ncp.rs:261-347 | from a clean state a command leaves the runtime clean, answered or not, if and only if it was refused for its version or could be sent |
| CommandLaws.UnsendableReports | src/ncp.rs:276-311 | why an unsendable command fails: its body, 218 bytes, the link, a window of seven, or 130 bytes, in that order |
| CommandLaws.UnavailableReports | src/ncp.rs:262-267 | a command its version does not have is refused and changes nothing |
| CommandLaws.PumpSucceeds | src/ncp.rs:385-434 | while nothing unwritable is in flight, no byte stream makes the read loop fail |
| CommandLaws.PendingBlocks | src/ezsp/correlation.rs:149-154 | while a command is pending every further one is refused and changes nothing |
| OutcomeLaws.UnansweredCommand | src/ncp.rs:337-346 | a sendable command without an answer reports a reset if and only if a frame before the deadline takes the link down with no RSTACK behind it in its read, a timeout otherwise; without ERROR or NAK always a timeout |
| OutcomeLaws.RstAckReadsAsTimeout | src/ncp.rs:337-346 | a command that meets one RSTACK and then its deadline reports a timeout |
| OutcomeLaws.ErrorReadsAsReset | src/ncp.rs:337-346 | one that meets an ERROR reports a reset |
| CommandLaws.ConnectLeavesClean | src/ncp.rs:110-138 | a successful connection is clean |
| CommandLaws.SessionsStayClean | src/ncp.rs:261-368 | a session whose commands are all sendable or refused for their version is clean after every action, so each of its commands is covered by the soundness theorem |
| NegotiationLaws.VersionRequestBytes | src/ncp.rs:269-281 | the exact bytes of a version request in each format |
| NegotiationLaws.VersionExchange | src/ncp.rs:159-198 | a successful version command handed over exactly one request and rests on the first later answer to it, read in the request's header format |
| NegotiationLaws.NegotiationIsSound | src/ncp.rs:159-198 | negotiation succeeds only with a supported version from a mesh stack; the offer is the one legacy request, and a second, extended one carrying the agreed number goes out exactly when it differs from the offer and is confirmed by an answer that comes after the offer's |
| NegotiationLaws.ConnectIsSound | src/ncp.rs:110-138 | whatever the port yields, a connection comes up only after a completed reset followed by such a negotiation, and runs the version and firmware the last answer reported |
| ResetLaws.ResetFollowsReading | src/ncp.rs:225-252 | from every state and over every script a reset completes, stops reading and writes as many RSTs as a reference reading of the bytes says |
| ResetLaws.LinkUpExactly | src/ash/state.rs:184-204 | a read brings a link that is down up if and only if it contains an RSTACK with no ERROR behind it, whatever else it contains |
| ResetLaws.ListenByFrames | src/ncp.rs:233-246 | so an attempt completes at the first read, before its deadline, that contains such an RSTACK |
| ResetLaws.ResetTriesFiveTimes | src/ncp.rs:225-252 | unless a handshake is under way a reset writes one to five RSTs, five if it fails; a connection that has used up its five handshakes writes none and fails |
| ConnectLaws.ConnectFollowsReading | src/ncp.rs:110-198 | over every script `connect` succeeds with a version and firmware, or fails with an error, exactly as a reading of the bytes says, and hands over exactly the requests it says |
| ConnectLaws.ConnectRefuses | src/ncp.rs:165-175 | an answer to the offer from anything but a mesh stack (type 2) running 13 to 19 ends the connection with its version, and no second request goes out |
| ConnectLaws.NegotiationFollowsReading | src/ncp.rs:159-198 | the same for the negotiation after any completed reset |
| ConnectLaws.ResetFollowsPositions | src/ncp.rs:225-252 | a reset completes exactly where the reading of the line comes up, with its connection, decoder and unread input |
| ConnectLaws.PerformHears | src/ncp.rs:313-347 | a command leaves connection, decoder and unread input as the reading of the bytes leaves them |
| AnswerLaws.ConnectsExactlyToSupported | src/ncp.rs:103-138 | a version and firmware can be connected with, given the right bytes on the line, if and only if the version is one of 13 to 19 |
| NegotiationLaws.LegacyOncePerReset | src/ncp.rs:269-309 | over every session at most one legacy request goes out between two completed resets, and it is a version request |

## Left out

- Serial port, timers, async scheduling, logging and redaction: a read is a chunk or a deadline, a write always succeeds, transport errors do not occur.
- Frames of an old epoch that arrive across a reset: the link theorems start with both sides just past RSTACK and lines empty; the runtime theorems allow anything to arrive but claim no delivery order across resets.
- Liveness: a deadline may come at any point, so no theorem says that an answer or a payload eventually arrives.
- The peer in the link theorems, and the NCP in `PeerLaws`, run the same connection code; its side of the line is just past RSTACK.
- ByteLinks.BytesArriveInOrder: unmarked damage keeps the number of a frame's unstuffed bytes and spans at most sixteen bits of them; wider damage, which the CRC need not catch, and damage that makes or destroys a FLAG are left out.
- AshLinks.RunRefinesIdeal: lines lose frames but do not reorder them, because positional retirement is right only when acknowledgements are never stale.
- OwnershipLaws.CommandsGetTheirOwnAnswers: which command a response was produced for is given from outside, constrained only by the lateness bound and by carrying that command's sequence byte and id; a response to a command from before the last completed reset is left out.
- Correlators.AnswersAreOwn: assumes that an NCP response echoes sequence and id of a command of this epoch and is fewer than 256 commands late; the order of responses is not assumed.
- The identity of a response beyond its echo: two commands with one id and one sequence byte are told apart only by the bound above.
- Where a cursor stands, and what a writer holds, after a composite decoder or encoder has failed: callers discard both.
- The other commands of `src/ezsp/command.rs` and the types of `src/types/network.rs` and `src/types/security.rs`: flat fixed-width fields.
- `src/transport/fake.rs`, examples, fuzz targets and tests.
- Error texts and the error kinds no modelled code returns.
- The stack type and firmware number are not interpreted beyond the mesh check.
