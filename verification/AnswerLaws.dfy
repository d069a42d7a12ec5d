/** That connections can be had: what an NCP that answers makes of a reset and a negotiation. */
module AnswerLaws {
  import opened Basics
  import opened AshFrames
  import opened AshConnections
  import opened AshCodec
  import opened EzspCodec
  import opened EzspFrames
  import opened Runtimes
  import opened RuntimeInduction
  import opened RuntimeLaws
  import opened CommandLaws
  import opened NegotiationLaws
  import AshStreams
  import Correlators

  /** To a decoder at rest the bytes amount to this one frame. */
  predicate Delivers(bytes: Bytes, frame: AshFrame) {
    Fed(EMPTY, bytes) == (EMPTY, [Frame(frame)])
  }

  lemma LineDelivers(frame: AshFrame)
    requires frame.Portable()
    ensures Delivers(Line(frame), frame)
  {
    AshStreams.PortableIsEncoded(frame);
    AshStreams.RoundTripExactlyWhenPortable(frame);
  }

  lemma HandleOne(n: Runtime, item: AshCodec.Decoded)
    ensures HandleAll(n, [item]) == Handle(n, item)
  {
    assert [item][1..] == [];
    var (m, r) := Handle(n, item);
    assert HandleAll(m, []) == (m, Ok(()));
  }

  lemma ConsumeOne(n: Runtime, bytes: Bytes, frame: AshFrame)
    requires n.decoder == EMPTY && Delivers(bytes, frame)
    ensures Consume(n, bytes) == Handle(n, Frame(frame))
  {
    assert n.(decoder := EMPTY) == n;
    HandleOne(n, Frame(frame));
  }

  /** If one frame reaches the goal, the read loop stops right after it. */
  lemma PumpOne(n: Runtime, bytes: Bytes, rest: seq<Read>, goal: Goal, frame: AshFrame)
    requires n.decoder == EMPTY && Delivers(bytes, frame) && !Reached(n, goal)
    requires var (m, r) := Handle(n, Frame(frame)); r.Ok? && Reached(m, goal)
    ensures Pump(n, [Chunk(bytes)] + rest, goal) == (Handle(n, Frame(frame)).0, rest, Ok(()))
  {
    ConsumeOne(n, bytes, frame);
    var script := [Chunk(bytes)] + rest;
    assert script[1..] == rest;
    PumpFirst(n, script, goal);
  }

  // ---------------------------------------------------------------------------------------------
  // One answer, in one read.

  /** A response frame's bytes. */
  function ResponseBytes(format: HeaderFormat, sequence: u8, low: bv8, id: FrameId, parameters: Bytes): Bytes {
    (match format
     case Legacy => [sequence as bv8, low, LowByte(id)]
     case Extended => [sequence as bv8, low, 0x01, LowByte(id), HighByte(id)]) + parameters
  }

  /** The control byte of a response that is not a callback. */
  predicate IsResponseByte(low: bv8) {
    FromLowByte(low).direction == Response && !FromLowByte(low).isCallback
  }

  lemma ResponseParses(format: HeaderFormat, sequence: u8, low: bv8, id: FrameId, parameters: Bytes)
    requires format.Legacy? ==> FitsLegacy(id)
    requires |ResponseBytes(format, sequence, low, id, parameters)| <= 218
    ensures Parse(ResponseBytes(format, sequence, low, id, parameters), format)
            == Ok(EzspFrame(sequence, FromLowByte(low), id, parameters))
  {
    LengthByte(sequence);
    IdRoundTrip(id);
    var bytes := ResponseBytes(format, sequence, low, id, parameters);
    assert bytes[format.ByteLen()..] == parameters;
  }

  lemma DispatchAnswer(n: Runtime, payload: Bytes, format: HeaderFormat, p: Correlators.Pending, parameters: Bytes)
    requires n.correlator.pending == Some(p) && n.pendingFormat == Some(format)
    requires AnswerTo(payload, format, p) == Some(parameters)
    ensures var m := Dispatch(n, payload);
            m == n.(log := m.log, correlator := n.correlator.(pending := None), response := Some(parameters),
                    pendingFormat := None)
  {
  }

  lemma HandleAnswer(n: Runtime, frame: AshFrame, format: HeaderFormat, p: Correlators.Pending, parameters: Bytes)
    requires n.correlator.pending == Some(p) && n.pendingFormat == Some(format)
    requires frame.Data? && frame.frameNum == n.ash.nextRxFrame 
    requires AnswerTo(frame.payload, format, p) == Some(parameters)
    ensures var (m, r) := Handle(n, Frame(frame));
            && r.Ok?
            && m == n.(log := m.log, arrived := m.arrived, written := m.written, ash := OnFrame(n.ash, frame).0,
                       correlator := n.correlator.(pending := None), response := Some(parameters),
                       pendingFormat := None)
  {
    var (received, payload, outbound) := Received(n, frame);
    var (replied, r) := Reply(received, outbound);
    DispatchAnswer(replied, frame.payload, format, p, parameters);
  }

  /** What `Issue` leaves of a sendable command. */
  lemma IssueSendable<R>(n: Runtime, command: CommandSpec<R>)
    requires Clean(n) && command.available(n.version) && Sendable(n, command)
    ensures var (m, r) := Issue(n, command);
            var bytes := RequestBytes(n, command, n.correlator.nextSequence);
            && r.Ok? && bytes.Ok?
            && m == n.(ash := SendData(n.ash, bytes.value, MAX_WINDOW).0,
                       correlator := Correlators.Begun(n.correlator, command.id).0,
                       pendingFormat := Some(FormatFor(n, command.id)),
                       initialVersionSent := n.initialVersionSent || FormatFor(n, command.id).Legacy?,
                       written := m.written, begun := m.begun, sent := m.sent)
  {
    IssueExactlySendable(n, command);
  }

  lemma ConcludeAnswered<R>(n: Runtime, command: CommandSpec<R>, parameters: Bytes, value: R)
    requires n.response == Some(parameters) && command.parse(parameters, n.version) == Ok((value, []))
    ensures Conclude(n, command, Ok(())) == (n.(response := None), Ok(value))
  {
  }

  /** The state after a command whose answer is the next thing to arrive. */
  lemma AnswerInOneRead<R>(n: Runtime, bytes: Bytes, rest: seq<Read>, command: CommandSpec<R>, frame: AshFrame,
                           parameters: Bytes, value: R)
    requires Clean(n) && n.decoder == EMPTY && command.available(n.version) && Sendable(n, command)
    requires Delivers(bytes, frame) && frame.Data? && frame.frameNum == n.ash.nextRxFrame
    requires AnswerTo(frame.payload, FormatFor(n, command.id), NextPending(n, command)) == Some(parameters)
    requires command.parse(parameters, n.version) == Ok((value, []))
    ensures var (m, left, r) := Perform(n, [Chunk(bytes)] + rest, command);
            && left == rest && r == Ok(value)
            && m == n.(ash := OnFrame(Issue(n, command).0.ash, frame).0,
                       correlator := n.correlator.(nextSequence := Wrapping(n.correlator.nextSequence)),
                       pendingFormat := None,
                       initialVersionSent := n.initialVersionSent || FormatFor(n, command.id).Legacy?,
                       written := m.written, begun := m.begun, sent := m.sent, arrived := m.arrived, log := m.log)
  {
    var issued := Issue(n, command).0;
    IssueSendable(n, command);
    var p := NextPending(n, command);
    HandleAnswer(issued, frame, FormatFor(n, command.id), p, parameters);
    PumpOne(issued, bytes, rest, ForResponse, frame);
    ConcludeAnswered(Handle(issued, Frame(frame)).0, command, parameters, value);
  }

  lemma PumpRstAck(w: Runtime, bytes: Bytes, rest: seq<Read>, version: bv8, code: bv8)
    requires w.decoder == EMPTY && !w.ash.state.Connected? && Delivers(bytes, RstAck(version, code))
    ensures Pump(w, [Chunk(bytes)] + rest, ForConnection) == (w.(ash := ESTABLISHED), rest, Ok(()))
  {
    assert w.arrived + [] == w.arrived;
    assert Handle(w, Frame(RstAck(version, code))) == (w.(ash := ESTABLISHED), Ok(()));
    PumpOne(w, bytes, rest, ForConnection, RstAck(version, code));
  }

  /** The state after a reset whose RSTACK is the next thing to arrive. */
  lemma RstAckInOneRead(n: Runtime, bytes: Bytes, rest: seq<Read>, attempts: nat, version: bv8, code: bv8)
    requires attempts > 0 && BeginReset(n.ash).1.Send? && Delivers(bytes, RstAck(version, code))
    ensures ResetWithin(n, [Chunk(bytes)] + rest, attempts)
            == (ResetCompleted(ResetSent(n).(ash := ESTABLISHED)), rest, Ok(()))
  {
    var script := [Chunk(bytes)] + rest;
    PumpRstAck(ResetSent(n), bytes, rest, version, code);
    ResetAttemptCases(n, script);
    assert ResetAttempt(n, script) == (ResetCompleted(ResetSent(n).(ash := ESTABLISHED)), rest, Completed);
  }

  // ---------------------------------------------------------------------------------------------
  // Every supported version can be connected to.

  /** The parameters of a version response. */
  function PutVersion(v: VersionResponse): Bytes {
    [v.protocolVersion.raw, v.stackType, Low16(v.stackVersion), High16(v.stackVersion)]
  }

  lemma VersionPrinted(v: VersionResponse, version: ProtocolVersion)
    ensures ParseVersion(PutVersion(v), version) == Ok((v, []))
  {
    Join16Split(v.stackVersion);
    assert PutVersion(v)[1..][1..][2..] == [];
  }

  const RESPONSE: bv8 := 0x80

  lemma ResponseByte()
    ensures IsResponseByte(RESPONSE)
  {
  }

  /** The frame that answers version command number `sequence` with `v`. */
  function VersionAnswer(format: HeaderFormat, sequence: u8, v: VersionResponse): AshFrame {
    Data(sequence, 0, false, ResponseBytes(format, sequence, RESPONSE, VERSION, PutVersion(v)))
  }

  lemma VersionAnswerAnswers(format: HeaderFormat, sequence: u8, v: VersionResponse)
    requires sequence < 8
    ensures AnswerTo(VersionAnswer(format, sequence, v).payload, format, Correlators.Pending(sequence, VERSION))
            == Some(PutVersion(v))
    ensures VersionAnswer(format, sequence, v).Portable()
  {
    ResponseByte();
    ResponseParses(format, sequence, RESPONSE, VERSION, PutVersion(v));
  }

  /** Just reset, or past the offer: the counters stand at `sequence`. */
  predicate AtExchange(n: Runtime, sequence: u8) {
    && Clean(n) && n.decoder == EMPTY && n.ash.state.Connected? && |n.ash.inFlight| <= sequence
    && n.ash.nextRxFrame == n.correlator.nextSequence == sequence
    && (n.initialVersionSent <==> sequence > 0) && n.callbacks == []
  }

  lemma OnAnswer(e: Endpoint, frame: AshFrame)
    requires frame.Data? && frame.frameNum == e.nextRxFrame < 7
    ensures var e' := OnFrame(e, frame).0;
            && e'.state == e.state && e'.nextRxFrame == e.nextRxFrame + 1 && |e'.inFlight| <= |e.inFlight|
            && (Encodable(e) ==> Encodable(e'))
  {
  }

  lemma VersionSendable(n: Runtime, desired: ProtocolVersion)
    requires Clean(n) && n.ash.state.Connected? && |n.ash.inFlight| < 7
    ensures Sendable(n, VersionCommand(desired))
  {
    VersionRequestBytes(n, desired);
  }

  lemma ExchangeByAnswer(n: Runtime, bytes: Bytes, rest: seq<Read>, desired: ProtocolVersion, sequence: u8,
                         frame: AshFrame, parameters: Bytes, v: VersionResponse)
    requires sequence < 2 && AtExchange(n, sequence)
    requires Delivers(bytes, frame) && frame.Data? && frame.frameNum == sequence
    requires AnswerTo(frame.payload, if sequence == 0 then Legacy else Extended,
                      Correlators.Pending(sequence, VERSION)) == Some(parameters)
    requires ParseVersion(parameters, n.version) == Ok((v, []))
    ensures var (m, left, r) := Perform(n, [Chunk(bytes)] + rest, VersionCommand(desired));
            left == rest && r == Ok(v) && AtExchange(m, sequence + 1)
  {
    var command := VersionCommand(desired);
    VersionSendable(n, desired);
    AnswerInOneRead(n, bytes, rest, command, frame, parameters, v);
    CommandLeavesClean(n, [Chunk(bytes)] + rest, command);
    IssueSendable(n, command);
    OnAnswer(Issue(n, command).0.ash, frame);
  }

  /** One answered version exchange. */
  lemma VersionExchangeSucceeds(n: Runtime, bytes: Bytes, rest: seq<Read>, desired: ProtocolVersion, sequence: u8,
                                v: VersionResponse)
    requires sequence < 2 && AtExchange(n, sequence)
    requires Delivers(bytes, VersionAnswer(if sequence == 0 then Legacy else Extended, sequence, v))
    ensures var (m, left, r) := Perform(n, [Chunk(bytes)] + rest, VersionCommand(desired));
            left == rest && r == Ok(v) && AtExchange(m, sequence + 1)
  {
    var format := if sequence == 0 then Legacy else Extended;
    VersionPrinted(v, n.version);
    VersionAnswerAnswers(format, sequence, v);
    ExchangeByAnswer(n, bytes, rest, desired, sequence, VersionAnswer(format, sequence, v), PutVersion(v), v);
  }

  /** A successful negotiation, put together from its exchanges. */
  lemma NegotiateByExchanges(n: Runtime, script: seq<Read>, v: VersionResponse)
    requires v.protocolVersion.IsSupported() && v.stackType == STACK_TYPE_MESH
    requires Perform(n, script, VersionCommand(PREFERRED)).2 == Ok(v)
    requires var (m, left, _) := Perform(n, script, VersionCommand(PREFERRED));
             v.protocolVersion != PREFERRED ==> Perform(m, left, VersionCommand(v.protocolVersion)).2 == Ok(v)
    ensures var (m, left, r) := Perform(n, script, VersionCommand(PREFERRED));
            Negotiate(n, script)
            == if v.protocolVersion == PREFERRED then (m, left, r)
               else Perform(m, left, VersionCommand(v.protocolVersion))
  {
  }

  /** How many exchanges a negotiation with an NCP of this version takes. */
  function Exchanges(v: VersionResponse): u8 {
    if v.protocolVersion == PREFERRED then 1 else 2
  }

  /** What is left to read after that many. */
  function Unread(v: VersionResponse, confirmation: Bytes, rest: seq<Read>): seq<Read> {
    if v.protocolVersion == PREFERRED then [Chunk(confirmation)] + rest else rest
  }

  lemma NegotiationSucceeds(n: Runtime, offer: Bytes, confirmation: Bytes, rest: seq<Read>, v: VersionResponse)
    requires AtExchange(n, 0)
    requires v.protocolVersion.IsSupported() && v.stackType == STACK_TYPE_MESH
    requires Delivers(offer, VersionAnswer(Legacy, 0, v)) && Delivers(confirmation, VersionAnswer(Extended, 1, v))
    ensures var (m, left, r) := Negotiate(n, [Chunk(offer)] + ([Chunk(confirmation)] + rest));
            r == Ok(v) && left == Unread(v, confirmation, rest) && AtExchange(m, Exchanges(v))
  {
    var later := [Chunk(confirmation)] + rest;
    var script := [Chunk(offer)] + later;
    VersionExchangeSucceeds(n, offer, later, PREFERRED, 0, v);
    if v.protocolVersion != PREFERRED {
      var m := Perform(n, script, VersionCommand(PREFERRED)).0;
      VersionExchangeSucceeds(m, confirmation, rest, v.protocolVersion, 1, v);
    }
    NegotiateByExchanges(n, script, v);
  }

  /** What an NCP running version `v` puts on the line: its reset report, its answer to the offer,
      its answer to the second exchange, which stays unread when the offer is what it runs, and
      then `rest`. */
  function AnsweringNcp(v: VersionResponse, rest: seq<Read>): seq<Read> {
    [Chunk(Line(RstAck(2, 0x0b)))]
    + ([Chunk(Line(VersionAnswer(Legacy, 0, v)))] + ([Chunk(Line(VersionAnswer(Extended, 1, v)))] + rest))
  }

  /** Connected to an NCP of version `v` at rest, with nothing queued. */
  predicate ConnectedTo(n: Runtime, v: VersionResponse) {
    && Clean(n) && n.decoder == EMPTY && n.ash.state.Connected? && n.callbacks == []
    && n.version == v.protocolVersion && n.stackVersion == v.stackVersion
  }

  lemma AnsweringNcpConnects(v: VersionResponse, rest: seq<Read>)
    requires v.protocolVersion.IsSupported() && v.stackType == STACK_TYPE_MESH
    ensures var (m, left, r) := Connect(AnsweringNcp(v, rest));
            r.Ok? && left == Unread(v, Line(VersionAnswer(Extended, 1, v)), rest) && ConnectedTo(m, v)
  {
    var offer, confirmation := Line(VersionAnswer(Legacy, 0, v)), Line(VersionAnswer(Extended, 1, v));
    VersionAnswerAnswers(Legacy, 0, v);
    VersionAnswerAnswers(Extended, 1, v);
    LineDelivers(RstAck(2, 0x0b));
    LineDelivers(VersionAnswer(Legacy, 0, v));
    LineDelivers(VersionAnswer(Extended, 1, v));
    ConnectByAnswers(Line(RstAck(2, 0x0b)), offer, confirmation, rest, v);
  }

  lemma ConnectByAnswers(up: Bytes, offer: Bytes, confirmation: Bytes, rest: seq<Read>, v: VersionResponse)
    requires v.protocolVersion.IsSupported() && v.stackType == STACK_TYPE_MESH
    requires Delivers(up, RstAck(2, 0x0b))
    requires Delivers(offer, VersionAnswer(Legacy, 0, v)) && Delivers(confirmation, VersionAnswer(Extended, 1, v))
    ensures var (m, left, r) := Connect([Chunk(up)] + ([Chunk(offer)] + ([Chunk(confirmation)] + rest)));
            r.Ok? && left == Unread(v, confirmation, rest) && ConnectedTo(m, v)
  {
    var later := [Chunk(offer)] + ([Chunk(confirmation)] + rest);
    RstAckInOneRead(NEW, up, later, MAX_RESET_ATTEMPTS, 2, 0x0b);
    NegotiationSucceeds(ResetCompleted(ResetSent(NEW).(ash := ESTABLISHED)), offer, confirmation, rest, v);
  }

  /** Some port makes a host connect with this version and firmware. */
  ghost predicate CanConnect(version: ProtocolVersion, stackVersion: bv16) {
    exists script ::
      var (m, _, r) := Connect(script);
      r.Ok? && m.version == version && m.stackVersion == stackVersion
  }

  lemma ConnectedVersionIsSupported(script: seq<Read>)
    requires Connect(script).2.Ok?
    ensures 13 <= Connect(script).0.version.raw <= 19
  {
    ConnectIsSound(script);
  }

  /** The versions a host can end up connected with are exactly those from 13 to 19. */
  lemma ConnectsExactlyToSupported(version: ProtocolVersion, stackVersion: bv16)
    ensures CanConnect(version, stackVersion) <==> 13 <= version.raw <= 19
  {
    if 13 <= version.raw <= 19 {
      AnsweringNcpConnects(VersionResponse(version, STACK_TYPE_MESH, stackVersion), []);
    } else if CanConnect(version, stackVersion) {
      var script :| var (m, _, r) := Connect(script); r.Ok? && m.version == version && m.stackVersion == stackVersion;
      ConnectedVersionIsSupported(script);
      assert false;
    }
  }
}
