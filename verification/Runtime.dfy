/** The runtime as a value: what each of its operations does to the connection, the decoder, the
    correlator and the callback queue, given what the serial port delivers.

    A `script` lists what the port yields, read by read; a `Deadline` (or the end of the script)
    is a timeout. Writing to the port always succeeds. */
module Runtimes {
  import opened Basics
  import opened AshFrames
  import opened AshConnections
  import opened AshCodec
  import opened EzspCodec
  import opened EzspFrames
  import opened Callbacks
  import Correlators

  const STACK_TYPE_MESH: bv8 := 0x02

  datatype Read = Chunk(bytes: Bytes) | Deadline

  /** One payload filed: the header format and version it was read under, and what was pending. */
  datatype Delivery = Delivery(
    payload: Bytes,
    format: HeaderFormat,
    version: ProtocolVersion,
    pending: Option<Correlators.Pending>)

  /** A command that took a sequence number: its header format, how many payloads had been filed, its
      number and id, and how often the numbering had started over. */
  datatype Begun = Begun(format: HeaderFormat, from: nat, pending: Correlators.Pending, restarts: nat)

  /** One EZSP frame handed to ASH, or a completed reset. */
  datatype Sent = Request(format: HeaderFormat, frame: Bytes) | ResetDone

  /** The runtime's fields, the bytes written to the port, and what happened so far: the payloads ASH
      returned, the payloads filed, the commands begun, how often their numbering started over, and
      the requests handed to ASH. */
  datatype Runtime = Runtime(
    ash: Endpoint,
    decoder: Partial,
    correlator: Correlators.Correlation,
    version: ProtocolVersion,
    stackVersion: bv16,
    callbacks: seq<Callback>,
    response: Option<Bytes>,
    initialVersionSent: bool,
    pendingFormat: Option<HeaderFormat>,
    written: seq<Bytes>,
    arrived: seq<Bytes>,
    log: seq<Delivery>,
    begun: seq<Begun>,
    restarts: nat,
    sent: seq<Sent>)

  const NEW := Runtime(FRESH, EMPTY, Correlators.IDLE, PREFERRED, 0, [], None, false, None, [], [], [], [], 0, [])

  /** A command: its id, its body at a version, the decoder of its response, and the versions that
      have it. */
  datatype CommandSpec<!R> = CommandSpec(
    id: FrameId,
    body: ProtocolVersion -> Result<Bytes, EzspError>,
    parse: (Bytes, ProtocolVersion) -> Parsed<R>,
    available: ProtocolVersion -> bool)

  // ---------------------------------------------------------------------------------------------
  // Receiving.

  /** What is done with a classified frame. */
  function Filed(n: Runtime, classified: Correlators.Classified): Runtime {
    match classified
    case Answer(parameters) => n.(response := Some(parameters), pendingFormat := None)
    case Async(id, parameters) =>
      (match Callbacks.Decoded(id, parameters, n.version)
       case Ok(callback) => n.(callbacks := n.callbacks + [callback])
       case Err(_) => n)
    case Stale(_, _) => n
  }

  /** Files one EZSP payload. */
  function Dispatch(n: Runtime, payload: Bytes): Runtime {
    var format := if n.pendingFormat.Some? then n.pendingFormat.value else Extended;
    var n := n.(log := n.log + [Delivery(payload, format, n.version, n.correlator.pending)]);
    match Parse(payload, format)
    case Err(_) => n
    case Ok(frame) =>
      var (correlator, classified) := Correlators.Classify(n.correlator, frame);
      Filed(n.(correlator := correlator), classified)
  }

  function WriteFrame(n: Runtime, frame: AshFrame): (Runtime, Result<(), EzspError>) {
    match Encoded(frame)
    case Ok(bytes) => (n.(written := n.written + [bytes]), Ok(()))
    case Err(error) => (n, Err(AshFailure(error)))
  }

  function Reply(n: Runtime, outbound: Outbound): (Runtime, Result<(), EzspError>) {
    match outbound
    case Send(frame) => WriteFrame(n, frame)
    case Nothing => (n, Ok(()))
  }

  /** What ASH makes of a frame; a payload it returns is recorded. */
  function Received(n: Runtime, frame: AshFrame): (Runtime, Option<Bytes>, Outbound) {
    var (ash, payload, outbound) := OnFrame(n.ash, frame);
    (n.(ash := ash, arrived := n.arrived + (if payload.Some? then [payload.value] else [])), payload, outbound)
  }

  /** One item the decoder put out: the reply is written before the payload is filed. */
  function Handle(n: Runtime, item: AshCodec.Decoded): (Runtime, Result<(), EzspError>) {
    match item
    case Frame(frame) =>
      var (n, payload, outbound) := Received(n, frame);
      var (n, r) := Reply(n, outbound);
      if r.Ok? && payload.Some? then (Dispatch(n, payload.value), r) else (n, r)
    case Rejected(error) =>
      var (ash, outbound) := OnDecodeFailure(n.ash, error);
      Reply(n.(ash := ash), outbound)
  }

  /** Items in order; the first failed reply drops the rest. */
  function HandleAll(n: Runtime, items: seq<AshCodec.Decoded>): (Runtime, Result<(), EzspError>)
    decreases |items|
  {
    if items == [] then (n, Ok(()))
    else
      var (n, r) := Handle(n, items[0]);
      if r.Err? then (n, r) else HandleAll(n, items[1..])
  }

  function Consume(n: Runtime, bytes: Bytes): (Runtime, Result<(), EzspError>) {
    var (decoder, items) := Fed(n.decoder, bytes);
    HandleAll(n.(decoder := decoder), items)
  }

  /** What the read loop waits for. */
  datatype Goal = ForConnection | ForResponse | ForCallback

  predicate Reached(n: Runtime, goal: Goal) {
    match goal
    case ForConnection => n.ash.state.Connected?
    case ForResponse => n.response.Some? || !n.ash.state.Connected?
    case ForCallback => n.callbacks != []
  }

  /** Reads until the goal is reached, the deadline passes, or handling fails. */
  function Pump(n: Runtime, script: seq<Read>, goal: Goal): (Runtime, seq<Read>, Result<(), EzspError>)
    decreases |script|
  {
    if Reached(n, goal) || script == [] then (n, script, Ok(()))
    else if script[0].Deadline? then (n, script[1..], Ok(()))
    else
      var (n, r) := Consume(n, script[0].bytes);
      if r.Err? then (n, script[1..], r) else Pump(n, script[1..], goal)
  }

  // ---------------------------------------------------------------------------------------------
  // Commands.

  function FormatFor(n: Runtime, id: FrameId): HeaderFormat {
    if id == VERSION && !n.initialVersionSent then Legacy else Extended
  }

  /** The bytes of a request in a given header format. */
  function RequestIn<R>(format: HeaderFormat, version: ProtocolVersion, command: CommandSpec<R>, sequence: u8)
    : Result<Bytes, EzspError>
  {
    var header :- Header(sequence, command.id, format);
    var body :- command.body(version);
    if |header + body| > MAX_FRAME_LENGTH then Err(FrameTooLong(|header + body|, MAX_FRAME_LENGTH))
    else Ok(header + body)
  }

  function RequestBytes<R>(n: Runtime, command: CommandSpec<R>, sequence: u8): Result<Bytes, EzspError> {
    RequestIn(FormatFor(n, command.id), n.version, command, sequence)
  }

  /** Handing a request to ASH. */
  function Transmitted(n: Runtime, format: HeaderFormat, request: Bytes): (Runtime, Result<(), EzspError>) {
    var (ash, data) := SendData(n.ash, request, MAX_WINDOW);
    if data.Err? then (n, Err(AshFailure(data.error))) else
    WriteFrame(n.(ash := ash, sent := n.sent + [Request(format, request)]), data.value)
  }

  /** The sequence number and id under which the next command goes out. */
  function NextPending<R>(n: Runtime, command: CommandSpec<R>): Correlators.Pending {
    Correlators.Pending(n.correlator.nextSequence, command.id)
  }

  function NewCommand<R>(n: Runtime, command: CommandSpec<R>): Begun {
    Begun(FormatFor(n, command.id), |n.log|, NextPending(n, command), n.restarts)
  }

  /** Taking a sequence number. */
  function Started<R>(n: Runtime, command: CommandSpec<R>): (Runtime, Result<u8, EzspError>) {
    var format := FormatFor(n, command.id);
    var (correlator, begun) := Correlators.Begun(n.correlator, command.id);
    if begun.Err? then (n, begun)
    else
      (n.(correlator := correlator, pendingFormat := Some(format), begun := n.begun + [NewCommand(n, command)]),
       begun)
  }

  /** Building the request and handing it over. */
  function Submitted<R>(n: Runtime, command: CommandSpec<R>, sequence: u8): (Runtime, Result<(), EzspError>) {
    var format := FormatFor(n, command.id);
    var bytes := RequestBytes(n, command, sequence);
    if bytes.Err? then (n, Err(bytes.error))
    else
      Transmitted(n.(initialVersionSent := n.initialVersionSent || format.Legacy?), format, bytes.value)
  }

  /** Everything up to the read loop. */
  function Issue<R>(n: Runtime, command: CommandSpec<R>): (Runtime, Result<(), EzspError>) {
    if !command.available(n.version) then
      (n, Err(UnsupportedCommand(command.id, n.version)))
    else
      var (n, sequence) := Started(n, command);
      if sequence.Err? then (n, Err(sequence.error)) else Submitted(n, command, sequence.value)
  }

  /** With the link down the numbering starts over and a pending command is lost. */
  function LossNoted(n: Runtime): (Runtime, Result<(), EzspError>) {
    if n.ash.state.Connected? then (n, Ok(()))
    else
      var (correlator, lost) := Correlators.Abandoned(n.correlator);
      (n.(correlator := correlator, restarts := n.restarts + 1), lost)
  }

  /** After the read loop. */
  function Conclude<R>(n: Runtime, command: CommandSpec<R>, outcome: Result<(), EzspError>)
    : (Runtime, Result<R, EzspError>)
  {
    if outcome.Ok? && n.response.Some? then
      var parsed := command.parse(n.response.value, n.version);
      (n.(response := None),
       if parsed.Err? then Err(parsed.error)
       else if |parsed.value.1| != 0 then Err(TrailingBytes(command.id, |parsed.value.1|))
       else Ok(parsed.value.0))
    else
      var (n, lost) := LossNoted(n);
      if lost.Err? then (n, Err(lost.error))
      else if outcome.Err? then (n, Err(outcome.error))
      else
        var (correlator, late) := Correlators.TimedOut(n.correlator);
        (n.(correlator := correlator), Err(if late.Err? then late.error else EzspError.Timeout(command.id)))
  }

  function Perform<R>(n: Runtime, script: seq<Read>, command: CommandSpec<R>)
    : (Runtime, seq<Read>, Result<R, EzspError>)
  {
    var (n, issued) := Issue(n, command);
    if issued.Err? then (n, script, Err(issued.error))
    else
      var (n, script, outcome) := Pump(n, script, ForResponse);
      var (n, r) := Conclude(n, command, outcome);
      (n, script, r)
  }

  // ---------------------------------------------------------------------------------------------
  // Reset, negotiation, polling.

  /** How one try at the reset handshake ends. */
  datatype Handshake = Completed | Unanswered | Hopeless(error: EzspError)

  /** The NCP has answered a reset: everything starts over. */
  function ResetCompleted(n: Runtime): Runtime {
    n.(correlator := Correlators.IDLE, restarts := n.restarts + 1, initialVersionSent := false,
       sent := n.sent + [ResetDone])
  }

  /** Waiting for the answer to an RST. */
  function RstAwaited(n: Runtime, script: seq<Read>): (Runtime, seq<Read>, Handshake) {
    var (n, script, outcome) := Pump(n, script, ForConnection);
    if outcome.Ok? && n.ash.state.Connected? then (ResetCompleted(n), script, Completed) else (n, script, Unanswered)
  }

  function ResetAttempt(n: Runtime, script: seq<Read>): (Runtime, seq<Read>, Handshake) {
    var (ash, outbound) := BeginReset(n.ash);
    var n := n.(decoder := EMPTY, ash := ash);
    if outbound.Nothing? then (n, script, Hopeless(AshFailure(ResetFailed))) else
    var (n, written) := WriteFrame(n, outbound.frame);
    if written.Err? then (n, script, Hopeless(written.error)) else RstAwaited(n, script)
  }

  /** At most `attempts` tries, each as `attempt` says. */
  function Tried(attempt: (Runtime, seq<Read>) -> (Runtime, seq<Read>, Handshake),
                 n: Runtime, script: seq<Read>, attempts: nat)
    : (Runtime, seq<Read>, Result<(), EzspError>)
    decreases attempts
  {
    if attempts == 0 then (n, script, Err(AshFailure(ResetFailed)))
    else
      var (n, script, handshake) := attempt(n, script);
      match handshake
      case Completed => (n, script, Ok(()))
      case Hopeless(error) => (n, script, Err(error))
      case Unanswered => Tried(attempt, n, script, attempts - 1)
  }

  /** `attempts` more tries. */
  function ResetWithin(n: Runtime, script: seq<Read>, attempts: nat): (Runtime, seq<Read>, Result<(), EzspError>) {
    Tried(ResetAttempt, n, script, attempts)
  }

  datatype VersionResponse = VersionResponse(protocolVersion: ProtocolVersion, stackType: bv8, stackVersion: bv16)

  function ParseVersion(s: Bytes, version: ProtocolVersion): Parsed<VersionResponse> {
    var (protocol, s) :- TakeU8(s);
    var (stackType, s) :- TakeU8(s);
    var (stackVersion, s) :- TakeU16(s);
    Ok((VersionResponse(ProtocolVersion(protocol), stackType, stackVersion), s))
  }

  function VersionCommand(desired: ProtocolVersion): CommandSpec<VersionResponse> {
    CommandSpec(VERSION, _ => Ok([desired.raw]), ParseVersion, _ => true)
  }

  function Negotiate(n: Runtime, script: seq<Read>): (Runtime, seq<Read>, Result<VersionResponse, EzspError>) {
    var (n, script, r) := Perform(n, script, VersionCommand(PREFERRED));
    if r.Err? then (n, script, r) else
    var first := r.value;
    if first.stackType != STACK_TYPE_MESH || !first.protocolVersion.IsSupported() then
      (n, script, Err(UnsupportedVersion(first.protocolVersion)))
    else if first.protocolVersion == PREFERRED then
      (n, script, r)
    else
      var (n, script, r) := Perform(n, script, VersionCommand(first.protocolVersion));
      if r.Err? then (n, script, r)
      else if r.value.protocolVersion != first.protocolVersion then
        (n, script, Err(UnsupportedVersion(r.value.protocolVersion)))
      else (n, script, r)
  }

  /** Negotiating, and adopting the result. */
  function Adopted(n: Runtime, script: seq<Read>): (Runtime, seq<Read>, Result<(), EzspError>) {
    var (n, script, r) := Negotiate(n, script);
    if r.Err? then (n, script, Err(r.error))
    else (n.(version := r.value.protocolVersion, stackVersion := r.value.stackVersion), script, Ok(()))
  }

  function Connect(script: seq<Read>): (Runtime, seq<Read>, Result<(), EzspError>) {
    var (n, script, r) := ResetWithin(NEW, script, MAX_RESET_ATTEMPTS);
    if r.Err? then (n, script, r) else Adopted(n, script)
  }

  function Poll(n: Runtime, script: seq<Read>): (Runtime, seq<Read>, Result<seq<Callback>, EzspError>) {
    var (n, script, r) := Pump(n, script, ForCallback);
    if r.Err? then (n, script, Err(r.error))
    else (n.(callbacks := []), script, Ok(n.callbacks))
  }

  // ---------------------------------------------------------------------------------------------
  // Sessions.

  /** What a client does with a connected runtime. */
  datatype Action<!R> = Do(command: CommandSpec<R>) | PollOnce | TakeQueue | ResetAgain

  /** The runtime, what the port still holds, and every callback handed to the client so far. */
  datatype Session = Session(n: Runtime, script: seq<Read>, taken: seq<Callback>)

  function ClientStep<R>(s: Session, action: Action<R>): Session {
    match action
    case Do(command) =>
      var (n, script, _) := Perform(s.n, s.script, command);
      Session(n, script, s.taken)
    case PollOnce =>
      var (n, script, r) := Poll(s.n, s.script);
      Session(n, script, if r.Ok? then s.taken + r.value else s.taken)
    case TakeQueue => Session(s.n.(callbacks := []), s.script, s.taken + s.n.callbacks)
    case ResetAgain =>
      var (n, script, _) := ResetWithin(s.n, s.script, MAX_RESET_ATTEMPTS);
      Session(n, script, s.taken)
  }

  function ClientRun<R>(script: seq<Read>, actions: seq<Action<R>>): Session {
    if actions == [] then
      var (n, script, _) := Connect(script);
      Session(n, script, [])
    else
      ClientStep(ClientRun(script, actions[..|actions| - 1]), actions[|actions| - 1])
  }
}
