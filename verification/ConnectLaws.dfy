/** What `connect` comes to, as a function of the bytes on the line alone. */
module ConnectLaws {
  import opened Basics
  import opened AshFrames
  import opened AshConnections
  import opened AshCodec
  import opened EzspCodec
  import opened EzspFrames
  import opened EzspWire
  import opened Runtimes
  import opened RuntimeInduction
  import opened RuntimeLaws
  import opened CommandLaws
  import opened OutcomeLaws
  import opened ResetLaws
  import opened NegotiationLaws
  import Correlators

  // ---------------------------------------------------------------------------------------------
  // The reading of one command, with what it leaves behind.

  /** The connection, the decoder and the reads that are left. */
  datatype Position = Position(end: Endpoint, decoder: Partial, left: seq<Read>)

  /** Where the reading of `Await` stops. */
  function Heard(at: Position, format: HeaderFormat, p: Correlators.Pending): Position
    decreases |at.left|
  {
    if at.left == [] then at
    else if at.left[0].Deadline? then at.(left := at.left[1..])
    else
      var (decoder, items) := Fed(at.decoder, at.left[0].bytes);
      var (end, payloads) := AshDelivered(at.end, items);
      var next := Position(end, decoder, at.left[1..]);
      if FirstAnswer(payloads, format, p).Some? || !end.state.Connected? then next else Heard(next, format, p)
  }

  /** The runtime stands at this position. */
  predicate StandsAt(n: Runtime, left: seq<Read>, at: Position) {
    n.ash == at.end && n.decoder == at.decoder && left == at.left
  }

  lemma {:induction false} PumpHears(n: Runtime, script: seq<Read>, format: HeaderFormat, p: Correlators.Pending)
    requires Waiting(n, format, p, None) && Encodable(n.ash) && n.ash.state.Connected?
    ensures var (m, left, _) := Pump(n, script, ForResponse);
            StandsAt(m, left, Heard(Position(n.ash, n.decoder, script), format, p))
    decreases |script|
  {
    if script != [] && script[0].Chunk? {
      var (decoder, items) := Fed(n.decoder, script[0].bytes);
      var fed := n.(decoder := decoder);
      HandleAllWaits(fed, items, format, p, None);
      HandleAllDecoder(fed, items);
      var m := HandleAll(fed, items).0;
      PumpFirst(n, script, ForResponse);
      if Reached(m, ForResponse) {
        assert Pump(m, script[1..], ForResponse) == (m, script[1..], Ok(()));
      } else {
        PumpHears(m, script[1..], format, p);
      }
    }
  }

  lemma ConcludeStays<R>(n: Runtime, command: CommandSpec<R>)
    ensures var m := Conclude(n, command, Ok(())).0; m.ash == n.ash && m.decoder == n.decoder
  {
  }

  /** A command leaves the runtime where the reading stops. */
  lemma PerformHears<R>(n: Runtime, script: seq<Read>, command: CommandSpec<R>)
    requires Clean(n) && command.available(n.version) && Sendable(n, command)
    ensures var (m, left, _) := Perform(n, script, command);
            StandsAt(m, left, Heard(Position(Requested(n, command), n.decoder, script), FormatFor(n, command.id),
                                    NextPending(n, command)))
  {
    var p, format := NextPending(n, command), FormatFor(n, command.id);
    IssueWaits(n, command);
    var issued := Issue(n, command).0;
    PumpAwaits(issued, script, format, p);
    PumpHears(issued, script, format, p);
    ConcludeStays(Pump(issued, script, ForResponse).0, command);
  }

  // ---------------------------------------------------------------------------------------------
  // The reading of a version exchange.

  /** Asking for a version: the request goes into the window, and the answer is awaited. */
  function Asked(end: Endpoint, request: Bytes): Endpoint {
    end.(nextTxFrame := NextSequence(end.nextTxFrame),
         inFlight := end.inFlight + [InFlight(end.nextTxFrame, request, 1)],
         ackPending := false)
  }

  /** The answer by its bytes: version, stack type and firmware, and nothing else. */
  function AnswerRead(outcome: Outcome): Result<VersionResponse, EzspError> {
    match outcome
    case LinkDown => Err(EzspError.NcpReset(0))
    case Expired => Err(EzspError.Timeout(0))
    case Answered(p) =>
      if |p| < 2 then Err(TruncatedFrame(1, 0))
      else if |p| < 4 then Err(TruncatedFrame(2, |p| - 2))
      else if |p| > 4 then Err(TrailingBytes(0, |p| - 4))
      else Ok(VersionResponse(ProtocolVersion(p[0]), p[1], Number16(p, 2)))
  }

  lemma AnswerByBytes(outcome: Outcome, desired: ProtocolVersion, version: ProtocolVersion)
    ensures ResultOf(outcome, VersionCommand(desired), version) == AnswerRead(outcome)
  {
    if outcome.Answered? {
      var p := outcome.parameters;
      VersionByOffset(p, version);
      assert p[0..] == p;
      U8ByOffset(p, 0);
      if |p| >= 1 { U8ByOffset(p, 1); }
      if |p| >= 2 { U16ByOffset(p, 2); }
    }
  }

  /** The frame that asks for a version: first with three header bytes, then with five. */
  function VersionFrame(sequence: u8, raw: bv8): Bytes {
    if sequence == 0 then [0, 0, 0, raw] else [1, 0, 1, 0, 0, raw]
  }

  function FormatOf(sequence: u8): HeaderFormat {
    if sequence == 0 then Legacy else Extended
  }

  /** Ready for exchange 0 or 1. */
  predicate ReadyFor(n: Runtime, sequence: u8) {
    && Clean(n) && n.ash.state.Connected? && |n.ash.inFlight| <= 6
    && n.correlator.nextSequence == sequence < 2 && (n.initialVersionSent <==> sequence == 1)
  }

  /** The outcome of an exchange and where it stops. */
  function Exchange(at: Position, sequence: u8, raw: bv8): (Outcome, Position) {
    var asked := at.(end := Asked(at.end, VersionFrame(sequence, raw)));
    var p := Correlators.Pending(sequence, 0);
    (Await(asked.end, asked.decoder, asked.left, FormatOf(sequence), p), Heard(asked, FormatOf(sequence), p))
  }

  lemma ReadyIsSendable(n: Runtime, sequence: u8, desired: ProtocolVersion)
    requires ReadyFor(n, sequence)
    ensures var command := VersionCommand(desired);
            && Sendable(n, command) && FormatFor(n, VERSION) == FormatOf(sequence)
            && NextPending(n, command) == Correlators.Pending(sequence, 0)
            && Requested(n, command) == Asked(n.ash, VersionFrame(sequence, desired.raw))
  {
    VersionRequestBytes(n, desired);
    assert 0 as bv8 == 0 && 1 as bv8 == 1;
  }

  /** One exchange, from a runtime that stands at `at`. */
  lemma ExchangeByBytes(n: Runtime, at: Position, sequence: u8, desired: ProtocolVersion)
    requires ReadyFor(n, sequence) && StandsAt(n, at.left, at)
    ensures var (m, left, r) := Perform(n, at.left, VersionCommand(desired));
            var (outcome, next) := Exchange(at, sequence, desired.raw);
            && r == AnswerRead(outcome) && StandsAt(m, left, next)
  {
    var command := VersionCommand(desired);
    ReadyIsSendable(n, sequence, desired);
    CommandFollowsReading(n, at.left, command);
    PerformHears(n, at.left, command);
    AnswerByBytes(OutcomeOf(n, at.left, command), desired, n.version);
  }

  // ---------------------------------------------------------------------------------------------
  // The reading of a negotiation.

  /** A mesh stack that runs one of the versions 13 to 19. */
  predicate Acceptable(v: VersionResponse) {
    v.stackType == 2 && 13 <= v.protocolVersion.raw <= 19
  }

  /** Whether the answer to the offer calls for a second exchange. */
  predicate NeedsSecond(first: Result<VersionResponse, EzspError>) {
    first.Ok? && Acceptable(first.value) && first.value.protocolVersion.raw != 19
  }

  /** What the answer to the second exchange must repeat. */
  function Confirmed(second: Result<VersionResponse, EzspError>, agreed: ProtocolVersion)
    : Result<VersionResponse, EzspError>
  {
    if second.Ok? && second.value.protocolVersion != agreed then Err(UnsupportedVersion(second.value.protocolVersion))
    else second
  }

  /** Offer 19; refuse what is not acceptable; ask again for anything but 19, if the link is still up. */
  function NegotiationRead(at: Position): Result<VersionResponse, EzspError> {
    var (outcome, next) := Exchange(at, 0, 19);
    var first := AnswerRead(outcome);
    if first.Err? then first
    else if !Acceptable(first.value) then Err(UnsupportedVersion(first.value.protocolVersion))
    else if first.value.protocolVersion.raw == 19 then first
    else if !next.end.state.Connected? then Err(AshFailure(NotConnected))
    else Confirmed(AnswerRead(Exchange(next, 1, first.value.protocolVersion.raw).0), first.value.protocolVersion)
  }

  /** The requests that go out on the way. */
  function RequestsRead(at: Position): seq<Sent> {
    var (outcome, next) := Exchange(at, 0, 19);
    var first := AnswerRead(outcome);
    [Request(Legacy, [0, 0, 0, 19])]
    + if NeedsSecond(first) && next.end.state.Connected?
      then [Request(Extended, [1, 0, 1, 0, 0, first.value.protocolVersion.raw])] else []
  }

  lemma StepShrinks(e: Endpoint, item: AshCodec.Decoded)
    ensures |AshStep(e, item).0.inFlight| <= |e.inFlight|
  {
  }

  lemma {:induction false} DeliveredShrinks(e: Endpoint, items: seq<AshCodec.Decoded>)
    ensures |AshDelivered(e, items).0.inFlight| <= |e.inFlight|
    decreases |items|
  {
    if items != [] {
      StepShrinks(e, items[0]);
      DeliveredShrinks(AshStep(e, items[0]).0, items[1..]);
    }
  }

  lemma {:induction false} HeardShrinks(at: Position, format: HeaderFormat, p: Correlators.Pending)
    ensures |Heard(at, format, p).end.inFlight| <= |at.end.inFlight|
    decreases |at.left|
  {
    if at.left != [] && at.left[0].Chunk? {
      var (decoder, items) := Fed(at.decoder, at.left[0].bytes);
      DeliveredShrinks(at.end, items);
      var (end, payloads) := AshDelivered(at.end, items);
      if !(FirstAnswer(payloads, format, p).Some? || !end.state.Connected?) {
        HeardShrinks(Position(end, decoder, at.left[1..]), format, p);
      }
    }
  }

  /** After an answered offer: ready for the second exchange if the link is up. */
  lemma AfterOffer(n: Runtime, at: Position)
    requires ReadyFor(n, 0) && n.ash.inFlight == [] && StandsAt(n, at.left, at)
    requires AnswerRead(Exchange(at, 0, 19).0).Ok?
    ensures var (m, left, r) := Perform(n, at.left, VersionCommand(ProtocolVersion(19)));
            && StandsAt(m, left, Exchange(at, 0, 19).1)
            && Clean(m) && m.correlator.nextSequence == 1 && m.initialVersionSent && |m.ash.inFlight| <= 6
            && m.sent == n.sent + [Request(Legacy, [0, 0, 0, 19])]
  {
    var offer := ProtocolVersion(19);
    ExchangeByBytes(n, at, 0, offer);
    ReadyIsSendable(n, 0, offer);
    VersionExchange(n, at.left, offer);
    HeardShrinks(at.(end := Asked(at.end, VersionFrame(0, 19))), Legacy, Correlators.Pending(0, 0));
    assert 0 as bv8 == 0;
  }

  lemma OfferSends(n: Runtime, at: Position)
    requires ReadyFor(n, 0) && StandsAt(n, at.left, at)
    ensures Perform(n, at.left, VersionCommand(ProtocolVersion(19))).0.sent
            == n.sent + [Request(Legacy, [0, 0, 0, 19])]
  {
    var command := VersionCommand(ProtocolVersion(19));
    ReadyIsSendable(n, 0, ProtocolVersion(19));
    IssueExactlySendable(n, command);
    PerformSends(n, at.left, command);
    VersionRequestBytes(n, ProtocolVersion(19));
    assert 0 as bv8 == 0;
  }

  /** With the link down a command is refused and hands nothing over. */
  lemma RefusedWhenDown(m: Runtime, script: seq<Read>, desired: ProtocolVersion)
    requires Clean(m) && !m.ash.state.Connected?
    ensures var (m', _, r) := Perform(m, script, VersionCommand(desired));
            r == Err(AshFailure(NotConnected)) && m'.sent == m.sent
  {
    VersionRequestBytes(m, desired);
  }

  lemma SecondSends(m: Runtime, at: Position, desired: ProtocolVersion)
    requires ReadyFor(m, 1) && StandsAt(m, at.left, at)
    ensures Perform(m, at.left, VersionCommand(desired)).0.sent
            == m.sent + [Request(Extended, [1, 0, 1, 0, 0, desired.raw])]
  {
    var command := VersionCommand(desired);
    ReadyIsSendable(m, 1, desired);
    IssueExactlySendable(m, command);
    PerformSends(m, at.left, command);
    VersionRequestBytes(m, desired);
    assert 1 as bv8 == 1;
  }

  /** The negotiation, in numbers. */
  lemma NegotiateInNumbers(n: Runtime, script: seq<Read>)
    ensures var (m, left, first) := Perform(n, script, VersionCommand(ProtocolVersion(19)));
            Negotiate(n, script).2
            == if first.Err? then first
               else if !Acceptable(first.value) then Err(UnsupportedVersion(first.value.protocolVersion))
               else if first.value.protocolVersion.raw == 19 then first
               else
                 var agreed := first.value.protocolVersion;
                 Confirmed(Perform(m, left, VersionCommand(agreed)).2, agreed)
  {
  }

  lemma NegotiateEndsAt(n: Runtime, script: seq<Read>)
    ensures var (m, left, first) := Perform(n, script, VersionCommand(ProtocolVersion(19)));
            Negotiate(n, script).0
            == if NeedsSecond(first) then Perform(m, left, VersionCommand(first.value.protocolVersion)).0 else m
  {
  }

  /** From a runtime just reset, a negotiation returns what the reading of the bytes says and hands over
      exactly the requests it says. */
  lemma NegotiationFollowsReading(n: Runtime, at: Position)
    requires ReadyFor(n, 0) && n.ash.inFlight == [] && StandsAt(n, at.left, at)
    ensures Negotiate(n, at.left).2 == NegotiationRead(at)
    ensures Negotiate(n, at.left).0.sent == n.sent + RequestsRead(at)
  {
    NegotiateInNumbers(n, at.left);
    NegotiateEndsAt(n, at.left);
    ExchangeByBytes(n, at, 0, ProtocolVersion(19));
    OfferSends(n, at);
    var (m, left, first) := Perform(n, at.left, VersionCommand(ProtocolVersion(19)));
    if NeedsSecond(first) {
      var next := Exchange(at, 0, 19).1;
      var agreed := first.value.protocolVersion;
      AfterOffer(n, at);
      if m.ash.state.Connected? {
        ExchangeByBytes(m, next, 1, agreed);
        SecondSends(m, next, agreed);
        Associates(n.sent, [Request(Legacy, [0, 0, 0, 19])], [Request(Extended, [1, 0, 1, 0, 0, agreed.raw])]);
      } else {
        RefusedWhenDown(m, left, agreed);
      }
    }
  }

  // ---------------------------------------------------------------------------------------------
  // The reading of a reset.

  /** Reads until a chunk leaves the link up, or the deadline. */
  function Climbed(at: Position): Position
    decreases |at.left|
  {
    if at.left == [] then at
    else if at.left[0].Deadline? then at.(left := at.left[1..])
    else
      var (decoder, items) := Fed(at.decoder, at.left[0].bytes);
      var next := Position(AshDelivered(at.end, items).0, decoder, at.left[1..]);
      if next.end.state.Connected? then next else Climbed(next)
  }

  /** At most `tries` RSTs, each with an empty decoder and until its deadline. */
  function Raised(end: Endpoint, script: seq<Read>, tries: nat): Option<Position>
    decreases tries
  {
    if tries == 0 || BeginReset(end).1.Nothing? then None
    else
      var at := Climbed(Position(BeginReset(end).0, EMPTY, script));
      if at.end.state.Connected? then Some(at) else Raised(at.end, at.left, tries - 1)
  }

  lemma {:induction false} PumpClimbs(n: Runtime, script: seq<Read>)
    requires Encodable(n.ash) && !n.ash.state.Connected?
    ensures var (m, left, r) := Pump(n, script, ForConnection);
            r.Ok? && Encodable(m.ash) && StandsAt(m, left, Climbed(Position(n.ash, n.decoder, script)))
    decreases |script|
  {
    if script != [] && script[0].Chunk? {
      var (decoder, items) := Fed(n.decoder, script[0].bytes);
      var fed := n.(decoder := decoder);
      HandleAllListens(fed, items);
      var m := HandleAll(fed, items).0;
      PumpFirst(n, script, ForConnection);
      if m.ash.state.Connected? {
        assert Pump(m, script[1..], ForConnection) == (m, script[1..], Ok(()));
      } else {
        PumpClimbs(m, script[1..]);
      }
    }
  }

  /** One attempt goes where the reading goes. */
  predicate AttemptClimbs(n: Runtime, script: seq<Read>, attempted: (Runtime, seq<Read>, Handshake)) {
    var (m, left, handshake) := attempted;
    var at := Climbed(Position(BeginReset(n.ash).0, EMPTY, script));
    if BeginReset(n.ash).1.Nothing? then handshake.Hopeless?
    else StandsAt(m, left, at) && handshake == if at.end.state.Connected? then Completed else Unanswered
  }

  lemma ResetAttemptClimbs(n: Runtime, script: seq<Read>)
    ensures AttemptClimbs(n, script, ResetAttempt(n, script))
  {
    ResetAttemptCases(n, script);
    if BeginReset(n.ash).1.Send? {
      PumpClimbs(ResetSent(n), script);
    }
  }

  /** A reset with this result goes where the reading goes. */
  predicate ResetRaises(n: Runtime, script: seq<Read>, attempts: nat,
                        result: (Runtime, seq<Read>, Result<(), EzspError>))
  {
    var (m, left, r) := result;
    var raised := Raised(n.ash, script, attempts);
    (r.Ok? <==> raised.Some?) && (r.Ok? ==> StandsAt(m, left, raised.value))
  }

  lemma RaisedAtOnce(n: Runtime, script: seq<Read>, attempts: nat, m: Runtime, left: seq<Read>)
    requires attempts > 0 && AttemptClimbs(n, script, (m, left, Completed))
    ensures ResetRaises(n, script, attempts, (m, left, Ok(())))
  {
  }

  lemma RaisedNever(n: Runtime, script: seq<Read>, attempts: nat, m: Runtime, left: seq<Read>, error: EzspError)
    requires attempts > 0 && AttemptClimbs(n, script, (m, left, Hopeless(error)))
    ensures ResetRaises(n, script, attempts, (m, left, Err(error)))
  {
  }

  lemma RaisedLater(n: Runtime, script: seq<Read>, attempts: nat, m: Runtime, left: seq<Read>,
                    result: (Runtime, seq<Read>, Result<(), EzspError>))
    requires attempts > 0 && AttemptClimbs(n, script, (m, left, Unanswered))
    requires ResetRaises(m, left, attempts - 1, result)
    ensures ResetRaises(n, script, attempts, result)
  {
  }

  lemma RaisedOnce(n: Runtime, script: seq<Read>, attempts: nat)
    requires attempts > 0 && AttemptClimbs(n, script, ResetAttempt(n, script))
    requires var (m, left, handshake) := ResetAttempt(n, script);
             handshake.Unanswered? ==> ResetRaises(m, left, attempts - 1, ResetWithin(m, left, attempts - 1))
    ensures ResetRaises(n, script, attempts, ResetWithin(n, script, attempts))
  {
    match ResetAttempt(n, script)
    case (m, left, Completed) => RaisedAtOnce(n, script, attempts, m, left);
    case (m, left, Hopeless(error)) => RaisedNever(n, script, attempts, m, left, error);
    case (m, left, Unanswered) => RaisedLater(n, script, attempts, m, left, ResetWithin(m, left, attempts - 1));
  }

  /** A reset completes if and only if the reading comes up, and then stands where it stands. */
  lemma {:induction false} ResetFollowsPositions(n: Runtime, script: seq<Read>, attempts: nat)
    ensures ResetRaises(n, script, attempts, ResetWithin(n, script, attempts))
    decreases attempts
  {
    if attempts > 0 {
      var (m, left, handshake) := ResetAttempt(n, script);
      ResetAttemptClimbs(n, script);
      if handshake.Unanswered? {
        ResetFollowsPositions(m, left, attempts - 1);
      }
      RaisedOnce(n, script, attempts);
    }
  }

  lemma {:induction false} ClimbedIsEmpty(at: Position)
    requires at.end.inFlight == []
    ensures Climbed(at).end.inFlight == []
    decreases |at.left|
  {
    if at.left != [] && at.left[0].Chunk? {
      var (decoder, items) := Fed(at.decoder, at.left[0].bytes);
      DeliveredShrinks(at.end, items);
      ClimbedIsEmpty(Position(AshDelivered(at.end, items).0, decoder, at.left[1..]));
    }
  }

  lemma {:induction false} RaisedIsEmpty(end: Endpoint, script: seq<Read>, tries: nat)
    ensures var raised := Raised(end, script, tries);
            raised.Some? ==> raised.value.end.state.Connected? && raised.value.end.inFlight == []
    decreases tries
  {
    if tries > 0 && BeginReset(end).1.Send? {
      var start := Position(BeginReset(end).0, EMPTY, script);
      ClimbedIsEmpty(start);
      RaisedIsEmpty(Climbed(start).end, Climbed(start).left, tries - 1);
    }
  }

  // ---------------------------------------------------------------------------------------------
  // The whole connection.

  /** Never heard from, nothing sent. */
  const SILENT := Endpoint(Disconnected, 0, 0, [], false, false)

  /** Five RSTs to come up, then a negotiation; what it reports, or why it failed. */
  function ConnectRead(script: seq<Read>): Result<VersionResponse, EzspError> {
    match Raised(SILENT, script, 5)
    case None => Err(AshFailure(ResetFailed))
    case Some(at) => NegotiationRead(at)
  }

  lemma ReadyAfterReset(script: seq<Read>)
    requires ResetWithin(NEW, script, MAX_RESET_ATTEMPTS).2.Ok?
    ensures var (n, left, _) := ResetWithin(NEW, script, MAX_RESET_ATTEMPTS);
            var raised := Raised(SILENT, script, 5);
            && raised.Some? && StandsAt(n, left, raised.value)
            && ReadyFor(n, 0) && n.ash.inFlight == [] && n.sent == [ResetDone]
  {
    ResetFollowsPositions(NEW, script, MAX_RESET_ATTEMPTS);
    RaisedIsEmpty(SILENT, script, 5);
    ResetKeepsClean(NEW, script, MAX_RESET_ATTEMPTS);
  }

  /** Adopting the result, or passing on the failure. */
  lemma ConnectCases(script: seq<Read>)
    ensures var (n, left, reset) := ResetWithin(NEW, script, MAX_RESET_ATTEMPTS);
            var (m, _, r) := Connect(script);
            if reset.Err? then r == reset
            else
              && m.sent == Negotiate(n, left).0.sent
              && match Negotiate(n, left).2
                 case Ok(v) => r == Ok(()) && m.version == v.protocolVersion && m.stackVersion == v.stackVersion
                 case Err(error) => r == Err(error)
  {
  }

  lemma ResetFailsOneWay(script: seq<Read>)
    requires ResetWithin(NEW, script, MAX_RESET_ATTEMPTS).2.Err?
    ensures ResetWithin(NEW, script, MAX_RESET_ATTEMPTS).2 == Err(AshFailure(ResetFailed))
    ensures Raised(SILENT, script, 5).None?
  {
    ResetFollowsReading(NEW, script, MAX_RESET_ATTEMPTS);
    ResetFollowsPositions(NEW, script, MAX_RESET_ATTEMPTS);
  }

  /** `connect` is a function of the bytes: over every script it succeeds, with this version and this
      firmware, or fails with this error, exactly as the reading says, and after a completed reset it
      hands over exactly the requests that the reading says. */
  lemma ConnectFollowsReading(script: seq<Read>)
    ensures var (m, _, r) := Connect(script);
            match ConnectRead(script)
            case Ok(v) => r == Ok(()) && m.version == v.protocolVersion && m.stackVersion == v.stackVersion
            case Err(error) => r == Err(error)
    ensures var raised := Raised(SILENT, script, 5);
            raised.Some? ==> Connect(script).0.sent == [ResetDone] + RequestsRead(raised.value)
  {
    ConnectCases(script);
    var (n, left, reset) := ResetWithin(NEW, script, MAX_RESET_ATTEMPTS);
    if reset.Err? {
      ResetFailsOneWay(script);
    } else {
      ReadyAfterReset(script);
      NegotiationFollowsReading(n, Raised(SILENT, script, 5).value);
    }
  }

  /** So an answer to the offer from anything but a mesh stack running 13 to 19 ends the connection with
      its version, and no second request goes out. */
  lemma ConnectRefuses(script: seq<Read>, p: Bytes)
    requires var raised := Raised(SILENT, script, 5);
             raised.Some? && Exchange(raised.value, 0, 19).0 == Answered(p)
    requires |p| == 4 && (p[1] != 2 || p[0] < 13 || p[0] > 19)
    ensures var (m, _, r) := Connect(script);
            && r == Err(UnsupportedVersion(ProtocolVersion(p[0])))
            && m.sent == [ResetDone, Request(Legacy, [0, 0, 0, 19])]
  {
    ConnectFollowsReading(script);
  }
}
