/** What a command returns, as a function of the bytes on the line alone: a reference reading that
    knows the connection and the decoder but neither correlator nor queue, and the runtime's agreement
    with it on every script. */
module OutcomeLaws {
  import opened Basics
  import opened AshFrames
  import opened AshConnections
  import opened AshCodec
  import opened EzspCodec
  import opened EzspFrames
  import opened Runtimes
  import opened RuntimeLaws
  import opened CommandLaws
  import AshStreams
  import Correlators

  // ---------------------------------------------------------------------------------------------
  // The reference reading.

  datatype Outcome = Answered(parameters: Bytes) | LinkDown | Expired

  /** The parameters of the first payload that answers `p`. */
  function FirstAnswer(payloads: seq<Bytes>, format: HeaderFormat, p: Correlators.Pending): Option<Bytes> {
    if payloads == [] then None
    else
      var first := AnswerTo(payloads[0], format, p);
      if first.Some? then first else FirstAnswer(payloads[1..], format, p)
  }

  /** Reads chunk after chunk until one carries an answer or leaves the link down, or the deadline. */
  function Await(e: Endpoint, decoder: Partial, script: seq<Read>, format: HeaderFormat, p: Correlators.Pending)
    : Outcome
    decreases |script|
  {
    if script == [] || script[0].Deadline? then Expired
    else
      var (decoder, items) := Fed(decoder, script[0].bytes);
      var (e, payloads) := AshDelivered(e, items);
      var answer := FirstAnswer(payloads, format, p);
      if answer.Some? then Answered(answer.value)
      else if !e.state.Connected? then LinkDown
      else Await(e, decoder, script[1..], format, p)
  }

  // ---------------------------------------------------------------------------------------------
  // The runtime follows it.

  /** Command `p` has been answered with `answer`, or not yet. */
  predicate Waiting(n: Runtime, format: HeaderFormat, p: Correlators.Pending, answer: Option<Bytes>) {
    && n.response == answer
    && (if answer.Some? then n.correlator.pending == None
        else n.correlator.pending == Some(p) && n.pendingFormat == Some(format))
  }

  /** The earlier answer, if there is one. */
  function Or(first: Option<Bytes>, second: Option<Bytes>): Option<Bytes> {
    if first.Some? then first else second
  }

  lemma {:induction false} FirstAnswerConcat(a: seq<Bytes>, b: seq<Bytes>, format: HeaderFormat, p: Correlators.Pending)
    ensures FirstAnswer(a + b, format, p) == Or(FirstAnswer(a, format, p), FirstAnswer(b, format, p))
  {
    if a == [] {
      assert a + b == b;
    } else {
      assert (a + b)[1..] == a[1..] + b;
      FirstAnswerConcat(a[1..], b, format, p);
    }
  }

  lemma HandleWaits(n: Runtime, item: AshCodec.Decoded, format: HeaderFormat, p: Correlators.Pending,
                    answer: Option<Bytes>)
    requires Waiting(n, format, p, answer)
    ensures Waiting(Handle(n, item).0, format, p, Or(answer, FirstAnswer(AshStep(n.ash, item).1, format, p)))
  {
    if item.Frame? {
      var (m, payload, outbound) := Received(n, item.frame);
      var (replied, r) := Reply(m, outbound);
      if payload.Some? {
        PayloadsAreAnswered(n, item.frame);
        DispatchFilesOrAnswers(replied, payload.value);
        FirstOfOne(payload.value, format, p);
      }
    }
  }

  lemma FirstOfOne(payload: Bytes, format: HeaderFormat, p: Correlators.Pending)
    ensures FirstAnswer([payload], format, p) == AnswerTo(payload, format, p)
  {
    assert [payload][1..] == [];
  }

  lemma {:induction false} HandleAllWaits(n: Runtime, items: seq<AshCodec.Decoded>, format: HeaderFormat,
                                          p: Correlators.Pending, answer: Option<Bytes>)
    requires Waiting(n, format, p, answer) && Encodable(n.ash)
    ensures var (m, r) := HandleAll(n, items);
            var (e, payloads) := AshDelivered(n.ash, items);
            && r.Ok? && Encodable(m.ash) && m.ash == e
            && Waiting(m, format, p, Or(answer, FirstAnswer(payloads, format, p)))
    decreases |items|
  {
    if items != [] {
      var m := Handle(n, items[0]).0;
      var (e, first) := AshStep(n.ash, items[0]);
      HandleSucceeds(n, items[0]);
      HandleDelivers(n, items[0]);
      HandleWaits(n, items[0], format, p, answer);
      HandleAllWaits(m, items[1..], format, p, Or(answer, FirstAnswer(first, format, p)));
      FirstAnswerConcat(first, AshDelivered(e, items[1..]).1, format, p);
    }
  }

  /** The state in which the read loop ends. */
  predicate EndsAs(m: Runtime, outcome: Outcome, format: HeaderFormat, p: Correlators.Pending) {
    match outcome
    case Answered(parameters) => Waiting(m, format, p, Some(parameters))
    case LinkDown => Waiting(m, format, p, None) && !m.ash.state.Connected?
    case Expired => Waiting(m, format, p, None) && m.ash.state.Connected?
  }

  lemma {:induction false} PumpAwaits(n: Runtime, script: seq<Read>, format: HeaderFormat, p: Correlators.Pending)
    requires Waiting(n, format, p, None) && Encodable(n.ash) && n.ash.state.Connected?
    ensures var (m, _, r) := Pump(n, script, ForResponse);
            && r.Ok? && m.version == n.version
            && EndsAs(m, Await(n.ash, n.decoder, script, format, p), format, p)
    decreases |script|
  {
    PumpIsSteady(n, script, ForResponse);
    if script != [] && script[0].Chunk? {
      var (decoder, items) := Fed(n.decoder, script[0].bytes);
      var fed := n.(decoder := decoder);
      HandleAllWaits(fed, items, format, p, None);
      HandleAllDecoder(fed, items);
      var m := HandleAll(fed, items).0;
      PumpFirst(n, script, ForResponse);
      if Reached(m, ForResponse) {
        assert Pump(m, script[1..], ForResponse).0 == m;
      } else {
        PumpAwaits(m, script[1..], format, p);
      }
    }
  }

  lemma {:induction false} HandleAllDecoder(n: Runtime, items: seq<AshCodec.Decoded>)
    ensures HandleAll(n, items).0.decoder == n.decoder
    decreases |items|
  {
    if items != [] {
      var (m, r) := Handle(n, items[0]);
      HandleDecoder(n, items[0]);
      if r.Ok? {
        HandleAllDecoder(m, items[1..]);
      }
    }
  }

  lemma HandleDecoder(n: Runtime, item: AshCodec.Decoded)
    ensures Handle(n, item).0.decoder == n.decoder
  {
  }

  /** The connection once the request has been handed to it. */
  function Requested<R>(n: Runtime, command: CommandSpec<R>): Endpoint {
    var bytes := RequestBytes(n, command, n.correlator.nextSequence);
    if bytes.Ok? then SendData(n.ash, bytes.value, MAX_WINDOW).0 else n.ash
  }

  /** What the read loop of `command` comes to, over this script. */
  function OutcomeOf<R>(n: Runtime, script: seq<Read>, command: CommandSpec<R>): Outcome {
    Await(Requested(n, command), n.decoder, script, FormatFor(n, command.id), NextPending(n, command))
  }

  /** The result a command makes of the outcome. */
  function ResultOf<R>(outcome: Outcome, command: CommandSpec<R>, version: ProtocolVersion): Result<R, EzspError> {
    match outcome
    case Answered(parameters) =>
      var parsed := command.parse(parameters, version);
      if parsed.Err? then Err(parsed.error)
      else if |parsed.value.1| != 0 then Err(TrailingBytes(command.id, |parsed.value.1|))
      else Ok(parsed.value.0)
    case LinkDown => Err(EzspError.NcpReset(command.id))
    case Expired => Err(EzspError.Timeout(command.id))
  }

  lemma IssueWaits<R>(n: Runtime, command: CommandSpec<R>)
    requires Clean(n) && command.available(n.version) && Sendable(n, command)
    ensures var (m, r) := Issue(n, command);
            && r.Ok? && Waiting(m, FormatFor(n, command.id), NextPending(n, command), None)
            && m.ash == Requested(n, command) && Encodable(m.ash) && m.ash.state.Connected?
            && m.decoder == n.decoder && m.version == n.version
  {
    IssueExactlySendable(n, command);
  }

  lemma ConcludeOutcome<R>(m: Runtime, command: CommandSpec<R>, outcome: Outcome, format: HeaderFormat,
                           p: Correlators.Pending)
    requires EndsAs(m, outcome, format, p) && p.frameId == command.id
    ensures Conclude(m, command, Ok(())).1 == ResultOf(outcome, command, m.version)
  {
  }

  /** From a clean state and whatever the decoder holds, a sendable command returns exactly what the
      reference reading of the bytes says, over every script: the first answer decoded, a reset when
      a read leaves the link down without one, a timeout otherwise. */
  lemma CommandFollowsReading<R>(n: Runtime, script: seq<Read>, command: CommandSpec<R>)
    requires Clean(n) && command.available(n.version) && Sendable(n, command)
    ensures Perform(n, script, command).2 == ResultOf(OutcomeOf(n, script, command), command, n.version)
  {
    var p, format := NextPending(n, command), FormatFor(n, command.id);
    IssueWaits(n, command);
    var issued := Issue(n, command).0;
    PumpAwaits(issued, script, format, p);
    var (pumped, _, _) := Pump(issued, script, ForResponse);
    ConcludeOutcome(pumped, command, OutcomeOf(n, script, command), format, p);
  }

  /** So a command returns `v` if and only if the first answer on the line decodes to it and nothing
      more. */
  lemma CommandReturnsExactly<R>(n: Runtime, script: seq<Read>, command: CommandSpec<R>, v: R)
    requires Clean(n) && command.available(n.version) && Sendable(n, command)
    ensures Perform(n, script, command).2 == Ok(v)
            <==> var outcome := OutcomeOf(n, script, command);
                 outcome.Answered? && command.parse(outcome.parameters, n.version) == Ok((v, []))
  {
    CommandFollowsReading(n, script, command);
  }

  // ---------------------------------------------------------------------------------------------
  // When the link goes down.

  /** From a connected endpoint, this item leaves the link down: an ERROR, or a NAK that leaves a head
      already sent three times. */
  predicate TakesDown(e: Endpoint, item: AshCodec.Decoded) {
    && item.Frame?
    && (item.frame.Error?
        || (item.frame.Nak?
            && var left := Retire(e, item.frame.ackNum).inFlight;
               left != [] && left[0].sends >= 3))
  }

  predicate IsRstAck(item: AshCodec.Decoded) {
    item.Frame? && item.frame.RstAck?
  }

  lemma LinkFallsExactly(e: Endpoint, item: AshCodec.Decoded)
    ensures AshStep(e, item).0.state.Connected?
            <==> IsRstAck(item) || (e.state.Connected? && !TakesDown(e, item))
  {
  }

  /** The endpoint after the first `k` items. */
  function After(e: Endpoint, items: seq<AshCodec.Decoded>, k: nat): Endpoint
    requires k <= |items|
  {
    AshDelivered(e, items[..k]).0
  }

  lemma AfterFirst(e: Endpoint, items: seq<AshCodec.Decoded>, k: nat)
    requires 0 < k <= |items|
    ensures After(e, items, k) == After(AshStep(e, items[0]).0, items[1..], k - 1)
  {
    assert items[..k][1..] == items[1..][..k - 1] && items[..k][0] == items[0];
  }

  lemma {:induction false} AfterStep(e: Endpoint, items: seq<AshCodec.Decoded>, k: nat)
    requires k < |items|
    ensures After(e, items, k + 1) == AshStep(After(e, items, k), items[k]).0
    decreases k
  {
    AfterFirst(e, items, k + 1);
    if k == 0 {
      assert items[1..][..0] == [] && items[..0] == [];
    } else {
      AfterFirst(e, items, k);
      AfterStep(AshStep(e, items[0]).0, items[1..], k - 1);
    }
  }

  /** Among the first `k` items, one took the link down and no RSTACK came after it. */
  predicate Fell(e: Endpoint, items: seq<AshCodec.Decoded>, k: nat)
    requires k <= |items|
  {
    exists i :: 0 <= i < k && FellAt(e, items, k, i)
  }

  /** Item `i` took the link down, and no RSTACK came after it up to `k`. */
  predicate FellAt(e: Endpoint, items: seq<AshCodec.Decoded>, k: nat, i: nat)
    requires i < k <= |items|
  {
    TakesDown(After(e, items, i), items[i]) && forall j :: i < j < k ==> !IsRstAck(items[j])
  }

  /** A connected link is down after a read if and only if one of the frames read took it down and no
      RSTACK followed; an RSTACK alone never does. */
  lemma {:induction false} LinkDownExactly(e: Endpoint, items: seq<AshCodec.Decoded>, k: nat)
    requires e.state.Connected? && k <= |items|
    ensures !After(e, items, k).state.Connected? <==> Fell(e, items, k)
    decreases k
  {
    if k == 0 {
      assert items[..0] == [];
    } else {
      LinkDownExactly(e, items, k - 1);
      AfterStep(e, items, k - 1);
      LinkFallsExactly(After(e, items, k - 1), items[k - 1]);
      FellStep(e, items, k - 1);
    }
  }

  lemma FellStep(e: Endpoint, items: seq<AshCodec.Decoded>, k: nat)
    requires k < |items|
    ensures Fell(e, items, k + 1)
            <==> TakesDown(After(e, items, k), items[k]) || (Fell(e, items, k) && !IsRstAck(items[k]))
  {
    if Fell(e, items, k + 1) {
      var i :| 0 <= i < k + 1 && FellAt(e, items, k + 1, i);
      assert i < k ==> FellAt(e, items, k, i) && !IsRstAck(items[k]);
    }
    if TakesDown(After(e, items, k), items[k]) {
      assert FellAt(e, items, k + 1, k);
    } else if Fell(e, items, k) && !IsRstAck(items[k]) {
      var i :| 0 <= i < k && FellAt(e, items, k, i);
      assert FellAt(e, items, k + 1, i);
    }
  }

  lemma WholeRead(e: Endpoint, items: seq<AshCodec.Decoded>)
    ensures After(e, items, |items|) == AshDelivered(e, items).0
  {
    assert items[..|items|] == items;
  }

  /** One read of the reference reading, said with the frames on the line: the link counts as lost when
      a frame of the read took it down with no RSTACK behind it. */
  lemma AwaitByFrames(e: Endpoint, decoder: Partial, script: seq<Read>, format: HeaderFormat, p: Correlators.Pending)
    requires e.state.Connected? && script != [] && script[0].Chunk?
    ensures var (decoder', items) := Fed(decoder, script[0].bytes);
            var (e', payloads) := AshDelivered(e, items);
            var answer := FirstAnswer(payloads, format, p);
            Await(e, decoder, script, format, p)
            == if answer.Some? then Answered(answer.value)
               else if Fell(e, items, |items|) then LinkDown
               else Await(e', decoder', script[1..], format, p)
  {
    var items := Fed(decoder, script[0].bytes).1;
    WholeRead(e, items);
    LinkDownExactly(e, items, |items|);
  }

  /** What each read of the script puts out, from this decoder on. */
  function ItemsOf(decoder: Partial, script: seq<Read>): seq<AshCodec.Decoded>
    decreases |script|
  {
    if script == [] || script[0].Deadline? then []
    else Fed(decoder, script[0].bytes).1 + ItemsOf(Fed(decoder, script[0].bytes).0, script[1..])
  }

  predicate IsError(item: AshCodec.Decoded) {
    item.Frame? && item.frame.Error?
  }

  predicate IsNak(item: AshCodec.Decoded) {
    item.Frame? && item.frame.Nak?
  }

  /** A command that meets no ERROR and no NAK before its deadline never reports a reset, however many
      RSTACKs arrive. */
  lemma {:induction false} AwaitWithoutFall(e: Endpoint, decoder: Partial, script: seq<Read>, format: HeaderFormat,
                                            p: Correlators.Pending)
    requires e.state.Connected?
    requires forall item :: item in ItemsOf(decoder, script) ==> !IsError(item) && !IsNak(item)
    ensures !Await(e, decoder, script, format, p).LinkDown?
    decreases |script|
  {
    if script != [] && script[0].Chunk? {
      var (decoder', items) := Fed(decoder, script[0].bytes);
      assert ItemsOf(decoder, script) == items + ItemsOf(decoder', script[1..]);
      WholeRead(e, items);
      LinkDownExactly(e, items, |items|);
      forall i | 0 <= i < |items| ensures !TakesDown(After(e, items, i), items[i]) {
        assert items[i] in ItemsOf(decoder, script);
      }
      forall item | item in ItemsOf(decoder', script[1..]) ensures !IsError(item) && !IsNak(item) {
        assert item in ItemsOf(decoder, script);
      }
      if AshDelivered(e, items).0.state.Connected? {
        AwaitWithoutFall(AshDelivered(e, items).0, decoder', script[1..], format, p);
      }
    }
  }

  /** Before any answer and before the deadline, some read contains a frame that takes the link down
      with no RSTACK behind it. */
  predicate FallsUnanswered(e: Endpoint, decoder: Partial, script: seq<Read>, format: HeaderFormat,
                            p: Correlators.Pending)
    decreases |script|
  {
    && script != [] && script[0].Chunk?
    && var (decoder', items) := Fed(decoder, script[0].bytes);
       var (e', payloads) := AshDelivered(e, items);
       && FirstAnswer(payloads, format, p).None?
       && (Fell(e, items, |items|) || FallsUnanswered(e', decoder', script[1..], format, p))
  }

  lemma {:induction false} LinkDownByFrames(e: Endpoint, decoder: Partial, script: seq<Read>, format: HeaderFormat,
                                            p: Correlators.Pending)
    requires e.state.Connected?
    ensures Await(e, decoder, script, format, p).LinkDown? <==> FallsUnanswered(e, decoder, script, format, p)
    decreases |script|
  {
    if script != [] && script[0].Chunk? {
      var (decoder', items) := Fed(decoder, script[0].bytes);
      var e' := AshDelivered(e, items).0;
      AwaitByFrames(e, decoder, script, format, p);
      WholeRead(e, items);
      LinkDownExactly(e, items, |items|);
      if e'.state.Connected? {
        LinkDownByFrames(e', decoder', script[1..], format, p);
      }
    }
  }

  /** A sendable command without an answer reports a reset if and only if, before the deadline, a
      frame takes the link down with no RSTACK behind it in its read, and a timeout otherwise; so
      without an ERROR or a NAK on the line it is always a timeout. */
  lemma UnansweredCommand<R>(n: Runtime, script: seq<Read>, command: CommandSpec<R>)
    requires Clean(n) && command.available(n.version) && Sendable(n, command)
    requires !OutcomeOf(n, script, command).Answered?
    ensures Perform(n, script, command).2
            == Err(if FallsUnanswered(Requested(n, command), n.decoder, script, FormatFor(n, command.id),
                                      NextPending(n, command))
                   then EzspError.NcpReset(command.id)
                   else EzspError.Timeout(command.id))
    ensures (forall item :: item in ItemsOf(n.decoder, script) ==> !IsError(item) && !IsNak(item))
            ==> Perform(n, script, command).2 == Err(EzspError.Timeout(command.id))
  {
    var e, format, p := Requested(n, command), FormatFor(n, command.id), NextPending(n, command);
    CommandFollowsReading(n, script, command);
    IssueWaits(n, command);
    LinkDownByFrames(e, n.decoder, script, format, p);
    if forall item :: item in ItemsOf(n.decoder, script) ==> !IsError(item) && !IsNak(item) {
      AwaitWithoutFall(e, n.decoder, script, format, p);
    }
  }

  /** Exactly when a command reads as lost to a reset: its one read ends with the link down. */
  lemma OneReadCommand<R>(n: Runtime, bytes: Bytes, rest: seq<Read>, command: CommandSpec<R>)
    requires Clean(n) && command.available(n.version) && Sendable(n, command)
    requires FirstAnswer(AshDelivered(Requested(n, command), Fed(n.decoder, bytes).1).1,
                         FormatFor(n, command.id), NextPending(n, command)).None?
    ensures var items := Fed(n.decoder, bytes).1;
            Perform(n, [Chunk(bytes)] + ([Deadline] + rest), command).2
            == Err(if Fell(Requested(n, command), items, |items|) then EzspError.NcpReset(command.id)
                   else EzspError.Timeout(command.id))
  {
    var script := [Chunk(bytes)] + ([Deadline] + rest);
    assert script[1..] == [Deadline] + rest;
    CommandFollowsReading(n, script, command);
    IssueWaits(n, command);
    AwaitByFrames(Requested(n, command), n.decoder, script, FormatFor(n, command.id), NextPending(n, command));
  }

  lemma OneFell(e: Endpoint, frame: AshFrame)
    ensures Fell(e, [Frame(frame)], 1) <==> TakesDown(e, Frame(frame))
  {
    var items := [Frame(frame)];
    assert items[..0] == [];
    assert After(e, items, 0) == e && items[0] == Frame(frame);
    if TakesDown(e, Frame(frame)) {
      assert FellAt(e, items, 1, 0);
    }
  }

  /** The one read of a command contains a single frame, which carries no payload. */
  lemma OneFrameCommand<R>(n: Runtime, bytes: Bytes, rest: seq<Read>, command: CommandSpec<R>, frame: AshFrame)
    requires Clean(n) && command.available(n.version) && Sendable(n, command)
    requires Fed(n.decoder, bytes).1 == [Frame(frame)] && !frame.Data?
    ensures Perform(n, [Chunk(bytes)] + ([Deadline] + rest), command).2
            == Err(if TakesDown(Requested(n, command), Frame(frame)) then EzspError.NcpReset(command.id)
                   else EzspError.Timeout(command.id))
  {
    OneFrame(Requested(n, command), frame);
    OneFell(Requested(n, command), frame);
    OneReadCommand(n, bytes, rest, command);
  }

  /** The documented reset report does not come for an RSTACK: the NCP restarts, the command is lost,
      and it reads as a timeout. */
  lemma RstAckReadsAsTimeout<R>(n: Runtime, bytes: Bytes, rest: seq<Read>, command: CommandSpec<R>,
                                version: bv8, code: bv8)
    requires Clean(n) && command.available(n.version) && Sendable(n, command)
    requires Fed(n.decoder, bytes).1 == [Frame(RstAck(version, code))]
    ensures Perform(n, [Chunk(bytes)] + ([Deadline] + rest), command).2 == Err(EzspError.Timeout(command.id))
  {
    OneFrameCommand(n, bytes, rest, command, RstAck(version, code));
  }

  /** It does come for an ERROR. */
  lemma ErrorReadsAsReset<R>(n: Runtime, bytes: Bytes, rest: seq<Read>, command: CommandSpec<R>,
                             version: bv8, code: bv8)
    requires Clean(n) && command.available(n.version) && Sendable(n, command)
    requires Fed(n.decoder, bytes).1 == [Frame(AshFrame.Error(version, code))]
    ensures Perform(n, [Chunk(bytes)] + ([Deadline] + rest), command).2 == Err(EzspError.NcpReset(command.id))
  {
    OneFrameCommand(n, bytes, rest, command, AshFrame.Error(version, code));
  }

  lemma OneFrame(e: Endpoint, frame: AshFrame)
    ensures AshDelivered(e, [Frame(frame)]) == AshStep(e, Frame(frame))
  {
    assert [Frame(frame)][1..] == [];
    assert AshStep(e, Frame(frame)).1 + [] == AshStep(e, Frame(frame)).1;
  }

  // ---------------------------------------------------------------------------------------------
  // How the bytes are cut makes no difference while the link stays up.

  function Chunks(chunks: seq<Bytes>): seq<Read> {
    if chunks == [] then [] else [Chunk(chunks[0])] + Chunks(chunks[1..])
  }

  lemma {:induction false} AshDeliveredConcat(e: Endpoint, a: seq<AshCodec.Decoded>, b: seq<AshCodec.Decoded>)
    ensures var (e', first) := AshDelivered(e, a);
            var (e'', rest) := AshDelivered(e', b);
            AshDelivered(e, a + b) == (e'', first + rest)
    decreases |a|
  {
    if a == [] {
      assert a + b == b;
      assert AshDelivered(e, a).1 + AshDelivered(e, b).1 == AshDelivered(e, b).1;
    } else {
      assert (a + b)[1..] == a[1..] + b;
      var (e1, first) := AshStep(e, a[0]);
      AshDeliveredConcat(e1, a[1..], b);
      var (e2, middle) := AshDelivered(e1, a[1..]);
      Associates(first, middle, AshDelivered(e2, b).1);
    }
  }

  /** No frame takes the link down. */
  predicate StaysUp(e: Endpoint, items: seq<AshCodec.Decoded>)
    decreases |items|
  {
    items == [] || (!TakesDown(e, items[0]) && StaysUp(AshStep(e, items[0]).0, items[1..]))
  }

  lemma {:induction false} StaysUpConcat(e: Endpoint, a: seq<AshCodec.Decoded>, b: seq<AshCodec.Decoded>)
    ensures StaysUp(e, a + b) <==> StaysUp(e, a) && StaysUp(AshDelivered(e, a).0, b)
    decreases |a|
  {
    if a == [] {
      assert a + b == b;
    } else {
      assert (a + b)[1..] == a[1..] + b;
      StaysUpConcat(AshStep(e, a[0]).0, a[1..], b);
    }
  }

  lemma {:induction false} UpAfterwards(e: Endpoint, items: seq<AshCodec.Decoded>)
    requires e.state.Connected? && StaysUp(e, items)
    ensures AshDelivered(e, items).0.state.Connected?
    decreases |items|
  {
    if items != [] {
      LinkFallsExactly(e, items[0]);
      UpAfterwards(AshStep(e, items[0]).0, items[1..]);
    }
  }

  /** One read that leaves the link up. */
  lemma AwaitWhileUp(e: Endpoint, decoder: Partial, bytes: Bytes, later: seq<Read>, format: HeaderFormat,
                     p: Correlators.Pending)
    requires AshDelivered(e, Fed(decoder, bytes).1).0.state.Connected?
    ensures var (decoder', items) := Fed(decoder, bytes);
            var (e', payloads) := AshDelivered(e, items);
            var answer := FirstAnswer(payloads, format, p);
            Await(e, decoder, [Chunk(bytes)] + later, format, p)
            == if answer.Some? then Answered(answer.value) else Await(e', decoder', later, format, p)
  {
    assert ([Chunk(bytes)] + later)[1..] == later;
  }

  /** While no frame takes the link down, the outcome depends on the bytes up to the deadline and not
      on how the reads cut them: whatever comes before the answer, and wherever the answer is split,
      it is the first answering payload of the whole stream. */
  lemma {:induction false} CutsDoNotMatter(e: Endpoint, decoder: Partial, chunks: seq<Bytes>, rest: seq<Read>,
                                           format: HeaderFormat, p: Correlators.Pending)
    requires e.state.Connected? && StaysUp(e, Fed(decoder, Concat(chunks)).1)
    ensures var answer := FirstAnswer(AshDelivered(e, Fed(decoder, Concat(chunks)).1).1, format, p);
            Await(e, decoder, Chunks(chunks) + ([Deadline] + rest), format, p)
            == if answer.Some? then Answered(answer.value) else Expired
    decreases |chunks|
  {
    if chunks == [] {
      assert Chunks(chunks) + ([Deadline] + rest) == [Deadline] + rest;
    } else {
      var later := Chunks(chunks[1..]) + ([Deadline] + rest);
      assert Chunks(chunks) + ([Deadline] + rest) == [Chunk(chunks[0])] + later;
      var (decoder', items) := Fed(decoder, chunks[0]);
      var (e', payloads) := AshDelivered(e, items);
      var items' := Fed(decoder', Concat(chunks[1..])).1;
      AshStreams.FedConcat(decoder, chunks[0], Concat(chunks[1..]));
      StaysUpConcat(e, items, items');
      UpAfterwards(e, items);
      AwaitWhileUp(e, decoder, chunks[0], later, format, p);
      AshDeliveredConcat(e, items, items');
      FirstAnswerConcat(payloads, AshDelivered(e', items').1, format, p);
      CutsDoNotMatter(e', decoder', chunks[1..], rest, format, p);
    }
  }
}
