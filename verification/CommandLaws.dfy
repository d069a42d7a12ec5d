/** What a command's outcome rests on, and when it leaves the runtime ready for the next one. */
module CommandLaws {
  import opened Basics
  import opened AshFrames
  import opened AshConnections
  import opened AshCodec
  import opened EzspCodec
  import opened EzspFrames
  import opened Runtimes
  import opened RuntimeInduction
  import RuntimeLaws
  import Correlators

  // ---------------------------------------------------------------------------------------------
  // A response is only ever the pending command's.

  /** The parameters of `payload` if, read in this format, it is a non-callback response with the
      sequence and id of `p`. */
  function AnswerTo(payload: Bytes, format: HeaderFormat, p: Correlators.Pending): Option<Bytes> {
    match Parse(payload, format)
    case Ok(f) =>
      if !f.control.isCallback && f.control.direction == Response && f.sequence == p.sequence && f.frameId == p.frameId
      then Some(f.parameters) else None
    case Err(_) => None
  }

  function AnswerIn(d: Delivery, p: Correlators.Pending): Option<Bytes> {
    AnswerTo(d.payload, d.format, p)
  }

  predicate NoAnswer(log: seq<Delivery>, from: nat, p: Correlators.Pending) {
    forall j :: from <= j < |log| ==> AnswerIn(log[j], p).None?
  }

  /** Entry `k` is the first from `from` on that answers `p`; it was read in `format`, with these
      parameters. */
  predicate AnsweredAt(log: seq<Delivery>, from: nat, p: Correlators.Pending, format: HeaderFormat, parameters: Bytes,
                       k: nat)
  {
    && from <= k < |log|
    && log[k].format == format && AnswerIn(log[k], p) == Some(parameters)
    && NoAnswer(log[..k], from, p)
  }

  /** The first delivery from `from` on that answers `p` was read in `format`, with these parameters. */
  ghost predicate FirstAnswered(log: seq<Delivery>, from: nat, p: Correlators.Pending, format: HeaderFormat,
                                parameters: Bytes)
  {
    exists k: nat :: AnsweredAt(log, from, p, format, parameters, k)
  }

  /** Command `p`, issued in `format` when the log held `from` entries, is outstanding with nothing in
      the log to answer it, or its first answer is parked and nothing is outstanding. */
  ghost predicate Tracked(n: Runtime, from: nat, p: Correlators.Pending, format: HeaderFormat) {
    match n.response
    case None => n.correlator.pending == Some(p) && n.pendingFormat == Some(format) && NoAnswer(n.log, from, p)
    case Some(parameters) =>
      n.correlator.pending == None && n.pendingFormat == None && FirstAnswered(n.log, from, p, format, parameters)
  }

  /** What receiving never changes. */
  predicate Steady(n: Runtime, m: Runtime) {
    && n.version == m.version && n.sent == m.sent && n.initialVersionSent == m.initialVersionSent
    && n.begun == m.begun && n.restarts == m.restarts
    && n.correlator.nextSequence == m.correlator.nextSequence
    && n.log <= m.log
    && (n.correlator.pending == None ==> m.correlator.pending == None && m.response == n.response)
  }

  lemma FirstAnsweredLater(log: seq<Delivery>, d: Delivery, from: nat, p: Correlators.Pending, format: HeaderFormat,
                           parameters: Bytes)
    requires FirstAnswered(log, from, p, format, parameters)
    ensures FirstAnswered(log + [d], from, p, format, parameters)
  {
    var k: nat :| AnsweredAt(log, from, p, format, parameters, k);
    assert (log + [d])[k] == log[k] && (log + [d])[..k] == log[..k];
    assert AnsweredAt(log + [d], from, p, format, parameters, k);
  }

  /** Filing a payload logs it in the pending command's format and either answers that command into
      the response slot, when it is its answer, or leaves command, format and slot alone. */
  predicate FiledOrAnswered(n: Runtime, m: Runtime, d: Delivery) {
    && m.log == n.log + [d]
    && d.format == (if n.pendingFormat.Some? then n.pendingFormat.value else Extended)
    && d.pending == n.correlator.pending
    && if n.correlator.pending.Some? && AnswerIn(d, n.correlator.pending.value).Some? then
         && m.correlator.pending == None && m.pendingFormat == None
         && m.response == AnswerIn(d, n.correlator.pending.value)
       else
         && m.correlator.pending == n.correlator.pending && m.pendingFormat == n.pendingFormat
         && m.response == n.response
  }

  /** The entry that filing `payload` makes. */
  function Entry(n: Runtime, payload: Bytes): Delivery {
    Delivery(payload, if n.pendingFormat.Some? then n.pendingFormat.value else Extended, n.version,
             n.correlator.pending)
  }

  lemma DispatchFilesOrAnswers(n: Runtime, payload: Bytes)
    ensures FiledOrAnswered(n, Dispatch(n, payload), Entry(n, payload))
  {
  }

  lemma FiledTracks(n: Runtime, m: Runtime, d: Delivery, from: nat, p: Correlators.Pending, format: HeaderFormat)
    requires Tracked(n, from, p, format) && from <= |n.log| && FiledOrAnswered(n, m, d)
    ensures Tracked(m, from, p, format)
  {
    if n.response.Some? {
      FirstAnsweredLater(n.log, d, from, p, format, n.response.value);
    } else if m.response.Some? {
      assert m.log[..|n.log|] == n.log;
      assert AnsweredAt(m.log, from, p, format, m.response.value, |n.log|);
    }
  }

  lemma HandleTracks(n: Runtime, item: AshCodec.Decoded, from: nat, p: Correlators.Pending, format: HeaderFormat)
    requires Tracked(n, from, p, format) && from <= |n.log|
    ensures Tracked(Handle(n, item).0, from, p, format)
  {
    if item.Frame? {
      var (received, payload, outbound) := Received(n, item.frame);
      var (m, r) := Reply(received, outbound);
      if r.Ok? && payload.Some? {
        DispatchFilesOrAnswers(m, payload.value);
        FiledTracks(m, Dispatch(m, payload.value), Entry(m, payload.value), from, p, format);
      }
    }
  }

  lemma DispatchIsSteady(n: Runtime, payload: Bytes)
    ensures Steady(n, Dispatch(n, payload)) && Dispatch(n, payload).ash == n.ash
  {
  }

  lemma HandleIsSteady(n: Runtime, item: AshCodec.Decoded)
    ensures Steady(n, Handle(n, item).0)
  {
    if item.Frame? {
      var (received, payload, outbound) := Received(n, item.frame);
      var (m, r) := Reply(received, outbound);
      if r.Ok? && payload.Some? {
        DispatchIsSteady(m, payload.value);
      }
    }
  }

  function SteadyFrom(n: Runtime): Runtime -> bool {
    m => Steady(n, m)
  }

  lemma PumpIsSteady(n: Runtime, script: seq<Read>, goal: Goal)
    ensures Steady(n, Pump(n, script, goal).0)
  {
    forall m, item | Steady(n, m) ensures Steady(n, Handle(m, item).0) {
      HandleIsSteady(m, item);
    }
    PumpKeeps(SteadyFrom(n), n, script, goal);
  }

  ghost function TrackedBy(from: nat, p: Correlators.Pending, format: HeaderFormat): Runtime -> bool {
    (m: Runtime) => from <= |m.log| && Tracked(m, from, p, format)
  }

  lemma PumpTracks(n: Runtime, script: seq<Read>, goal: Goal, from: nat, p: Correlators.Pending, format: HeaderFormat)
    requires from <= |n.log| && Tracked(n, from, p, format)
    ensures Tracked(Pump(n, script, goal).0, from, p, format)
  {
    var inv := TrackedBy(from, p, format);
    forall m, item | inv(m) ensures inv(Handle(m, item).0) {
      HandleTracks(m, item, from, p, format);
      HandleIsSteady(m, item);
    }
    PumpKeeps(inv, n, script, goal);
  }

  /** From `n` to `m`, the first delivered answer to `command` was read in the header format it was
      sent in, and its parameters decode to `v` and nothing more. */
  ghost predicate Justified<R>(n: Runtime, m: Runtime, command: CommandSpec<R>, v: R) {
    exists parameters ::
      && FirstAnswered(m.log, |n.log|, NextPending(n, command), FormatFor(n, command.id), parameters)
      && command.parse(parameters, n.version) == Ok((v, []))
  }

  lemma IssueTracks<R>(n: Runtime, command: CommandSpec<R>)
    requires n.response == None && Issue(n, command).1.Ok?
    ensures var m := Issue(n, command).0;
            && Tracked(m, |n.log|, NextPending(n, command), FormatFor(n, command.id))
            && m.log == n.log && m.version == n.version
            && m.correlator.nextSequence == Wrapping(n.correlator.nextSequence)
  {
  }

  /** A command succeeds only on the first answer delivered after it was issued, read in its own
      header format, and then leaves nothing pending or parked. */
  lemma CommandIsSound<R>(n: Runtime, script: seq<Read>, command: CommandSpec<R>)
    requires n.response == None && Perform(n, script, command).2.Ok?
    ensures var (m, _, r) := Perform(n, script, command);
            && Justified(n, m, command, r.value)
            && m.correlator.pending == None && m.pendingFormat == None && m.response == None
            && m.version == n.version && n.log <= m.log
            && m.correlator.nextSequence == Wrapping(n.correlator.nextSequence)
  {
    var p, format := NextPending(n, command), FormatFor(n, command.id);
    IssueTracks(n, command);
    var issued := Issue(n, command).0;
    PumpIsSteady(issued, script, ForResponse);
    PumpTracks(issued, script, ForResponse, |n.log|, p, format);
    var (pumped, _, outcome) := Pump(issued, script, ForResponse);
    assert outcome.Ok? && pumped.response.Some?;
    assert FirstAnswered(pumped.log, |n.log|, p, format, pumped.response.value);
  }

  lemma NoAnswerAt(log: seq<Delivery>, from: nat, p: Correlators.Pending, i: nat, j: nat)
    requires from <= i < j <= |log| && NoAnswer(log[..j], from, p)
    ensures AnswerIn(log[i], p).None?
  {
    assert log[..j][i] == log[i];
  }

  lemma FirstAnswerIsUnique(log: seq<Delivery>, from: nat, p: Correlators.Pending, format: HeaderFormat,
                            x: Bytes, y: Bytes)
    requires FirstAnswered(log, from, p, format, x) && FirstAnswered(log, from, p, format, y)
    ensures x == y
  {
    var i: nat :| AnsweredAt(log, from, p, format, x, i);
    var j: nat :| AnsweredAt(log, from, p, format, y, j);
    if i < j {
      NoAnswerAt(log, from, p, i, j);
    } else if j < i {
      NoAnswerAt(log, from, p, j, i);
    }
  }

  // ---------------------------------------------------------------------------------------------
  // When a command leaves the runtime ready for the next one.

  /** Every unacknowledged payload can be written again. */
  predicate Encodable(e: Endpoint) {
    forall i :: 0 <= i < |e.inFlight| ==> |e.inFlight[i].payload| <= 130
  }

  /** Nothing pending, nothing parked, nothing unwritable in flight. */
  predicate Clean(n: Runtime) {
    n.correlator.pending == None && n.response == None && Encodable(n.ash)
  }

  lemma RetireKeepsEncodable(e: Endpoint, ackNum: u8)
    requires Encodable(e)
    ensures Encodable(Retire(e, ackNum))
  {
  }

  lemma ResendEncodes(e: Endpoint)
    requires Encodable(e)
    ensures var (e', outbound) := RetransmitOldest(e);
            Encodable(e') && (outbound.Send? ==> Encoded(outbound.frame).Ok?)
  {
    var outbound := RetransmitOldest(e).1;
    if outbound.Send? {
      RuntimeLaws.EncodesUpTo130(outbound.frame);
    }
  }

  lemma OnFrameEncodes(e: Endpoint, frame: AshFrame)
    requires Encodable(e)
    ensures var (e', _, outbound) := OnFrame(e, frame);
            Encodable(e') && (outbound.Send? ==> Encoded(outbound.frame).Ok?)
  {
    if frame.Acknowledges().Some? {
      var e' := Retire(e, frame.ackNum);
      RetireKeepsEncodable(e, frame.ackNum);
      if frame.Nak? {
        ResendEncodes(e');
      } else if frame.Data? {
        RuntimeLaws.EncodesUpTo130(OnFrame(e, frame).2.frame);
      }
    }
  }

  lemma HandleSucceeds(n: Runtime, item: AshCodec.Decoded)
    requires Encodable(n.ash)
    ensures var (m, r) := Handle(n, item); r.Ok? && Encodable(m.ash)
  {
    match item
    case Frame(frame) =>
      OnFrameEncodes(n.ash, frame);
      var (m, payload, outbound) := Received(n, frame);
      if payload.Some? {
        DispatchIsSteady(Reply(m, outbound).0, payload.value);
      }
    case Rejected(error) =>
      var outbound := OnDecodeFailure(n.ash, error).1;
      if outbound.Send? {
        RuntimeLaws.EncodesUpTo130(outbound.frame);
      }
  }

  lemma {:induction false} HandleAllSucceeds(n: Runtime, items: seq<AshCodec.Decoded>)
    requires Encodable(n.ash)
    ensures var (m, r) := HandleAll(n, items); r.Ok? && Encodable(m.ash)
    decreases |items|
  {
    if items != [] {
      HandleSucceeds(n, items[0]);
      HandleAllSucceeds(Handle(n, items[0]).0, items[1..]);
    }
  }

  lemma ConsumeSucceeds(n: Runtime, bytes: Bytes)
    requires Encodable(n.ash)
    ensures var (m, r) := Consume(n, bytes); r.Ok? && Encodable(m.ash)
  {
    var (decoder, items) := Fed(n.decoder, bytes);
    HandleAllSucceeds(n.(decoder := decoder), items);
  }

  lemma {:induction false} PumpSucceeds(n: Runtime, script: seq<Read>, goal: Goal)
    requires Encodable(n.ash)
    ensures var (m, _, r) := Pump(n, script, goal); r.Ok? && Encodable(m.ash)
    decreases |script|
  {
    if !(Reached(n, goal) || script == [] || script[0].Deadline?) {
      ConsumeSucceeds(n, script[0].bytes);
      PumpSucceeds(Consume(n, script[0].bytes).0, script[1..], goal);
    }
  }

  /** The request can be built, fits one ASH frame, and the connection accepts it: all known to the
      caller beforehand. */
  predicate Sendable<R>(n: Runtime, command: CommandSpec<R>) {
    var bytes := RequestBytes(n, command, n.correlator.nextSequence);
    && bytes.Ok? && |bytes.value| <= 130
    && n.ash.state.Connected? && |n.ash.inFlight| < 7
  }

  lemma IssueExactlySendable<R>(n: Runtime, command: CommandSpec<R>)
    requires Clean(n) && command.available(n.version)
    ensures var (m, r) := Issue(n, command);
            && (r.Ok? <==> Sendable(n, command))
            && m.correlator.pending == Some(Correlators.Pending(n.correlator.nextSequence, command.id))
            && m.response == None
            && (r.Ok? ==> Encodable(m.ash))
  {
    var bytes := RequestBytes(n, command, n.correlator.nextSequence);
    if bytes.Ok? {
      var data := SendData(n.ash, bytes.value, MAX_WINDOW).1;
      if data.Ok? {
        RuntimeLaws.EncodesUpTo130(data.value);
      }
    }
  }

  lemma ConcludeClears<R>(n: Runtime, command: CommandSpec<R>)
    ensures var m := Conclude(n, command, Ok(())).0;
            && m.response == None && m.ash == n.ash
            && (n.response == None || n.correlator.pending == None ==> m.correlator.pending == None)
  {
  }

  lemma SentLeavesClean<R>(n: Runtime, script: seq<Read>, command: CommandSpec<R>)
    requires Clean(n) && command.available(n.version) && Sendable(n, command)
    ensures Clean(Perform(n, script, command).0)
  {
    IssueExactlySendable(n, command);
    IssueTracks(n, command);
    var issued := Issue(n, command).0;
    PumpTracks(issued, script, ForResponse, |n.log|, NextPending(n, command), FormatFor(n, command.id));
    PumpSucceeds(issued, script, ForResponse);
    ConcludeClears(Pump(issued, script, ForResponse).0, command);
  }

  lemma ConcludeReturns<R>(pumped: Runtime, command: CommandSpec<R>, v: R)
    ensures Conclude(pumped, command, Ok(())).1 == Ok(v)
            <==> pumped.response.Some? && command.parse(pumped.response.value, pumped.version) == Ok((v, []))
    ensures Conclude(pumped, command, Ok(())).0.log == pumped.log
  {
  }

  /** The exact statement: over every script, a sendable command returns `v` if and only if the first
      delivered payload that answers it was read in its own header format and decodes to `v` with
      nothing left over. */
  lemma CommandSucceedsExactly<R>(n: Runtime, script: seq<Read>, command: CommandSpec<R>, v: R)
    requires Clean(n) && command.available(n.version) && Sendable(n, command)
    ensures var (m, _, r) := Perform(n, script, command);
            r == Ok(v) <==> Justified(n, m, command, v)
  {
    var p, format := NextPending(n, command), FormatFor(n, command.id);
    IssueExactlySendable(n, command);
    IssueTracks(n, command);
    var issued := Issue(n, command).0;
    PumpIsSteady(issued, script, ForResponse);
    PumpTracks(issued, script, ForResponse, |n.log|, p, format);
    PumpSucceeds(issued, script, ForResponse);
    var pumped := Pump(issued, script, ForResponse).0;
    ConcludeReturns(pumped, command, v);
    JustifiedByResponse(n, pumped, command, v);
  }

  lemma JustifiedByResponse<R>(n: Runtime, m: Runtime, command: CommandSpec<R>, v: R)
    requires Tracked(m, |n.log|, NextPending(n, command), FormatFor(n, command.id))
    ensures Justified(n, m, command, v)
            <==> m.response.Some? && command.parse(m.response.value, n.version) == Ok((v, []))
  {
    var p, format := NextPending(n, command), FormatFor(n, command.id);
    if Justified(n, m, command, v) {
      var parameters :| FirstAnswered(m.log, |n.log|, p, format, parameters)
                        && command.parse(parameters, n.version) == Ok((v, []));
      if m.response.Some? {
        FirstAnswerIsUnique(m.log, |n.log|, p, format, parameters, m.response.value);
      } else {
        assert false;
      }
    }
  }

  /** From a clean state, a command leaves the runtime clean, whether answered, timed out or cut
      off, exactly when it was refused for its version or could be sent; a request of 131 to 218
      bytes, a closed link or a full window leaves it pending though nobody will answer it. */
  lemma CommandLeavesClean<R>(n: Runtime, script: seq<Read>, command: CommandSpec<R>)
    requires Clean(n)
    ensures Clean(Perform(n, script, command).0)
            <==> !command.available(n.version) || Sendable(n, command)
  {
    if command.available(n.version) {
      IssueExactlySendable(n, command);
      if Sendable(n, command) {
        SentLeavesClean(n, script, command);
      }
    }
  }

  /** Why a command that is not sendable is refused: a request that cannot be built or exceeds 218 bytes,
      a link that is down, seven frames unacknowledged, or more than 130 bytes. */
  lemma UnsendableReports<R>(n: Runtime, script: seq<Read>, command: CommandSpec<R>)
    requires Clean(n) && command.available(n.version) && !Sendable(n, command)
    ensures var bytes := RequestBytes(n, command, n.correlator.nextSequence);
            Perform(n, script, command).2
            == Err(if bytes.Err? then bytes.error
                   else AshFailure(if !n.ash.state.Connected? then NotConnected
                                   else if |n.ash.inFlight| >= 7 then WindowFull(|n.ash.inFlight|, 7)
                                   else TooLong(|bytes.value| + 3, 133)))
    ensures Perform(n, script, command).1 == script
  {
    IssueExactlySendable(n, command);
    var bytes := RequestBytes(n, command, n.correlator.nextSequence);
    if bytes.Ok? {
      RuntimeLaws.EncodesUpTo130(Data(n.ash.nextTxFrame, n.ash.nextRxFrame, false, bytes.value));
    }
  }

  /** A command that the version does not have is refused at once and changes nothing. */
  lemma UnavailableReports<R>(n: Runtime, script: seq<Read>, command: CommandSpec<R>)
    requires !command.available(n.version)
    ensures Perform(n, script, command) == (n, script, Err(UnsupportedCommand(command.id, n.version)))
  {
  }

  /** While a command is pending, every further one is refused and changes nothing. */
  lemma PendingBlocks<R>(n: Runtime, script: seq<Read>, command: CommandSpec<R>)
    requires n.correlator.pending.Some? && command.available(n.version)
    ensures Perform(n, script, command)
            == (n, script, Err(SequenceMismatch(n.correlator.pending.value.sequence)))
  {
  }

  // ---------------------------------------------------------------------------------------------
  // Whole sessions.

  lemma ResetAttemptKeepsClean(n: Runtime, script: seq<Read>)
    requires Clean(n)
    ensures var (m, _, handshake) := ResetAttempt(n, script);
            && Clean(m) && m.version == n.version
            && m.sent == n.sent + (if handshake.Completed? then [ResetDone] else [])
            && (handshake.Completed? ==> m.correlator == Correlators.IDLE && !m.initialVersionSent)
  {
    var w := ResetSent(n);
    ResetAttemptCases(n, script);
    PumpIsSteady(w, script, ForConnection);
    PumpSucceeds(w, script, ForConnection);
  }

  lemma ResetKeepsClean(n: Runtime, script: seq<Read>, attempts: nat)
    requires Clean(n)
    ensures var (m, _, r) := ResetWithin(n, script, attempts);
            && Clean(m) && m.version == n.version
            && (r.Ok? ==>
                  && m.correlator == Correlators.IDLE && !m.initialVersionSent
                  && m.sent == n.sent + [ResetDone])
  {
    var inv := (m: Runtime) => Clean(m) && m.version == n.version && m.sent == n.sent;
    var done := (m: Runtime) =>
      && Clean(m) && m.version == n.version && m.sent == n.sent + [ResetDone]
      && m.correlator == Correlators.IDLE && !m.initialVersionSent;
    forall m, s | inv(m)
      ensures if ResetAttempt(m, s).2.Completed? then done(ResetAttempt(m, s).0) else inv(ResetAttempt(m, s).0)
    {
      ResetAttemptKeepsClean(m, s);
    }
    TriedKeeps(ResetAttempt, inv, done, n, script, attempts);
  }

  lemma SuccessWasSendable<R>(n: Runtime, script: seq<Read>, command: CommandSpec<R>)
    requires Clean(n) && Perform(n, script, command).2.Ok?
    ensures Sendable(n, command) && Clean(Perform(n, script, command).0)
  {
    IssueExactlySendable(n, command);
    CommandLeavesClean(n, script, command);
  }

  /** What the exchanges of a successful negotiation returned. */
  lemma NegotiateCases(n: Runtime, script: seq<Read>)
    requires Negotiate(n, script).2.Ok?
    ensures var (m, script', r) := Perform(n, script, VersionCommand(PREFERRED));
            && r.Ok? && r.value.stackType == STACK_TYPE_MESH && r.value.protocolVersion.IsSupported()
            && var agreed := r.value.protocolVersion;
               var (m', script'', r') := Perform(m, script', VersionCommand(agreed));
               if agreed == PREFERRED then Negotiate(n, script) == (m, script', r)
               else Negotiate(n, script) == (m', script'', r') && r'.Ok? && r'.value.protocolVersion == agreed
  {
  }

  lemma NegotiateLeavesClean(n: Runtime, script: seq<Read>)
    requires Clean(n) && Negotiate(n, script).2.Ok?
    ensures Clean(Negotiate(n, script).0)
  {
    NegotiateCases(n, script);
    SuccessWasSendable(n, script, VersionCommand(PREFERRED));
    var (m, script', r) := Perform(n, script, VersionCommand(PREFERRED));
    if r.value.protocolVersion != PREFERRED {
      SuccessWasSendable(m, script', VersionCommand(r.value.protocolVersion));
    }
  }

  lemma ConnectLeavesClean(script: seq<Read>)
    requires Connect(script).2.Ok?
    ensures Clean(Connect(script).0)
  {
    ResetKeepsClean(NEW, script, MAX_RESET_ATTEMPTS);
    var (n, script', _) := ResetWithin(NEW, script, MAX_RESET_ATTEMPTS);
    NegotiateLeavesClean(n, script');
  }

  /** Every command of the session is refused for its version or sendable when it is issued. */
  predicate WellUsed<R>(script: seq<Read>, actions: seq<Action<R>>) {
    actions == [] ||
    var before, last := actions[..|actions| - 1], actions[|actions| - 1];
    && WellUsed(script, before)
    && (last.Do? ==>
          var n := ClientRun(script, before).n;
          !last.command.available(n.version) || Sendable(n, last.command))
  }

  /** A well-used session is clean after every action, so by `CommandIsSound` each of its commands
      that succeeds is justified by its own answer. */
  lemma {:induction false} SessionsStayClean<R>(script: seq<Read>, actions: seq<Action<R>>)
    requires Connect(script).2.Ok? && WellUsed(script, actions)
    ensures Clean(ClientRun(script, actions).n)
  {
    if actions == [] {
      ConnectLeavesClean(script);
    } else {
      var before, last := actions[..|actions| - 1], actions[|actions| - 1];
      SessionsStayClean(script, before);
      var s := ClientRun(script, before);
      match last
      case Do(command) => CommandLeavesClean(s.n, s.script, command);
      case PollOnce =>
        PumpIsSteady(s.n, s.script, ForCallback);
        PumpSucceeds(s.n, s.script, ForCallback);
      case TakeQueue =>
      case ResetAgain => ResetKeepsClean(s.n, s.script, MAX_RESET_ATTEMPTS);
    }
  }
}
