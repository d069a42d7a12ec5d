/** Exactly when the client gets the callbacks that the NCP sent, and a session in which it does not. */
module ConservationLaws {
  import opened Basics
  import opened AshFrames
  import opened AshConnections
  import opened AshCodec
  import opened EzspCodec
  import opened EzspFrames
  import opened Callbacks
  import opened Runtimes
  import opened RuntimeLaws
  import opened CommandLaws
  import opened FormatLaws
  import opened AnswerLaws

  // ---------------------------------------------------------------------------------------------
  // One entry at a time.

  /** A payload with the extended header an NCP writes, within the length EZSP permits. */
  predicate ExtendedShape(payload: Bytes) {
    5 <= |payload| <= 218 && payload[2] == 0x01
  }

  /** The reading the entry should have had. */
  function Intended(d: Delivery): seq<Callback> {
    CallbackOf(d.payload, Extended, d.version)
  }

  lemma LegacyReading(payload: Bytes, version: ProtocolVersion)
    requires FlagSet(payload) && ExtendedShape(payload)
    ensures CallbackOf(payload, Legacy, version) == [Unknown(1, payload[3..])]
  {
    assert IdOf(0x01, 0x00) == 1;
  }

  lemma ExtendedReading(payload: Bytes, version: ProtocolVersion)
    requires FlagSet(payload) && ExtendedShape(payload)
    ensures |CallbackOf(payload, Extended, version)| <= 1
    ensures CallbackOf(payload, Extended, version) != [Unknown(1, payload[3..])]
  {
    KnownDecodesKnown(IdOf(payload[3], payload[4]), payload[5..], version);
    assert |payload[3..]| != |payload[5..]|;
    assert [Unknown(1, payload[3..])][0] == Unknown(1, payload[3..]);
  }

  /** A known id never decodes to an unknown callback, and an unknown one keeps its bytes. */
  lemma KnownDecodesKnown(id: FrameId, parameters: Bytes, version: ProtocolVersion)
    ensures var r := Callbacks.Decoded(id, parameters, version);
            r.Ok? && r.value.Unknown? ==> r.value == Unknown(id, parameters)
  {
    if IsKnown(id) {
      var r := Callbacks.Decoded(id, parameters, version);
      if r.Ok? {
        AcceptedIsPrinted(id, parameters, version, r.value);
      }
    }
  }

  predicate Shaped(d: Delivery) {
    FlagSet(d.payload) ==> ExtendedShape(d.payload)
  }

  /** Each entry files at least as many callbacks as it should, and the right ones exactly when it was
      not read as legacy with the flag set. */
  lemma EntryReading(d: Delivery)
    requires Shaped(d)
    ensures |CallbackIn(d)| >= |Intended(d)|
    ensures CallbackIn(d) == Intended(d) <==> !(FlagSet(d.payload) && d.format.Legacy?)
  {
    if !FlagSet(d.payload) {
      OnlyFlaggedAreCallbacks(d.payload, d.format, d.version);
      OnlyFlaggedAreCallbacks(d.payload, Extended, d.version);
    } else if d.format.Legacy? {
      LegacyReading(d.payload, d.version);
      ExtendedReading(d.payload, d.version);
    }
  }

  // ---------------------------------------------------------------------------------------------
  // The whole log.

  function AllIntended(log: seq<Delivery>): seq<Callback> {
    if log == [] then [] else AllIntended(log[..|log| - 1]) + Intended(log[|log| - 1])
  }

  lemma {:induction false} FilesAtLeast(log: seq<Delivery>)
    requires forall k :: 0 <= k < |log| ==> Shaped(log[k])
    ensures |CallbacksOf(log)| >= |AllIntended(log)|
    decreases |log|
  {
    if log != [] {
      FilesAtLeast(log[..|log| - 1]);
      EntryReading(log[|log| - 1]);
    }
  }

  lemma SplitEqual<T>(a: seq<T>, x: seq<T>, b: seq<T>, y: seq<T>)
    requires a + x == b + y && |a| >= |b| && |x| >= |y|
    ensures a == b && x == y
  {
    assert (a + x)[..|a|] == a && (b + y)[..|b|] == b;
    assert (a + x)[|a|..] == x && (b + y)[|b|..] == y;
  }

  /** The whole is right only if every entry is: no entry makes up for another. */
  lemma {:induction false} EveryEntryIsRight(log: seq<Delivery>)
    requires forall k :: 0 <= k < |log| ==> Shaped(log[k])
    requires CallbacksOf(log) == AllIntended(log)
    ensures forall k :: 0 <= k < |log| ==> CallbackIn(log[k]) == Intended(log[k])
    decreases |log|
  {
    if log != [] {
      var before, last := log[..|log| - 1], log[|log| - 1];
      FilesAtLeast(before);
      EntryReading(last);
      SplitEqual(CallbacksOf(before), CallbackIn(last), AllIntended(before), Intended(last));
      EveryEntryIsRight(before);
      forall k | 0 <= k < |log| ensures CallbackIn(log[k]) == Intended(log[k]) {
        if k < |before| {
          assert log[k] == before[k];
        }
      }
    }
  }

  predicate AllOf(log: seq<Delivery>, version: ProtocolVersion) {
    forall k :: 0 <= k < |log| ==> log[k].version == version
  }

  lemma {:induction false} IntendedIsExtended(log: seq<Delivery>, version: ProtocolVersion)
    requires AllOf(log, version)
    ensures AllIntended(log) == ExtendedCallbacks(Payloads(log), version)
    decreases |log|
  {
    if log != [] {
      var n := |log| - 1;
      IntendedIsExtended(log[..n], version);
      assert Payloads(log)[..n] == Payloads(log[..n]);
    }
  }

  lemma {:induction false} IntendedConcat(a: seq<Delivery>, b: seq<Delivery>)
    ensures AllIntended(a + b) == AllIntended(a) + AllIntended(b)
    decreases |b|
  {
    if b == [] {
      assert a + b == a;
    } else {
      assert (a + b)[..|a + b| - 1] == a + b[..|b| - 1];
      IntendedConcat(a, b[..|b| - 1]);
      Associates(AllIntended(a), AllIntended(b[..|b| - 1]), Intended(b[|b| - 1]));
    }
  }

  /** The handing over is right exactly when the log files what was intended. */
  lemma HandsOverByLog(s: Session, c: nat, version: ProtocolVersion)
    requires Conserved(s) && AllFiled(s.n) && c <= |s.n.log|
    requires AllOf(s.n.log[..c], PREFERRED) && AllOf(s.n.log[c..], version)
    ensures HandsOver(s, c, version) <==> CallbacksOf(s.n.log) == AllIntended(s.n.log)
  {
    var log := s.n.log;
    assert log == log[..c] + log[c..];
    IntendedConcat(log[..c], log[c..]);
    IntendedIsExtended(log[..c], PREFERRED);
    IntendedIsExtended(log[c..], version);
    PayloadsSplit(log, c);
  }

  /** Every flagged payload that ASH returned has the extended header. */
  predicate FlaggedAreExtended(n: Runtime) {
    forall k :: 0 <= k < |n.arrived| && FlagSet(n.arrived[k]) ==> ExtendedShape(n.arrived[k])
  }

  lemma ArrivedAreShaped(n: Runtime)
    requires AllFiled(n) && FlaggedAreExtended(n)
    ensures forall k :: 0 <= k < |n.log| ==> Shaped(n.log[k])
  {
    forall k | 0 <= k < |n.log| ensures Shaped(n.log[k]) {
      assert Payloads(n.log)[k] == n.arrived[k];
    }
  }

  lemma RightEntriesAreUndisturbed(n: Runtime)
    requires Explained(n) && forall k :: 0 <= k < |n.log| ==> Shaped(n.log[k])
    requires forall k :: 0 <= k < |n.log| ==> CallbackIn(n.log[k]) == Intended(n.log[k])
    ensures Undisturbed(n)
  {
    forall k | 0 <= k < |n.log| && FlagSet(n.log[k].payload) ensures !LegacyOutstanding(n, k) {
      assert FormatExplained(n, k);
      LegacyByExplanation(n, k);
      EntryReading(n.log[k]);
    }
  }

  /** In every connected session whose flagged payloads have extended headers, the client gets exactly
      the callbacks that the payloads carry, in order, if and only if no flagged payload arrived while
      a legacy command was outstanding. */
  lemma CallbacksAreConservedExactly<R>(script: seq<Read>, actions: seq<Action<R>>)
    requires Connect(script).2.Ok? && FlaggedAreExtended(ClientRun(script, actions).n)
    ensures HandsOver(ClientRun(script, actions), |Connect(script).0.log|, Connect(script).0.version)
            <==> Undisturbed(ClientRun(script, actions).n)
  {
    var connected, s := Connect(script).0, ClientRun(script, actions);
    var c, version := |connected.log|, connected.version;
    if Undisturbed(s.n) {
      CallbacksAreThoseReturned(script, actions);
    }
    if HandsOver(s, c, version) {
      CallbacksAreConserved(script, actions);
      ArrivalsAreFiled(script, actions);
      FormatsAreExplained(script, actions);
      ConnectReadsPreferred(script);
      SessionReadsNegotiated(script, actions);
      HandsOverByLog(s, c, version);
      ArrivedAreShaped(s.n);
      EveryEntryIsRight(s.n.log);
      RightEntriesAreUndisturbed(s.n);
    }
  }

  /** The shape is needed: this payload reads as one status in both formats. */
  lemma ShapeIsNeeded(sequence: bv8)
    ensures var payload: Bytes := [sequence, 0x90, 0x19, 0x19, 0x00, 0x19];
            var version := ProtocolVersion(0x0d);
            && FlagSet(payload) && !ExtendedShape(payload)
            && CallbackOf(payload, Legacy, version) == CallbackOf(payload, Extended, version) == [StackStatus(0x19)]
  {
    var payload: Bytes := [sequence, 0x90, 0x19, 0x19, 0x00, 0x19];
    assert payload[3..] == [0x19, 0x00, 0x19] && payload[5..] == [0x19];
    assert IdOf(0x19, 0x00) == STACK_STATUS_HANDLER;
    assert FromLowByte(0x90).isCallback;
  }

  // ---------------------------------------------------------------------------------------------
  // A whole session in which a report is handed over as something else.

  lemma RunStep<R>(script: seq<Read>, actions: seq<Action<R>>, action: Action<R>)
    ensures ClientRun(script, actions + [action]) == ClientStep(ClientRun(script, actions), action)
  {
    assert (actions + [action])[..|actions|] == actions;
  }

  /** The NCP answers a second reset, not the version command, and then reports its status. */
  function StatusAfterTimeout(sequence: bv8, status: bv8): seq<Read> {
    [Chunk(Line(RstAck(2, 0x0b)))]
    + ([Deadline] + ([Chunk(Line(Data(0, 0, false, StackStatusReport(sequence, status))))] + []))
  }

  /** What the client does meanwhile. */
  function ResetAndAsk(desired: ProtocolVersion): seq<Action<VersionResponse>> {
    [] + [ResetAgain] + [Do(VersionCommand(desired))] + [PollOnce]
  }

  /** Just reset, nothing asked. */
  predicate FreshlyReset(n: Runtime) {
    && Clean(n) && n.decoder == EMPTY && n.ash == ESTABLISHED && !n.initialVersionSent && n.callbacks == []
    && n.version == ProtocolVersion(0x0d)
  }

  lemma ResetAnswered(n: Runtime, v: VersionResponse, rest: seq<Read>)
    requires ConnectedTo(n, v) && v.protocolVersion == ProtocolVersion(0x0d)
    ensures var (m, left, r) := ResetWithin(n, [Chunk(Line(RstAck(2, 0x0b)))] + rest, MAX_RESET_ATTEMPTS);
            FreshlyReset(m) && left == rest && m.arrived == n.arrived
  {
    LineDelivers(RstAck(2, 0x0b));
    RstAckInOneRead(n, Line(RstAck(2, 0x0b)), rest, MAX_RESET_ATTEMPTS, 2, 0x0b);
  }

  lemma ReportMisread(n: Runtime, bytes: Bytes, rest: seq<Read>, sequence: bv8, status: bv8)
    requires n.decoder == EMPTY && n.callbacks == [] && n.ash.nextRxFrame == 0
    requires n.pendingFormat == Some(Legacy) && n.version == ProtocolVersion(0x0d)
    requires Delivers(bytes, Data(0, 0, false, StackStatusReport(sequence, status)))
    ensures var (m, left, r) := Poll(n, [Chunk(bytes)] + rest);
            && r == Ok([Unknown(1, [0x19, 0x00, status])]) && left == rest && m.callbacks == []
            && m.arrived == n.arrived + [StackStatusReport(sequence, status)]
  {
    var report := StackStatusReport(sequence, status);
    var frame := Data(0, 0, false, report);
    var (received, payload, outbound) := Received(n, frame);
    PayloadsAreAnswered(n, frame);
    var replied := Reply(received, outbound).0;
    ReportReadings(sequence, status);
    DispatchAdds(replied, report);
    DispatchLogs(replied, report);
    assert [] + [Unknown(1, [0x19, 0x00, status])] == [Unknown(1, [0x19, 0x00, status])];
    PumpOne(n, bytes, rest, ForCallback, frame);
  }

  lemma ReportIsPortable(sequence: bv8, status: bv8)
    ensures Data(0, 0, false, StackStatusReport(sequence, status)).Portable()
  {
  }

  /** From a connection at version 13, a reset. */
  lemma StepReset(s: Session, v: VersionResponse, rest: seq<Read>)
    requires ConnectedTo(s.n, v) && v.protocolVersion == ProtocolVersion(0x0d)
    requires s.script == [Chunk(Line(RstAck(2, 0x0b)))] + rest
    ensures var t := ClientStep(s, Action<VersionResponse>.ResetAgain);
            FreshlyReset(t.n) && t.script == rest && t.taken == s.taken && t.n.arrived == s.n.arrived
  {
    ResetAnswered(s.n, v, rest);
  }

  /** Nothing outstanding, but the legacy format left over. */
  predicate Stale(n: Runtime) {
    && n.decoder == EMPTY && n.callbacks == [] && n.ash.nextRxFrame == 0
    && n.pendingFormat == Some(Legacy) && n.version == ProtocolVersion(0x0d)
  }

  /** A version command that times out. */
  lemma StepAsk(s: Session, rest: seq<Read>, desired: ProtocolVersion)
    requires FreshlyReset(s.n) && s.script == [Deadline] + rest
    ensures var t := ClientStep(s, Do(VersionCommand(desired)));
            Stale(t.n) && t.script == rest && t.taken == s.taken && t.n.arrived == s.n.arrived
  {
    VersionTimesOut(s.n, rest, desired);
  }

  /** A poll. */
  lemma StepPoll(s: Session, bytes: Bytes, rest: seq<Read>, sequence: bv8, status: bv8)
    requires Stale(s.n) && s.script == [Chunk(bytes)] + rest && s.taken == []
    requires Delivers(bytes, Data(0, 0, false, StackStatusReport(sequence, status)))
    ensures var t := ClientStep(s, Action<VersionResponse>.PollOnce);
            && t.taken == [Unknown(1, [0x19, 0x00, status])] && t.n.callbacks == []
            && t.n.arrived == s.n.arrived + [StackStatusReport(sequence, status)]
  {
    ReportMisread(s.n, bytes, rest, sequence, status);
    assert [] + [Unknown(1, [0x19, 0x00, status])] == [Unknown(1, [0x19, 0x00, status])];
  }

  lemma MisreadFrom(s: Session, v: VersionResponse, desired: ProtocolVersion, sequence: bv8, status: bv8)
    requires ConnectedTo(s.n, v) && v.protocolVersion == ProtocolVersion(0x0d) && s.taken == []
    requires s.script == StatusAfterTimeout(sequence, status)
    ensures var reset := ClientStep(s, Action<VersionResponse>.ResetAgain);
            var asked := ClientStep(reset, Do(VersionCommand(desired)));
            var polled := ClientStep(asked, Action<VersionResponse>.PollOnce);
            && polled.taken == [Unknown(1, [0x19, 0x00, status])] && polled.n.callbacks == []
            && polled.n.arrived == s.n.arrived + [StackStatusReport(sequence, status)]
  {
    var bytes := Line(Data(0, 0, false, StackStatusReport(sequence, status)));
    ReportIsPortable(sequence, status);
    LineDelivers(Data(0, 0, false, StackStatusReport(sequence, status)));
    MisreadSteps(s, v, desired, bytes, sequence, status);
  }

  lemma MisreadSteps(s: Session, v: VersionResponse, desired: ProtocolVersion, bytes: Bytes, sequence: bv8, status: bv8)
    requires ConnectedTo(s.n, v) && v.protocolVersion == ProtocolVersion(0x0d) && s.taken == []
    requires s.script == [Chunk(Line(RstAck(2, 0x0b)))] + ([Deadline] + ([Chunk(bytes)] + []))
    requires Delivers(bytes, Data(0, 0, false, StackStatusReport(sequence, status)))
    ensures var reset := ClientStep(s, Action<VersionResponse>.ResetAgain);
            var asked := ClientStep(reset, Do(VersionCommand(desired)));
            var polled := ClientStep(asked, Action<VersionResponse>.PollOnce);
            && polled.taken == [Unknown(1, [0x19, 0x00, status])] && polled.n.callbacks == []
            && polled.n.arrived == s.n.arrived + [StackStatusReport(sequence, status)]
  {
    var last := [Chunk(bytes)] + [];
    StepReset(s, v, [Deadline] + last);
    var reset := ClientStep(s, Action<VersionResponse>.ResetAgain);
    StepAsk(reset, last, desired);
    StepPoll(ClientStep(reset, Do(VersionCommand(desired))), bytes, [], sequence, status);
  }

  lemma LastReportDecides(s: Session, c: nat, sequence: bv8, status: bv8)
    requires s.taken == [Unknown(1, [0x19, 0x00, status])] && s.n.callbacks == []
    requires c < |s.n.arrived| && s.n.arrived[|s.n.arrived| - 1] == StackStatusReport(sequence, status)
    ensures !HandsOver(s, c, ProtocolVersion(0x0d))
  {
    var version := ProtocolVersion(0x0d);
    var later := s.n.arrived[c..];
    ReportReadings(sequence, status);
    var all := ExtendedCallbacks(s.n.arrived[..c], PREFERRED) + ExtendedCallbacks(later, version);
    assert all[|all| - 1] == StackStatus(status as bv32);
    assert (s.taken + s.n.callbacks)[0] == Unknown(1, [0x19, 0x00, status]);
  }

  /** A whole session that loses a report: an NCP of version 13 that answers the connection and a later
      reset, but not the version command after it. The client is handed an unknown callback. */
  lemma StatusIsLost(v: VersionResponse, desired: ProtocolVersion, sequence: bv8, status: bv8)
    requires v.protocolVersion == ProtocolVersion(0x0d) && v.stackType == STACK_TYPE_MESH
    ensures var script := AnsweringNcp(v, StatusAfterTimeout(sequence, status));
            var s := ClientRun(script, ResetAndAsk(desired));
            && Connect(script).2.Ok?
            && s.taken == [Unknown(1, [0x19, 0x00, status])]
            && !HandsOver(s, |Connect(script).0.log|, Connect(script).0.version)
  {
    var script := AnsweringNcp(v, StatusAfterTimeout(sequence, status));
    var start := Session(Connect(script).0, Connect(script).1, []);
    SessionBegins(v, sequence, status);
    MisreadFrom(start, v, desired, sequence, status);
    ThreeSteps(script, desired);
    LastReportDecides(ClientRun(script, ResetAndAsk(desired)), |Connect(script).0.log|, sequence, status);
  }

  lemma SessionBegins(v: VersionResponse, sequence: bv8, status: bv8)
    requires v.protocolVersion == ProtocolVersion(0x0d) && v.stackType == STACK_TYPE_MESH
    ensures var (n, left, r) := Connect(AnsweringNcp(v, StatusAfterTimeout(sequence, status)));
            && r.Ok? && ConnectedTo(n, v) && left == StatusAfterTimeout(sequence, status)
            && |n.log| == |n.arrived|
  {
    AnsweringNcpConnects(v, StatusAfterTimeout(sequence, status));
    ConnectedQueue(AnsweringNcp(v, StatusAfterTimeout(sequence, status)));
  }

  /** The session, one action at a time. */
  lemma ThreeSteps(script: seq<Read>, desired: ProtocolVersion)
    ensures var start := Session(Connect(script).0, Connect(script).1, []);
            var reset := ClientStep(start, Action<VersionResponse>.ResetAgain);
            var asked := ClientStep(reset, Do(VersionCommand(desired)));
            ClientRun(script, ResetAndAsk(desired)) == ClientStep(asked, Action<VersionResponse>.PollOnce)
  {
    var none: seq<Action<VersionResponse>> := [];
    RunStep(script, none, ResetAgain);
    RunStep(script, none + [ResetAgain], Do(VersionCommand(desired)));
    RunStep(script, none + [ResetAgain] + [Do(VersionCommand(desired))], PollOnce);
  }
}
