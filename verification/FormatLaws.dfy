/** In which header format and version every payload is read, and what that means for callbacks. */
module FormatLaws {
  import opened Basics
  import opened AshConnections
  import opened AshCodec
  import opened EzspCodec
  import opened EzspFrames
  import opened Callbacks
  import opened Runtimes
  import opened RuntimeInduction
  import opened RuntimeLaws
  import opened CommandLaws

  // ---------------------------------------------------------------------------------------------
  // The format, from the history of commands and answers.

  /** The entry answered the command that was pending when it was filed. */
  predicate Accepted(d: Delivery) {
    d.pending.Some? && AnswerIn(d, d.pending.value).Some?
  }

  /** The format of the last command begun, unless it has been answered. */
  function Outstanding(begun: seq<Begun>, log: seq<Delivery>): Option<HeaderFormat> {
    if begun == [] then None
    else
      var last := begun[|begun| - 1];
      if exists j :: last.from <= j < |log| && Accepted(log[j]) then None else Some(last.format)
  }

  /** The commands begun before entry `k` was filed. */
  function BegunBy(begun: seq<Begun>, k: nat): seq<Begun> {
    if begun == [] || begun[|begun| - 1].from <= k then begun else BegunBy(begun[..|begun| - 1], k)
  }

  /** What was outstanding when entry `k` was filed. */
  function OutstandingAt(n: Runtime, k: nat): Option<HeaderFormat>
    requires k <= |n.log|
  {
    Outstanding(BegunBy(n.begun, k), n.log[..k])
  }

  predicate FormatExplained(n: Runtime, k: nat)
    requires k < |n.log|
  {
    n.log[k].format == (if OutstandingAt(n, k).Some? then OutstandingAt(n, k).value else Extended)
  }

  predicate Explained(n: Runtime) {
    && (forall i :: 0 <= i < |n.begun| ==> n.begun[i].from <= |n.log|)
    && (forall k :: 0 <= k < |n.log| ==> FormatExplained(n, k))
    && n.pendingFormat == Outstanding(n.begun, n.log)
    && (n.correlator.pending.Some? ==> n.pendingFormat.Some?)
  }

  lemma BegunByNow(begun: seq<Begun>, k: nat)
    requires forall i :: 0 <= i < |begun| ==> begun[i].from <= k
    ensures BegunBy(begun, k) == begun
  {
  }

  lemma ExplainedByFiling(n: Runtime, m: Runtime, d: Delivery)
    requires Explained(n) && FiledOrAnswered(n, m, d) && m.begun == n.begun
    ensures Explained(m)
  {
    assert m.log == n.log + [d];
    forall k | 0 <= k < |m.log| ensures FormatExplained(m, k) {
      if k < |n.log| {
        assert FormatExplained(n, k) && m.log[..k] == n.log[..k];
      } else {
        assert m.log[..k] == n.log;
        BegunByNow(n.begun, k);
      }
    }
    OutstandingAfter(n.begun, n.log, d);
  }

  lemma OutstandingAfter(begun: seq<Begun>, log: seq<Delivery>, d: Delivery)
    requires forall i :: 0 <= i < |begun| ==> begun[i].from <= |log|
    ensures Outstanding(begun, log + [d]) == if Accepted(d) then None else Outstanding(begun, log)
  {
    if begun != [] {
      var from, longer := begun[|begun| - 1].from, log + [d];
      if j :| from <= j < |log| && Accepted(log[j]) {
        assert Accepted(longer[j]);
      }
      if Accepted(d) {
        assert Accepted(longer[|log|]);
      }
    }
  }

  lemma ExplainedByHandling(n: Runtime, item: AshCodec.Decoded)
    requires Explained(n)
    ensures Explained(Handle(n, item).0)
  {
    if item.Frame? {
      var (received, payload, outbound) := Received(n, item.frame);
      var (m, r) := Reply(received, outbound);
      assert Explained(m) by { ExplainedBySame(n, m); }
      if r.Ok? && payload.Some? {
        DispatchFilesOrAnswers(m, payload.value);
        DispatchIsSteady(m, payload.value);
        ExplainedByFiling(m, Dispatch(m, payload.value), Entry(m, payload.value));
      }
    } else {
      ExplainedBySame(n, Handle(n, item).0);
    }
  }

  /** Nothing else that happens matters. */
  lemma ExplainedBySame(n: Runtime, m: Runtime)
    requires Explained(n)
    requires m.log == n.log && m.begun == n.begun && m.pendingFormat == n.pendingFormat
    requires m.correlator.pending.Some? ==> n.correlator.pending.Some?
    ensures Explained(m)
  {
    forall k | 0 <= k < |m.log| ensures FormatExplained(m, k) {
      assert FormatExplained(n, k);
    }
  }

  lemma ExplainedByBeginning(n: Runtime, m: Runtime, b: Begun)
    requires Explained(n)
    requires m.log == n.log && m.begun == n.begun + [b] && b.from == |n.log| && m.pendingFormat == Some(b.format)
    ensures Explained(m)
  {
    forall k | 0 <= k < |m.log| ensures FormatExplained(m, k) {
      assert FormatExplained(n, k);
      assert m.begun[..|m.begun| - 1] == n.begun;
    }
  }

  lemma SubmittedKeepsFormat<R>(n: Runtime, command: CommandSpec<R>, sequence: u8)
    ensures var m := Submitted(n, command, sequence).0;
            && m.log == n.log && m.begun == n.begun && m.pendingFormat == n.pendingFormat
            && m.correlator == n.correlator
  {
  }

  lemma IssueBegins<R>(n: Runtime, command: CommandSpec<R>)
    ensures var m := Issue(n, command).0;
            && m.log == n.log
            && ((m.begun == n.begun && m.pendingFormat == n.pendingFormat && m.correlator == n.correlator)
                || (m.begun == n.begun + [NewCommand(n, command)]
                    && m.pendingFormat == Some(FormatFor(n, command.id))))
  {
    var (started, sequence) := Started(n, command);
    if command.available(n.version) && sequence.Ok? {
      SubmittedKeepsFormat(started, command, sequence.value);
    }
  }

  lemma ConcludeKeepsFormat<R>(n: Runtime, command: CommandSpec<R>, outcome: Result<(), EzspError>)
    ensures var m := Conclude(n, command, outcome).0;
            && m.log == n.log && m.begun == n.begun && m.pendingFormat == n.pendingFormat
            && (m.correlator.pending.Some? ==> n.correlator.pending.Some?)
  {
    if outcome.Ok? && n.response.Some? {
    } else {
    }
  }

  const EXPLAINED: Runtime -> bool := n => Explained(n)

  lemma ExplainedByCommand<R>(command: CommandSpec<R>)
    ensures KeptByCommand(EXPLAINED, command)
  {
    forall n | Explained(n) ensures Explained(Issue(n, command).0) {
      var m := Issue(n, command).0;
      IssueBegins(n, command);
      if m.begun == n.begun {
        ExplainedBySame(n, m);
      } else {
        ExplainedByBeginning(n, m, NewCommand(n, command));
      }
    }
    forall n, outcome | Explained(n) ensures Explained(Conclude(n, command, outcome).0) {
      ConcludeKeepsFormat(n, command, outcome);
      ExplainedBySame(n, Conclude(n, command, outcome).0);
    }
  }

  lemma ExplainedByReading()
    ensures KeptByReading(EXPLAINED)
  {
    forall n, item | Explained(n) ensures Explained(Handle(n, item).0) {
      ExplainedByHandling(n, item);
    }
    forall n, decoder | Explained(n) ensures Explained(n.(decoder := decoder)) {
      ExplainedBySame(n, n.(decoder := decoder));
    }
  }

  lemma ExplainedByReset()
    ensures KeptByReset(EXPLAINED)
  {
    forall n | Explained(n)
      ensures Explained(n.(decoder := EMPTY, ash := BeginReset(n.ash).0))
      ensures Explained(ResetSent(n)) && Explained(ResetCompleted(n))
    {
      ExplainedBySame(n, n.(decoder := EMPTY, ash := BeginReset(n.ash).0));
      ExplainedBySame(n, ResetSent(n));
      ExplainedBySame(n, ResetCompleted(n));
    }
  }

  /** Over every session each payload is read in the format of the last command begun before it if
      that command has not been answered, and in the extended one otherwise. A timeout or a reset
      does not count as an answer. */
  lemma FormatsAreExplained<R>(script: seq<Read>, actions: seq<Action<R>>)
    ensures Explained(ClientRun(script, actions).n)
  {
    ExplainedByReading();
    ExplainedByReset();
    forall desired ensures KeptByCommand(EXPLAINED, VersionCommand(desired)) {
      ExplainedByCommand(VersionCommand(desired));
    }
    forall n, version, stackVersion | Explained(n)
      ensures Explained(n.(version := version, stackVersion := stackVersion))
    {
      ExplainedBySame(n, n.(version := version, stackVersion := stackVersion));
    }
    ConnectKeeps(EXPLAINED, script);
    forall n | Explained(n) ensures Explained(n.(callbacks := [])) {
      ExplainedBySame(n, n.(callbacks := []));
    }
    forall i | 0 <= i < |actions| && actions[i].Do? ensures KeptByCommand(EXPLAINED, actions[i].command) {
      ExplainedByCommand(actions[i].command);
    }
    SessionKeeps(EXPLAINED, script, actions);
  }

  /** In particular: a payload is read as legacy if and only if the last command begun before it was
      legacy and unanswered. */
  predicate LegacyOutstanding(n: Runtime, k: nat)
    requires k <= |n.log|
  {
    var begun := BegunBy(n.begun, k);
    && begun != [] && begun[|begun| - 1].format.Legacy?
    && forall j :: begun[|begun| - 1].from <= j < k ==> !Accepted(n.log[j])
  }

  lemma LegacyByExplanation(n: Runtime, k: nat)
    requires k < |n.log| && FormatExplained(n, k)
    ensures n.log[k].format.Legacy? <==> LegacyOutstanding(n, k)
  {
    var begun, log := BegunBy(n.begun, k), n.log[..k];
    if begun != [] {
      var from := begun[|begun| - 1].from;
      if j :| from <= j < k && Accepted(n.log[j]) {
        assert Accepted(log[j]);
      }
    }
  }

  lemma LegacyExactlyWhenOutstanding<R>(script: seq<Read>, actions: seq<Action<R>>, k: nat)
    requires k < |ClientRun(script, actions).n.log|
    ensures var n := ClientRun(script, actions).n;
            n.log[k].format.Legacy? <==> LegacyOutstanding(n, k)
  {
    FormatsAreExplained(script, actions);
    LegacyByExplanation(ClientRun(script, actions).n, k);
  }

  // ---------------------------------------------------------------------------------------------
  // Callbacks, from the payloads ASH returned and nothing else.

  predicate FlagSet(payload: Bytes) {
    |payload| >= 2 && FromLowByte(payload[1]).isCallback
  }

  lemma OnlyFlaggedAreCallbacks(payload: Bytes, format: HeaderFormat, version: ProtocolVersion)
    requires !FlagSet(payload)
    ensures CallbackOf(payload, format, version) == []
  {
  }

  /** The callbacks that the payloads carry in the extended format, in order. */
  function ExtendedCallbacks(payloads: seq<Bytes>, version: ProtocolVersion): seq<Callback> {
    if payloads == [] then []
    else
      ExtendedCallbacks(payloads[..|payloads| - 1], version)
      + CallbackOf(payloads[|payloads| - 1], Extended, version)
  }

  /** No payload with the callback flag was filed while a legacy command was outstanding. */
  predicate Undisturbed(n: Runtime) {
    forall k :: 0 <= k < |n.log| && FlagSet(n.log[k].payload) ==> !LegacyOutstanding(n, k)
  }

  /** These entries were read in this version, and extended if flagged. */
  predicate ReadPlainly(log: seq<Delivery>, version: ProtocolVersion) {
    forall k :: 0 <= k < |log| ==> log[k].version == version && (FlagSet(log[k].payload) ==> log[k].format.Extended?)
  }

  lemma {:induction false} PlainCallbacks(log: seq<Delivery>, version: ProtocolVersion)
    requires ReadPlainly(log, version)
    ensures CallbacksOf(log) == ExtendedCallbacks(Payloads(log), version)
    decreases |log|
  {
    if log != [] {
      var n := |log| - 1;
      PlainCallbacks(log[..n], version);
      assert Payloads(log)[..n] == Payloads(log[..n]);
      if !FlagSet(log[n].payload) {
        OnlyFlaggedAreCallbacks(log[n].payload, log[n].format, version);
        OnlyFlaggedAreCallbacks(log[n].payload, Extended, version);
      }
    }
  }

  /** From entry `c` on, everything was read in the version now in use. */
  predicate VersionSince(n: Runtime, c: nat, version: ProtocolVersion) {
    c <= |n.log| && n.version == version && forall k :: c <= k < |n.log| ==> n.log[k].version == version
  }

  function SinceThen(c: nat, version: ProtocolVersion): Runtime -> bool {
    n => VersionSince(n, c, version)
  }

  lemma HandleKeepsVersion(n: Runtime, item: AshCodec.Decoded, c: nat, version: ProtocolVersion)
    requires VersionSince(n, c, version)
    ensures VersionSince(Handle(n, item).0, c, version)
  {
    if item.Frame? {
      var (received, payload, outbound) := Received(n, item.frame);
      var (m, r) := Reply(received, outbound);
      if r.Ok? && payload.Some? {
        DispatchFilesOrAnswers(m, payload.value);
        DispatchIsSteady(m, payload.value);
      }
    }
  }

  lemma VersionKeptByReading(c: nat, version: ProtocolVersion)
    ensures KeptByReading(SinceThen(c, version)) && KeptByReset(SinceThen(c, version))
  {
    var inv := SinceThen(c, version);
    forall n, item | inv(n) ensures inv(Handle(n, item).0) {
      HandleKeepsVersion(n, item, c, version);
    }
  }

  lemma VersionKeptByCommand<R>(c: nat, version: ProtocolVersion, command: CommandSpec<R>)
    ensures KeptByCommand(SinceThen(c, version), command)
  {
    var inv := SinceThen(c, version);
    forall n | inv(n) ensures inv(Issue(n, command).0) {
      IssueLeaves(n, command);
    }
    forall n, outcome | inv(n) ensures inv(Conclude(n, command, outcome).0) {
      ConcludeLeaves(n, command, outcome);
    }
  }

  /** While connecting, everything is read in the preferred version. */
  lemma ConnectReadsPreferred(script: seq<Read>)
    requires Connect(script).2.Ok?
    ensures forall k :: 0 <= k < |Connect(script).0.log| ==> Connect(script).0.log[k].version == PREFERRED
  {
    var inv := SinceThen(0, PREFERRED);
    VersionKeptByReading(0, PREFERRED);
    forall desired ensures KeptByCommand(inv, VersionCommand(desired)) {
      VersionKeptByCommand(0, PREFERRED, VersionCommand(desired));
    }
    ResetKeeps(inv, NEW, script, MAX_RESET_ATTEMPTS);
    var (n, left, _) := ResetWithin(NEW, script, MAX_RESET_ATTEMPTS);
    NegotiateKeeps(inv, n, left);
  }

  /** Afterwards, in the negotiated one, and what was filed while connecting stays as it was. */
  lemma SessionReadsNegotiated<R>(script: seq<Read>, actions: seq<Action<R>>)
    ensures var connected, n := Connect(script).0, ClientRun(script, actions).n;
            VersionSince(n, |connected.log|, connected.version) && connected.log <= n.log
  {
    var connected := Connect(script).0;
    var c, version := |connected.log|, connected.version;
    VersionKeptByReading(c, version);
    forall i | 0 <= i < |actions| && actions[i].Do? ensures KeptByCommand(SinceThen(c, version), actions[i].command) {
      VersionKeptByCommand(c, version, actions[i].command);
    }
    SessionKeeps(SinceThen(c, version), script, actions);
    SessionExtendsLog(script, actions);
  }

  lemma {:induction false} SessionExtendsLog<R>(script: seq<Read>, actions: seq<Action<R>>)
    ensures Connect(script).0.log <= ClientRun(script, actions).n.log
  {
    if actions != [] {
      var before, last := actions[..|actions| - 1], actions[|actions| - 1];
      SessionExtendsLog(script, before);
      var s := ClientRun(script, before);
      match last
      case Do(command) => PerformFiles(s.n, s.script, command);
      case PollOnce => PumpFiles(s.n, s.script, ForCallback);
      case TakeQueue =>
      case ResetAgain => ResetFiles(s.n, s.script, MAX_RESET_ATTEMPTS);
    }
  }

  lemma PayloadsSplit(log: seq<Delivery>, c: nat)
    requires c <= |log|
    ensures Payloads(log)[..c] == Payloads(log[..c]) && Payloads(log)[c..] == Payloads(log[c..])
  {
  }

  /** What the client was handed or can still take, over the payloads ASH returned: those of the
      handshake read in the preferred version, the later ones in the negotiated one. */
  predicate HandsOver(s: Session, c: nat, version: ProtocolVersion) {
    && c <= |s.n.arrived|
    && s.taken + s.n.callbacks
       == ExtendedCallbacks(s.n.arrived[..c], PREFERRED) + ExtendedCallbacks(s.n.arrived[c..], version)
  }

  /** Conservation, without reference to what the runtime recorded about formats: if no flagged
      payload arrives while a legacy command is outstanding, the callbacks handed out and queued are
      exactly those that the payloads ASH returned carry in the extended format, in order. */
  lemma CallbacksAreThoseReturned<R>(script: seq<Read>, actions: seq<Action<R>>)
    requires Connect(script).2.Ok? && Undisturbed(ClientRun(script, actions).n)
    ensures HandsOver(ClientRun(script, actions), |Connect(script).0.log|, Connect(script).0.version)
  {
    var connected, s := Connect(script).0, ClientRun(script, actions);
    var c, version := |connected.log|, connected.version;
    CallbacksAreConserved(script, actions);
    ArrivalsAreFiled(script, actions);
    FormatsAreExplained(script, actions);
    ConnectReadsPreferred(script);
    SessionReadsNegotiated(script, actions);
    ReadPlainlyByExplanation(s.n, c, version);
    PlainConservation(s, c, version);
  }

  lemma ReadPlainlyByExplanation(n: Runtime, c: nat, version: ProtocolVersion)
    requires Explained(n) && Undisturbed(n) && c <= |n.log|
    requires forall k :: 0 <= k < |n.log| ==> n.log[k].version == if k < c then PREFERRED else version
    ensures ReadPlainly(n.log[..c], PREFERRED) && ReadPlainly(n.log[c..], version)
  {
    forall k | 0 <= k < |n.log| && FlagSet(n.log[k].payload) ensures n.log[k].format.Extended? {
      assert FormatExplained(n, k);
      LegacyByExplanation(n, k);
    }
  }

  lemma PlainConservation(s: Session, c: nat, version: ProtocolVersion)
    requires Conserved(s) && AllFiled(s.n) && c <= |s.n.log|
    requires ReadPlainly(s.n.log[..c], PREFERRED) && ReadPlainly(s.n.log[c..], version)
    ensures HandsOver(s, c, version)
  {
    var log := s.n.log;
    assert log == log[..c] + log[c..];
    CallbacksOfConcat(log[..c], log[c..]);
    PlainCallbacks(log[..c], PREFERRED);
    PlainCallbacks(log[c..], version);
    PayloadsSplit(log, c);
  }

  // ---------------------------------------------------------------------------------------------
  // Sessions that leave the version alone.

  /** From entry `c` on, everything was read as extended, and what comes next will be. */
  predicate CalmSince(n: Runtime, c: nat) {
    && c <= |n.log| && n.pendingFormat != Some(Legacy)
    && forall k :: c <= k < |n.log| ==> n.log[k].format.Extended?
  }

  function Calm(c: nat): Runtime -> bool {
    n => CalmSince(n, c)
  }

  lemma HandleKeepsCalm(n: Runtime, item: AshCodec.Decoded, c: nat)
    requires CalmSince(n, c)
    ensures CalmSince(Handle(n, item).0, c)
  {
    if item.Frame? {
      var (received, payload, outbound) := Received(n, item.frame);
      var (m, r) := Reply(received, outbound);
      if r.Ok? && payload.Some? {
        DispatchFilesOrAnswers(m, payload.value);
      }
    }
  }

  lemma CalmByReading(c: nat)
    ensures KeptByReading(Calm(c)) && KeptByReset(Calm(c))
  {
    forall n, item | CalmSince(n, c) ensures CalmSince(Handle(n, item).0, c) {
      HandleKeepsCalm(n, item, c);
    }
  }

  lemma CalmByCommand<R>(c: nat, command: CommandSpec<R>)
    requires command.id != VERSION
    ensures KeptByCommand(Calm(c), command)
  {
    forall n | CalmSince(n, c) ensures CalmSince(Issue(n, command).0, c) {
      IssueBegins(n, command);
    }
    forall n, outcome | CalmSince(n, c) ensures CalmSince(Conclude(n, command, outcome).0, c) {
      ConcludeKeepsFormat(n, command, outcome);
    }
  }

  lemma ConnectEndsCalm(script: seq<Read>)
    requires Connect(script).2.Ok?
    ensures Connect(script).0.pendingFormat == None
  {
    var (n, left, _) := ResetWithin(NEW, script, MAX_RESET_ATTEMPTS);
    ResetKeepsClean(NEW, script, MAX_RESET_ATTEMPTS);
    NegotiateCases(n, left);
    var offer := VersionCommand(PREFERRED);
    CommandIsSound(n, left, offer);
    var (m, left', r) := Perform(n, left, offer);
    if r.value.protocolVersion != PREFERRED {
      CommandIsSound(m, left', VersionCommand(r.value.protocolVersion));
    }
  }

  lemma SessionIsCalm<R>(script: seq<Read>, actions: seq<Action<R>>)
    requires Connect(script).2.Ok?
    requires forall i :: 0 <= i < |actions| && actions[i].Do? ==> actions[i].command.id != VERSION
    ensures CalmSince(ClientRun(script, actions).n, |Connect(script).0.log|)
  {
    var c := |Connect(script).0.log|;
    ConnectEndsCalm(script);
    CalmByReading(c);
    forall i | 0 <= i < |actions| && actions[i].Do? ensures KeptByCommand(Calm(c), actions[i].command) {
      CalmByCommand(c, actions[i].command);
    }
    SessionKeeps(Calm(c), script, actions);
  }

  lemma ConnectedQueue(script: seq<Read>)
    ensures var n := Connect(script).0; n.callbacks == CallbacksOf(n.log) && AllFiled(n)
  {
    var none: seq<Action<()>> := [];
    CallbacksAreConserved(script, none);
    ArrivalsAreFiled(script, none);
    var n := Connect(script).0;
    assert [] + n.callbacks == n.callbacks;
  }

  /** In a session that sends no `version` command, resets or not, whatever ASH returns after the
      connection is read as extended and in the negotiated version: the client gets the callbacks
      queued while connecting and then exactly those of the payloads. */
  lemma PlainSession<R>(script: seq<Read>, actions: seq<Action<R>>)
    requires Connect(script).2.Ok?
    requires forall i :: 0 <= i < |actions| && actions[i].Do? ==> actions[i].command.id != VERSION
    ensures var connected, s := Connect(script).0, ClientRun(script, actions);
            && |connected.log| <= |s.n.arrived|
            && s.taken + s.n.callbacks
               == connected.callbacks + ExtendedCallbacks(s.n.arrived[|connected.log|..], connected.version)
  {
    SessionIsCalm(script, actions);
    ConnectedQueue(script);
    SessionReadsNegotiated(script, actions);
    CallbacksAreConserved(script, actions);
    ArrivalsAreFiled(script, actions);
    PlainAfterwards(ClientRun(script, actions), Connect(script).0, Connect(script).0.version);
  }

  lemma PlainAfterwards(s: Session, connected: Runtime, version: ProtocolVersion)
    requires Conserved(s) && AllFiled(s.n) && AllFiled(connected) && connected.log <= s.n.log
    requires connected.callbacks == CallbacksOf(connected.log)
    requires VersionSince(s.n, |connected.log|, version) && CalmSince(s.n, |connected.log|)
    ensures |connected.arrived| == |connected.log| <= |s.n.arrived|
    ensures s.taken + s.n.callbacks
            == connected.callbacks + ExtendedCallbacks(s.n.arrived[|connected.log|..], version)
  {
    var c, log := |connected.log|, s.n.log;
    assert log == connected.log + log[c..];
    CallbacksOfConcat(connected.log, log[c..]);
    PlainCallbacks(log[c..], version);
    PayloadsSplit(log, c);
  }

  // ---------------------------------------------------------------------------------------------
  // The session in which the condition fails: a legacy command that timed out.

  /** A stack status report as an NCP sends it, once the extended format is in use. */
  function StackStatusReport(sequence: bv8, status: bv8): Bytes {
    [sequence, 0x90, 0x01, 0x19, 0x00, status]
  }

  lemma ReportReadings(sequence: bv8, status: bv8)
    ensures CallbackOf(StackStatusReport(sequence, status), Legacy, ProtocolVersion(0x0d))
            == [Unknown(1, [0x19, 0x00, status])]
    ensures CallbackOf(StackStatusReport(sequence, status), Extended, ProtocolVersion(0x0d))
            == [StackStatus(status as bv32)]
  {
    var payload := StackStatusReport(sequence, status);
    assert payload[3..] == [0x19, 0x00, status] && payload[5..] == [status];
    assert IdOf(0x01, 0x00) == 1 && IdOf(0x19, 0x00) == STACK_STATUS_HANDLER;
    assert FromLowByte(0x90).isCallback;
  }

  lemma VersionTimesOut(n: Runtime, rest: seq<Read>, desired: ProtocolVersion)
    requires Clean(n) && n.ash.state.Connected? && |n.ash.inFlight| < 7 && !n.initialVersionSent
    ensures var (m, left, r) := Perform(n, [Deadline] + rest, VersionCommand(desired));
            && r == Err(EzspError.Timeout(VERSION)) && left == rest && m.version == n.version
            && Clean(m) && m.pendingFormat == Some(Legacy) && SameFiles(n, m) && m.decoder == n.decoder
            && m.ash.state.Connected? && m.ash.nextRxFrame == n.ash.nextRxFrame
  {
    var command := VersionCommand(desired);
    assert ([Deadline] + rest)[1..] == rest;
    IssueExactlySendable(n, command);
    IssueLeaves(n, command);
    CommandLeavesClean(n, [Deadline] + rest, command);
  }

  /** A timeout forgets the legacy command but not its header format: after a reset and a version
      command that times out, a stack status report is queued as an unknown callback of another id,
      where the extended reading makes it the status it is. */
  lemma TimeoutLeavesLegacyFormat(n: Runtime, rest: seq<Read>, desired: ProtocolVersion, sequence: bv8, status: bv8)
    requires Clean(n) && n.ash.state.Connected? && |n.ash.inFlight| < 7 && !n.initialVersionSent
    requires n.version == ProtocolVersion(0x0d)
    ensures var (m, _, r) := Perform(n, [Deadline] + rest, VersionCommand(desired));
            var report := StackStatusReport(sequence, status);
            && r == Err(EzspError.Timeout(VERSION)) && m.correlator.pending == None
            && Dispatch(m, report).callbacks == n.callbacks + [Unknown(1, [0x19, 0x00, status])]
            && Dispatch(m.(pendingFormat := None), report).callbacks == n.callbacks + [StackStatus(status as bv32)]
  {
    VersionTimesOut(n, rest, desired);
    var m := Perform(n, [Deadline] + rest, VersionCommand(desired)).0;
    ReportReadings(sequence, status);
    DispatchAdds(m, StackStatusReport(sequence, status));
    DispatchAdds(m.(pendingFormat := None), StackStatusReport(sequence, status));
  }
}
