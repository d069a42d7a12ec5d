/** Version negotiation, over every sequence of answers the NCP might give. */
module NegotiationLaws {
  import opened Basics
  import opened AshConnections
  import opened EzspCodec
  import opened EzspFrames
  import opened Runtimes
  import opened RuntimeInduction
  import opened CommandLaws
  import Correlators

  // ---------------------------------------------------------------------------------------------
  // What one command hands to ASH.

  lemma ConcludeSends<R>(n: Runtime, command: CommandSpec<R>, outcome: Result<(), EzspError>)
    ensures var m := Conclude(n, command, outcome).0;
            && m.sent == n.sent && m.initialVersionSent == n.initialVersionSent
            && m.version == n.version && m.log == n.log
  {
  }

  /** From `n` to `m` at most the one request was handed over, and a legacy one was noted. */
  predicate SendsAtMost(n: Runtime, m: Runtime, format: HeaderFormat, bytes: Result<Bytes, EzspError>) {
    && (m.sent == n.sent || (bytes.Ok? && m.sent == n.sent + [Request(format, bytes.value)]))
    && (n.initialVersionSent ==> m.initialVersionSent)
    && (m.sent != n.sent && format.Legacy? ==> m.initialVersionSent)
    && m.version == n.version && |n.log| <= |m.log|
  }

  lemma IssueSends<R>(n: Runtime, command: CommandSpec<R>)
    ensures var (m, r) := Issue(n, command);
            var format := FormatFor(n, command.id);
            var bytes := RequestBytes(n, command, n.correlator.nextSequence);
            && SendsAtMost(n, m, format, bytes)
            && (r.Ok? ==> bytes.Ok? && m.sent == n.sent + [Request(format, bytes.value)])
  {
  }

  lemma PerformSends<R>(n: Runtime, script: seq<Read>, command: CommandSpec<R>)
    ensures var m := Perform(n, script, command).0;
            var format := FormatFor(n, command.id);
            var bytes := RequestBytes(n, command, n.correlator.nextSequence);
            && SendsAtMost(n, m, format, bytes)
            && (Issue(n, command).1.Ok? ==> bytes.Ok? && m.sent == n.sent + [Request(format, bytes.value)])
  {
    var (issued, r) := Issue(n, command);
    IssueSends(n, command);
    if r.Ok? {
      var (pumped, _, outcome) := Pump(issued, script, ForResponse);
      PumpIsSteady(issued, script, ForResponse);
      ConcludeSends(pumped, command, outcome);
    }
  }

  // ---------------------------------------------------------------------------------------------
  // What a successful connection rests on.

  /** The request for a protocol version, in each header format. */
  function VersionRequest(format: HeaderFormat, sequence: u8, desired: ProtocolVersion): Sent {
    Request(format,
      if format.Legacy? then [sequence as bv8, 0x00, 0x00, desired.raw]
      else [sequence as bv8, 0x00, 0x01, 0x00, 0x00, desired.raw])
  }

  lemma VersionRequestBytes(n: Runtime, desired: ProtocolVersion)
    ensures var format := FormatFor(n, VERSION);
            var bytes := RequestBytes(n, VersionCommand(desired), n.correlator.nextSequence);
            bytes.Ok? && Request(format, bytes.value)
                         == VersionRequest(format, n.correlator.nextSequence, desired)
  {
    assert LowByte(VERSION) == 0 && HighByte(VERSION) == 0;
  }

  /** From `from` on, the first answer to `version` command number `sequence` in the log was read in
      `format` and decodes to `response`. */
  ghost predicate VersionAnswered(log: seq<Delivery>, from: nat, format: HeaderFormat, sequence: u8,
                                  response: VersionResponse)
  {
    exists parameters ::
      && FirstAnswered(log, from, Correlators.Pending(sequence, VERSION), format, parameters)
      && ParseVersion(parameters, PREFERRED) == Ok((response, []))
  }

  /** One successful `version` exchange. */
  lemma VersionExchange(n: Runtime, script: seq<Read>, desired: ProtocolVersion)
    requires Clean(n) && Perform(n, script, VersionCommand(desired)).2.Ok?
    ensures var (m, _, r) := Perform(n, script, VersionCommand(desired));
            var format := FormatFor(n, VERSION);
            && Clean(m) && m.version == n.version && n.log <= m.log
            && (format.Legacy? || n.initialVersionSent ==> m.initialVersionSent)
            && m.sent == n.sent + [VersionRequest(format, n.correlator.nextSequence, desired)]
            && m.correlator.nextSequence == Wrapping(n.correlator.nextSequence)
            && VersionAnswered(m.log, |n.log|, format, n.correlator.nextSequence, r.value)
  {
    var command := VersionCommand(desired);
    SuccessWasSendable(n, script, command);
    CommandIsSound(n, script, command);
    PerformSends(n, script, command);
    VersionRequestBytes(n, desired);
    var (m, _, r) := Perform(n, script, command);
    var parameters :| && FirstAnswered(m.log, |n.log|, NextPending(n, command), FormatFor(n, VERSION), parameters)
                      && command.parse(parameters, n.version) == Ok((r.value, []));
    assert ParseVersion(parameters, PREFERRED) == Ok((r.value, []));
  }

  /** The offer was answered by a mesh stack running `agreed`, and after that the second exchange by
      `confirmed`. */
  ghost predicate AnsweredTwice(log: seq<Delivery>, from: nat, agreed: ProtocolVersion, confirmed: VersionResponse) {
    exists mid: nat, stackVersion ::
      && from <= mid <= |log|
      && VersionAnswered(log[..mid], from, Legacy, 0, VersionResponse(agreed, 0x02, stackVersion))
      && VersionAnswered(log, mid, Extended, 1, confirmed)
  }

  /** From `n`, just reset, to `m`: the offer was the one legacy request, its answer came from a mesh
      stack running a supported version, and that version was confirmed, by the same answer when it
      is the one offered and otherwise by the later answer to a second, extended request for it. */
  ghost predicate Negotiated(n: Runtime, m: Runtime, confirmed: VersionResponse) {
    var offer := VersionRequest(Legacy, 0, ProtocolVersion(0x13));
    var agreed := confirmed.protocolVersion;
    && 13 <= agreed.raw <= 19
    && if agreed.raw == 19
       then
         && confirmed.stackType == 0x02
         && m.sent == n.sent + [offer]
         && VersionAnswered(m.log, |n.log|, Legacy, 0, confirmed)
       else
         && m.sent == n.sent + [offer] + [VersionRequest(Extended, 1, agreed)]
         && AnsweredTwice(m.log, |n.log|, agreed, confirmed)
  }

  /** What one exchange establishes, without the command it came from. */
  ghost predicate Exchanged(n: Runtime, m: Runtime, format: HeaderFormat, sequence: u8, desired: ProtocolVersion,
                            response: VersionResponse)
  {
    && n.log <= m.log
    && m.sent == n.sent + [VersionRequest(format, sequence, desired)]
    && VersionAnswered(m.log, |n.log|, format, sequence, response)
  }

  lemma TwoExchanges(n: Runtime, m: Runtime, m': Runtime, i: u8, j: u8, first: VersionResponse, second: VersionResponse)
    requires first.stackType == STACK_TYPE_MESH && first.protocolVersion.IsSupported()
    requires second.protocolVersion == first.protocolVersion != PREFERRED
    requires i == 0 && Exchanged(n, m, Legacy, i, PREFERRED, first)
    requires j == 1 && Exchanged(m, m', Extended, j, first.protocolVersion, second)
    ensures Negotiated(n, m', second)
  {
    assert AnsweredTwice(m'.log, |n.log|, first.protocolVersion, second) by {
      assert m'.log[..|m.log|] == m.log;
      assert first == VersionResponse(first.protocolVersion, STACK_TYPE_MESH, first.stackVersion);
    }
  }

  lemma OneExchange(n: Runtime, m: Runtime, i: u8, first: VersionResponse)
    requires first.stackType == STACK_TYPE_MESH && first.protocolVersion == PREFERRED
    requires i == 0 && Exchanged(n, m, Legacy, i, PREFERRED, first)
    ensures Negotiated(n, m, first)
  {
  }

  lemma ExchangeAfter(n: Runtime, script: seq<Read>, desired: ProtocolVersion, format: HeaderFormat, sequence: u8)
    requires Clean(n) && Perform(n, script, VersionCommand(desired)).2.Ok?
    requires format == FormatFor(n, VERSION) && sequence == n.correlator.nextSequence
    ensures var (m, _, r) := Perform(n, script, VersionCommand(desired));
            && Clean(m) && m.initialVersionSent && m.correlator.nextSequence == Wrapping(sequence)
            && Exchanged(n, m, format, sequence, desired, r.value)
  {
    VersionExchange(n, script, desired);
  }

  /** The second exchange, made because the first one's answer differs from the offer. */
  lemma SecondExchange(n: Runtime, m: Runtime, script: seq<Read>, i: u8, first: VersionResponse)
    requires first.stackType == STACK_TYPE_MESH && first.protocolVersion.IsSupported()
    requires first.protocolVersion != PREFERRED
    requires i == 0 && Exchanged(n, m, Legacy, i, PREFERRED, first)
    requires Clean(m) && m.initialVersionSent && m.correlator.nextSequence == 1
    requires var r := Perform(m, script, VersionCommand(first.protocolVersion)).2;
             r.Ok? && r.value.protocolVersion == first.protocolVersion
    ensures var (m', _, r) := Perform(m, script, VersionCommand(first.protocolVersion));
            Negotiated(n, m', r.value) && m'.initialVersionSent
  {
    var j := m.correlator.nextSequence;
    ExchangeAfter(m, script, first.protocolVersion, Extended, j);
    var (m', _, r) := Perform(m, script, VersionCommand(first.protocolVersion));
    TwoExchanges(n, m, m', i, j, first, r.value);
  }

  lemma NegotiationIsSound(n: Runtime, script: seq<Read>)
    requires Clean(n) && n.correlator == Correlators.IDLE && !n.initialVersionSent
    requires Negotiate(n, script).2.Ok?
    ensures var (m, _, r) := Negotiate(n, script);
            Negotiated(n, m, r.value) && m.initialVersionSent
  {
    var i := n.correlator.nextSequence;
    assert i == 0;
    NegotiateCases(n, script);
    ExchangeAfter(n, script, PREFERRED, Legacy, i);
    var (m, left, r) := Perform(n, script, VersionCommand(PREFERRED));
    if r.value.protocolVersion == PREFERRED {
      OneExchange(n, m, i, r.value);
    } else {
      SecondExchange(n, m, left, i, r.value);
    }
  }

  /** Whatever the port yields, a connection comes up only after a completed reset followed by a
      negotiation as above, and runs the version and firmware that the last answer reported. */
  lemma ConnectIsSound(script: seq<Read>)
    requires Connect(script).2.Ok?
    ensures var m := Connect(script).0;
            var n := ResetWithin(NEW, script, MAX_RESET_ATTEMPTS).0;
            n.sent == [ResetDone] && m.initialVersionSent
            && exists stackType :: Negotiated(n, m, VersionResponse(m.version, stackType, m.stackVersion))
  {
    ResetKeepsClean(NEW, script, MAX_RESET_ATTEMPTS);
    var (n, script', _) := ResetWithin(NEW, script, MAX_RESET_ATTEMPTS);
    NegotiationIsSound(n, script');
    var (negotiated, _, r) := Negotiate(n, script');
    var m := Connect(script).0;
    assert m == negotiated.(version := r.value.protocolVersion, stackVersion := r.value.stackVersion);
    assert Negotiated(n, m, VersionResponse(m.version, r.value.stackType, m.stackVersion));
  }

  // ---------------------------------------------------------------------------------------------
  // At most one legacy request between two resets.

  predicate IsLegacy(s: Sent) {
    s.Request? && s.format.Legacy?
  }

  /** Between any two legacy requests a reset completed, and each one is a `version` request. */
  predicate LegacyDiscipline(sent: seq<Sent>) {
    && (forall i, j :: 0 <= i < j < |sent| && IsLegacy(sent[i]) && IsLegacy(sent[j]) ==> ResetDone in sent[i..j])
    && forall i :: 0 <= i < |sent| && IsLegacy(sent[i]) ==> |sent[i].frame| >= 3 && sent[i].frame[2] == 0
  }

  /** A legacy request was sent and no reset completed since. */
  predicate LegacySpent(sent: seq<Sent>) {
    exists i :: 0 <= i < |sent| && IsLegacy(sent[i]) && ResetDone !in sent[i..]
  }

  predicate Disciplined(n: Runtime) {
    LegacyDiscipline(n.sent) && (LegacySpent(n.sent) ==> n.initialVersionSent)
  }

  lemma AppendKeepsDiscipline(sent: seq<Sent>, s: Sent)
    requires LegacyDiscipline(sent)
    requires IsLegacy(s) ==> !LegacySpent(sent) && |s.frame| >= 3 && s.frame[2] == 0
    ensures LegacyDiscipline(sent + [s])
  {
    var longer := sent + [s];
    forall i, j | 0 <= i < j < |longer| && IsLegacy(longer[i]) && IsLegacy(longer[j])
      ensures ResetDone in longer[i..j]
    {
      if j == |sent| {
        assert longer[i..j] == sent[i..];
      } else {
        assert longer[i..j] == sent[i..j];
      }
    }
  }

  lemma SpentByAppend(sent: seq<Sent>, s: Sent)
    requires LegacySpent(sent + [s])
    ensures s != ResetDone && (IsLegacy(s) || LegacySpent(sent))
  {
    var longer := sent + [s];
    var i :| 0 <= i < |longer| && IsLegacy(longer[i]) && ResetDone !in longer[i..];
    assert longer[|sent|] in longer[i..];
    if i < |sent| {
      assert longer[i..] == sent[i..] + [s];
    }
  }

  lemma LegacyHeader<R>(n: Runtime, command: CommandSpec<R>, sequence: u8)
    requires FormatFor(n, command.id).Legacy? && RequestBytes(n, command, sequence).Ok?
    ensures var bytes := RequestBytes(n, command, sequence).value; |bytes| >= 3 && bytes[2] == 0
  {
  }

  lemma IssueKeepsDiscipline<R>(n: Runtime, command: CommandSpec<R>)
    requires Disciplined(n)
    ensures Disciplined(Issue(n, command).0)
  {
    IssueSends(n, command);
    var m := Issue(n, command).0;
    if m.sent != n.sent {
      var s := m.sent[|n.sent|];
      if IsLegacy(s) {
        LegacyHeader(n, command, n.correlator.nextSequence);
      }
      AppendKeepsDiscipline(n.sent, s);
      if LegacySpent(m.sent) {
        SpentByAppend(n.sent, s);
      }
    }
  }

  lemma ResetRestoresDiscipline(p: Runtime)
    requires Disciplined(p)
    ensures Disciplined(ResetCompleted(p))
  {
    AppendKeepsDiscipline(p.sent, ResetDone);
    if LegacySpent(p.sent + [ResetDone]) {
      SpentByAppend(p.sent, ResetDone);
    }
  }

  const DISCIPLINE: Runtime -> bool := n => Disciplined(n)

  lemma DisciplineByReading()
    ensures KeptByReading(DISCIPLINE)
  {
    forall n, item | Disciplined(n) ensures Disciplined(Handle(n, item).0) {
      HandleIsSteady(n, item);
    }
  }

  lemma DisciplineByReset()
    ensures KeptByReset(DISCIPLINE)
  {
    forall n | Disciplined(n) ensures Disciplined(ResetCompleted(n)) {
      ResetRestoresDiscipline(n);
    }
  }

  lemma DisciplineByCommand<R>(command: CommandSpec<R>)
    ensures KeptByCommand(DISCIPLINE, command)
  {
    forall n | Disciplined(n) ensures Disciplined(Issue(n, command).0) {
      IssueKeepsDiscipline(n, command);
    }
    forall n, outcome | Disciplined(n) ensures Disciplined(Conclude(n, command, outcome).0) {
      ConcludeSends(n, command, outcome);
    }
  }

  /** Over every session, clean or not: once a legacy request has gone out, the next one waits for
      another completed reset, and none asks for anything but a version. */
  lemma LegacyOncePerReset<R>(script: seq<Read>, actions: seq<Action<R>>)
    ensures Disciplined(ClientRun(script, actions).n)
  {
    DisciplineByReading();
    DisciplineByReset();
    forall desired ensures KeptByCommand(DISCIPLINE, VersionCommand(desired)) {
      DisciplineByCommand(VersionCommand(desired));
    }
    ConnectKeeps(DISCIPLINE, script);
    forall i | 0 <= i < |actions| && actions[i].Do? ensures KeptByCommand(DISCIPLINE, actions[i].command) {
      DisciplineByCommand(actions[i].command);
    }
    SessionKeeps(DISCIPLINE, script, actions);
  }
}
