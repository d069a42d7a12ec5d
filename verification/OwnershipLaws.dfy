/** Whose answer a command gets: over whole sessions, the response the NCP produced for it. */
module OwnershipLaws {
  import opened Basics
  import opened AshConnections
  import opened AshCodec
  import opened EzspCodec
  import opened EzspFrames
  import opened Runtimes
  import opened RuntimeInduction
  import opened CommandLaws
  import opened FormatLaws
  import opened AnswerLaws
  import Correlators

  // ---------------------------------------------------------------------------------------------
  // Commands are numbered in order, until the numbering starts over.

  predicate Follows(begun: seq<Begun>, i: nat)
    requires i + 1 < |begun|
  {
    var b, c := begun[i], begun[i + 1];
    && b.restarts <= c.restarts
    && c.pending.sequence == if b.restarts == c.restarts then Wrapping(b.pending.sequence) else 0
  }

  predicate Numbered(n: Runtime) {
    && (forall i :: 0 <= i < |n.begun| - 1 ==> Follows(n.begun, i))
    && (n.begun != [] ==> n.begun[0].pending.sequence == 0 && n.begun[|n.begun| - 1].restarts <= n.restarts)
    && n.correlator.nextSequence
       == if n.begun != [] && n.begun[|n.begun| - 1].restarts == n.restarts
          then Wrapping(n.begun[|n.begun| - 1].pending.sequence) else 0
  }

  const NUMBERED: Runtime -> bool := n => Numbered(n)

  /** The commands are the same, and the numbering goes on or has started over. */
  predicate GoesOn(n: Runtime, m: Runtime) {
    && m.begun == n.begun
    && m.restarts >= n.restarts
    && m.correlator.nextSequence == if m.restarts == n.restarts then n.correlator.nextSequence else 0
  }

  lemma NumberedBySame(n: Runtime, m: Runtime)
    requires Numbered(n) && GoesOn(n, m)
    ensures Numbered(m)
  {
    forall i | 0 <= i < |m.begun| - 1 ensures Follows(m.begun, i) {
      assert Follows(n.begun, i);
    }
  }

  lemma StartedIsNumbered<R>(n: Runtime, command: CommandSpec<R>)
    requires Numbered(n)
    ensures Numbered(Started(n, command).0)
  {
    var m := Started(n, command).0;
    forall i | 0 <= i < |m.begun| - 1 ensures Follows(m.begun, i) {
      if i < |n.begun| - 1 {
        assert Follows(n.begun, i);
      }
    }
  }

  lemma SubmittedKeepsNumbers<R>(n: Runtime, command: CommandSpec<R>, sequence: u8)
    ensures var m := Submitted(n, command, sequence).0;
            m.begun == n.begun && m.restarts == n.restarts && m.correlator == n.correlator
  {
  }

  lemma IssueIsNumbered<R>(n: Runtime, command: CommandSpec<R>)
    requires Numbered(n)
    ensures Numbered(Issue(n, command).0)
  {
    if command.available(n.version) {
      var (started, sequence) := Started(n, command);
      StartedIsNumbered(n, command);
      if sequence.Ok? {
        SubmittedKeepsNumbers(started, command, sequence.value);
        NumberedBySame(started, Issue(n, command).0);
      }
    }
  }

  lemma LossGoesOn(n: Runtime)
    ensures GoesOn(n, LossNoted(n).0)
  {
  }

  lemma ConcludeGoesOn<R>(n: Runtime, command: CommandSpec<R>, outcome: Result<(), EzspError>)
    ensures GoesOn(n, Conclude(n, command, outcome).0)
  {
    if outcome.Ok? && n.response.Some? {
    } else {
      LossGoesOn(n);
      var (m, lost) := LossNoted(n);
      if lost.Ok? && outcome.Ok? {
        assert Conclude(n, command, outcome).0 == m.(correlator := Correlators.TimedOut(m.correlator).0);
      } else {
        assert Conclude(n, command, outcome).0 == m;
      }
    }
  }

  lemma NumberedByCommand<R>(command: CommandSpec<R>)
    ensures KeptByCommand(NUMBERED, command)
  {
    forall n | Numbered(n) ensures Numbered(Issue(n, command).0) {
      IssueIsNumbered(n, command);
    }
    forall n, outcome | Numbered(n) ensures Numbered(Conclude(n, command, outcome).0) {
      ConcludeGoesOn(n, command, outcome);
      NumberedBySame(n, Conclude(n, command, outcome).0);
    }
  }

  lemma NumberedByTheRest()
    ensures KeptByReading(NUMBERED) && KeptByReset(NUMBERED)
  {
    forall n, item | Numbered(n) ensures Numbered(Handle(n, item).0) {
      HandleIsSteady(n, item);
      NumberedBySame(n, Handle(n, item).0);
    }
    forall n, decoder | Numbered(n) ensures Numbered(n.(decoder := decoder)) {
      NumberedBySame(n, n.(decoder := decoder));
    }
    forall n | Numbered(n)
      ensures Numbered(n.(decoder := EMPTY, ash := BeginReset(n.ash).0))
      ensures Numbered(ResetSent(n)) && Numbered(ResetCompleted(n))
    {
      NumberedBySame(n, n.(decoder := EMPTY, ash := BeginReset(n.ash).0));
      NumberedBySame(n, ResetSent(n));
      NumberedBySame(n, ResetCompleted(n));
    }
  }

  lemma SessionIsNumbered<R>(script: seq<Read>, actions: seq<Action<R>>)
    ensures Numbered(ClientRun(script, actions).n)
  {
    NumberedByTheRest();
    forall desired ensures KeptByCommand(NUMBERED, VersionCommand(desired)) {
      NumberedByCommand(VersionCommand(desired));
    }
    forall n, version, stackVersion | Numbered(n)
      ensures Numbered(n.(version := version, stackVersion := stackVersion))
    {
      NumberedBySame(n, n.(version := version, stackVersion := stackVersion));
    }
    ConnectKeeps(NUMBERED, script);
    forall n | Numbered(n) ensures Numbered(n.(callbacks := [])) {
      NumberedBySame(n, n.(callbacks := []));
    }
    forall i | 0 <= i < |actions| && actions[i].Do? ensures KeptByCommand(NUMBERED, actions[i].command) {
      NumberedByCommand(actions[i].command);
    }
    SessionKeeps(NUMBERED, script, actions);
  }

  /** Two commands of one numbering carry numbers as far apart as they are, mod 256. */
  lemma {:induction false} NumbersApart(begun: seq<Begun>, i: nat, j: nat)
    requires i <= j < |begun| && begun[i].restarts == begun[j].restarts
    requires forall k :: 0 <= k < |begun| - 1 ==> Follows(begun, k)
    ensures begun[j].pending.sequence == (begun[i].pending.sequence + (j - i)) % 256
    decreases j
  {
    if i < j {
      assert Follows(begun, j - 1);
      RestartsGrow(begun, i, j - 1);
      NumbersApart(begun, i, j - 1);
      WrappingIsMod(begun[i].pending.sequence + (j - 1 - i));
    }
  }

  lemma {:induction false} RestartsGrow(begun: seq<Begun>, i: nat, j: nat)
    requires i <= j < |begun|
    requires forall k :: 0 <= k < |begun| - 1 ==> Follows(begun, k)
    ensures begun[i].restarts <= begun[j].restarts
    decreases j
  {
    if i < j {
      assert Follows(begun, j - 1);
      RestartsGrow(begun, i, j - 1);
    }
  }

  lemma CloseNumbersDiffer(x: u8, apart: nat)
    requires apart < 256 && x == (x + apart) % 256
    ensures apart == 0
  {
  }

  // ---------------------------------------------------------------------------------------------
  // An NCP that is less than 256 commands late.

  /** The payload is the NCP's response to `b`: it echoes its number and id, in its header format. */
  ghost predicate ProducedFor(payload: Bytes, b: Begun) {
    exists low, parameters ::
      IsResponseByte(low)
      && payload == ResponseBytes(b.format, b.pending.sequence, low, b.pending.frameId, parameters)
  }

  predicate IsReply(payload: Bytes) {
    |payload| >= 2 && IsResponseByte(payload[1])
  }

  /** From entry `from` on, every response filed as entry `k` was produced for command `made(k)`, of the
      numbering in use and at most 255 commands before the last one begun. Nothing is said of earlier
      entries, of any other payload, nor of the order or number of the responses. */
  ghost predicate LessThan256Late(n: Runtime, from: nat, made: nat -> nat) {
    forall k :: from <= k < |n.log| && IsReply(n.log[k].payload) ==>
      var begun := BegunBy(n.begun, k);
      && made(k) < |begun| <= made(k) + 256
      && begun[made(k)].restarts == begun[|begun| - 1].restarts
      && ProducedFor(n.log[k].payload, begun[made(k)])
  }

  lemma AnswersAreReplies(payload: Bytes, format: HeaderFormat, p: Correlators.Pending)
    requires AnswerTo(payload, format, p).Some?
    ensures IsReply(payload) && payload[0] as int == p.sequence && |payload| <= 218
  {
  }

  lemma EchoedNumber(payload: Bytes, b: Begun)
    requires ProducedFor(payload, b)
    ensures |payload| > 0 && payload[0] as int == b.pending.sequence
  {
    LengthByte(b.pending.sequence);
  }

  /** Within the bound, the response to the last command is the only one that carries its number. */
  lemma OnlyTheLastMatches(begun: seq<Begun>, c: nat, payload: Bytes, format: HeaderFormat)
    requires c < |begun| <= c + 256 && begun[c].restarts == begun[|begun| - 1].restarts
    requires forall k :: 0 <= k < |begun| - 1 ==> Follows(begun, k)
    requires ProducedFor(payload, begun[c])
    requires AnswerTo(payload, format, begun[|begun| - 1].pending).Some?
    ensures c == |begun| - 1
  {
    var last := |begun| - 1;
    AnswersAreReplies(payload, format, begun[last].pending);
    EchoedNumber(payload, begun[c]);
    NumbersApart(begun, c, last);
    CloseNumbersDiffer(begun[c].pending.sequence, last - c);
  }

  lemma ParametersProduced(payload: Bytes, b: Begun, parameters: Bytes)
    requires ProducedFor(payload, b) && AnswerTo(payload, b.format, b.pending) == Some(parameters)
    requires b.format.Legacy? ==> FitsLegacy(b.pending.frameId)
    ensures exists low ::
              IsResponseByte(low)
              && payload == ResponseBytes(b.format, b.pending.sequence, low, b.pending.frameId, parameters)
  {
    var low, produced :| IsResponseByte(low)
                         && payload == ResponseBytes(b.format, b.pending.sequence, low, b.pending.frameId, produced);
    AnswersAreReplies(payload, b.format, b.pending);
    ResponseParses(b.format, b.pending.sequence, low, b.pending.frameId, produced);
  }

  /** From `n` to `m`, `command` got `v` out of entry `k`: the response the NCP produced for it, which is
      command number |n.begun|. */
  ghost predicate GotItsOwn<R>(n: Runtime, m: Runtime, command: CommandSpec<R>, v: R, made: nat -> nat, k: nat) {
    && |n.log| <= k < |m.log| && made(k) == |n.begun|
    && exists low, parameters ::
         && IsResponseByte(low) && command.parse(parameters, n.version) == Ok((v, []))
         && m.log[k].payload
            == ResponseBytes(FormatFor(n, command.id), n.correlator.nextSequence, low, command.id, parameters)
  }

  lemma PerformBegins<R>(n: Runtime, script: seq<Read>, command: CommandSpec<R>)
    requires Perform(n, script, command).2.Ok?
    ensures Perform(n, script, command).0.begun == n.begun + [NewCommand(n, command)]
  {
    var issued := Issue(n, command).0;
    IssueBegins(n, command);
    PumpIsSteady(issued, script, ForResponse);
    var (pumped, _, outcome) := Pump(issued, script, ForResponse);
    ConcludeKeepsFormat(pumped, command, outcome);
    IssuedIsNew(n, command);
  }

  lemma IssuedIsNew<R>(n: Runtime, command: CommandSpec<R>)
    requires Issue(n, command).1.Ok?
    ensures Issue(n, command).0.begun == n.begun + [NewCommand(n, command)]
  {
    var (started, sequence) := Started(n, command);
    SubmittedKeepsNumbers(started, command, sequence.value);
  }

  /** After every well-used session, if the responses that arrive are less than 256 commands late, a
      command that succeeds does so on the response produced for it, whatever timed out before, however
      often the numbers wrapped, and whatever else arrives. */
  lemma CommandsGetTheirOwnAnswers<R>(script: seq<Read>, before: seq<Action<R>>, command: CommandSpec<R>,
                                      made: nat -> nat)
    requires Connect(script).2.Ok? && WellUsed(script, before)
    requires var s := ClientRun(script, before);
             var (m, _, r) := Perform(s.n, s.script, command);
             r.Ok? && LessThan256Late(m, |s.n.log|, made)
    ensures var s := ClientRun(script, before);
            var (m, _, r) := Perform(s.n, s.script, command);
            exists k :: GotItsOwn(s.n, m, command, r.value, made, k)
  {
    var s := ClientRun(script, before);
    SessionsStayClean(script, before);
    SessionIsNumbered(script, before);
    PerformGetsItsOwn(s.n, s.script, command, made);
  }

  lemma PerformGetsItsOwn<R>(n: Runtime, script: seq<Read>, command: CommandSpec<R>, made: nat -> nat)
    requires Numbered(n) && n.response == None
    requires var (m, _, r) := Perform(n, script, command); r.Ok? && LessThan256Late(m, |n.log|, made)
    ensures var (m, _, r) := Perform(n, script, command);
            exists k :: GotItsOwn(n, m, command, r.value, made, k)
  {
    var (m, _, r) := Perform(n, script, command);
    CommandIsSound(n, script, command);
    PerformBegins(n, script, command);
    NumberedByTheRest();
    NumberedByCommand(command);
    PerformKeeps(NUMBERED, n, script, command);
    JustifiedByOwn(n, m, command, r.value, made);
  }

  lemma JustifiedByOwn<R>(n: Runtime, m: Runtime, command: CommandSpec<R>, v: R, made: nat -> nat)
    requires Numbered(m) && m.begun == n.begun + [NewCommand(n, command)]
    requires Justified(n, m, command, v) && LessThan256Late(m, |n.log|, made)
    ensures exists k :: GotItsOwn(n, m, command, v, made, k)
  {
    var p, format := NextPending(n, command), FormatFor(n, command.id);
    var parameters :| FirstAnswered(m.log, |n.log|, p, format, parameters)
                      && command.parse(parameters, n.version) == Ok((v, []));
    var k: nat :| AnsweredAt(m.log, |n.log|, p, format, parameters, k);
    var payload := m.log[k].payload;
    AnswersAreReplies(payload, format, p);
    assert BegunBy(m.begun, k) == m.begun;
    OnlyTheLastMatches(m.begun, made(k), payload, format);
    ParametersProduced(payload, NewCommand(n, command), parameters);
    assert GotItsOwn(n, m, command, v, made, k);
  }
}
