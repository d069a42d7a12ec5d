/** Induction over what the runtime does: a property kept by each elementary step is kept by reads,
    commands, resets, connections and whole sessions. */
module RuntimeInduction {
  import opened Basics
  import opened AshFrames
  import opened AshConnections
  import opened AshCodec
  import opened EzspCodec
  import opened Runtimes
  import Correlators

  // ---------------------------------------------------------------------------------------------
  // Reading.

  ghost predicate KeptByReading(inv: Runtime -> bool) {
    && (forall n, item :: inv(n) ==> inv(Handle(n, item).0))
    && (forall n, decoder :: inv(n) ==> inv(n.(decoder := decoder)))
  }

  lemma {:induction false} HandleAllKeeps(inv: Runtime -> bool, n: Runtime, items: seq<AshCodec.Decoded>)
    requires KeptByReading(inv) && inv(n)
    ensures inv(HandleAll(n, items).0)
    decreases |items|
  {
    if items != [] {
      var (m, r) := Handle(n, items[0]);
      if r.Ok? {
        HandleAllKeeps(inv, m, items[1..]);
      }
    }
  }

  lemma {:induction false} PumpKeeps(inv: Runtime -> bool, n: Runtime, script: seq<Read>, goal: Goal)
    requires KeptByReading(inv) && inv(n)
    ensures inv(Pump(n, script, goal).0)
    decreases |script|
  {
    if !(Reached(n, goal) || script == [] || script[0].Deadline?) {
      var (decoder, items) := Fed(n.decoder, script[0].bytes);
      HandleAllKeeps(inv, n.(decoder := decoder), items);
      var (m, r) := Consume(n, script[0].bytes);
      if r.Ok? {
        PumpKeeps(inv, m, script[1..], goal);
      }
    }
  }

  // ---------------------------------------------------------------------------------------------
  // Commands.

  ghost predicate KeptByCommand<R>(inv: Runtime -> bool, command: CommandSpec<R>) {
    && (forall n :: inv(n) ==> inv(Issue(n, command).0))
    && (forall n, outcome :: inv(n) ==> inv(Conclude(n, command, outcome).0))
  }

  lemma PerformKeeps<R>(inv: Runtime -> bool, n: Runtime, script: seq<Read>, command: CommandSpec<R>)
    requires KeptByReading(inv) && KeptByCommand(inv, command) && inv(n)
    ensures inv(Perform(n, script, command).0)
  {
    var (issued, r) := Issue(n, command);
    if r.Ok? {
      PumpKeeps(inv, issued, script, ForResponse);
      var (pumped, _, outcome) := Pump(issued, script, ForResponse);
      assert inv(Conclude(pumped, command, outcome).0);
    }
  }

  // ---------------------------------------------------------------------------------------------
  // Resets.

  /** However many tries, `inv` holds after a failed reset and `done` after a successful one. */
  lemma {:induction false} TriedKeeps(attempt: (Runtime, seq<Read>) -> (Runtime, seq<Read>, Handshake),
                                      inv: Runtime -> bool, done: Runtime -> bool,
                                      n: Runtime, script: seq<Read>, attempts: nat)
    requires inv(n)
    requires forall m, s :: inv(m) ==>
               if attempt(m, s).2.Completed? then done(attempt(m, s).0) else inv(attempt(m, s).0)
    ensures var (m, _, r) := Tried(attempt, n, script, attempts); if r.Ok? then done(m) else inv(m)
    decreases attempts
  {
    if attempts > 0 {
      var (m, left, handshake) := attempt(n, script);
      if handshake.Unanswered? {
        TriedKeeps(attempt, inv, done, m, left, attempts - 1);
      }
    }
  }

  /** The state in which a reset attempt starts to read. */
  function ResetSent(n: Runtime): Runtime {
    n.(decoder := EMPTY, ash := BeginReset(n.ash).0, written := n.written + [Line(Rst)])
  }

  lemma RstIsWritten(n: Runtime)
    requires BeginReset(n.ash).1.Send?
    ensures BeginReset(n.ash).1.frame == Rst
    ensures WriteFrame(n.(decoder := EMPTY, ash := BeginReset(n.ash).0), Rst) == (ResetSent(n), Ok(()))
  {
  }

  lemma ResetAttemptCases(n: Runtime, script: seq<Read>)
    ensures ResetAttempt(n, script)
            == if BeginReset(n.ash).1.Nothing? then
                 (n.(decoder := EMPTY, ash := BeginReset(n.ash).0), script, Hopeless(AshFailure(ResetFailed)))
               else RstAwaited(ResetSent(n), script)
  {
    if BeginReset(n.ash).1.Send? {
      RstIsWritten(n);
    }
  }

  ghost predicate KeptByReset(inv: Runtime -> bool) {
    && (forall n :: inv(n) ==> inv(n.(decoder := EMPTY, ash := BeginReset(n.ash).0)))
    && (forall n :: inv(n) ==> inv(ResetSent(n)))
    && (forall n :: inv(n) ==> inv(ResetCompleted(n)))
  }

  lemma ResetAttemptKeeps(inv: Runtime -> bool, n: Runtime, script: seq<Read>)
    requires KeptByReading(inv) && KeptByReset(inv) && inv(n)
    ensures inv(ResetAttempt(n, script).0)
  {
    ResetAttemptCases(n, script);
    PumpKeeps(inv, ResetSent(n), script, ForConnection);
  }

  lemma ResetKeeps(inv: Runtime -> bool, n: Runtime, script: seq<Read>, attempts: nat)
    requires KeptByReading(inv) && KeptByReset(inv) && inv(n)
    ensures inv(ResetWithin(n, script, attempts).0)
  {
    forall m, s | inv(m) ensures inv(ResetAttempt(m, s).0) {
      ResetAttemptKeeps(inv, m, s);
    }
    TriedKeeps(ResetAttempt, inv, inv, n, script, attempts);
  }

  // ---------------------------------------------------------------------------------------------
  // Connections and sessions.

  ghost predicate KeptByVersionCommands(inv: Runtime -> bool) {
    forall desired :: KeptByCommand(inv, VersionCommand(desired))
  }

  lemma NegotiateKeeps(inv: Runtime -> bool, n: Runtime, script: seq<Read>)
    requires KeptByReading(inv) && KeptByVersionCommands(inv) && inv(n)
    ensures inv(Negotiate(n, script).0)
  {
    var offer := VersionCommand(PREFERRED);
    PerformKeeps(inv, n, script, offer);
    var (m, left, r) := Perform(n, script, offer);
    if r.Ok? {
      PerformKeeps(inv, m, left, VersionCommand(r.value.protocolVersion));
    }
  }

  lemma ConnectKeeps(inv: Runtime -> bool, script: seq<Read>)
    requires KeptByReading(inv) && KeptByReset(inv) && KeptByVersionCommands(inv) && inv(NEW)
    requires forall n, version, stackVersion :: inv(n) ==> inv(n.(version := version, stackVersion := stackVersion))
    ensures inv(Connect(script).0)
  {
    var (n, left, r) := ResetWithin(NEW, script, MAX_RESET_ATTEMPTS);
    ResetKeeps(inv, NEW, script, MAX_RESET_ATTEMPTS);
    if r.Ok? {
      NegotiateKeeps(inv, n, left);
    }
  }

  ghost predicate KeptByActions<R>(inv: Runtime -> bool, actions: seq<Action<R>>) {
    && KeptByReading(inv)
    && (forall n :: inv(n) ==> inv(n.(callbacks := [])))
    && forall i :: 0 <= i < |actions| ==>
         match actions[i]
         case Do(command) => KeptByCommand(inv, command)
         case ResetAgain => KeptByReset(inv)
         case _ => true
  }

  lemma ClientStepKeeps<R>(inv: Runtime -> bool, s: Session, action: Action<R>)
    requires KeptByActions(inv, [action]) && inv(s.n)
    ensures inv(ClientStep(s, action).n)
  {
    assert [action][0] == action;
    match action
    case Do(command) => PerformKeeps(inv, s.n, s.script, command);
    case PollOnce => PumpKeeps(inv, s.n, s.script, ForCallback);
    case TakeQueue =>
    case ResetAgain => ResetKeeps(inv, s.n, s.script, MAX_RESET_ATTEMPTS);
  }

  /** What the connection leaves true and every action keeps holds at the end of the session. */
  lemma {:induction false} SessionKeeps<R>(inv: Runtime -> bool, script: seq<Read>, actions: seq<Action<R>>)
    requires KeptByActions(inv, actions) && inv(Connect(script).0)
    ensures inv(ClientRun(script, actions).n)
  {
    if actions != [] {
      var before, last := actions[..|actions| - 1], actions[|actions| - 1];
      SessionKeeps(inv, script, before);
      ClientStepKeeps(inv, ClientRun(script, before), last);
    }
  }
}
