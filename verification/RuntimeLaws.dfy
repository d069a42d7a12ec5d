/** What the runtime keeps over whole conversations. */
module RuntimeLaws {
  import opened Basics
  import opened AshFrames
  import opened AshConnections
  import opened AshCodec
  import opened EzspCodec
  import opened EzspFrames
  import opened Callbacks
  import opened Runtimes
  import opened RuntimeInduction

  // ---------------------------------------------------------------------------------------------
  // Callbacks are conserved.

  /** The callback a payload carries when read in this format and version, if its flag says so and it
      decodes. */
  function CallbackOf(payload: Bytes, format: HeaderFormat, version: ProtocolVersion): seq<Callback> {
    match Parse(payload, format)
    case Err(_) => []
    case Ok(frame) =>
      if !frame.control.isCallback then []
      else match Callbacks.Decoded(frame.frameId, frame.parameters, version)
        case Ok(callback) => [callback]
        case Err(_) => []
  }

  function CallbackIn(d: Delivery): seq<Callback> {
    CallbackOf(d.payload, d.format, d.version)
  }

  function CallbacksOf(log: seq<Delivery>): seq<Callback> {
    if log == [] then [] else CallbacksOf(log[..|log| - 1]) + CallbackIn(log[|log| - 1])
  }

  /** From `n` to `m` the log grew and the queue gained exactly the callbacks of what was added. */
  predicate Files(n: Runtime, m: Runtime) {
    && n.log <= m.log
    && m.callbacks == n.callbacks + CallbacksOf(m.log[|n.log|..])
  }

  lemma {:induction false} CallbacksOfConcat(a: seq<Delivery>, b: seq<Delivery>)
    ensures CallbacksOf(a + b) == CallbacksOf(a) + CallbacksOf(b)
    decreases |b|
  {
    if b == [] {
      assert a + b == a;
    } else {
      assert (a + b)[..|a + b| - 1] == a + b[..|b| - 1];
      CallbacksOfConcat(a, b[..|b| - 1]);
    }
  }

  lemma FilesNothing(n: Runtime, m: Runtime)
    requires m.log == n.log && m.callbacks == n.callbacks
    ensures Files(n, m)
  {
    assert m.log[|n.log|..] == [];
  }

  lemma LogInTurn(a: seq<Delivery>, b: seq<Delivery>, c: seq<Delivery>)
    requires a <= b && b <= c
    ensures a <= c
    ensures CallbacksOf(c[|a|..]) == CallbacksOf(b[|a|..]) + CallbacksOf(c[|b|..])
  {
    assert c[|a|..] == b[|a|..] + c[|b|..];
    CallbacksOfConcat(b[|a|..], c[|b|..]);
  }

  lemma FilesInTurn(a: Runtime, b: Runtime, c: Runtime)
    requires Files(a, b) && Files(b, c)
    ensures Files(a, c)
  {
    LogInTurn(a.log, b.log, c.log);
    Associates(a.callbacks, CallbacksOf(b.log[|a.log|..]), CallbacksOf(c.log[|b.log|..]));
  }

  lemma CallbacksOfOne(log: seq<Delivery>, d: Delivery)
    ensures CallbacksOf((log + [d])[|log|..]) == CallbackIn(d)
  {
    assert (log + [d])[|log|..] == [d];
    assert [d][..0] == [];
  }

  /** The payload parses and carries the callback flag. */
  predicate IsFlagged(d: Delivery) {
    match Parse(d.payload, d.format)
    case Ok(frame) => frame.control.isCallback
    case Err(_) => false
  }

  /** One payload adds its own callback to the queue, and a flagged payload, decodable or not,
      answers no command and touches nothing else. */
  lemma DispatchAdds(n: Runtime, payload: Bytes)
    ensures var m := Dispatch(n, payload);
            var d := Delivery(payload, if n.pendingFormat.Some? then n.pendingFormat.value else Extended, n.version,
                              n.correlator.pending);
            && m.log == n.log + [d]
            && m.callbacks == n.callbacks + CallbackIn(d)
            && (IsFlagged(d) ==> m == n.(log := m.log, callbacks := m.callbacks))
  {
  }

  lemma DispatchFiles(n: Runtime, payload: Bytes)
    ensures Files(n, Dispatch(n, payload))
  {
    DispatchAdds(n, payload);
    var m := Dispatch(n, payload);
    CallbacksOfOne(n.log, m.log[|n.log|]);
  }

  lemma HandleFiles(n: Runtime, item: AshCodec.Decoded)
    ensures Files(n, Handle(n, item).0)
  {
    var m := Handle(n, item).0;
    if item.Frame? {
      var (received, payload, outbound) := Received(n, item.frame);
      var (mid, r) := Reply(received, outbound);
      if r.Ok? && payload.Some? {
        FilesNothing(n, mid);
        DispatchFiles(mid, payload.value);
        FilesInTurn(n, mid, m);
      } else {
        FilesNothing(n, m);
      }
    } else {
      FilesNothing(n, m);
    }
  }

  function FilesFrom(n: Runtime): Runtime -> bool {
    m => Files(n, m)
  }

  lemma FilesWhileReading(n: Runtime)
    ensures KeptByReading(FilesFrom(n)) && FilesFrom(n)(n)
  {
    forall m, item | Files(n, m) ensures Files(n, Handle(m, item).0) {
      HandleFiles(m, item);
      FilesInTurn(n, m, Handle(m, item).0);
    }
    FilesNothing(n, n);
  }

  lemma PumpFiles(n: Runtime, script: seq<Read>, goal: Goal)
    ensures Files(n, Pump(n, script, goal).0)
  {
    FilesWhileReading(n);
    PumpKeeps(FilesFrom(n), n, script, goal);
  }

  /** The read loop reads chunks in order, none beyond the deadline, and gives up on its goal only
      when the reads are used up or the deadline has passed. */
  lemma {:induction false} PumpStops(n: Runtime, script: seq<Read>, goal: Goal)
    ensures var (m, rest, r) := Pump(n, script, goal);
            var used := |script| - |rest|;
            && used >= 0 && rest == script[used..]
            && (forall k :: 0 <= k < used - 1 ==> script[k].Chunk?)
            && (r.Ok? && !Reached(m, goal) ==> rest == [] || (used > 0 && script[used - 1].Deadline?))
    decreases |script|
  {
    if !(Reached(n, goal) || script == []) {
      var first := script[0];
      if first.Deadline? {
        assert script[1..] == script[|script| - |script[1..]|..];
      } else {
        var (m, r) := Consume(n, first.bytes);
        if r.Ok? {
          PumpStops(m, script[1..], goal);
        }
      }
    }
  }

  lemma PumpFirst(n: Runtime, script: seq<Read>, goal: Goal)
    requires !Reached(n, goal) && script != [] && script[0].Chunk?
    ensures var (m, r) := Consume(n, script[0].bytes);
            Pump(n, script, goal) == if r.Err? then (m, script[1..], r) else Pump(m, script[1..], goal)
  {
  }

  /** And it reads nothing once its goal is reached. */
  lemma {:induction false} PumpReadsNoFurther(n: Runtime, script: seq<Read>, goal: Goal, k: nat)
    requires k < |script| - |Pump(n, script, goal).1|
    ensures !Reached(Pump(n, script[..k], goal).0, goal)
    decreases |script|
  {
    assert !Reached(n, goal) && script != [];
    if k == 0 {
      assert script[..0] == [];
    } else if script[0].Chunk? {
      var (m, r) := Consume(n, script[0].bytes);
      PumpFirst(n, script, goal);
      PumpFirst(n, script[..k], goal);
      if r.Ok? {
        assert script[..k][1..] == script[1..][..k - 1];
        PumpReadsNoFurther(m, script[1..], goal, k - 1);
      }
    }
  }

  lemma PerformFiles<R>(n: Runtime, script: seq<Read>, command: CommandSpec<R>)
    ensures Files(n, Perform(n, script, command).0)
  {
    FilesWhileReading(n);
    FilesByCommand(n, command);
    PerformKeeps(FilesFrom(n), n, script, command);
  }

  /** What issuing and concluding a command leave alone. */
  predicate SameFiles(n: Runtime, m: Runtime) {
    m.log == n.log && m.arrived == n.arrived && m.callbacks == n.callbacks && m.version == n.version
  }

  lemma IssueLeaves<R>(n: Runtime, command: CommandSpec<R>)
    ensures SameFiles(n, Issue(n, command).0)
  {
  }

  lemma ConcludeLeaves<R>(n: Runtime, command: CommandSpec<R>, outcome: Result<(), EzspError>)
    ensures SameFiles(n, Conclude(n, command, outcome).0)
  {
  }

  lemma FilesByCommand<R>(n: Runtime, command: CommandSpec<R>)
    ensures KeptByCommand(FilesFrom(n), command)
  {
    forall m | Files(n, m) ensures Files(n, Issue(m, command).0) {
      IssueLeaves(m, command);
    }
    forall m, outcome | Files(n, m) ensures Files(n, Conclude(m, command, outcome).0) {
      ConcludeLeaves(m, command, outcome);
    }
  }

  lemma FilesByReset(n: Runtime)
    ensures KeptByReset(FilesFrom(n))
  {
  }

  lemma ResetFiles(n: Runtime, script: seq<Read>, attempts: nat)
    ensures Files(n, ResetWithin(n, script, attempts).0)
  {
    FilesWhileReading(n);
    FilesByReset(n);
    ResetKeeps(FilesFrom(n), n, script, attempts);
  }

  lemma ConnectFiles(script: seq<Read>)
    ensures Files(NEW, Connect(script).0)
  {
    FilesWhileReading(NEW);
    FilesByReset(NEW);
    forall desired ensures KeptByCommand(FilesFrom(NEW), VersionCommand(desired)) {
      FilesByCommand(NEW, VersionCommand(desired));
    }
    ConnectKeeps(FilesFrom(NEW), script);
  }

  predicate Conserved(s: Session) {
    s.taken + s.n.callbacks == CallbacksOf(s.n.log)
  }

  lemma FilesConserve(s: Session, m: Runtime, script: seq<Read>)
    requires Conserved(s) && Files(s.n, m)
    ensures Conserved(Session(m, script, s.taken))
  {
    var added := m.log[|s.n.log|..];
    assert m.log == s.n.log + added;
    CallbacksOfConcat(s.n.log, added);
    Associates(s.taken, s.n.callbacks, CallbacksOf(added));
  }

  lemma TakeConserves(s: Session)
    requires Conserved(s)
    ensures Conserved(Session(s.n.(callbacks := []), s.script, s.taken + s.n.callbacks))
  {
    assert s.taken + s.n.callbacks + [] == s.taken + s.n.callbacks;
  }

  lemma ClientStepConserves<R>(s: Session, action: Action<R>)
    requires Conserved(s)
    ensures Conserved(ClientStep(s, action))
  {
    match action
    case Do(command) =>
      PerformFiles(s.n, s.script, command);
      FilesConserve(s, Perform(s.n, s.script, command).0, Perform(s.n, s.script, command).1);
    case PollOnce =>
      var (n, script, r) := Pump(s.n, s.script, ForCallback);
      PumpFiles(s.n, s.script, ForCallback);
      FilesConserve(s, n, script);
      TakeConserves(Session(n, script, s.taken));
    case TakeQueue => TakeConserves(s);
    case ResetAgain =>
      var (n, script, _) := ResetWithin(s.n, s.script, MAX_RESET_ATTEMPTS);
      ResetFiles(s.n, s.script, MAX_RESET_ATTEMPTS);
      FilesConserve(s, n, script);
  }

  /** However commands, polls, resets and reads are interleaved and however the bytes are cut, the
      callbacks handed out so far followed by those queued are, in order of arrival, exactly those
      in the payloads filed, each read in the format and version filed with it. */
  lemma {:induction false} CallbacksAreConserved<R>(script: seq<Read>, actions: seq<Action<R>>)
    ensures Conserved(ClientRun(script, actions))
  {
    if actions == [] {
      ConnectFiles(script);
      var n := Connect(script).0;
      assert n.log[|NEW.log|..] == n.log;
      assert [] + CallbacksOf(n.log) == CallbacksOf(n.log);
    } else {
      CallbacksAreConserved(script, actions[..|actions| - 1]);
      ClientStepConserves(ClientRun(script, actions[..|actions| - 1]), actions[|actions| - 1]);
    }
  }

  // ---------------------------------------------------------------------------------------------
  // Nothing ASH returns is lost on the way to the log.

  function Payloads(log: seq<Delivery>): seq<Bytes> {
    seq(|log|, i requires 0 <= i < |log| => log[i].payload)
  }

  /** Every payload ASH returned was filed, in order, and nothing else was. */
  predicate AllFiled(n: Runtime) {
    Payloads(n.log) == n.arrived
  }

  lemma EncodesUpTo130(frame: AshFrame)
    ensures Encoded(frame).Ok? <==> !frame.Data? || |frame.payload| <= 130
  {
  }

  /** A payload comes with an acknowledgement, which can always be written. */
  lemma PayloadsAreAnswered(n: Runtime, frame: AshFrame)
    requires Received(n, frame).1.Some?
    ensures var (m, _, outbound) := Received(n, frame); Reply(m, outbound).1.Ok?
  {
    EncodesUpTo130(Received(n, frame).2.frame);
  }

  /** What the connection delivers from one decoder output. */
  function AshStep(e: Endpoint, item: AshCodec.Decoded): (Endpoint, seq<Bytes>) {
    match item
    case Frame(frame) =>
      var (e, payload, _) := OnFrame(e, frame);
      (e, if payload.Some? then [payload.value] else [])
    case Rejected(error) => (OnDecodeFailure(e, error).0, [])
  }

  function AshDelivered(e: Endpoint, items: seq<AshCodec.Decoded>): (Endpoint, seq<Bytes>)
    decreases |items|
  {
    if items == [] then (e, [])
    else
      var (e, first) := AshStep(e, items[0]);
      var (e, rest) := AshDelivered(e, items[1..]);
      (e, first + rest)
  }

  /** From `n` to `m` the connection became `e`, and log and record gained `delivered`. */
  predicate Tracks(n: Runtime, m: Runtime, e: Endpoint, delivered: seq<Bytes>) {
    && m.ash == e
    && Payloads(m.log) == Payloads(n.log) + delivered
    && m.arrived == n.arrived + delivered
  }

  lemma TracksInTurn(a: Runtime, b: Runtime, c: Runtime, first: (Endpoint, seq<Bytes>), rest: (Endpoint, seq<Bytes>))
    requires Tracks(a, b, first.0, first.1) && Tracks(b, c, rest.0, rest.1)
    ensures Tracks(a, c, rest.0, first.1 + rest.1)
  {
    Associates(Payloads(a.log), first.1, rest.1);
    Associates(a.arrived, first.1, rest.1);
  }

  lemma DispatchLogs(n: Runtime, payload: Bytes)
    ensures var m := Dispatch(n, payload);
            m.ash == n.ash && m.arrived == n.arrived && Payloads(m.log) == Payloads(n.log) + [payload]
  {
    DispatchAdds(n, payload);
  }

  /** A delivered payload is always filed: only acknowledgements accompany it, and those can always
      be written. */
  lemma HandleDelivers(n: Runtime, item: AshCodec.Decoded)
    ensures Tracks(n, Handle(n, item).0, AshStep(n.ash, item).0, AshStep(n.ash, item).1)
  {
    if item.Frame? {
      var (m, payload, outbound) := Received(n, item.frame);
      var (replied, r) := Reply(m, outbound);
      assert Tracks(n, replied.(arrived := n.arrived), m.ash, []) by {
        assert Payloads(n.log) + [] == Payloads(n.log);
      }
      if payload.Some? {
        PayloadsAreAnswered(n, item.frame);
        DispatchLogs(replied, payload.value);
      }
    }
  }

  /** How many outputs are handled: all of them unless a reply cannot be written. */
  function Handled(n: Runtime, items: seq<AshCodec.Decoded>): (count: nat)
    ensures count <= |items|
    ensures HandleAll(n, items).1.Ok? ==> count == |items|
    decreases |items|
  {
    if items == [] then 0
    else
      var (m, r) := Handle(n, items[0]);
      if r.Ok? then 1 + Handled(m, items[1..]) else 1
  }

  /** Log and record gain every payload ASH delivers from the outputs handled, in order. */
  lemma {:induction false} HandleAllDelivers(n: Runtime, items: seq<AshCodec.Decoded>)
    ensures var (e, delivered) := AshDelivered(n.ash, items[..Handled(n, items)]);
            Tracks(n, HandleAll(n, items).0, e, delivered)
    decreases |items|
  {
    if items == [] {
      assert Payloads(n.log) + [] == Payloads(n.log) && n.arrived + [] == n.arrived;
    } else {
      var (m, r) := Handle(n, items[0]);
      var k := Handled(n, items);
      var first := AshStep(n.ash, items[0]);
      HandleDelivers(n, items[0]);
      assert items[..k][0] == items[0];
      if r.Ok? {
        assert items[..k][1..] == items[1..][..k - 1];
        HandleAllDelivers(m, items[1..]);
        TracksInTurn(n, m, HandleAll(m, items[1..]).0, first, AshDelivered(m.ash, items[1..][..k - 1]));
      } else {
        assert items[..k][1..] == [];
        assert first.1 + [] == first.1;
      }
    }
  }

  /** Over every session, whatever the port yields and however replies fare. */
  lemma ArrivalsAreFiled<R>(script: seq<Read>, actions: seq<Action<R>>)
    ensures AllFiled(ClientRun(script, actions).n)
  {
    var inv := (n: Runtime) => AllFiled(n);
    forall n, item | AllFiled(n) ensures AllFiled(Handle(n, item).0) {
      HandleDelivers(n, item);
    }
    assert KeptByReading(inv);
    forall desired ensures KeptByCommand(inv, VersionCommand(desired)) {
      AllFiledByCommand(inv, VersionCommand(desired));
    }
    forall i | 0 <= i < |actions| && actions[i].Do? ensures KeptByCommand(inv, actions[i].command) {
      AllFiledByCommand(inv, actions[i].command);
    }
    ConnectKeeps(inv, script);
    SessionKeeps(inv, script, actions);
  }

  lemma AllFiledByCommand<R>(inv: Runtime -> bool, command: CommandSpec<R>)
    requires forall n :: inv(n) == AllFiled(n)
    ensures KeptByCommand(inv, command)
  {
    forall n | inv(n) ensures inv(Issue(n, command).0) {
      IssueLeaves(n, command);
    }
    forall n, outcome | inv(n) ensures inv(Conclude(n, command, outcome).0) {
      ConcludeLeaves(n, command, outcome);
    }
  }
}
