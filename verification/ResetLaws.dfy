/** When a reset completes and how many RSTs it writes, as a function of the bytes on the line. */
module ResetLaws {
  import opened Basics
  import opened AshFrames
  import opened AshConnections
  import opened AshCodec
  import opened EzspCodec
  import opened Runtimes
  import opened RuntimeInduction
  import opened RuntimeLaws
  import opened CommandLaws
  import opened OutcomeLaws
  import AshStreams

  // ---------------------------------------------------------------------------------------------
  // The reference reading.

  /** Reads until a chunk leaves the link up, or the deadline: whether it did, what is left to read,
      and the connection. */
  function Listen(e: Endpoint, decoder: Partial, script: seq<Read>): (bool, seq<Read>, Endpoint)
    decreases |script|
  {
    if script == [] then (false, [], e)
    else if script[0].Deadline? then (false, script[1..], e)
    else
      var (decoder, items) := Fed(decoder, script[0].bytes);
      var e := AshDelivered(e, items).0;
      if e.state.Connected? then (true, script[1..], e) else Listen(e, decoder, script[1..])
  }

  /** How many RSTs go out, and what is left to read once one of them is answered. */
  datatype Restart = Restart(rsts: nat, left: Option<seq<Read>>)

  function Restarted(e: Endpoint, script: seq<Read>, tries: nat): Restart
    decreases tries
  {
    if tries == 0 || BeginReset(e).1.Nothing? then Restart(0, None)
    else
      var (up, left, e') := Listen(BeginReset(e).0, EMPTY, script);
      if up then Restart(1, Some(left))
      else
        var later := Restarted(e', left, tries - 1);
        later.(rsts := later.rsts + 1)
  }

  // ---------------------------------------------------------------------------------------------
  // Only a reset writes an RST.

  function Rsts(written: seq<Bytes>): nat {
    if written == [] then 0
    else Rsts(written[..|written| - 1]) + if written[|written| - 1] == Line(Rst) then 1 else 0
  }

  lemma RstsOfOne(written: seq<Bytes>, bytes: Bytes)
    ensures Rsts(written + [bytes]) == Rsts(written) + if bytes == Line(Rst) then 1 else 0
  {
    assert (written + [bytes])[..|written|] == written;
  }

  lemma OnlyRstIsRst(frame: AshFrame)
    requires Encoded(frame).Ok? && Line(frame) == Line(Rst)
    ensures frame.Rst?
  {
    AshStreams.EncodedDecodes(frame);
    AshStreams.EncodedDecodes(Rst);
    assert [AshStreams.Echo(frame)][0] == [AshStreams.Echo(Rst)][0];
  }

  lemma ReplyKeepsRsts(n: Runtime, outbound: Outbound)
    requires outbound.Send? ==> !outbound.frame.Rst?
    ensures Rsts(Reply(n, outbound).0.written) == Rsts(n.written)
  {
    if outbound.Send? && Encoded(outbound.frame).Ok? {
      RstsOfOne(n.written, Line(outbound.frame));
      if Line(outbound.frame) == Line(Rst) {
        OnlyRstIsRst(outbound.frame);
      }
    }
  }

  lemma HandleKeepsRsts(n: Runtime, item: AshCodec.Decoded)
    ensures Rsts(Handle(n, item).0.written) == Rsts(n.written)
  {
    match item
    case Frame(frame) =>
      var (m, payload, outbound) := Received(n, frame);
      ReplyKeepsRsts(m, outbound);
      if payload.Some? {
        DispatchWritesNothing(Reply(m, outbound).0, payload.value);
      }
    case Rejected(error) =>
      var (ash, outbound) := OnDecodeFailure(n.ash, error);
      ReplyKeepsRsts(n.(ash := ash), outbound);
  }

  lemma DispatchWritesNothing(n: Runtime, payload: Bytes)
    ensures Dispatch(n, payload).written == n.written
  {
  }

  function SameRsts(count: nat): Runtime -> bool {
    (m: Runtime) => Rsts(m.written) == count
  }

  lemma PumpKeepsRsts(n: Runtime, script: seq<Read>, goal: Goal)
    ensures Rsts(Pump(n, script, goal).0.written) == Rsts(n.written)
  {
    var inv := SameRsts(Rsts(n.written));
    forall m, item | inv(m) ensures inv(Handle(m, item).0) {
      HandleKeepsRsts(m, item);
    }
    PumpKeeps(inv, n, script, goal);
  }

  // ---------------------------------------------------------------------------------------------
  // The runtime follows the reading.

  lemma HandleAllListens(n: Runtime, items: seq<AshCodec.Decoded>)
    requires Encodable(n.ash)
    ensures var (m, r) := HandleAll(n, items);
            r.Ok? && Encodable(m.ash) && m.ash == AshDelivered(n.ash, items).0 && m.decoder == n.decoder
  {
    HandleAllSucceeds(n, items);
    HandleAllDelivers(n, items);
    assert items[..|items|] == items;
    HandleAllDecoder(n, items);
  }

  lemma {:induction false} PumpListens(n: Runtime, script: seq<Read>)
    requires Encodable(n.ash) && !n.ash.state.Connected?
    ensures var (m, left, r) := Pump(n, script, ForConnection);
            var (up, left', e) := Listen(n.ash, n.decoder, script);
            && r.Ok? && left == left' && m.ash == e && Encodable(e) && (m.ash.state.Connected? <==> up)
    decreases |script|
  {
    if script != [] && script[0].Chunk? {
      var (decoder, items) := Fed(n.decoder, script[0].bytes);
      var fed := n.(decoder := decoder);
      HandleAllListens(fed, items);
      var m := HandleAll(fed, items).0;
      PumpFirst(n, script, ForConnection);
      if m.ash.state.Connected? {
        assert Pump(m, script[1..], ForConnection) == (m, script[1..], Ok(()));
      } else {
        PumpListens(m, script[1..]);
      }
    }
  }

  /** One attempt, with its result, follows the reading. */
  predicate AttemptFollows(n: Runtime, script: seq<Read>, attempted: (Runtime, seq<Read>, Handshake)) {
    var (m, left, handshake) := attempted;
    var (up, left', e) := Listen(BeginReset(n.ash).0, EMPTY, script);
    if BeginReset(n.ash).1.Nothing? then
      handshake == Hopeless(AshFailure(ResetFailed)) && m.written == n.written
    else
      && Rsts(m.written) == Rsts(n.written) + 1 && left == left'
      && handshake == (if up then Completed else Unanswered)
      && (!up ==> m.ash == e)
  }

  lemma ResetAttemptFollows(n: Runtime, script: seq<Read>)
    ensures AttemptFollows(n, script, ResetAttempt(n, script))
  {
    ResetAttemptCases(n, script);
    if BeginReset(n.ash).1.Send? {
      var sent := ResetSent(n);
      RstsOfOne(n.written, Line(Rst));
      PumpListens(sent, script);
      PumpKeepsRsts(sent, script, ForConnection);
    }
  }

  /** A reset with this result follows the reading. */
  predicate ResetFollows(n: Runtime, script: seq<Read>, attempts: nat,
                         result: (Runtime, seq<Read>, Result<(), EzspError>))
  {
    var (m, left, r) := result;
    var restart := Restarted(n.ash, script, attempts);
    && Rsts(m.written) == Rsts(n.written) + restart.rsts
    && (r.Ok? <==> restart.left.Some?)
    && (r.Ok? ==> restart.left == Some(left))
    && (r.Err? ==> r == Err(AshFailure(ResetFailed)))
  }

  lemma TriedNever(attempt: (Runtime, seq<Read>) -> (Runtime, seq<Read>, Handshake), n: Runtime, script: seq<Read>)
    ensures ResetFollows(n, script, 0, Tried(attempt, n, script, 0))
  {
  }

  /** One try more, given what comes of the tries after it. */
  lemma TriedOnce(attempt: (Runtime, seq<Read>) -> (Runtime, seq<Read>, Handshake),
                  n: Runtime, script: seq<Read>, attempts: nat)
    requires attempts > 0 && AttemptFollows(n, script, attempt(n, script))
    requires var (m, left, handshake) := attempt(n, script);
             handshake.Unanswered? ==> ResetFollows(m, left, attempts - 1, Tried(attempt, m, left, attempts - 1))
    ensures ResetFollows(n, script, attempts, Tried(attempt, n, script, attempts))
  {
    match attempt(n, script)
    case (m, left, Completed) => FollowsAtOnce(n, script, attempts, m, left);
    case (m, left, Hopeless(error)) => FollowsHopelessly(n, script, attempts, m, left, error);
    case (m, left, Unanswered) => FollowsLater(n, script, attempts, m, left, Tried(attempt, m, left, attempts - 1));
  }

  lemma FollowsAtOnce(n: Runtime, script: seq<Read>, attempts: nat, m: Runtime, left: seq<Read>)
    requires attempts > 0 && AttemptFollows(n, script, (m, left, Completed))
    ensures ResetFollows(n, script, attempts, (m, left, Ok(())))
  {
  }

  lemma FollowsHopelessly(n: Runtime, script: seq<Read>, attempts: nat, m: Runtime, left: seq<Read>,
                          error: EzspError)
    requires attempts > 0 && AttemptFollows(n, script, (m, left, Hopeless(error)))
    ensures ResetFollows(n, script, attempts, (m, left, Err(error)))
  {
  }

  lemma FollowsLater(n: Runtime, script: seq<Read>, attempts: nat, m: Runtime, left: seq<Read>,
                     result: (Runtime, seq<Read>, Result<(), EzspError>))
    requires attempts > 0 && AttemptFollows(n, script, (m, left, Unanswered))
    requires ResetFollows(m, left, attempts - 1, result)
    ensures ResetFollows(n, script, attempts, result)
  {
  }

  /** Whatever state it starts from, a reset completes, leaves unread and writes as many RSTs as the
      reading of the line says. */
  lemma {:induction false} ResetFollowsReading(n: Runtime, script: seq<Read>, attempts: nat)
    ensures ResetFollows(n, script, attempts, ResetWithin(n, script, attempts))
    decreases attempts
  {
    if attempts == 0 {
      TriedNever(ResetAttempt, n, script);
    } else {
      var (m, left, handshake) := ResetAttempt(n, script);
      ResetAttemptFollows(n, script);
      if handshake.Unanswered? {
        ResetFollowsReading(m, left, attempts - 1);
      }
      TriedOnce(ResetAttempt, n, script, attempts);
    }
  }

  // ---------------------------------------------------------------------------------------------
  // How many attempts there are.

  /** Handshakes counted against the limit. */
  function Attempts(e: Endpoint): nat {
    if e.state.Resetting? then e.state.attempts else 0
  }

  /** Unless a handshake is under way, a reset writes one to five RSTs, and five exactly when none of
      the first four is answered; a connection that has used up its five writes none and fails. */
  lemma ResetTriesFiveTimes(n: Runtime, script: seq<Read>)
    ensures var (m, _, r) := ResetWithin(n, script, MAX_RESET_ATTEMPTS);
            var rsts := Rsts(m.written) - Rsts(n.written);
            && (!n.ash.state.Resetting? ==> 1 <= rsts <= 5 && (r.Err? ==> rsts == 5))
            && (Attempts(n.ash) >= 5 ==> rsts == 0 && r.Err?)
  {
    ResetFollowsReading(n, script, MAX_RESET_ATTEMPTS);
    if !n.ash.state.Resetting? {
      RestartedInFull(n.ash, script, MAX_RESET_ATTEMPTS);
    }
  }

  lemma {:induction false} RestartedInFull(e: Endpoint, script: seq<Read>, tries: nat)
    requires Attempts(e) + tries <= 5
    ensures var restart := Restarted(e, script, tries);
            && restart.rsts <= tries && (tries > 0 ==> restart.rsts >= 1)
            && (restart.left.None? ==> restart.rsts == tries)
    decreases tries
  {
    if tries > 0 {
      var (up, left, e') := Listen(BeginReset(e).0, EMPTY, script);
      ListenCounts(BeginReset(e).0, EMPTY, script);
      if !up {
        RestartedInFull(e', left, tries - 1);
      }
    }
  }

  lemma StepCounts(e: Endpoint, item: AshCodec.Decoded)
    ensures Attempts(AshStep(e, item).0) <= Attempts(e)
  {
  }

  lemma {:induction false} DeliveredCounts(e: Endpoint, items: seq<AshCodec.Decoded>)
    ensures Attempts(AshDelivered(e, items).0) <= Attempts(e)
    decreases |items|
  {
    if items != [] {
      StepCounts(e, items[0]);
      DeliveredCounts(AshStep(e, items[0]).0, items[1..]);
    }
  }

  lemma {:induction false} ListenCounts(e: Endpoint, decoder: Partial, script: seq<Read>)
    ensures Attempts(Listen(e, decoder, script).2) <= Attempts(e)
    decreases |script|
  {
    if script != [] && script[0].Chunk? {
      var (decoder', items) := Fed(decoder, script[0].bytes);
      DeliveredCounts(e, items);
      var e' := AshDelivered(e, items).0;
      if !e'.state.Connected? {
        ListenCounts(e', decoder', script[1..]);
      }
    }
  }

  // ---------------------------------------------------------------------------------------------
  // When one read brings the link up.

  predicate Rose(items: seq<AshCodec.Decoded>, k: nat)
    requires k <= |items|
  {
    exists i :: 0 <= i < k && IsRstAck(items[i]) && forall j :: i < j < k ==> !IsError(items[j])
  }

  lemma RoseStep(items: seq<AshCodec.Decoded>, k: nat)
    requires k < |items|
    ensures Rose(items, k + 1) <==> IsRstAck(items[k]) || (Rose(items, k) && !IsError(items[k]))
  {
    if Rose(items, k + 1) {
      var i :| 0 <= i < k + 1 && IsRstAck(items[i]) && forall j :: i < j < k + 1 ==> !IsError(items[j]);
    }
    if Rose(items, k) && !IsError(items[k]) {
      var i :| 0 <= i < k && IsRstAck(items[i]) && forall j :: i < j < k ==> !IsError(items[j]);
      assert IsRstAck(items[i]) && forall j :: i < j < k + 1 ==> !IsError(items[j]);
    }
  }

  lemma QuietLinkStep(e: Endpoint, item: AshCodec.Decoded)
    requires e.state.Connected? ==> e.inFlight == []
    ensures var e' := AshStep(e, item).0;
            && (e'.state.Connected? ==> e'.inFlight == [])
            && (e'.state.Connected? <==> IsRstAck(item) || (e.state.Connected? && !IsError(item)))
  {
  }

  /** A read brings a link that is down up if and only if it contains an RSTACK with no ERROR behind
      it, whatever else it contains. */
  lemma {:induction false} LinkUpExactly(e: Endpoint, items: seq<AshCodec.Decoded>, k: nat)
    requires !e.state.Connected? && k <= |items|
    ensures After(e, items, k).state.Connected? <==> Rose(items, k)
    ensures After(e, items, k).state.Connected? ==> After(e, items, k).inFlight == []
    decreases k
  {
    if k == 0 {
      assert items[..0] == [];
    } else {
      LinkUpExactly(e, items, k - 1);
      AfterStep(e, items, k - 1);
      QuietLinkStep(After(e, items, k - 1), items[k - 1]);
      RoseStep(items, k - 1);
    }
  }

  /** One read of the reference reading, said with the frames on the line. */
  lemma ListenByFrames(e: Endpoint, decoder: Partial, script: seq<Read>)
    requires !e.state.Connected? && script != [] && script[0].Chunk?
    ensures var (decoder', items) := Fed(decoder, script[0].bytes);
            var e' := AshDelivered(e, items).0;
            Listen(e, decoder, script)
            == if Rose(items, |items|) then (true, script[1..], e') else Listen(e', decoder', script[1..])
  {
    var items := Fed(decoder, script[0].bytes).1;
    WholeRead(e, items);
    LinkUpExactly(e, items, |items|);
  }
}
