/** Where one connection stands after any events, read off the events themselves: whether it is up,
    what it has been sending, what its counters and flags mean, and what it answers. */
module AshPhaseLaws {
  import opened Basics
  import opened AshFrames
  import opened AshConnections
  import opened AshConnectionRuns

  /** The endpoint before event `j`. */
  function Before(events: seq<Event>, j: nat): Endpoint
    requires j <= |events|
  {
    Run(events[..j]).end
  }

  lemma RunOneMore(events: seq<Event>, n: nat)
    requires n < |events|
    ensures Run(events[..n + 1]) == Step(Run(events[..n]), events[n])
  {
    assert events[..n + 1][..n] == events[..n];
  }

  // ---------------------------------------------------------------------------------------------
  // Up and down.

  predicate BringsUp(event: Event) {
    event.Arrive? && event.frame.RstAck?
  }

  /** The head has had its three sends. */
  predicate Exhausted(queue: seq<InFlight>) {
    queue != [] && queue[0].sends >= 3
  }

  /** A reset of our own, an ERROR, or a resend that is due but has been used up. */
  predicate TakesDown(e: Endpoint, event: Event) {
    match event
    case Reset => true
    case Arrive(Error(_, _)) => true
    case Arrive(Nak(ackNum, _)) => Exhausted(Retire(e, ackNum).inFlight)
    case Expire => Exhausted(e.inFlight)
    case _ => false
  }

  /** Whether event leaves the link up, from whether it was. */
  predicate StaysUp(e: Endpoint, event: Event) {
    BringsUp(event) || (e.state.Connected? && !TakesDown(e, event))
  }

  lemma FrameUpExactly(h: History, frame: AshFrame)
    ensures Step(h, Arrive(frame)).end.state.Connected? <==> StaysUp(h.end, Arrive(frame))
  {
  }

  lemma StepUpExactly(h: History, event: Event)
    ensures Step(h, event).end.state.Connected? <==> StaysUp(h.end, event)
  {
    match event
    case Arrive(frame) => FrameUpExactly(h, frame);
    case Reset =>
    case Submit(_) =>
    case Garbled(_) =>
    case Expire =>
  }

  /** Event `i` brought the connection up, and nothing after it up to `n` took it down. */
  predicate UpSince(events: seq<Event>, n: nat, i: nat)
    requires i < n <= |events|
  {
    BringsUp(events[i]) && forall j :: i < j < n ==> !TakesDown(Before(events, j), events[j])
  }

  ghost predicate UpAt(events: seq<Event>, n: nat)
    requires n <= |events|
  {
    exists i :: 0 <= i < n && UpSince(events, n, i)
  }

  lemma UpOneMore(events: seq<Event>, n: nat)
    requires n < |events|
    ensures UpAt(events, n + 1)
            <==> BringsUp(events[n]) || (UpAt(events, n) && !TakesDown(Before(events, n), events[n]))
  {
    if BringsUp(events[n]) {
      assert UpSince(events, n + 1, n);
    } else if UpAt(events, n) && !TakesDown(Before(events, n), events[n]) {
      var i :| 0 <= i < n && UpSince(events, n, i);
      assert UpSince(events, n + 1, i);
    }
    if UpAt(events, n + 1) && !BringsUp(events[n]) {
      var i :| 0 <= i < n + 1 && UpSince(events, n + 1, i);
      assert UpSince(events, n, i);
    }
  }

  /** A connection is up if and only if an RSTACK has come and nothing since has taken it down: never
      before the first one. */
  lemma {:induction false} ConnectedExactly(events: seq<Event>, n: nat)
    requires n <= |events|
    ensures Before(events, n).state.Connected? <==> UpAt(events, n)
  {
    if n > 0 {
      ConnectedExactly(events, n - 1);
      RunOneMore(events, n - 1);
      StepUpExactly(Run(events[..n - 1]), events[n - 1]);
      UpOneMore(events, n - 1);
    }
  }

  /** The phase after one more event: up by an RSTACK; resetting by a reset of our own, unless five have
      gone unanswered; failed by anything else that takes the link down; and otherwise as it was. */
  function PhaseAfter(e: Endpoint, event: Event): ConnectionState {
    if BringsUp(event) then Connected
    else if event.Reset? then
      var begun := if e.state.Resetting? then e.state.attempts else 0;
      if begun >= 5 then Failed else Resetting(begun + 1)
    else if TakesDown(e, event) then Failed
    else e.state
  }

  /** The phase by the events, from disconnected on. */
  function Phase(events: seq<Event>, n: nat): ConnectionState
    requires n <= |events|
  {
    if n == 0 then Disconnected
    else PhaseAfter(Before(events, n - 1).(state := Phase(events, n - 1)), events[n - 1])
  }

  lemma FramePhase(h: History, frame: AshFrame)
    ensures Step(h, Arrive(frame)).end.state == PhaseAfter(h.end, Arrive(frame))
  {
  }

  lemma StepPhase(h: History, event: Event)
    ensures Step(h, event).end.state == PhaseAfter(h.end, event)
  {
    match event
    case Arrive(frame) => FramePhase(h, frame);
    case Reset =>
    case Submit(_) =>
    case Garbled(_) =>
    case Expire =>
  }

  lemma {:induction false} PhaseExactly(events: seq<Event>, n: nat)
    requires n <= |events|
    ensures Before(events, n).state == Phase(events, n)
  {
    if n > 0 {
      PhaseExactly(events, n - 1);
      RunOneMore(events, n - 1);
      StepPhase(Run(events[..n - 1]), events[n - 1]);
      var e := Before(events, n - 1);
      assert e.(state := Phase(events, n - 1)) == e;
    }
  }

  // ---------------------------------------------------------------------------------------------
  // What a failed frame leaves behind.

  predicate Spoils(event: Event) {
    event.Garbled? && (event.error.BadCrc? || event.error.Substituted?)
  }

  /** A new beginning: an RSTACK, or a reset of our own unless five have gone unanswered. */
  predicate StartsOver(e: Endpoint, event: Event) {
    BringsUp(event) || (event.Reset? && !(e.state.Resetting? && e.state.attempts >= 5))
  }

  /** The data frame that was expected. */
  predicate Delivers(e: Endpoint, event: Event) {
    event.Arrive? && event.frame.Data? && event.frame.frameNum == e.nextRxFrame
  }

  /** A spoilt frame has been made up for. */
  predicate MakesUp(e: Endpoint, event: Event) {
    StartsOver(e, event) || Delivers(e, event)
  }

  lemma FrameSpoiltExactly(h: History, frame: AshFrame)
    ensures var e' := Step(h, Arrive(frame)).end;
            && (e'.nakPending <==> h.end.nakPending && !MakesUp(h.end, Arrive(frame)))
            && (!h.end.ackPending ==> !e'.ackPending)
  {
  }

  lemma StepSpoiltExactly(h: History, event: Event)
    ensures Step(h, event).end.nakPending <==> Spoils(event) || (h.end.nakPending && !MakesUp(h.end, event))
    ensures !h.end.ackPending ==> !Step(h, event).end.ackPending
  {
    match event
    case Arrive(frame) => FrameSpoiltExactly(h, frame);
    case Reset =>
    case Submit(_) =>
    case Garbled(_) =>
    case Expire =>
  }

  /** Event `i` was a frame that failed its check or was marked bad, and nothing after it up to `n` has
      made up for it. */
  predicate SpoiltSince(events: seq<Event>, n: nat, i: nat)
    requires i < n <= |events|
  {
    Spoils(events[i]) && forall j :: i < j < n ==> !MakesUp(Before(events, j), events[j])
  }

  ghost predicate SpoiltAt(events: seq<Event>, n: nat)
    requires n <= |events|
  {
    exists i :: 0 <= i < n && SpoiltSince(events, n, i)
  }

  lemma SpoiltOneMore(events: seq<Event>, n: nat)
    requires n < |events|
    ensures SpoiltAt(events, n + 1)
            <==> Spoils(events[n]) || (SpoiltAt(events, n) && !MakesUp(Before(events, n), events[n]))
  {
    if Spoils(events[n]) {
      assert SpoiltSince(events, n + 1, n);
    } else if SpoiltAt(events, n) && !MakesUp(Before(events, n), events[n]) {
      var i :| 0 <= i < n && SpoiltSince(events, n, i);
      assert SpoiltSince(events, n + 1, i);
    }
    if SpoiltAt(events, n + 1) && !Spoils(events[n]) {
      var i :| 0 <= i < n + 1 && SpoiltSince(events, n + 1, i);
      assert SpoiltSince(events, n, i);
    }
  }

  /** `nak_pending` says exactly that a frame was spoilt and that neither the frame expected nor a new
      beginning has come since. `ack_pending` says nothing: it is never set. */
  lemma {:induction false} PendingFlagsExactly(events: seq<Event>, n: nat)
    requires n <= |events|
    ensures Before(events, n).nakPending <==> SpoiltAt(events, n)
    ensures !Before(events, n).ackPending
  {
    if n > 0 {
      PendingFlagsExactly(events, n - 1);
      RunOneMore(events, n - 1);
      StepSpoiltExactly(Run(events[..n - 1]), events[n - 1]);
      SpoiltOneMore(events, n - 1);
    }
  }

  // ---------------------------------------------------------------------------------------------
  // The counters.

  predicate Sends(e: Endpoint, event: Event) {
    event.Submit? && e.state.Connected? && |e.inFlight| <= 6
  }

  /** Data frames delivered since the last new beginning. */
  function DeliveredSince(events: seq<Event>, n: nat): nat
    requires n <= |events|
  {
    if n == 0 then 0
    else if StartsOver(Before(events, n - 1), events[n - 1]) then 0
    else DeliveredSince(events, n - 1) + if Delivers(Before(events, n - 1), events[n - 1]) then 1 else 0
  }

  /** Payloads accepted for sending since then. */
  function SentSince(events: seq<Event>, n: nat): nat
    requires n <= |events|
  {
    if n == 0 then 0
    else if StartsOver(Before(events, n - 1), events[n - 1]) then 0
    else SentSince(events, n - 1) + if Sends(Before(events, n - 1), events[n - 1]) then 1 else 0
  }

  lemma NextIsMod(count: nat)
    ensures NextSequence(count % 8) == (count + 1) % 8
  {
  }

  /** The counters afterwards. */
  predicate Counts(e: Endpoint, event: Event, e': Endpoint) {
    if StartsOver(e, event) then e'.nextTxFrame == 0 && e'.nextRxFrame == 0
    else
      && e'.nextRxFrame == (if Delivers(e, event) then NextSequence(e.nextRxFrame) else e.nextRxFrame)
      && e'.nextTxFrame == (if Sends(e, event) then NextSequence(e.nextTxFrame) else e.nextTxFrame)
  }

  lemma FrameCounts(h: History, frame: AshFrame)
    ensures Counts(h.end, Arrive(frame), Step(h, Arrive(frame)).end)
  {
  }

  lemma StepCounts(h: History, event: Event)
    ensures Counts(h.end, event, Step(h, event).end)
  {
    match event
    case Arrive(frame) => FrameCounts(h, frame);
    case Reset =>
    case Submit(_) =>
    case Garbled(_) =>
    case Expire =>
  }

  predicate CountedAt(events: seq<Event>, n: nat, e: Endpoint)
    requires n <= |events|
  {
    e.nextRxFrame == DeliveredSince(events, n) % 8 && e.nextTxFrame == SentSince(events, n) % 8
  }

  lemma CountedOneMore(events: seq<Event>, n: nat, e': Endpoint)
    requires n < |events|
    requires CountedAt(events, n, Before(events, n)) && Counts(Before(events, n), events[n], e')
    ensures CountedAt(events, n + 1, e')
  {
    NextIsMod(DeliveredSince(events, n));
    NextIsMod(SentSince(events, n));
  }

  /** The number expected is the count of frames delivered since the last new beginning, and the number
      to send next the count of payloads accepted, both mod 8. */
  lemma {:induction false} CountersExactly(events: seq<Event>, n: nat)
    requires n <= |events|
    ensures CountedAt(events, n, Before(events, n))
  {
    if n > 0 {
      CountersExactly(events, n - 1);
      RunOneMore(events, n - 1);
      StepCounts(Run(events[..n - 1]), events[n - 1]);
      CountedOneMore(events, n - 1, Before(events, n));
    }
  }

  // ---------------------------------------------------------------------------------------------
  // Resets, and the quiet after them.

  /** `k` resets begun one after another, with nothing received in between. */
  function Begun(e: Endpoint, k: nat): Endpoint {
    if k == 0 then e else BeginReset(Begun(e, k - 1)).0
  }

  lemma Sixths(k: nat)
    requires k > 0
    ensures k % 6 == if (k - 1) % 6 == 5 then 0 else (k - 1) % 6 + 1
  {
  }

  /** Unless one is under way, five resets in a row each send an RST, the sixth fails and sends nothing,
      and so on from there. */
  lemma {:induction false} SixthResetFails(e: Endpoint, k: nat)
    requires !e.state.Resetting? && k > 0
    ensures Begun(e, k).state == if k % 6 == 0 then Failed else Resetting(k % 6)
    ensures BeginReset(Begun(e, k - 1)).1 == if k % 6 == 0 then Nothing else Send(Rst)
  {
    Sixths(k);
    if k > 1 {
      SixthResetFails(e, k - 1);
    }
  }

  /** Down, with nothing to resend. */
  predicate Quiet(e: Endpoint) {
    !e.state.Connected? && e.inFlight == []
  }

  lemma StaysQuiet(h: History, event: Event)
    requires Quiet(h.end) && !BringsUp(event)
    ensures Quiet(Step(h, event).end) && Step(h, event).log == h.log && Step(h, event).accepted == h.accepted
  {
  }

  lemma {:induction false} QuietThroughout(events: seq<Event>, m: nat, n: nat)
    requires m <= n <= |events| && Quiet(Before(events, m))
    requires forall j :: m <= j < n ==> !BringsUp(events[j])
    ensures Quiet(Before(events, n)) && Run(events[..n]).log == Run(events[..m]).log
    ensures Run(events[..n]).accepted == Run(events[..m]).accepted
    decreases n
  {
    if m < n {
      QuietThroughout(events, m, n - 1);
      RunOneMore(events, n - 1);
      StaysQuiet(Run(events[..n - 1]), events[n - 1]);
    }
  }

  /** From an ERROR, or a reset of our own that starts over, up to the next RSTACK no data frame goes out
      and no payload is accepted, whatever arrives: not even a NAK or a timeout has anything to resend. */
  lemma QuietUntilRstAck(events: seq<Event>, i: nat, n: nat)
    requires i < n <= |events|
    requires (events[i].Arrive? && events[i].frame.Error?)
             || (events[i].Reset? && StartsOver(Before(events, i), events[i]))
    requires forall j :: i < j < n ==> !BringsUp(events[j])
    ensures Run(events[..n]).log == Run(events[..i]).log && Run(events[..n]).accepted == Run(events[..i]).accepted
  {
    RunOneMore(events, i);
    QuietThroughout(events, i + 1, n);
  }

  // ---------------------------------------------------------------------------------------------
  // What is kept for resending.

  /** Events that may take payloads out of the queue: an acknowledgement in any frame that carries one, an
      ERROR, and a new beginning. */
  predicate MayRetire(e: Endpoint, event: Event) {
    || StartsOver(e, event)
    || (event.Arrive? && (event.frame.Error? || event.frame.Data? || event.frame.Ack? || event.frame.Nak?))
  }

  /** The later queue holds the earlier one's numbers and payloads, in place, before any others. */
  predicate Keeps(before: seq<InFlight>, after: seq<InFlight>) {
    && |before| <= |after|
    && forall i :: 0 <= i < |before| ==>
         after[i].frameNum == before[i].frameNum && after[i].payload == before[i].payload
  }

  lemma StepKeepsQueue(h: History, event: Event)
    requires !MayRetire(h.end, event)
    ensures Keeps(h.end.inFlight, Step(h, event).end.inFlight)
  {
  }

  lemma KeepsOn(a: seq<InFlight>, b: seq<InFlight>, c: seq<InFlight>)
    requires Keeps(a, b) && Keeps(b, c)
    ensures Keeps(a, c)
  {
  }

  /** Nothing is forgotten: until such an event, whatever else happens, every payload in the queue stays in
      its place. */
  lemma {:induction false} NothingForgotten(events: seq<Event>, m: nat, n: nat)
    requires m <= n <= |events|
    requires forall j :: m <= j < n ==> !MayRetire(Before(events, j), events[j])
    ensures Keeps(Before(events, m).inFlight, Before(events, n).inFlight)
    decreases n
  {
    if m < n {
      NothingForgotten(events, m, n - 1);
      RunOneMore(events, n - 1);
      StepKeepsQueue(Run(events[..n - 1]), events[n - 1]);
      KeepsOn(Before(events, m).inFlight, Before(events, n - 1).inFlight, Before(events, n).inFlight);
    }
  }

  // ---------------------------------------------------------------------------------------------
  // Answers.

  /** Every data frame is answered with an ACK of the number expected afterwards, delivered or not; a NAK
      with the head it leaves, marked as a resend, unless that has had three sends; nothing else is
      answered at all. Only the frame expected delivers its payload. */
  lemma AnswersExactly(e: Endpoint, frame: AshFrame)
    ensures var (e', payload, outbound) := OnFrame(e, frame);
            && payload == (if frame.Data? && frame.frameNum == e.nextRxFrame then Some(frame.payload) else None)
            && (frame.Data? || frame.Ack? ==> e'.inFlight == Retire(e, frame.ackNum).inFlight)
            && match frame
               case Data(_, _, _, _) => outbound == Send(Ack(e'.nextRxFrame, false))
               case Nak(ackNum, _) =>
                 var left := Retire(e, ackNum).inFlight;
                 outbound == if left == [] || left[0].sends >= 3 then Nothing
                             else Send(Data(left[0].frameNum, e.nextRxFrame, true, left[0].payload))
               case _ => outbound == Nothing
  {
  }

  /** A payload is accepted if and only if the link is up and fewer than seven wait; it goes out as the
      next number, with the number expected, and not as a resend. */
  lemma AcceptedExactly(e: Endpoint, payload: Bytes)
    ensures var (e', r) := SendData(e, payload, MAX_WINDOW);
            r == if !e.state.Connected? then Err(NotConnected)
                 else if |e.inFlight| >= 7 then Err(WindowFull(|e.inFlight|, 7))
                 else Ok(Data(e.nextTxFrame, e.nextRxFrame, false, payload))
  {
  }
}
