/** What one connection keeps whatever frames arrive: the shape of its queue, and how often each
    payload is put on the line. */
module AshConnectionRuns {
  import opened Basics
  import opened AshFrames
  import opened AshConnections

  datatype Event =
    | Reset                         // `begin_reset`
    | Submit(payload: Bytes)        // `send_data`
    | Arrive(frame: AshFrame)       // `on_frame`
    | Garbled(error: AshError)      // `on_decode_failure`
    | Expire                        // `retransmit_oldest`, on a timeout

  /** One data frame put on the line: the index of its payload among those accepted, the payload. */
  datatype Transmission = Transmission(id: nat, payload: Bytes)

  /** The endpoint with two logs: payloads accepted and data frames transmitted. */
  datatype History = History(end: Endpoint, accepted: seq<Bytes>, log: seq<Transmission>)
  {
    function Base(): int { |accepted| - |end.inFlight| }
  }

  /** Logs `outbound` if it is a data frame; only the head of the queue is ever resent. */
  function Note(h: History, end: Endpoint, outbound: Outbound): History {
    var h := h.(end := end);
    if outbound.Send? && outbound.frame.Data? && h.Base() >= 0
    then h.(log := h.log + [Transmission(h.Base(), outbound.frame.payload)])
    else h
  }

  function Step(h: History, event: Event): History {
    match event
    case Reset => h.(end := BeginReset(h.end).0)
    case Submit(payload) =>
      var (end, r) := SendData(h.end, payload, MAX_WINDOW);
      (match r
       case Ok(frame) => History(end, h.accepted + [payload], h.log + [Transmission(|h.accepted|, frame.payload)])
       case Err(_) => h.(end := end))
    case Arrive(frame) =>
      var (end, _, outbound) := OnFrame(h.end, frame);
      Note(h, end, outbound)
    case Garbled(error) => h.(end := OnDecodeFailure(h.end, error).0)
    case Expire =>
      var (end, outbound) := RetransmitOldest(h.end);
      Note(h, end, outbound)
  }

  function Run(events: seq<Event>): History {
    if events == [] then History(FRESH, [], [])
    else Step(Run(events[..|events| - 1]), events[|events| - 1])
  }

  function Transmissions(log: seq<Transmission>, id: nat): nat {
    if log == [] then 0
    else Transmissions(log[..|log| - 1], id) + if log[|log| - 1].id == id then 1 else 0
  }

  /** Entry `i` is numbered one below its successor, mod 8; the last one below the number to send
      next. */
  predicate Linked(queue: seq<InFlight>, next: u8, i: nat)
    requires i < |queue|
  {
    && queue[i].frameNum < 8
    && NextSequence(queue[i].frameNum) == if i == |queue| - 1 then next else queue[i + 1].frameNum
  }

  predicate Consecutive(queue: seq<InFlight>, next: u8) {
    forall i :: 0 <= i < |queue| ==> Linked(queue, next, i)
  }

  /** One to three sends each, and only the head sent more than once. */
  predicate SendsBounded(queue: seq<InFlight>) {
    forall i :: 0 <= i < |queue| ==> 1 <= queue[i].sends <= if i == 0 then 3 else 1
  }

  predicate QueueShaped(e: Endpoint) {
    && e.nextTxFrame < 8 && e.nextRxFrame < 8
    && (e.state.Resetting? ==> 1 <= e.state.attempts <= 5)
    && |e.inFlight| <= 7
    && Consecutive(e.inFlight, e.nextTxFrame)
    && SendsBounded(e.inFlight)
  }

  predicate PayloadsMatch(h: History) {
    && h.Base() >= 0
    && (forall id :: h.Base() <= id < |h.accepted| ==>
          h.end.inFlight[id - h.Base()].payload == h.accepted[id])
    && (forall k :: 0 <= k < |h.log| ==>
          h.log[k].id < |h.accepted| && h.log[k].payload == h.accepted[h.log[k].id])
  }

  ghost predicate CountsMatch(h: History)
    requires h.Base() >= 0
  {
    forall id: nat ::
      if id < h.Base() then Transmissions(h.log, id) <= 3
      else if id < |h.accepted| then Transmissions(h.log, id) == h.end.inFlight[id - h.Base()].sends
      else Transmissions(h.log, id) == 0
  }

  /** Resends still allowed to the entries in flight. */
  function Slack(queue: seq<InFlight>): int {
    if |queue| == 0 then 0 else 2 * |queue| + 1 - queue[0].sends
  }

  ghost predicate Invariant(h: History) {
    && QueueShaped(h.end)
    && PayloadsMatch(h)
    && CountsMatch(h)
    && |h.log| + Slack(h.end.inFlight) <= 3 * |h.accepted|
  }

  lemma RetireKeepsShape(e: Endpoint, ackNum: u8)
    requires QueueShaped(e)
    ensures QueueShaped(Retire(e, ackNum))
    ensures Slack(Retire(e, ackNum).inFlight) <= Slack(e.inFlight)
  {
    var cut := Position(e.inFlight, ackNum);
    forall i | 0 <= i < |e.inFlight| - cut
      ensures Linked(e.inFlight[cut..], e.nextTxFrame, i)
    {
      assert Linked(e.inFlight, e.nextTxFrame, cut + i);
    }
  }

  lemma RetireKeepsCounts(h: History, ackNum: u8)
    requires PayloadsMatch(h) && CountsMatch(h) && SendsBounded(h.end.inFlight)
    ensures var h' := h.(end := Retire(h.end, ackNum)); PayloadsMatch(h') && CountsMatch(h')
  {
  }

  lemma RetireKeeps(h: History, ackNum: u8)
    requires Invariant(h)
    ensures Invariant(h.(end := Retire(h.end, ackNum)))
  {
    RetireKeepsShape(h.end, ackNum);
    RetireKeepsCounts(h, ackNum);
  }

  lemma ClearKeeps(h: History, end: Endpoint)
    requires Invariant(h) && QueueShaped(end) && end.inFlight == []
    ensures Invariant(h.(end := end))
  {
  }

  /** Changing anything but the queue and the number to send next. */
  lemma TouchKeeps(h: History, end: Endpoint)
    requires Invariant(h)
    requires end.inFlight == h.end.inFlight && end.nextTxFrame == h.end.nextTxFrame
    requires end.nextRxFrame < 8
    requires end.state.Resetting? ==> end.state == h.end.state
    ensures Invariant(h.(end := end))
  {
  }

  lemma ResendKeepsShape(e: Endpoint)
    requires QueueShaped(e)
    ensures QueueShaped(RetransmitOldest(e).0)
  {
    var queue, queue' := e.inFlight, RetransmitOldest(e).0.inFlight;
    forall i | 0 <= i < |queue'|
      ensures Linked(queue', e.nextTxFrame, i)
    {
      assert Linked(queue, e.nextTxFrame, i);
    }
  }

  lemma ExpireKeeps(h: History)
    requires Invariant(h)
    ensures Invariant(Step(h, Expire))
  {
    ResendKeepsShape(h.end);
    if |h.end.inFlight| != 0 && h.end.inFlight[0].sends < 3 {
      var h' := Step(h, Expire);
      assert h.end.inFlight[0].payload == h.accepted[h.Base()];
      assert h'.log == h.log + [Transmission(h.Base(), h.end.inFlight[0].payload)];
      assert h'.log[..|h'.log| - 1] == h.log;
      assert Slack(h'.end.inFlight) == Slack(h.end.inFlight) - 1;
      assert CountsMatch(h');
    }
  }

  lemma SubmitKeepsShape(e: Endpoint, payload: Bytes)
    requires QueueShaped(e)
    ensures QueueShaped(SendData(e, payload, MAX_WINDOW).0)
  {
    if e.state.Connected? && |e.inFlight| < 7 {
      var queue, queue' := e.inFlight, SendData(e, payload, MAX_WINDOW).0.inFlight;
      forall i | 0 <= i < |queue'|
        ensures Linked(queue', NextSequence(e.nextTxFrame), i)
      {
        assert i < |queue| ==> Linked(queue, e.nextTxFrame, i);
      }
    }
  }

  lemma SubmitKeeps(h: History, payload: Bytes)
    requires Invariant(h)
    ensures Invariant(Step(h, Submit(payload)))
  {
    SubmitKeepsShape(h.end, payload);
    if h.end.state.Connected? && |h.end.inFlight| < 7 {
      var h' := Step(h, Submit(payload));
      assert h'.log[..|h'.log| - 1] == h.log;
      assert Slack(h'.end.inFlight) == Slack(h.end.inFlight) + 2;
      assert CountsMatch(h');
    }
  }

  lemma ArriveKeeps(h: History, frame: AshFrame)
    requires Invariant(h)
    ensures Invariant(Step(h, Arrive(frame)))
  {
    var end := OnFrame(h.end, frame).0;
    if frame.Acknowledges().Some? {
      var h1 := h.(end := Retire(h.end, frame.ackNum));
      RetireKeeps(h, frame.ackNum);
      if frame.Nak? {
        ExpireKeeps(h1);
        assert Step(h, Arrive(frame)) == Step(h1, Expire);
      } else {
        TouchKeeps(h1, end);
      }
    } else if frame.Rst? {
    } else {
      ClearKeeps(h, end);
    }
  }

  lemma StepKeeps(h: History, event: Event)
    requires Invariant(h)
    ensures Invariant(Step(h, event))
  {
    match event
    case Reset =>
      var end := BeginReset(h.end).0;
      if end.state.Resetting? { ClearKeeps(h, end); } else { TouchKeeps(h, end); }
    case Submit(payload) => SubmitKeeps(h, payload);
    case Arrive(frame) => ArriveKeeps(h, frame);
    case Garbled(error) => TouchKeeps(h, OnDecodeFailure(h.end, error).0);
    case Expire => ExpireKeeps(h);
  }

  lemma {:induction false} RunKeepsInvariant(events: seq<Event>)
    ensures Invariant(Run(events))
  {
    if events != [] {
      RunKeepsInvariant(events[..|events| - 1]);
      StepKeeps(Run(events[..|events| - 1]), events[|events| - 1]);
    }
  }

  /** Whatever arrives, no payload is put on the line more than three times, every transmission
      carries the payload of its submission, and resends number at most twice the submissions. */
  lemma ResendsAreBounded(events: seq<Event>)
    ensures var h := Run(events);
            && QueueShaped(h.end)
            && (forall id: nat :: Transmissions(h.log, id) <= 3)
            && (forall k :: 0 <= k < |h.log| ==>
                  h.log[k].id < |h.accepted| && h.log[k].payload == h.accepted[h.log[k].id])
            && |h.log| - |h.accepted| <= 2 * |h.accepted|
  {
    RunKeepsInvariant(events);
  }

  /** `k` timeouts in a row, with nothing received in between. */
  function Expiries(e: Endpoint, k: nat): Endpoint {
    if k == 0 then e else RetransmitOldest(Expiries(e, k - 1)).0
  }

  /** A connected link with an unanswered head fails at exactly the timeout that finds three sends
      made: the third one for a head sent once. */
  lemma {:induction false} UnansweredHeadFails(e: Endpoint, k: nat)
    requires e.state.Connected? && |e.inFlight| > 0 && e.inFlight[0].sends <= 3
    ensures var e' := Expiries(e, k);
            && (e'.state.Failed? <==> k > 3 - e.inFlight[0].sends)
            && |e'.inFlight| == |e.inFlight|
            && e'.inFlight[0].sends as int
               == if e'.state.Failed? then 3 else e.inFlight[0].sends + k
  {
    if k > 0 {
      UnansweredHeadFails(e, k - 1);
    }
  }

  /** Failing does not silence the link: a NAK resends whatever head it leaves, in any state, as
      long as that head has been sent fewer than three times. */
  lemma NakResendsWhateverTheState(e: Endpoint, ackNum: u8, notReady: bool)
    ensures var left := Retire(e, ackNum).inFlight;
            OnFrame(e, Nak(ackNum, notReady)).2.Send? <==> left != [] && left[0].sends < 3
  {
  }

  lemma RunLast(events: seq<Event>, event: Event)
    ensures Run(events + [event]) == Step(Run(events), event)
  {
    assert (events + [event])[..|events|] == events;
  }

  /** The endpoint of a link that carries two frames, the head sent `sends` times. */
  function TwoInFlight(state: ConnectionState, sends: u8, first: Bytes, second: Bytes): Endpoint {
    Endpoint(state, 2, 0, [InFlight(0, first, sends), InFlight(1, second, 1)], false, false)
  }

  lemma TwoSubmitted(events: seq<Event>, first: Bytes, second: Bytes)
    requires Run(events).end == ESTABLISHED
    ensures Run(events + [Submit(first)] + [Submit(second)]).end == TwoInFlight(Connected, 1, first, second)
  {
    RunLast(events, Submit(first));
    RunLast(events + [Submit(first)], Submit(second));
    assert [InFlight(0, first, 1)] + [InFlight(1, second, 1)] == [InFlight(0, first, 1), InFlight(1, second, 1)];
  }

  lemma HeadExpires(events: seq<Event>, sends: u8, first: Bytes, second: Bytes)
    requires Run(events).end == TwoInFlight(Connected, sends, first, second) && 0 < sends <= 3
    ensures Run(events + [Expire]).end
            == if sends == 3 then TwoInFlight(Failed, sends, first, second)
               else TwoInFlight(Connected, sends + 1, first, second)
  {
    RunLast(events, Expire);
  }

  /** The events of a link that comes up, takes two payloads and gets no answer to the first. */
  function Unanswered(first: Bytes, second: Bytes): seq<Event> {
    [] + [Arrive(RstAck(2, 0x0b))] + [Submit(first)] + [Submit(second)] + [Expire] + [Expire] + [Expire]
  }

  /** A reachable failed link that still resends: the head fails it, an acknowledgement retires the
      head, and the next frame goes out again. */
  lemma FailedLinkCanResend(first: Bytes, second: Bytes)
    ensures var e := Run(Unanswered(first, second)).end;
            e.state.Failed? && OnFrame(e, Nak(1, false)).2 == Send(Data(1, 0, true, second))
  {
    var up := [] + [Arrive(RstAck(2, 0x0b))];
    RunLast([], Arrive(RstAck(2, 0x0b)));
    TwoSubmitted(up, first, second);
    var e3 := up + [Submit(first)] + [Submit(second)];
    HeadExpires(e3, 1, first, second);
    HeadExpires(e3 + [Expire], 2, first, second);
    HeadExpires(e3 + [Expire] + [Expire], 3, first, second);
    var e := TwoInFlight(Failed, 3, first, second);
    assert Position(e.inFlight, 1) == 1;
    assert Retire(e, 1).inFlight == [InFlight(1, second, 1)];
  }
}
