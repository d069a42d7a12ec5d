/** Which received frame answers the outstanding command. */
module Correlators {
  import opened Basics
  import opened EzspCodec
  import opened EzspFrames

  datatype Pending = Pending(sequence: u8, frameId: FrameId)

  datatype Classified =
    | Answer(parameters: Bytes)
    | Async(frameId: FrameId, parameters: Bytes)
    | Stale(frameId: FrameId, sequence: u8)

  const U64_MAX := 0xffff_ffff_ffff_ffff

  datatype Correlation = Correlation(pending: Option<Pending>, nextSequence: u8, staleFrames: nat)

  const IDLE := Correlation(None, 0, 0)

  function Begun(c: Correlation, id: FrameId): (Correlation, Result<u8, EzspError>) {
    match c.pending
    case Some(pending) => (c, Err(SequenceMismatch(pending.sequence)))
    case None =>
      (c.(pending := Some(Pending(c.nextSequence, id)), nextSequence := Wrapping(c.nextSequence)),
       Ok(c.nextSequence))
  }

  function Counted(c: Correlation): Correlation {
    c.(staleFrames := if c.staleFrames >= U64_MAX then c.staleFrames else c.staleFrames + 1)
  }

  function Classify(c: Correlation, frame: EzspFrame): (Correlation, Classified) {
    if frame.control.isCallback then
      (c, Async(frame.frameId, frame.parameters))
    else if frame.control.direction != Response then
      (Counted(c), Stale(frame.frameId, frame.sequence))
    else if c.pending == Some(Pending(frame.sequence, frame.frameId)) then
      (c.(pending := None), Answer(frame.parameters))
    else
      (Counted(c), Stale(frame.frameId, frame.sequence))
  }

  function TimedOut(c: Correlation): (Correlation, Result<(), EzspError>) {
    (c.(pending := None),
     match c.pending
     case Some(pending) => Err(Timeout(pending.frameId))
     case None => Ok(()))
  }

  function Abandoned(c: Correlation): (Correlation, Result<(), EzspError>) {
    (c.(pending := None, nextSequence := 0),
     match c.pending
     case Some(pending) => Err(NcpReset(pending.frameId))
     case None => Ok(()))
  }

  class Correlator {
    var pending: Option<Pending>
    var nextSequence: u8
    var staleFrames: nat

    ghost function View(): Correlation
      reads this
    {
      Correlation(pending, nextSequence, staleFrames)
    }

    constructor ()
      ensures View() == IDLE
    {
      pending, nextSequence, staleFrames := None, 0, 0;
    }

    /** Overwriting with a new correlator. */
    method Renew()
      modifies this
      ensures View() == IDLE
    {
      pending, nextSequence, staleFrames := None, 0, 0;
    }

    method Begin(id: FrameId) returns (r: Result<u8, EzspError>)
      modifies this
      ensures (View(), r) == Begun(old(View()), id)
    {
      if pending.Some? {
        return Err(SequenceMismatch(pending.value.sequence));
      }
      var sequence := nextSequence;
      nextSequence := Wrapping(nextSequence);
      pending := Some(Pending(sequence, id));
      r := Ok(sequence);
    }

    method CountStale()
      modifies this`staleFrames
      ensures View() == Counted(old(View()))
    {
      if staleFrames < U64_MAX {
        staleFrames := staleFrames + 1;
      }
    }

    method Receive(frame: EzspFrame) returns (r: Classified)
      modifies this
      ensures (View(), r) == Classify(old(View()), frame)
    {
      if frame.control.isCallback {
        return Async(frame.frameId, frame.parameters);
      }
      if frame.control.direction != Response {
        CountStale();
        return Stale(frame.frameId, frame.sequence);
      }
      if pending.Some? && pending.value.sequence == frame.sequence && pending.value.frameId == frame.frameId {
        pending := None;
        r := Answer(frame.parameters);
      } else {
        CountStale();
        r := Stale(frame.frameId, frame.sequence);
      }
    }

    method Expire() returns (r: Result<(), EzspError>)
      modifies this
      ensures (View(), r) == TimedOut(old(View()))
    {
      r := if pending.Some? then Err(Timeout(pending.value.frameId)) else Ok(());
      pending := None;
    }

    method Abandon() returns (r: Result<(), EzspError>)
      modifies this
      ensures (View(), r) == Abandoned(old(View()))
    {
      nextSequence := 0;
      r := if pending.Some? then Err(NcpReset(pending.value.frameId)) else Ok(());
      pending := None;
    }
  }

  // ---------------------------------------------------------------------------------------------
  // Correlation against an unbounded command index, between two resets.

  datatype Event =
    | Begin(id: FrameId)
    | Expire
    | Noise(frame: EzspFrame)                       // a callback, or a frame that is no response
    | Reply(command: nat, low: bv8, parameters: Bytes)  // the NCP's response to one of our commands

  /** `issued[k]` is the id of command `k`; `accepted` pairs each frame classified as an answer,
      named by the command it was produced for, with the command it was taken to answer. */
  datatype History = History(c: Correlation, issued: seq<FrameId>, accepted: seq<(nat, nat)>)

  /** The response an NCP gives to command `k`: it echoes the sequence byte and the id. */
  function ResponseTo(issued: seq<FrameId>, k: nat, low: bv8, parameters: Bytes): EzspFrame
    requires k < |issued|
  {
    EzspFrame(k % 256, FromLowByte(low).(direction := Response, isCallback := false), issued[k], parameters)
  }

  predicate IsNoise(frame: EzspFrame) {
    frame.control.isCallback || frame.control.direction != Response
  }

  function Step(h: History, event: Event): History {
    match event
    case Begin(id) =>
      var (c, r) := Begun(h.c, id);
      h.(c := c, issued := if r.Ok? then h.issued + [id] else h.issued)
    case Expire => h.(c := TimedOut(h.c).0)
    case Noise(frame) => if IsNoise(frame) then h.(c := Classify(h.c, frame).0) else h
    case Reply(k, low, parameters) =>
      if k >= |h.issued| then h
      else
        var (c, r) := Classify(h.c, ResponseTo(h.issued, k, low, parameters));
        h.(c := c, accepted := if r.Answer? then h.accepted + [(k, |h.issued| - 1)] else h.accepted)
  }

  function Run(events: seq<Event>): History {
    if events == [] then History(IDLE, [], [])
    else Step(Run(events[..|events| - 1]), events[|events| - 1])
  }

  /** The sequence byte is the command index mod 256, and only the last command can be pending. */
  predicate Indexed(h: History) {
    && h.c.nextSequence == |h.issued| % 256
    && (h.c.pending.Some? ==>
          && |h.issued| > 0
          && h.c.pending.value == Pending((|h.issued| - 1) % 256, h.issued[|h.issued| - 1]))
  }

  lemma ReplyIndexed(h: History, event: Event)
    requires Indexed(h) && event.Reply?
    ensures Indexed(Step(h, event))
  {
  }

  lemma StepIndexed(h: History, event: Event)
    requires Indexed(h)
    ensures Indexed(Step(h, event))
  {
    match event
    case Begin(_) => WrappingIsMod(|h.issued|);
    case Expire =>
    case Noise(_) =>
    case Reply(_, _, _) => ReplyIndexed(h, event);
  }

  lemma {:induction false} RunIndexed(events: seq<Event>)
    ensures Indexed(Run(events))
  {
    if events != [] {
      RunIndexed(events[..|events| - 1]);
      StepIndexed(Run(events[..|events| - 1]), events[|events| - 1]);
    }
  }

  lemma SameByte(k: nat, p: nat)
    requires k <= p
    ensures k % 256 == p % 256 <==> (p - k) % 256 == 0
  {
  }

  lemma IndexedAnswer(h: History, k: nat, low: bv8, parameters: Bytes)
    requires Indexed(h) && k < |h.issued|
    ensures var pending := |h.issued| - 1;
            Classify(h.c, ResponseTo(h.issued, k, low, parameters)).1.Answer?
            <==> h.c.pending.Some? && h.issued[k] == h.issued[pending] && (pending - k) % 256 == 0
  {
    SameByte(k, |h.issued| - 1);
  }

  /** After any run, the response to command `k` is taken as the answer exactly when a command is
      pending, has the same id, and is a multiple of 256 commands younger. */
  lemma AnswerExactly(events: seq<Event>, k: nat, low: bv8, parameters: Bytes)
    requires k < |Run(events).issued|
    ensures var h := Run(events);
            var pending := |h.issued| - 1;
            Classify(h.c, ResponseTo(h.issued, k, low, parameters)).1.Answer?
            <==> h.c.pending.Some? && h.issued[k] == h.issued[pending] && (pending - k) % 256 == 0
  {
    RunIndexed(events);
    IndexedAnswer(Run(events), k, low, parameters);
  }

  /** Frames of the run that were neither callbacks nor taken as an answer. */
  function Strays(events: seq<Event>): nat {
    if events == [] then 0
    else
      var before, last := Run(events[..|events| - 1]), events[|events| - 1];
      Strays(events[..|events| - 1])
      + match last
        case Noise(frame) => if IsNoise(frame) && !frame.control.isCallback then 1 else 0
        case Reply(k, _, _) => if k < |before.issued| && !TakenAsAnswer(before, k) then 1 else 0
        case _ => 0
  }

  /** The response to command `k` would be taken as the answer. */
  predicate TakenAsAnswer(h: History, k: nat)
    requires k < |h.issued|
  {
    var pending := |h.issued| - 1;
    h.c.pending.Some? && h.issued[k] == h.issued[pending] && (pending - k) % 256 == 0
  }

  /** The counter of stale frames counts exactly those, up to the largest 64-bit number. */
  lemma {:induction false} StraysAreCounted(events: seq<Event>)
    ensures Run(events).c.staleFrames
            == if Strays(events) <= 0xffff_ffff_ffff_ffff then Strays(events) else 0xffff_ffff_ffff_ffff
  {
    if events != [] {
      var before, last := events[..|events| - 1], events[|events| - 1];
      StraysAreCounted(before);
      RunIndexed(before);
      if last.Reply? && last.command < |Run(before).issued| {
        IndexedAnswer(Run(before), last.command, last.low, last.parameters);
      }
    }
  }

  /** A command has been begun, and neither given up nor answered since. */
  predicate Busy(events: seq<Event>) {
    && events != []
    && var before, last := events[..|events| - 1], events[|events| - 1];
       match last
       case Begin(_) => true
       case Expire => false
       case Noise(_) => Busy(before)
       case Reply(k, _, _) => Busy(before) && (k < |Run(before).issued| ==> !TakenAsAnswer(Run(before), k))
  }

  /** A command is pending exactly while it is neither given up nor answered, and a further one is begun
      only when none is. */
  lemma {:induction false} PendingExactly(events: seq<Event>, id: FrameId)
    ensures Run(events).c.pending.Some? <==> Busy(events)
    ensures Step(Run(events), Begin(id)).issued == Run(events).issued + if Busy(events) then [] else [id]
  {
    if events != [] {
      var before, last := events[..|events| - 1], events[|events| - 1];
      PendingExactly(before, id);
      RunIndexed(before);
      if last.Reply? && last.command < |Run(before).issued| {
        IndexedAnswer(Run(before), last.command, last.low, last.parameters);
      }
    }
  }

  /** No response in the run arrives 256 or more commands late. */
  predicate Timely(events: seq<Event>) {
    events == [] ||
    var before, last := events[..|events| - 1], events[|events| - 1];
    Timely(before) && (last.Reply? ==> |Run(before).issued| <= last.command + 256)
  }

  /** Every accepted frame was produced for the command it answered, no command was answered
      twice, and the pending one has not been answered. */
  predicate OwnAnswers(h: History) {
    && (forall i :: 0 <= i < |h.accepted| ==> h.accepted[i].0 == h.accepted[i].1 < |h.issued|)
    && (forall i, j :: 0 <= i < j < |h.accepted| ==> h.accepted[i].0 < h.accepted[j].0)
    && (h.c.pending.Some? ==>
          forall i :: 0 <= i < |h.accepted| ==> h.accepted[i].0 < |h.issued| - 1)
  }

  lemma ReplyKeepsOwnAnswers(h: History, event: Event)
    requires Indexed(h) && OwnAnswers(h)
    requires event.Reply? && |h.issued| <= event.command + 256
    ensures OwnAnswers(Step(h, event))
  {
    if event.command < |h.issued| {
      IndexedAnswer(h, event.command, event.low, event.parameters);
      var h' := Step(h, event);
      if h'.accepted != h.accepted {
        assert h'.accepted == h.accepted + [(event.command, |h.issued| - 1)];
        assert event.command == |h.issued| - 1;
      }
    }
  }

  /** In a timely run, despite timeouts and the one-byte wrap, answers are never misattributed. */
  lemma {:induction false} AnswersAreOwn(events: seq<Event>)
    requires Timely(events)
    ensures OwnAnswers(Run(events))
  {
    if events != [] {
      var before, last := events[..|events| - 1], events[|events| - 1];
      AnswersAreOwn(before);
      RunIndexed(before);
      if last.Reply? {
        ReplyKeepsOwnAnswers(Run(before), last);
      }
    }
  }

  /** `n` commands with one id, each given up on. */
  function Abandonments(id: FrameId, n: nat): seq<Event> {
    if n == 0 then [] else Abandonments(id, n - 1) + [Begin(id)] + [Expire]
  }

  lemma RunLast(events: seq<Event>, event: Event)
    ensures Run(events + [event]) == Step(Run(events), event)
  {
    assert (events + [event])[..|events|] == events;
  }

  /** After `n` commands with one id, all given up on. */
  predicate GivenUp(h: History, id: FrameId, n: nat) {
    && h.c == Correlation(None, n % 256, 0) && h.accepted == []
    && |h.issued| == n && forall i :: 0 <= i < n ==> h.issued[i] == id
  }

  lemma GiveUpOnce(h: History, id: FrameId, n: nat)
    requires GivenUp(h, id, n)
    ensures GivenUp(Step(Step(h, Begin(id)), Expire), id, n + 1)
  {
    WrappingIsMod(n);
  }

  lemma {:induction false} AfterAbandonments(id: FrameId, n: nat)
    ensures GivenUp(Run(Abandonments(id, n)), id, n)
  {
    if n > 0 {
      var before := Abandonments(id, n - 1);
      AfterAbandonments(id, n - 1);
      RunLast(before, Begin(id));
      RunLast(before + [Begin(id)], Expire);
      GiveUpOnce(Run(before), id, n - 1);
    }
  }

  /** The bound is tight: a response exactly 256 commands late answers the wrong command. */
  lemma LateAnswerIsMisattributed(id: FrameId, low: bv8, parameters: Bytes)
    ensures Run(Abandonments(id, 256) + [Begin(id)] + [Reply(0, low, parameters)]).accepted == [(0, 256)]
  {
    var events := Abandonments(id, 256) + [Begin(id)];
    AfterAbandonments(id, 256);
    RunLast(Abandonments(id, 256), Begin(id));
    RunLast(events, Reply(0, low, parameters));
    AnswerExactly(events, 0, low, parameters);
  }
}
