/** One end of an ASH connection: reset handshake, send window, acknowledgement and resends.

    `Endpoint` is the state as a value, with one function per operation; `Connection` is the object
    that updates its fields in place, each method proved to do what the function says. */
module AshConnections {
  import opened Basics
  import opened AshFrames

  const MAX_RESET_ATTEMPTS := 5
  const MAX_RETRANSMITS := 3
  const MAX_WINDOW := 7

  datatype ConnectionState = Disconnected | Resetting(attempts: u8) | Connected | Failed

  datatype Outbound = Send(frame: AshFrame) | Nothing

  datatype InFlight = InFlight(frameNum: u8, payload: Bytes, sends: u8)

  datatype Endpoint = Endpoint(
    state: ConnectionState,
    nextTxFrame: u8,
    nextRxFrame: u8,
    inFlight: seq<InFlight>,
    ackPending: bool,
    nakPending: bool)

  const FRESH := Endpoint(Disconnected, 0, 0, [], false, false)
  const ESTABLISHED := Endpoint(Connected, 0, 0, [], false, false)

  /** The index of the oldest entry numbered `ackNum`, or the length of the queue. */
  function Position(queue: seq<InFlight>, ackNum: u8): (cut: nat)
    ensures cut <= |queue|
    ensures cut < |queue| ==> queue[cut].frameNum == ackNum
    ensures forall i :: 0 <= i < cut ==> queue[i].frameNum != ackNum
  {
    if queue == [] || queue[0].frameNum == ackNum then 0 else 1 + Position(queue[1..], ackNum)
  }

  function Retire(e: Endpoint, ackNum: u8): Endpoint {
    e.(inFlight := e.inFlight[Position(e.inFlight, ackNum)..])
  }

  function BeginReset(e: Endpoint): (Endpoint, Outbound) {
    var attempts := if e.state.Resetting? then e.state.attempts else 0;
    if attempts >= MAX_RESET_ATTEMPTS then
      (e.(state := Failed), Nothing)
    else
      (Endpoint(Resetting(attempts + 1), 0, 0, [], false, false), Send(Rst))
  }

  /** Sending with a window of `window` frames; the connection itself uses `MAX_WINDOW`. */
  function SendData(e: Endpoint, payload: Bytes, window: nat): (Endpoint, Result<AshFrame, AshError>) {
    if !e.state.Connected? then
      (e, Err(NotConnected))
    else if |e.inFlight| >= window then
      (e, Err(WindowFull(|e.inFlight|, window)))
    else
      (e.(nextTxFrame := NextSequence(e.nextTxFrame),
          inFlight := e.inFlight + [InFlight(e.nextTxFrame, payload, 1)],
          ackPending := false),
       Ok(Data(e.nextTxFrame, e.nextRxFrame, false, payload)))
  }

  function RetransmitOldest(e: Endpoint): (Endpoint, Outbound) {
    if e.inFlight == [] then
      (e, Nothing)
    else
      var oldest := e.inFlight[0];
      if oldest.sends >= MAX_RETRANSMITS then
        (e.(state := Failed), Nothing)
      else
        (e.(inFlight := e.inFlight[0 := oldest.(sends := oldest.sends + 1)]),
         Send(Data(oldest.frameNum, e.nextRxFrame, true, oldest.payload)))
  }

  function OnFrame(e: Endpoint, frame: AshFrame): (Endpoint, Option<Bytes>, Outbound) {
    match frame
    case RstAck(_, _) => (ESTABLISHED, None, Nothing)
    case Error(_, _) => (e.(state := Failed, inFlight := []), None, Nothing)
    case Ack(ackNum, _) => (Retire(e, ackNum), None, Nothing)
    case Nak(ackNum, _) =>
      var (e', outbound) := RetransmitOldest(Retire(e, ackNum));
      (e', None, outbound)
    case Rst => (e, None, Nothing)
    case Data(frameNum, ackNum, _, payload) =>
      var e := Retire(e, ackNum);
      if frameNum == e.nextRxFrame then
        var next := NextSequence(frameNum);
        (e.(nextRxFrame := next, nakPending := false), Some(payload), Send(Ack(next, false)))
      else
        (e, None, Send(Ack(e.nextRxFrame, false)))
  }

  function OnDecodeFailure(e: Endpoint, error: AshError): (Endpoint, Outbound) {
    if error.IsRecoverableByNak() then
      (e.(nakPending := true), Send(Nak(e.nextRxFrame, false)))
    else
      (e, Nothing)
  }

  class Connection {
    var state: ConnectionState
    var nextTxFrame: u8
    var nextRxFrame: u8
    var inFlight: seq<InFlight>
    var ackPending: bool
    var nakPending: bool

    ghost function View(): Endpoint
      reads this
    {
      Endpoint(state, nextTxFrame, nextRxFrame, inFlight, ackPending, nakPending)
    }

    constructor ()
      ensures View() == FRESH
    {
      state, nextTxFrame, nextRxFrame := Disconnected, 0, 0;
      inFlight, ackPending, nakPending := [], false, false;
    }

    predicate IsConnected()
      reads this
    {
      state.Connected?
    }

    method Begin() returns (outbound: Outbound)
      modifies this
      ensures (View(), outbound) == BeginReset(old(View()))
    {
      var attempts := 0;
      match state {
        case Resetting(n) => attempts := n;
        case _ =>
      }
      if attempts >= MAX_RESET_ATTEMPTS {
        state := Failed;
        return Nothing;
      }
      state := Resetting(attempts + 1);
      nextTxFrame, nextRxFrame, inFlight := 0, 0, [];
      ackPending, nakPending := false, false;
      outbound := Send(Rst);
    }

    method Submit(payload: Bytes) returns (r: Result<AshFrame, AshError>)
      modifies this
      ensures (View(), r) == SendData(old(View()), payload, MAX_WINDOW)
    {
      if !IsConnected() {
        return Err(NotConnected);
      }
      if |inFlight| >= MAX_WINDOW {
        return Err(WindowFull(|inFlight|, MAX_WINDOW));
      }
      var frameNum := nextTxFrame;
      nextTxFrame := NextSequence(frameNum);
      inFlight := inFlight + [InFlight(frameNum, payload, 1)];
      ackPending := false;
      r := Ok(Data(frameNum, nextRxFrame, false, payload));
    }

    method Receive(frame: AshFrame) returns (delivered: Option<Bytes>, outbound: Outbound)
      modifies this
      ensures (View(), delivered, outbound) == OnFrame(old(View()), frame)
    {
      delivered, outbound := None, Nothing;
      match frame {
        case RstAck(_, _) =>
          state, nextTxFrame, nextRxFrame := Connected, 0, 0;
          inFlight, ackPending, nakPending := [], false, false;
        case Error(_, _) =>
          state, inFlight := Failed, [];
        case Ack(ackNum, _) =>
          RetireAcknowledged(ackNum);
        case Nak(ackNum, _) =>
          RetireAcknowledged(ackNum);
          outbound := Resend();
        case Rst =>
        case Data(frameNum, ackNum, _, payload) =>
          RetireAcknowledged(ackNum);
          delivered := Accept(frameNum, payload);
          outbound := Send(Ack(nextRxFrame, false));
      }
    }

    /** Takes the payload if its frame is the one expected. */
    method Accept(frameNum: u8, payload: Bytes) returns (delivered: Option<Bytes>)
      modifies this`nextRxFrame, this`nakPending
      ensures if frameNum == old(nextRxFrame)
              then delivered == Some(payload)
                   && View() == old(View()).(nextRxFrame := NextSequence(frameNum), nakPending := false)
              else delivered == None && View() == old(View())
    {
      delivered := None;
      if frameNum == nextRxFrame {
        nextRxFrame := NextSequence(frameNum);
        nakPending := false;
        delivered := Some(payload);
      }
    }

    method DecodeFailure(error: AshError) returns (outbound: Outbound)
      modifies this
      ensures (View(), outbound) == OnDecodeFailure(old(View()), error)
    {
      if error.IsRecoverableByNak() {
        nakPending := true;
        outbound := Send(Nak(nextRxFrame, false));
      } else {
        outbound := Nothing;
      }
    }

    method Resend() returns (outbound: Outbound)
      modifies this
      ensures (View(), outbound) == RetransmitOldest(old(View()))
    {
      if inFlight == [] {
        return Nothing;
      }
      var oldest := inFlight[0];
      if oldest.sends >= MAX_RETRANSMITS {
        state := Failed;
        return Nothing;
      }
      inFlight := inFlight[0 := oldest.(sends := oldest.sends + 1)];
      outbound := Send(Data(oldest.frameNum, nextRxFrame, true, oldest.payload));
    }

    method RetireAcknowledged(ackNum: u8)
      modifies this
      ensures View() == Retire(old(View()), ackNum)
    {
      var cut := 0;
      while cut < |inFlight| && inFlight[cut].frameNum != ackNum
        invariant 0 <= cut <= |inFlight|
        invariant forall i :: 0 <= i < cut ==> inFlight[i].frameNum != ackNum
        invariant View() == old(View())
      {
        cut := cut + 1;
      }
      inFlight := inFlight[cut..];
    }
  }
}
