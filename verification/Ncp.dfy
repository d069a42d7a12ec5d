/** The runtime as an object: its parts and fields are updated in place, and each method is proved to
    do what the corresponding function of `Runtimes` says. */
module Ncps {
  import opened Basics
  import opened AshFrames
  import opened AshConnections
  import opened AshCodec
  import opened EzspCodec
  import opened EzspFrames
  import opened Runtimes
  import Callbacks
  import Correlators

  class Ncp {
    const ash: Connection
    const decoder: Decoder
    const correlator: Correlators.Correlator
    var version: ProtocolVersion
    var stackVersion: bv16
    var callbacks: seq<Callbacks.Callback>
    var response: Option<Bytes>
    var initialVersionSent: bool
    var pendingFormat: Option<HeaderFormat>
    // The transport: what it has yet to yield and what was written to it.
    var script: seq<Read>
    var written: seq<Bytes>
    ghost var arrived: seq<Bytes>
    ghost var log: seq<Delivery>
    ghost var begun: seq<Begun>
    ghost var restarts: nat
    ghost var sent: seq<Sent>

    ghost function View(): Runtime
      reads this, ash, decoder, correlator
    {
      Runtime(ash.View(), decoder.View(), correlator.View(), version, stackVersion, callbacks, response,
              initialVersionSent, pendingFormat, written, arrived, log, begun, restarts, sent)
    }

    constructor (script: seq<Read>)
      ensures View() == NEW && this.script == script
      ensures fresh(ash) && fresh(decoder) && fresh(correlator)
    {
      ash := new Connection();
      decoder := new Decoder();
      correlator := new Correlators.Correlator();
      version, stackVersion, callbacks, response := PREFERRED, 0, [], None;
      initialVersionSent, pendingFormat := false, None;
      this.script, written, arrived, log, begun, restarts, sent := script, [], [], [], [], 0, [];
    }

    method File(classified: Correlators.Classified)
      modifies this
      ensures View() == Filed(old(View()), classified)
      ensures script == old(script)
    {
      match classified {
        case Answer(parameters) =>
          response := Some(parameters);
          pendingFormat := None;
        case Async(id, parameters) =>
          var decoded := Callbacks.Decode(id, parameters, version);
          if decoded.Ok? {
            callbacks := callbacks + [decoded.value];
          }
        case Stale(_, _) =>
      }
    }

    method Dispatch(payload: Bytes)
      modifies this, correlator
      ensures View() == Runtimes.Dispatch(old(View()), payload)
      ensures script == old(script)
    {
      var format := if pendingFormat.Some? then pendingFormat.value else Extended;
      log := log + [Delivery(payload, format, version, correlator.pending)];
      var parsed := Parse(payload, format);
      if parsed.Ok? {
        var classified := correlator.Receive(parsed.value);
        File(classified);
      }
    }

    method WriteFrame(frame: AshFrame) returns (r: Result<(), EzspError>)
      modifies this`written
      ensures (View(), r) == Runtimes.WriteFrame(old(View()), frame)
    {
      var bytes := Encode(frame);
      if bytes.Err? {
        return Err(AshFailure(bytes.error));
      }
      written := written + [bytes.value];
      r := Ok(());
    }

    method Handle(item: AshCodec.Decoded) returns (r: Result<(), EzspError>)
      modifies this, ash, correlator
      ensures (View(), r) == Runtimes.Handle(old(View()), item)
      ensures script == old(script)
    {
      r := Ok(());
      match item {
        case Frame(frame) =>
          var payload, outbound := ash.Receive(frame);
          arrived := arrived + (if payload.Some? then [payload.value] else []);
          if outbound.Send? {
            r := WriteFrame(outbound.frame);
            if r.Err? {
              return;
            }
          }
          if payload.Some? {
            Dispatch(payload.value);
          }
        case Rejected(error) =>
          var outbound := ash.DecodeFailure(error);
          if outbound.Send? {
            r := WriteFrame(outbound.frame);
          }
      }
    }

    method Consume(bytes: Bytes) returns (r: Result<(), EzspError>)
      modifies this, ash, decoder, correlator
      ensures (View(), r) == Runtimes.Consume(old(View()), bytes)
      ensures script == old(script)
    {
      var items := decoder.Feed(bytes);
      ghost var fed := View();
      for i := 0 to |items|
        invariant HandleAll(View(), items[i..]) == HandleAll(fed, items)
        invariant script == old(script)
      {
        assert items[i..][1..] == items[i + 1..];
        r := Handle(items[i]);
        if r.Err? {
          return;
        }
      }
      r := Ok(());
    }

    predicate Reached(goal: Goal)
      reads this, ash, decoder, correlator
      ensures Reached(goal) == Runtimes.Reached(View(), goal)
    {
      match goal
      case ForConnection => ash.IsConnected()
      case ForResponse => response.Some? || !ash.IsConnected()
      case ForCallback => callbacks != []
    }

    method PumpUntil(goal: Goal) returns (r: Result<(), EzspError>)
      modifies this, ash, decoder, correlator
      ensures (View(), script, r) == Pump(old(View()), old(script), goal)
    {
      while true
        invariant Pump(View(), script, goal) == Pump(old(View()), old(script), goal)
        decreases |script|
      {
        if Reached(goal) || script == [] {
          return Ok(());
        }
        var read := script[0];
        script := script[1..];
        if read.Deadline? {
          return Ok(());
        }
        r := Consume(read.bytes);
        if r.Err? {
          return;
        }
      }
    }

    method BuildRequest<R>(command: CommandSpec<R>, sequence: u8, format: HeaderFormat)
      returns (r: Result<Bytes, EzspError>)
      ensures r == RequestIn(format, version, command, sequence)
    {
      var out := new Writer(version);
      var _ :- WriteHeader(out, sequence, command.id, format);
      assert out.bytes == Header(sequence, command.id, format).value;
      var body :- command.body(version);
      out.bytes := out.bytes + body;
      if |out.bytes| > MAX_FRAME_LENGTH {
        return Err(FrameTooLong(|out.bytes|, MAX_FRAME_LENGTH));
      }
      r := Ok(out.bytes);
    }

    method Transmit(format: HeaderFormat, request: Bytes) returns (r: Result<(), EzspError>)
      modifies this, ash
      ensures (View(), r) == Transmitted(old(View()), format, request)
      ensures script == old(script)
    {
      var data := ash.Submit(request);
      if data.Err? {
        return Err(AshFailure(data.error));
      }
      sent := sent + [Request(format, request)];
      r := WriteFrame(data.value);
    }

    method Issue<R>(command: CommandSpec<R>) returns (r: Result<(), EzspError>)
      modifies this, ash, correlator
      ensures (View(), r) == Runtimes.Issue(old(View()), command)
      ensures script == old(script)
    {
      if !command.available(version) {
        return Err(UnsupportedCommand(command.id, version));
      }
      var format := if command.id == VERSION && !initialVersionSent then Legacy else Extended;
      var number := correlator.Begin(command.id);
      if number.Err? {
        return Err(number.error);
      }
      pendingFormat := Some(format);
      begun := begun + [Begun(format, |log|, Correlators.Pending(number.value, command.id), restarts)];
      var request := BuildRequest(command, number.value, format);
      if request.Err? {
        return Err(request.error);
      }
      if format.Legacy? {
        initialVersionSent := true;
      }
      r := Transmit(format, request.value);
    }

    method Conclude<R>(command: CommandSpec<R>, outcome: Result<(), EzspError>) returns (r: Result<R, EzspError>)
      modifies this, correlator
      ensures (View(), r) == Runtimes.Conclude(old(View()), command, outcome)
      ensures script == old(script)
    {
      if outcome.Ok? && response.Some? {
        var parsed := command.parse(response.value, version);
        response := None;
        if parsed.Err? {
          return Err(parsed.error);
        }
        if |parsed.value.1| != 0 {
          return Err(TrailingBytes(command.id, |parsed.value.1|));
        }
        return Ok(parsed.value.0);
      }
      if !ash.IsConnected() {
        var lost := correlator.Abandon();
        restarts := restarts + 1;
        if lost.Err? {
          return Err(lost.error);
        }
      }
      if outcome.Err? {
        return Err(outcome.error);
      }
      var late := correlator.Expire();
      r := Err(if late.Err? then late.error else EzspError.Timeout(command.id));
    }

    method Perform<R>(command: CommandSpec<R>) returns (r: Result<R, EzspError>)
      modifies this, ash, decoder, correlator
      ensures (View(), script, r) == Runtimes.Perform(old(View()), old(script), command)
    {
      var issued := Issue(command);
      if issued.Err? {
        return Err(issued.error);
      }
      var outcome := PumpUntil(ForResponse);
      r := Conclude(command, outcome);
    }

    method CompleteReset()
      modifies this, correlator
      ensures View() == ResetCompleted(old(View())) && script == old(script)
    {
      correlator.Renew();
      restarts := restarts + 1;
      initialVersionSent := false;
      sent := sent + [ResetDone];
    }

    method AwaitRstAck() returns (handshake: Handshake)
      modifies this, ash, decoder, correlator
      ensures (View(), script, handshake) == RstAwaited(old(View()), old(script))
    {
      var outcome := PumpUntil(ForConnection);
      if outcome.Err? || !ash.IsConnected() {
        return Unanswered;
      }
      CompleteReset();
      handshake := Completed;
    }

    method TryReset() returns (handshake: Handshake)
      modifies this, ash, decoder, correlator
      ensures (View(), script, handshake) == ResetAttempt(old(View()), old(script))
    {
      decoder.Reset();
      var outbound := ash.Begin();
      if outbound.Nothing? {
        return Hopeless(AshFailure(ResetFailed));
      }
      var written := WriteFrame(outbound.frame);
      if written.Err? {
        return Hopeless(written.error);
      }
      handshake := AwaitRstAck();
    }

    method Reset() returns (r: Result<(), EzspError>)
      modifies this, ash, decoder, correlator
      ensures (View(), script, r) == ResetWithin(old(View()), old(script), MAX_RESET_ATTEMPTS)
    {
      for attempt := 0 to MAX_RESET_ATTEMPTS
        invariant ResetWithin(View(), script, MAX_RESET_ATTEMPTS - attempt)
               == ResetWithin(old(View()), old(script), MAX_RESET_ATTEMPTS)
      {
        var handshake := TryReset();
        match handshake {
          case Completed => return Ok(());
          case Hopeless(error) => return Err(error);
          case Unanswered =>
        }
      }
      r := Err(AshFailure(ResetFailed));
    }

    method Negotiate() returns (r: Result<VersionResponse, EzspError>)
      modifies this, ash, decoder, correlator
      ensures (View(), script, r) == Runtimes.Negotiate(old(View()), old(script))
    {
      r := Perform(VersionCommand(PREFERRED));
      if r.Err? {
        return;
      }
      var first := r.value;
      if first.stackType != STACK_TYPE_MESH || !first.protocolVersion.IsSupported() {
        return Err(UnsupportedVersion(first.protocolVersion));
      }
      if first.protocolVersion == PREFERRED {
        return;
      }
      r := Perform(VersionCommand(first.protocolVersion));
      if r.Ok? && r.value.protocolVersion != first.protocolVersion {
        return Err(UnsupportedVersion(r.value.protocolVersion));
      }
    }

    /** After a completed reset: negotiates and adopts the result. */
    method Adopt() returns (r: Result<(), EzspError>)
      modifies this, ash, decoder, correlator
      ensures (View(), script, r) == Adopted(old(View()), old(script))
    {
      var negotiated := Negotiate();
      if negotiated.Err? {
        return Err(negotiated.error);
      }
      version, stackVersion := negotiated.value.protocolVersion, negotiated.value.stackVersion;
      r := Ok(());
    }

    static method Connect(script: seq<Read>) returns (ncp: Ncp, r: Result<(), EzspError>)
      ensures fresh(ncp)
      ensures (ncp.View(), ncp.script, r) == Runtimes.Connect(script)
    {
      ncp := new Ncp(script);
      r := ncp.Reset();
      if r.Ok? {
        r := ncp.Adopt();
      }
    }

    method TakeCallbacks() returns (taken: seq<Callbacks.Callback>)
      modifies this`callbacks
      ensures View() == old(View()).(callbacks := []) && taken == old(callbacks)
    {
      taken := callbacks;
      callbacks := [];
    }

    method Poll() returns (r: Result<seq<Callbacks.Callback>, EzspError>)
      modifies this, ash, decoder, correlator
      ensures (View(), script, r) == Runtimes.Poll(old(View()), old(script))
    {
      var outcome := PumpUntil(ForCallback);
      if outcome.Err? {
        return Err(outcome.error);
      }
      var taken := TakeCallbacks();
      r := Ok(taken);
    }
  }
}
