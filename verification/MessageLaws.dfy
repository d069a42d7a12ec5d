/** The message commands as the runtime sends them. */
module MessageLaws {
  import opened Basics
  import opened EzspCodec
  import opened EzspFrames
  import opened Aps
  import opened Runtimes
  import opened Commands
  import opened CommandLaws

  /** The NCP's acceptance: a status, and for a send the APS sequence number it assigned. */
  datatype Accepted = Accepted(status: bv32, apsSequence: Option<bv8>)

  function TakeAccepted(c: Request, s: Bytes, version: ProtocolVersion): Parsed<Accepted> {
    var (status, s) :- TakeStatus(s, version);
    if c.AddEndpoint? then Ok((Accepted(status, None), s))
    else
      var (apsSequence, s) :- TakeU8(s);
      Ok((Accepted(status, Some(apsSequence)), s))
  }

  function CommandOf(c: Request): CommandSpec<Accepted> {
    CommandSpec(c.Id(), version => Body(c, version), (s, version) => TakeAccepted(c, s, version),
                (version: ProtocolVersion) => version.IsSupported())
  }

  /** These requests are refused for their version exactly when it is not one of 13 to 19. */
  lemma UnsupportedExactly(n: Runtime, c: Request)
    ensures Issue(n, CommandOf(c)).1 == Err(UnsupportedCommand(c.Id(), n.version)) <==> !(13 <= n.version.raw <= 19)
  {
    if n.version.IsSupported() {
      var (m, sequence) := Started(n, CommandOf(c));
      if sequence.Ok? {
        SubmittedIsNotRefused(m, c, sequence.value);
      }
    }
  }

  lemma SubmittedIsNotRefused(n: Runtime, c: Request, sequence: u8)
    ensures var r := Submitted(n, CommandOf(c), sequence).1; r.Err? ==> !r.error.UnsupportedCommand?
  {
  }

  lemma FrameParsed(sequence: u8, c: Request, version: ProtocolVersion)
    ensures var f := RequestIn(Extended, version, CommandOf(c), sequence);
            f.Ok? ==>
              && c.Encodes()
              && Parse(f.value, Extended)
                 == Ok(EzspFrame(sequence, FromLowByte(0x00), c.Id(), PutRequest(c, version, [])))
  {
    if c.Encodes() {
      RequestParsesBack(sequence, c.Id(), Extended, PutRequest(c, version, []));
    }
  }

  lemma FramesAlike(i: u8, j: u8, a: Request, b: Request, version: ProtocolVersion)
    requires i == j && a.Id() == b.Id() && Body(a, version) == Body(b, version)
    ensures RequestIn(Extended, version, CommandOf(a), i) == RequestIn(Extended, version, CommandOf(b), j)
  {
  }

  /** Over whole frames: two requests that can be framed have the same bytes exactly when they have
      the same sequence number, the same kind and the same fields. */
  lemma FramesAreUnambiguous(i: u8, j: u8, a: Request, b: Request, version: ProtocolVersion)
    ensures var f, g := RequestIn(Extended, version, CommandOf(a), i), RequestIn(Extended, version, CommandOf(b), j);
            f.Ok? && g.Ok? ==>
              (f == g <==> i == j && a.Id() == b.Id() && Canonical(a, version) == Canonical(b, version))
  {
    var f, g := RequestIn(Extended, version, CommandOf(a), i), RequestIn(Extended, version, CommandOf(b), j);
    FrameParsed(i, a, version);
    FrameParsed(j, b, version);
    if f.Ok? && g.Ok? && i == j && a.Id() == b.Id() {
      BodiesAreUnambiguous(a, b, version, [], []);
      if Body(a, version) == Body(b, version) {
        FramesAlike(i, j, a, b, version);
      }
    }
  }

  /** The longest message an ASH data frame has room for. */
  function LongestMessage(c: Request, version: ProtocolVersion): nat
    requires !c.AddEndpoint?
  {
    (if c.SendMulticast? then 109 else 108) + (if version.raw <= 13 then 1 else 0)
  }

  lemma FrameLength(c: Request, n: Runtime)
    requires !c.AddEndpoint? && c.Encodes()
    ensures |PutRequest(c, n.version, [])| + 5 == |c.message| + 130 - LongestMessage(c, n.version)
  {
    ApsThen(c.apsFrame, []);
    ApsBytes(c.apsFrame, []);
  }

  /** On an open link with room in its window, a send can go out exactly when its message has at
      most 108 bytes (109 below version 14; one more for a multicast), though EZSP frames could
      carry almost ninety more. */
  lemma SendableExactly(n: Runtime, c: Request)
    requires !c.AddEndpoint? && n.ash.state.Connected? && |n.ash.inFlight| <= 6
    ensures Sendable(n, CommandOf(c)) <==> |c.message| <= LongestMessage(c, n.version)
  {
    if c.Encodes() {
      FrameLength(c, n);
    }
  }
}
