/** Two connections joined by lines of bytes: frames are encoded, lost or damaged on the way, read in
    pieces cut anywhere, decoded and handled. Codec, CRC and window together keep both directions in
    order. */
module ByteLinks {
  import opened Basics
  import opened AshFrames
  import opened AshConnections
  import opened AshCrc
  import opened AshCodec
  import opened AshStreams
  import L = AshLinks

  // ---------------------------------------------------------------------------------------------
  // The link.

  /** `line` holds the bytes this peer wrote that the other has not read yet. */
  datatype Peer = Peer(end: Endpoint, decoder: Partial, sent: seq<Bytes>, delivered: seq<Bytes>, line: Bytes)

  datatype Link = Link(a: Peer, b: Peer)

  /** What becomes of a frame on the line: it arrives as written, not at all, with other bytes before
      its FLAG (damaged, marked as bad by a SUBSTITUTE, or with flow control among them), or given up
      by a CANCEL instead of a FLAG. */
  datatype Fate =
    | Intact
    | Lost
    | Damaged(segment: Bytes, start: nat)
    | Marked(segment: Bytes)
    | Padded(segment: Bytes)
    | Cancelled(segment: Bytes)

  datatype Action =
    | Submit(payload: Bytes, fate: Fate)        // `send_data`, and the frame written
    | Read(count: nat, fates: seq<Fate>)        // some bytes read; the fates of the replies
    | Resend(fate: Fate)                        // a timeout: `retransmit_oldest`

  datatype Event = Event(byA: bool, action: Action)

  const IDLE := Peer(ESTABLISHED, EMPTY, [], [], [])

  /** The segment carries as many bytes as the frame, other ones, and their bits differ only within
      sixteen consecutive positions. */
  predicate IsDamageTo(frame: AshFrame, segment: Bytes, start: nat) {
    var bytes := Unstuff(Carrying(segment));
    && FLAG !in segment && CANCEL !in segment && SUBSTITUTE !in segment
    && |bytes| == |Unstuffed(frame)| && bytes != Unstuffed(frame)
    && AgreeOutside(Bits(bytes), Bits(Unstuffed(frame)), start)
  }

  /** The segment is the frame's, but for flow control bytes inserted anywhere. */
  predicate IsPaddingOf(frame: AshFrame, segment: Bytes) {
    && FLAG !in segment && CANCEL !in segment && SUBSTITUTE !in segment
    && Carrying(segment) == Stuff(Unstuffed(frame))
  }

  /** The fate is one the line can inflict on this frame. */
  predicate Possible(frame: AshFrame, fate: Fate) {
    match fate
    case Intact => true
    case Lost => true
    case Damaged(segment, start) => IsDamageTo(frame, segment, start)
    case Marked(segment) => FLAG !in segment && CANCEL !in segment && SUBSTITUTE in segment
    case Padded(segment) => IsPaddingOf(frame, segment)
    case Cancelled(segment) => FLAG !in segment
  }

  /** What a frame puts on the line: nothing if it cannot be encoded. */
  function Carried(frame: AshFrame, fate: Fate): Bytes {
    if Encoded(frame).Err? || !Possible(frame, fate) then Line(frame)
    else match fate
      case Intact => Line(frame)
      case Lost => []
      case Damaged(segment, _) => segment + [FLAG]
      case Marked(segment) => segment + [FLAG]
      case Padded(segment) => segment + [FLAG]
      case Cancelled(segment) => segment + [CANCEL]
  }

  predicate Writable(outbound: Outbound) {
    outbound.Send? ==> Encoded(outbound.frame).Ok?
  }

  function Written(me: Peer, outbound: Outbound, fate: Fate): Peer {
    match outbound
    case Send(frame) => me.(line := me.line + Carried(frame, fate))
    case Nothing => me
  }

  /** One decoder output; the reply is written before the payload is delivered. */
  function ItemStep(me: Peer, item: Decoded, fate: Fate): (Peer, bool) {
    match item
    case Frame(frame) =>
      var (end, payload, outbound) := OnFrame(me.end, frame);
      var delivered := if payload.Some? && Writable(outbound) then [payload.value] else [];
      (Written(me.(end := end, delivered := me.delivered + delivered), outbound, fate), Writable(outbound))
    case Rejected(error) =>
      var (end, outbound) := OnDecodeFailure(me.end, error);
      (Written(me.(end := end), outbound, fate), Writable(outbound))
  }

  /** Outputs in order; a reply that cannot be encoded drops the rest. */
  function HandleItems(me: Peer, items: seq<Decoded>, fates: seq<Fate>): Peer
    decreases |items|
  {
    if items == [] then me
    else
      var (me, ok) := ItemStep(me, items[0], if fates == [] then Intact else fates[0]);
      if ok then HandleItems(me, items[1..], if fates == [] then [] else fates[1..]) else me
  }

  function Act(me: Peer, other: Peer, action: Action): (Peer, Peer) {
    match action
    case Submit(payload, fate) =>
      var (end, r) := SendData(me.end, payload, MAX_WINDOW);
      (match r
       case Ok(frame) => Written(me.(end := end, sent := me.sent + [payload]), Send(frame), fate)
       case Err(_) => me.(end := end),
       other)
    case Read(count, fates) =>
      var n := if count <= |other.line| then count else |other.line|;
      var (decoder, items) := Fed(me.decoder, other.line[..n]);
      (HandleItems(me.(decoder := decoder), items, fates), other.(line := other.line[n..]))
    case Resend(fate) =>
      var (end, outbound) := RetransmitOldest(me.end);
      (Written(me.(end := end), outbound, fate), other)
  }

  function Step(link: Link, event: Event): Link {
    if event.byA then
      var (a, b) := Act(link.a, link.b, event.action);
      Link(a, b)
    else
      var (b, a) := Act(link.b, link.a, event.action);
      Link(a, b)
  }

  function Run(events: seq<Event>): Link {
    if events == [] then Link(IDLE, IDLE)
    else Step(Run(events[..|events| - 1]), events[|events| - 1])
  }

  // ---------------------------------------------------------------------------------------------
  // What the bytes of one frame decode to.

  lemma DamageIsRejected(frame: AshFrame, segment: Bytes, start: nat)
    requires Encoded(frame).Ok? && IsDamageTo(frame, segment, start)
    ensures var out := Fed(EMPTY, segment + [FLAG]);
            out.0 == EMPTY && |out.1| == 1 && out.1[0].Rejected? && out.1[0].error.BadCrc?
  {
    var bytes, good := Unstuff(Carrying(segment)), Unstuffed(frame);
    CleanSegment(segment, bytes);
    SegmentOutput(segment);
    GoodFramePasses(frame);
    if CheckPasses(bytes) {
      BurstsAreCaught(bytes, good, start);
      assert false;
    }
  }

  lemma GoodFramePasses(frame: AshFrame)
    ensures |Unstuffed(frame)| >= 3 && CheckPasses(Unstuffed(frame))
  {
    var covered, bytes := Covered(frame), Unstuffed(frame);
    BigEndianRoundTrip(Crc16All(covered));
    assert bytes[..|bytes| - 2] == covered;
  }

  /** The frame arrives as it was written. */
  predicate Survives(frame: AshFrame, fate: Fate) {
    frame.Portable() && (fate.Intact? || fate.Padded? || !Possible(frame, fate))
  }

  function FramesIn(items: seq<Decoded>): seq<AshFrame> {
    if items == [] then []
    else (if items[0].Frame? then [items[0].frame] else []) + FramesIn(items[1..])
  }

  lemma {:induction false} FramesInConcat(a: seq<Decoded>, b: seq<Decoded>)
    ensures FramesIn(a + b) == FramesIn(a) + FramesIn(b)
  {
    if a == [] {
      assert a + b == b;
    } else {
      assert (a + b)[1..] == a[1..] + b;
      FramesInConcat(a[1..], b);
      Associates(if a[0].Frame? then [a[0].frame] else [], FramesIn(a[1..]), FramesIn(b));
    }
  }

  lemma FramesInOne(item: Decoded)
    ensures FramesIn([item]) == if item.Frame? then [item.frame] else []
  {
    assert [item][1..] == [];
  }

  /** From a decoder at rest these bytes leave it at rest and put out these frames. */
  predicate YieldsFrames(bytes: Bytes, frames: seq<AshFrame>) {
    Fed(EMPTY, bytes).0 == EMPTY && FramesIn(Fed(EMPTY, bytes).1) == frames
  }

  lemma LineYields(frame: AshFrame)
    requires frame.Reduced() == frame
    ensures YieldsFrames(Line(frame), if frame.Portable() then [frame] else [])
  {
    if Encoded(frame).Ok? {
      EncodedDecodes(frame);
      FramesInOne(Echo(frame));
    }
  }

  lemma DamageYields(frame: AshFrame, segment: Bytes, start: nat)
    requires Encoded(frame).Ok? && IsDamageTo(frame, segment, start)
    ensures YieldsFrames(segment + [FLAG], [])
  {
    DamageIsRejected(frame, segment, start);
    var out := Fed(EMPTY, segment + [FLAG]).1;
    assert out == [out[0]];
    FramesInOne(out[0]);
  }

  lemma MarkedYields(segment: Bytes)
    requires FLAG !in segment && CANCEL !in segment && SUBSTITUTE in segment
    ensures YieldsFrames(segment + [FLAG], [])
  {
    assert AfterLast(segment, CANCEL) == segment;
    assert Verdict(segment).Some?;
    SegmentOutput(segment);
    FramesInOne(SegmentOutcome(segment).value);
  }

  lemma PaddedYields(frame: AshFrame, segment: Bytes)
    requires frame.Reduced() == frame && Encoded(frame).Ok? && IsPaddingOf(frame, segment)
    ensures YieldsFrames(segment + [FLAG], if frame.Portable() then [frame] else [])
  {
    UnstuffStuffed(Unstuffed(frame));
    CleanSegment(segment, Unstuffed(frame));
    CheckedUnstuffed(frame);
    SegmentOutput(segment);
    FramesInOne(Echo(frame));
  }

  lemma CancelledYields(segment: Bytes)
    requires FLAG !in segment
    ensures YieldsFrames(segment + [CANCEL], [])
  {
    SegmentState(segment + [CANCEL]);
    AfterLastSnoc(segment, CANCEL, CANCEL);
    assert Residue([]) == EMPTY;
  }

  /** From a decoder at rest, the bytes on the line for one frame leave it at rest and put out the frame
      if it survives and no frame otherwise. */
  lemma CarriedDecodes(frame: AshFrame, fate: Fate)
    requires frame.Reduced() == frame
    ensures YieldsFrames(Carried(frame, fate), if Survives(frame, fate) then [frame] else [])
  {
    if Encoded(frame).Err? || !Possible(frame, fate) || fate.Intact? {
      LineYields(frame);
      if frame.Portable() {
        PortableIsEncoded(frame);
      }
    } else {
      match fate
      case Lost =>
      case Damaged(segment, start) => DamageYields(frame, segment, start);
      case Marked(segment) => MarkedYields(segment);
      case Padded(segment) => PaddedYields(frame, segment);
      case Cancelled(segment) => CancelledYields(segment);
    }
  }

  // ---------------------------------------------------------------------------------------------
  // A line of bytes stands for a line of frames.

  /** To a reader in this state, after the outputs `items` still to be handled, the bytes amount to the
      frames of `wire`. */
  predicate Stands(items: seq<Decoded>, decoder: Partial, line: Bytes, wire: seq<AshFrame>) {
    Fed(decoder, line).0 == EMPTY && FramesIn(items + Fed(decoder, line).1) == wire
  }

  lemma StandsAfterWriting(items: seq<Decoded>, decoder: Partial, line: Bytes, wire: seq<AshFrame>, frame: AshFrame,
                           fate: Fate)
    requires Stands(items, decoder, line, wire) && frame.Reduced() == frame
    ensures Stands(items, decoder, line + Carried(frame, fate), wire + (if Survives(frame, fate) then [frame] else []))
  {
    FedConcat(decoder, line, Carried(frame, fate));
    CarriedDecodes(frame, fate);
    var before, added := Fed(decoder, line).1, Fed(EMPTY, Carried(frame, fate)).1;
    Associates(items, before, added);
    FramesInConcat(items + before, added);
  }

  /** The reader takes `n` bytes into its decoder: their outputs are next to be handled. */
  lemma StandsAfterReading(decoder: Partial, line: Bytes, wire: seq<AshFrame>, n: nat)
    requires Stands([], decoder, line, wire) && n <= |line|
    ensures var (decoder', items) := Fed(decoder, line[..n]);
            Stands(items, decoder', line[n..], wire)
  {
    assert line == line[..n] + line[n..];
    FedConcat(decoder, line[..n], line[n..]);
    assert [] + Fed(decoder, line).1 == Fed(decoder, line).1;
  }

  // ---------------------------------------------------------------------------------------------
  // Both links side by side.

  ghost predicate Reachable(me: L.Peer, other: L.Peer) {
    exists events ::
      L.Run(events, MAX_WINDOW) == L.Link(me, other) || L.Run(events, MAX_WINDOW) == L.Link(other, me)
  }

  lemma ActReaches(me: L.Peer, other: L.Peer, action: L.Action)
    requires Reachable(me, other)
    ensures var (me', other') := L.Act(me, other, action, MAX_WINDOW);
            Reachable(me', other') && Reachable(other', me')
  {
    var events :| L.Run(events, MAX_WINDOW) == L.Link(me, other) || L.Run(events, MAX_WINDOW) == L.Link(other, me);
    var byA := L.Run(events, MAX_WINDOW) == L.Link(me, other);
    var longer := events + [L.Event(byA, action)];
    assert longer[..|longer| - 1] == events;
    var (me', other') := L.Act(me, other, action, MAX_WINDOW);
    assert L.Run(longer, MAX_WINDOW) == if byA then L.Link(me', other') else L.Link(other', me');
  }

  lemma PacketIsReduced(p: L.Packet)
    ensures L.ReducePacket(p).Reduced() == L.ReducePacket(p)
  {
  }

  lemma WireIsReduced(wire: seq<L.Packet>)
    ensures var frames := L.ReduceWire(wire); forall i :: 0 <= i < |frames| ==> frames[i].Reduced() == frames[i]
  {
    forall i | 0 <= i < |wire| ensures L.ReduceWire(wire)[i].Reduced() == L.ReduceWire(wire)[i] {
      PacketIsReduced(wire[i]);
    }
  }

  lemma ReachableIsReduced(me: L.Peer, other: L.Peer)
    requires Reachable(me, other)
    ensures forall i :: 0 <= i < |me.wire| ==> me.wire[i].Reduced() == me.wire[i]
    ensures L.InOrder(L.Link(me, other))
  {
    var events :| L.Run(events, MAX_WINDOW) == L.Link(me, other) || L.Run(events, MAX_WINDOW) == L.Link(other, me);
    L.RunRefinesIdeal(events, MAX_WINDOW);
    L.DeliveryInOrder(events);
    var ideal := L.IdealRun(events, MAX_WINDOW);
    WireIsReduced(if L.Run(events, MAX_WINDOW) == L.Link(me, other) then ideal.a.wire else ideal.b.wire);
  }

  predicate Same(b: Peer, f: L.Peer) {
    b.end == f.end && b.sent == f.sent && b.delivered == f.delivered
  }

  /** `me`, with outputs still to be handled, and `other` stand for two peers of the link of frames. */
  predicate StandFor(me: Peer, other: Peer, items: seq<Decoded>, fme: L.Peer, fother: L.Peer) {
    && Same(me, fme) && Same(other, fother)
    && Stands([], other.decoder, me.line, fme.wire)
    && Stands(items, me.decoder, other.line, fother.wire)
  }

  ghost predicate Refines(me: Peer, other: Peer, items: seq<Decoded>) {
    exists fme, fother :: Reachable(fme, fother) && StandFor(me, other, items, fme, fother)
  }

  /** Writing a frame: on the other link it is written too, and lost if it does not survive. */
  lemma WriteRefines(me: Peer, other: Peer, items: seq<Decoded>, outbound: Outbound, fate: Fate,
                     fme: L.Peer, fother: L.Peer, wire: seq<AshFrame>)
    requires Reachable(fme, fother) && fme.wire == L.Emit(wire, outbound)
    requires StandFor(me, other, items, fme.(wire := wire), fother)
    ensures Refines(Written(me, outbound, fate), other, items)
  {
    if outbound.Send? {
      var frame := outbound.frame;
      ReachableIsReduced(fme, fother);
      assert fme.wire[|wire|] == frame;
      StandsAfterWriting([], other.decoder, me.line, wire, frame, fate);
      if Survives(frame, fate) {
        assert StandFor(Written(me, outbound, fate), other, items, fme, fother);
      } else {
        var (fother', fme') := L.Act(fother, fme, L.Lose(|wire|), MAX_WINDOW);
        ReachableTurns(fme, fother);
        ActReaches(fother, fme, L.Lose(|wire|));
        assert fme.wire[..|wire|] + fme.wire[|wire| + 1..] == wire;
        assert wire + [] == wire;
        assert StandFor(Written(me, outbound, fate), other, items, fme', fother');
      }
    } else {
      assert fme.(wire := wire) == fme;
    }
  }

  lemma ReachableTurns(me: L.Peer, other: L.Peer)
    requires Reachable(me, other)
    ensures Reachable(other, me)
  {
  }

  lemma AcknowledgementIsWritable(e: Endpoint, frame: AshFrame)
    ensures var (_, payload, outbound) := OnFrame(e, frame); payload.Some? ==> Writable(outbound)
  {
  }

  /** Handling one output, a frame that `fother` has on its wire or a rejection it has not. */
  lemma FrameRefines(me: Peer, other: Peer, frame: AshFrame, rest: seq<Decoded>, fate: Fate,
                     fme: L.Peer, fother: L.Peer)
    requires Reachable(fme, fother) && StandFor(me, other, [Frame(frame)] + rest, fme, fother)
    ensures Refines(ItemStep(me, Frame(frame), fate).0, other, rest)
  {
    var later := rest + Fed(me.decoder, other.line).1;
    assert [Frame(frame)] + rest + Fed(me.decoder, other.line).1 == [Frame(frame)] + later;
    FramesInConcat([Frame(frame)], later);
    FramesInOne(Frame(frame));
    assert fother.wire == [frame] + FramesIn(later);
    var (end, payload, outbound) := OnFrame(me.end, frame);
    var (fme', fother') := L.Act(fme, fother, L.Receive, MAX_WINDOW);
    ActReaches(fme, fother, L.Receive);
    AcknowledgementIsWritable(me.end, frame);
    assert fother'.wire == FramesIn(later);
    var delivered := if payload.Some? then [payload.value] else [];
    WriteRefines(me.(end := end, delivered := me.delivered + delivered), other, rest, outbound, fate,
                 fme', fother', fme.wire);
  }

  lemma RejectionRefines(me: Peer, other: Peer, error: AshError, rest: seq<Decoded>, fate: Fate,
                         fme: L.Peer, fother: L.Peer)
    requires Reachable(fme, fother) && StandFor(me, other, [Rejected(error)] + rest, fme, fother)
    ensures Refines(ItemStep(me, Rejected(error), fate).0, other, rest)
  {
    var later := rest + Fed(me.decoder, other.line).1;
    assert [Rejected(error)] + rest + Fed(me.decoder, other.line).1 == [Rejected(error)] + later;
    FramesInConcat([Rejected(error)], later);
    FramesInOne(Rejected(error));
    assert fother.wire == [] + FramesIn(later);
    var (end, outbound) := OnDecodeFailure(me.end, error);
    var (fme', fother') := L.Act(fme, fother, L.Garble(error), MAX_WINDOW);
    ActReaches(fme, fother, L.Garble(error));
    WriteRefines(me.(end := end), other, rest, outbound, fate, fme', fother', fme.wire);
  }

  lemma ItemRefines(me: Peer, other: Peer, item: Decoded, rest: seq<Decoded>, fate: Fate)
    requires Refines(me, other, [item] + rest)
    ensures Refines(ItemStep(me, item, fate).0, other, rest)
  {
    var fme, fother :| Reachable(fme, fother) && StandFor(me, other, [item] + rest, fme, fother);
    match item
    case Frame(frame) => FrameRefines(me, other, frame, rest, fate, fme, fother);
    case Rejected(error) => RejectionRefines(me, other, error, rest, fate, fme, fother);
  }

  /** Losing the frame at the head of the wire. */
  lemma LoseFirst(fme: L.Peer, fother: L.Peer, frame: AshFrame, wire: seq<AshFrame>)
    requires Reachable(fme, fother) && fother.wire == [frame] + wire
    ensures Reachable(fme, fother.(wire := wire))
  {
    ActReaches(fme, fother, L.Lose(0));
    assert fother.wire[..0] + fother.wire[1..] == wire;
    assert L.Act(fme, fother, L.Lose(0), MAX_WINDOW) == (fme, fother.(wire := wire));
  }

  lemma DropOne(me: Peer, other: Peer, item: Decoded, rest: seq<Decoded>)
    requires Refines(me, other, [item] + rest)
    ensures Refines(me, other, rest)
  {
    var fme, fother :| Reachable(fme, fother) && StandFor(me, other, [item] + rest, fme, fother);
    var later := rest + Fed(me.decoder, other.line).1;
    Associates([item], rest, Fed(me.decoder, other.line).1);
    FramesInConcat([item], later);
    FramesInOne(item);
    if item.Frame? {
      assert fother.wire == [item.frame] + FramesIn(later);
      LoseFirst(fme, fother, item.frame, FramesIn(later));
      assert StandFor(me, other, rest, fme, fother.(wire := FramesIn(later)));
    } else {
      assert [] + FramesIn(later) == FramesIn(later);
      assert StandFor(me, other, rest, fme, fother);
    }
  }

  /** Dropping outputs loses their frames. */
  lemma {:induction false} DropRefines(me: Peer, other: Peer, items: seq<Decoded>)
    requires Refines(me, other, items)
    ensures Refines(me, other, [])
    decreases |items|
  {
    if items != [] {
      assert items == [items[0]] + items[1..];
      DropOne(me, other, items[0], items[1..]);
      DropRefines(me, other, items[1..]);
    }
  }

  lemma {:induction false} ItemsRefine(me: Peer, other: Peer, items: seq<Decoded>, fates: seq<Fate>)
    requires Refines(me, other, items)
    ensures Refines(HandleItems(me, items, fates), other, [])
    decreases |items|
  {
    if items != [] {
      var fate := if fates == [] then Intact else fates[0];
      var (me', ok) := ItemStep(me, items[0], fate);
      assert items == [items[0]] + items[1..];
      ItemRefines(me, other, items[0], items[1..], fate);
      if ok {
        ItemsRefine(me', other, items[1..], if fates == [] then [] else fates[1..]);
      } else {
        DropRefines(me', other, items[1..]);
      }
    }
  }

  lemma RefinesTurns(me: Peer, other: Peer)
    requires Refines(me, other, [])
    ensures Refines(other, me, [])
  {
    var fme, fother :| Reachable(fme, fother) && StandFor(me, other, [], fme, fother);
    ReachableTurns(fme, fother);
    assert StandFor(other, me, [], fother, fme);
  }

  lemma ReadRefines(me: Peer, other: Peer, count: nat, fates: seq<Fate>)
    requires Refines(me, other, [])
    ensures var (me', other') := Act(me, other, Read(count, fates)); Refines(me', other', [])
  {
    var fme, fother :| Reachable(fme, fother) && StandFor(me, other, [], fme, fother);
    var n := if count <= |other.line| then count else |other.line|;
    var (decoder, items) := Fed(me.decoder, other.line[..n]);
    StandsAfterReading(me.decoder, other.line, fother.wire, n);
    var me', other' := me.(decoder := decoder), other.(line := other.line[n..]);
    assert StandFor(me', other', items, fme, fother);
    ItemsRefine(me', other', items, fates);
  }

  lemma SubmitRefines(me: Peer, other: Peer, payload: Bytes, fate: Fate)
    requires Refines(me, other, [])
    ensures var (me', other') := Act(me, other, Submit(payload, fate)); Refines(me', other', [])
  {
    var fme, fother :| Reachable(fme, fother) && StandFor(me, other, [], fme, fother);
    var (end, r) := SendData(me.end, payload, MAX_WINDOW);
    var (fme', fother') := L.Act(fme, fother, L.Submit(payload), MAX_WINDOW);
    ActReaches(fme, fother, L.Submit(payload));
    if r.Ok? {
      WriteRefines(me.(end := end, sent := me.sent + [payload]), other, [], Send(r.value), fate,
                   fme', fother', fme.wire);
    } else {
      assert StandFor(me.(end := end), other, [], fme', fother');
    }
  }

  lemma ResendRefines(me: Peer, other: Peer, fate: Fate)
    requires Refines(me, other, [])
    ensures var (me', other') := Act(me, other, Resend(fate)); Refines(me', other', [])
  {
    var fme, fother :| Reachable(fme, fother) && StandFor(me, other, [], fme, fother);
    var (end, outbound) := RetransmitOldest(me.end);
    var (fme', fother') := L.Act(fme, fother, L.Resend, MAX_WINDOW);
    ActReaches(fme, fother, L.Resend);
    WriteRefines(me.(end := end), other, [], outbound, fate, fme', fother', fme.wire);
  }

  lemma ActRefines(me: Peer, other: Peer, action: Action)
    requires Refines(me, other, [])
    ensures var (me', other') := Act(me, other, action); Refines(me', other', [])
  {
    match action
    case Submit(payload, fate) => SubmitRefines(me, other, payload, fate);
    case Read(count, fates) => ReadRefines(me, other, count, fates);
    case Resend(fate) => ResendRefines(me, other, fate);
  }

  lemma IdleRefines()
    ensures Refines(IDLE, IDLE, [])
  {
    assert L.Run([], MAX_WINDOW) == L.Link(L.IDLE, L.IDLE);
    assert Reachable(L.IDLE, L.IDLE);
    assert [] + Fed(EMPTY, []).1 == [];
    assert StandFor(IDLE, IDLE, [], L.IDLE, L.IDLE);
  }

  /** Every run of the link of bytes stands for a run of the link of frames. */
  lemma {:induction false} RunRefines(events: seq<Event>)
    ensures Refines(Run(events).a, Run(events).b, [])
  {
    if events == [] {
      IdleRefines();
    } else {
      var before, event := Run(events[..|events| - 1]), events[|events| - 1];
      RunRefines(events[..|events| - 1]);
      if event.byA {
        ActRefines(before.a, before.b, event.action);
      } else {
        RefinesTurns(before.a, before.b);
        ActRefines(before.b, before.a, event.action);
        RefinesTurns(Run(events).b, Run(events).a);
      }
    }
  }

  /** Over lines of bytes cut anywhere, with every frame intact, interspersed with flow control, lost,
      marked, cancelled, or damaged within sixteen consecutive bits, each side still delivers a prefix of
      what the other accepted for sending: no duplicate, gap, reordering or corrupted payload. */
  lemma BytesArriveInOrder(events: seq<Event>)
    ensures var link := Run(events); link.a.delivered <= link.b.sent && link.b.delivered <= link.a.sent
  {
    RunRefines(events);
    var link := Run(events);
    var fa, fb :| Reachable(fa, fb) && StandFor(link.a, link.b, [], fa, fb);
    ReachableIsReduced(fa, fb);
  }
}
