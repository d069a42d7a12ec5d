/** What becomes of bytes that are no frame: which of them ask the NCP to send again, and which are
    passed over in silence. */
module RejectionLaws {
  import opened Basics
  import opened AshFrames
  import opened AshConnections
  import opened AshCodec
  import opened AshStreams
  import opened AshWire
  import opened Runtimes
  import B = ByteLinks

  /** One kind of failure at a time: a bad frame check or a SUBSTITUTE is answered with a NAK for the
      number expected, and every other is left alone. */
  lemma NakExactly(e: Endpoint, error: AshError)
    ensures match error
            case BadCrc(_, _) => OnDecodeFailure(e, error) == (Asking(e), Send(Nak(e.nextRxFrame, false)))
            case Substituted => OnDecodeFailure(e, error) == (Asking(e), Send(Nak(e.nextRxFrame, false)))
            case TooShort(_, _) => OnDecodeFailure(e, error) == (e, Nothing)
            case TooLong(_, _) => OnDecodeFailure(e, error) == (e, Nothing)
            case InvalidControl(_, _) => OnDecodeFailure(e, error) == (e, Nothing)
            case Cancelled => OnDecodeFailure(e, error) == (e, Nothing)
            case NcpError(_, _) => OnDecodeFailure(e, error) == (e, Nothing)
            case NcpReset(_, _) => OnDecodeFailure(e, error) == (e, Nothing)
            case ResetFailed => OnDecodeFailure(e, error) == (e, Nothing)
            case OutOfSequence(_, _) => OnDecodeFailure(e, error) == (e, Nothing)
            case NotConnected => OnDecodeFailure(e, error) == (e, Nothing)
            case Timeout => OnDecodeFailure(e, error) == (e, Nothing)
            case WindowFull(_, _) => OnDecodeFailure(e, error) == (e, Nothing)
  {
  }

  function Asking(e: Endpoint): Endpoint {
    e.(nakPending := true)
  }

  // ---------------------------------------------------------------------------------------------
  // From the bytes between two delimiters.

  /** What the last CANCEL leaves of a segment. */
  function Kept(segment: Bytes): Bytes {
    AfterLast(segment, 0x1a)
  }

  function Unescaped(segment: Bytes): Bytes {
    Unstuff(Carrying(Kept(segment)))
  }

  predicate Spoilt(segment: Bytes) {
    0x18 in Kept(segment)
  }

  /** A data byte beyond the 133rd, and no SUBSTITUTE after the last of them. */
  predicate Overlong(segment: Bytes) {
    |Unescaped(segment)| > 133 && (!Spoilt(segment) || HasData(AfterLast(Kept(segment), 0x18)))
  }

  predicate ChecksOut(data: Bytes)
    requires |data| >= 3
  {
    IsFrameCheck(data[..|data| - 2], data[|data| - 2], data[|data| - 1])
  }

  /** Marked bad by a SUBSTITUTE, or long enough for a frame whose check fails. */
  predicate AsksAgain(segment: Bytes) {
    var data := Unescaped(segment);
    !Overlong(segment) && (Spoilt(segment) || (|data| >= 3 && !ChecksOut(data)))
  }

  /** Too long, too short, or sound but no frame: a data field of more than 128 bytes, or a control byte
      that no frame of this length has. */
  predicate PassedOver(segment: Bytes) {
    var data := Unescaped(segment);
    || Overlong(segment)
    || (!Spoilt(segment)
        && (|data| < 3
            || (ChecksOut(data)
                && if data[0] < 0x80 then |data| - 3 > 128 else WireFrame(data[0], data[1..|data| - 2]).Err?)))
  }

  lemma OutcomeByKept(segment: Bytes)
    ensures SegmentOutcome(segment)
            == if Overlong(segment) then Some(Rejected(TooLong(134, 133)))
               else if Spoilt(segment) then Some(Rejected(Substituted))
               else Checked(Unescaped(segment))
  {
  }

  lemma AskedAgain(segment: Bytes)
    requires AsksAgain(segment)
    ensures var outcome := SegmentOutcome(segment);
            && outcome.Some? && outcome.value.Rejected?
            && (outcome.value.error.BadCrc? || outcome.value.error.Substituted?)
  {
    OutcomeByKept(segment);
    RefusedExactly(Unescaped(segment));
  }

  lemma LeftAlone(segment: Bytes)
    requires PassedOver(segment)
    ensures var outcome := SegmentOutcome(segment);
            outcome.Some? ==>
              && outcome.value.Rejected?
              && (outcome.value.error.TooLong? || outcome.value.error.TooShort? || outcome.value.error.InvalidControl?)
  {
    OutcomeByKept(segment);
    RefusedExactly(Unescaped(segment));
    assert |Unescaped(segment)| < 3 ==> |Unescaped(segment)| in {0, 1, 2};
  }

  /** There is no third case but a frame. */
  lemma FrameOtherwise(segment: Bytes)
    ensures !AsksAgain(segment) && !PassedOver(segment) <==>
              SegmentOutcome(segment).Some? && SegmentOutcome(segment).value.Frame?
  {
    OutcomeByKept(segment);
    var data := Unescaped(segment);
    if AsksAgain(segment) {
      AskedAgain(segment);
    } else if PassedOver(segment) {
      LeftAlone(segment);
    } else {
      CheckedInNumbers(data);
    }
  }

  // ---------------------------------------------------------------------------------------------
  // What is written, and what else changes.

  lemma NakIsWritable(number: u8)
    ensures Encoded(Nak(number, false)) == Ok(Line(Nak(number, false)))
  {
  }

  lemma OneItem(n: Runtime, item: AshCodec.Decoded)
    ensures HandleAll(n, [item]) == Handle(n, item)
  {
    assert [item][1..] == [];
  }

  lemma AskedInTurn(n: Runtime, error: AshError)
    requires error.BadCrc? || error.Substituted?
    ensures Handle(n, Rejected(error))
            == (n.(ash := Asking(n.ash), written := n.written + [Line(Nak(n.ash.nextRxFrame, false))]), Ok(()))
  {
    NakExactly(n.ash, error);
    NakIsWritable(n.ash.nextRxFrame);
  }

  lemma SilentInTurn(n: Runtime, error: AshError)
    requires error.TooLong? || error.TooShort? || error.InvalidControl?
    ensures Handle(n, Rejected(error)) == (n, Ok(()))
  {
    NakExactly(n.ash, error);
  }

  /** The runtime, reading such bytes up to a delimiter: it writes the NAK of the number it expects and
      notes that it asked, or does nothing at all. */
  lemma RejectionsAreAnswered(n: Runtime, segment: Bytes)
    requires n.decoder == EMPTY && 0x7e !in segment
    ensures AsksAgain(segment) ==>
              Consume(n, segment + [0x7e])
              == (n.(ash := Asking(n.ash), written := n.written + [Line(Nak(n.ash.nextRxFrame, false))]), Ok(()))
    ensures PassedOver(segment) ==> Consume(n, segment + [0x7e]) == (n, Ok(()))
  {
    SegmentOutput(segment);
    var outcome := SegmentOutcome(segment);
    assert n.(decoder := EMPTY) == n;
    if outcome.Some? {
      OneItem(n, outcome.value);
    }
    if AsksAgain(segment) {
      AskedAgain(segment);
      AskedInTurn(n, outcome.value.error);
    }
    if PassedOver(segment) {
      LeftAlone(segment);
      if outcome.Some? {
        SilentInTurn(n, outcome.value.error);
      }
    }
  }

  /** A frame damaged within sixteen bits asks for it again. */
  lemma DamageAsksAgain(frame: AshFrame, segment: Bytes, start: nat)
    requires Encoded(frame).Ok? && B.IsDamageTo(frame, segment, start)
    ensures AsksAgain(segment)
  {
    B.DamageIsRejected(frame, segment, start);
    SegmentOutput(segment);
    FrameOtherwise(segment);
    if PassedOver(segment) {
      LeftAlone(segment);
    }
  }

  /** So does a frame marked by a SUBSTITUTE, unless data bytes beyond the 133rd follow the last one. */
  lemma MarkAsksAgainExactly(segment: Bytes)
    requires FLAG !in segment && CANCEL !in segment && SUBSTITUTE in segment
    ensures AsksAgain(segment)
            <==> !(|Unstuff(Carrying(segment))| > 133 && HasData(AfterLast(segment, SUBSTITUTE)))
  {
    assert AfterLast(segment, CANCEL) == segment;
  }

  lemma PeerReadsSegment(me: B.Peer, other: B.Peer, segment: Bytes)
    requires me.decoder == EMPTY && 0x7e !in segment && other.line == segment + [0x7e]
    ensures B.Act(me, other, B.Read(|other.line|, []))
            == (B.HandleItems(me, Listed(SegmentOutcome(segment)), []), other.(line := []))
  {
    SegmentOutput(segment);
    assert other.line[..|other.line|] == other.line && other.line[|other.line|..] == [];
    assert me.(decoder := EMPTY) == me;
  }

  lemma PeerHandlesRejection(me: B.Peer, error: AshError)
    ensures var (end, outbound) := OnDecodeFailure(me.end, error);
            B.HandleItems(me, [Rejected(error)], []) == B.Written(me.(end := end), outbound, B.Intact)
  {
    assert [Rejected(error)][1..] == [];
  }

  /** The same for a peer of the byte link that reads such a segment whole. */
  lemma PeerAsksAgain(me: B.Peer, other: B.Peer, segment: Bytes)
    requires me.decoder == EMPTY && 0x7e !in segment && other.line == segment + [0x7e]
    ensures AsksAgain(segment) ==>
              B.Act(me, other, B.Read(|other.line|, [])).0
              == me.(end := Asking(me.end), line := me.line + Line(Nak(me.end.nextRxFrame, false)))
    ensures PassedOver(segment) ==> B.Act(me, other, B.Read(|other.line|, [])).0 == me
  {
    PeerReadsSegment(me, other, segment);
    var outcome := SegmentOutcome(segment);
    if AsksAgain(segment) {
      AskedAgain(segment);
      PeerHandlesRejection(me, outcome.value.error);
      NakExactly(me.end, outcome.value.error);
      NakIsWritable(me.end.nextRxFrame);
    }
    if PassedOver(segment) {
      LeftAlone(segment);
      if outcome.Some? {
        PeerHandlesRejection(me, outcome.value.error);
        NakExactly(me.end, outcome.value.error);
      }
    }
  }
}
