/** What the decoder makes of a whole byte stream, said without its state, and the theorems that
    tie it to the encoder. */
module AshStreams {
  import opened Basics
  import opened AshFrames
  import opened AshCrc
  import opened AshCodec

  // ---------------------------------------------------------------------------------------------
  // The stream, declaratively.

  /** What follows the last `mark`, or everything if there is none. */
  function AfterLast(s: Bytes, mark: bv8): Bytes {
    if mark in s then AfterLast(s[1..], mark) else s
  }

  predicate IsFlowControl(byte: bv8) {
    byte == XON || byte == XOFF
  }

  /** The bytes that carry data or escape it. */
  function Carrying(s: Bytes): Bytes {
    if s == [] then []
    else (if IsFlowControl(s[0]) || s[0] == SUBSTITUTE then [] else [s[0]]) + Carrying(s[1..])
  }

  /** Undoes byte stuffing: the first byte after a run of escapes is flipped. */
  function Unstuff(s: Bytes): Bytes {
    if s == [] then []
    else if s[0] != ESCAPE then [s[0]] + Unstuff(s[1..])
    else if |s| == 1 then []
    else if s[1] == ESCAPE then Unstuff(s[1..])
    else [Flip(s[1])] + Unstuff(s[2..])
  }

  /** Whether any data byte occurs. */
  predicate HasData(s: Bytes) {
    exists i :: 0 <= i < |s| && !IsFlowControl(s[i]) && s[i] != ESCAPE
  }

  /** Why a segment is rejected unread: the later of its last SUBSTITUTE and its last data byte
      beyond the 133rd. */
  function Verdict(segment: Bytes): Option<AshError> {
    var overflows := |Unstuff(Carrying(segment))| > 133;
    if overflows && (SUBSTITUTE !in segment || HasData(AfterLast(segment, SUBSTITUTE))) then
      Some(TooLong(134, 133))
    else if SUBSTITUTE in segment then
      Some(Substituted)
    else
      None
  }

  /** The outcome of the bytes between two delimiters. */
  function SegmentOutcome(segment: Bytes): Option<Decoded> {
    var kept := AfterLast(segment, CANCEL);
    match Verdict(kept)
    case Some(error) => Some(Rejected(error))
    case None => Checked(Unstuff(Carrying(kept)))
  }

  function IndexOf(s: Bytes, mark: bv8): (i: nat)
    requires mark in s
    ensures i < |s| && s[i] == mark && mark !in s[..i]
  {
    if s[0] == mark then 0
    else
      assert s[1..][..IndexOf(s[1..], mark)] == s[1..1 + IndexOf(s[1..], mark)];
      1 + IndexOf(s[1..], mark)
  }

  /** Split at FLAG; each complete segment contributes its outcome, in order. */
  function Outcomes(stream: Bytes): seq<Decoded>
    decreases |stream|
  {
    if FLAG !in stream then []
    else
      var i := IndexOf(stream, FLAG);
      var outcome := SegmentOutcome(stream[..i]);
      Listed(outcome) + Outcomes(stream[i + 1..])
  }

  /** The first 133 bytes. */
  function Capped(data: Bytes): Bytes {
    if |data| <= 133 then data else data[..133]
  }

  /** The decoder state that a segment without FLAG or CANCEL amounts to. */
  function Residue(segment: Bytes): Partial {
    var carrying := Carrying(segment);
    Partial(Capped(Unstuff(carrying)),
            carrying != [] && carrying[|carrying| - 1] == ESCAPE,
            Verdict(segment))
  }

  // ---------------------------------------------------------------------------------------------
  // How each notion grows with one more byte.

  lemma AfterLastSnoc(s: Bytes, b: bv8, mark: bv8)
    ensures AfterLast(s + [b], mark) == if b == mark then [] else AfterLast(s, mark) + [b]
  {
    if s == [] {
      assert [b][1..] == [];
    } else {
      assert (s + [b])[1..] == s[1..] + [b];
      AfterLastSnoc(s[1..], b, mark);
    }
  }

  lemma AfterLastFree(s: Bytes, mark: bv8)
    ensures mark !in AfterLast(s, mark)
    ensures forall b :: b in AfterLast(s, mark) ==> b in s
  {
  }

  lemma CarryingSnoc(s: Bytes, b: bv8)
    ensures Carrying(s + [b])
            == if IsFlowControl(b) || b == SUBSTITUTE then Carrying(s) else Carrying(s) + [b]
  {
    if s == [] {
      assert [b][1..] == [];
    } else {
      assert (s + [b])[1..] == s[1..] + [b];
      CarryingSnoc(s[1..], b);
    }
  }

  /** What one more byte adds to the unstuffed bytes. */
  function Added(s: Bytes, b: bv8): Bytes {
    if b == ESCAPE then []
    else if s != [] && s[|s| - 1] == ESCAPE then [Flip(b)]
    else [b]
  }

  lemma AddedAfter(s: Bytes, b: bv8, n: nat)
    requires 0 < n <= |s| && (n < |s| || s[|s| - 1] != ESCAPE)
    ensures Added(s[n..], b) == Added(s, b)
  {
  }

  lemma UnstuffSnocOne(s: Bytes, b: bv8)
    requires |s| == 1 && s[0] == ESCAPE
    ensures Unstuff(s + [b]) == Added(s, b)
  {
    assert (s + [b])[1..] == [b] && (s + [b])[2..] == [] && [b][1..] == [];
  }

  lemma UnstuffDropOne(s: Bytes)
    requires s != [] && (s[0] != ESCAPE || (|s| > 1 && s[1] == ESCAPE))
    ensures Unstuff(s) == (if s[0] != ESCAPE then [s[0]] else []) + Unstuff(s[1..])
  {
  }

  lemma UnstuffDropTwo(s: Bytes)
    requires |s| > 1 && s[0] == ESCAPE && s[1] != ESCAPE
    ensures Unstuff(s) == [Flip(s[1])] + Unstuff(s[2..])
  {
  }

  lemma {:induction false} UnstuffSnoc(s: Bytes, b: bv8)
    ensures Unstuff(s + [b]) == Unstuff(s) + Added(s, b)
    decreases |s|
  {
    if s == [] {
      assert [b][1..] == [];
    } else if |s| == 1 && s[0] == ESCAPE {
      UnstuffSnocOne(s, b);
    } else if s[0] != ESCAPE || s[1] == ESCAPE {
      assert (s + [b])[1..] == s[1..] + [b];
      UnstuffDropOne(s);
      UnstuffDropOne(s + [b]);
      UnstuffSnoc(s[1..], b);
      AddedAfter(s, b, 1);
      Associates(if s[0] != ESCAPE then [s[0]] else [], Unstuff(s[1..]), Added(s, b));
    } else {
      assert (s + [b])[2..] == s[2..] + [b];
      UnstuffDropTwo(s);
      UnstuffDropTwo(s + [b]);
      UnstuffSnoc(s[2..], b);
      AddedAfter(s, b, 2);
      Associates([Flip(s[1])], Unstuff(s[2..]), Added(s, b));
    }
  }

  lemma HasDataSnoc(s: Bytes, b: bv8)
    ensures HasData(s + [b]) <==> HasData(s) || (!IsFlowControl(b) && b != ESCAPE)
  {
    if HasData(s) {
      var i :| 0 <= i < |s| && !IsFlowControl(s[i]) && s[i] != ESCAPE;
      assert (s + [b])[i] == s[i];
    }
    assert (s + [b])[|s|] == b;
  }

  lemma MemberSnoc(s: Bytes, b: bv8, mark: bv8)
    ensures mark in s + [b] <==> mark in s || b == mark
  {
  }

  lemma VerdictSnoc(s: Bytes, b: bv8)
    ensures Verdict(s + [b])
            == if b == SUBSTITUTE then Some(Substituted)
               else if IsFlowControl(b) || b == ESCAPE then Verdict(s)
               else if |Unstuff(Carrying(s))| >= 133
                 then Some(TooLong(134, 133))
               else Verdict(s)
  {
    CarryingSnoc(s, b);
    AfterLastSnoc(s, b, SUBSTITUTE);
    MemberSnoc(s, b, SUBSTITUTE);
    if b == SUBSTITUTE {
      assert !HasData([]);
    } else {
      HasDataSnoc(AfterLast(s, SUBSTITUTE), b);
      UnstuffSnoc(Carrying(s), b);
      if IsFlowControl(b) || b == ESCAPE {
        assert Unstuff(Carrying(s + [b])) == Unstuff(Carrying(s));
        assert HasData(AfterLast(s + [b], SUBSTITUTE)) == HasData(AfterLast(s, SUBSTITUTE));
      } else {
        assert |Unstuff(Carrying(s + [b]))| == |Unstuff(Carrying(s))| + 1;
        assert HasData(AfterLast(s + [b], SUBSTITUTE));
      }
    }
  }

  lemma CappedSnoc(data: Bytes, more: Bytes)
    requires |more| <= 1
    ensures Capped(data + more)
            == if more == [] || |data| >= 133 then Capped(data) else Capped(data) + more
  {
    if more == [] {
      assert data + more == data;
    } else if |data| >= 133 {
      assert (data + more)[..133] == data[..133];
      assert data[..|data|] == data;
    }
  }

  lemma QuietSnoc(s: Bytes, b: bv8)
    requires IsFlowControl(b) || b == SUBSTITUTE
    ensures Pushed(Residue(s), b) == (Residue(s + [b]), None)
  {
    CarryingSnoc(s, b);
    VerdictSnoc(s, b);
  }

  lemma EscapeSnoc(s: Bytes)
    ensures Pushed(Residue(s), ESCAPE) == (Residue(s + [ESCAPE]), None)
  {
    CarryingSnoc(s, ESCAPE);
    VerdictSnoc(s, ESCAPE);
    UnstuffSnoc(Carrying(s), ESCAPE);
    CappedSnoc(Unstuff(Carrying(s)), []);
  }

  lemma DataSnoc(s: Bytes, b: bv8)
    requires !IsReserved(b)
    ensures Pushed(Residue(s), b) == (Residue(s + [b]), None)
  {
    CarryingSnoc(s, b);
    VerdictSnoc(s, b);
    UnstuffSnoc(Carrying(s), b);
    CappedSnoc(Unstuff(Carrying(s)), Added(Carrying(s), b));
  }

  lemma ResidueSnoc(s: Bytes, b: bv8)
    requires b != FLAG && b != CANCEL
    ensures Pushed(Residue(s), b) == (Residue(s + [b]), None)
  {
    if IsFlowControl(b) || b == SUBSTITUTE {
      QuietSnoc(s, b);
    } else if b == ESCAPE {
      EscapeSnoc(s);
    } else {
      DataSnoc(s, b);
    }
  }

  // ---------------------------------------------------------------------------------------------
  // The decoder and the declarative reading agree on every stream.

  lemma {:induction false} FedConcat(p: Partial, a: Bytes, b: Bytes)
    ensures Fed(p, a + b) == (Fed(Fed(p, a).0, b).0, Fed(p, a).1 + Fed(Fed(p, a).0, b).1)
    decreases |b|
  {
    if b == [] {
      assert a + b == a && Fed(p, a).1 + [] == Fed(p, a).1;
    } else {
      var n := |b| - 1;
      FedConcat(p, a, b[..n]);
      assert (a + b)[..|a + b| - 1] == a + b[..n];
      var mid := Fed(p, a).0;
      var last := Listed(Pushed(Fed(mid, b[..n]).0, b[n]).1);
      assert Fed(p, a + b).1 == Fed(p, a).1 + Fed(mid, b[..n]).1 + last;
      assert Fed(p, a + b).1 == Fed(p, a).1 + Fed(mid, b).1;
    }
  }

  /** Before any delimiter: no output, and the state is that of the bytes after the last CANCEL. */
  lemma {:induction false} SegmentState(segment: Bytes)
    requires FLAG !in segment
    ensures Fed(EMPTY, segment) == (Residue(AfterLast(segment, CANCEL)), [])
    decreases |segment|
  {
    if segment != [] {
      var n := |segment| - 1;
      var s, b := segment[..n], segment[n];
      assert segment == s + [b];
      SegmentState(s);
      FedLast(EMPTY, s, b);
      AfterLastSnoc(s, b, CANCEL);
      if b == CANCEL {
        assert Residue([]) == EMPTY;
      } else {
        ResidueSnoc(AfterLast(s, CANCEL), b);
      }
      assert [] + Listed(None) == [];
    }
  }

  lemma SegmentOutput(segment: Bytes)
    requires FLAG !in segment
    ensures Fed(EMPTY, segment + [FLAG]) == (EMPTY, Listed(SegmentOutcome(segment)))
  {
    SegmentState(segment);
    FedLast(EMPTY, segment, FLAG);
    var kept := AfterLast(segment, CANCEL);
    var data := Unstuff(Carrying(kept));
    AfterLastFree(kept, SUBSTITUTE);
    if Verdict(kept).None? {
      assert SUBSTITUTE !in kept;
      assert |data| <= 133;
    }
    assert [] + Listed(SegmentOutcome(segment)) == Listed(SegmentOutcome(segment));
  }

  lemma {:induction false} AfterLastSplit(s: Bytes, t: Bytes, mark: bv8)
    ensures AfterLast(s + [mark] + t, mark) == AfterLast(t, mark)
    decreases |s|
  {
    assert (s + [mark] + t)[|s|] == mark;
    if s == [] {
      assert (s + [mark] + t)[1..] == t;
    } else {
      assert (s + [mark] + t)[1..] == s[1..] + [mark] + t;
      AfterLastSplit(s[1..], t, mark);
    }
  }

  /** For every byte stream, the decoder puts out exactly the outcomes of the segments between
      delimiters, and ends in the state of the unfinished one. */
  lemma {:induction false} DecoderReadsStream(stream: Bytes)
    ensures Fed(EMPTY, stream)
            == (Residue(AfterLast(AfterLast(stream, FLAG), CANCEL)), Outcomes(stream))
    decreases |stream|
  {
    if FLAG !in stream {
      SegmentState(stream);
    } else {
      var i := IndexOf(stream, FLAG);
      var segment, rest := stream[..i], stream[i + 1..];
      assert stream == segment + [FLAG] + rest;
      SegmentOutput(segment);
      FedConcat(EMPTY, segment + [FLAG], rest);
      AfterLastSplit(segment, rest, FLAG);
      DecoderReadsStream(rest);
    }
  }

  // ---------------------------------------------------------------------------------------------
  // What the encoder writes.

  lemma FlipOfReserved(b: bv8)
    ensures Flip(Flip(b)) == b
    ensures IsReserved(b) ==> !IsReserved(Flip(b))
  {
  }

  /** Stuffed bytes hold none of the reserved bytes but ESCAPE, and every ESCAPE is followed by an
      unreserved byte. */
  lemma {:induction false} StuffedDiscipline(bytes: Bytes)
    ensures var s := Stuff(bytes);
            && |bytes| <= |s| <= 2 * |bytes|
            && forall i :: 0 <= i < |s| && IsReserved(s[i]) ==>
                 s[i] == ESCAPE && i + 1 < |s| && !IsReserved(s[i + 1])
  {
    if bytes != [] {
      FlipOfReserved(bytes[0]);
      StuffedDiscipline(bytes[1..]);
      var head := if IsReserved(bytes[0]) then [ESCAPE, Flip(bytes[0])] else [bytes[0]];
      var rest := Stuff(bytes[1..]);
      forall i | 0 <= i < |head + rest| && IsReserved((head + rest)[i])
        ensures var s := head + rest; s[i] == ESCAPE && i + 1 < |s| && !IsReserved(s[i + 1])
      {
        if i >= |head| {
          assert (head + rest)[i] == rest[i - |head|];
        }
      }
    }
  }

  /** Unstuffing undoes stuffing. */
  lemma {:induction false} UnstuffStuffed(bytes: Bytes)
    ensures Unstuff(Stuff(bytes)) == bytes
  {
    if bytes != [] {
      FlipOfReserved(bytes[0]);
      UnstuffStuffed(bytes[1..]);
      var s, rest := Stuff(bytes), Stuff(bytes[1..]);
      if IsReserved(bytes[0]) {
        assert s[2..] == rest;
        UnstuffDropTwo(s);
      } else {
        assert s[1..] == rest;
        UnstuffDropOne(s);
      }
    }
  }

  lemma {:induction false} CarryingKeeps(s: Bytes)
    requires forall i :: 0 <= i < |s| ==> !IsFlowControl(s[i]) && s[i] != SUBSTITUTE
    ensures Carrying(s) == s
  {
    if s != [] {
      CarryingKeeps(s[1..]);
    }
  }

  lemma CarryingStuffed(bytes: Bytes)
    ensures Carrying(Stuff(bytes)) == Stuff(bytes)
  {
    StuffedDiscipline(bytes);
    CarryingKeeps(Stuff(bytes));
  }

  /** Every encoded frame is at most 267 bytes, ends in its only FLAG, and holds no raw flow
      control, CANCEL or SUBSTITUTE; each ESCAPE is followed by an unreserved byte. */
  lemma EncodedDiscipline(frame: AshFrame)
    requires Encoded(frame).Ok?
    ensures var out := Encoded(frame).value;
            && 3 < |out| <= 267
            && out[|out| - 1] == FLAG
            && forall i :: 0 <= i < |out| - 1 && IsReserved(out[i]) ==>
                 out[i] == ESCAPE && i + 1 < |out| - 1 && !IsReserved(out[i + 1])
  {
    StuffedDiscipline(Unstuffed(frame));
  }

  // ---------------------------------------------------------------------------------------------
  // Round trips.

  /** What decoding an encoded frame yields. */
  function Echo(frame: AshFrame): Decoded {
    if frame.Data? && |frame.payload| > 128
    then Rejected(TooLong(|frame.payload|, 128))
    else Frame(frame.Reduced())
  }

  lemma ControlTellsData(frame: AshFrame)
    ensures frame.Control() & CONTROL_DATA_MASK == 0 <==> frame.Data?
  {
    ParsePrinted(frame);
  }

  lemma CheckedUnstuffed(frame: AshFrame)
    ensures Checked(Unstuffed(frame)) == Some(Echo(frame))
  {
    var covered, bytes := Covered(frame), Unstuffed(frame);
    var crc := Crc16All(covered);
    BigEndianRoundTrip(crc);
    assert bytes[..|bytes| - 2] == covered;
    ControlTellsData(frame);
    RandomisedInvolution(frame.Body());
    assert covered[1..] == if frame.Data? then Randomised(frame.Body()) else frame.Body();
    ParsePrinted(frame);
  }

  lemma StuffedIsClean(bytes: Bytes)
    ensures var s := Stuff(bytes); FLAG !in s && CANCEL !in s && SUBSTITUTE !in s
  {
    StuffedDiscipline(bytes);
  }

  lemma CleanSegment(s: Bytes, data: Bytes)
    requires CANCEL !in s && SUBSTITUTE !in s
    requires Unstuff(Carrying(s)) == data && |data| <= 133
    ensures SegmentOutcome(s) == Checked(data)
  {
    assert AfterLast(s, CANCEL) == s;
    assert Verdict(s) == None;
  }

  /** From a decoder at rest, the bytes of one encoded frame produce its echo and nothing else. */
  lemma EncodedDecodes(frame: AshFrame)
    requires Encoded(frame).Ok?
    ensures Fed(EMPTY, Encoded(frame).value) == (EMPTY, [Echo(frame)])
  {
    var bytes := Unstuffed(frame);
    StuffedIsClean(bytes);
    UnstuffStuffed(bytes);
    CarryingStuffed(bytes);
    CleanSegment(Stuff(bytes), bytes);
    CheckedUnstuffed(frame);
    SegmentOutput(Stuff(bytes));
  }

  /** A frame survives the line exactly when it is portable: a data field of 129 or 130 bytes is
      encoded but refused on arrival, a longer one is not encoded. */
  lemma RoundTripExactlyWhenPortable(frame: AshFrame)
    ensures Encoded(frame).Ok? && Fed(EMPTY, Encoded(frame).value) == (EMPTY, [Frame(frame)])
            <==> frame.Portable()
  {
    AshFrames.RoundTripExactlyWhenPortable(frame);
    ParsePrinted(frame);
    if Encoded(frame).Ok? {
      EncodedDecodes(frame);
      assert [Echo(frame)][0] == Echo(frame) && [Frame(frame)][0] == Frame(frame);
    }
  }

  function EncodedAll(frames: seq<AshFrame>): Bytes {
    if frames == [] then [] else Line(frames[0]) + EncodedAll(frames[1..])
  }

  function Frames(frames: seq<AshFrame>): seq<Decoded> {
    if frames == [] then [] else [Frame(frames[0])] + Frames(frames[1..])
  }

  /** Feeding chunks one after the other, outputs in order. */
  function FedChunks(p: Partial, chunks: seq<Bytes>): (Partial, seq<Decoded>)
    decreases |chunks|
  {
    if chunks == [] then (p, [])
    else
      var (p', out) := Fed(p, chunks[0]);
      var (p'', out') := FedChunks(p', chunks[1..]);
      (p'', out + out')
  }

  lemma {:induction false} ChunksDoNotMatter(p: Partial, chunks: seq<Bytes>)
    ensures FedChunks(p, chunks) == Fed(p, Concat(chunks))
    decreases |chunks|
  {
    if chunks != [] {
      ChunksDoNotMatter(Fed(p, chunks[0]).0, chunks[1..]);
      FedConcat(p, chunks[0], Concat(chunks[1..]));
    }
  }

  lemma PortableIsEncoded(frame: AshFrame)
    requires frame.Portable()
    ensures Encoded(frame).Ok?
  {
  }

  lemma {:induction false} EncodedAllDecodes(frames: seq<AshFrame>)
    requires forall i :: 0 <= i < |frames| ==> frames[i].Portable()
    ensures Fed(EMPTY, EncodedAll(frames)) == (EMPTY, Frames(frames))
  {
    if frames != [] {
      RoundTripExactlyWhenPortable(frames[0]);
      EncodedAllDecodes(frames[1..]);
      FedConcat(EMPTY, Line(frames[0]), EncodedAll(frames[1..]));
    }
  }

  /** Any list of portable frames, encoded one after another and cut into chunks anywhere, comes
      out as that list and leaves the decoder empty. */
  lemma StreamRoundTrip(frames: seq<AshFrame>, chunks: seq<Bytes>)
    requires forall i :: 0 <= i < |frames| ==> frames[i].Portable()
    requires Concat(chunks) == EncodedAll(frames)
    ensures FedChunks(EMPTY, chunks) == (EMPTY, Frames(frames))
  {
    ChunksDoNotMatter(EMPTY, chunks);
    EncodedAllDecodes(frames);
  }

  /** Recovery: whatever state the decoder is in and whatever junk arrives, a FLAG or CANCEL after
      it lets the next encoded frame through intact. */
  lemma Resynchronises(p: Partial, junk: Bytes, mark: bv8, frame: AshFrame)
    requires mark == FLAG || mark == CANCEL
    requires frame.Portable()
    ensures Fed(p, junk + [mark] + Line(frame))
            == (EMPTY, Fed(p, junk + [mark]).1 + [Frame(frame)])
  {
    FedLast(p, junk, mark);
    FedConcat(p, junk + [mark], Line(frame));
    RoundTripExactlyWhenPortable(frame);
  }

  /** Flow control bytes may be inserted anywhere, even after an ESCAPE. */
  lemma FlowControlIsInvisible(p: Partial, a: Bytes, byte: bv8, b: Bytes)
    requires IsFlowControl(byte)
    ensures Fed(p, a + [byte] + b) == Fed(p, a + b)
  {
    FedLast(p, a, byte);
    FedConcat(p, a + [byte], b);
    FedConcat(p, a, b);
    assert Fed(p, a).1 + Listed(None) == Fed(p, a).1;
  }

  function Flags(bytes: Bytes): nat
    decreases |bytes|
  {
    if bytes == [] then 0
    else Flags(bytes[..|bytes| - 1]) + if bytes[|bytes| - 1] == FLAG then 1 else 0
  }

  /** The buffer never exceeds 133 bytes and there is at most one output per FLAG. */
  lemma {:induction false} DecoderIsBounded(p: Partial, bytes: Bytes)
    requires |p.bytes| <= 133
    ensures |Fed(p, bytes).0.bytes| <= 133 && |Fed(p, bytes).1| <= Flags(bytes)
    decreases |bytes|
  {
    if bytes != [] {
      DecoderIsBounded(p, bytes[..|bytes| - 1]);
    }
  }
}
