/** The bytes of a frame on the line, said in numbers: control byte, keystream, frame check, escapes.

    Nothing here is stated with the encoder's own functions or constants. The keystream is given by its
    first eight bytes and a recurrence, the frame check by polynomial division, the rest by literals;
    encoder and parser are then shown to do exactly that. */
module AshWire {
  import opened Basics
  import opened AshFrames
  import opened AshCrc
  import opened AshCodec

  // ---------------------------------------------------------------------------------------------
  // The keystream.

  const FIRST_KEYS: Bytes := [0x42, 0x21, 0xa8, 0x54, 0x2a, 0x15, 0xb2, 0x59]

  function Xor8Of4(a: bv8, b: bv8, c: bv8, d: bv8): bv8 {
    a ^ b ^ c ^ d
  }

  /** A key is the sum of the four that come eight, six, five and four places before it. */
  predicate Recurs(k: Bytes, i: nat)
    requires i + 8 < |k|
  {
    k[i + 8] == Xor8Of4(k[i], k[i + 2], k[i + 3], k[i + 4])
  }

  /** The first eight keys as listed, and every later one by the recurrence. */
  predicate IsKeystream(k: Bytes) {
    && (forall i :: 0 <= i < |k| && i < 8 ==> k[i] == FIRST_KEYS[i])
    && (forall i :: 0 <= i < |k| - 8 ==> Recurs(k, i))
  }

  lemma {:induction false} KeystreamsAgree(a: Bytes, b: Bytes, i: nat)
    requires IsKeystream(a) && IsKeystream(b) && i < |a| == |b|
    ensures a[i] == b[i]
  {
    if i >= 8 {
      KeystreamsAgree(a, b, i - 8);
      KeystreamsAgree(a, b, i - 6);
      KeystreamsAgree(a, b, i - 5);
      KeystreamsAgree(a, b, i - 4);
      assert Recurs(a, i - 8) && Recurs(b, i - 8);
    }
  }

  /** There is one keystream of each length. */
  lemma KeystreamIsUnique(a: Bytes, b: Bytes)
    requires IsKeystream(a) && IsKeystream(b) && |a| == |b|
    ensures a == b
  {
    forall i | 0 <= i < |a| ensures a[i] == b[i] {
      KeystreamsAgree(a, b, i);
    }
  }

  lemma EightSteps(s: bv8)
    ensures var n2 := NextKey(NextKey(s));
            var n3 := NextKey(n2);
            var n4 := NextKey(n3);
            NextKey(NextKey(NextKey(NextKey(n4)))) == Xor8Of4(s, n2, n3, n4)
  {
    if s & 1 == 0 {
      if s & 2 == 0 {
        if s & 4 == 0 {} else {}
      } else {
        if s & 4 == 0 {} else {}
      }
    } else {
      if s & 2 == 0 {
        if s & 4 == 0 {} else {}
      } else {
        if s & 4 == 0 {} else {}
      }
    }
  }

  lemma KeyEightLater(i: nat)
    ensures Key(i + 8) == Xor8Of4(Key(i), Key(i + 2), Key(i + 3), Key(i + 4))
  {
    EightSteps(Key(i));
    assert Key(i + 1) == NextKey(Key(i));
    assert Key(i + 2) == NextKey(Key(i + 1));
    assert Key(i + 3) == NextKey(Key(i + 2));
    assert Key(i + 4) == NextKey(Key(i + 3));
    assert Key(i + 5) == NextKey(Key(i + 4));
    assert Key(i + 6) == NextKey(Key(i + 5));
    assert Key(i + 7) == NextKey(Key(i + 6));
    assert Key(i + 8) == NextKey(Key(i + 7));
  }

  lemma EightKeys(i: nat)
    requires i < 8
    ensures Key(i) == FIRST_KEYS[i]
  {
    assert Key(1) == 0x21;
    assert Key(2) == 0xa8;
    assert Key(3) == 0x54;
    assert Key(4) == 0x2a;
    assert Key(5) == 0x15;
    assert Key(6) == 0xb2;
    assert Key(7) == 0x59;
  }

  lemma Xor8Difference(x: bv8, k: bv8, y: bv8)
    ensures Xor8(Xor8(x, k), x) == k
    ensures Xor8(y, x) == k <==> y == Xor8(x, k)
  {
  }

  /** What whitening adds to any data is the keystream. */
  lemma WhiteningIsKeystream(data: Bytes)
    ensures IsKeystream(XorBytes(Randomised(data), data))
  {
    var k := XorBytes(Randomised(data), data);
    forall i | 0 <= i < |k| ensures k[i] == Key(i) {
      Xor8Difference(data[i], Key(i), 0);
    }
    forall i | 0 <= i < |k| && i < 8 ensures k[i] == FIRST_KEYS[i] {
      EightKeys(i);
    }
    forall i | 0 <= i < |k| - 8 ensures Recurs(k, i) {
      KeyEightLater(i);
    }
  }

  lemma DifferenceTells(x: Bytes, y: Bytes, data: Bytes)
    requires |x| == |y| == |data| && XorBytes(x, data) == XorBytes(y, data)
    ensures x == y
  {
    forall i | 0 <= i < |data| ensures x[i] == y[i] {
      assert XorBytes(x, data)[i] == Xor8(x[i], data[i]) && XorBytes(y, data)[i] == Xor8(y[i], data[i]);
      Xor8Difference(data[i], Xor8(x[i], data[i]), x[i]);
      Xor8Difference(data[i], Xor8(x[i], data[i]), y[i]);
    }
  }

  /** Whitening is adding the keystream, and nothing else is. */
  lemma WhitenedExactly(data: Bytes, whitened: Bytes)
    ensures whitened == Randomised(data) <==> |whitened| == |data| && IsKeystream(XorBytes(whitened, data))
  {
    WhiteningIsKeystream(data);
    if |whitened| == |data| && IsKeystream(XorBytes(whitened, data)) {
      KeystreamIsUnique(XorBytes(whitened, data), XorBytes(Randomised(data), data));
      DifferenceTells(whitened, Randomised(data), data);
    }
  }

  // ---------------------------------------------------------------------------------------------
  // Control bytes and bodies, in both directions.

  /** The control byte by arithmetic: sixteen for each frame number, eight for a flag, one for each
      acknowledgement number, on top of a base for each kind. */
  function WireControl(frame: AshFrame): bv8 {
    match frame
    case Data(f, a, retransmit, _) => 16 * ((f % 8) as bv8) + (if retransmit then 8 else 0) + (a % 8) as bv8
    case Ack(a, notReady) => 0x80 + (if notReady then 8 else 0) + (a % 8) as bv8
    case Nak(a, notReady) => 0xa0 + (if notReady then 8 else 0) + (a % 8) as bv8
    case Rst => 0xc0
    case RstAck(_, _) => 0xc1
    case Error(_, _) => 0xc2
  }

  lemma BitsBySum(f: bv8, a: bv8, r: bv8)
    requires f <= 7 && a <= 7 && (r == 0 || r == 8)
    ensures (f << 4) | r | a == 16 * f + r + a
    ensures 0x80 | r | a == 0x80 + r + a
    ensures 0xa0 | r | a == 0xa0 + r + a
  {
  }

  lemma ControlByArithmetic(frame: AshFrame)
    ensures frame.Control() == WireControl(frame)
  {
    match frame
    case Data(f, a, retransmit, _) =>
      LowBitsRange(f);
      LowBitsRange(a);
      BitsBySum(LowBits(f), LowBits(a), if retransmit then 8 else 0);
    case Ack(a, notReady) =>
      LowBitsRange(a);
      BitsBySum(0, LowBits(a), if notReady then 8 else 0);
    case Nak(a, notReady) =>
      LowBitsRange(a);
      BitsBySum(0, LowBits(a), if notReady then 8 else 0);
    case _ =>
  }

  /** A frame read off its control byte by division and its body by length. */
  function WireFrame(control: bv8, body: Bytes): Result<AshFrame, AshError> {
    var ackNum: u8 := (control % 8) as int;
    var flag := (control / 8) % 2 == 1;
    if control < 0x80 then
      if |body| <= 128 then Ok(Data((control / 16) as int, ackNum, flag, body)) else Err(TooLong(|body|, 128))
    else if control < 0xa0 && |body| == 0 then Ok(Ack(ackNum, flag))
    else if 0xa0 <= control < 0xc0 && |body| == 0 then Ok(Nak(ackNum, flag))
    else if control == 0xc0 && |body| == 0 then Ok(Rst)
    else if control == 0xc1 && |body| == 2 then Ok(RstAck(body[0], body[1]))
    else if control == 0xc2 && |body| == 2 then Ok(Error(body[0], body[1]))
    else Err(InvalidControl(control, |body|))
  }

  lemma FieldsByDivision(control: bv8)
    ensures control & 0x07 == control % 8
    ensures control & 0x08 != 0 <==> (control / 8) % 2 == 1
    ensures control & 0x80 == 0 <==> control < 0x80
    ensures control < 0x80 ==> (control & 0x70) >> 4 == control / 16
    ensures control & 0xe0 == 0x80 <==> 0x80 <= control < 0xa0
    ensures control & 0xe0 == 0xa0 <==> 0xa0 <= control < 0xc0
  {
  }

  /** The parser accepts exactly these control bytes with these bodies, and reads these fields. */
  lemma ParsedByArithmetic(control: bv8, body: Bytes)
    ensures FromParts(control, body) == WireFrame(control, body)
  {
    FieldsByDivision(control);
  }

  // ---------------------------------------------------------------------------------------------
  // The frame check, by polynomial division.

  /** Two bytes as one word, high byte first. */
  function Word(hi: bv8, lo: bv8): bv16 {
    0x100 * (hi as bv16) + lo as bv16
  }

  /** The two bytes are the remainder of `covered`, with sixteen zeros behind it and its first sixteen
      bits inverted, by x^16 + x^12 + x^5 + 1. */
  predicate IsFrameCheck(covered: Bytes, hi: bv8, lo: bv8) {
    RegisterBits(Word(hi, lo)) == Remainder(AddLeading(seq(16, _ => true), Bits(covered) + Zeros(16)))
  }

  lemma WordByBits(hi: bv8, lo: bv8)
    ensures Word(hi, lo) == BigEndian(hi, lo)
    ensures ((Word(hi, lo) >> 8) as bv8) == hi && ((Word(hi, lo) & 0xff) as bv8) == lo
  {
  }

  lemma WordIsBigEndian(hi: bv8, lo: bv8, x: bv16)
    ensures Word(hi, lo) == x <==> [hi, lo] == ToBigEndian(x)
  {
    WordByBits(hi, lo);
    if [hi, lo] == ToBigEndian(x) {
      assert [hi, lo][0] == ToBigEndian(x)[0] && [hi, lo][1] == ToBigEndian(x)[1];
      BigEndianRoundTrip(x);
    }
  }

  /** The masks, one by one. */
  lemma MasksListed()
    ensures Mask(0) == 0x8000 && Mask(1) == 0x4000 && Mask(2) == 0x2000 && Mask(3) == 0x1000
    ensures Mask(4) == 0x0800 && Mask(5) == 0x0400 && Mask(6) == 0x0200 && Mask(7) == 0x0100
    ensures Mask(8) == 0x0080 && Mask(9) == 0x0040 && Mask(10) == 0x0020 && Mask(11) == 0x0010
    ensures Mask(12) == 0x0008 && Mask(13) == 0x0004 && Mask(14) == 0x0002 && Mask(15) == 0x0001
  {
  }

  lemma SameEverywhere(x: bv16, y: bv16)
    requires Bit(x, 0x8000) == Bit(y, 0x8000) && Bit(x, 0x4000) == Bit(y, 0x4000)
    requires Bit(x, 0x2000) == Bit(y, 0x2000) && Bit(x, 0x1000) == Bit(y, 0x1000)
    requires Bit(x, 0x0800) == Bit(y, 0x0800) && Bit(x, 0x0400) == Bit(y, 0x0400)
    requires Bit(x, 0x0200) == Bit(y, 0x0200) && Bit(x, 0x0100) == Bit(y, 0x0100)
    requires Bit(x, 0x0080) == Bit(y, 0x0080) && Bit(x, 0x0040) == Bit(y, 0x0040)
    requires Bit(x, 0x0020) == Bit(y, 0x0020) && Bit(x, 0x0010) == Bit(y, 0x0010)
    requires Bit(x, 0x0008) == Bit(y, 0x0008) && Bit(x, 0x0004) == Bit(y, 0x0004)
    requires Bit(x, 0x0002) == Bit(y, 0x0002) && Bit(x, 0x0001) == Bit(y, 0x0001)
    ensures x == y
  {
  }

  lemma SameBits(x: bv16, y: bv16)
    requires forall i :: 0 <= i < 16 ==> Bit(x, Mask(i)) == Bit(y, Mask(i))
    ensures x == y
  {
    MasksListed();
    SameEverywhere(x, y);
  }

  lemma RegisterBitsTell(x: bv16, y: bv16)
    ensures RegisterBits(x) == RegisterBits(y) <==> x == y
  {
    if RegisterBits(x) == RegisterBits(y) {
      forall i | 0 <= i < 16 ensures Bit(x, Mask(i)) == Bit(y, Mask(i)) {
        assert RegisterBits(x)[i] == RegisterBits(y)[i];
      }
      SameBits(x, y);
    }
  }

  lemma FrameCheckExactly(covered: Bytes, hi: bv8, lo: bv8)
    ensures IsFrameCheck(covered, hi, lo) <==> [hi, lo] == ToBigEndian(Crc16All(covered))
    ensures IsFrameCheck(covered, hi, lo) <==> BigEndian(hi, lo) == Crc16All(covered)
  {
    CrcIsRemainder(covered);
    RegisterBitsTell(Word(hi, lo), Crc16All(covered));
    WordByBits(hi, lo);
    WordIsBigEndian(hi, lo, Crc16All(covered));
  }

  // ---------------------------------------------------------------------------------------------
  // Whole lines.

  /** Escaping, with the six bytes that need it. */
  function Escaped(bytes: Bytes): Bytes {
    if bytes == [] then []
    else
      (if bytes[0] in [0x11, 0x13, 0x18, 0x1a, 0x7d, 0x7e] then [0x7d, bytes[0] ^ 0x20] else [bytes[0]])
      + Escaped(bytes[1..])
  }

  lemma EscapedByLiterals(b: bv8)
    ensures IsReserved(b) <==> b in [0x11, 0x13, 0x18, 0x1a, 0x7d, 0x7e]
    ensures ESCAPE == 0x7d && FLAG == 0x7e && Flip(b) == b ^ 0x20
  {
  }

  lemma {:induction false} StuffedByLiterals(bytes: Bytes)
    ensures Stuff(bytes) == Escaped(bytes)
  {
    if bytes != [] {
      EscapedByLiterals(bytes[0]);
      StuffedByLiterals(bytes[1..]);
    }
  }

  /** `field` is what goes out for the frame behind its control byte: the payload with the keystream
      added, or the two bytes of a report, or nothing. */
  predicate IsField(field: Bytes, frame: AshFrame) {
    match frame
    case Data(_, _, _, payload) => |field| == |payload| && IsKeystream(XorBytes(field, payload))
    case RstAck(version, code) => field == [version, code]
    case Error(version, code) => field == [version, code]
    case _ => field == []
  }

  /** `line` is the frame's control byte, field and frame check, escaped, and then 0x7e. */
  ghost predicate IsLineOf(line: Bytes, frame: AshFrame) {
    exists field: Bytes, hi: bv8, lo: bv8 ::
      && IsField(field, frame) && |field| <= 130
      && IsFrameCheck([WireControl(frame)] + field, hi, lo)
      && line == Escaped([WireControl(frame)] + field + [hi, lo]) + [0x7e]
  }

  lemma FieldExactly(frame: AshFrame, field: Bytes)
    ensures IsField(field, frame) <==> [WireControl(frame)] + field == Covered(frame)
  {
    ControlByArithmetic(frame);
    var covered := Covered(frame);
    assert covered[1..] == if frame.Data? then Randomised(frame.Body()) else frame.Body();
    assert ([WireControl(frame)] + field)[1..] == field;
    if frame.Data? {
      WhitenedExactly(frame.payload, field);
    }
  }

  lemma EncodedIsLine(frame: AshFrame)
    requires Encoded(frame).Ok?
    ensures IsLineOf(Encoded(frame).value, frame)
  {
    var covered := Covered(frame);
    var field := covered[1..];
    var crc := ToBigEndian(Crc16All(covered));
    assert [crc[0], crc[1]] == crc;
    ControlByArithmetic(frame);
    assert [WireControl(frame)] + field == covered;
    FieldExactly(frame, field);
    FrameCheckExactly(covered, crc[0], crc[1]);
    StuffedByLiterals(Unstuffed(frame));
    EscapedByLiterals(0);
  }

  lemma LineIsEncoded(frame: AshFrame, field: Bytes, hi: bv8, lo: bv8)
    requires IsField(field, frame) && |field| <= 130 && IsFrameCheck([WireControl(frame)] + field, hi, lo)
    ensures Encoded(frame) == Ok(Escaped([WireControl(frame)] + field + [hi, lo]) + [0x7e])
  {
    FieldExactly(frame, field);
    FrameCheckExactly(Covered(frame), hi, lo);
    StuffedByLiterals(Unstuffed(frame));
    EscapedByLiterals(0);
  }

  /** There is a line unless a data field exceeds 130 bytes. */
  lemma UnencodableExactly(frame: AshFrame)
    ensures Encoded(frame).Err? <==> frame.Data? && |frame.payload| > 130
    ensures Encoded(frame).Err? ==> Encoded(frame) == Err(TooLong(|frame.payload| + 3, 133))
  {
  }

  /** The encoder writes a line if and only if it is the frame's line in this sense. */
  lemma EncodedExactly(frame: AshFrame, line: Bytes)
    ensures Encoded(frame) == Ok(line) <==> IsLineOf(line, frame)
  {
    if Encoded(frame) == Ok(line) {
      EncodedIsLine(frame);
    }
    if IsLineOf(line, frame) {
      var field, hi, lo :| && IsField(field, frame) && |field| <= 130
                           && IsFrameCheck([WireControl(frame)] + field, hi, lo)
                           && line == Escaped([WireControl(frame)] + field + [hi, lo]) + [0x7e];
      LineIsEncoded(frame, field, hi, lo);
    }
  }

  // ---------------------------------------------------------------------------------------------
  // The receiver's side.

  /** What arrives behind a control byte for this body: a data field has the keystream added. */
  predicate Carries(control: bv8, field: Bytes, body: Bytes) {
    if control < 0x80 then |body| == |field| && IsKeystream(XorBytes(field, body)) else body == field
  }

  /** `bytes` are a control byte, a field and a frame check that say `frame`. */
  ghost predicate Says(bytes: Bytes, frame: AshFrame) {
    var n := |bytes| - 2;
    && n >= 1
    && IsFrameCheck(bytes[..n], bytes[n], bytes[n + 1])
    && exists body: Bytes :: Carries(bytes[0], bytes[1..n], body) && WireFrame(bytes[0], body) == Ok(frame)
  }

  lemma UnwhitenedExactly(field: Bytes, body: Bytes)
    ensures body == Randomised(field) <==> |body| == |field| && IsKeystream(XorBytes(field, body))
  {
    if body == Randomised(field) {
      RandomisedInvolution(field);
      WhitenedExactly(body, field);
    } else if |body| == |field| && IsKeystream(XorBytes(field, body)) {
      WhitenedExactly(body, field);
      RandomisedInvolution(body);
    }
  }

  /** The body that the field carries. */
  function Uncovered(control: bv8, field: Bytes): Bytes {
    if control < 0x80 then Randomised(field) else field
  }

  lemma UncoveredExactly(control: bv8, field: Bytes, body: Bytes)
    ensures Carries(control, field, body) <==> body == Uncovered(control, field)
  {
    UnwhitenedExactly(field, body);
  }

  /** The check, put with the frame check and the numbers of the control byte. */
  lemma CheckedInNumbers(bytes: Bytes)
    requires |bytes| >= 3
    ensures var n := |bytes| - 2;
            Checked(bytes)
            == if !IsFrameCheck(bytes[..n], bytes[n], bytes[n + 1]) then
                 Some(Rejected(BadCrc(Crc16All(bytes[..n]), Word(bytes[n], bytes[n + 1]))))
               else match WireFrame(bytes[0], Uncovered(bytes[0], bytes[1..n]))
                    case Ok(frame) => Some(Frame(frame))
                    case Err(error) => Some(Rejected(error))
  {
    var n := |bytes| - 2;
    var covered := bytes[..n];
    assert covered[1..] == bytes[1..n] && covered[0] == bytes[0];
    FrameCheckExactly(covered, bytes[n], bytes[n + 1]);
    WordByBits(bytes[n], bytes[n + 1]);
    FieldsByDivision(bytes[0]);
    ParsedByArithmetic(bytes[0], Uncovered(bytes[0], bytes[1..n]));
  }

  /** Between delimiters, unescaped bytes are taken as a frame if and only if they say it. */
  lemma CheckedExactly(bytes: Bytes, frame: AshFrame)
    ensures Checked(bytes) == Some(Frame(frame)) <==> Says(bytes, frame)
  {
    var n := |bytes| - 2;
    if n >= 1 {
      CheckedInNumbers(bytes);
      var body := Uncovered(bytes[0], bytes[1..n]);
      UncoveredExactly(bytes[0], bytes[1..n], body);
      if Says(bytes, frame) {
        var body' :| Carries(bytes[0], bytes[1..n], body') && WireFrame(bytes[0], body') == Ok(frame);
        UncoveredExactly(bytes[0], bytes[1..n], body');
      }
    }
  }

  /** What is refused instead, and why: nothing between delimiters is nothing, one or two bytes are too
      short, then comes the frame check, and last the length of the field. */
  lemma RefusedExactly(bytes: Bytes)
    ensures Checked(bytes) == None <==> bytes == []
    ensures |bytes| in {1, 2} ==> Checked(bytes) == Some(Rejected(TooShort(|bytes|, 3)))
    ensures |bytes| >= 3 ==>
              var n := |bytes| - 2;
              var field := bytes[1..n];
              var refused := Checked(bytes);
              if !IsFrameCheck(bytes[..n], bytes[n], bytes[n + 1]) then
                refused == Some(Rejected(BadCrc(Crc16All(bytes[..n]), Word(bytes[n], bytes[n + 1]))))
              else if bytes[0] < 0x80 then
                |field| > 128 ==> refused == Some(Rejected(TooLong(|field|, 128)))
              else
                WireFrame(bytes[0], field).Err? ==>
                  refused == Some(Rejected(InvalidControl(bytes[0], |field|)))
  {
    if |bytes| >= 3 {
      CheckedInNumbers(bytes);
    }
  }

  // ---------------------------------------------------------------------------------------------
  // What each of the six bytes does, in any state of the decoder and after any bytes.

  lemma FlowControlByLiterals(p: Partial, s: Bytes)
    ensures Fed(p, s + [0x11]) == Fed(p, s) == Fed(p, s + [0x13])
  {
    FedLast(p, s, 0x11);
    FedLast(p, s, 0x13);
    assert Fed(p, s).1 + [] == Fed(p, s).1;
  }

  lemma CancelByLiteral(p: Partial, s: Bytes)
    ensures Fed(p, s + [0x1a]) == (EMPTY, Fed(p, s).1)
  {
    FedLast(p, s, 0x1a);
    assert Fed(p, s).1 + [] == Fed(p, s).1;
  }

  lemma SpoiltByLiteral(p: Partial, s: Bytes)
    ensures Fed(p, s + [0x18]) == (Fed(p, s).0.(dropping := Some(Substituted)), Fed(p, s).1)
  {
    FedLast(p, s, 0x18);
    assert Fed(p, s).1 + [] == Fed(p, s).1;
  }

  lemma SubstituteByLiteral(p: Partial, s: Bytes)
    ensures Fed(p, s + [0x18] + [0x7e]) == (EMPTY, Fed(p, s).1 + [Rejected(Substituted)])
  {
    SpoiltByLiteral(p, s);
    FedLast(p, s + [0x18], 0x7e);
  }

  lemma EscapeByLiteral(p: Partial, s: Bytes, b: bv8)
    requires b !in [0x11, 0x13, 0x18, 0x1a, 0x7d, 0x7e] && |Fed(p, s).0.bytes| < 133
    ensures Fed(p, s + [0x7d] + [b]).0.bytes == Fed(p, s).0.bytes + [b ^ 0x20]
  {
    FedLast(p, s, 0x7d);
    FedLast(p, s + [0x7d], b);
  }
}
