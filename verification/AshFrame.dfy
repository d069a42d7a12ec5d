/** ASH frames, their control byte, and the errors of the ASH layer. */
module AshFrames {
  import opened Basics

  const MAX_DATA_FIELD_LEN := 128
  const SEQUENCE_MODULUS := 8

  const CONTROL_DATA_MASK: bv8 := 0x80
  const CONTROL_SHORT_MASK: bv8 := 0xe0
  const ACK_NUM_MASK: bv8 := 0x07
  const FRAME_NUM_MASK: bv8 := 0x70
  const RETRANSMIT_MASK: bv8 := 0x08
  const NOT_READY_MASK: bv8 := 0x08

  const CONTROL_ACK: bv8 := 0x80
  const CONTROL_NAK: bv8 := 0xa0
  const CONTROL_RST: bv8 := 0xc0
  const CONTROL_RSTACK: bv8 := 0xc1
  const CONTROL_ERROR: bv8 := 0xc2

  datatype AshError =
    | BadCrc(computed: bv16, carried: bv16)
    | TooShort(length: nat, minimum: nat)
    | TooLong(length: nat, maximum: nat)
    | InvalidControl(control: bv8, length: nat)
    | Cancelled
    | Substituted
    | NcpError(version: bv8, code: bv8)
    | NcpReset(version: bv8, code: bv8)
    | ResetFailed
    | OutOfSequence(received: u8, expected: u8)
    | NotConnected
    | Timeout
    | WindowFull(outstanding: nat, limit: nat)
  {
    predicate IsRecoverableByNak() {
      BadCrc? || Substituted?
    }
  }

  datatype AshFrame =
    | Data(frameNum: u8, ackNum: u8, retransmit: bool, payload: Bytes)
    | Ack(ackNum: u8, notReady: bool)
    | Nak(ackNum: u8, notReady: bool)
    | Rst
    | RstAck(version: bv8, resetCode: bv8)
    | Error(version: bv8, errorCode: bv8)
  {
    /** The control byte. */
    function Control(): bv8 {
      match this
      case Data(frameNum, ackNum, retransmit, _) =>
        (LowBits(frameNum) << 4) | (if retransmit then RETRANSMIT_MASK else 0) | LowBits(ackNum)
      case Ack(ackNum, notReady) =>
        CONTROL_ACK | (if notReady then NOT_READY_MASK else 0) | LowBits(ackNum)
      case Nak(ackNum, notReady) =>
        CONTROL_NAK | (if notReady then NOT_READY_MASK else 0) | LowBits(ackNum)
      case Rst => CONTROL_RST
      case RstAck(_, _) => CONTROL_RSTACK
      case Error(_, _) => CONTROL_ERROR
    }

    /** The bytes between the control byte and the CRC. */
    function Body(): Bytes {
      match this
      case Data(_, _, _, payload) => payload
      case RstAck(version, resetCode) => [version, resetCode]
      case Error(version, errorCode) => [version, errorCode]
      case _ => []
    }

    function Acknowledges(): Option<u8> {
      match this
      case Data(_, ackNum, _, _) => Some(ackNum)
      case Ack(ackNum, _) => Some(ackNum)
      case Nak(ackNum, _) => Some(ackNum)
      case _ => None
    }

    /** The same frame with its numbers reduced to the three bits the wire carries. */
    function Reduced(): AshFrame {
      match this
      case Data(frameNum, ackNum, retransmit, payload) =>
        Data(frameNum % 8, ackNum % 8, retransmit, payload)
      case Ack(ackNum, notReady) => Ack(ackNum % 8, notReady)
      case Nak(ackNum, notReady) => Nak(ackNum % 8, notReady)
      case _ => this
    }

    /** Exactly the frames the wire can carry without loss. */
    predicate Portable() {
      && (Data? ==> frameNum < 8 && |payload| <= 128)
      && (Data? || Ack? || Nak? ==> ackNum < 8)
    }
  }

  /** `n % 8` as bits of a control byte. */
  function LowBits(n: u8): bv8 {
    (n % SEQUENCE_MODULUS) as bv8
  }

  /** The three-bit number after `n`. */
  function NextSequence(n: u8): u8 {
    (n + 1) % SEQUENCE_MODULUS
  }

  /** Parses a control byte and a body. */
  function FromParts(control: bv8, body: Bytes): Result<AshFrame, AshError> {
    var invalid := Err(InvalidControl(control, |body|));
    if control & CONTROL_DATA_MASK == 0 then
      if |body| > MAX_DATA_FIELD_LEN then
        Err(TooLong(|body|, MAX_DATA_FIELD_LEN))
      else
        Ok(Data(((control & FRAME_NUM_MASK) >> 4) as int, (control & ACK_NUM_MASK) as int,
                control & RETRANSMIT_MASK != 0, body))
    else if control == CONTROL_RST then
      if body == [] then Ok(Rst) else invalid
    else if control == CONTROL_RSTACK then
      if |body| == 2 then Ok(RstAck(body[0], body[1])) else invalid
    else if control == CONTROL_ERROR then
      if |body| == 2 then Ok(Error(body[0], body[1])) else invalid
    else if body != [] then
      invalid
    else
      var ackNum: u8 := (control & ACK_NUM_MASK) as int;
      var notReady := control & NOT_READY_MASK != 0;
      if control & CONTROL_SHORT_MASK == CONTROL_ACK then Ok(Ack(ackNum, notReady))
      else if control & CONTROL_SHORT_MASK == CONTROL_NAK then Ok(Nak(ackNum, notReady))
      else invalid
  }

  lemma LowBitsRange(n: u8)
    ensures LowBits(n) <= 7 && LowBits(n) as int == n % SEQUENCE_MODULUS
  {
    var m := n % SEQUENCE_MODULUS;
    if m == 0 {} else if m == 1 {} else if m == 2 {} else if m == 3 {}
    else if m == 4 {} else if m == 5 {} else if m == 6 {} else { assert m == 7; }
  }

  lemma LowBitsOfBits(b: bv8)
    requires b <= 7
    ensures 0 <= b as int < SEQUENCE_MODULUS && LowBits(b as int) == b
  {
    if b == 0 {} else if b == 1 {} else if b == 2 {} else if b == 3 {}
    else if b == 4 {} else if b == 5 {} else if b == 6 {} else { assert b == 7; }
  }

  lemma ControlFields(f: bv8, a: bv8, r: bv8)
    requires f <= 7 && a <= 7 && (r == 0 || r == 8)
    ensures var c := (f << 4) | r | a;
            && c & 0x80 == 0 && (c & 0x70) >> 4 == f && c & 0x07 == a && c & 0x08 == r
    ensures var c := 0x80 | r | a;
            && c & 0x80 != 0 && c != 0xc0 && c != 0xc1 && c != 0xc2
            && c & 0xe0 == 0x80 && c & 0x07 == a && c & 0x08 == r
    ensures var c := 0xa0 | r | a;
            && c & 0x80 != 0 && c != 0xc0 && c != 0xc1 && c != 0xc2
            && c & 0xe0 == 0xa0 && c & 0x07 == a && c & 0x08 == r
  {
  }

  /** Printing a frame and parsing it gives the frame with its numbers reduced; only an oversized
      data field is refused. */
  lemma ParsePrinted(f: AshFrame)
    ensures FromParts(f.Control(), f.Body())
            == if f.Data? && |f.payload| > 128
               then Err(TooLong(|f.payload|, 128))
               else Ok(f.Reduced())
  {
    match f
    case Data(frameNum, ackNum, retransmit, payload) =>
      LowBitsRange(frameNum);
      LowBitsRange(ackNum);
      ControlFields(LowBits(frameNum), LowBits(ackNum), if retransmit then 8 else 0);
    case Ack(ackNum, notReady) =>
      LowBitsRange(ackNum);
      ControlFields(0, LowBits(ackNum), if notReady then 8 else 0);
    case Nak(ackNum, notReady) =>
      LowBitsRange(ackNum);
      ControlFields(0, LowBits(ackNum), if notReady then 8 else 0);
    case _ =>
  }

  /** Printing an accepted control byte and body gives both back, except that bit 4 of an ACK or
      NAK control byte is read by nothing and written as zero. */
  lemma PrintParsed(control: bv8, body: Bytes)
    requires FromParts(control, body).Ok?
    ensures var f := FromParts(control, body).value;
            && f.Portable()
            && f.Body() == body
            && f.Control() == if f.Ack? || f.Nak? then control & 0xef else control
  {
    LowBitsOfBits(control & ACK_NUM_MASK);
    LowBitsOfBits((control & FRAME_NUM_MASK) >> 4);
    assert control & 0x80 == 0 ==>
      (((control & 0x70) >> 4) << 4) | (control & 0x08) | (control & 0x07) == control;
    assert control & 0xe0 == 0x80 ==> 0x80 | (control & 0x08) | (control & 0x07) == control & 0xef;
    assert control & 0xe0 == 0xa0 ==> 0xa0 | (control & 0x08) | (control & 0x07) == control & 0xef;
    assert control & 0x08 == if control & 0x08 != 0 then 0x08 else 0;
  }

  /** A frame survives print and parse exactly when its numbers fit three bits and its data field
      fits 128 bytes. */
  lemma RoundTripExactlyWhenPortable(f: AshFrame)
    ensures FromParts(f.Control(), f.Body()) == Ok(f) <==> f.Portable()
  {
    ParsePrinted(f);
  }
}
