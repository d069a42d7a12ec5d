/** EZSP frame headers, in both formats. */
module EzspFrames {
  import opened Basics
  import opened EzspCodec

  const VERSION: FrameId := 0x0000
  const ADD_ENDPOINT: FrameId := 0x0002
  const SEND_UNICAST: FrameId := 0x0034
  const SEND_BROADCAST: FrameId := 0x0036
  const SEND_MULTICAST: FrameId := 0x0038
  const STACK_STATUS_HANDLER: FrameId := 0x0019
  const TRUST_CENTER_JOIN_HANDLER: FrameId := 0x0024
  const MESSAGE_SENT_HANDLER: FrameId := 0x003f
  const INCOMING_MESSAGE_HANDLER: FrameId := 0x0045

  const MAX_FRAME_LENGTH := 218

  datatype HeaderFormat = Legacy | Extended
  {
    function ByteLen(): nat {
      if Legacy? then 3 else 5
    }
  }

  datatype Direction = Command | Response

  datatype FrameControl = FrameControl(
    direction: Direction,
    isCallback: bool,
    callbackPending: bool,
    overflow: bool,
    truncated: bool,
    rawLow: bv8)

  datatype EzspFrame = EzspFrame(sequence: u8, control: FrameControl, frameId: FrameId, parameters: Bytes)

  predicate FitsLegacy(id: FrameId) {
    id <= 0xff
  }

  function LowByte(id: FrameId): bv8 {
    (id % 256) as bv8
  }

  function HighByte(id: FrameId): bv8 {
    (id / 256) as bv8
  }

  function IdOf(lo: bv8, hi: bv8): FrameId {
    lo as int + 256 * (hi as int)
  }

  function FromLowByte(low: bv8): FrameControl {
    FrameControl(
      if low & 0x80 == 0 then Command else Response,
      low & 0x10 != 0,
      low & 0x04 != 0,
      low & 0x01 != 0,
      low & 0x02 != 0,
      low)
  }

  /** The header of an outgoing command. */
  function Header(sequence: u8, id: FrameId, format: HeaderFormat): Result<Bytes, EzspError> {
    match format
    case Legacy =>
      if !FitsLegacy(id) then Err(MalformedHeader) else Ok([sequence as bv8, 0x00, LowByte(id)])
    case Extended =>
      Ok([sequence as bv8, 0x00, 0x01, LowByte(id), HighByte(id)])
  }

  method WriteHeader(out: Writer, sequence: u8, id: FrameId, format: HeaderFormat)
    returns (r: Result<(), EzspError>)
    modifies out`bytes
    ensures match Header(sequence, id, format)
            case Ok(header) => r == Ok(()) && out.bytes == old(out.bytes) + header
            case Err(error) => r == Err(error)
  {
    out.U8(sequence as bv8);
    match format {
      case Legacy =>
        if !FitsLegacy(id) {
          return Err(MalformedHeader);
        }
        out.U8(0x00);
        out.U8(LowByte(id));
      case Extended =>
        out.U8(0x00);
        out.U8(0x01);
        out.U8(LowByte(id));
        out.U8(HighByte(id));
    }
    r := Ok(());
  }

  function Parse(bytes: Bytes, format: HeaderFormat): Result<EzspFrame, EzspError> {
    if |bytes| > MAX_FRAME_LENGTH then
      Err(FrameTooLong(|bytes|, MAX_FRAME_LENGTH))
    else if |bytes| < format.ByteLen() then
      Err(TruncatedFrame(format.ByteLen(), |bytes|))
    else
      var id := if format.Legacy? then IdOf(bytes[2], 0) else IdOf(bytes[3], bytes[4]);
      Ok(EzspFrame(bytes[0] as int, FromLowByte(bytes[1]), id, bytes[format.ByteLen()..]))
  }

  lemma IdRoundTrip(id: FrameId)
    ensures IdOf(LowByte(id), HighByte(id)) == id
    ensures FitsLegacy(id) ==> IdOf(LowByte(id), 0) == id
  {
    LengthByte(id % 256);
    LengthByte(id / 256);
  }

  /** A request is parsed back into its own sequence number, id and body exactly when it can be
      written and fits 218 bytes. */
  lemma RequestParsesBack(sequence: u8, id: FrameId, format: HeaderFormat, body: Bytes)
    ensures var header := Header(sequence, id, format);
            (header.Ok? && Parse(header.value + body, format)
                           == Ok(EzspFrame(sequence, FromLowByte(0x00), id, body)))
            <==> (format.Extended? || FitsLegacy(id)) && (if format.Legacy? then 3 else 5) + |body| <= 218
  {
    LengthByte(sequence);
    if format.Extended? || FitsLegacy(id) {
      var bytes := Header(sequence, id, format).value + body;
      assert bytes[format.ByteLen()..] == body;
      IdRoundTrip(id);
    }
  }
}
