/** Asynchronous callbacks. */
module Callbacks {
  import opened Basics
  import opened EzspCodec
  import opened EzspFrames
  import opened Aps

  datatype Callback =
    | StackStatus(status: bv32)
    | TrustCenterJoin(nodeId: bv16, eui64: bv64, deviceUpdate: bv8, decision: bv8, parentNodeId: bv16)
    | IncomingMessage(messageType: bv8, apsFrame: ApsFrame, lastHopLqi: bv8, lastHopRssi: int,
                      sender: bv16, bindingIndex: bv8, addressIndex: bv8, payload: Bytes)
    | MessageSent(messageType: bv8, indexOrDestination: bv16, apsFrame: ApsFrame, messageTag: bv16,
                  status: bv32, payload: Bytes)
    | Unknown(frameId: FrameId, parameters: Bytes)
  {
    function Id(): FrameId {
      match this
      case StackStatus(_) => STACK_STATUS_HANDLER
      case TrustCenterJoin(_, _, _, _, _) => TRUST_CENTER_JOIN_HANDLER
      case IncomingMessage(_, _, _, _, _, _, _, _) => INCOMING_MESSAGE_HANDLER
      case MessageSent(_, _, _, _, _, _) => MESSAGE_SENT_HANDLER
      case Unknown(frameId, _) => frameId
    }
  }

  predicate IsKnown(id: FrameId) {
    id == STACK_STATUS_HANDLER || id == TRUST_CENTER_JOIN_HANDLER ||
    id == MESSAGE_SENT_HANDLER || id == INCOMING_MESSAGE_HANDLER
  }

  /** A byte read as a two's complement `i8`. */
  function Signed(b: bv8): int {
    if b < 0x80 then b as int else b as int - 256
  }

  function Unsigned(n: int): bv8
    requires -128 <= n < 128
  {
    (if n < 0 then n + 256 else n) as bv8
  }

  /** The message tag has the width of the send command's: one byte below version 14. */
  function TakeTag(s: Bytes, version: ProtocolVersion): Parsed<bv16> {
    if version.HasWideMessageTag() then TakeU16(s)
    else
      var (narrow, s) :- TakeU8(s);
      Ok((narrow as bv16, s))
  }

  function TakeStackStatus(s: Bytes, version: ProtocolVersion): Parsed<Callback> {
    var (status, s) :- TakeStatus(s, version);
    Ok((StackStatus(status), s))
  }

  function TakeTrustCenterJoin(s: Bytes): Parsed<Callback> {
    var (nodeId, s) :- TakeU16(s);
    var (eui64, s) :- TakeU64(s);
    var (deviceUpdate, s) :- TakeU8(s);
    var (decision, s) :- TakeU8(s);
    var (parentNodeId, s) :- TakeU16(s);
    Ok((TrustCenterJoin(nodeId, eui64, deviceUpdate, decision, parentNodeId), s))
  }

  function TakeMessageSent(s: Bytes, version: ProtocolVersion): Parsed<Callback> {
    var (messageType, s) :- TakeU8(s);
    var (indexOrDestination, s) :- TakeU16(s);
    var (apsFrame, s) :- TakeAps(s);
    var (messageTag, s) :- TakeTag(s, version);
    var (status, s) :- TakeStatus(s, version);
    var (payload, s) :- TakeLengthPrefixed(s);
    Ok((MessageSent(messageType, indexOrDestination, apsFrame, messageTag, status, payload), s))
  }

  function TakeIncomingMessage(s: Bytes): Parsed<Callback> {
    var (messageType, s) :- TakeU8(s);
    var (apsFrame, s) :- TakeAps(s);
    var (lastHopLqi, s) :- TakeU8(s);
    var (rssi, s) :- TakeU8(s);
    var (sender, s) :- TakeU16(s);
    var (bindingIndex, s) :- TakeU8(s);
    var (addressIndex, s) :- TakeU8(s);
    var (payload, s) :- TakeLengthPrefixed(s);
    Ok((IncomingMessage(messageType, apsFrame, lastHopLqi, Signed(rssi), sender, bindingIndex,
                        addressIndex, payload), s))
  }

  /** The callback `id` at the front of `s`, and the bytes after it. */
  function TakeCallback(id: FrameId, s: Bytes, version: ProtocolVersion): Parsed<Callback> {
    if id == STACK_STATUS_HANDLER then TakeStackStatus(s, version)
    else if id == TRUST_CENTER_JOIN_HANDLER then TakeTrustCenterJoin(s)
    else if id == MESSAGE_SENT_HANDLER then TakeMessageSent(s, version)
    else if id == INCOMING_MESSAGE_HANDLER then TakeIncomingMessage(s)
    else Ok((Unknown(id, s), []))
  }

  /** Bytes after a known callback are ignored. */
  function Decoded(id: FrameId, parameters: Bytes, version: ProtocolVersion): Result<Callback, EzspError> {
    var (callback, _) :- TakeCallback(id, parameters, version);
    Ok(callback)
  }

  method DecodeTag(input: Reader) returns (r: Result<bv16, EzspError>)
    requires input.Valid()
    modifies input`position
    ensures input.Follows(r, TakeTag(old(input.Rest()), input.version))
  {
    if input.version.HasWideMessageTag() {
      r := input.U16();
    } else {
      var narrow :- input.U8();
      r := Ok(narrow as bv16);
    }
  }

  method DecodeTrustCenterJoin(input: Reader) returns (r: Result<Callback, EzspError>)
    requires input.Valid()
    modifies input`position
    ensures input.Follows(r, TakeTrustCenterJoin(old(input.Rest())))
  {
    var nodeId :- input.U16();
    var eui64 :- input.U64();
    var deviceUpdate :- input.U8();
    var decision :- input.U8();
    var parentNodeId :- input.U16();
    r := Ok(TrustCenterJoin(nodeId, eui64, deviceUpdate, decision, parentNodeId));
  }

  method DecodeMessageSent(input: Reader) returns (r: Result<Callback, EzspError>)
    requires input.Valid()
    modifies input`position
    ensures input.Follows(r, TakeMessageSent(old(input.Rest()), input.version))
  {
    var messageType :- input.U8();
    var indexOrDestination :- input.U16();
    var apsFrame :- DecodeAps(input);
    var messageTag :- DecodeTag(input);
    var status :- DecodeStatus(input);
    var payload :- input.LengthPrefixed();
    r := Ok(MessageSent(messageType, indexOrDestination, apsFrame, messageTag, status, payload));
  }

  method DecodeIncomingMessage(input: Reader) returns (r: Result<Callback, EzspError>)
    requires input.Valid()
    modifies input`position
    ensures input.Follows(r, TakeIncomingMessage(old(input.Rest())))
  {
    var messageType :- input.U8();
    var apsFrame :- DecodeAps(input);
    var lastHopLqi :- input.U8();
    var rssi :- input.U8();
    var sender :- input.U16();
    var bindingIndex :- input.U8();
    var addressIndex :- input.U8();
    var payload :- input.LengthPrefixed();
    r := Ok(IncomingMessage(messageType, apsFrame, lastHopLqi, Signed(rssi), sender, bindingIndex,
                            addressIndex, payload));
  }

  method Decode(id: FrameId, parameters: Bytes, version: ProtocolVersion)
    returns (r: Result<Callback, EzspError>)
    ensures r == Decoded(id, parameters, version)
  {
    var input := new Reader(parameters, version);
    if id == STACK_STATUS_HANDLER {
      var status :- DecodeStatus(input);
      r := Ok(StackStatus(status));
    } else if id == TRUST_CENTER_JOIN_HANDLER {
      r := DecodeTrustCenterJoin(input);
    } else if id == MESSAGE_SENT_HANDLER {
      r := DecodeMessageSent(input);
    } else if id == INCOMING_MESSAGE_HANDLER {
      r := DecodeIncomingMessage(input);
    } else {
      r := Ok(Unknown(id, parameters));
    }
  }

  // ---------------------------------------------------------------------------------------------
  // The reference printer, and the callbacks a version can carry.

  function PutTag(tag: bv16, version: ProtocolVersion, tail: Bytes): Bytes {
    if version.HasWideMessageTag() then PutU16(tag, tail) else PutU8(Low16(tag), tail)
  }

  predicate TagFits(tag: bv16, version: ProtocolVersion) {
    version.HasWideMessageTag() || tag <= 0xff
  }

  predicate Fits(c: Callback, version: ProtocolVersion) {
    match c
    case StackStatus(status) => StatusFits(status, version)
    case TrustCenterJoin(_, _, _, _, _) => true
    case IncomingMessage(_, _, _, rssi, _, _, _, payload) => -128 <= rssi < 128 && |payload| < 256
    case MessageSent(_, _, _, tag, status, payload) =>
      TagFits(tag, version) && StatusFits(status, version) && |payload| < 256
    case Unknown(_, _) => false
  }

  /** The bytes of an incoming message whose signal strength is written as `rssi`. */
  function PutIncoming(c: Callback, rssi: bv8, tail: Bytes): Bytes
    requires c.IncomingMessage? && |c.payload| < 256
  {
    PutU8(c.messageType, PutAps(c.apsFrame, PutU8(c.lastHopLqi, PutU8(rssi, PutU16(c.sender,
      PutU8(c.bindingIndex, PutU8(c.addressIndex, PutLengthPrefixed(c.payload, tail))))))))
  }

  function PutCallback(c: Callback, version: ProtocolVersion, tail: Bytes): Bytes
    requires Fits(c, version)
  {
    match c
    case StackStatus(status) => PutStatus(status, version, tail)
    case TrustCenterJoin(nodeId, eui64, deviceUpdate, decision, parentNodeId) =>
      PutU16(nodeId, PutU64(eui64, PutU8(deviceUpdate, PutU8(decision, PutU16(parentNodeId, tail)))))
    case IncomingMessage(messageType, aps, lqi, rssi, sender, binding, address, payload) =>
      PutIncoming(c, Unsigned(rssi), tail)
    case MessageSent(messageType, index, aps, tag, status, payload) =>
      PutU8(messageType, PutU16(index, PutAps(aps, PutTag(tag, version, PutStatus(status, version,
        PutLengthPrefixed(payload, tail))))))
  }

  lemma NarrowTag(b: bv8, tag: bv16)
    ensures Low16(b as bv16) == b && b as bv16 <= 0xff
    ensures tag <= 0xff ==> Low16(tag) as bv16 == tag
  {
  }

  lemma TagPrinted(tag: bv16, version: ProtocolVersion, tail: Bytes)
    requires TagFits(tag, version)
    ensures TakeTag(PutTag(tag, version, tail), version) == Ok((tag, tail))
  {
    NarrowTag(0, tag);
    U16Printed(tag, tail);
    U8Printed(Low16(tag), tail);
  }

  lemma TagParsed(s: Bytes, version: ProtocolVersion)
    requires TakeTag(s, version).Ok?
    ensures var (tag, rest) := TakeTag(s, version).value;
            TagFits(tag, version) && s == PutTag(tag, version, rest)
  {
    if version.HasWideMessageTag() {
      U16Parsed(s);
    } else {
      NarrowTag(s[0], 0);
      U8Parsed(s);
    }
  }

  lemma SignRoundTrip(b: bv8, n: int)
    ensures -128 <= Signed(b) < 128 && Unsigned(Signed(b)) == b
    ensures -128 <= n < 128 ==> Signed(Unsigned(n)) == n
  {
    LengthByteInverse(b);
    if -128 <= n < 128 {
      LengthByte(if n < 0 then n + 256 else n);
    }
  }

  /** Decoding `s` gives `c` and leaves `tail`. */
  predicate Reads(c: Callback, s: Bytes, version: ProtocolVersion, tail: Bytes) {
    TakeCallback(c.Id(), s, version) == Ok((c, tail))
  }

  lemma TrustCenterJoinPrinted(c: Callback, version: ProtocolVersion, tail: Bytes)
    requires c.TrustCenterJoin? && Fits(c, version)
    ensures Reads(c, PutCallback(c, version, tail), version, tail)
  {
    var s4 := PutU16(c.parentNodeId, tail);
    var s3 := PutU8(c.decision, s4);
    var s2 := PutU8(c.deviceUpdate, s3);
    var s1 := PutU64(c.eui64, s2);
    U16Printed(c.nodeId, s1);
    U64Printed(c.eui64, s2);
    U8Printed(c.deviceUpdate, s3);
    U8Printed(c.decision, s4);
    U16Printed(c.parentNodeId, tail);
  }

  lemma MessageSentPrinted(c: Callback, version: ProtocolVersion, tail: Bytes)
    requires c.MessageSent? && Fits(c, version)
    ensures Reads(c, PutCallback(c, version, tail), version, tail)
  {
    var s5 := PutLengthPrefixed(c.payload, tail);
    var s4 := PutStatus(c.status, version, s5);
    var s3 := PutTag(c.messageTag, version, s4);
    var s2 := PutAps(c.apsFrame, s3);
    var s1 := PutU16(c.indexOrDestination, s2);
    U8Printed(c.messageType, s1);
    U16Printed(c.indexOrDestination, s2);
    ApsPrinted(c.apsFrame, s3);
    TagPrinted(c.messageTag, version, s4);
    StatusPrinted(c.status, version, s5);
    LengthPrefixedPrinted(c.payload, tail);
  }

  lemma IncomingFieldsPrinted(c: Callback, rssi: bv8, tail: Bytes)
    requires c.IncomingMessage? && |c.payload| < 256
    ensures TakeIncomingMessage(PutIncoming(c, rssi, tail)) == Ok((c.(lastHopRssi := Signed(rssi)), tail))
  {
    var s7 := PutLengthPrefixed(c.payload, tail);
    var s6 := PutU8(c.addressIndex, s7);
    var s5 := PutU8(c.bindingIndex, s6);
    var s4 := PutU16(c.sender, s5);
    var s3 := PutU8(rssi, s4);
    var s2 := PutU8(c.lastHopLqi, s3);
    var s1 := PutAps(c.apsFrame, s2);
    U8Printed(c.messageType, s1);
    ApsPrinted(c.apsFrame, s2);
    U8Printed(c.lastHopLqi, s3);
    U8Printed(rssi, s4);
    U16Printed(c.sender, s5);
    U8Printed(c.bindingIndex, s6);
    U8Printed(c.addressIndex, s7);
    LengthPrefixedPrinted(c.payload, tail);
  }

  lemma IncomingMessagePrinted(c: Callback, version: ProtocolVersion, tail: Bytes)
    requires c.IncomingMessage? && Fits(c, version)
    ensures Reads(c, PutCallback(c, version, tail), version, tail)
  {
    var rssi := Unsigned(c.lastHopRssi);
    SignRoundTrip(0, c.lastHopRssi);
    IncomingFieldsPrinted(c, rssi, tail);
  }

  lemma StackStatusPrinted(c: Callback, version: ProtocolVersion, tail: Bytes)
    requires c.StackStatus? && Fits(c, version)
    ensures Reads(c, PutCallback(c, version, tail), version, tail)
  {
    StatusPrinted(c.status, version, tail);
  }

  /** Printing a callback and decoding it gives it back, whatever follows. */
  lemma CallbackPrinted(c: Callback, version: ProtocolVersion, tail: Bytes)
    requires Fits(c, version)
    ensures Reads(c, PutCallback(c, version, tail), version, tail)
  {
    if c.StackStatus? {
      StackStatusPrinted(c, version, tail);
    } else if c.TrustCenterJoin? {
      TrustCenterJoinPrinted(c, version, tail);
    } else if c.IncomingMessage? {
      IncomingMessagePrinted(c, version, tail);
    } else {
      MessageSentPrinted(c, version, tail);
    }
  }

  /** `parsed`, got from `s`, is what the printer of its result would have written. */
  predicate IsPrinted(id: FrameId, s: Bytes, version: ProtocolVersion, parsed: Parsed<Callback>) {
    parsed.Ok? ==>
      var (c, rest) := parsed.value;
      c.Id() == id && Fits(c, version) && s == PutCallback(c, version, rest)
  }

  lemma StackStatusParsed(s: Bytes, version: ProtocolVersion)
    ensures IsPrinted(STACK_STATUS_HANDLER, s, version, TakeStackStatus(s, version))
  {
    if TakeStackStatus(s, version).Ok? {
      StatusParsed(s, version);
    }
  }

  lemma TrustCenterJoinParsed(s: Bytes, version: ProtocolVersion)
    ensures IsPrinted(TRUST_CENTER_JOIN_HANDLER, s, version, TakeTrustCenterJoin(s))
  {
    if TakeTrustCenterJoin(s).Ok? {
      U16Parsed(s);
      var s1 := TakeU16(s).value.1;
      U64Parsed(s1);
      var s2 := TakeU64(s1).value.1;
      U8Parsed(s2);
      var s3 := TakeU8(s2).value.1;
      U8Parsed(s3);
      U16Parsed(TakeU8(s3).value.1);
    }
  }

  lemma MessageSentParsed(s: Bytes, version: ProtocolVersion)
    ensures IsPrinted(MESSAGE_SENT_HANDLER, s, version, TakeMessageSent(s, version))
  {
    if TakeMessageSent(s, version).Ok? {
      U8Parsed(s);
      var s1 := TakeU8(s).value.1;
      U16Parsed(s1);
      var s2 := TakeU16(s1).value.1;
      ApsParsed(s2);
      var s3 := TakeAps(s2).value.1;
      TagParsed(s3, version);
      var s4 := TakeTag(s3, version).value.1;
      StatusParsed(s4, version);
      LengthPrefixedParsed(TakeStatus(s4, version).value.1);
    }
  }

  /** The first half of an incoming message: what it is and how it was heard. */
  predicate IncomingHead(s: Bytes, c: Callback) {
    && |s| >= 14 && c.IncomingMessage? && c.lastHopRssi == Signed(s[13])
    && s == PutU8(c.messageType, PutAps(c.apsFrame, PutU8(c.lastHopLqi, PutU8(s[13], s[14..]))))
  }

  /** The second half: who sent it, and the payload. */
  predicate IncomingTail(s: Bytes, c: Callback, rest: Bytes) {
    && |s| >= 14 && c.IncomingMessage? && |c.payload| < 256
    && s[14..] == PutU16(c.sender, PutU8(c.bindingIndex, PutU8(c.addressIndex, PutLengthPrefixed(c.payload, rest))))
  }

  lemma IncomingHeadParsed(s: Bytes)
    requires TakeIncomingMessage(s).Ok?
    ensures IncomingHead(s, TakeIncomingMessage(s).value.0)
  {
    U8Parsed(s);
    ApsParsed(s[1..]);
    var s2 := TakeAps(s[1..]).value.1;
    U8Parsed(s2);
    U8Parsed(s2[1..]);
    assert s2 == s[12..];
  }

  lemma IncomingTailParsed(s: Bytes)
    requires TakeIncomingMessage(s).Ok?
    ensures IncomingTail(s, TakeIncomingMessage(s).value.0, TakeIncomingMessage(s).value.1)
  {
    var s4 := TakeAps(s[1..]).value.1[2..];
    assert s4 == s[14..];
    U16Parsed(s4);
    U8Parsed(s4[2..]);
    U8Parsed(s4[2..][1..]);
    LengthPrefixedParsed(s4[2..][1..][1..]);
  }

  lemma IncomingAssembled(s: Bytes, c: Callback, rest: Bytes, version: ProtocolVersion)
    requires IncomingHead(s, c) && IncomingTail(s, c, rest)
    ensures Fits(c, version) && s == PutCallback(c, version, rest)
  {
    SignRoundTrip(s[13], 0);
  }

  lemma IncomingMessageParsed(s: Bytes, version: ProtocolVersion)
    ensures IsPrinted(INCOMING_MESSAGE_HANDLER, s, version, TakeIncomingMessage(s))
  {
    if TakeIncomingMessage(s).Ok? {
      IncomingHeadParsed(s);
      IncomingTailParsed(s);
      var (c, rest) := TakeIncomingMessage(s).value;
      IncomingAssembled(s, c, rest, version);
    }
  }

  /** Whatever a known id's decoder accepts is the printed form of its result and the bytes left. */
  lemma CallbackParsed(id: FrameId, s: Bytes, version: ProtocolVersion)
    requires IsKnown(id)
    ensures IsPrinted(id, s, version, TakeCallback(id, s, version))
  {
    StackStatusParsed(s, version);
    TrustCenterJoinParsed(s, version);
    MessageSentParsed(s, version);
    IncomingMessageParsed(s, version);
  }

  // ---------------------------------------------------------------------------------------------
  // A prefix code.

  lemma LengthPrefixedAppend(payload: Bytes, tail: Bytes, more: Bytes)
    requires |payload| < 256
    ensures PutLengthPrefixed(payload, tail) + more == PutLengthPrefixed(payload, tail + more)
  {
    assert payload + tail + more == payload + (tail + more);
  }

  lemma U8Append(v: bv8, tail: Bytes, more: Bytes)
    ensures PutU8(v, tail) + more == PutU8(v, tail + more)
  {
  }

  lemma U16Append(v: bv16, tail: Bytes, more: Bytes)
    ensures PutU16(v, tail) + more == PutU16(v, tail + more)
  {
  }

  lemma U32Append(v: bv32, tail: Bytes, more: Bytes)
    ensures PutU32(v, tail) + more == PutU32(v, tail + more)
  {
    U16Append(High32(v), tail, more);
    U16Append(Low32(v), PutU16(High32(v), tail), more);
  }

  lemma U64Append(v: bv64, tail: Bytes, more: Bytes)
    ensures PutU64(v, tail) + more == PutU64(v, tail + more)
  {
    U32Append(High64(v), tail, more);
    U32Append(Low64(v), PutU32(High64(v), tail), more);
  }

  lemma ApsAppend(a: ApsFrame, tail: Bytes, more: Bytes)
    ensures PutAps(a, tail) + more == PutAps(a, tail + more)
  {
    ApsBytes(a, tail);
    ApsBytes(a, tail + more);
    assert AddressBytes(a) + DeliveryBytes(a) + tail + more
        == AddressBytes(a) + DeliveryBytes(a) + (tail + more);
  }

  lemma StatusAppend(status: bv32, version: ProtocolVersion, tail: Bytes, more: Bytes)
    ensures PutStatus(status, version, tail) + more == PutStatus(status, version, tail + more)
  {
    U32Append(status, tail, more);
    U8Append((status & 0xff) as bv8, tail, more);
  }

  lemma TagAppend(tag: bv16, version: ProtocolVersion, tail: Bytes, more: Bytes)
    ensures PutTag(tag, version, tail) + more == PutTag(tag, version, tail + more)
  {
    U16Append(tag, tail, more);
    U8Append(Low16(tag), tail, more);
  }

  lemma CallbackAppend(c: Callback, version: ProtocolVersion, tail: Bytes, more: Bytes)
    requires Fits(c, version)
    ensures PutCallback(c, version, tail) + more == PutCallback(c, version, tail + more)
  {
    match c
    case StackStatus(status) => StatusAppend(status, version, tail, more);
    case TrustCenterJoin(nodeId, eui64, deviceUpdate, decision, parentNodeId) =>
      var s4 := PutU16(parentNodeId, tail);
      var s3 := PutU8(decision, s4);
      var s2 := PutU8(deviceUpdate, s3);
      U16Append(parentNodeId, tail, more);
      U8Append(decision, s4, more);
      U8Append(deviceUpdate, s3, more);
      U64Append(eui64, s2, more);
      U16Append(nodeId, PutU64(eui64, s2), more);
    case IncomingMessage(messageType, aps, lqi, rssi, sender, binding, address, payload) =>
      var s7 := PutLengthPrefixed(payload, tail);
      var s6 := PutU8(address, s7);
      var s5 := PutU8(binding, s6);
      var s4 := PutU16(sender, s5);
      var s3 := PutU8(Unsigned(rssi), s4);
      var s2 := PutU8(lqi, s3);
      LengthPrefixedAppend(payload, tail, more);
      U8Append(address, s7, more);
      U8Append(binding, s6, more);
      U16Append(sender, s5, more);
      U8Append(Unsigned(rssi), s4, more);
      U8Append(lqi, s3, more);
      ApsAppend(aps, s2, more);
      U8Append(messageType, PutAps(aps, s2), more);
    case MessageSent(messageType, index, aps, tag, status, payload) =>
      var s5 := PutLengthPrefixed(payload, tail);
      var s4 := PutStatus(status, version, s5);
      var s3 := PutTag(tag, version, s4);
      var s2 := PutAps(aps, s3);
      LengthPrefixedAppend(payload, tail, more);
      StatusAppend(status, version, s5, more);
      TagAppend(tag, version, s4, more);
      ApsAppend(aps, s3, more);
      U16Append(index, s2, more);
      U8Append(messageType, PutU16(index, s2), more);
  }

  predicate OkOrTruncated(parsed: Parsed<Callback>) {
    parsed.Err? ==> parsed.error.TruncatedFrame?
  }

  lemma MessageSentTruncates(s: Bytes, version: ProtocolVersion)
    ensures OkOrTruncated(TakeMessageSent(s, version))
  {
  }

  lemma IncomingMessageTruncates(s: Bytes)
    ensures OkOrTruncated(TakeIncomingMessage(s))
  {
  }

  lemma OthersTruncate(s: Bytes, version: ProtocolVersion)
    ensures OkOrTruncated(TakeStackStatus(s, version)) && OkOrTruncated(TakeTrustCenterJoin(s))
  {
  }

  lemma CallbackTruncates(id: FrameId, s: Bytes, version: ProtocolVersion)
    ensures OkOrTruncated(TakeCallback(id, s, version))
  {
    MessageSentTruncates(s, version);
    IncomingMessageTruncates(s);
    OthersTruncate(s, version);
  }

  /** Bytes added after a decodable string are left over. */
  lemma DecodingIsLocal(id: FrameId, s: Bytes, version: ProtocolVersion, more: Bytes)
    requires IsKnown(id) && TakeCallback(id, s, version).Ok?
    ensures var (c, rest) := TakeCallback(id, s, version).value;
            TakeCallback(id, s + more, version) == Ok((c, rest + more))
  {
    CallbackParsed(id, s, version);
    var (c, rest) := TakeCallback(id, s, version).value;
    CallbackAppend(c, version, rest, more);
    CallbackPrinted(c, version, rest + more);
  }

  /** No strict prefix of a printed callback decodes. */
  lemma StrictPrefixFails(c: Callback, version: ProtocolVersion, n: nat)
    requires Fits(c, version) && n < |PutCallback(c, version, [])|
    ensures var parsed := TakeCallback(c.Id(), PutCallback(c, version, [])[..n], version);
            parsed.Err? && parsed.error.TruncatedFrame?
  {
    var whole := PutCallback(c, version, []);
    var prefix, rest := whole[..n], whole[n..];
    CallbackTruncates(c.Id(), prefix, version);
    CallbackPrinted(c, version, []);
    assert whole == prefix + rest;
    if TakeCallback(c.Id(), prefix, version).Ok? {
      DecodingIsLocal(c.Id(), prefix, version, rest);
      assert false;
    }
  }

  /** At every version, the printed form of a callback followed by anything decodes to it, every
      strict prefix of the printed form is a truncation error, and an unknown id keeps its bytes. */
  lemma DecodingIsPrefixCode(c: Callback, version: ProtocolVersion, tail: Bytes, n: nat)
    ensures Fits(c, version) ==> Decoded(c.Id(), PutCallback(c, version, tail), version) == Ok(c)
    ensures Fits(c, version) && n < |PutCallback(c, version, [])| ==>
              var r := Decoded(c.Id(), PutCallback(c, version, [])[..n], version);
              r.Err? && r.error.TruncatedFrame?
    ensures !IsKnown(c.Id()) ==> Decoded(c.Id(), tail, version) == Ok(Unknown(c.Id(), tail))
  {
    if Fits(c, version) {
      CallbackPrinted(c, version, tail);
      if n < |PutCallback(c, version, [])| {
        StrictPrefixFails(c, version, n);
      }
    }
  }

  lemma AcceptedIsPrinted(id: FrameId, parameters: Bytes, version: ProtocolVersion, c: Callback)
    requires IsKnown(id) && Decoded(id, parameters, version) == Ok(c)
    ensures c.Id() == id && Fits(c, version) && PutCallback(c, version, []) <= parameters
  {
    CallbackParsed(id, parameters, version);
    var rest := TakeCallback(id, parameters, version).value.1;
    CallbackAppend(c, version, [], rest);
    assert [] + rest == rest;
  }

  lemma PrintedIsAccepted(c: Callback, version: ProtocolVersion, parameters: Bytes)
    requires Fits(c, version) && PutCallback(c, version, []) <= parameters
    ensures Decoded(c.Id(), parameters, version) == Ok(c)
  {
    var whole := PutCallback(c, version, []);
    var rest := parameters[|whole|..];
    assert parameters == whole + rest && [] + rest == rest;
    CallbackAppend(c, version, [], rest);
    CallbackPrinted(c, version, rest);
    ReadIsAccepted(c, parameters, version, rest);
  }

  lemma ReadIsAccepted(c: Callback, s: Bytes, version: ProtocolVersion, tail: Bytes)
    requires Reads(c, s, version, tail)
    ensures Decoded(c.Id(), s, version) == Ok(c)
  {
  }

  /** A known id's decoder accepts exactly the printed callbacks of that id with bytes after them. */
  lemma DecoderAcceptsExactlyPrinted(id: FrameId, parameters: Bytes, version: ProtocolVersion, c: Callback)
    requires IsKnown(id)
    ensures Decoded(id, parameters, version) == Ok(c)
            <==> c.Id() == id && Fits(c, version) && PutCallback(c, version, []) <= parameters
  {
    if Decoded(id, parameters, version) == Ok(c) {
      AcceptedIsPrinted(id, parameters, version, c);
    } else if c.Id() == id && Fits(c, version) && PutCallback(c, version, []) <= parameters {
      PrintedIsAccepted(c, version, parameters);
    }
  }
}
