/** EZSP fields, headers, responses and callbacks by byte offset: what each byte of a received frame
    means, with the protocol versions, ids and widths as numbers.

    The parsers are shown to read exactly this. Two bytes are the number `lo + 0x100 * hi`. */
module EzspWire {
  import opened Basics
  import opened EzspCodec
  import opened EzspFrames
  import opened Aps
  import opened Callbacks
  import opened Runtimes
  import opened CommandLaws
  import Correlators

  // ---------------------------------------------------------------------------------------------
  // Numbers.

  function Sum16(lo: bv8, hi: bv8): bv16 {
    lo as bv16 + 0x100 * (hi as bv16)
  }

  function Sum32(a: bv8, b: bv8, c: bv8, d: bv8): bv32 {
    a as bv32 + 0x100 * (b as bv32) + 0x1_0000 * (c as bv32) + 0x100_0000 * (d as bv32)
  }

  function Sum64(lo: bv32, hi: bv32): bv64 {
    lo as bv64 + 0x1_0000_0000 * (hi as bv64)
  }

  function Number16(s: Bytes, at: nat): bv16
    requires at + 2 <= |s|
  {
    Sum16(s[at], s[at + 1])
  }

  function Number32(s: Bytes, at: nat): bv32
    requires at + 4 <= |s|
  {
    Sum32(s[at], s[at + 1], s[at + 2], s[at + 3])
  }

  function Number64(s: Bytes, at: nat): bv64
    requires at + 8 <= |s|
  {
    Sum64(Number32(s, at), Number32(s, at + 4))
  }

  lemma Joined16(a: bv8, b: bv8)
    ensures Join16(a, b) == Sum16(a, b)
  {
  }

  lemma Joined32(a: bv8, b: bv8, c: bv8, d: bv8)
    ensures Join32(Join16(a, b), Join16(c, d)) == Sum32(a, b, c, d)
  {
  }

  lemma Joined64(lo: bv32, hi: bv32)
    ensures Join64(lo, hi) == Sum64(lo, hi)
  {
  }

  /** A number is read from exactly as many bytes as it has, least significant first. */
  lemma U8ByOffset(s: Bytes, at: nat)
    requires at <= |s|
    ensures TakeU8(s[at..]) == if |s| >= at + 1 then Ok((s[at], s[at + 1..])) else Err(TruncatedFrame(1, |s| - at))
  {
    if |s| >= at + 1 {
      assert s[at..][1..] == s[at + 1..];
    }
  }

  lemma U16ByOffset(s: Bytes, at: nat)
    requires at <= |s|
    ensures TakeU16(s[at..])
            == if |s| >= at + 2 then Ok((Number16(s, at), s[at + 2..])) else Err(TruncatedFrame(2, |s| - at))
  {
    if |s| >= at + 2 {
      Joined16(s[at], s[at + 1]);
      assert s[at..][2..] == s[at + 2..];
    }
  }

  lemma U32ByOffset(s: Bytes, at: nat)
    requires at <= |s|
    ensures TakeU32(s[at..])
            == if |s| >= at + 4 then Ok((Number32(s, at), s[at + 4..])) else Err(TruncatedFrame(4, |s| - at))
  {
    if |s| >= at + 4 {
      Joined32(s[at], s[at + 1], s[at + 2], s[at + 3]);
      assert s[at..][4..] == s[at + 4..];
    }
  }

  lemma U64ByOffset(s: Bytes, at: nat)
    requires at <= |s|
    ensures TakeU64(s[at..])
            == if |s| >= at + 8 then Ok((Number64(s, at), s[at + 8..])) else Err(TruncatedFrame(8, |s| - at))
  {
    if |s| >= at + 8 {
      Joined32(s[at], s[at + 1], s[at + 2], s[at + 3]);
      Joined32(s[at + 4], s[at + 5], s[at + 6], s[at + 7]);
      Joined64(Number32(s, at), Number32(s, at + 4));
      assert s[at..][8..] == s[at + 8..];
    }
  }

  // ---------------------------------------------------------------------------------------------
  // Fields whose width the version decides: one byte up to version 13, wider from 14 on.

  lemma StatusByVersion(s: Bytes, at: nat, version: ProtocolVersion)
    requires at <= |s|
    ensures version.raw <= 13 ==>
              TakeStatus(s[at..], version)
              == if |s| >= at + 1 then Ok((s[at] as bv32, s[at + 1..])) else Err(TruncatedFrame(1, |s| - at))
    ensures version.raw >= 14 ==>
              TakeStatus(s[at..], version)
              == if |s| >= at + 4 then Ok((Number32(s, at), s[at + 4..])) else Err(TruncatedFrame(4, |s| - at))
  {
    U8ByOffset(s, at);
    U32ByOffset(s, at);
  }

  lemma TagByVersion(s: Bytes, at: nat, version: ProtocolVersion)
    requires at <= |s|
    ensures version.raw <= 13 ==>
              TakeTag(s[at..], version)
              == if |s| >= at + 1 then Ok((s[at] as bv16, s[at + 1..])) else Err(TruncatedFrame(1, |s| - at))
    ensures version.raw >= 14 ==>
              TakeTag(s[at..], version)
              == if |s| >= at + 2 then Ok((Number16(s, at), s[at + 2..])) else Err(TruncatedFrame(2, |s| - at))
  {
    U8ByOffset(s, at);
    U16ByOffset(s, at);
  }

  /** A length byte at `at` and that many bytes behind it. */
  predicate HoldsPrefixed(s: Bytes, at: nat) {
    |s| >= at + 1 && |s| >= at + 1 + s[at] as int
  }

  function PrefixedAt(s: Bytes, at: nat): Bytes
    requires HoldsPrefixed(s, at)
  {
    s[at + 1..at + 1 + s[at] as int]
  }

  lemma BytesByOffset(s: Bytes, at: nat, n: nat)
    requires at <= |s|
    ensures TakeBytes(s[at..], n)
            == if |s| >= at + n then Ok((s[at..at + n], s[at + n..])) else Err(TruncatedFrame(n, |s| - at))
  {
    if |s| >= at + n {
      assert s[at..][..n] == s[at..at + n] && s[at..][n..] == s[at + n..];
    }
  }

  lemma PrefixedByOffset(s: Bytes, at: nat)
    requires at <= |s|
    ensures TakeLengthPrefixed(s[at..]).Ok? <==> HoldsPrefixed(s, at)
    ensures HoldsPrefixed(s, at) ==>
              TakeLengthPrefixed(s[at..]).value == (PrefixedAt(s, at), s[at + 1 + s[at] as int..])
  {
    U8ByOffset(s, at);
    if |s| > at {
      BytesByOffset(s, at + 1, s[at] as int);
    }
  }

  function ApsAt(s: Bytes, at: nat): ApsFrame
    requires at + 11 <= |s|
  {
    ApsFrame(Number16(s, at), Number16(s, at + 2), s[at + 4], s[at + 5], Number16(s, at + 6), Number16(s, at + 8),
             s[at + 10])
  }

  /** The eleven bytes of an APS frame. */
  lemma ApsByOffset(s: Bytes, at: nat)
    requires at <= |s|
    ensures TakeAps(s[at..]).Ok? <==> |s| >= at + 11
    ensures |s| >= at + 11 ==> TakeAps(s[at..]) == Ok((ApsAt(s, at), s[at + 11..]))
  {
    U16ByOffset(s, at);
    if |s| >= at + 2 { U16ByOffset(s, at + 2); }
    if |s| >= at + 4 { U8ByOffset(s, at + 4); }
    if |s| >= at + 5 { U8ByOffset(s, at + 5); }
    if |s| >= at + 6 { U16ByOffset(s, at + 6); }
    if |s| >= at + 8 { U16ByOffset(s, at + 8); }
    if |s| >= at + 10 { U8ByOffset(s, at + 10); }
  }

  // ---------------------------------------------------------------------------------------------
  // Callbacks.

  /** Where things are in a delivery report: the tag at 14, and behind it the status and the payload's
      length byte. */
  function StatusOffset(raw: bv8): nat {
    if raw <= 13 then 15 else 16
  }

  function PayloadOffset(raw: bv8): nat {
    if raw <= 13 then 16 else 20
  }

  function StatusAt(s: Bytes, at: nat, raw: bv8): bv32
    requires |s| >= at + if raw <= 13 then 1 else 4
  {
    if raw <= 13 then s[at] as bv32 else Number32(s, at)
  }

  function TagAt(s: Bytes, at: nat, raw: bv8): bv16
    requires |s| >= at + if raw <= 13 then 1 else 2
  {
    if raw <= 13 then s[at] as bv16 else Number16(s, at)
  }

  /** A stack status: one byte, or four. */
  function StackStatusAt(p: Bytes, raw: bv8): Option<Callback> {
    if |p| < (if raw <= 13 then 1 else 4) then None else Some(StackStatus(StatusAt(p, 0, raw)))
  }

  /** A join: node at 0, address at 2, update at 10, decision at 11, parent at 12. */
  function JoinAt(p: Bytes): Option<Callback> {
    if |p| < 14 then None
    else Some(TrustCenterJoin(Number16(p, 0), Number64(p, 2), p[10], p[11], Number16(p, 12)))
  }

  /** A delivery report: type at 0, destination at 1, APS frame at 3, then as above. */
  function ReportAt(p: Bytes, raw: bv8): Option<Callback> {
    var at := PayloadOffset(raw);
    if !HoldsPrefixed(p, at) then None
    else Some(MessageSent(p[0], Number16(p, 1), ApsAt(p, 3), TagAt(p, 14, raw), StatusAt(p, StatusOffset(raw), raw),
                          PrefixedAt(p, at)))
  }

  /** An incoming message: type at 0, APS frame at 1, link quality at 12, signal strength, in two's
      complement, at 13, sender at 14, the two table indices at 16 and 17, payload at 18. */
  function MessageAt(p: Bytes): Option<Callback> {
    if !HoldsPrefixed(p, 18) then None
    else
      var rssi := if p[13] as int < 128 then p[13] as int else p[13] as int - 256;
      Some(IncomingMessage(p[0], ApsAt(p, 1), p[12], rssi, Number16(p, 14), p[16], p[17], PrefixedAt(p, 18)))
  }

  /** The callback that these parameters are, if they are long enough to be one. */
  function CallbackAt(id: FrameId, p: Bytes, raw: bv8): Option<Callback> {
    if id == 0x19 then StackStatusAt(p, raw)
    else if id == 0x24 then JoinAt(p)
    else if id == 0x3f then ReportAt(p, raw)
    else if id == 0x45 then MessageAt(p)
    else Some(Unknown(id, p))
  }

  /** The parser took this callback, or none. */
  predicate Agree(parsed: Parsed<Callback>, read: Option<Callback>) {
    match read
    case Some(callback) => parsed.Ok? && parsed.value.0 == callback
    case None => parsed.Err?
  }

  lemma StackStatusByOffset(p: Bytes, version: ProtocolVersion)
    ensures Agree(TakeStackStatus(p, version), StackStatusAt(p, version.raw))
  {
    assert p[0..] == p;
    StatusByVersion(p, 0, version);
  }

  lemma JoinByOffset(p: Bytes)
    ensures Agree(TakeTrustCenterJoin(p), JoinAt(p))
  {
    assert p[0..] == p;
    U16ByOffset(p, 0);
    if |p| >= 2 { U64ByOffset(p, 2); }
    if |p| >= 10 { U8ByOffset(p, 10); }
    if |p| >= 11 { U8ByOffset(p, 11); }
    if |p| >= 12 { U16ByOffset(p, 12); }
  }

  /** Tag, status and payload, from where the tag begins. */
  function TakeReportTail(s: Bytes, version: ProtocolVersion): Parsed<(bv16, bv32, Bytes)> {
    var (tag, s) :- TakeTag(s, version);
    var (status, s) :- TakeStatus(s, version);
    var (payload, s) :- TakeLengthPrefixed(s);
    Ok(((tag, status, payload), s))
  }

  lemma ReportTailByOffset(p: Bytes, version: ProtocolVersion)
    requires |p| >= 14
    ensures var parsed := TakeReportTail(p[14..], version);
            var raw := version.raw;
            && (parsed.Ok? <==> HoldsPrefixed(p, PayloadOffset(raw)))
            && (parsed.Ok? ==> parsed.value.0 == (TagAt(p, 14, raw), StatusAt(p, StatusOffset(raw), raw),
                                                  PrefixedAt(p, PayloadOffset(raw))))
  {
    TagByVersion(p, 14, version);
    if version.raw <= 13 {
      if |p| >= 15 { StatusByVersion(p, 15, version); }
      if |p| >= 16 { PrefixedByOffset(p, 16); }
    } else {
      if |p| >= 16 { StatusByVersion(p, 16, version); }
      if |p| >= 20 { PrefixedByOffset(p, 20); }
    }
  }

  lemma ReportInTwo(p: Bytes, version: ProtocolVersion)
    ensures TakeMessageSent(p, version).Ok? <==> |p| >= 14 && TakeReportTail(p[14..], version).Ok?
    ensures TakeMessageSent(p, version).Ok? ==>
              var (tag, status, payload) := TakeReportTail(p[14..], version).value.0;
              TakeMessageSent(p, version).value.0
              == MessageSent(p[0], Number16(p, 1), ApsAt(p, 3), tag, status, payload)
  {
    assert p[0..] == p;
    U8ByOffset(p, 0);
    if |p| >= 1 { U16ByOffset(p, 1); }
    if |p| >= 3 { ApsByOffset(p, 3); }
  }

  lemma ReportByOffset(p: Bytes, version: ProtocolVersion)
    ensures Agree(TakeMessageSent(p, version), ReportAt(p, version.raw))
  {
    ReportInTwo(p, version);
    if |p| >= 14 {
      ReportTailByOffset(p, version);
    }
  }

  lemma MessageByOffset(p: Bytes)
    ensures Agree(TakeIncomingMessage(p), MessageAt(p))
  {
    assert p[0..] == p;
    U8ByOffset(p, 0);
    if |p| >= 1 { ApsByOffset(p, 1); }
    if |p| >= 12 { U8ByOffset(p, 12); }
    if |p| >= 13 { U8ByOffset(p, 13); }
    if |p| >= 14 { U16ByOffset(p, 14); }
    if |p| >= 16 { U8ByOffset(p, 16); }
    if |p| >= 17 { U8ByOffset(p, 17); }
    if |p| >= 18 { PrefixedByOffset(p, 18); }
  }

  lemma TakenByOffset(id: FrameId, p: Bytes, version: ProtocolVersion)
    ensures Agree(TakeCallback(id, p, version), CallbackAt(id, p, version.raw))
  {
    if id == 0x19 {
      StackStatusByOffset(p, version);
    } else if id == 0x24 {
      JoinByOffset(p);
    } else if id == 0x3f {
      ReportByOffset(p, version);
    } else if id == 0x45 {
      MessageByOffset(p);
    }
  }

  lemma DecodedByTaken(id: FrameId, p: Bytes, version: ProtocolVersion, read: Option<Callback>)
    requires Agree(TakeCallback(id, p, version), read) && OkOrTruncated(TakeCallback(id, p, version))
    ensures DecodedAs(Callbacks.Decoded(id, p, version), read)
  {
  }

  predicate DecodedAs(decoded: Result<Callback, EzspError>, read: Option<Callback>) {
    match read
    case Some(callback) => decoded == Ok(callback)
    case None => decoded.Err? && decoded.error.TruncatedFrame?
  }

  /** At every version, the decoder reads each field of each callback from its place, and refuses
      parameters that end before the last one. */
  lemma CallbacksByOffset(id: FrameId, p: Bytes, version: ProtocolVersion)
    ensures DecodedAs(Callbacks.Decoded(id, p, version), CallbackAt(id, p, version.raw))
  {
    TakenByOffset(id, p, version);
    CallbackTruncates(id, p, version);
    DecodedByTaken(id, p, version, CallbackAt(id, p, version.raw));
  }

  // ---------------------------------------------------------------------------------------------
  // Headers and answers.

  /** The id in a header of three bytes, or of five. */
  function IdAt(bytes: Bytes, format: HeaderFormat): int
    requires |bytes| >= if format.Legacy? then 3 else 5
  {
    if format.Legacy? then bytes[2] as int else bytes[3] as int + 256 * (bytes[4] as int)
  }

  function HeaderLength(format: HeaderFormat): nat {
    if format.Legacy? then 3 else 5
  }

  /** Bit 7 of the control byte, worth 128, says response; bit 4, worth 16, says callback. */
  predicate SaysResponse(low: bv8) {
    low >= 128
  }

  predicate SaysCallback(low: bv8) {
    (low / 16) % 2 == 1
  }

  lemma ControlByNumber(low: bv8)
    ensures FromLowByte(low).direction == (if SaysResponse(low) then Response else Command)
    ensures FromLowByte(low).isCallback <==> SaysCallback(low)
    ensures FromLowByte(low).callbackPending <==> (low / 4) % 2 == 1
    ensures FromLowByte(low).truncated <==> (low / 2) % 2 == 1
    ensures FromLowByte(low).overflow <==> low % 2 == 1
  {
  }

  /** A payload is read as a frame if it has at least its header and at most 218 bytes. */
  lemma HeadersByOffset(bytes: Bytes, format: HeaderFormat)
    ensures Parse(bytes, format).Ok? <==> HeaderLength(format) <= |bytes| <= 218
    ensures Parse(bytes, format).Ok? ==>
              var frame := Parse(bytes, format).value;
              && frame.sequence == bytes[0] as int && frame.frameId == IdAt(bytes, format)
              && (frame.control.direction == Response <==> SaysResponse(bytes[1]))
              && (frame.control.isCallback <==> SaysCallback(bytes[1]))
              && frame.parameters == bytes[HeaderLength(format)..]
  {
    if |bytes| >= 2 {
      ControlByNumber(bytes[1]);
    }
  }

  /** The payload answers command number `p.sequence` with id `p.frameId`: a response, not a callback,
      that echoes both. What is behind its header are the parameters. */
  predicate Answers(payload: Bytes, format: HeaderFormat, p: Correlators.Pending) {
    && HeaderLength(format) <= |payload| <= 218
    && payload[0] as int == p.sequence && IdAt(payload, format) == p.frameId
    && SaysResponse(payload[1]) && !SaysCallback(payload[1])
  }

  lemma AnswersByOffset(payload: Bytes, format: HeaderFormat, p: Correlators.Pending)
    ensures AnswerTo(payload, format, p)
            == if Answers(payload, format, p) then Some(payload[HeaderLength(format)..]) else None
  {
    HeadersByOffset(payload, format);
  }

  /** The response to `version`: protocol version, stack type, firmware, and nothing else. */
  lemma VersionByOffset(s: Bytes, version: ProtocolVersion)
    ensures ParseVersion(s, version).Ok? <==> |s| >= 4
    ensures |s| >= 4 ==>
              ParseVersion(s, version) == Ok((VersionResponse(ProtocolVersion(s[0]), s[1], Number16(s, 2)), s[4..]))
  {
    assert s[0..] == s;
    U8ByOffset(s, 0);
    if |s| >= 1 { U8ByOffset(s, 1); }
    if |s| >= 2 { U16ByOffset(s, 2); }
  }
}
