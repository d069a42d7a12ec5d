/** The APS frame and the status field, whose width depends on the version. */
module Aps {
  import opened Basics
  import opened EzspCodec

  datatype ApsFrame = ApsFrame(
    profileId: bv16,
    clusterId: bv16,
    sourceEndpoint: bv8,
    destinationEndpoint: bv8,
    options: bv16,
    groupId: bv16,
    sequence: bv8)

  function PutAps(a: ApsFrame, tail: Bytes): Bytes {
    PutU16(a.profileId, PutU16(a.clusterId, PutU8(a.sourceEndpoint, PutU8(a.destinationEndpoint,
      PutU16(a.options, PutU16(a.groupId, PutU8(a.sequence, tail)))))))
  }

  function TakeAps(s: Bytes): Parsed<ApsFrame> {
    var (profileId, s) :- TakeU16(s);
    var (clusterId, s) :- TakeU16(s);
    var (sourceEndpoint, s) :- TakeU8(s);
    var (destinationEndpoint, s) :- TakeU8(s);
    var (options, s) :- TakeU16(s);
    var (groupId, s) :- TakeU16(s);
    var (sequence, s) :- TakeU8(s);
    Ok((ApsFrame(profileId, clusterId, sourceEndpoint, destinationEndpoint, options, groupId, sequence), s))
  }

  method DecodeAps(input: Reader) returns (r: Result<ApsFrame, EzspError>)
    requires input.Valid()
    modifies input`position
    ensures input.Follows(r, TakeAps(old(input.Rest())))
  {
    var profileId :- input.U16();
    var clusterId :- input.U16();
    var sourceEndpoint :- input.U8();
    var destinationEndpoint :- input.U8();
    var options :- input.U16();
    var groupId :- input.U16();
    var sequence :- input.U8();
    r := Ok(ApsFrame(profileId, clusterId, sourceEndpoint, destinationEndpoint, options, groupId, sequence));
  }

  /** The four fields saying what the frame is for. */
  function AddressBytes(a: ApsFrame): Bytes {
    [Low16(a.profileId), High16(a.profileId), Low16(a.clusterId), High16(a.clusterId),
     a.sourceEndpoint, a.destinationEndpoint]
  }

  /** The three fields saying how it is delivered. */
  function DeliveryBytes(a: ApsFrame): Bytes {
    [Low16(a.options), High16(a.options), Low16(a.groupId), High16(a.groupId), a.sequence]
  }

  lemma ApsBytes(a: ApsFrame, tail: Bytes)
    ensures PutAps(a, tail) == AddressBytes(a) + DeliveryBytes(a) + tail
  {
  }

  method EncodeAddress(a: ApsFrame, out: Writer)
    modifies out`bytes
    ensures out.bytes == old(out.bytes) + AddressBytes(a)
  {
    out.U16(a.profileId);
    out.U16(a.clusterId);
    out.U8(a.sourceEndpoint);
    out.U8(a.destinationEndpoint);
  }

  method EncodeDelivery(a: ApsFrame, out: Writer)
    modifies out`bytes
    ensures out.bytes == old(out.bytes) + DeliveryBytes(a)
  {
    out.U16(a.options);
    out.U16(a.groupId);
    out.U8(a.sequence);
  }

  method EncodeAps(a: ApsFrame, out: Writer)
    modifies out`bytes
    ensures out.bytes == old(out.bytes) + PutAps(a, [])
  {
    EncodeAddress(a, out);
    EncodeDelivery(a, out);
    ApsBytes(a, []);
  }

  lemma U8Printed(v: bv8, tail: Bytes)
    ensures TakeU8(PutU8(v, tail)) == Ok((v, tail))
  {
  }

  lemma ApsPrinted(a: ApsFrame, tail: Bytes)
    ensures TakeAps(PutAps(a, tail)) == Ok((a, tail))
  {
    var s7 := PutU8(a.sequence, tail);
    var s6 := PutU16(a.groupId, s7);
    var s5 := PutU16(a.options, s6);
    var s4 := PutU8(a.destinationEndpoint, s5);
    var s3 := PutU8(a.sourceEndpoint, s4);
    var s2 := PutU16(a.clusterId, s3);
    U16Printed(a.profileId, s2);
    U16Printed(a.clusterId, s3);
    U8Printed(a.sourceEndpoint, s4);
    U8Printed(a.destinationEndpoint, s5);
    U16Printed(a.options, s6);
    U16Printed(a.groupId, s7);
    U8Printed(a.sequence, tail);
  }

  lemma ApsParsed(s: Bytes)
    requires TakeAps(s).Ok?
    ensures var (a, rest) := TakeAps(s).value; s == PutAps(a, rest)
  {
    U16Parsed(s);
    var s2 := TakeU16(s).value.1;
    U16Parsed(s2);
    var s3 := TakeU16(s2).value.1;
    U8Parsed(s3);
    var s4 := TakeU8(s3).value.1;
    U8Parsed(s4);
    var s5 := TakeU8(s4).value.1;
    U16Parsed(s5);
    var s6 := TakeU16(s5).value.1;
    U16Parsed(s6);
    U8Parsed(TakeU16(s6).value.1);
  }

  lemma U8Parsed(s: Bytes)
    requires TakeU8(s).Ok?
    ensures var (v, rest) := TakeU8(s).value; s == PutU8(v, rest)
  {
  }

  // ---------------------------------------------------------------------------------------------
  // Statuses: one byte below version 14, four from there on.

  function PutStatus(status: bv32, version: ProtocolVersion, tail: Bytes): Bytes {
    if version.HasWideStatus() then PutU32(status, tail) else PutU8((status & 0xff) as bv8, tail)
  }

  function TakeStatus(s: Bytes, version: ProtocolVersion): Parsed<bv32> {
    if version.HasWideStatus() then TakeU32(s)
    else
      var (narrow, s) :- TakeU8(s);
      Ok((narrow as bv32, s))
  }

  /** The statuses a version can carry. */
  predicate StatusFits(status: bv32, version: ProtocolVersion) {
    version.HasWideStatus() || status <= 0xff
  }

  method DecodeStatus(input: Reader) returns (r: Result<bv32, EzspError>)
    requires input.Valid()
    modifies input`position
    ensures input.Follows(r, TakeStatus(old(input.Rest()), input.version))
  {
    if input.version.HasWideStatus() {
      r := input.U32();
    } else {
      var narrow :- input.U8();
      r := Ok(narrow as bv32);
    }
  }

  lemma NarrowStatus(b: bv8, status: bv32)
    ensures ((b as bv32) & 0xff) as bv8 == b && b as bv32 <= 0xff
    ensures status <= 0xff ==> ((status & 0xff) as bv8) as bv32 == status
  {
  }

  lemma StatusPrinted(status: bv32, version: ProtocolVersion, tail: Bytes)
    requires StatusFits(status, version)
    ensures TakeStatus(PutStatus(status, version, tail), version) == Ok((status, tail))
  {
    NarrowStatus(0, status);
    U32Printed(status, tail);
    U8Printed((status & 0xff) as bv8, tail);
  }

  lemma StatusParsed(s: Bytes, version: ProtocolVersion)
    requires TakeStatus(s, version).Ok?
    ensures var (status, rest) := TakeStatus(s, version).value;
            StatusFits(status, version) && s == PutStatus(status, version, rest)
  {
    if version.HasWideStatus() {
      U32Parsed(s);
    } else {
      NarrowStatus(s[0], 0);
      U8Parsed(s);
    }
  }
}
