/** Requests as the NCP reads them: which byte of a request's body is which field, with ids, type
    numbers, versions and widths as numbers.

    `RequestAt` is a reader of its own. The encoders write exactly the bodies it reads back. */
module RequestWire {
  import opened Basics
  import opened EzspCodec
  import opened EzspFrames
  import opened Aps
  import opened Callbacks
  import opened Commands
  import opened EzspWire
  import opened Runtimes
  import opened MessageLaws

  // ---------------------------------------------------------------------------------------------
  // The NCP's side.

  function TypeOf(number: bv8): UnicastType
    requires number <= 4
  {
    if number == 0 then Direct
    else if number == 1 then ViaAddressTable
    else if number == 2 then ViaBinding
    else if number == 3 then UnicastType.Multicast
    else UnicastType.Broadcast
  }

  function TagWidth(raw: bv8): nat {
    if raw <= 13 then 1 else 2
  }

  /** From `at` on: a tag, a length byte, that many bytes, and the end. */
  predicate EndsTagged(b: Bytes, at: nat, raw: bv8) {
    var length := at + TagWidth(raw);
    HoldsPrefixed(b, length) && |b| == length + 1 + b[length] as int
  }

  /** Type at 0, destination at 1, APS frame at 3, tag at 14. */
  function UnicastAt(b: Bytes, raw: bv8): Option<Request> {
    if !EndsTagged(b, 14, raw) || b[0] > 4 then None
    else Some(SendUnicast(TypeOf(b[0]), Number16(b, 1), ApsAt(b, 3), TagAt(b, 14, raw),
                          PrefixedAt(b, 14 + TagWidth(raw))))
  }

  /** Destination at 0, APS frame at 2, radius at 13, tag at 14. */
  function BroadcastAt(b: Bytes, raw: bv8): Option<Request> {
    if !EndsTagged(b, 14, raw) then None
    else Some(SendBroadcast(Number16(b, 0), ApsAt(b, 2), b[13], TagAt(b, 14, raw),
                            PrefixedAt(b, 14 + TagWidth(raw))))
  }

  /** APS frame at 0, hops at 11, nonmember radius at 12, tag at 13. */
  function MulticastAt(b: Bytes, raw: bv8): Option<Request> {
    if !EndsTagged(b, 13, raw) then None
    else Some(SendMulticast(ApsAt(b, 0), b[11], b[12], TagAt(b, 13, raw), PrefixedAt(b, 13 + TagWidth(raw))))
  }

  function NumbersAt(b: Bytes, at: nat, count: nat): seq<bv16>
    requires |b| >= at + 2 * count
  {
    seq(count, i requires 0 <= i < count => Number16(b, at + 2 * i))
  }

  /** Endpoint at 0, profile at 1, device at 3, flags at 5, how many input clusters at 6 and output
      clusters at 7, and from 8 on first the ones and then the others, two bytes each, and the end. */
  function EndpointAt(b: Bytes): Option<Request> {
    if |b| < 8 || |b| != 8 + 2 * (b[6] as int) + 2 * (b[7] as int) then None
    else
      var inputs, outputs := b[6] as int, b[7] as int;
      Some(AddEndpoint(b[0], Number16(b, 1), Number16(b, 3), b[5], NumbersAt(b, 8, inputs),
                       NumbersAt(b, 8 + 2 * inputs, outputs)))
  }

  function RequestAt(id: FrameId, b: Bytes, raw: bv8): Option<Request> {
    if id == 0x02 then EndpointAt(b)
    else if id == 0x34 then UnicastAt(b, raw)
    else if id == 0x36 then BroadcastAt(b, raw)
    else if id == 0x38 then MulticastAt(b, raw)
    else None
  }

  /** What is left of a request on the line: up to version 13 a tag mod 256. */
  function Carried(c: Request, raw: bv8): Request {
    if c.AddEndpoint? || raw >= 14 then c else c.(messageTag := c.messageTag % 256)
  }

  // ---------------------------------------------------------------------------------------------
  // Writing and reading one field.

  lemma FromStart(b: Bytes)
    ensures b[0..] == b
  {
  }

  lemma U8Written(b: Bytes, at: nat, v: bv8, rest: Bytes)
    requires at <= |b|
    ensures b[at..] == PutU8(v, rest) <==> |b| >= at + 1 && b[at] == v && b[at + 1..] == rest
  {
    U8ByOffset(b, at);
    if b[at..] == PutU8(v, rest) {
      U8Printed(v, rest);
    } else if |b| >= at + 1 {
      U8Parsed(b[at..]);
    }
  }

  lemma U16Written(b: Bytes, at: nat, v: bv16, rest: Bytes)
    requires at <= |b|
    ensures b[at..] == PutU16(v, rest) <==> |b| >= at + 2 && Number16(b, at) == v && b[at + 2..] == rest
  {
    U16ByOffset(b, at);
    if b[at..] == PutU16(v, rest) {
      U16Printed(v, rest);
    } else if |b| >= at + 2 {
      U16Parsed(b[at..]);
    }
  }

  lemma ApsWritten(b: Bytes, at: nat, a: ApsFrame, rest: Bytes)
    requires at <= |b|
    ensures b[at..] == PutAps(a, rest) <==> |b| >= at + 11 && ApsAt(b, at) == a && b[at + 11..] == rest
  {
    ApsByOffset(b, at);
    if b[at..] == PutAps(a, rest) {
      ApsPrinted(a, rest);
    } else if |b| >= at + 11 {
      ApsParsed(b[at..]);
    }
  }

  /** The tag that the line carries. */
  function CarriedTag(tag: bv16, raw: bv8): bv16 {
    if raw <= 13 then tag % 256 else tag
  }

  lemma NarrowTagIs(tag: bv16, b: bv8)
    ensures b == Low16(tag) <==> b as bv16 == tag % 256
  {
  }

  lemma NarrowTagWritten(b: Bytes, at: nat, tag: bv16, rest: Bytes)
    requires at <= |b|
    ensures b[at..] == PutU8(Low16(tag), rest)
            <==> |b| >= at + 1 && b[at] as bv16 == tag % 256 && b[at + 1..] == rest
  {
    U8Written(b, at, Low16(tag), rest);
    if |b| > at {
      NarrowTagIs(tag, b[at]);
    }
  }

  lemma TagWritten(b: Bytes, at: nat, tag: bv16, version: ProtocolVersion, rest: Bytes)
    requires at <= |b|
    ensures b[at..] == PutTag(tag, version, rest)
            <==> var raw := version.raw;
                 && |b| >= at + TagWidth(raw) && TagAt(b, at, raw) == CarriedTag(tag, raw)
                 && b[at + TagWidth(raw)..] == rest
  {
    if version.raw <= 13 {
      NarrowTagWritten(b, at, tag, rest);
      assert !version.HasWideMessageTag() && TagWidth(version.raw) == 1;
    } else {
      U16Written(b, at, tag, rest);
      assert version.HasWideMessageTag() && TagWidth(version.raw) == 2;
    }
  }

  lemma PrefixedWritten(b: Bytes, at: nat, payload: Bytes)
    requires at <= |b| && |payload| < 256
    ensures b[at..] == PutLengthPrefixed(payload, [])
            <==> HoldsPrefixed(b, at) && |b| == at + 1 + b[at] as int && PrefixedAt(b, at) == payload
  {
    PrefixedByOffset(b, at);
    LengthPrefixedPrinted(payload, []);
    if HoldsPrefixed(b, at) && |b| == at + 1 + b[at] as int {
      LengthPrefixedParsed(b[at..]);
      assert b[at + 1 + b[at] as int..] == [];
    }
  }

  /** Tag and message, from `at` to the end. */
  predicate TaggedAs(b: Bytes, at: nat, tag: bv16, message: Bytes, raw: bv8) {
    && EndsTagged(b, at, raw)
    && TagAt(b, at, raw) == CarriedTag(tag, raw)
    && PrefixedAt(b, at + TagWidth(raw)) == message
  }

  lemma TaggedWritten(b: Bytes, at: nat, tag: bv16, version: ProtocolVersion, message: Bytes)
    requires at <= |b| && |message| < 256
    ensures b[at..] == PutTagged(tag, version, message, [])
            <==> TaggedAs(b, at, tag, message, version.raw)
  {
    TagWritten(b, at, tag, version, PutLengthPrefixed(message, []));
    if |b| >= at + TagWidth(version.raw) {
      PrefixedWritten(b, at + TagWidth(version.raw), message);
    }
  }

  // ---------------------------------------------------------------------------------------------
  // Whole bodies.

  lemma TypeNumbers(t: UnicastType, number: bv8)
    ensures t.Raw() == number <==> number <= 4 && TypeOf(number) == t
  {
  }

  predicate UnicastAs(b: Bytes, c: Request, raw: bv8)
    requires c.SendUnicast?
  {
    && TaggedAs(b, 14, c.messageTag, c.message, raw)
    && c.unicastType.Raw() == b[0] && Number16(b, 1) == c.indexOrDestination && ApsAt(b, 3) == c.apsFrame
  }

  lemma IndexedWritten(b: Bytes, at: nat, index: bv16, aps: ApsFrame, rest: Bytes)
    requires at <= |b|
    ensures b[at..] == PutU16(index, PutAps(aps, rest))
            <==> |b| >= at + 13 && Number16(b, at) == index && ApsAt(b, at + 2) == aps && b[at + 13..] == rest
  {
    U16Written(b, at, index, PutAps(aps, rest));
    if |b| >= at + 2 {
      ApsWritten(b, at + 2, aps, rest);
    }
  }

  lemma UnicastHead(b: Bytes, number: bv8, index: bv16, aps: ApsFrame, rest: Bytes)
    ensures b == PutU8(number, PutU16(index, PutAps(aps, rest)))
            <==> |b| >= 14 && b[0] == number && Number16(b, 1) == index && ApsAt(b, 3) == aps && b[14..] == rest
  {
    FromStart(b);
    U8Written(b, 0, number, PutU16(index, PutAps(aps, rest)));
    if |b| >= 1 {
      IndexedWritten(b, 1, index, aps, rest);
    }
  }

  lemma UnicastFields(c: Request, version: ProtocolVersion, b: Bytes)
    requires c.SendUnicast? && c.Encodes()
    ensures b == PutRequest(c, version, []) <==> UnicastAs(b, c, version.raw)
  {
    var rest := PutTagged(c.messageTag, version, c.message, []);
    UnicastHead(b, c.unicastType.Raw(), c.indexOrDestination, c.apsFrame, rest);
    if |b| >= 14 { TaggedWritten(b, 14, c.messageTag, version, c.message); }
  }

  lemma UnicastRead(c: Request, raw: bv8, b: Bytes)
    requires c.SendUnicast?
    ensures UnicastAs(b, c, raw) <==> UnicastAt(b, raw) == Some(Carried(c, raw))
  {
    if |b| >= 1 {
      TypeNumbers(c.unicastType, b[0]);
    }
  }

  lemma UnicastWritten(c: Request, version: ProtocolVersion, b: Bytes)
    requires c.SendUnicast? && c.Encodes()
    ensures b == PutRequest(c, version, []) <==> UnicastAt(b, version.raw) == Some(Carried(c, version.raw))
  {
    UnicastFields(c, version, b);
    UnicastRead(c, version.raw, b);
  }

  predicate BroadcastAs(b: Bytes, c: Request, raw: bv8)
    requires c.SendBroadcast?
  {
    && TaggedAs(b, 14, c.messageTag, c.message, raw)
    && Number16(b, 0) == c.destination && ApsAt(b, 2) == c.apsFrame && b[13] == c.radius
  }

  lemma BroadcastHead(b: Bytes, destination: bv16, aps: ApsFrame, radius: bv8, rest: Bytes)
    ensures b == PutU16(destination, PutAps(aps, PutU8(radius, rest)))
            <==> |b| >= 14 && Number16(b, 0) == destination && ApsAt(b, 2) == aps && b[13] == radius && b[14..] == rest
  {
    FromStart(b);
    IndexedWritten(b, 0, destination, aps, PutU8(radius, rest));
    if |b| >= 13 {
      U8Written(b, 13, radius, rest);
    }
  }

  lemma BroadcastFields(c: Request, version: ProtocolVersion, b: Bytes)
    requires c.SendBroadcast? && c.Encodes()
    ensures b == PutRequest(c, version, []) <==> BroadcastAs(b, c, version.raw)
  {
    var rest := PutTagged(c.messageTag, version, c.message, []);
    BroadcastHead(b, c.destination, c.apsFrame, c.radius, rest);
    if |b| >= 14 { TaggedWritten(b, 14, c.messageTag, version, c.message); }
  }

  lemma BroadcastRead(c: Request, raw: bv8, b: Bytes)
    requires c.SendBroadcast?
    ensures BroadcastAs(b, c, raw) <==> BroadcastAt(b, raw) == Some(Carried(c, raw))
  {
  }

  lemma BroadcastWritten(c: Request, version: ProtocolVersion, b: Bytes)
    requires c.SendBroadcast? && c.Encodes()
    ensures b == PutRequest(c, version, []) <==> BroadcastAt(b, version.raw) == Some(Carried(c, version.raw))
  {
    BroadcastFields(c, version, b);
    BroadcastRead(c, version.raw, b);
  }

  predicate MulticastAs(b: Bytes, c: Request, raw: bv8)
    requires c.SendMulticast?
  {
    && TaggedAs(b, 13, c.messageTag, c.message, raw)
    && ApsAt(b, 0) == c.apsFrame && b[11] == c.hops && b[12] == c.nonmemberRadius
  }

  lemma FlagsWritten(b: Bytes, at: nat, hops: bv8, radius: bv8, rest: Bytes)
    requires at <= |b|
    ensures b[at..] == PutU8(hops, PutU8(radius, rest))
            <==> |b| >= at + 2 && b[at] == hops && b[at + 1] == radius && b[at + 2..] == rest
  {
    U8Written(b, at, hops, PutU8(radius, rest));
    if |b| >= at + 1 {
      U8Written(b, at + 1, radius, rest);
    }
  }

  lemma MulticastHead(b: Bytes, aps: ApsFrame, hops: bv8, radius: bv8, rest: Bytes)
    ensures b == PutAps(aps, PutU8(hops, PutU8(radius, rest)))
            <==> |b| >= 13 && ApsAt(b, 0) == aps && b[11] == hops && b[12] == radius && b[13..] == rest
  {
    FromStart(b);
    ApsWritten(b, 0, aps, PutU8(hops, PutU8(radius, rest)));
    if |b| >= 11 {
      FlagsWritten(b, 11, hops, radius, rest);
    }
  }

  lemma MulticastFields(c: Request, version: ProtocolVersion, b: Bytes)
    requires c.SendMulticast? && c.Encodes()
    ensures b == PutRequest(c, version, []) <==> MulticastAs(b, c, version.raw)
  {
    var rest := PutTagged(c.messageTag, version, c.message, []);
    MulticastHead(b, c.apsFrame, c.hops, c.nonmemberRadius, rest);
    if |b| >= 13 { TaggedWritten(b, 13, c.messageTag, version, c.message); }
  }

  lemma MulticastRead(c: Request, raw: bv8, b: Bytes)
    requires c.SendMulticast?
    ensures MulticastAs(b, c, raw) <==> MulticastAt(b, raw) == Some(Carried(c, raw))
  {
  }

  lemma MulticastWritten(c: Request, version: ProtocolVersion, b: Bytes)
    requires c.SendMulticast? && c.Encodes()
    ensures b == PutRequest(c, version, []) <==> MulticastAt(b, version.raw) == Some(Carried(c, version.raw))
  {
    MulticastFields(c, version, b);
    MulticastRead(c, version.raw, b);
  }

  // ---------------------------------------------------------------------------------------------
  // Lists of clusters.

  lemma {:induction false} ClustersWritten(b: Bytes, at: nat, clusters: seq<bv16>, rest: Bytes)
    requires at <= |b|
    ensures b[at..] == PutClusters(clusters, rest)
            <==> var end := at + 2 * |clusters|;
                 |b| >= end && NumbersAt(b, at, |clusters|) == clusters && b[end..] == rest
    decreases |clusters|
  {
    if clusters != [] {
      U16Written(b, at, clusters[0], PutClusters(clusters[1..], rest));
      if |b| >= at + 2 {
        ClustersWritten(b, at + 2, clusters[1..], rest);
        NumbersInTurn(b, at, clusters);
      }
    }
  }

  lemma NumbersInTurn(b: Bytes, at: nat, clusters: seq<bv16>)
    requires clusters != [] && |b| >= at + 2
    ensures |b| >= at + 2 * |clusters| ==>
              (NumbersAt(b, at, |clusters|) == clusters
               <==> Number16(b, at) == clusters[0] && NumbersAt(b, at + 2, |clusters| - 1) == clusters[1..])
  {
    if |b| >= at + 2 * |clusters| {
      var all, later := NumbersAt(b, at, |clusters|), NumbersAt(b, at + 2, |clusters| - 1);
      assert all[0] == Number16(b, at);
      assert forall i :: 0 <= i < |clusters| - 1 ==> all[i + 1] == later[i];
      assert all == [Number16(b, at)] + later;
      assert clusters == [clusters[0]] + clusters[1..];
    }
  }

  lemma CountWritten(b: bv8, n: nat)
    requires n < 256
    ensures n as bv8 == b <==> n == b as int
  {
    LengthByte(n);
    LengthByteInverse(b);
  }

  predicate ListsAs(b: Bytes, inputs: seq<bv16>, outputs: seq<bv16>) {
    && |b| >= 8 && |inputs| == b[6] as int && |outputs| == b[7] as int
    && |b| == 8 + 2 * |inputs| + 2 * |outputs|
    && NumbersAt(b, 8, |inputs|) == inputs && NumbersAt(b, 8 + 2 * |inputs|, |outputs|) == outputs
  }

  lemma CountsWritten(b: Bytes, m: nat, n: nat, rest: Bytes)
    requires |b| >= 6 && m < 256 && n < 256
    ensures b[6..] == PutU8(m as bv8, PutU8(n as bv8, rest))
            <==> |b| >= 8 && m == b[6] as int && n == b[7] as int && b[8..] == rest
  {
    U8Written(b, 6, m as bv8, PutU8(n as bv8, rest));
    if |b| >= 7 {
      CountWritten(b[6], m);
      U8Written(b, 7, n as bv8, rest);
    }
    if |b| >= 8 {
      CountWritten(b[7], n);
    }
  }

  lemma LastClustersWritten(b: Bytes, at: nat, clusters: seq<bv16>)
    requires at <= |b|
    ensures b[at..] == PutClusters(clusters, [])
            <==> |b| == at + 2 * |clusters| && NumbersAt(b, at, |clusters|) == clusters
  {
    ClustersWritten(b, at, clusters, []);
    var end := at + 2 * |clusters|;
    assert |b| >= end ==> (b[end..] == [] <==> |b| == end);
  }

  lemma BothListsWritten(b: Bytes, at: nat, inputs: seq<bv16>, outputs: seq<bv16>)
    requires at <= |b|
    ensures b[at..] == PutClusters(inputs, PutClusters(outputs, []))
            <==> var mid := at + 2 * |inputs|;
                 && |b| == mid + 2 * |outputs|
                 && NumbersAt(b, at, |inputs|) == inputs && NumbersAt(b, mid, |outputs|) == outputs
  {
    var mid := at + 2 * |inputs|;
    var rest := PutClusters(outputs, []);
    ClustersWritten(b, at, inputs, rest);
    if |b| < mid {
      assert b[at..] != PutClusters(inputs, rest);
    } else {
      LastClustersWritten(b, mid, outputs);
      assert b[at..] == PutClusters(inputs, rest) <==> NumbersAt(b, at, |inputs|) == inputs && b[mid..] == rest;
    }
  }

  lemma ListsWritten(b: Bytes, inputs: seq<bv16>, outputs: seq<bv16>)
    requires |b| >= 6 && |inputs| < 256 && |outputs| < 256
    ensures b[6..] == PutLists(inputs, outputs, []) <==> ListsAs(b, inputs, outputs)
  {
    CountsWritten(b, |inputs|, |outputs|, PutClusters(inputs, PutClusters(outputs, [])));
    if |b| >= 8 {
      BothListsWritten(b, 8, inputs, outputs);
    }
  }

  predicate EndpointAs(b: Bytes, c: Request)
    requires c.AddEndpoint?
  {
    && ListsAs(b, c.inputClusters, c.outputClusters)
    && b[0] == c.endpoint && Number16(b, 1) == c.profileId && Number16(b, 3) == c.deviceId && b[5] == c.appFlags
  }

  lemma PairWritten(b: Bytes, at: nat, first: bv16, second: bv16, rest: Bytes)
    requires at <= |b|
    ensures b[at..] == PutU16(first, PutU16(second, rest))
            <==> |b| >= at + 4 && Number16(b, at) == first && Number16(b, at + 2) == second && b[at + 4..] == rest
  {
    U16Written(b, at, first, PutU16(second, rest));
    if |b| >= at + 2 {
      U16Written(b, at + 2, second, rest);
    }
  }

  lemma EndpointHead(b: Bytes, endpoint: bv8, profile: bv16, device: bv16, flags: bv8, rest: Bytes)
    ensures b == PutU8(endpoint, PutU16(profile, PutU16(device, PutU8(flags, rest))))
            <==> && |b| >= 6 && b[0] == endpoint && Number16(b, 1) == profile && Number16(b, 3) == device
                 && b[5] == flags && b[6..] == rest
  {
    FromStart(b);
    U8Written(b, 0, endpoint, PutU16(profile, PutU16(device, PutU8(flags, rest))));
    if |b| >= 1 {
      PairWritten(b, 1, profile, device, PutU8(flags, rest));
    }
    if |b| >= 5 {
      U8Written(b, 5, flags, rest);
    }
  }

  lemma EndpointFields(c: Request, version: ProtocolVersion, b: Bytes)
    requires c.AddEndpoint? && c.Encodes()
    ensures b == PutRequest(c, version, []) <==> EndpointAs(b, c)
  {
    EndpointHead(b, c.endpoint, c.profileId, c.deviceId, c.appFlags,
                 PutLists(c.inputClusters, c.outputClusters, []));
    if |b| >= 6 { ListsWritten(b, c.inputClusters, c.outputClusters); }
  }

  lemma EndpointRead(c: Request, b: Bytes)
    requires c.AddEndpoint?
    ensures EndpointAs(b, c) <==> EndpointAt(b) == Some(c)
  {
  }

  lemma EndpointWritten(c: Request, version: ProtocolVersion, b: Bytes)
    requires c.AddEndpoint? && c.Encodes()
    ensures b == PutRequest(c, version, []) <==> EndpointAt(b) == Some(c)
  {
    EndpointFields(c, version, b);
    EndpointRead(c, b);
  }

  /** The body of a request is exactly the one that the NCP reads as this request, up to the part of the
      tag that the version carries; a list or message of 256 or more has none. */
  lemma BodiesByOffset(c: Request, version: ProtocolVersion, b: Bytes)
    ensures Body(c, version) == Ok(b)
            <==> c.Encodes() && RequestAt(c.Id(), b, version.raw) == Some(Carried(c, version.raw))
  {
    if c.Encodes() {
      match c
      case AddEndpoint(_, _, _, _, _, _) => EndpointWritten(c, version, b);
      case SendUnicast(_, _, _, _, _) => UnicastWritten(c, version, b);
      case SendBroadcast(_, _, _, _, _) => BroadcastWritten(c, version, b);
      case SendMulticast(_, _, _, _, _) => MulticastWritten(c, version, b);
    }
  }

  // ---------------------------------------------------------------------------------------------
  // Whole frames, and what comes back.

  /** Five header bytes: the sequence number, 0, 1, and the id, low byte first. */
  predicate HeadedAs(b: Bytes, sequence: u8, id: FrameId) {
    |b| >= 5 && b[0] as int == sequence && b[1] == 0 && b[2] == 1 && IdAt(b, Extended) == id
  }

  lemma LowWritten(lo: bv8, id: FrameId)
    ensures lo == LowByte(id) <==> lo as int == id % 256
  {
    CountWritten(lo, id % 256);
  }

  lemma HighWritten(hi: bv8, id: FrameId)
    ensures hi == HighByte(id) <==> hi as int == id / 256
  {
    CountWritten(hi, id / 256);
  }

  lemma IdWritten(lo: bv8, hi: bv8, id: FrameId)
    ensures lo == LowByte(id) && hi == HighByte(id) <==> lo as int + 256 * (hi as int) == id
  {
    LowWritten(lo, id);
    HighWritten(hi, id);
    HalvesOfId(lo as int, hi as int, id);
  }

  lemma HalvesOfId(lo: nat, hi: nat, id: nat)
    requires lo < 256
    ensures lo == id % 256 && hi == id / 256 <==> lo + 256 * hi == id
  {
  }

  lemma HeaderWritten(b: Bytes, sequence: u8, id: FrameId)
    requires |b| >= 5
    ensures Header(sequence, id, Extended) == Ok(b[..5]) <==> HeadedAs(b, sequence, id)
  {
    CountWritten(b[0], sequence);
    IdWritten(b[3], b[4], id);
    assert b[..5] == [b[0], b[1], b[2], b[3], b[4]];
  }

  /** The frame of a request is exactly the one, of at most 218 bytes, whose header carries this number
      and the request's id and whose body the NCP reads as this request. */
  lemma FramesByOffset(sequence: u8, c: Request, version: ProtocolVersion, b: Bytes)
    ensures RequestIn(Extended, version, CommandOf(c), sequence) == Ok(b)
            <==> && c.Encodes() && |b| <= 218 && HeadedAs(b, sequence, c.Id())
                 && RequestAt(IdAt(b, Extended), b[5..], version.raw) == Some(Carried(c, version.raw))
  {
    var header := Header(sequence, c.Id(), Extended).value;
    if c.Encodes() {
      FrameOf(sequence, c, version, PutRequest(c, version, []));
      assert |header| == 5;
    }
    if |b| >= 5 {
      HeaderWritten(b, sequence, c.Id());
      BodiesByOffset(c, version, b[5..]);
      assert b == b[..5] + b[5..];
    }
  }

  lemma FrameOf(sequence: u8, c: Request, version: ProtocolVersion, body: Bytes)
    requires Body(c, version) == Ok(body)
    ensures var whole := Header(sequence, c.Id(), Extended).value + body;
            RequestIn(Extended, version, CommandOf(c), sequence)
            == if |whole| > 218 then Err(FrameTooLong(|whole|, 218)) else Ok(whole)
  {
  }

  /** The answer: a status, one byte up to version 13 and four from 14 on, and for a send one byte more,
      the APS sequence number. */
  function AcceptedAt(c: Request, s: Bytes, raw: bv8): Option<Accepted> {
    var width := if raw <= 13 then 1 else 4;
    if c.AddEndpoint? then
      if |s| < width then None else Some(Accepted(StatusAt(s, 0, raw), None))
    else
      if |s| < width + 1 then None else Some(Accepted(StatusAt(s, 0, raw), Some(s[width])))
  }

  lemma AcceptedByOffset(c: Request, s: Bytes, version: ProtocolVersion)
    ensures match AcceptedAt(c, s, version.raw)
            case Some(accepted) =>
              TakeAccepted(c, s, version).Ok? && TakeAccepted(c, s, version).value.0 == accepted
            case None => TakeAccepted(c, s, version).Err?
  {
    FromStart(s);
    StatusByVersion(s, 0, version);
    var width := if version.raw <= 13 then 1 else 4;
    if |s| >= width {
      U8ByOffset(s, width);
    }
  }
}
