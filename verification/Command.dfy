/** The commands that register an endpoint and send messages. */
module Commands {
  import opened Basics
  import opened EzspCodec
  import opened EzspFrames
  import opened Aps
  import opened Callbacks

  datatype UnicastType = Direct | ViaAddressTable | ViaBinding | Multicast | Broadcast
  {
    function Raw(): bv8 {
      match this
      case Direct => 0x00
      case ViaAddressTable => 0x01
      case ViaBinding => 0x02
      case Multicast => 0x03
      case Broadcast => 0x04
    }
  }

  datatype Request =
    | AddEndpoint(endpoint: bv8, profileId: bv16, deviceId: bv16, appFlags: bv8,
                  inputClusters: seq<bv16>, outputClusters: seq<bv16>)
    | SendUnicast(unicastType: UnicastType, indexOrDestination: bv16, apsFrame: ApsFrame,
                  messageTag: bv16, message: Bytes)
    | SendBroadcast(destination: bv16, apsFrame: ApsFrame, radius: bv8, messageTag: bv16, message: Bytes)
    | SendMulticast(apsFrame: ApsFrame, hops: bv8, nonmemberRadius: bv8, messageTag: bv16, message: Bytes)
  {
    function Id(): FrameId {
      match this
      case AddEndpoint(_, _, _, _, _, _) => ADD_ENDPOINT
      case SendUnicast(_, _, _, _, _) => SEND_UNICAST
      case SendBroadcast(_, _, _, _, _) => SEND_BROADCAST
      case SendMulticast(_, _, _, _, _) => SEND_MULTICAST
    }

    /** Every length fits its one length byte. */
    predicate Encodes() {
      if AddEndpoint? then |inputClusters| < 256 && |outputClusters| < 256 else |message| < 256
    }
  }

  // ---------------------------------------------------------------------------------------------
  // Printing.

  function PutClusters(clusters: seq<bv16>, tail: Bytes): Bytes {
    if clusters == [] then tail else PutU16(clusters[0], PutClusters(clusters[1..], tail))
  }

  /** Both counts come before both lists. */
  function PutLists(inputs: seq<bv16>, outputs: seq<bv16>, tail: Bytes): Bytes
    requires |inputs| < 256 && |outputs| < 256
  {
    PutU8(|inputs| as bv8, PutU8(|outputs| as bv8, PutClusters(inputs, PutClusters(outputs, tail))))
  }

  /** The end shared by the three sends: tag and message. */
  function PutTagged(tag: bv16, version: ProtocolVersion, message: Bytes, tail: Bytes): Bytes
    requires |message| < 256
  {
    PutTag(tag, version, PutLengthPrefixed(message, tail))
  }

  function PutRequest(c: Request, version: ProtocolVersion, tail: Bytes): Bytes
    requires c.Encodes()
  {
    match c
    case AddEndpoint(endpoint, profileId, deviceId, appFlags, inputs, outputs) =>
      PutU8(endpoint, PutU16(profileId, PutU16(deviceId, PutU8(appFlags, PutLists(inputs, outputs, tail)))))
    case SendUnicast(unicastType, index, aps, tag, message) =>
      PutU8(unicastType.Raw(), PutU16(index, PutAps(aps, PutTagged(tag, version, message, tail))))
    case SendBroadcast(destination, aps, radius, tag, message) =>
      PutU16(destination, PutAps(aps, PutU8(radius, PutTagged(tag, version, message, tail))))
    case SendMulticast(aps, hops, nonmemberRadius, tag, message) =>
      PutAps(aps, PutU8(hops, PutU8(nonmemberRadius, PutTagged(tag, version, message, tail))))
  }

  /** The length of the first list or message that does not fit. */
  function Oversize(c: Request): nat
    requires !c.Encodes()
  {
    if c.AddEndpoint? then (if |c.inputClusters| >= 256 then |c.inputClusters| else |c.outputClusters|)
    else |c.message|
  }

  function Body(c: Request, version: ProtocolVersion): Result<Bytes, EzspError> {
    if c.Encodes() then Ok(PutRequest(c, version, [])) else Err(PayloadTooLong(Oversize(c), 255))
  }

  // ---------------------------------------------------------------------------------------------
  // The encoders.

  lemma {:induction false} ClustersAppend(clusters: seq<bv16>, tail: Bytes, more: Bytes)
    ensures PutClusters(clusters, tail) + more == PutClusters(clusters, tail + more)
  {
    if clusters != [] {
      ClustersAppend(clusters[1..], tail, more);
      U16Append(clusters[0], PutClusters(clusters[1..], tail), more);
    }
  }

  lemma {:induction false} ClustersSnoc(clusters: seq<bv16>, last: bv16)
    ensures PutClusters(clusters + [last], []) == PutClusters(clusters, []) + [Low16(last), High16(last)]
  {
    if clusters == [] {
      assert [last][1..] == [];
    } else {
      assert (clusters + [last])[1..] == clusters[1..] + [last];
      ClustersSnoc(clusters[1..], last);
      U16Append(clusters[0], PutClusters(clusters[1..], []), [Low16(last), High16(last)]);
    }
  }

  method EncodeClusters(clusters: seq<bv16>, out: Writer)
    modifies out`bytes
    ensures out.bytes == old(out.bytes) + PutClusters(clusters, [])
  {
    for i := 0 to |clusters|
      invariant out.bytes == old(out.bytes) + PutClusters(clusters[..i], [])
    {
      assert clusters[..i + 1] == clusters[..i] + [clusters[i]];
      ClustersSnoc(clusters[..i], clusters[i]);
      out.U16(clusters[i]);
    }
    assert clusters[..|clusters|] == clusters;
  }

  lemma ClustersInTurn(inputs: seq<bv16>, outputs: seq<bv16>)
    ensures PutClusters(inputs, PutClusters(outputs, [])) == PutClusters(inputs, []) + PutClusters(outputs, [])
  {
    ClustersAppend(inputs, [], PutClusters(outputs, []));
    assert [] + PutClusters(outputs, []) == PutClusters(outputs, []);
  }

  method EncodeLists(inputs: seq<bv16>, outputs: seq<bv16>, out: Writer)
    requires |inputs| < 256 && |outputs| < 256
    modifies out`bytes
    ensures out.bytes == old(out.bytes) + PutLists(inputs, outputs, [])
  {
    out.U8(|inputs| as bv8);
    out.U8(|outputs| as bv8);
    EncodeClusters(inputs, out);
    EncodeClusters(outputs, out);
    ClustersInTurn(inputs, outputs);
    Regroup(old(out.bytes), [|inputs| as bv8], [|outputs| as bv8], PutClusters(inputs, []), PutClusters(outputs, []));
  }

  method EncodeTagged(tag: bv16, message: Bytes, out: Writer) returns (r: Result<(), EzspError>)
    modifies out`bytes
    ensures if |message| < 256
            then r == Ok(()) && out.bytes == old(out.bytes) + PutTagged(tag, out.version, message, [])
            else r == Err(PayloadTooLong(|message|, 255))
  {
    if out.version.HasWideMessageTag() {
      out.U16(tag);
    } else {
      out.U8(Low16(tag));
    }
    r := out.LengthPrefixed(message);
  }

  method EncodeAddEndpoint(c: Request, out: Writer) returns (r: Result<(), EzspError>)
    requires c.AddEndpoint?
    modifies out`bytes
    ensures match Body(c, out.version)
            case Ok(body) => r == Ok(()) && out.bytes == old(out.bytes) + body
            case Err(error) => r == Err(error)
  {
    out.U8(c.endpoint);
    out.U16(c.profileId);
    out.U16(c.deviceId);
    out.U8(c.appFlags);
    if |c.inputClusters| >= 256 {
      return Err(PayloadTooLong(|c.inputClusters|, 255));
    }
    if |c.outputClusters| >= 256 {
      return Err(PayloadTooLong(|c.outputClusters|, 255));
    }
    EncodeLists(c.inputClusters, c.outputClusters, out);
    r := Ok(());
    ghost var profile, device := [Low16(c.profileId), High16(c.profileId)], [Low16(c.deviceId), High16(c.deviceId)];
    ghost var lists := PutLists(c.inputClusters, c.outputClusters, []);
    Regroup(old(out.bytes) + [c.endpoint], profile, device, [c.appFlags], lists);
    Associates(old(out.bytes), [c.endpoint], profile + (device + ([c.appFlags] + lists)));
  }

  method EncodeSendUnicast(c: Request, out: Writer) returns (r: Result<(), EzspError>)
    requires c.SendUnicast?
    modifies out`bytes
    ensures match Body(c, out.version)
            case Ok(body) => r == Ok(()) && out.bytes == old(out.bytes) + body
            case Err(error) => r == Err(error)
  {
    out.U8(c.unicastType.Raw());
    out.U16(c.indexOrDestination);
    EncodeAps(c.apsFrame, out);
    r := EncodeTagged(c.messageTag, c.message, out);
    if r.Ok? {
      ghost var end := PutTagged(c.messageTag, out.version, c.message, []);
      ghost var index := [Low16(c.indexOrDestination), High16(c.indexOrDestination)];
      ApsThen(c.apsFrame, end);
      Regroup(old(out.bytes), [c.unicastType.Raw()], index, PutAps(c.apsFrame, []), end);
    }
  }

  method EncodeSendBroadcast(c: Request, out: Writer) returns (r: Result<(), EzspError>)
    requires c.SendBroadcast?
    modifies out`bytes
    ensures match Body(c, out.version)
            case Ok(body) => r == Ok(()) && out.bytes == old(out.bytes) + body
            case Err(error) => r == Err(error)
  {
    out.U16(c.destination);
    EncodeAps(c.apsFrame, out);
    out.U8(c.radius);
    r := EncodeTagged(c.messageTag, c.message, out);
    if r.Ok? {
      ghost var end := PutTagged(c.messageTag, out.version, c.message, []);
      ApsThen(c.apsFrame, PutU8(c.radius, end));
      Regroup(old(out.bytes), [Low16(c.destination), High16(c.destination)], PutAps(c.apsFrame, []), [c.radius], end);
    }
  }

  method EncodeSendMulticast(c: Request, out: Writer) returns (r: Result<(), EzspError>)
    requires c.SendMulticast?
    modifies out`bytes
    ensures match Body(c, out.version)
            case Ok(body) => r == Ok(()) && out.bytes == old(out.bytes) + body
            case Err(error) => r == Err(error)
  {
    EncodeAps(c.apsFrame, out);
    out.U8(c.hops);
    out.U8(c.nonmemberRadius);
    r := EncodeTagged(c.messageTag, c.message, out);
    if r.Ok? {
      ghost var end := PutTagged(c.messageTag, out.version, c.message, []);
      ApsThen(c.apsFrame, PutU8(c.hops, PutU8(c.nonmemberRadius, end)));
      Regroup(old(out.bytes), PutAps(c.apsFrame, []), [c.hops], [c.nonmemberRadius], end);
    }
  }

  lemma ApsThen(a: ApsFrame, rest: Bytes)
    ensures PutAps(a, rest) == PutAps(a, []) + rest
  {
    ApsAppend(a, [], rest);
    assert [] + rest == rest;
  }

  // ---------------------------------------------------------------------------------------------
  // No two requests share an encoding.

  /** The tag as the version carries it: its low byte below version 14. */
  function Narrowed(tag: bv16, version: ProtocolVersion): bv16 {
    if version.HasWideMessageTag() then tag else Low16(tag) as bv16
  }

  function Canonical(c: Request, version: ProtocolVersion): Request {
    if c.AddEndpoint? then c else c.(messageTag := Narrowed(c.messageTag, version))
  }

  lemma NarrowedFits(tag: bv16, version: ProtocolVersion, tail: Bytes)
    ensures TagFits(Narrowed(tag, version), version)
    ensures PutTag(tag, version, tail) == PutTag(Narrowed(tag, version), version, tail)
  {
    NarrowTag(Low16(tag), tag);
  }

  lemma TagTells(s: bv16, t: bv16, version: ProtocolVersion, x: Bytes, y: Bytes)
    ensures PutTag(s, version, x) == PutTag(t, version, y)
            <==> Narrowed(s, version) == Narrowed(t, version) && x == y
  {
    NarrowedFits(s, version, x);
    NarrowedFits(t, version, y);
    TagPrinted(Narrowed(s, version), version, x);
    TagPrinted(Narrowed(t, version), version, y);
  }

  lemma LengthPrefixedTells(p: Bytes, q: Bytes, x: Bytes, y: Bytes)
    requires |p| < 256 && |q| < 256
    ensures PutLengthPrefixed(p, x) == PutLengthPrefixed(q, y) <==> p == q && x == y
  {
    LengthPrefixedPrinted(p, x);
    LengthPrefixedPrinted(q, y);
  }

  lemma U8Tells(a: bv8, b: bv8, x: Bytes, y: Bytes)
    ensures PutU8(a, x) == PutU8(b, y) <==> a == b && x == y
  {
    U8Printed(a, x);
    U8Printed(b, y);
  }

  lemma U16Tells(a: bv16, b: bv16, x: Bytes, y: Bytes)
    ensures PutU16(a, x) == PutU16(b, y) <==> a == b && x == y
  {
    U16Printed(a, x);
    U16Printed(b, y);
  }

  lemma ApsTells(a: ApsFrame, b: ApsFrame, x: Bytes, y: Bytes)
    ensures PutAps(a, x) == PutAps(b, y) <==> a == b && x == y
  {
    ApsPrinted(a, x);
    ApsPrinted(b, y);
  }

  lemma {:induction false} ClustersTell(a: seq<bv16>, b: seq<bv16>, x: Bytes, y: Bytes)
    requires |a| == |b|
    ensures PutClusters(a, x) == PutClusters(b, y) <==> a == b && x == y
  {
    if a != [] {
      U16Tells(a[0], b[0], PutClusters(a[1..], x), PutClusters(b[1..], y));
      ClustersTell(a[1..], b[1..], x, y);
      assert a == [a[0]] + a[1..] && b == [b[0]] + b[1..];
    }
  }

  lemma CountsTell(m: nat, n: nat)
    requires m < 256 && n < 256
    ensures m as bv8 == n as bv8 <==> m == n
  {
    LengthByte(m);
    LengthByte(n);
  }

  lemma ListsTell(a: seq<bv16>, b: seq<bv16>, c: seq<bv16>, d: seq<bv16>, x: Bytes, y: Bytes)
    requires |a| < 256 && |b| < 256 && |c| < 256 && |d| < 256
    ensures PutLists(a, b, x) == PutLists(c, d, y) <==> a == c && b == d && x == y
  {
    CountsTell(|a|, |c|);
    CountsTell(|b|, |d|);
    var ra, rc := PutClusters(a, PutClusters(b, x)), PutClusters(c, PutClusters(d, y));
    U8Tells(|b| as bv8, |d| as bv8, ra, rc);
    U8Tells(|a| as bv8, |c| as bv8, PutU8(|b| as bv8, ra), PutU8(|d| as bv8, rc));
    if |a| == |c| && |b| == |d| {
      ClustersTell(a, c, PutClusters(b, x), PutClusters(d, y));
      ClustersTell(b, d, x, y);
    }
  }

  lemma TaggedTell(s: bv16, t: bv16, version: ProtocolVersion, p: Bytes, q: Bytes, x: Bytes, y: Bytes)
    requires |p| < 256 && |q| < 256
    ensures PutTagged(s, version, p, x) == PutTagged(t, version, q, y)
            <==> Narrowed(s, version) == Narrowed(t, version) && p == q && x == y
  {
    TagTells(s, t, version, PutLengthPrefixed(p, x), PutLengthPrefixed(q, y));
    LengthPrefixedTells(p, q, x, y);
  }

  /** The two encodings agree, whatever follows them, exactly when the requests do. */
  predicate ToldApart(a: Request, b: Request, version: ProtocolVersion, x: Bytes, y: Bytes)
    requires a.Encodes() && b.Encodes()
  {
    PutRequest(a, version, x) == PutRequest(b, version, y) <==> Canonical(a, version) == Canonical(b, version) && x == y
  }

  lemma EndpointsToldApart(a: Request, b: Request, version: ProtocolVersion, x: Bytes, y: Bytes)
    requires a.AddEndpoint? && b.AddEndpoint? && a.Encodes() && b.Encodes()
    ensures ToldApart(a, b, version, x, y)
  {
    var a4, b4 := PutLists(a.inputClusters, a.outputClusters, x), PutLists(b.inputClusters, b.outputClusters, y);
    var a3, b3 := PutU8(a.appFlags, a4), PutU8(b.appFlags, b4);
    var a2, b2 := PutU16(a.deviceId, a3), PutU16(b.deviceId, b3);
    var a1, b1 := PutU16(a.profileId, a2), PutU16(b.profileId, b2);
    U8Tells(a.endpoint, b.endpoint, a1, b1);
    U16Tells(a.profileId, b.profileId, a2, b2);
    U16Tells(a.deviceId, b.deviceId, a3, b3);
    U8Tells(a.appFlags, b.appFlags, a4, b4);
    ListsTell(a.inputClusters, a.outputClusters, b.inputClusters, b.outputClusters, x, y);
  }

  lemma UnicastsInjective(a: Request, b: Request, version: ProtocolVersion, x: Bytes, y: Bytes)
    requires a.SendUnicast? && b.SendUnicast? && a.Encodes() && b.Encodes()
    requires PutRequest(a, version, x) == PutRequest(b, version, y)
    ensures Canonical(a, version) == Canonical(b, version) && x == y
  {
    var a3, b3 := PutTagged(a.messageTag, version, a.message, x), PutTagged(b.messageTag, version, b.message, y);
    var a2, b2 := PutAps(a.apsFrame, a3), PutAps(b.apsFrame, b3);
    U8Tells(a.unicastType.Raw(), b.unicastType.Raw(),
            PutU16(a.indexOrDestination, a2), PutU16(b.indexOrDestination, b2));
    U16Tells(a.indexOrDestination, b.indexOrDestination, a2, b2);
    ApsTells(a.apsFrame, b.apsFrame, a3, b3);
    TaggedTell(a.messageTag, b.messageTag, version, a.message, b.message, x, y);
  }

  lemma BroadcastsInjective(a: Request, b: Request, version: ProtocolVersion, x: Bytes, y: Bytes)
    requires a.SendBroadcast? && b.SendBroadcast? && a.Encodes() && b.Encodes()
    requires PutRequest(a, version, x) == PutRequest(b, version, y)
    ensures Canonical(a, version) == Canonical(b, version) && x == y
  {
    var a3, b3 := PutTagged(a.messageTag, version, a.message, x), PutTagged(b.messageTag, version, b.message, y);
    var a2, b2 := PutU8(a.radius, a3), PutU8(b.radius, b3);
    U16Tells(a.destination, b.destination, PutAps(a.apsFrame, a2), PutAps(b.apsFrame, b2));
    ApsTells(a.apsFrame, b.apsFrame, a2, b2);
    U8Tells(a.radius, b.radius, a3, b3);
    TaggedTell(a.messageTag, b.messageTag, version, a.message, b.message, x, y);
  }

  lemma MulticastsInjective(a: Request, b: Request, version: ProtocolVersion, x: Bytes, y: Bytes)
    requires a.SendMulticast? && b.SendMulticast? && a.Encodes() && b.Encodes()
    requires PutRequest(a, version, x) == PutRequest(b, version, y)
    ensures Canonical(a, version) == Canonical(b, version) && x == y
  {
    var a3, b3 := PutTagged(a.messageTag, version, a.message, x), PutTagged(b.messageTag, version, b.message, y);
    var a2, b2 := PutU8(a.nonmemberRadius, a3), PutU8(b.nonmemberRadius, b3);
    ApsTells(a.apsFrame, b.apsFrame, PutU8(a.hops, a2), PutU8(b.hops, b2));
    U8Tells(a.hops, b.hops, a2, b2);
    U8Tells(a.nonmemberRadius, b.nonmemberRadius, a3, b3);
    TaggedTell(a.messageTag, b.messageTag, version, a.message, b.message, x, y);
  }

  lemma CanonicalEncodesAlike(a: Request, version: ProtocolVersion, x: Bytes)
    requires a.Encodes()
    ensures PutRequest(a, version, x) == PutRequest(Canonical(a, version), version, x)
  {
    if !a.AddEndpoint? {
      NarrowedFits(a.messageTag, version, PutLengthPrefixed(a.message, x));
    }
  }

  lemma SendsToldApart(a: Request, b: Request, version: ProtocolVersion, x: Bytes, y: Bytes)
    requires !a.AddEndpoint? && a.Id() == b.Id() && a.Encodes() && b.Encodes()
    ensures ToldApart(a, b, version, x, y)
  {
    CanonicalEncodesAlike(a, version, x);
    CanonicalEncodesAlike(b, version, y);
    if PutRequest(a, version, x) == PutRequest(b, version, y) {
      if a.SendUnicast? {
        UnicastsInjective(a, b, version, x, y);
      } else if a.SendBroadcast? {
        BroadcastsInjective(a, b, version, x, y);
      } else {
        MulticastsInjective(a, b, version, x, y);
      }
    }
  }

  /** Two requests of one kind have the same encoding, whatever follows, exactly when every field is
      the same; below version 14 a tag counts only mod 256. */
  lemma BodiesAreUnambiguous(a: Request, b: Request, version: ProtocolVersion, x: Bytes, y: Bytes)
    requires a.Id() == b.Id() && a.Encodes() && b.Encodes()
    ensures ToldApart(a, b, version, x, y)
  {
    if a.AddEndpoint? {
      EndpointsToldApart(a, b, version, x, y);
    } else {
      SendsToldApart(a, b, version, x, y);
    }
  }
}
