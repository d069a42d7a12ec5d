/** EZSP versions and errors, and the reader and writer every EZSP field goes through.

    Each field has a parser on byte strings, which returns the value and the bytes left, and a
    printer, which puts the value in front of given bytes. The `Reader` and `Writer` objects move
    their cursors as the parsers and printers say. */
module EzspCodec {
  import opened Basics
  import Ash = AshFrames

  /** A two-byte frame identifier. */
  type FrameId = n: int | 0 <= n < 0x1_0000

  datatype ProtocolVersion = ProtocolVersion(raw: bv8)
  {
    predicate IsSupported() { 0x0d <= raw <= 0x13 }

    predicate HasWideStatus() { raw >= 0x0e }

    predicate HasWideMessageTag() { raw >= 0x0e }
  }

  const PREFERRED := ProtocolVersion(0x13)

  datatype EzspError =
    | TruncatedFrame(needed: nat, available: nat)
    | FrameTooLong(length: nat, limit: nat)
    | PayloadTooLong(length: nat, limit: nat)
    | MalformedHeader
    | TrailingBytes(frameId: FrameId, extra: nat)
    | UnsupportedVersion(negotiated: ProtocolVersion)
    | UnsupportedCommand(frameId: FrameId, version: ProtocolVersion)
    | SequenceMismatch(sequence: u8)
    | Timeout(frameId: FrameId)
    | NcpReset(frameId: FrameId)
    | AshFailure(ash: Ash.AshError)

  type Parsed<T> = Result<(T, Bytes), EzspError>

  // ---------------------------------------------------------------------------------------------
  // Parsers.

  function TakeBytes(s: Bytes, n: nat): Parsed<Bytes> {
    if |s| < n then Err(TruncatedFrame(n, |s|)) else Ok((s[..n], s[n..]))
  }

  function TakeU8(s: Bytes): Parsed<bv8> {
    if |s| < 1 then Err(TruncatedFrame(1, |s|)) else Ok((s[0], s[1..]))
  }

  function Join16(lo: bv8, hi: bv8): bv16 {
    ((hi as bv16) << 8) | (lo as bv16)
  }

  function Join32(lo: bv16, hi: bv16): bv32 {
    ((hi as bv32) << 16) | (lo as bv32)
  }

  function Join64(lo: bv32, hi: bv32): bv64 {
    ((hi as bv64) << 32) | (lo as bv64)
  }

  /** Little-endian, as every multi-byte EZSP field. */
  function TakeU16(s: Bytes): Parsed<bv16> {
    if |s| < 2 then Err(TruncatedFrame(2, |s|)) else Ok((Join16(s[0], s[1]), s[2..]))
  }

  function TakeU32(s: Bytes): Parsed<bv32> {
    if |s| < 4 then Err(TruncatedFrame(4, |s|))
    else Ok((Join32(Join16(s[0], s[1]), Join16(s[2], s[3])), s[4..]))
  }

  function TakeU64(s: Bytes): Parsed<bv64> {
    if |s| < 8 then Err(TruncatedFrame(8, |s|))
    else Ok((Join64(Join32(Join16(s[0], s[1]), Join16(s[2], s[3])),
                    Join32(Join16(s[4], s[5]), Join16(s[6], s[7]))), s[8..]))
  }

  function TakeLengthPrefixed(s: Bytes): Parsed<Bytes> {
    var (n, rest) :- TakeU8(s);
    TakeBytes(rest, n as int)
  }

  // ---------------------------------------------------------------------------------------------
  // Printers.

  function Low16(v: bv16): bv8 { (v & 0xff) as bv8 }
  function High16(v: bv16): bv8 { (v >> 8) as bv8 }
  function Low32(v: bv32): bv16 { (v & 0xffff) as bv16 }
  function High32(v: bv32): bv16 { (v >> 16) as bv16 }
  function Low64(v: bv64): bv32 { (v & 0xffff_ffff) as bv32 }
  function High64(v: bv64): bv32 { (v >> 32) as bv32 }

  function PutU8(v: bv8, tail: Bytes): Bytes {
    [v] + tail
  }

  function PutU16(v: bv16, tail: Bytes): Bytes {
    [Low16(v), High16(v)] + tail
  }

  function PutU32(v: bv32, tail: Bytes): Bytes {
    PutU16(Low32(v), PutU16(High32(v), tail))
  }

  function PutU64(v: bv64, tail: Bytes): Bytes {
    PutU32(Low64(v), PutU32(High64(v), tail))
  }

  function PutLengthPrefixed(payload: Bytes, tail: Bytes): Bytes
    requires |payload| < 256
  {
    PutU8(|payload| as bv8, payload + tail)
  }

  // ---------------------------------------------------------------------------------------------
  // Each pair is inverse both ways: a parser reads back what its printer wrote and leaves the tail,
  // and whatever a parser accepts is what its printer would have written.

  lemma Join16Split(v: bv16)
    ensures Join16(Low16(v), High16(v)) == v
  {
  }

  lemma Split16Join(lo: bv8, hi: bv8)
    ensures Low16(Join16(lo, hi)) == lo && High16(Join16(lo, hi)) == hi
  {
  }

  lemma Join32Split(v: bv32)
    ensures Join32(Low32(v), High32(v)) == v
  {
  }

  lemma Split32Join(lo: bv16, hi: bv16)
    ensures Low32(Join32(lo, hi)) == lo && High32(Join32(lo, hi)) == hi
  {
  }

  lemma Join64Split(v: bv64)
    ensures Join64(Low64(v), High64(v)) == v
  {
  }

  lemma Split64Join(lo: bv32, hi: bv32)
    ensures Low64(Join64(lo, hi)) == lo && High64(Join64(lo, hi)) == hi
  {
  }

  lemma {:induction false} LengthByte(n: nat)
    requires n < 256
    ensures n as bv8 as int == n
  {
    if n > 0 {
      LengthByte(n - 1);
      var before := (n - 1) as bv8;
      NextByte(before);
      LengthByteInverse(before + 1);
    }
  }

  lemma NextByte(b: bv8)
    requires b as int < 255
    ensures (b + 1) as int == b as int + 1
  {
  }

  lemma LengthByteInverse(b: bv8)
    ensures (b as int) as bv8 == b
  {
  }

  lemma U16Printed(v: bv16, tail: Bytes)
    ensures TakeU16(PutU16(v, tail)) == Ok((v, tail))
  {
    Join16Split(v);
  }

  lemma U16Parsed(s: Bytes)
    requires TakeU16(s).Ok?
    ensures var (v, rest) := TakeU16(s).value; s == PutU16(v, rest)
  {
    Split16Join(s[0], s[1]);
  }

  lemma U32Printed(v: bv32, tail: Bytes)
    ensures TakeU32(PutU32(v, tail)) == Ok((v, tail))
  {
    Join16Split(Low32(v));
    Join16Split(High32(v));
    Join32Split(v);
    assert PutU32(v, tail)[4..] == tail;
  }

  lemma U32Parsed(s: Bytes)
    requires TakeU32(s).Ok?
    ensures var (v, rest) := TakeU32(s).value; s == PutU32(v, rest)
  {
    Split16Join(s[0], s[1]);
    Split16Join(s[2], s[3]);
    Split32Join(Join16(s[0], s[1]), Join16(s[2], s[3]));
  }

  lemma U64Printed(v: bv64, tail: Bytes)
    ensures TakeU64(PutU64(v, tail)) == Ok((v, tail))
  {
    var s := PutU64(v, tail);
    U32Printed(Low64(v), PutU32(High64(v), tail));
    U32Printed(High64(v), tail);
    assert s[4..] == PutU32(High64(v), tail);
    Join64Split(v);
  }

  lemma U64Parsed(s: Bytes)
    requires TakeU64(s).Ok?
    ensures var (v, rest) := TakeU64(s).value; s == PutU64(v, rest)
  {
    U32Parsed(s);
    U32Parsed(s[4..]);
    assert s[4..][4..] == s[8..];
    Split64Join(Join32(Join16(s[0], s[1]), Join16(s[2], s[3])),
                Join32(Join16(s[4], s[5]), Join16(s[6], s[7])));
  }

  lemma LengthPrefixedPrinted(payload: Bytes, tail: Bytes)
    requires |payload| < 256
    ensures TakeLengthPrefixed(PutLengthPrefixed(payload, tail)) == Ok((payload, tail))
  {
    LengthByte(|payload|);
    assert PutLengthPrefixed(payload, tail)[1..] == payload + tail;
  }

  lemma LengthPrefixedParsed(s: Bytes)
    requires TakeLengthPrefixed(s).Ok?
    ensures var (payload, rest) := TakeLengthPrefixed(s).value;
            |payload| < 256 && s == PutLengthPrefixed(payload, rest)
  {
    LengthByteInverse(s[0]);
    var (payload, rest) := TakeLengthPrefixed(s).value;
    assert s[1..] == payload + rest;
  }

  // ---------------------------------------------------------------------------------------------
  // The cursor objects.

  class Reader {
    const bytes: Bytes
    const version: ProtocolVersion
    var position: nat

    ghost predicate Valid()
      reads this
    {
      position <= |bytes|
    }

    /** The bytes not yet read. */
    function Rest(): Bytes
      requires Valid()
      reads this
    {
      bytes[position..]
    }

    constructor (bytes: Bytes, version: ProtocolVersion)
      ensures Valid() && Rest() == bytes && this.version == version
    {
      this.bytes, this.version, position := bytes, version, 0;
      new;
      assert bytes[0..] == bytes;
    }

    /** The outcome `r` and the bytes left are those of the parser's result. */
    ghost predicate Follows<T>(r: Result<T, EzspError>, parsed: Parsed<T>)
      reads this
    {
      && Valid()
      && match parsed
         case Ok((value, rest)) => r == Ok(value) && Rest() == rest
         case Err(error) => r == Err(error)
    }

    method Take(n: nat) returns (r: Result<Bytes, EzspError>)
      requires Valid()
      modifies this`position
      ensures Follows(r, TakeBytes(old(Rest()), n))
      ensures r.Err? ==> position == old(position)
    {
      if position + n > |bytes| {
        return Err(TruncatedFrame(n, |bytes| - position));
      }
      assert bytes[position..][..n] == bytes[position..position + n];
      r := Ok(bytes[position..position + n]);
      position := position + n;
    }

    method U8() returns (r: Result<bv8, EzspError>)
      requires Valid()
      modifies this`position
      ensures Follows(r, TakeU8(old(Rest())))
      ensures r.Err? ==> position == old(position)
    {
      var taken :- Take(1);
      r := Ok(taken[0]);
    }

    method U16() returns (r: Result<bv16, EzspError>)
      requires Valid()
      modifies this`position
      ensures Follows(r, TakeU16(old(Rest())))
      ensures r.Err? ==> position == old(position)
    {
      var taken :- Take(2);
      r := Ok(Join16(taken[0], taken[1]));
    }

    method U32() returns (r: Result<bv32, EzspError>)
      requires Valid()
      modifies this`position
      ensures Follows(r, TakeU32(old(Rest())))
      ensures r.Err? ==> position == old(position)
    {
      var taken :- Take(4);
      r := Ok(Join32(Join16(taken[0], taken[1]), Join16(taken[2], taken[3])));
    }

    method U64() returns (r: Result<bv64, EzspError>)
      requires Valid()
      modifies this`position
      ensures Follows(r, TakeU64(old(Rest())))
      ensures r.Err? ==> position == old(position)
    {
      var taken :- Take(8);
      r := Ok(Join64(Join32(Join16(taken[0], taken[1]), Join16(taken[2], taken[3])),
                     Join32(Join16(taken[4], taken[5]), Join16(taken[6], taken[7]))));
    }

    /** When the body is missing, the length byte stays consumed. */
    method LengthPrefixed() returns (r: Result<Bytes, EzspError>)
      requires Valid()
      modifies this`position
      ensures Follows(r, TakeLengthPrefixed(old(Rest())))
      ensures r.Err? ==> position == old(position) + if |old(Rest())| > 0 then 1 else 0
    {
      var length :- U8();
      r := Take(length as int);
    }
  }

  class Writer {
    const version: ProtocolVersion
    var bytes: Bytes

    constructor (version: ProtocolVersion)
      ensures bytes == [] && this.version == version
    {
      this.version, bytes := version, [];
    }

    method U8(value: bv8)
      modifies this`bytes
      ensures bytes == old(bytes) + [value]
    {
      bytes := bytes + [value];
    }

    method U16(value: bv16)
      modifies this`bytes
      ensures bytes == old(bytes) + [Low16(value), High16(value)]
    {
      bytes := bytes + [Low16(value), High16(value)];
    }

    method LengthPrefixed(value: Bytes) returns (r: Result<(), EzspError>)
      modifies this`bytes
      ensures if |value| < 256
              then r == Ok(()) && bytes == old(bytes) + PutLengthPrefixed(value, [])
              else r == Err(PayloadTooLong(|value|, 255)) && bytes == old(bytes)
    {
      if |value| >= 256 {
        return Err(PayloadTooLong(|value|, 255));
      }
      U8(|value| as bv8);
      bytes := bytes + value;
      r := Ok(());
    }
  }
}
