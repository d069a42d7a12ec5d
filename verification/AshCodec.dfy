/** ASH framing: whitening, byte stuffing, the encoder, and the byte-at-a-time decoder. */
module AshCodec {
  import opened Basics
  import opened AshFrames
  import opened AshCrc

  const FLAG: bv8 := 0x7e
  const ESCAPE: bv8 := 0x7d
  const CANCEL: bv8 := 0x1a
  const SUBSTITUTE: bv8 := 0x18
  const XON: bv8 := 0x11
  const XOFF: bv8 := 0x13

  const MAX_FRAME_WITH_CRC := 133
  const MIN_FRAME_WITH_CRC := 3

  predicate IsReserved(byte: bv8) {
    byte == FLAG || byte == ESCAPE || byte == XON || byte == XOFF || byte == SUBSTITUTE || byte == CANCEL
  }

  function Flip(byte: bv8): bv8 {
    byte ^ 0x20
  }

  // ---------------------------------------------------------------------------------------------
  // Whitening.

  function NextKey(seed: bv8): bv8 {
    if seed & 1 == 0 then seed >> 1 else (seed >> 1) ^ 0xb8
  }

  /** The keystream: it depends on the position alone. */
  function Key(i: nat): bv8 {
    if i == 0 then 0x42 else NextKey(Key(i - 1))
  }

  function Randomised(data: Bytes): (r: Bytes)
    ensures |r| == |data|
  {
    seq(|data|, i requires 0 <= i < |data| => Xor8(data[i], Key(i)))
  }

  method Randomise(data: array<bv8>)
    modifies data
    ensures data[..] == Randomised(old(data[..]))
  {
    var seed: bv8 := 0x42;
    for i := 0 to data.Length
      invariant seed == Key(i)
      invariant forall k :: 0 <= k < i ==> data[k] == Xor8(old(data[k]), Key(k))
      invariant forall k :: i <= k < data.Length ==> data[k] == old(data[k])
    {
      data[i] := Xor8(data[i], seed);
      seed := NextKey(seed);
    }
  }

  lemma Xor8Involution(x: bv8, k: bv8)
    ensures Xor8(Xor8(x, k), k) == x
  {
  }

  /** Whitening twice is the identity. */
  lemma RandomisedInvolution(data: Bytes)
    ensures Randomised(Randomised(data)) == data
  {
    forall i | 0 <= i < |data|
      ensures Randomised(Randomised(data))[i] == data[i]
    {
      Xor8Involution(data[i], Key(i));
    }
  }

  // ---------------------------------------------------------------------------------------------
  // The encoder.

  function Stuff(bytes: Bytes): Bytes {
    if bytes == [] then []
    else (if IsReserved(bytes[0]) then [ESCAPE, Flip(bytes[0])] else [bytes[0]]) + Stuff(bytes[1..])
  }

  /** Control byte and body, the body whitened if it is data. */
  function Covered(frame: AshFrame): Bytes {
    [frame.Control()] + if frame.Data? then Randomised(frame.Body()) else frame.Body()
  }

  /** What is stuffed: the covered bytes and their CRC, high byte first. */
  function Unstuffed(frame: AshFrame): Bytes {
    Covered(frame) + ToBigEndian(Crc16All(Covered(frame)))
  }

  function Encoded(frame: AshFrame): Result<Bytes, AshError> {
    var length := |Covered(frame)| + 2;
    if length > MAX_FRAME_WITH_CRC then Err(TooLong(length, MAX_FRAME_WITH_CRC))
    else Ok(Stuff(Unstuffed(frame)) + [FLAG])
  }

  /** The bytes written for a frame: none when it cannot be encoded. */
  function Line(frame: AshFrame): Bytes {
    var encoded := Encoded(frame);
    if encoded.Ok? then encoded.value else []
  }

  lemma {:induction false} StuffConcat(a: Bytes, b: Bytes)
    ensures Stuff(a + b) == Stuff(a) + Stuff(b)
  {
    if a == [] {
      assert a + b == b;
    } else {
      assert (a + b)[1..] == a[1..] + b;
      StuffConcat(a[1..], b);
    }
  }

  /** The encoder's escaping loop. */
  method StuffBytes(bytes: Bytes) returns (out: Bytes)
    ensures out == Stuff(bytes)
  {
    out := [];
    for i := 0 to |bytes|
      invariant out == Stuff(bytes[..i])
    {
      assert bytes[..i + 1] == bytes[..i] + [bytes[i]];
      StuffConcat(bytes[..i], [bytes[i]]);
      if IsReserved(bytes[i]) {
        out := out + [ESCAPE, Flip(bytes[i])];
      } else {
        out := out + [bytes[i]];
      }
    }
    assert bytes[..|bytes|] == bytes;
  }

  method Encode(frame: AshFrame) returns (r: Result<Bytes, AshError>)
    ensures r == Encoded(frame)
  {
    var body := frame.Body();
    var buffer := new bv8[|body|](i requires 0 <= i < |body| => body[i]);
    assert buffer[..] == body;
    if frame.Data? {
      Randomise(buffer);
    }
    var unstuffed := [frame.Control()] + buffer[..];
    if |unstuffed| + 2 > MAX_FRAME_WITH_CRC {
      return Err(TooLong(|unstuffed| + 2, MAX_FRAME_WITH_CRC));
    }
    unstuffed := unstuffed + ToBigEndian(Crc16All(unstuffed));
    var out := StuffBytes(unstuffed);
    r := Ok(out + [FLAG]);
  }

  // ---------------------------------------------------------------------------------------------
  // The decoder.

  datatype Decoded = Frame(frame: AshFrame) | Rejected(error: AshError)

  datatype Partial = Partial(bytes: Bytes, escaped: bool, dropping: Option<AshError>)

  const EMPTY := Partial([], false, None)

  /** What the bytes between two delimiters amount to once unstuffed. */
  function Checked(bytes: Bytes): Option<Decoded> {
    if bytes == [] then
      None
    else if |bytes| < MIN_FRAME_WITH_CRC then
      Some(Rejected(TooShort(|bytes|, MIN_FRAME_WITH_CRC)))
    else
      var split := |bytes| - 2;
      var covered := bytes[..split];
      var carried := BigEndian(bytes[split], bytes[split + 1]);
      var computed := Crc16All(covered);
      if computed != carried then
        Some(Rejected(BadCrc(computed, carried)))
      else
        var body := if covered[0] & CONTROL_DATA_MASK == 0 then Randomised(covered[1..]) else covered[1..];
        match FromParts(covered[0], body)
        case Ok(frame) => Some(Frame(frame))
        case Err(error) => Some(Rejected(error))
  }

  function Finished(p: Partial): Option<Decoded> {
    match p.dropping
    case Some(error) => Some(Rejected(error))
    case None => Checked(p.bytes)
  }

  function Pushed(p: Partial, byte: bv8): (Partial, Option<Decoded>) {
    if byte == XON || byte == XOFF then (p, None)
    else if byte == CANCEL then (EMPTY, None)
    else if byte == SUBSTITUTE then (p.(dropping := Some(Substituted)), None)
    else if byte == ESCAPE then (p.(escaped := true), None)
    else if byte == FLAG then (EMPTY, Finished(p))
    else
      var byte := if p.escaped then Flip(byte) else byte;
      if |p.bytes| >= MAX_FRAME_WITH_CRC then
        (p.(escaped := false, dropping := Some(TooLong(|p.bytes| + 1, MAX_FRAME_WITH_CRC))), None)
      else
        (Partial(p.bytes + [byte], false, p.dropping), None)
  }

  function Listed(decoded: Option<Decoded>): seq<Decoded> {
    if decoded.Some? then [decoded.value] else []
  }

  /** The left fold of `Pushed`, with the outputs in order. */
  function Fed(p: Partial, bytes: Bytes): (Partial, seq<Decoded>)
    decreases |bytes|
  {
    if bytes == [] then (p, [])
    else
      var (before, out) := Fed(p, bytes[..|bytes| - 1]);
      var (after, decoded) := Pushed(before, bytes[|bytes| - 1]);
      (after, out + Listed(decoded))
  }

  lemma FedLast(p: Partial, bytes: Bytes, byte: bv8)
    ensures Fed(p, bytes + [byte])
            == (Pushed(Fed(p, bytes).0, byte).0, Fed(p, bytes).1 + Listed(Pushed(Fed(p, bytes).0, byte).1))
  {
    assert (bytes + [byte])[..|bytes|] == bytes;
  }

  class Decoder {
    var partial: Bytes
    var escaped: bool
    var dropping: Option<AshError>

    ghost function View(): Partial
      reads this
    {
      Partial(partial, escaped, dropping)
    }

    constructor ()
      ensures View() == EMPTY
    {
      partial, escaped, dropping := [], false, None;
    }

    method Reset()
      modifies this
      ensures View() == EMPTY
    {
      partial, escaped, dropping := [], false, None;
    }

    method Feed(bytes: Bytes) returns (out: seq<Decoded>)
      modifies this
      ensures (View(), out) == Fed(old(View()), bytes)
    {
      out := [];
      ghost var start := View();
      for i := 0 to |bytes|
        invariant Fed(start, bytes[..i]) == (View(), out)
      {
        FedLast(start, bytes[..i], bytes[i]);
        assert bytes[..i + 1] == bytes[..i] + [bytes[i]];
        ghost var before, outBefore := View(), out;
        assert Fed(start, bytes[..i]) == (before, outBefore);
        var decoded := Push(bytes[i]);
        if decoded.Some? {
          out := out + [decoded.value];
        }
        assert (View(), decoded) == Pushed(before, bytes[i]);
        assert out == outBefore + Listed(decoded);
      }
      assert bytes[..|bytes|] == bytes;
    }

    method Push(byte: bv8) returns (decoded: Option<Decoded>)
      modifies this
      ensures (View(), decoded) == Pushed(old(View()), byte)
    {
      decoded := None;
      if byte == XON || byte == XOFF {
      } else if byte == CANCEL {
        Reset();
      } else if byte == SUBSTITUTE {
        dropping := Some(Substituted);
      } else if byte == ESCAPE {
        escaped := true;
      } else if byte == FLAG {
        decoded := Finish();
        Reset();
      } else {
        var byte := byte;
        if escaped {
          escaped := false;
          byte := Flip(byte);
        }
        if |partial| >= MAX_FRAME_WITH_CRC {
          dropping := Some(TooLong(|partial| + 1, MAX_FRAME_WITH_CRC));
          return;
        }
        partial := partial + [byte];
      }
    }

    method Finish() returns (decoded: Option<Decoded>)
      ensures decoded == Finished(View())
    {
      match dropping {
        case Some(error) => return Some(Rejected(error));
        case None =>
      }
      if partial == [] {
        return None;
      }
      if |partial| < MIN_FRAME_WITH_CRC {
        return Some(Rejected(TooShort(|partial|, MIN_FRAME_WITH_CRC)));
      }
      var split := |partial| - 2;
      var covered := partial[..split];
      var carried := BigEndian(partial[split], partial[split + 1]);
      var computed := Crc16All(covered);
      if computed != carried {
        return Some(Rejected(BadCrc(computed, carried)));
      }
      var control, rest := covered[0], covered[1..];
      var body := new bv8[|rest|](i requires 0 <= i < |rest| => rest[i]);
      assert body[..] == rest;
      if control & CONTROL_DATA_MASK == 0 {
        Randomise(body);
      }
      match FromParts(control, body[..]) {
        case Ok(frame) => decoded := Some(Frame(frame));
        case Err(error) => decoded := Some(Rejected(error));
      }
    }
  }
}
