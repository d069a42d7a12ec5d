/** The ASH frame check: CRC-16 with polynomial 0x1021 and initial value 0xffff, unreflected. */
module AshCrc {
  import opened Basics

  const INITIAL: bv16 := 0xffff

  function Xor16(x: bv16, y: bv16): bv16 { x ^ y }

  function Xor8(x: bv8, y: bv8): bv8 { x ^ y }

  /** One shift of the register. */
  function Shift(crc: bv16): bv16 {
    if crc & 0x8000 == 0 then crc << 1 else (crc << 1) ^ 0x1021
  }

  function Shifts(crc: bv16, n: nat): bv16 {
    if n == 0 then crc else Shift(Shifts(crc, n - 1))
  }

  /** A byte aligned with the top of the register. */
  function High(byte: bv8): bv16 {
    (byte as bv16) << 8
  }

  function Crc16(seed: bv16, byte: bv8): bv16 {
    Shifts(Xor16(seed, High(byte)), 8)
  }

  method ComputeCrc16(seed: bv16, byte: bv8) returns (crc: bv16)
    ensures crc == Crc16(seed, byte)
  {
    crc := Xor16(seed, High(byte));
    var bit := 0;
    while bit < 8
      invariant 0 <= bit <= 8
      invariant crc == Shifts(Xor16(seed, High(byte)), bit)
    {
      crc := Shift(crc);
      bit := bit + 1;
    }
  }

  /** The left fold of `Crc16` from `seed`. */
  function CrcFrom(seed: bv16, bytes: Bytes): bv16
    decreases |bytes|
  {
    if bytes == [] then seed else CrcFrom(Crc16(seed, bytes[0]), bytes[1..])
  }

  function Crc16All(bytes: Bytes): bv16 {
    CrcFrom(INITIAL, bytes)
  }

  // ---------------------------------------------------------------------------------------------
  // The register is a linear, invertible machine.

  lemma ShiftLinearBothClear(x: bv16, y: bv16)
    requires x & 0x8000 == 0 && y & 0x8000 == 0
    ensures Shift(Xor16(x, y)) == Xor16(Shift(x), Shift(y))
  {
  }

  lemma ShiftLinearOneSet(x: bv16, y: bv16)
    requires x & 0x8000 != 0 && y & 0x8000 == 0
    ensures Shift(Xor16(x, y)) == Xor16(Shift(x), Shift(y))
  {
  }

  lemma ShiftLinearBothSet(x: bv16, y: bv16)
    requires x & 0x8000 != 0 && y & 0x8000 != 0
    ensures Shift(Xor16(x, y)) == Xor16(Shift(x), Shift(y))
  {
  }

  lemma Xor16Commutes(x: bv16, y: bv16)
    ensures Xor16(x, y) == Xor16(y, x)
  {
  }

  lemma ShiftLinear(x: bv16, y: bv16)
    ensures Shift(Xor16(x, y)) == Xor16(Shift(x), Shift(y))
  {
    if x & 0x8000 == 0 && y & 0x8000 == 0 {
      ShiftLinearBothClear(x, y);
    } else if y & 0x8000 == 0 {
      ShiftLinearOneSet(x, y);
    } else if x & 0x8000 == 0 {
      ShiftLinearOneSet(y, x);
      Xor16Commutes(x, y);
      Xor16Commutes(Shift(x), Shift(y));
    } else {
      ShiftLinearBothSet(x, y);
    }
  }

  lemma ShiftInjective(x: bv16)
    requires Shift(x) == 0
    ensures x == 0
  {
  }

  lemma {:induction false} ShiftsLinear(x: bv16, y: bv16, n: nat)
    ensures Shifts(Xor16(x, y), n) == Xor16(Shifts(x, n), Shifts(y, n))
  {
    if n > 0 {
      ShiftsLinear(x, y, n - 1);
      ShiftLinear(Shifts(x, n - 1), Shifts(y, n - 1));
    }
  }

  lemma {:induction false} ShiftsInjective(x: bv16, n: nat)
    ensures Shifts(x, n) == 0 <==> x == 0
  {
    if n > 0 {
      ShiftsInjective(x, n - 1);
      if Shifts(x, n) == 0 {
        ShiftInjective(Shifts(x, n - 1));
      }
    }
  }

  function XorBytes(a: Bytes, b: Bytes): Bytes
    requires |a| == |b|
  {
    seq(|a|, i requires 0 <= i < |a| => Xor8(a[i], b[i]))
  }

  lemma EnterLinear(x: bv16, y: bv16, a: bv8, b: bv8)
    ensures Xor16(Xor16(x, y), High(Xor8(a, b))) == Xor16(Xor16(x, High(a)), Xor16(y, High(b)))
  {
  }

  lemma Crc16Linear(x: bv16, y: bv16, a: bv8, b: bv8)
    ensures Crc16(Xor16(x, y), Xor8(a, b)) == Xor16(Crc16(x, a), Crc16(y, b))
  {
    EnterLinear(x, y, a, b);
    ShiftsLinear(Xor16(x, High(a)), Xor16(y, High(b)), 8);
  }

  lemma {:induction false} CrcLinear(x: bv16, y: bv16, a: Bytes, b: Bytes)
    requires |a| == |b|
    ensures CrcFrom(Xor16(x, y), XorBytes(a, b)) == Xor16(CrcFrom(x, a), CrcFrom(y, b))
    decreases |a|
  {
    if a != [] {
      Crc16Linear(x, y, a[0], b[0]);
      assert XorBytes(a, b)[1..] == XorBytes(a[1..], b[1..]);
      CrcLinear(Crc16(x, a[0]), Crc16(y, b[0]), a[1..], b[1..]);
    }
  }

  /** The CRC is affine: it commutes with the XOR of any three messages of one length. */
  lemma CrcAffine(a: Bytes, b: Bytes, c: Bytes)
    requires |a| == |b| == |c|
    ensures Crc16All(XorBytes(XorBytes(a, b), c))
            == Xor16(Xor16(Crc16All(a), Crc16All(b)), Crc16All(c))
  {
    CrcLinear(INITIAL, INITIAL, a, b);
    CrcLinear(Xor16(INITIAL, INITIAL), INITIAL, XorBytes(a, b), c);
    assert Xor16(Xor16(INITIAL, INITIAL), INITIAL) == INITIAL;
  }

  lemma {:induction false} CrcConcat(seed: bv16, a: Bytes, b: Bytes)
    ensures CrcFrom(seed, a + b) == CrcFrom(CrcFrom(seed, a), b)
    decreases |a|
  {
    if a == [] {
      assert a + b == b;
    } else {
      assert (a + b)[1..] == a[1..] + b;
      CrcConcat(Crc16(seed, a[0]), a[1..], b);
    }
  }

  // ---------------------------------------------------------------------------------------------
  // Processing a byte at once is processing its bits one by one, most significant first.

  function Top(bit: bool): bv16 {
    if bit then 0x8000 else 0
  }

  /** The register after a string of bits. */
  function Serial(seed: bv16, bits: seq<bool>): bv16
    decreases |bits|
  {
    if bits == [] then seed else Serial(Shift(Xor16(seed, Top(bits[0]))), bits[1..])
  }

  function HighBit(byte: bv8): bool {
    byte & 0x80 != 0
  }

  function Double(byte: bv8): bv8 {
    byte << 1
  }

  /** The first `n` bits of a byte, most significant first. */
  function LeadingBits(byte: bv8, n: nat): (bits: seq<bool>)
    ensures |bits| == n
    decreases n
  {
    if n == 0 then [] else [HighBit(byte)] + LeadingBits(Double(byte), n - 1)
  }

  const BITS_PER_BYTE: nat := 8

  function ByteBits(byte: bv8): (bits: seq<bool>)
    ensures |bits| == 8
  {
    LeadingBits(byte, BITS_PER_BYTE)
  }

  function Doubles(byte: bv8, n: nat): bv8
    decreases n
  {
    if n == 0 then byte else Doubles(Double(byte), n - 1)
  }

  function Bits(bytes: Bytes): (bits: seq<bool>)
    ensures |bits| == 8 * |bytes|
  {
    if bytes == [] then [] else ByteBits(bytes[0]) + Bits(bytes[1..])
  }

  lemma ShiftsInside(x: bv16, n: nat)
    ensures Shifts(Shift(x), n) == Shift(Shifts(x, n))
  {
    if n > 0 {
      ShiftsInside(x, n - 1);
    }
  }

  lemma Xor16Associates(x: bv16, y: bv16, z: bv16)
    ensures Xor16(Xor16(x, y), z) == Xor16(x, Xor16(y, z))
  {
  }

  lemma Xor16Zero(x: bv16)
    ensures Xor16(x, 0) == x && Xor16(0, x) == x && Xor16(x, x) == 0
  {
  }

  lemma SplitByte(byte: bv8)
    ensures Xor16(Top(HighBit(byte)), High(byte & 0x7f)) == High(byte)
    ensures Shift(High(byte & 0x7f)) == High(Double(byte))
  {
  }

  /** One shift consumes the leading bit and leaves the rest aligned with the top. */
  lemma ShiftConsumesBit(seed: bv16, byte: bv8)
    ensures Shift(Xor16(seed, High(byte)))
            == Xor16(Shift(Xor16(seed, Top(HighBit(byte)))), High(Double(byte)))
  {
    var head, tail := Top(HighBit(byte)), High(byte & 0x7f);
    SplitByte(byte);
    Xor16Associates(seed, head, tail);
    ShiftLinear(Xor16(seed, head), tail);
  }

  lemma {:induction false} ShiftsConsumeBits(seed: bv16, byte: bv8, n: nat)
    ensures Shifts(Xor16(seed, High(byte)), n)
            == Xor16(Serial(seed, LeadingBits(byte, n)), High(Doubles(byte, n)))
    decreases n
  {
    if n > 0 {
      ShiftConsumesBit(seed, byte);
      ShiftsInside(Xor16(seed, High(byte)), n - 1);
      var next := Shift(Xor16(seed, Top(HighBit(byte))));
      ShiftsConsumeBits(next, Double(byte), n - 1);
      assert LeadingBits(byte, n)[1..] == LeadingBits(Double(byte), n - 1);
    }
  }

  lemma EightDoubles(byte: bv8)
    ensures Doubles(byte, 8) == 0
  {
    var b2 := Double(Double(byte));
    var b4 := Double(Double(b2));
    var b6 := Double(Double(b4));
    assert Doubles(byte, 8) == Doubles(Double(byte), 7) == Doubles(b2, 6);
    assert Doubles(b2, 6) == Doubles(Double(b2), 5) == Doubles(b4, 4);
    assert Doubles(b4, 4) == Doubles(Double(b4), 3) == Doubles(b6, 2);
    assert Doubles(b6, 2) == Doubles(Double(b6), 1) == Double(Double(b6));
    assert b4 == byte << 4 && Double(Double(b6)) == b4 << 4;
  }

  lemma ByteIsEightBits(seed: bv16, byte: bv8)
    ensures Crc16(seed, byte) == Serial(seed, ByteBits(byte))
  {
    ShiftsConsumeBits(seed, byte, BITS_PER_BYTE);
    EightDoubles(byte);
    assert High(0) == 0;
    Xor16Zero(Serial(seed, ByteBits(byte)));
  }

  lemma {:induction false} SerialConcat(seed: bv16, a: seq<bool>, b: seq<bool>)
    ensures Serial(seed, a + b) == Serial(Serial(seed, a), b)
    decreases |a|
  {
    if a == [] {
      assert a + b == b;
    } else {
      assert (a + b)[1..] == a[1..] + b;
      SerialConcat(Shift(Xor16(seed, Top(a[0]))), a[1..], b);
    }
  }

  lemma {:induction false} CrcIsSerial(seed: bv16, bytes: Bytes)
    ensures CrcFrom(seed, bytes) == Serial(seed, Bits(bytes))
    decreases |bytes|
  {
    if bytes != [] {
      ByteIsEightBits(seed, bytes[0]);
      SerialConcat(seed, ByteBits(bytes[0]), Bits(bytes[1..]));
      CrcIsSerial(Crc16(seed, bytes[0]), bytes[1..]);
    }
  }

  // ---------------------------------------------------------------------------------------------
  // The register is the remainder of a polynomial division.

  /** The mask of bit `i`, counting from the most significant. */
  function Mask(i: nat): bv16
    requires i < 16
  {
    [0x8000, 0x4000, 0x2000, 0x1000, 0x0800, 0x0400, 0x0200, 0x0100,
     0x0080, 0x0040, 0x0020, 0x0010, 0x0008, 0x0004, 0x0002, 0x0001][i]
  }

  function And16(x: bv16, mask: bv16): bv16 { x & mask }

  function Bit(x: bv16, mask: bv16): bool {
    And16(x, mask) != 0
  }

  /** The register as sixteen bits, most significant first. */
  function RegisterBits(x: bv16): (bits: seq<bool>)
    ensures |bits| == 16
  {
    seq(16, i requires 0 <= i < 16 => Bit(x, Mask(i)))
  }

  /** x^16 + x^12 + x^5 + 1 without its leading term. */
  const DIVISOR_TAIL: seq<bool> := [
    false, false, false, true, false, false, false, false,
    false, false, true, false, false, false, false, true]

  /** Adds a polynomial to the leading terms of another, coefficients mod 2. */
  function AddLeading(p: seq<bool>, a: seq<bool>): (r: seq<bool>)
    ensures |r| == |a|
  {
    seq(|a|, i requires 0 <= i < |a| => if i < |p| then p[i] != a[i] else a[i])
  }

  /** The remainder of `p`, leading coefficient first, by x^16 + x^12 + x^5 + 1: schoolbook
      division, one subtraction of the divisor per leading coefficient. */
  function Remainder(p: seq<bool>): seq<bool>
    requires |p| >= 16
    decreases |p|
  {
    if |p| == 16 then p
    else if p[0] then Remainder(AddLeading(DIVISOR_TAIL, p[1..]))
    else Remainder(p[1..])
  }

  function Zeros(n: nat): seq<bool> {
    seq(n, _ => false)
  }

  lemma MasksAreSingleBits(i: nat)
    requires i < 16
    ensures Mask(i) & (Mask(i) - 1) == 0 && Mask(i) != 0
    ensures Mask(i) >> 1 == if i < 15 then Mask(i + 1) else 0
    ensures Bit(0x1021, Mask(i)) == DIVISOR_TAIL[i]
  {
  }

  lemma SingleBit(x: bv16, mask: bv16)
    requires mask & (mask - 1) == 0
    ensures And16(x, mask) == 0 || And16(x, mask) == mask
  {
  }

  lemma AndDistributes(x: bv16, y: bv16, mask: bv16)
    ensures And16(Xor16(x, y), mask) == Xor16(And16(x, mask), And16(y, mask))
  {
  }

  lemma BitOfXor(x: bv16, y: bv16, mask: bv16)
    requires mask & (mask - 1) == 0 && mask != 0
    ensures Bit(Xor16(x, y), mask) == (Bit(y, mask) != Bit(x, mask))
  {
    SingleBit(x, mask);
    SingleBit(y, mask);
    AndDistributes(x, y, mask);
    Xor16Zero(And16(x, mask));
    Xor16Zero(And16(y, mask));
  }

  lemma BitOfShift(x: bv16, mask: bv16)
    ensures Bit(x << 1, mask) == Bit(x, mask >> 1)
  {
  }

  function ShiftedLeft(x: bv16): bv16 { x << 1 }

  lemma ShiftByTopBit(x: bv16)
    ensures Shift(x) == if Bit(x, 0x8000) then Xor16(ShiftedLeft(x), 0x1021) else ShiftedLeft(x)
  {
  }

  lemma TopBit(x: bv16, bit: bool)
    ensures var y := Xor16(x, Top(bit));
            && ShiftedLeft(y) == ShiftedLeft(x)
            && Bit(y, 0x8000) == (Bit(x, 0x8000) != bit)
  {
    if bit {
      assert (x ^ 0x8000) << 1 == x << 1;
      assert ((x ^ 0x8000) & 0x8000 != 0) == (x & 0x8000 == 0);
    }
  }

  lemma DividendBit(x: bv16, i: nat)
    requires i < 16
    ensures var y := ShiftedLeft(x);
            && Bit(y, Mask(i)) == (if i < 15 then Bit(x, Mask(i + 1)) else false)
            && Bit(Xor16(y, 0x1021), Mask(i)) == (DIVISOR_TAIL[i] != Bit(y, Mask(i)))
  {
    MasksAreSingleBits(i);
    BitOfShift(x, Mask(i));
    BitOfXor(ShiftedLeft(x), 0x1021, Mask(i));
    assert !Bit(x, 0);
  }

  lemma DividendTail(x: bv16, a: seq<bool>)
    requires |a| >= 17
    ensures AddLeading(RegisterBits(x), a)[1..] == AddLeading(RegisterBits(ShiftedLeft(x)), a[1..])
  {
    forall i | 0 <= i < |a| - 1
      ensures AddLeading(RegisterBits(x), a)[i + 1] == AddLeading(RegisterBits(ShiftedLeft(x)), a[1..])[i]
    {
      if i < 16 {
        DividendBit(x, i);
      }
    }
  }

  lemma DivisorSubtracted(y: bv16, x: bv16, a: seq<bool>)
    requires y == ShiftedLeft(x)
    ensures AddLeading(DIVISOR_TAIL, AddLeading(RegisterBits(y), a))
            == AddLeading(RegisterBits(Xor16(y, 0x1021)), a)
  {
    forall i | 0 <= i < |a| && i < 16
      ensures RegisterBits(Xor16(y, 0x1021))[i] == (DIVISOR_TAIL[i] != RegisterBits(y)[i])
    {
      DividendBit(x, i);
    }
  }

  lemma {:induction false} SerialIsRemainder(seed: bv16, bits: seq<bool>)
    ensures RegisterBits(Serial(seed, bits))
            == Remainder(AddLeading(RegisterBits(seed), bits + Zeros(16)))
    decreases |bits|
  {
    var dividend := bits + Zeros(16);
    if bits == [] {
      assert AddLeading(RegisterBits(seed), dividend) == RegisterBits(seed);
    } else {
      var y := Xor16(seed, Top(bits[0]));
      TopBit(seed, bits[0]);
      ShiftByTopBit(y);
      DividendTail(seed, dividend);
      DivisorSubtracted(ShiftedLeft(seed), seed, dividend[1..]);
      assert AddLeading(RegisterBits(seed), dividend)[0] == (Bit(seed, Mask(0)) != bits[0]);
      assert dividend[1..] == bits[1..] + Zeros(16);
      SerialIsRemainder(Shift(y), bits[1..]);
    }
  }

  /** The CRC of a message is the remainder, by x^16 + x^12 + x^5 + 1, of the message followed by
      sixteen zero bits, with the leading sixteen bits inverted. */
  lemma CrcIsRemainder(bytes: Bytes)
    ensures RegisterBits(Crc16All(bytes))
            == Remainder(AddLeading(seq(16, _ => true), Bits(bytes) + Zeros(16)))
  {
    CrcIsSerial(INITIAL, bytes);
    SerialIsRemainder(INITIAL, Bits(bytes));
    assert RegisterBits(INITIAL) == seq(16, _ => true);
  }

  // ---------------------------------------------------------------------------------------------
  // The check a receiver makes, and the errors it cannot miss.

  function BigEndian(hi: bv8, lo: bv8): bv16 {
    High(hi) | (lo as bv16)
  }

  function ToBigEndian(x: bv16): Bytes {
    [(x >> 8) as bv8, (x & 0xff) as bv8]
  }

  /** Whether the last two bytes are the CRC of the rest. */
  predicate CheckPasses(frame: Bytes)
    requires |frame| >= 2
  {
    Crc16All(frame[..|frame| - 2]) == BigEndian(frame[|frame| - 2], frame[|frame| - 1])
  }

  lemma BigEndianRoundTrip(x: bv16)
    ensures BigEndian(ToBigEndian(x)[0], ToBigEndian(x)[1]) == x
  {
  }

  lemma ShiftsWithoutFeedback(x: bv16)
    requires x & 0xff00 == 0
    ensures Shift(x) == x << 1 && Shift(x << 1) == x << 2 && Shift(x << 2) == x << 3
    ensures Shift(x << 3) == x << 4 && Shift(x << 4) == x << 5 && Shift(x << 5) == x << 6
    ensures Shift(x << 6) == x << 7 && Shift(x << 7) == x << 8
  {
  }

  /** A register whose high byte is clear shifts eight times without feedback. */
  lemma NoFeedback(x: bv16)
    requires x & 0xff00 == 0
    ensures Shifts(x, 8) == x << 8
  {
    ShiftsWithoutFeedback(x);
    assert Shifts(x, 1) == Shift(x);
    assert Shifts(x, 2) == Shift(Shift(x));
    assert Shifts(x, 4) == Shift(Shift(Shifts(x, 2)));
    assert Shifts(x, 6) == Shift(Shift(Shifts(x, 4)));
    assert Shifts(x, 8) == Shift(Shift(Shifts(x, 6)));
  }

  lemma {:induction false} ShiftsAdd(x: bv16, m: nat, n: nat)
    ensures Shifts(Shifts(x, m), n) == Shifts(x, m + n)
    decreases n
  {
    if n > 0 {
      ShiftsAdd(x, m, n - 1);
    }
  }

  lemma BigEndianIsXor(seed: bv16, hi: bv8, lo: bv8)
    ensures Xor16(seed, BigEndian(hi, lo)) == Xor16(Xor16(seed, High(hi)), lo as bv16)
  {
    assert BigEndian(hi, lo) == Xor16(High(hi), lo as bv16);
    Xor16Associates(seed, High(hi), lo as bv16);
  }

  /** Two bytes at once: sixteen shifts of the register with both bytes added in. */
  lemma CrcOfTwoBytes(seed: bv16, hi: bv8, lo: bv8)
    ensures CrcFrom(seed, [hi, lo]) == Shifts(Xor16(seed, BigEndian(hi, lo)), 16)
  {
    var x := Xor16(seed, High(hi));
    BigEndianIsXor(seed, hi, lo);
    ShiftsAdd(Xor16(x, lo as bv16), 8, 8);
    ShiftsLinear(x, lo as bv16, 8);
    NoFeedback(lo as bv16);
    assert [hi, lo][1..] == [lo];
    assert CrcFrom(seed, [hi, lo]) == CrcFrom(Crc16(seed, hi), [lo]) == Crc16(Crc16(seed, hi), lo);
  }

  lemma Xor16Undone(x: bv16, y: bv16)
    ensures Xor16(Xor16(x, y), y) == x
  {
  }

  lemma Xor16Cancels(x: bv16, y: bv16)
    ensures Xor16(x, y) == 0 <==> x == y
  {
    Xor16Undone(x, y);
    Xor16Zero(y);
  }

  /** The check passes exactly when the register comes to zero over the whole frame. */
  lemma CheckIsZeroResidue(frame: Bytes)
    requires |frame| >= 2
    ensures CheckPasses(frame) <==> CrcFrom(INITIAL, frame) == 0
  {
    var n := |frame| - 2;
    var crc := Crc16All(frame[..n]);
    var carried := BigEndian(frame[n], frame[n + 1]);
    assert frame == frame[..n] + [frame[n], frame[n + 1]];
    CrcConcat(INITIAL, frame[..n], [frame[n], frame[n + 1]]);
    CrcOfTwoBytes(crc, frame[n], frame[n + 1]);
    ShiftsInjective(Xor16(crc, carried), 16);
    Xor16Cancels(crc, carried);
  }

  // ---------------------------------------------------------------------------------------------
  // Bursts of sixteen bits.

  function XorBits(a: seq<bool>, b: seq<bool>): seq<bool>
    requires |a| == |b|
  {
    seq(|a|, i requires 0 <= i < |a| => a[i] != b[i])
  }

  lemma TopOfXor(a: bool, b: bool)
    ensures Top(a != b) == Xor16(Top(a), Top(b))
  {
  }

  lemma Xor16Exchange(x: bv16, y: bv16, a: bv16, b: bv16)
    ensures Xor16(Xor16(x, y), Xor16(a, b)) == Xor16(Xor16(x, a), Xor16(y, b))
  {
    Xor16Associates(Xor16(x, y), a, b);
    Xor16Associates(x, y, a);
    Xor16Commutes(y, a);
    Xor16Associates(x, a, y);
    Xor16Associates(Xor16(x, a), y, b);
  }

  lemma {:induction false} SerialLinear(x: bv16, y: bv16, a: seq<bool>, b: seq<bool>)
    requires |a| == |b|
    ensures Serial(Xor16(x, y), XorBits(a, b)) == Xor16(Serial(x, a), Serial(y, b))
    decreases |a|
  {
    if a != [] {
      TopOfXor(a[0], b[0]);
      Xor16Exchange(x, y, Top(a[0]), Top(b[0]));
      ShiftLinear(Xor16(x, Top(a[0])), Xor16(y, Top(b[0])));
      assert XorBits(a, b)[1..] == XorBits(a[1..], b[1..]);
      SerialLinear(Shift(Xor16(x, Top(a[0]))), Shift(Xor16(y, Top(b[0]))), a[1..], b[1..]);
    }
  }

  /** Zero bits only shift the register. */
  lemma {:induction false} SerialOfZeros(seed: bv16, bits: seq<bool>)
    requires forall i :: 0 <= i < |bits| ==> !bits[i]
    ensures Serial(seed, bits) == Shifts(seed, |bits|)
    decreases |bits|
  {
    if bits != [] {
      Xor16Zero(seed);
      SerialOfZeros(Shift(seed), bits[1..]);
      ShiftsInside(seed, |bits| - 1);
    }
  }

  function Half(x: bv16): bv16 { x >> 1 }

  /** Up to sixteen bits aligned with the top of the register. */
  function Aligned(bits: seq<bool>): bv16
    decreases |bits|
  {
    if bits == [] then 0 else Xor16(Top(bits[0]), Half(Aligned(bits[1..])))
  }

  lemma HalfKeepsClear(v: bv16, bit: bool, mask: bv16)
    requires mask & (mask - 1) == 0 && v & (mask - 1) == 0 && mask != 0
    ensures mask >> 1 != 0 ==> Xor16(Top(bit), Half(v)) & ((mask >> 1) - 1) == 0
  {
  }

  /** Bits below the last aligned one are clear. */
  lemma {:induction false} AlignedIsClearBelow(bits: seq<bool>)
    requires 1 <= |bits| <= 16
    ensures Aligned(bits) & (Mask(|bits| - 1) - 1) == 0
    decreases |bits|
  {
    if |bits| == 1 {
      assert Half(Aligned(bits[1..])) == 0;
      Xor16Zero(Top(bits[0]));
      assert Mask(0) == 0x8000;
    } else {
      AlignedIsClearBelow(bits[1..]);
      MasksAreSingleBits(|bits| - 2);
      MasksAreSingleBits(|bits| - 1);
      HalfKeepsClear(Aligned(bits[1..]), bits[0], Mask(|bits| - 2));
    }
  }

  lemma ClearBelowIsEven(v: bv16, mask: bv16)
    requires mask >> 1 != 0 && mask & (mask - 1) == 0 && v & (mask - 1) == 0
    ensures v & 1 == 0
  {
  }

  lemma AlignedIsEven(bits: seq<bool>)
    requires |bits| <= 15
    ensures Aligned(bits) & 1 == 0
  {
    if bits != [] {
      AlignedIsClearBelow(bits);
      MasksAreSingleBits(|bits| - 1);
      MasksAreSingleBits(|bits|);
      ClearBelowIsEven(Aligned(bits), Mask(|bits| - 1));
    }
  }

  lemma ShiftOfHalf(v: bv16)
    requires v & 1 == 0
    ensures Shift(Half(v)) == v
  {
  }

  lemma TopAndHalfZero(v: bv16, bit: bool)
    requires v & 1 == 0 && Xor16(Top(bit), Half(v)) == 0
    ensures !bit && v == 0
  {
  }

  lemma {:induction false} SerialOfShort(seed: bv16, bits: seq<bool>)
    requires |bits| <= 16
    ensures Serial(seed, bits) == Shifts(Xor16(seed, Aligned(bits)), |bits|)
    decreases |bits|
  {
    if bits == [] {
      Xor16Zero(seed);
    } else {
      var head, rest := Xor16(seed, Top(bits[0])), Aligned(bits[1..]);
      SerialOfShort(Shift(head), bits[1..]);
      AlignedIsEven(bits[1..]);
      ShiftOfHalf(rest);
      ShiftLinear(head, Half(rest));
      Xor16Associates(seed, Top(bits[0]), Half(rest));
      ShiftsInside(Xor16(head, Half(rest)), |bits| - 1);
    }
  }

  lemma {:induction false} AlignedZero(bits: seq<bool>)
    requires |bits| <= 16 && Aligned(bits) == 0
    ensures forall i :: 0 <= i < |bits| ==> !bits[i]
    decreases |bits|
  {
    if bits != [] {
      AlignedIsEven(bits[1..]);
      TopAndHalfZero(Aligned(bits[1..]), bits[0]);
      AlignedZero(bits[1..]);
      assert bits == [bits[0]] + bits[1..];
    }
  }

  /** From an empty register, a string that is zero outside sixteen consecutive bits brings the
      register back to zero only if it is zero there too. */
  lemma BurstLeavesTrace(d: seq<bool>, start: nat)
    requires start <= |d|
    requires forall k :: 0 <= k < |d| && !(start <= k < start + 16) ==> !d[k]
    requires Serial(0, d) == 0
    ensures forall k :: 0 <= k < |d| ==> !d[k]
  {
    var end := if start + 16 <= |d| then start + 16 else |d|;
    var before, burst, after := d[..start], d[start..end], d[end..];
    assert d == before + (burst + after);
    SerialConcat(0, before, burst + after);
    SerialConcat(Serial(0, before), burst, after);
    SerialOfZeros(0, before);
    ShiftsInjective(0, |before|);
    SerialOfZeros(Serial(0, burst), after);
    ShiftsInjective(Serial(0, burst), |after|);
    SerialOfShort(0, burst);
    ShiftsInjective(Xor16(0, Aligned(burst)), |burst|);
    Xor16Zero(Aligned(burst));
    AlignedZero(burst);
    forall k | 0 <= k < |d|
      ensures !d[k]
    {
      assert start <= k < end ==> d[k] == burst[k - start];
    }
  }

  lemma HighInjective(a: bv8, b: bv8)
    requires High(a) == High(b)
    ensures a == b
  {
  }

  lemma ByteBitsInjective(a: bv8, b: bv8)
    requires ByteBits(a) == ByteBits(b)
    ensures a == b
  {
    ByteIsEightBits(0, a);
    ByteIsEightBits(0, b);
    Xor16Zero(High(a));
    Xor16Zero(High(b));
    ShiftsLinear(High(a), High(b), 8);
    Xor16Cancels(Shifts(High(a), 8), Shifts(High(b), 8));
    ShiftsInjective(Xor16(High(a), High(b)), 8);
    Xor16Cancels(High(a), High(b));
    HighInjective(a, b);
  }

  lemma {:induction false} BitsInjective(p: Bytes, q: Bytes)
    requires Bits(p) == Bits(q) && |p| == |q|
    ensures p == q
  {
    if p != [] {
      assert Bits(p)[..8] == ByteBits(p[0]) && Bits(p)[8..] == Bits(p[1..]);
      assert Bits(q)[..8] == ByteBits(q[0]) && Bits(q)[8..] == Bits(q[1..]);
      ByteBitsInjective(p[0], q[0]);
      BitsInjective(p[1..], q[1..]);
      assert p == [p[0]] + p[1..] && q == [q[0]] + q[1..];
    }
  }

  /** Between two passing frames the difference of their bits leaves no trace in the register. */
  lemma PassingFramesDiffer(p: Bytes, q: Bytes)
    requires |p| == |q| >= 2
    requires CheckPasses(p) && CheckPasses(q)
    ensures Serial(0, XorBits(Bits(p), Bits(q))) == 0
  {
    CheckIsZeroResidue(p);
    CheckIsZeroResidue(q);
    CrcIsSerial(INITIAL, p);
    CrcIsSerial(INITIAL, q);
    SerialLinear(INITIAL, INITIAL, Bits(p), Bits(q));
    Xor16Cancels(INITIAL, INITIAL);
    Xor16Zero(0);
  }

  /** The same bits, but for sixteen positions from `start`. */
  predicate AgreeOutside(x: seq<bool>, y: seq<bool>, start: int) {
    |x| == |y| && forall k :: 0 <= k < |x| && !(start <= k < start + 16) ==> x[k] == y[k]
  }

  /** Two frames of one length, however long, whose bits (CRC included) differ only within sixteen
      consecutive positions cannot both pass the check. */
  lemma BurstsAreCaught(p: Bytes, q: Bytes, start: nat)
    requires |p| == |q| >= 2
    requires CheckPasses(p) && CheckPasses(q)
    requires AgreeOutside(Bits(p), Bits(q), start)
    ensures p == q
  {
    var a, b := Bits(p), Bits(q);
    var d := XorBits(a, b);
    if start <= |d| {
      PassingFramesDiffer(p, q);
      BurstLeavesTrace(d, start);
    }
    forall k | 0 <= k < |a|
      ensures a[k] == b[k]
    {
      assert d[k] == (a[k] != b[k]);
    }
    assert a == b;
    BitsInjective(p, q);
  }

  lemma AgreeConcat(x: seq<bool>, y: seq<bool>, x': seq<bool>, y': seq<bool>, start: int)
    requires |x| == 8 && AgreeOutside(x, x', start) && AgreeOutside(y, y', start - 8)
    ensures AgreeOutside(x + y, x' + y', start)
  {
    forall k | 0 <= k < |x + y| && !(start <= k < start + 16)
      ensures (x + y)[k] == (x' + y')[k]
    {
      if k >= 8 {
        assert y[k - 8] == y'[k - 8];
      }
    }
  }

  lemma {:induction false} BitsAgree(p: Bytes, q: Bytes, i: int)
    requires |p| == |q|
    requires forall j :: 0 <= j < |p| && j != i && j != i + 1 ==> p[j] == q[j]
    ensures AgreeOutside(Bits(p), Bits(q), 8 * i)
  {
    if p != [] {
      BitsAgree(p[1..], q[1..], i - 1);
      AgreeConcat(ByteBits(p[0]), Bits(p[1..]), ByteBits(q[0]), Bits(q[1..]), 8 * i);
    }
  }

  /** In particular, no corruption confined to two adjacent bytes goes unnoticed. */
  lemma AdjacentBytesAreCaught(p: Bytes, q: Bytes, i: nat)
    requires |p| == |q| >= 2 && i < |p|
    requires CheckPasses(p) && CheckPasses(q)
    requires forall j :: 0 <= j < |p| && j != i && j != i + 1 ==> p[j] == q[j]
    ensures p == q
  {
    BitsAgree(p, q, i);
    BurstsAreCaught(p, q, 8 * i);
  }
}
