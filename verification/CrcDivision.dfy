/** Which checksum it is: the remainder of schoolbook division by the catalogued polynomial, with
    the catalogued check value (conn/crc.go:5-7 and 25-31). */
module CrcDivision {
  import opened Bytes
  import opened Crc
  import opened CrcErrors

  /** x^16 + x^15 + x^2 + 1, the polynomial 0x8005, highest power first. */
  const GENERATOR: seq<bool> := [true, true, false, false, false, false, false, false, false,
                                 false, false, false, false, false, true, false, true]

  /** The front with its leading bit cleared, by the generator if it was set. */
  function Head(front: seq<bool>): (head: seq<bool>)
    requires |front| == 17
    ensures |head| == 17 && !head[0]
  {
    if front[0] then XorBits(front, GENERATOR) else front
  }

  /** One step of the division: the leading bit goes, and the generator with it if it was set. */
  function Reduced(bits: seq<bool>): (rest: seq<bool>)
    requires |bits| >= 17
    ensures |rest| == |bits| - 1
  {
    Head(bits[..17])[1..] + bits[17..]
  }

  /** Dividing a bit string, read as a polynomial over two elements, by the generator leaves
      nothing. */
  ghost predicate Divides(bits: seq<bool>)
    decreases |bits|
  {
    if |bits| < 17 then AllClear(bits) else Divides(Reduced(bits))
  }

  function Fed(r: bv16, bit: bool): bv16 {
    Shift(Xor(r, BitWord(bit)))
  }

  /** The register after the first `i` bits of the generator. */
  function Remainder(i: nat): bv16
    requires i <= 17
  {
    match i
    case 0 => 0x0000
    case 1 => 0xA001
    case 2 => 0x5000
    case 3 => 0x2800
    case 4 => 0x1400
    case 5 => 0x0A00
    case 6 => 0x0500
    case 7 => 0x0280
    case 8 => 0x0140
    case 9 => 0x00A0
    case 10 => 0x0050
    case 11 => 0x0028
    case 12 => 0x0014
    case 13 => 0x000A
    case 14 => 0x0005
    case 15 => 0x0002
    case 16 => 0x0001
    case 17 => 0x0000
  }

  lemma RemainderStep(i: nat)
    requires i < 17
    ensures Fed(Remainder(i), GENERATOR[i]) == Remainder(i + 1)
  {}

  lemma {:induction false} GeneratorFeeds(i: nat)
    requires i <= 17
    ensures FeedBits(Remainder(i), GENERATOR[i..]) == 0
    decreases 17 - i
  {
    if i < 17 {
      RemainderStep(i);
      GeneratorFeeds(i + 1);
      assert GENERATOR[i..][1..] == GENERATOR[i + 1..] && GENERATOR[i..][0] == GENERATOR[i];
      hide Shift, Xor, BitWord, Remainder;
    }
  }

  lemma HeadFeeds(front: seq<bool>)
    requires |front| == 17
    ensures FeedBits(0, Head(front)) == FeedBits(0, front)
  {
    GeneratorFeeds(0);
    assert GENERATOR[0..] == GENERATOR;
    XorZero(0);
    hide Shift, Xor, BitWord, FeedBits, Remainder;
    if front[0] {
      FeedLinear(0, 0, front, GENERATOR);
      XorZero(FeedBits(0, front));
    }
  }

  /** Taking the generator away from the front leaves the register as it was. */
  lemma ReductionFeeds(bits: seq<bool>)
    requires |bits| >= 17
    ensures FeedBits(0, bits) == FeedBits(0, Reduced(bits))
  {
    hide Shift, Xor, BitWord, FeedBits, Head;
    var front, tail := bits[..17], bits[17..];
    var head := Head(front);
    HeadFeeds(front);
    LeadingZero(head);
    FeedBitsAppend(0, front, tail);
    FeedBitsAppend(0, head[1..], tail);
    assert bits == front + tail;
  }

  lemma LeadingZero(bits: seq<bool>)
    requires bits != [] && !bits[0]
    ensures FeedBits(0, bits) == FeedBits(0, bits[1..])
  {
    assert Shift(Xor(0, BitWord(false))) == 0;
    hide Shift, Xor, BitWord;
  }

  lemma ShortRemainder(bits: seq<bool>)
    requires |bits| < 17
    ensures FeedBits(0, bits) == 0 <==> AllClear(bits)
  {
    hide FeedBits;
    if AllClear(bits) {
      FeedZeros(0, bits);
    } else {
      var first := FirstSetBit(bits);
      BurstOfBits(bits, 0, first);
    }
  }

  /** The register ends at zero if and only if the generator divides what was fed. */
  lemma {:induction false} DividesExactly(bits: seq<bool>)
    ensures FeedBits(0, bits) == 0 <==> Divides(bits)
    decreases |bits|
  {
    hide FeedBits, Reduced;
    if |bits| < 17 {
      ShortRemainder(bits);
    } else {
      ReductionFeeds(bits);
      DividesExactly(Reduced(bits));
    }
  }

  /** So an error in the covered bytes, the field being intact, passes the check if and only if the
      generator divides it. */
  lemma UndetectedDivides(data: seq<Byte>, error: seq<Byte>)
    requires |error| == |data|
    ensures CrcField(XorBytes(data, error), 2) == CrcField(data, 2) <==> Divides(Bits(error))
  {
    hide FeedBits, Bits, Divides, WordBytes;
    DividesExactly(Bits(error));
    UndetectedExactly(data, error, 0);
    hide Checksum;
    NoFieldError(CrcField(data, 2));
  }

  lemma NoFieldError(field: seq<Byte>)
    requires |field| == 2
    ensures XorBytes(field, WordBytes(0)) == field
  {}

  // ---------------------------------------------------------------------------
  // The check value
  // ---------------------------------------------------------------------------

  /** The nine digits "123456789". */
  const DIGITS: seq<Byte> := [0x31, 0x32, 0x33, 0x34, 0x35, 0x36, 0x37, 0x38, 0x39]

  /** The register after the first `i` digits. */
  function Sofar(i: nat): bv16
    requires i <= 9
  {
    match i
    case 0 => 0x0000
    case 1 => 0xD4C1
    case 2 => 0x4594
    case 3 => 0xBA04
    case 4 => 0x14BA
    case 5 => 0xA455
    case 6 => 0x29E4
    case 7 => 0x9D68
    case 8 => 0x3C9D
    case 9 => 0xBB3D
  }

  /** One shift as the source's inner loop makes it. */
  function Halved(r: bv16): bv16 {
    if r & 1 != 0 then (r >> 1) ^ 0xA001 else r >> 1
  }

  function EightHalved(r: bv16): bv16 {
    Halved(Halved(Halved(Halved(Halved(Halved(Halved(Halved(r))))))))
  }

  lemma DigitStep(i: nat)
    requires i < 9
    ensures EightHalved(Xor(Sofar(i), Widen(DIGITS[i]))) == Sofar(i + 1)
  {}

  lemma ShiftIs(r: bv16, n: nat)
    requires n > 0
    ensures Shifts(r, n) == Shifts(Halved(r), n - 1)
  {
    ShiftCases(r);
    hide Shift;
  }

  lemma EightShiftsAre(r: bv16, n: nat)
    requires n == 8
    ensures Shifts(r, n) == EightHalved(r)
  {
    hide Halved, Shifts;
    var a := Halved(Halved(r));
    var b := Halved(Halved(a));
    var c := Halved(Halved(b));
    ShiftIs(r, n);
    ShiftIs(Halved(r), n - 1);
    ShiftIs(a, n - 2);
    ShiftIs(Halved(a), n - 3);
    ShiftIs(b, n - 4);
    ShiftIs(Halved(b), n - 5);
    ShiftIs(c, n - 6);
    ShiftIs(Halved(c), n - 7);
    NoShift(Halved(Halved(c)), n - 8);
  }

  lemma NoShift(r: bv16, n: nat)
    requires n == 0
    ensures Shifts(r, n) == r
  {}

  lemma {:induction false} DigitsFeed(i: nat)
    requires i <= 9
    ensures FeedBits(0, Bits(DIGITS[..i])) == Sofar(i)
  {
    if i > 0 {
      DigitsFeed(i - 1);
      DigitFeeds(i - 1, 8);
    }
  }

  lemma DigitFeeds(i: nat, n: nat)
    requires i < 9 && n == 8 && FeedBits(0, Bits(DIGITS[..i])) == Sofar(i)
    ensures FeedBits(0, Bits(DIGITS[..i + 1])) == Sofar(i + 1)
  {
    hide FeedBits, LowBits, Shifts, EightHalved, Sofar, Xor, Widen, Ones;
    ChecksumPrefix(DIGITS, i);
    FitsByte(DIGITS[i], n);
    ShiftsFeedBits(Sofar(i), Widen(DIGITS[i]), n);
    EightShiftsAre(Xor(Sofar(i), Widen(DIGITS[i])), n);
    DigitStep(i);
  }

  lemma FitsByte(b: Byte, n: nat)
    requires n == 8
    ensures Widen(b) <= Ones(n)
  {}

  /** The check value of CRC-16/ARC in the catalogues. */
  lemma CheckValue()
    ensures Checksum([0x31, 0x32, 0x33, 0x34, 0x35, 0x36, 0x37, 0x38, 0x39]) == 0xBB3D
  {
    hide FeedBits, Bits;
    DigitsFeed(9);
    assert DIGITS[..9] == DIGITS;
  }
}
