/** CRC-16-IBM (CRC-16/ARC) as conn/crc.go computes it.

    The specification is the reflected register fed one bit at a time, least significant
    bit of each byte first.  The source works a byte at a time through a 256-entry table;
    `Crc16Ibm` is proved equal to the bitwise register for every input. */
module Crc {
  import opened Bytes

  /** The reflected polynomial 0x8005. */
  const POLYNOMIAL: bv16 := 0xA001

  function Xor(x: bv16, y: bv16): bv16 {
    x ^ y
  }

  /** What a shifted-out bit adds back into the register. */
  function Tap(bit: bv16): bv16 {
    if bit == 0 then 0 else POLYNOMIAL
  }

  /** One shift of the register. */
  function Shift(r: bv16): bv16 {
    (r >> 1) ^ Tap(r & 1)
  }

  function Shifts(r: bv16, n: nat): bv16
    decreases n
  {
    if n == 0 then r else Shifts(Shift(r), n - 1)
  }

  function Widen(b: Byte): bv16 {
    b as bv16
  }

  function BitWord(bit: bool): bv16 {
    if bit then 1 else 0
  }

  function LowBit(x: bv16): bool {
    x & 1 == 1
  }

  function Half(x: bv16): bv16 {
    x >> 1
  }

  function Double(x: bv16): bv16 {
    x << 1
  }

  /** The low `n` bits of `x`, least significant first. */
  function LowBits(x: bv16, n: nat): (bits: seq<bool>)
    ensures |bits| == n
    decreases n
  {
    if n == 0 then [] else [LowBit(x)] + LowBits(Half(x), n - 1)
  }

  /** The bits of a message in the order the register sees them. */
  function Bits(data: seq<Byte>): (bits: seq<bool>)
    ensures |bits| == 8 * |data|
  {
    if data == [] then [] else LowBits(Widen(data[0]), 8) + Bits(data[1..])
  }

  /** Feeds a bit string to the register, one bit per shift. */
  function FeedBits(r: bv16, bits: seq<bool>): bv16
    decreases |bits|
  {
    if bits == [] then r else FeedBits(Shift(Xor(r, BitWord(bits[0]))), bits[1..])
  }

  /** The checksum: initial register 0, no final xor. */
  function Checksum(data: seq<Byte>): bv16 {
    FeedBits(0, Bits(data))
  }

  /** A register value as it appears on the wire, high byte first. */
  function WordBytes(v: bv16): (field: seq<Byte>)
    ensures |field| == 2
  {
    [((v >> 8) & 0xFF) as Byte, (v & 0xFF) as Byte]
  }

  /** The field `ComputeCRC` produces; only widths 0 and 2 are reachable from a Flags byte. */
  function CrcField(data: seq<Byte>, crcLen: nat): (field: seq<Byte>)
    ensures |field| == if crcLen == 2 then 2 else 0
  {
    if crcLen == 2 then WordBytes(Checksum(data)) else []
  }

  // ---------------------------------------------------------------------------
  // Register algebra
  // ---------------------------------------------------------------------------

  lemma XorHalf(x: bv16, y: bv16)
    ensures (x ^ y) >> 1 == (x >> 1) ^ (y >> 1)
    ensures (x ^ y) & 1 == (x & 1) ^ (y & 1)
  {}

  lemma XorExchange(a: bv16, b: bv16, c: bv16, d: bv16)
    ensures (a ^ b) ^ (c ^ d) == (a ^ c) ^ (b ^ d)
  {}

  lemma XorAssociative(a: bv16, b: bv16, c: bv16)
    ensures Xor(a, Xor(b, c)) == Xor(Xor(a, b), c)
  {
    assert a ^ (b ^ c) == (a ^ b) ^ c;
  }

  lemma XorZero(a: bv16)
    ensures Xor(a, 0) == a == Xor(0, a)
    ensures Xor(a, a) == 0
  {}

  lemma LowBitIsBit(x: bv16)
    ensures x & 1 == 0 || x & 1 == 1
  {}

  lemma TapLinear(a: bv16, b: bv16)
    requires a == 0 || a == 1
    requires b == 0 || b == 1
    ensures Tap(a ^ b) == Tap(a) ^ Tap(b)
  {}

  lemma ShiftOfXor(x: bv16, y: bv16)
    ensures Shift(x ^ y) == Shift(x) ^ Shift(y)
  {
    XorHalf(x, y);
    LowBitIsBit(x);
    LowBitIsBit(y);
    TapLinear(x & 1, y & 1);
    XorExchange(x >> 1, y >> 1, Tap(x & 1), Tap(y & 1));
  }

  /** A shift is linear over xor. */
  lemma ShiftLinear(x: bv16, y: bv16)
    ensures Shift(Xor(x, y)) == Xor(Shift(x), Shift(y))
  {
    ShiftOfXor(x, y);
    hide Shift;
  }

  lemma {:induction false} ShiftsLinear(x: bv16, y: bv16, n: nat)
    ensures Shifts(Xor(x, y), n) == Xor(Shifts(x, n), Shifts(y, n))
    decreases n
  {
    hide Shift, Xor;
    if n > 0 {
      ShiftLinear(x, y);
      ShiftsLinear(Shift(x), Shift(y), n - 1);
    }
  }

  /** The largest value of `n` bits, for n up to 8. */
  function Ones(n: nat): bv16
    requires n <= 8
  {
    match n
    case 0 => 0x00
    case 1 => 0x01
    case 2 => 0x03
    case 3 => 0x07
    case 4 => 0x0F
    case 5 => 0x1F
    case 6 => 0x3F
    case 7 => 0x7F
    case 8 => 0xFF
  }

  lemma SplitLowBit(x: bv16, n: nat)
    requires 1 <= n <= 8 && x <= Ones(n)
    ensures x == Xor(BitWord(LowBit(x)), Double(Half(x)))
    ensures Shift(Double(Half(x))) == Half(x)
    ensures Half(x) <= Ones(n - 1)
  {}

  lemma NothingToFeed(r: bv16, x: bv16)
    requires x <= Ones(0)
    ensures Xor(r, x) == r
  {
    XorZero(r);
  }

  /** Xoring a byte into the register and shifting is feeding its bits one at a time. */
  lemma {:induction false} ShiftsFeedBits(r: bv16, x: bv16, n: nat)
    requires n <= 8 && x <= Ones(n)
    ensures Shifts(Xor(r, x), n) == FeedBits(r, LowBits(x, n))
    decreases n
  {
    hide Shift, Xor, Half, LowBit, Ones, BitWord, Double;
    if n == 0 {
      NothingToFeed(r, x);
    } else {
      var bit, rest := BitWord(LowBit(x)), Half(x);
      SplitLowBit(x, n);
      XorAssociative(r, bit, Double(rest));
      ShiftLinear(Xor(r, bit), Double(rest));
      ShiftsFeedBits(Shift(Xor(r, bit)), rest, n - 1);
      assert LowBits(x, n)[1..] == LowBits(rest, n - 1);
    }
  }

  lemma {:induction false} FeedBitsAppend(r: bv16, a: seq<bool>, b: seq<bool>)
    ensures FeedBits(r, a + b) == FeedBits(FeedBits(r, a), b)
    decreases |a|
  {
    hide Shift, Xor, BitWord;
    if a == [] {
      assert a + b == b;
    } else {
      assert (a + b)[1..] == a[1..] + b;
      FeedBitsAppend(Shift(Xor(r, BitWord(a[0]))), a[1..], b);
    }
  }

  lemma {:induction false} BitsAppend(a: seq<Byte>, b: seq<Byte>)
    ensures Bits(a + b) == Bits(a) + Bits(b)
    decreases |a|
  {
    hide LowBits;
    if a == [] {
      assert a + b == b;
    } else {
      assert (a + b)[1..] == a[1..] + b;
      BitsAppend(a[1..], b);
    }
  }

  // ---------------------------------------------------------------------------
  // The source's table-driven computation
  // ---------------------------------------------------------------------------

  /** The table entry of a byte: eight shifts of it. */
  function TableEntry(b: Byte): bv16 {
    Shifts(Widen(b), 8)
  }

  /** `t` is the lookup table for all bytes below `n`. */
  ghost predicate TableUpTo(t: seq<bv16>, n: nat) {
    |t| == 256 && forall b: Byte {:trigger TableEntry(b)} :: b as int < n ==> t[b as int] == TableEntry(b)
  }

  ghost predicate IsTable(t: seq<bv16>) {
    TableUpTo(t, 256)
  }

  lemma ShiftCases(r: bv16)
    ensures Shift(r) == if r & 1 != 0 then (r >> 1) ^ 0xA001 else r >> 1
  {
    NothingTapped(r >> 1);
  }

  lemma NothingTapped(x: bv16)
    ensures x ^ 0 == x
  {}

  /** The inner loop of the table initialisation. */
  method EightShifts(b: Byte) returns (crc: bv16)
    ensures crc == TableEntry(b)
  {
    hide Shift;
    crc := Widen(b);
    for j := 0 to 8
      invariant Shifts(crc, 8 - j) == TableEntry(b)
    {
      ShiftCases(crc);
      if crc & 1 != 0 {
        crc := (crc >> 1) ^ 0xA001;
      } else {
        crc := crc >> 1;
      }
    }
  }

  /** Fills the table in place. */
  method InitTable(table: array<bv16>)
    requires table.Length == 256
    modifies table
    ensures IsTable(table[..])
  {
    hide TableEntry;
    for i := 0 to 256
      invariant TableUpTo(table[..], i)
    {
      table[i] := EightShifts(i as Byte);
      forall b: Byte | b as int < i + 1 ensures table[b as int] == TableEntry(b) {
        assert (b as int) as Byte == b;
      }
    }
  }

  function Halves(x: bv16, n: nat): bv16
    decreases n
  {
    if n == 0 then x else Halves(Half(x), n - 1)
  }

  lemma HalfOfMultiple(h: bv16, n: nat)
    requires 1 <= n <= 8 && h & Ones(n) == 0
    ensures Shift(h) == Half(h) && Half(h) & Ones(n - 1) == 0
  {}

  lemma {:induction false} ShiftsOfMultiple(h: bv16, n: nat)
    requires n <= 8 && h & Ones(n) == 0
    ensures Shifts(h, n) == Halves(h, n)
    decreases n
  {
    hide Shift, Half, Ones;
    if n > 0 {
      HalfOfMultiple(h, n);
      ShiftsOfMultiple(Half(h), n - 1);
    }
  }

  lemma EightHalves(h: bv16)
    ensures Halves(h, 8) == HighByte(h)
  {
    assert ((((((((h >> 1) >> 1) >> 1) >> 1) >> 1) >> 1) >> 1) >> 1) == h >> 8;
    hide Half;
    var h1 := Half(h);
    var h2 := Half(h1);
    var h3 := Half(h2);
    var h4 := Half(h3);
    var h5 := Half(h4);
    assert Halves(h, 8) == Halves(h3, 5) == Half(Half(Half(h5)));
  }

  function HighByte(r: bv16): bv16 {
    r >> 8
  }

  function HighPart(r: bv16): bv16 {
    r & 0xFF00
  }

  /** The table slot the source reads for register `r` and byte `b`. */
  function TableIndex(r: bv16, b: Byte): Byte {
    ((r & 0xFF) as Byte) ^ b
  }

  lemma SplitRegister(r: bv16, b: Byte)
    ensures Xor(r, Widen(b)) == Xor(HighPart(r), Widen(TableIndex(r, b)))
    ensures HighPart(r) & Ones(8) == 0
    ensures HighByte(HighPart(r)) == HighByte(r)
    ensures Widen(b) <= Ones(8)
  {}

  lemma SplitShifts(r: bv16, b: Byte, n: nat)
    requires n == 8
    ensures Xor(HighByte(r), Shifts(Widen(TableIndex(r, b)), n)) == FeedBits(r, LowBits(Widen(b), n))
  {
    hide Shift, Xor, Ones, HighByte, HighPart, TableIndex, Widen;
    var high, entry := HighPart(r), Widen(TableIndex(r, b));
    SplitRegister(r, b);
    ShiftsFeedBits(r, Widen(b), n);
    ShiftsLinear(high, entry, n);
    ShiftsOfMultiple(high, n);
    EightHalves(high);
  }

  /** The table identity: a table lookup is eight shifts of the register. */
  lemma TableStep(r: bv16, b: Byte)
    ensures Xor(HighByte(r), TableEntry(TableIndex(r, b))) == FeedBits(r, LowBits(Widen(b), 8))
  {
    hide Xor, HighByte, TableIndex, Widen, Shift, LowBits, FeedBits, Shifts;
    SplitShifts(r, b, 8);
  }

  lemma BitsOfByte(b: Byte)
    ensures Bits([b]) == LowBits(Widen(b), 8)
  {
    hide LowBits, Widen;
    assert [b][1..] == [];
    assert Bits([b]) == LowBits(Widen(b), 8) + [];
  }

  /** One more byte of a message is eight more bits into the register. */
  lemma ChecksumPrefix(data: seq<Byte>, i: nat)
    requires i < |data|
    ensures FeedBits(0, Bits(data[..i + 1])) == FeedBits(FeedBits(0, Bits(data[..i])), LowBits(Widen(data[i]), 8))
  {
    hide Shift, Xor, LowBits;
    assert data[..i + 1] == data[..i] + [data[i]];
    BitsAppend(data[..i], [data[i]]);
    BitsOfByte(data[i]);
    FeedBitsAppend(0, Bits(data[..i]), Bits([data[i]]));
  }

  /** The byte-at-a-time loop over the lookup table computes the bitwise checksum. */
  method Crc16Ibm(table: array<bv16>, data: seq<Byte>) returns (crc: bv16)
    requires IsTable(table[..])
    ensures crc == Checksum(data)
  {
    hide Shift, Xor, LowBits, TableEntry, Widen;
    crc := 0;
    for i := 0 to |data|
      invariant crc == FeedBits(0, Bits(data[..i]))
    {
      var b := data[i];
      TableStep(crc, b);
      ChecksumPrefix(data, i);
      crc := TableLookup(table, crc, b);
    }
    assert data[..|data|] == data;
  }

  method TableLookup(table: array<bv16>, crc: bv16, b: Byte) returns (next: bv16)
    requires IsTable(table[..])
    ensures next == Xor(HighByte(crc), TableEntry(TableIndex(crc, b)))
  {
    hide TableEntry, TableIndex;
    var entry := table[TableIndex(crc, b) as int];
    assert entry == TableEntry(TableIndex(crc, b));
    next := Xor(crc >> 8, entry);
  }

  /** The CRC field for a message, empty when the frame carries no CRC. */
  method ComputeCrc(table: array<bv16>, data: seq<Byte>, crcLen: nat) returns (field: seq<Byte>)
    requires IsTable(table[..])
    ensures field == CrcField(data, crcLen)
  {
    if crcLen == 2 {
      var v := Crc16Ibm(table, data);
      field := [((v >> 8) & 0xFF) as Byte, (v & 0xFF) as Byte];
    } else {
      field := [];
    }
  }

  /** Recomputes the field and compares it byte by byte. */
  method VerifyCrc(table: array<bv16>, data: seq<Byte>, expected: seq<Byte>, crcLen: nat) returns (ok: bool)
    requires IsTable(table[..])
    ensures ok <==> expected == CrcField(data, crcLen)
  {
    hide Checksum;
    var computed := ComputeCrc(table, data, crcLen);
    if |computed| != |expected| {
      return false;
    }
    for i := 0 to |computed|
      invariant computed[..i] == expected[..i]
    {
      if computed[i] != expected[i] {
        return false;
      }
      assert computed[..i + 1] == expected[..i + 1];
    }
    assert computed[..|computed|] == expected[..|computed|];
    ok := true;
  }
}
