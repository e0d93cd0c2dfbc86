/** Errors that reach the CRC field (conn/crc.go:41-66).

    The field carries the register high byte first, while the register takes each byte's low bit
    first. A burst that straddles the boundary between the covered bytes and the field therefore
    need not look like a burst to the register: up to eight bits are still always detected, nine
    are not. */
module CrcBoundary {
  import opened Bytes
  import opened Crc
  import opened CrcErrors
  import opened CrcPeriod

  /** The check does not see the error. */
  predicate Undetected(data: seq<Byte>, error: seq<Byte>, fieldError: seq<Byte>)
    requires |error| == |data| && |fieldError| == 2
  {
    XorBytes(CrcField(data, 2), fieldError) == CrcField(XorBytes(data, error), 2)
  }

  /** An error goes unseen exactly when its checksum, as the field would carry it, is the error
      in the field, whatever the data. */
  lemma UndetectedIs(data: seq<Byte>, error: seq<Byte>, fieldError: seq<Byte>)
    requires |error| == |data| && |fieldError| == 2
    ensures Undetected(data, error, fieldError) <==> WordBytes(Checksum(error)) == fieldError
  {
    hide Checksum, CrcField, XorBytes, WordBytes;
    var word := BytesWord(fieldError);
    UndetectedExactly(data, error, word);
    WordBytesInjective(Checksum(error), word);
  }

  // ---------------------------------------------------------------------------
  // Bytes and bits
  // ---------------------------------------------------------------------------

  lemma BytesAllClear(data: seq<Byte>)
    ensures AllClear(Bits(data)) <==> forall i | 0 <= i < |data| :: data[i] == 0
  {
    hide Widen, LowBits;
    if AllClear(Bits(data)) {
      forall i | 0 <= i < |data| ensures data[i] == 0 {
        forall k | 0 <= k < 8 ensures !LowBits(Widen(data[i]), 8)[k] {
          BitsAt(data, i, k);
        }
        ByteAllClear(data[i]);
      }
    }
    if forall i | 0 <= i < |data| :: data[i] == 0 {
      forall p | 0 <= p < |Bits(data)| ensures !Bits(data)[p] {
        BitsAt(data, p / 8, p % 8);
        ByteAllClear(data[p / 8]);
      }
    }
  }

  lemma FieldAllClear(fieldError: seq<Byte>)
    requires |fieldError| == 2
    ensures AllClear(Bits(fieldError)) <==> fieldError == [0, 0]
  {
    hide Bits;
    BytesAllClear(fieldError);
  }

  lemma ZeroWord()
    ensures WordBytes(0) == [0, 0]
  {}

  /** What is clear below and has nothing above is zero. */
  lemma {:induction false} ClearAndGone(x: bv16, n: nat)
    requires AllClear(LowBits(x, n)) && Halves(x, n) == 0
    ensures x == 0
    decreases n
  {
    if n > 0 {
      assert LowBits(x, n)[1..] == LowBits(Half(x), n - 1);
      assert !LowBits(x, n)[0];
      ClearAndGone(Half(x), n - 1);
      LowBitIsBit(x);
      NoBits(x);
    }
  }

  lemma NoBits(x: bv16)
    ensures Half(x) == 0 && !LowBit(x) ==> x == 0
  {}

  lemma HalfHits(x: bv16, mask: bv16, next: bv16)
    requires NextMask(mask, next)
    ensures Hits(Half(x), next) <==> Hits(x, mask)
  {}

  /** The top `k` bits are clear exactly when nothing is left above the others. */
  lemma {:induction false} HalvesMiss(x: bv16, k: nat)
    requires 1 <= k <= 16
    ensures Halves(x, 16 - k) == 0 <==> !Hits(x, TopMask(k))
    decreases 16 - k
  {
    hide Half, Hits, TopMask, NextMask;
    if k == 16 {
      WholeMask(x);
    } else {
      HalvesMiss(Half(x), k + 1);
      TopMaskNext(k);
      HalfHits(x, TopMask(k), TopMask(k + 1));
    }
  }

  lemma WholeMask(x: bv16)
    ensures Hits(x, TopMask(16)) <==> x != 0
  {}

  // ---------------------------------------------------------------------------
  // Bursts
  // ---------------------------------------------------------------------------

  /** A field error whose set bits are among the first `q` seen by the register has nothing in the
      top `8 - q` bits of its word. */
  lemma LowFieldMisses(fieldError: seq<Byte>, word: bv16, q: nat)
    requires |fieldError| == 2 && WordBytes(word) == fieldError && 1 <= q <= 7
    requires WithinWindow(Bits(fieldError), 0, q)
    ensures !Hits(word, TopMask(8 - q))
  {
    hide Half, LowBit, LowBits, Bits, Widen, WordBytes, Hits, TopMask, HighByte, Halves;
    var y := Widen(fieldError[0]);
    LowBitsSplit(y, q, 8 - q);
    var above := LowBits(Halves(y, q), 8 - q);
    forall k | 0 <= k < |above| ensures !above[k] {
      BitsAt(fieldError, 0, q + k);
    }
    HalvesSplit(y, q, 8 - q);
    ByteHalves(fieldError[0]);
    ClearAndGone(Halves(y, q), 8 - q);
    HalvesSplit(word, 8, q);
    EightHalves(word);
    WidenHigh(word);
    HalvesMiss(word, 8 - q);
  }

  lemma ByteHalves(b: Byte)
    ensures Halves(Widen(b), 8) == 0
  {
    EightHalves(Widen(b));
  }

  /** Eight bits across the boundary: the bits before it leave something among the top bits of the
      register, where the bits after it cannot reach. */
  lemma ShortBurstAcross(error: seq<Byte>, fieldError: seq<Byte>, lo: nat)
    requires |fieldError| == 2
    requires WithinWindow(Bits(error) + Bits(fieldError), lo, 8)
    requires !AllClear(Bits(error)) && !AllClear(Bits(fieldError))
    ensures WordBytes(Checksum(error)) != fieldError
  {
    hide Bits, FeedBits, Hits, TopMask, WordBytes;
    var bits, field := Bits(error), Bits(fieldError);
    var first := FirstSetBit(bits);
    var all := bits + field;
    assert all[first];
    var j :| 0 <= j < |field| && field[j];
    assert all[|bits| + j];
    var p := |bits| - first;
    forall i | 0 <= i < |field| && field[i] ensures i < 8 - p {
      assert all[|bits| + i];
    }
    BurstHits(bits, first);
    if WordBytes(Checksum(error)) == fieldError {
      LowFieldMisses(fieldError, Checksum(error), 8 - p);
    }
  }

  /** A burst of at most sixteen bits, over covered bytes and field together, is detected if it
      lies on one side of the boundary or spans at most eight bits. A longer one across the
      boundary is undetected exactly when its part in the field is the checksum of the rest. */
  lemma BurstDetectedAcross(data: seq<Byte>, error: seq<Byte>, fieldError: seq<Byte>, lo: nat, n: nat)
    requires |error| == |data| && |fieldError| == 2 && n <= 16
    requires WithinWindow(Bits(error + fieldError), lo, n) && !AllClear(Bits(error + fieldError))
    ensures Undetected(data, error, fieldError) <==> WordBytes(Checksum(error)) == fieldError
    ensures AllClear(Bits(error)) || AllClear(Bits(fieldError)) || n <= 8 ==> !Undetected(data, error, fieldError)
  {
    hide Bits, FeedBits, WordBytes, Undetected;
    UndetectedIs(data, error, fieldError);
    BitsAppend(error, fieldError);
    FieldAllClear(fieldError);
    ZeroWord();
    var bits, field := Bits(error), Bits(fieldError);
    forall i | 0 <= i < |bits| && bits[i] ensures lo <= i < lo + n {
      assert (bits + field)[i];
    }
    BothClear(bits, field);
    if AllClear(bits) {
      FeedZeros(0, bits);
    } else if AllClear(field) {
      var first := FirstSetBit(bits);
      BurstOfBits(bits, lo, first);
      WordBytesInjective(Checksum(error), 0);
    } else if n <= 8 {
      ShortBurstAcross(error, fieldError, lo);
    }
  }

  lemma BothClear(a: seq<bool>, b: seq<bool>)
    ensures AllClear(a) && AllClear(b) ==> AllClear(a + b)
  {}

  lemma TwelveShifted()
    ensures Shifts(0x0C, 8) == 0x0500
  {
    assert Shift(0x0C) == 0x06;
    assert Shift(0x06) == 0x03;
    assert Shift(0x03) == 0xA000;
    assert Shift(0xA000) == 0x5000;
    assert Shift(0x5000) == 0x2800;
    assert Shift(0x2800) == 0x1400;
    assert Shift(0x1400) == 0x0A00;
    assert Shift(0x0A00) == 0x0500;
    hide Shift;
    assert Shifts(0x0C, 8) == Shifts(0xA000, 5) == Shifts(0x1400, 2);
  }

  /** One wrong byte at the end of the covered bytes. */
  function LastByteError(n: nat, b: Byte): (error: seq<Byte>)
    requires n > 0
    ensures |error| == n
  {
    Zeros(n - 1) + [b]
  }

  lemma LastByteChecksum(n: nat, b: Byte)
    requires n > 0
    ensures Checksum(LastByteError(n, b)) == Shifts(Widen(b), 8)
  {
    hide Shift, Xor, Widen, LowBits, Shifts, Bits, FeedBits;
    var error := LastByteError(n, b);
    assert error[..n - 1] == Zeros(n - 1) && error[..n] == error;
    ChecksumPrefix(error, n - 1);
    BytesAllClear(Zeros(n - 1));
    FeedZeros(0, Bits(Zeros(n - 1)));
    WidenZero(b);
    ShiftsFeedBits(0, Widen(b), 8);
    XorZero(Widen(b));
  }

  /** Nine bits across the boundary that no check sees: bits 2 and 3 of the last covered byte and
      bits 0 and 2 of the first field byte. */
  lemma NineBitBurstUndetected(data: seq<Byte>)
    requires |data| > 0
    ensures var error, fieldError := LastByteError(|data|, 0x0C), [0x05, 0x00];
            && Undetected(data, error, fieldError)
            && WithinWindow(Bits(error + fieldError), 8 * |data| - 6, 9)
  {
    hide Undetected, Shifts, Checksum, Bits, LastByteError, WordBytes, Widen, WithinWindow;
    var error, fieldError := LastByteError(|data|, 0x0C), [0x05, 0x00];
    LastByteChecksum(|data|, 0x0C);
    TwelveShifted();
    FiveHundred();
    UndetectedIs(data, error, fieldError);
    NineBitWindow(|data|);
  }

  lemma NineBitWindow(n: nat)
    requires n > 0
    ensures WithinWindow(Bits(LastByteError(n, 0x0C) + [0x05, 0x00]), 8 * n - 6, 9)
  {
    hide Bits, LowBits, Widen;
    var all := LastByteError(n, 0x0C) + [0x05, 0x00];
    assert forall i | 0 <= i < |all| && i != n - 1 && i != n :: all[i] == 0;
    assert all[n - 1] == 0x0C && all[n] == 0x05;
    ByteAllClear(0);
    TwelveBits();
    hide LastByteError;
    forall p | 0 <= p < |Bits(all)| && Bits(all)[p] ensures 8 * n - 6 <= p < 8 * n + 3 {
      var i, k := p / 8, p % 8;
      BitsAt(all, i, k);
      assert i == n - 1 || i == n;
    }
  }

  lemma FiveHundred()
    ensures WordBytes(0x0500) == [0x05, 0x00] && Widen(0x0C) == 0x0C
  {}

  lemma TwelveBits()
    ensures forall k | 0 <= k < 8 :: LowBits(Widen(0x0C), 8)[k] <==> k == 2 || k == 3
    ensures forall k | 0 <= k < 8 :: LowBits(Widen(0x05), 8)[k] <==> k == 0 || k == 2
  {
    assert Widen(0x0C) == Xor(UnitBit(3), UnitBit(4)) && Widen(0x05) == Xor(UnitBit(1), UnitBit(3));
    hide Widen, Xor, UnitBit, LowBits;
    TwoUnits(3, 4, 8);
    TwoUnits(1, 3, 8);
  }

  lemma TwoUnits(a: nat, b: nat, n: nat)
    requires a <= 16 && b <= 16
    ensures forall k | 0 <= k < n :: LowBits(Xor(UnitBit(a), UnitBit(b)), n)[k] <==> (a == k + 1) != (b == k + 1)
  {
    hide Xor, UnitBit, LowBits;
    LowBitsXor(UnitBit(a), UnitBit(b), n);
    forall k | 0 <= k < n ensures LowBits(Xor(UnitBit(a), UnitBit(b)), n)[k] <==> (a == k + 1) != (b == k + 1) {
      UnitLowBits(a, n, k);
      UnitLowBits(b, n, k);
    }
  }

  // ---------------------------------------------------------------------------
  // Two flipped bits
  // ---------------------------------------------------------------------------

  /** Exactly bit `i` is set. */
  ghost predicate OneBit(bits: seq<bool>, i: nat) {
    i < |bits| && forall k | 0 <= k < |bits| :: bits[k] <==> k == i
  }

  /** One set bit leaves the register at 1, shifted to the end. */
  lemma OneBitRegister(bits: seq<bool>, i: nat)
    requires OneBit(bits, i)
    ensures FeedBits(0, bits) == Shifts(1, |bits| - i)
  {
    hide Shift, Xor, BitWord;
    var tail := bits[i + 1..];
    assert bits == bits[..i] + ([true] + tail);
    FeedBitsAppend(0, bits[..i], [true] + tail);
    FeedZeros(0, bits[..i]);
    FirstFeed();
    assert ([true] + tail)[1..] == tail;
    FeedClearIsShifts(Shift(1), tail);
  }

  /** The word bit that the field carries as its `j`-th bit: high byte first, low bit first. */
  function FieldUnit(j: nat): bv16
    requires j < 16
  {
    UnitBit(if j < 8 then j + 9 else j - 7)
  }

  lemma UnitBytes(m: nat)
    requires 1 <= m <= 16
    ensures Widen(WordBytes(UnitBit(m))[0]) == if m > 8 then UnitBit(m - 8) else 0
    ensures Widen(WordBytes(UnitBit(m))[1]) == if m > 8 then 0 else UnitBit(m)
  {}

  lemma {:induction false} UnitLowBits(m: nat, n: nat, k: nat)
    requires m <= 16 && k < n
    ensures LowBits(UnitBit(m), n)[k] <==> m == k + 1
    decreases n
  {
    hide Half, UnitBit, LowBit;
    if m == 0 {
      ZeroAllClear(n);
      NoUnit();
    } else {
      UnitBitHalf(m);
      LowUnit(m);
      if k > 0 {
        UnitLowBits(m - 1, n - 1, k - 1);
      }
    }
  }

  lemma NoUnit()
    ensures UnitBit(0) == 0
  {}

  lemma LowUnit(m: nat)
    requires 1 <= m <= 16
    ensures LowBit(UnitBit(m)) <==> m == 1
  {}

  lemma FieldUnitBit(j: nat)
    requires j < 16
    ensures OneBit(Bits(WordBytes(FieldUnit(j))), j)
  {
    hide LowBits, Widen, WordBytes, UnitBit, Bits;
    var m := if j < 8 then j + 9 else j - 7;
    var field := WordBytes(UnitBit(m));
    UnitBytes(m);
    NoUnit();
    forall k | 0 <= k < 16 ensures Bits(field)[k] <==> k == j {
      BitsAt(field, k / 8, k % 8);
      UnitLowBits(if m > 8 then m - 8 else 0, 8, k % 8);
      UnitLowBits(if m > 8 then 0 else m, 8, k % 8);
    }
  }

  lemma BitsInjective(a: seq<Byte>, b: seq<Byte>)
    requires |a| == |b| && Bits(a) == Bits(b)
    ensures a == b
  {
    hide Bits;
    BitsXor(a, b);
    BytesAllClear(XorBytes(a, b));
    forall i | 0 <= i < |a| ensures a[i] == b[i] {
      XorByteZero(a[i], b[i]);
    }
  }

  lemma XorByteZero(a: Byte, b: Byte)
    ensures a ^ b == 0 <==> a == b
  {}

  /** Two errors with exactly the same one bit are the same error. */
  lemma OneBitField(fieldError: seq<Byte>, j: nat)
    requires |fieldError| == 2 && OneBit(Bits(fieldError), j)
    ensures fieldError == WordBytes(FieldUnit(j))
  {
    hide Bits, WordBytes, FieldUnit;
    FieldUnitBit(j);
    assert Bits(fieldError) == Bits(WordBytes(FieldUnit(j)));
    BitsInjective(fieldError, WordBytes(FieldUnit(j)));
  }

  predicate Periodic(n: int) {
    n % PERIOD == 0
  }

  /** The register stands at a given word bit exactly when shifting that bit down as well comes
      back to 1. */
  lemma UnitReached(k: nat, m: nat)
    requires 1 <= m <= 16
    ensures Shifts(1, k) == UnitBit(m) <==> Periodic(k + m - 1)
  {
    hide Shift, UnitBit, Power, PERIOD;
    ShiftsOfUnit(16 - m);
    ShiftsSplit(ONE, 16 - m, m - 1);
    UnitPower();
    ShiftsSplit(1, k, m - 1);
    if Shifts(1, k + (m - 1)) == 1 {
      ShiftsInjective(Shifts(1, k), UnitBit(m), m - 1);
    }
    UnitReturns(k + m - 1);
    PeriodExactly(k + m - 1);
  }

  /** Bits `a` and `b` cancel, `covered` bits being covered: their distance, corrected by the eight
      places that the field's byte order displaces the second one, is a multiple of the period. */
  predicate Cancel(covered: nat, a: nat, b: nat)
    requires a < b
  {
    if b < covered then Periodic(b - a)
    else if covered <= a then false
    else if b < covered + 8 then Periodic(b - a + 8)
    else Periodic(b - a - 8)
  }

  lemma OneBitReaches(error: seq<Byte>, i: nat, j: nat)
    requires OneBit(Bits(error), i) && j < 16
    ensures Checksum(error) == FieldUnit(j) <==> Cancel(8 * |error|, i, 8 * |error| + j)
  {
    hide Bits, FeedBits, Shifts, UnitBit, Periodic;
    OneBitRegister(Bits(error), i);
    UnitReached(|Bits(error)| - i, if j < 8 then j + 9 else j - 7);
  }

  lemma TwoBitsAcross(error: seq<Byte>, fieldError: seq<Byte>, i: nat, j: nat)
    requires |fieldError| == 2 && OneBit(Bits(error), i) && OneBit(Bits(fieldError), j)
    ensures WordBytes(Checksum(error)) == fieldError <==> Cancel(8 * |error|, i, 8 * |error| + j)
  {
    hide Bits, Checksum, WordBytes, FieldUnit, Cancel;
    OneBitField(fieldError, j);
    WordBytesInjective(Checksum(error), FieldUnit(j));
    OneBitReaches(error, i, j);
  }

  lemma TwoBitsCovered(error: seq<Byte>, a: nat, b: nat)
    requires TwoBits(Bits(error), a, b)
    ensures WordBytes(Checksum(error)) == [0, 0] <==> Cancel(8 * |error|, a, b)
  {
    hide Bits, FeedBits, WordBytes;
    TwoBitsRegister(Bits(error), a, b);
    ZeroWord();
    WordBytesInjective(Checksum(error), 0);
  }

  lemma TwoBitsInField(error: seq<Byte>, fieldError: seq<Byte>, k: nat)
    requires |fieldError| == 2 && AllClear(Bits(error)) && k < 16 && Bits(fieldError)[k]
    ensures WordBytes(Checksum(error)) != fieldError
  {
    hide Bits, FeedBits, WordBytes;
    FeedZeros(0, Bits(error));
    ZeroWord();
    FieldAllClear(fieldError);
  }

  /** Two flipped bits, anywhere in covered bytes and field, go unseen exactly when they cancel. */
  lemma TwoBitsUndetectedExactly(data: seq<Byte>, error: seq<Byte>, fieldError: seq<Byte>, a: nat, b: nat)
    requires |error| == |data| && |fieldError| == 2 && TwoBits(Bits(error + fieldError), a, b)
    ensures Undetected(data, error, fieldError) <==> Cancel(8 * |error|, a, b)
  {
    hide Bits, Checksum, WordBytes, Undetected, Cancel;
    UndetectedIs(data, error, fieldError);
    BitsAppend(error, fieldError);
    FieldAllClear(fieldError);
    var bits, field := Bits(error), Bits(fieldError);
    forall k | 0 <= k < |bits| ensures bits[k] <==> k == a || k == b {
      assert (bits + field)[k] == bits[k];
    }
    forall k | 0 <= k < |field| ensures field[k] <==> |bits| + k == a || |bits| + k == b {
      assert (bits + field)[|bits| + k] == field[k];
    }
    if b < |bits| {
      TwoBitsCovered(error, a, b);
    } else if |bits| <= a {
      TwoBitsInField(error, fieldError, a - |bits|);
      FieldOnly(8 * |error|, a, b);
    } else {
      TwoBitsAcross(error, fieldError, a, b - |bits|);
    }
  }

  lemma FieldOnly(covered: nat, a: nat, b: nat)
    requires covered <= a < b
    ensures !Cancel(covered, a, b)
  {}

  /** Below 4094 covered bytes no two bits are far enough apart: both are always noticed. */
  lemma TwoBitsDetectedBelow(data: seq<Byte>, error: seq<Byte>, fieldError: seq<Byte>, a: nat, b: nat)
    requires |error| == |data| < 4094 && |fieldError| == 2 && TwoBits(Bits(error + fieldError), a, b)
    ensures !Undetected(data, error, fieldError)
  {
    hide Bits, Undetected;
    TwoBitsUndetectedExactly(data, error, fieldError, a, b);
  }

  /** One wrong byte at the start of the covered bytes. */
  function FirstByteError(n: nat, b: Byte): (error: seq<Byte>)
    requires n > 0
    ensures |error| == n
  {
    [b] + Zeros(n - 1)
  }

  lemma OuterBits()
    ensures forall k | 0 <= k < 8 :: LowBits(Widen(0x01), 8)[k] <==> k == 0
    ensures forall k | 0 <= k < 8 :: LowBits(Widen(0x80), 8)[k] <==> k == 7
  {
    assert Widen(0x01) == UnitBit(1) && Widen(0x80) == UnitBit(8);
    hide Widen, UnitBit, LowBits;
    forall k | 0 <= k < 8
      ensures LowBits(Widen(0x01), 8)[k] <==> k == 0
      ensures LowBits(Widen(0x80), 8)[k] <==> k == 7
    {
      UnitLowBits(1, 8, k);
      UnitLowBits(8, 8, k);
    }
  }

  lemma OuterBitsSet(n: nat)
    requires n > 0
    ensures TwoBits(Bits(FirstByteError(n, 0x01) + [0x80, 0x00]), 0, 8 * n + 7)
  {
    hide Bits, LowBits, Widen;
    var all := FirstByteError(n, 0x01) + [0x80, 0x00];
    assert forall i | 0 <= i < |all| && i != 0 && i != n :: all[i] == 0;
    assert all[0] == 0x01 && all[n] == 0x80;
    ByteAllClear(0);
    OuterBits();
    hide FirstByteError;
    forall p | 0 <= p < |Bits(all)| ensures Bits(all)[p] <==> p == 0 || p == 8 * n + 7 {
      var i, k := p / 8, p % 8;
      BitsAt(all, i, k);
      assert i != 0 && i != n ==> !LowBits(Widen(all[i]), 8)[k];
    }
  }

  /** At 4094 they are: the first covered bit and the last of the first field byte, whatever the
      data. */
  lemma TwoBitsReachField(data: seq<Byte>)
    requires |data| == 4094
    ensures var error, fieldError := FirstByteError(|data|, 0x01), [0x80, 0x00];
            TwoBits(Bits(error + fieldError), 0, 8 * |data| + 7) && Undetected(data, error, fieldError)
  {
    hide Undetected, Bits, FirstByteError;
    var error, fieldError := FirstByteError(|data|, 0x01), [0x80, 0x00];
    OuterBitsSet(|data|);
    hide TwoBits;
    TwoBitsUndetectedExactly(data, error, fieldError, 0, 8 * |data| + 7);
  }
}
