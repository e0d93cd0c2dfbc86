/** What CRC-16-IBM detects.

    Everything follows from two facts about the register: a shift is linear over xor, and a
    shift is injective.  An error pattern goes unnoticed exactly when its own checksum equals
    the error in the CRC field (`UndetectedExactly`). */
module CrcErrors {
  import opened Bytes
  import opened Crc

  function XorBytes(a: seq<Byte>, b: seq<Byte>): (c: seq<Byte>)
    requires |a| == |b|
    ensures |c| == |a|
    ensures forall i | 0 <= i < |c| :: c[i] == a[i] ^ b[i]
  {
    seq(|a|, i requires 0 <= i < |a| => a[i] ^ b[i])
  }

  function XorBits(a: seq<bool>, b: seq<bool>): (c: seq<bool>)
    requires |a| == |b|
    ensures |c| == |a|
    ensures forall i | 0 <= i < |c| :: c[i] == (a[i] != b[i])
  {
    seq(|a|, i requires 0 <= i < |a| => a[i] != b[i])
  }

  // ---------------------------------------------------------------------------
  // Linearity
  // ---------------------------------------------------------------------------

  lemma BitWordXor(a: bool, b: bool)
    ensures BitWord(a != b) == Xor(BitWord(a), BitWord(b))
  {}

  lemma XorInterleave(r: bv16, q: bv16, a: bv16, b: bv16)
    ensures Xor(Xor(r, q), Xor(a, b)) == Xor(Xor(r, a), Xor(q, b))
  {
    hide Xor;
    calc {
      Xor(Xor(r, q), Xor(a, b));
      { XorAssociative(r, q, Xor(a, b)); XorAssociative(q, a, b); XorCommutes(q, a); }
      Xor(r, Xor(Xor(a, q), b));
      { XorAssociative(a, q, b); XorAssociative(r, a, Xor(q, b)); }
      Xor(Xor(r, a), Xor(q, b));
    }
  }

  lemma XorCommutes(x: bv16, y: bv16)
    ensures Xor(x, y) == Xor(y, x)
  {}

  /** Feeding xored bits to xored registers xors the results. */
  lemma {:induction false} FeedLinear(r: bv16, q: bv16, a: seq<bool>, b: seq<bool>)
    requires |a| == |b|
    ensures FeedBits(Xor(r, q), XorBits(a, b)) == Xor(FeedBits(r, a), FeedBits(q, b))
    decreases |a|
  {
    hide Shift, Xor, BitWord;
    if a != [] {
      var ra, qb := Xor(r, BitWord(a[0])), Xor(q, BitWord(b[0]));
      BitWordXor(a[0], b[0]);
      XorInterleave(r, q, BitWord(a[0]), BitWord(b[0]));
      ShiftLinear(ra, qb);
      FeedLinear(Shift(ra), Shift(qb), a[1..], b[1..]);
      assert XorBits(a, b)[1..] == XorBits(a[1..], b[1..]);
    }
  }

  lemma HalfOfXor(x: bv16, y: bv16)
    ensures Half(Xor(x, y)) == Xor(Half(x), Half(y))
    ensures LowBit(Xor(x, y)) == (LowBit(x) != LowBit(y))
  {
    XorHalf(x, y);
  }

  lemma {:induction false} LowBitsXor(x: bv16, y: bv16, n: nat)
    ensures LowBits(Xor(x, y), n) == XorBits(LowBits(x, n), LowBits(y, n))
    decreases n
  {
    hide Xor, Half, LowBit;
    if n > 0 {
      HalfOfXor(x, y);
      LowBitsXor(Half(x), Half(y), n - 1);
    }
  }

  lemma WidenXor(x: Byte, y: Byte)
    ensures Widen(x ^ y) == Xor(Widen(x), Widen(y))
  {}

  lemma {:induction false} BitsXor(a: seq<Byte>, b: seq<Byte>)
    requires |a| == |b|
    ensures Bits(XorBytes(a, b)) == XorBits(Bits(a), Bits(b))
    decreases |a|
  {
    hide Xor, Widen, LowBits;
    if a != [] {
      var c := XorBytes(a, b);
      BitsXor(a[1..], b[1..]);
      assert c[1..] == XorBytes(a[1..], b[1..]);
      WidenXor(a[0], b[0]);
      LowBitsXor(Widen(a[0]), Widen(b[0]), 8);
      XorBitsAppend(LowBits(Widen(a[0]), 8), LowBits(Widen(b[0]), 8), Bits(a[1..]), Bits(b[1..]));
    }
  }

  lemma XorBitsAppend(a: seq<bool>, b: seq<bool>, c: seq<bool>, d: seq<bool>)
    requires |a| == |b| && |c| == |d|
    ensures XorBits(a + c, b + d) == XorBits(a, b) + XorBits(c, d)
  {}

  /** The checksum is linear over xor on messages of equal length. */
  lemma ChecksumLinear(a: seq<Byte>, b: seq<Byte>)
    requires |a| == |b|
    ensures Checksum(XorBytes(a, b)) == Xor(Checksum(a), Checksum(b))
  {
    hide Xor, FeedBits;
    BitsXor(a, b);
    FeedLinear(0, 0, Bits(a), Bits(b));
    XorZero(0);
  }

  lemma WordHalvesXor(u: bv16, v: bv16)
    ensures (((u ^ v) >> 8) & 0xFF) as Byte == (((u >> 8) & 0xFF) as Byte) ^ (((v >> 8) & 0xFF) as Byte)
    ensures ((u ^ v) & 0xFF) as Byte == ((u & 0xFF) as Byte) ^ ((v & 0xFF) as Byte)
  {}

  lemma WordBytesXor(u: bv16, v: bv16)
    ensures WordBytes(Xor(u, v)) == XorBytes(WordBytes(u), WordBytes(v))
  {
    WordHalvesXor(u, v);
    assert WordBytes(u ^ v) == XorBytes(WordBytes(u), WordBytes(v));
  }

  lemma WordBytesInjective(u: bv16, v: bv16)
    ensures WordBytes(u) == WordBytes(v) <==> u == v
  {
    if WordBytes(u) == WordBytes(v) {
      assert WordBytes(u)[0] == WordBytes(v)[0] && WordBytes(u)[1] == WordBytes(v)[1];
    }
  }

  lemma XorCancel(u: bv16, v: bv16, w: bv16)
    ensures Xor(u, v) == Xor(u, w) <==> v == w
  {}

  /** A corrupted message passes the check exactly when the checksum of the error in the
      covered bytes is the error in the CRC field. */
  lemma UndetectedExactly(data: seq<Byte>, error: seq<Byte>, fieldError: bv16)
    requires |error| == |data|
    ensures XorBytes(CrcField(data, 2), WordBytes(fieldError)) == CrcField(XorBytes(data, error), 2)
       <==> Checksum(error) == fieldError
  {
    hide Xor, WordBytes, Checksum;
    ChecksumLinear(data, error);
    WordBytesXor(Checksum(data), fieldError);
    WordBytesInjective(Xor(Checksum(data), fieldError), Xor(Checksum(data), Checksum(error)));
    XorCancel(Checksum(data), fieldError, Checksum(error));
  }

  // ---------------------------------------------------------------------------
  // Injectivity and bursts
  // ---------------------------------------------------------------------------

  /** The register can be run backwards: the top bit says whether the polynomial was added. */
  lemma ShiftZero(r: bv16)
    ensures Shift(r) == 0 <==> r == 0
  {}

  /** A shift is a bijection on registers. */
  lemma ShiftInjective(x: bv16, y: bv16)
    requires Shift(x) == Shift(y)
    ensures x == y
  {
    ShiftLinear(x, y);
    ShiftZero(Xor(x, y));
  }

  ghost predicate AllClear(bits: seq<bool>) {
    forall i | 0 <= i < |bits| :: !bits[i]
  }

  lemma {:induction false} FeedZeros(r: bv16, bits: seq<bool>)
    requires AllClear(bits)
    ensures FeedBits(r, bits) == 0 <==> r == 0
    decreases |bits|
  {
    hide Shift, Xor;
    if bits != [] {
      assert BitWord(bits[0]) == 0;
      XorZero(r);
      ShiftZero(r);
      FeedZeros(Shift(r), bits[1..]);
    }
  }

  /** The top `k` bits of a register. */
  function TopMask(k: nat): bv16
    requires 1 <= k <= 16
  {
    match k
    case 1 => 0x8000
    case 2 => 0xC000
    case 3 => 0xE000
    case 4 => 0xF000
    case 5 => 0xF800
    case 6 => 0xFC00
    case 7 => 0xFE00
    case 8 => 0xFF00
    case 9 => 0xFF80
    case 10 => 0xFFC0
    case 11 => 0xFFE0
    case 12 => 0xFFF0
    case 13 => 0xFFF8
    case 14 => 0xFFFC
    case 15 => 0xFFFE
    case 16 => 0xFFFF
  }

  predicate Hits(r: bv16, mask: bv16) {
    r & mask != 0
  }

  /** The mask one shift later, with one more bit on top. */
  predicate NextMask(mask: bv16, next: bv16) {
    mask & 1 == 0 && next == (mask >> 1) | 0x8000
  }

  lemma TopMaskNext(k: nat)
    requires 1 <= k <= 15
    ensures NextMask(TopMask(k), TopMask(k + 1))
  {}

  lemma MaskStep(r: bv16, bit: bool, mask: bv16, next: bv16)
    requires Hits(r, mask) && NextMask(mask, next)
    ensures Hits(Shift(Xor(r, BitWord(bit))), next)
  {}

  /** Fewer than sixteen shifts cannot cancel a set bit, whatever is fed in: one stays among the
      top bits that the shifts have reached. */
  lemma {:induction false} FeedKeepsTop(r: bv16, bits: seq<bool>, k: nat)
    requires 1 <= k && k + |bits| <= 16 && Hits(r, TopMask(k))
    ensures Hits(FeedBits(r, bits), TopMask(k + |bits|))
    decreases |bits|
  {
    hide Shift, Xor, BitWord, TopMask, Hits, NextMask;
    if bits != [] {
      TopMaskNext(k);
      MaskStep(r, bits[0], TopMask(k), TopMask(k + 1));
      FeedKeepsTop(Shift(Xor(r, BitWord(bits[0]))), bits[1..], k + 1);
    }
  }

  lemma ZeroMisses(mask: bv16)
    ensures !Hits(0, mask)
  {}

  lemma FirstBit()
    ensures Hits(Shift(Xor(0, BitWord(true))), TopMask(1))
  {}

  /** Every set bit lies in `lo .. lo + n`. */
  ghost predicate WithinWindow(bits: seq<bool>, lo: nat, n: nat) {
    forall i | 0 <= i < |bits| && bits[i] :: lo <= i < lo + n
  }

  /** At most sixteen bits from the first set one to the end leave a bit among the register's top
      bits, as many as were fed. */
  lemma BurstHits(bits: seq<bool>, first: nat)
    requires first < |bits| <= first + 16 && bits[first] && AllClear(bits[..first])
    ensures Hits(FeedBits(0, bits), TopMask(|bits| - first))
  {
    hide Shift, Xor, BitWord, TopMask, Hits;
    var window := bits[first..];
    assert bits == bits[..first] + window;
    FeedBitsAppend(0, bits[..first], window);
    FeedZeros(0, bits[..first]);
    FirstBit();
    FeedKeepsTop(Shift(Xor(0, BitWord(true))), window[1..], 1);
    assert FeedBits(0, window) == FeedBits(Shift(Xor(0, BitWord(window[0]))), window[1..]);
  }

  /** A burst of at most sixteen bits, wherever it falls, has a nonzero register. */
  lemma BurstOfBits(bits: seq<bool>, lo: nat, first: nat)
    requires lo <= first < |bits| && bits[first]
    requires WithinWindow(bits, lo, 16)
    requires AllClear(bits[..first])
    ensures FeedBits(0, bits) != 0
  {
    hide Shift, Xor, BitWord, TopMask, Hits;
    var end := if lo + 16 < |bits| then lo + 16 else |bits|;
    var front := bits[..end];
    assert front[..first] == bits[..first];
    BurstHits(front, first);
    ZeroMisses(TopMask(end - first));
    var tail := bits[end..];
    forall i | 0 <= i < |tail| ensures !tail[i] {
      assert tail[i] == bits[end + i];
    }
    assert bits == front + tail;
    FeedBitsAppend(0, front, tail);
    FeedZeros(FeedBits(0, front), tail);
  }

  lemma {:induction false} FirstSetBit(bits: seq<bool>) returns (first: nat)
    requires !AllClear(bits)
    ensures first < |bits| && bits[first] && AllClear(bits[..first])
    decreases |bits|
  {
    var i :| 0 <= i < |bits| && bits[i];
    if AllClear(bits[..i]) {
      first := i;
    } else {
      first := FirstSetBit(bits[..i]);
      assert bits[..i][..first] == bits[..first];
    }
  }

  /** Any error whose flipped bits lie within sixteen consecutive bit positions of the covered
      bytes is detected, at any message length. `CrcBoundary` takes in the CRC field. */
  lemma BurstDetected(data: seq<Byte>, error: seq<Byte>, lo: nat)
    requires |error| == |data|
    requires WithinWindow(Bits(error), lo, 16) && !AllClear(Bits(error))
    ensures CrcField(XorBytes(data, error), 2) != CrcField(data, 2)
  {
    var first := FirstSetBit(Bits(error));
    BurstOfBits(Bits(error), lo, first);
    UndetectedExactly(data, error, 0);
    hide Checksum, Bits, FeedBits;
    XorNothing(CrcField(data, 2));
  }

  lemma XorNothing(field: seq<Byte>)
    requires |field| == 2
    ensures XorBytes(field, WordBytes(0)) == field
  {
    assert WordBytes(0) == [0, 0];
  }

  // ---------------------------------------------------------------------------
  // Two corrupted bytes
  // ---------------------------------------------------------------------------

  lemma {:induction false} ShiftsZero(x: bv16, n: nat)
    ensures Shifts(x, n) == 0 <==> x == 0
    decreases n
  {
    hide Shift;
    if n > 0 {
      ShiftZero(x);
      ShiftsZero(Shift(x), n - 1);
    }
  }

  lemma WidenZero(b: Byte)
    ensures Widen(b) == 0 <==> b == 0
    ensures Widen(b) <= Ones(8)
  {}

  lemma ByteAllClear(b: Byte)
    ensures AllClear(LowBits(Widen(b), 8)) <==> b == 0
  {
    hide Xor, Widen, Shifts, FeedBits, Ones;
    WidenZero(b);
    if b == 0 {
      ZeroAllClear(8);
    } else if AllClear(LowBits(Widen(b), 8)) {
      ShiftsFeedBits(0, Widen(b), 8);
      XorZero(Widen(b));
      FeedZeros(0, LowBits(Widen(b), 8));
      ShiftsZero(Widen(b), 8);
    }
  }

  lemma {:induction false} ZeroAllClear(n: nat)
    ensures AllClear(LowBits(0, n))
    decreases n
  {
    if n > 0 {
      assert Half(0) == 0 && !LowBit(0);
      ZeroAllClear(n - 1);
    }
  }

  lemma {:induction false} BitsAt(data: seq<Byte>, i: nat, k: nat)
    requires i < |data| && k < 8
    ensures Bits(data)[8 * i + k] == LowBits(Widen(data[i]), 8)[k]
  {
    hide Widen, LowBits;
    if i > 0 {
      BitsAt(data[1..], i - 1, k);
    }
  }

  /** Any corruption confined to two consecutive covered bytes is detected, at any message
      length. */
  lemma TwoBytesDetected(data: seq<Byte>, error: seq<Byte>, at: nat)
    requires |error| == |data| && at < |data|
    requires forall i | 0 <= i < |error| && error[i] != 0 :: i == at || i == at + 1
    requires exists i | 0 <= i < |error| :: error[i] != 0
    ensures CrcField(XorBytes(data, error), 2) != CrcField(data, 2)
  {
    hide Widen, LowBits, CrcField, XorBytes;
    var bits := Bits(error);
    forall p | 0 <= p < |bits| && bits[p] ensures 8 * at <= p < 8 * at + 16 {
      BitsAt(error, p / 8, p % 8);
      ByteAllClear(error[p / 8]);
    }
    var i :| 0 <= i < |error| && error[i] != 0;
    ByteAllClear(error[i]);
    var k :| 0 <= k < 8 && LowBits(Widen(error[i]), 8)[k];
    BitsAt(error, i, k);
    assert bits[8 * i + k];
    BurstDetected(data, error, 8 * at);
  }

  // ---------------------------------------------------------------------------
  // Parity
  // ---------------------------------------------------------------------------

  /** The number of set bits. */
  function CountSet(bits: seq<bool>): nat {
    if bits == [] then 0 else (if bits[0] then 1 else 0) + CountSet(bits[1..])
  }

  ghost predicate Odd(bits: seq<bool>) {
    CountSet(bits) % 2 == 1
  }

  lemma {:induction false} OddXor(a: seq<bool>, b: seq<bool>)
    requires |a| == |b|
    ensures Odd(XorBits(a, b)) == (Odd(a) != Odd(b))
  {
    if a != [] {
      assert XorBits(a, b)[1..] == XorBits(a[1..], b[1..]);
      OddXor(a[1..], b[1..]);
    }
  }

  lemma {:induction false} CountSetAppend(a: seq<bool>, b: seq<bool>)
    ensures CountSet(a + b) == CountSet(a) + CountSet(b)
  {
    if a == [] {
      assert a + b == b;
    } else {
      assert (a + b)[1..] == a[1..] + b;
      CountSetAppend(a[1..], b);
    }
  }

  ghost predicate OddWord(r: bv16) {
    Odd(LowBits(r, 16))
  }

  lemma {:induction false} LowBitsSplit(x: bv16, m: nat, n: nat)
    ensures LowBits(x, m + n) == LowBits(x, m) + LowBits(Halves(x, m), n)
    decreases m
  {
    hide Half, LowBit;
    if m > 0 {
      LowBitsSplit(Half(x), m - 1, n);
    }
  }

  lemma {:induction false} HalvesSplit(x: bv16, m: nat, n: nat)
    ensures Halves(x, m + n) == Halves(Halves(x, m), n)
    decreases m
  {
    hide Half;
    if m > 0 {
      HalvesSplit(Half(x), m - 1, n);
    }
  }

  lemma SixteenHalves(x: bv16)
    ensures Halves(x, 16) == 0
  {
    HalvesSplit(x, 8, 8);
    EightHalves(x);
    EightHalves(HighByte(x));
    assert HighByte(HighByte(x)) == 0;
  }

  lemma OddStep(x: bv16, n: nat)
    ensures Odd(LowBits(x, n + 1)) == (Odd(LowBits(Half(x), n)) != LowBit(x))
  {
    hide Half, LowBit;
    assert LowBits(x, n + 1)[1..] == LowBits(Half(x), n);
  }

  lemma LastBitOfHalf(x: bv16, n: nat)
    requires Halves(x, n + 1) == 0
    ensures LowBits(Half(x), n + 1) == LowBits(Half(x), n) + [false]
  {
    hide Half, LowBit, LowBits;
    LowBitsSplit(Half(x), n, 1);
    ZeroBit();
  }

  lemma ZeroBit()
    ensures LowBits(0, 1) == [false]
  {
    assert LowBits(0, 1) == [LowBit(0)] + LowBits(Half(0), 0);
  }

  lemma OddHalfOf(x: bv16, n: nat)
    requires Halves(x, n + 1) == 0
    ensures Odd(LowBits(Half(x), n + 1)) == (Odd(LowBits(x, n + 1)) != LowBit(x))
  {
    hide Half, LowBit, LowBits, Halves;
    LastBitOfHalf(x, n);
    OddStep(x, n);
    CountSetAppend(LowBits(Half(x), n), [false]);
  }

  lemma OddHalf(x: bv16)
    ensures OddWord(Half(x)) == (OddWord(x) != LowBit(x))
  {
    hide Half, LowBit, LowBits, Halves, Odd;
    SixteenHalves(x);
    OddHalfOf(x, 15);
  }

  lemma {:induction false} OddZero(n: nat)
    ensures !Odd(LowBits(0, n))
    decreases n
  {
    if n > 0 {
      assert Half(0) == 0 && !LowBit(0);
      assert LowBits(0, n)[1..] == LowBits(0, n - 1);
      OddZero(n - 1);
    }
  }

  lemma PolynomialHalves()
    ensures Half(0xA001) == 0x5000 && LowBit(0xA001)
    ensures Half(0x5000) == 0x2800 && !LowBit(0x5000)
    ensures Half(0x2800) == 0x1400 && !LowBit(0x2800)
    ensures Half(0x1400) == 0x0A00 && !LowBit(0x1400)
    ensures Half(0x0A00) == 0x0500 && !LowBit(0x0A00)
    ensures Half(0x0500) == 0x0280 && !LowBit(0x0500)
    ensures Half(0x0280) == 0x0140 && !LowBit(0x0280)
    ensures Half(0x0140) == 0x00A0 && !LowBit(0x0140)
    ensures Half(0x00A0) == 0x0050 && !LowBit(0x00A0)
    ensures Half(0x0050) == 0x0028 && !LowBit(0x0050)
    ensures Half(0x0028) == 0x0014 && !LowBit(0x0028)
    ensures Half(0x0014) == 0x000A && !LowBit(0x0014)
    ensures Half(0x000A) == 0x0005 && !LowBit(0x000A)
    ensures Half(0x0005) == 0x0002 && LowBit(0x0005)
    ensures Half(0x0002) == 0x0001 && !LowBit(0x0002)
    ensures Half(0x0001) == 0x0000 && LowBit(0x0001)
  {}

  /** The reflected polynomial has three set bits. */
  lemma OddPolynomial()
    ensures OddWord(POLYNOMIAL)
  {
    PolynomialHalves();
    hide Half, LowBit, LowBits, CountSet;
    OddStep(0xA001, 15);
    OddStep(0x5000, 14);
    OddStep(0x2800, 13);
    OddStep(0x1400, 12);
    OddStep(0x0A00, 11);
    OddStep(0x0500, 10);
    OddStep(0x0280, 9);
    OddStep(0x0140, 8);
    OddStep(0x00A0, 7);
    OddStep(0x0050, 6);
    OddStep(0x0028, 5);
    OddStep(0x0014, 4);
    OddStep(0x000A, 3);
    OddStep(0x0005, 2);
    OddStep(0x0002, 1);
    OddStep(0x0001, 0);
    OddZero(0);
  }

  /** A shift that drops a set bit adds three: parity never changes. */
  lemma OddShift(r: bv16)
    ensures OddWord(Shift(r)) == OddWord(r)
  {
    assert Shift(r) == Xor(Half(r), if LowBit(r) then POLYNOMIAL else 0) by {
      LowBitIsBit(r);
    }
    hide Shift, Half, LowBit, Xor;
    var tap := if LowBit(r) then POLYNOMIAL else 0;
    OddHalf(r);
    OddPolynomial();
    OddZero(16);
    LowBitsXor(Half(r), tap, 16);
    OddXor(LowBits(Half(r), 16), LowBits(tap, 16));
  }

  lemma OddBit(r: bv16, bit: bool)
    ensures OddWord(Xor(r, BitWord(bit))) == (OddWord(r) != bit)
  {
    hide Xor;
    var w := BitWord(bit);
    assert Half(w) == 0 && LowBit(w) == bit;
    OddStep(w, 15);
    OddZero(15);
    LowBitsXor(r, w, 16);
    hide LowBits, Half, LowBit, BitWord;
    OddXor(LowBits(r, 16), LowBits(w, 16));
  }

  lemma {:induction false} OddFeed(r: bv16, bits: seq<bool>)
    ensures OddWord(FeedBits(r, bits)) == (OddWord(r) != Odd(bits))
    decreases |bits|
  {
    hide Shift, Xor, BitWord, OddWord;
    if bits != [] {
      var next := Xor(r, BitWord(bits[0]));
      OddBit(r, bits[0]);
      OddShift(next);
      OddFeed(Shift(next), bits[1..]);
    }
  }

  lemma {:induction false} LowBitsOfMultiple(h: bv16, n: nat)
    requires n <= 8 && h & Ones(n) == 0
    ensures AllClear(LowBits(h, n))
    decreases n
  {
    hide Half, LowBit;
    if n > 0 {
      HalfOfMultiple(h, n);
      assert !LowBit(h) by {
        MultipleIsEven(h, n);
      }
      hide Ones;
      LowBitsOfMultiple(Half(h), n - 1);
    }
  }

  lemma MultipleIsEven(h: bv16, n: nat)
    requires 1 <= n <= 8 && h & Ones(n) == 0
    ensures !LowBit(h)
  {}

  lemma XorClear(a: seq<bool>, b: seq<bool>)
    requires |a| == |b| && AllClear(a)
    ensures XorBits(a, b) == b
  {}

  lemma WordByteParts(v: bv16)
    ensures WordBytes(v)[0] as bv16 == HighByte(v)
    ensures v == Xor(HighPart(v), Widen(WordBytes(v)[1]))
    ensures HighPart(v) & Ones(8) == 0
  {}

  /** The parity of a register is the parity of its two bytes on the wire. */
  lemma OddWordBytes(v: bv16)
    ensures OddWord(v) == Odd(Bits(WordBytes(v)))
  {
    hide Xor, HighByte, HighPart, Widen, Ones, LowBits, Halves;
    var high, low := WordBytes(v)[0], WordBytes(v)[1];
    WordByteParts(v);
    LowBitsSplit(v, 8, 8);
    EightHalves(v);
    LowBitsXor(HighPart(v), Widen(low), 8);
    LowBitsOfMultiple(HighPart(v), 8);
    XorClear(LowBits(HighPart(v), 8), LowBits(Widen(low), 8));
    BitsOfByte(high);
    BitsOfByte(low);
    BitsAppend([high], [low]);
    assert WordBytes(v) == [high] + [low];
    CountSetAppend(LowBits(Widen(low), 8), LowBits(HighByte(v), 8));
    CountSetAppend(Bits([high]), Bits([low]));
    WidenHigh(v);
  }

  lemma WidenHigh(v: bv16)
    ensures Widen(WordBytes(v)[0]) == HighByte(v)
  {}

  /** The checksum has the parity of the message. */
  lemma ChecksumParity(data: seq<Byte>)
    ensures OddWord(Checksum(data)) == Odd(Bits(data))
  {
    OddFeed(0, Bits(data));
    OddZero(16);
  }

  /** An odd number of flipped bits, counted over the covered bytes and the CRC field
      together, is always detected. */
  lemma OddErrorDetected(data: seq<Byte>, error: seq<Byte>, fieldError: seq<Byte>)
    requires |error| == |data| && |fieldError| == 2
    requires Odd(Bits(error + fieldError))
    ensures XorBytes(CrcField(data, 2), fieldError) != CrcField(XorBytes(data, error), 2)
  {
    hide Checksum, Bits, CrcField, XorBytes, WordBytes, Odd;
    var word := BytesWord(fieldError);
    UndetectedExactly(data, error, word);
    OddSyndrome(error, word);
  }

  /** A field error that makes the whole error odd is never the checksum of the rest. */
  lemma OddSyndrome(error: seq<Byte>, word: bv16)
    requires Odd(Bits(error + WordBytes(word)))
    ensures Checksum(error) != word
  {
    hide Checksum, Bits, WordBytes, LowBits;
    BitsAppend(error, WordBytes(word));
    CountSetAppend(Bits(error), Bits(WordBytes(word)));
    ChecksumParity(error);
    OddWordBytes(word);
  }

  lemma BytesWord(field: seq<Byte>) returns (word: bv16)
    requires |field| == 2
    ensures WordBytes(word) == field
  {
    word := (Widen(field[0]) << 8) | Widen(field[1]);
  }
}
