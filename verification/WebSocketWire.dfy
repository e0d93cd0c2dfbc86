/** WebSocket frames byte by byte, and frames that are cut (conn/ws.go:40-187; sections 5.2 and 5.3
    of RFC 6455). */
module WebSocketWire {
  import opened Bytes
  import opened RoundTrip
  import opened WebSocket

  // ---------------------------------------------------------------------------
  // Extended lengths
  // ---------------------------------------------------------------------------

  lemma LastDigit(s: seq<Byte>, n: nat)
    requires 0 < n <= |s|
    ensures ReadBig(s[..n]) == ReadBig(s[..n - 1]) * 256 + s[n - 1] as nat
  {
    assert s[..n][..n - 1] == s[..n - 1];
  }

  lemma FourMore(s: seq<Byte>, n: nat)
    requires n + 4 <= |s|
    ensures ReadBig(s[..n + 4]) == ReadBig(s[..n]) * 0x1_0000_0000 + Quad(s, n)
  {
    hide ReadBig;
    LastDigit(s, n + 1);
    LastDigit(s, n + 2);
    LastDigit(s, n + 3);
    LastDigit(s, n + 4);
    FourDigits(ReadBig(s[..n]), s[n] as nat, s[n + 1] as nat, s[n + 2] as nat, s[n + 3] as nat);
  }

  lemma FourDigits(r: nat, a: nat, b: nat, c: nat, d: nat)
    ensures (((r * 256 + a) * 256 + b) * 256 + c) * 256 + d
         == r * 0x1_0000_0000 + (a * 0x100_0000 + b * 0x1_0000 + c * 256 + d)
  {}

  /** Eight bytes read as one number, the highest first. */
  lemma EightBytes(s: seq<Byte>)
    requires |s| == 8
    ensures ReadBig(s) == Quad(s, 0) * 0x1_0000_0000 + Quad(s, 4)
  {
    hide ReadBig, Quad;
    NoDigits(s);
    FourMore(s, 0);
    FourMore(s, 4);
    assert s[..8] == s;
  }

  lemma TwoBytes(s: seq<Byte>)
    requires |s| == 2
    ensures ReadBig(s) == Pair(s, 0)
  {
    hide ReadBig;
    NoDigits(s);
    LastDigit(s, 1);
    LastDigit(s, 2);
    assert s[..2] == s;
  }

  lemma NoDigits(s: seq<Byte>)
    ensures ReadBig(s[..0]) == 0
  {}

  /** The size of the extended length. */
  function ExtendedLen(n: nat): nat {
    if n <= 125 then 0 else if n <= 65535 then 2 else 8
  }

  lemma ExtendedOnWire(n: nat)
    requires n < MAX_LENGTH
    ensures |Extended(n)| == ExtendedLen(n)
    ensures ExtendedLen(n) == 2 ==> Pair(Extended(n), 0) == n
    ensures ExtendedLen(n) == 8 ==> Quad(Extended(n), 0) * 0x1_0000_0000 + Quad(Extended(n), 4) == n
  {
    LengthFits(n);
    hide BigEndian, ReadBig;
    if ExtendedLen(n) == 2 {
      TwoBytes(Extended(n));
    } else if ExtendedLen(n) == 8 {
      EightBytes(Extended(n));
    }
  }

  lemma LengthByteOnWire(n: nat, masked: bool)
    ensures LengthByte(n, masked) as nat ==
              (if masked then 128 else 0) + (if n <= 125 then n else if n <= 65535 then 126 else 127)
  {
    ByteRoundTrip(LengthCode(n));
    HighBit(ByteOf(LengthCode(n)));
    hide ByteOf;
  }

  lemma HighBit(b: Byte)
    requires b as nat < 128
    ensures (b | 0x80) as nat == 128 + b as nat
  {}

  /** A frame byte by byte: the first byte as given; mask bit and the shortest length code; the
      extended length, if any, with the high byte first; the key; the payload, each byte xored with
      the key byte of its position modulo four if there is a key. */
  lemma FrameOnWire(m: WsFrame)
    requires WsFrameOk(m)
    ensures var f, n := FrameOf(m), |m.payload|;
            var keyAt := 2 + if n <= 125 then 0 else if n <= 65535 then 2 else 8;
            var payloadAt := keyAt + if m.masked then 4 else 0;
            && |f| == payloadAt + n && f[0] == m.first
            && f[1] as nat == (if m.masked then 128 else 0) + (if n <= 125 then n else if n <= 65535 then 126 else 127)
            && (125 < n <= 65535 ==> Pair(f, 2) == n)
            && (n > 65535 ==> Quad(f, 2) * 0x1_0000_0000 + Quad(f, 6) == n)
            && f[keyAt..payloadAt] == m.key
            && (forall i | 0 <= i < n ::
                  f[payloadAt + i] == if m.masked then m.payload[i] ^ m.key[i % 4] else m.payload[i])
  {
    hide LengthByte, Extended, Cover, Pair, Quad;
    var n := |m.payload|;
    var second, e, c := LengthByte(n, m.masked), Extended(n), Cover(m.payload, m.key);
    LengthByteOnWire(n, m.masked);
    ExtendedOnWire(n);
    CoverOnWire(m);
    Parts(m.first, second, e, m.key, c, []);
    assert FrameOf(m) == [m.first, second] + e + m.key + c + [];
    Inside(FrameOf(m), e);
    PayloadInside(FrameOf(m), c, |FrameOf(m)| - n);
  }

  lemma CoverOnWire(m: WsFrame)
    requires WsFrameOk(m)
    ensures forall i | 0 <= i < |m.payload| ::
              Cover(m.payload, m.key)[i] == if m.masked then m.payload[i] ^ m.key[i % 4] else m.payload[i]
  {
    hide XorByte, Mask;
    if m.masked {
      forall i | 0 <= i < |m.payload| ensures Cover(m.payload, m.key)[i] == m.payload[i] ^ m.key[i % 4] {
        MaskAt(m.payload, m.key, i);
      }
    }
  }

  lemma Inside(f: seq<Byte>, e: seq<Byte>)
    requires 2 + |e| <= |f| && f[2..2 + |e|] == e
    ensures |e| == 2 ==> Pair(f, 2) == Pair(e, 0)
    ensures |e| == 8 ==> Quad(f, 2) == Quad(e, 0) && Quad(f, 6) == Quad(e, 4)
  {
    assert forall i | 0 <= i < |e| :: f[2 + i] == e[i];
  }

  lemma PayloadInside(f: seq<Byte>, c: seq<Byte>, at: nat)
    requires at + |c| == |f| && f[at..at + |c|] == c
    ensures forall i | 0 <= i < |c| :: f[at + i] == c[i]
  {
    forall i | 0 <= i < |c| ensures f[at + i] == c[i] {
      assert f[at..at + |c|][i] == f[at + i];
    }
  }

  /** What `Write` and the answer to a ping put on the wire: FIN and opcode, the unmasked length, the
      payload as it is. */
  lemma OwnFramesOnWire(payload: seq<Byte>)
    requires |payload| < MAX_LENGTH
    ensures var f := FrameOf(OwnFrame(BINARY_FRAME, payload));
            f[0] == 0x82 && f[1] as nat < 128 && |f| >= |payload| && f[|f| - |payload|..] == payload
    ensures var f := Pongs([payload]);
            |f| > 1 && f[0] == 0x8A && f[1] as nat < 128 && |f| >= |payload| && f[|f| - |payload|..] == payload
  {
    FinAndOpcode();
    hide FrameOf, OwnFrame, Pongs;
    OwnFrameOnWire(BINARY_FRAME, payload);
    OwnFrameOnWire(PONG_FRAME, payload);
    OnePong(payload);
  }

  lemma FinAndOpcode()
    ensures 0x80 | BINARY_FRAME == 0x82 && 0x80 | PONG_FRAME == 0x8A
  {}

  lemma OnePong(payload: seq<Byte>)
    ensures Pongs([payload]) == FrameOf(OwnFrame(PONG_FRAME, payload))
  {
    hide FrameOf, OwnFrame;
    assert [payload][..0] == [];
    assert Pongs([]) == [];
  }

  lemma OwnFrameOnWire(opcode: Byte, payload: seq<Byte>)
    requires |payload| < MAX_LENGTH
    ensures var f := FrameOf(OwnFrame(opcode, payload));
            |f| >= 2 + |payload| && f[0] == 0x80 | opcode && f[1] as nat < 128 && f[|f| - |payload|..] == payload
  {
    hide FrameOf;
    var m := OwnFrame(opcode, payload);
    assert WsFrameOk(m);
    FrameOnWire(m);
    var f := FrameOf(m);
    assert forall i | 0 <= i < |payload| :: f[|f| - |payload| + i] == payload[i];
  }

  // ---------------------------------------------------------------------------
  // Streams that end inside a frame
  // ---------------------------------------------------------------------------

  lemma HeadPrefix(s: seq<Byte>, n: nat)
    requires n <= |s| && HeadOf(s[..n]).Head?
    ensures HeadOf(s[..n]) == HeadOf(s)
  {
    hide ReadBig, Opcode, CodeOf, KeySize;
    assert s[..n][0] == s[0] && s[..n][1] == s[1];
    var h := HeadOf(s[..n]);
    var ext := ExtendedSize(CodeOf(s[1]));
    PrefixSlice(s, n, 2, 2 + ext);
    PrefixSlice(s, n, 2 + ext, h.size);
  }

  /** A stream cut anywhere inside a frame that fits the buffer ends the read: nothing is delivered
      and nothing answered. */
  lemma CutFrameEnds(m: WsFrame, n: nat, capacity: nat)
    requires WsFrameOk(m) && n < |FrameOf(m)| && (IsData(Opcode(m.first)) ==> |m.payload| <= capacity)
    ensures ReadMessage(FrameOf(m)[..n], capacity) == Ended([])
  {
    hide FrameOf, HeadOf, Cover, Opcode, Spill, ReadMessage;
    var f := FrameOf(m);
    HeadOfFrame(m, []);
    assert f + [] == f;
    Unfold(f[..n], capacity);
    if HeadOf(f[..n]).Head? {
      HeadPrefix(f, n);
    }
  }

  /** What becomes of a message larger than the buffer when the stream ends inside it: only whole
      pieces count. If the last of them had no place to go the copy has panicked. */
  function CutOff(available: seq<Byte>, capacity: nat): Spilled {
    var whole := |available| / 4096 * 4096;
    if whole >= 4096 && whole - 4096 > capacity then Panicked
    else Spilled(whole, if whole <= capacity then available[..whole] else available[..capacity], true, [])
  }

  lemma {:induction false} CutSpillIs(s: seq<Byte>, key: seq<Byte>, len: nat, total: nat, filled: seq<Byte>,
                                       capacity: nat)
    requires |s| < len && total <= |s| && total % PIECE == 0 && (total >= PIECE ==> total - PIECE <= capacity)
    requires filled == Fitting(Cover(s, key)[..total], capacity)
    ensures Spill(s[total..], key, total, len - total, filled, capacity) == CutOff(Cover(s, key), capacity)
    decreases |s| - total
  {
    hide Cover, Spill, Fitting, CutOff;
    var remaining := len - total;
    var n := if remaining < PIECE then remaining else PIECE;
    SpillStep(s[total..], key, total, remaining, filled, capacity);
    LastWhole(|s|, total);
    assert s[..|s|] == s;
    if |s| - total < n {
      CutHere(Cover(s, key), total, capacity);
    } else if total <= capacity {
      Slices(s, total, n);
      PieceIs(s, key, |s|, total, n, filled, capacity);
      CutSpillIs(s, key, len, total + n, filled + Fitting(Cover(s[total..][..n], key), capacity - total), capacity);
    } else {
      NoPlaceHere(Cover(s, key), total, capacity);
    }
  }

  lemma LastWhole(available: nat, total: nat)
    requires total <= available && total % PIECE == 0
    ensures available - total < PIECE <==> available / PIECE * PIECE == total
    ensures available - total >= PIECE ==> available / PIECE * PIECE >= total + PIECE
  {
    assert total == total / PIECE * PIECE;
  }

  lemma CutHere(available: seq<Byte>, total: nat, capacity: nat)
    requires total <= |available| && |available| / PIECE * PIECE == total
    requires total >= PIECE ==> total - PIECE <= capacity
    ensures CutOff(available, capacity) == Spilled(total, Fitting(available[..total], capacity), true, [])
  {
    if total > capacity {
      assert available[..total][..capacity] == available[..capacity];
    }
  }

  lemma NoPlaceHere(available: seq<Byte>, total: nat, capacity: nat)
    requires capacity < total && |available| / PIECE * PIECE >= total + PIECE
    ensures CutOff(available, capacity) == Panicked
  {}

  /** So a message larger than the buffer in a stream that ends inside it is cut off at the last
      whole piece, or the copy panics, whatever the key. */
  lemma CutMessageEnds(m: WsFrame, n: nat, capacity: nat)
    requires WsFrameOk(m) && (m.first & 0x0F == 1 || m.first & 0x0F == 2) && |m.payload| > capacity
    requires |FrameOf(m)| - |m.payload| <= n < |FrameOf(m)|
    ensures ReadMessage(FrameOf(m)[..n], capacity) ==
              TooLarge(CutOff(m.payload[..n - (|FrameOf(m)| - |m.payload|)], capacity), [])
  {
    hide FrameOf, HeadOf, Cover, Opcode, IsData, Spill, ReadMessage, CutOff;
    DataOpcode(m.first);
    var f, at := FrameOf(m), |FrameOf(m)| - |m.payload|;
    HeadOfFrame(m, []);
    assert f + [] == f;
    HeadWhole(m, n);
    OversizeRead(f[..n], capacity);
    Tail(f, at, n);
    SpillCut(m, n - at, capacity);
  }

  lemma OversizeRead(s: seq<Byte>, capacity: nat)
    requires var h := HeadOf(s); h.Head? && h.opcode != CLOSE_FRAME && IsData(h.opcode) && h.len > capacity
    ensures var h := HeadOf(s);
            ReadMessage(s, capacity) == TooLarge(Spill(s[h.size..], h.key, 0, h.len, [], capacity), [])
  {
    hide HeadOf, Spill, ReadMessage;
    Unfold(s, capacity);
  }

  lemma DataOpcode(first: Byte)
    requires first & 0x0F == 1 || first & 0x0F == 2
    ensures IsData(Opcode(first)) && Opcode(first) != CLOSE_FRAME
  {}

  lemma Tail(f: seq<Byte>, at: nat, n: nat)
    requires at <= n <= |f|
    ensures f[..n][at..] == f[at..|f|][..n - at]
  {}

  lemma SpillCut(m: WsFrame, k: nat, capacity: nat)
    requires WsFrameOk(m) && k < |m.payload| && capacity < |m.payload|
    ensures Spill(Cover(m.payload, m.key)[..k], m.key, 0, |m.payload|, [], capacity) == CutOff(m.payload[..k], capacity)
  {
    hide Cover, Spill, CutOff;
    var s := Cover(m.payload, m.key)[..k];
    PayloadCut(m, k);
    NothingFilled(Cover(s, m.key), capacity);
    CutSpillIs(s, m.key, |m.payload|, 0, [], capacity);
    assert s[0..] == s;
  }

  lemma NothingFilled(data: seq<Byte>, capacity: nat)
    ensures Fitting(data[..0], capacity) == []
  {}

  lemma HeadWhole(m: WsFrame, n: nat)
    requires WsFrameOk(m) && |FrameOf(m)| - |m.payload| <= n <= |FrameOf(m)|
    ensures HeadOf(FrameOf(m)[..n]) == HeadOf(FrameOf(m))
  {
    hide FrameOf, ReadBig, Opcode, CodeOf, KeySize;
    var f := FrameOf(m);
    HeadOfFrame(m, []);
    assert f + [] == f;
    assert f[..n][0] == f[0] && f[..n][1] == f[1];
    HeadPrefix(f, n);
  }

  /** What has arrived of a payload is that much of the message. */
  lemma PayloadCut(m: WsFrame, k: nat)
    requires WsFrameOk(m) && k <= |m.payload|
    ensures Cover(Cover(m.payload, m.key)[..k], m.key) == m.payload[..k]
  {
    hide Cover;
    CoverTwice(m.payload, m.key);
    CoverSlice(Cover(m.payload, m.key), m.key, 0, k);
    assert Cover(m.payload, m.key)[0..k] == Cover(m.payload, m.key)[..k];
    assert m.payload[0..k] == m.payload[..k];
  }
}
