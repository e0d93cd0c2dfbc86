/** WebSocket framing under a protocol connection (conn/ws.go:31-187 and 219-224; sections 5.2,
    5.3 and 5.5 of RFC 6455). */
module WebSocket {
  import opened Bytes
  import opened Packet
  import opened Encoder
  import opened StreamParser
  import opened RoundTrip
  import Crc
  import Decoding
  import Reading

  /** Section 5.4 of RFC 6455; the source has no name for it. */
  const CONTINUATION_FRAME: Byte := 0

  const TEXT_FRAME: Byte := 1
  const BINARY_FRAME: Byte := 2
  const CLOSE_FRAME: Byte := 8
  const PING_FRAME: Byte := 9
  const PONG_FRAME: Byte := 10

  // ---------------------------------------------------------------------------
  // Masking
  // ---------------------------------------------------------------------------

  function XorByte(a: Byte, b: Byte): Byte {
    a ^ b
  }

  lemma XorTwice(a: Byte, b: Byte)
    ensures XorByte(XorByte(a, b), b) == a
  {}

  function Mask(data: seq<Byte>, key: seq<Byte>): (masked: seq<Byte>)
    requires |key| == 4
    ensures |masked| == |data|
  {
    seq(|data|, i requires 0 <= i < |data| => XorByte(data[i], key[i % 4]))
  }

  method MaskBytes(data: array<Byte>, key: seq<Byte>)
    requires |key| == 4
    modifies data
    ensures data[..] == Mask(old(data[..]), key)
    ensures forall i | 0 <= i < data.Length :: data[i] == old(data[i]) ^ key[i % 4]
  {
    for i := 0 to data.Length
      invariant forall k | 0 <= k < data.Length ::
              data[k] == if k < i then XorByte(old(data[k]), key[k % 4]) else old(data[k])
    {
      data[i] := XorByte(data[i], key[i % 4]);
    }
  }

  /** Every byte meets the key byte of its position, counted modulo four. */
  lemma MaskAt(data: seq<Byte>, key: seq<Byte>, i: nat)
    requires |key| == 4 && i < |data|
    ensures Mask(data, key)[i] == data[i] ^ key[i % 4]
  {}

  /** So masking zeros shows the key over and over, and any masked byte gives its key byte away. */
  lemma KeyStream(data: seq<Byte>, key: seq<Byte>, i: nat)
    requires |key| == 4 && i < |data|
    ensures Mask(Zeros(|data|), key)[i] == key[i % 4]
    ensures data[i] ^ Mask(data, key)[i] == key[i % 4]
  {
    MaskAt(data, key, i);
    MaskAt(Zeros(|data|), key, i);
    hide Mask;
    XorBack(data[i], key[i % 4]);
  }

  lemma XorBack(a: Byte, b: Byte)
    ensures a ^ (a ^ b) == b && 0 ^ b == b
  {}

  /** Unmasking undoes masking. */
  lemma MaskTwice(data: seq<Byte>, key: seq<Byte>)
    requires |key| == 4
    ensures Mask(Mask(data, key), key) == data
  {
    hide XorByte;
    forall i | 0 <= i < |data| ensures Mask(Mask(data, key), key)[i] == data[i] {
      XorTwice(data[i], key[i % 4]);
    }
  }

  /** Masking piece by piece, starting the key over at every piece. */
  function MaskInPieces(data: seq<Byte>, key: seq<Byte>, size: nat): seq<Byte>
    requires |key| == 4 && size > 0
    decreases |data|
  {
    if |data| <= size then Mask(data, key)
    else Mask(data[..size], key) + MaskInPieces(data[size..], key, size)
  }

  lemma {:induction false} MaskPieces(data: seq<Byte>, key: seq<Byte>, size: nat)
    requires |key| == 4 && size > 0 && size % 4 == 0
    ensures MaskInPieces(data, key, size) == Mask(data, key)
    decreases |data|
  {
    hide XorByte;
    if |data| > size {
      MaskPieces(data[size..], key, size);
      forall i | 0 <= i < |data| ensures (Mask(data[..size], key) + Mask(data[size..], key))[i] == Mask(data, key)[i] {
        if i >= size {
          SameKeyByte(i, size);
          assert data[size..][i - size] == data[i];
        }
      }
    }
  }

  lemma SameKeyByte(i: nat, size: nat)
    requires size <= i && size % 4 == 0
    ensures (i - size) % 4 == i % 4
  {}

  /** The 4096-byte pieces of `Read` mask like one. */
  lemma ReadPiecesMaskWhole(data: seq<Byte>, key: seq<Byte>)
    requires |key| == 4
    ensures MaskInPieces(data, key, 4096) == Mask(data, key)
  {
    MaskPieces(data, key, 4096);
  }

  // ---------------------------------------------------------------------------
  // Big-endian lengths
  // ---------------------------------------------------------------------------

  function BigEndian(n: nat, w: nat): (s: seq<Byte>)
    ensures |s| == w
  {
    if w == 0 then [] else BigEndian(n / 256, w - 1) + [ByteOf(n % 256)]
  }

  function ReadBig(s: seq<Byte>): nat {
    if s == [] then 0 else ReadBig(s[..|s| - 1]) * 256 + s[|s| - 1] as nat
  }

  function Pow256(w: nat): nat {
    if w == 0 then 1 else 256 * Pow256(w - 1)
  }

  lemma {:induction false} BigRoundTrip(n: nat, w: nat)
    requires n < Pow256(w)
    ensures ReadBig(BigEndian(n, w)) == n
    decreases w
  {
    hide ByteOf;
    if w > 0 {
      BigRoundTrip(n / 256, w - 1);
      ByteRoundTrip(n % 256);
      var s := BigEndian(n, w);
      assert s[..w - 1] == BigEndian(n / 256, w - 1);
    }
  }

  lemma PowTwo()
    ensures Pow256(2) == 65536
  {
    assert Pow256(1) == 256;
  }

  const MAX_LENGTH: nat := 0x1_0000_0000_0000_0000

  lemma PowEight()
    ensures Pow256(8) == MAX_LENGTH
  {
    PowTwo();
    assert Pow256(3) == 0x100_0000;
    assert Pow256(4) == 0x1_0000_0000;
    assert Pow256(5) == 0x100_0000_0000;
    assert Pow256(6) == 0x1_0000_0000_0000;
    assert Pow256(7) == 0x100_0000_0000_0000;
  }

  // ---------------------------------------------------------------------------
  // Frames
  // ---------------------------------------------------------------------------

  /** A frame's length code: the length itself, or 126 or 127 for an extended length. */
  function LengthCode(n: nat): nat {
    if n <= 125 then n else if n <= 65535 then 126 else 127
  }

  function Extended(n: nat): seq<Byte> {
    if n <= 125 then [] else BigEndian(n, if n <= 65535 then 2 else 8)
  }

  /** The second header byte: the mask bit and the length code. */
  function LengthByte(n: nat, masked: bool): Byte {
    if masked then ByteOf(LengthCode(n)) | 0x80 else ByteOf(LengthCode(n))
  }

  lemma LengthByteReads(n: nat, masked: bool)
    ensures KeySize(LengthByte(n, masked)) == if masked then 4 else 0
    ensures CodeOf(LengthByte(n, masked)) == LengthCode(n)
  {
    ByteRoundTrip(LengthCode(n));
    SevenBits(ByteOf(LengthCode(n)));
    hide ByteOf;
  }

  lemma SevenBits(b: Byte)
    requires b as nat < 128
    ensures b & 0x80 == 0 && b & 0x7F == b
    ensures (b | 0x80) & 0x80 != 0 && (b | 0x80) & 0x7F == b
  {}

  /** One frame on the wire. The high half of the first byte is free: reading ignores FIN. */
  datatype WsFrame = WsFrame(first: Byte, masked: bool, key: seq<Byte>, payload: seq<Byte>)

  function Opcode(first: Byte): Byte {
    first & 0x0F
  }

  predicate WsFrameOk(m: WsFrame) {
    |m.key| == (if m.masked then 4 else 0) && |m.payload| < MAX_LENGTH
  }

  /** A payload as it travels, and back: the same operation. */
  function Cover(payload: seq<Byte>, key: seq<Byte>): (s: seq<Byte>)
    ensures |s| == |payload|
  {
    if |key| == 4 then Mask(payload, key) else payload
  }

  function FrameOf(m: WsFrame): seq<Byte> {
    [m.first, LengthByte(|m.payload|, m.masked)] + Extended(|m.payload|) + m.key + Cover(m.payload, m.key)
  }

  /** What `writeFrame` sends: FIN set, unmasked. */
  function OwnFrame(opcode: Byte, payload: seq<Byte>): WsFrame {
    WsFrame(0x80 | opcode, false, [], payload)
  }

  lemma OwnOpcode(opcode: Byte)
    requires opcode < 16
    ensures Opcode(0x80 | opcode) == opcode
  {}

  // ---------------------------------------------------------------------------
  // Reading
  // ---------------------------------------------------------------------------

  datatype Head = NoHead | Head(opcode: Byte, len: nat, key: seq<Byte>, size: nat)

  function CodeOf(second: Byte): nat {
    (second & 0x7F) as nat
  }

  function ExtendedSize(code: nat): nat {
    if code == 126 then 2 else if code == 127 then 8 else 0
  }

  function KeySize(second: Byte): nat {
    if second & 0x80 != 0 then 4 else 0
  }

  /** The header at the front of the input: opcode, payload length, masking key. */
  function HeadOf(s: seq<Byte>): (h: Head)
    ensures h.Head? ==> 2 <= h.size <= |s| && (|h.key| == 0 || |h.key| == 4)
  {
    if |s| < 2 then NoHead
    else
      var ext := ExtendedSize(CodeOf(s[1]));
      var size := 2 + ext + KeySize(s[1]);
      if |s| < size then NoHead
      else Head(Opcode(s[0]), if ext == 0 then CodeOf(s[1]) else ReadBig(s[2..2 + ext]), s[2 + ext..size], size)
  }

  predicate IsData(opcode: Byte) {
    opcode == BINARY_FRAME || opcode == TEXT_FRAME
  }

  const PIECE: nat := 4096

  /** A message larger than the buffer, read in pieces: `count` bytes are reported, of which
      `filled` found room; `cut` if the stream ended first. Once more has been read than the buffer
      holds, the next piece has no place to go and the copy panics. */
  datatype Spilled = Spilled(count: nat, filled: seq<Byte>, cut: bool, rest: seq<Byte>) | Panicked

  /** The pieces still to come: `total` bytes are done, `remaining` are left. */
  function Spill(s: seq<Byte>, key: seq<Byte>, total: nat, remaining: nat, filled: seq<Byte>, capacity: nat): Spilled
    decreases remaining
  {
    var n := if remaining < PIECE then remaining else PIECE;
    if remaining == 0 then Spilled(total, filled, false, s)
    else if |s| < n then Spilled(total, filled, true, [])
    else if total > capacity then Panicked
    else
      var piece := Cover(s[..n], key);
      Spill(s[n..], key, total + n, remaining - n, filled + Fitting(piece, capacity - total), capacity)
  }

  function Fitting(data: seq<Byte>, room: nat): (front: seq<Byte>)
    ensures |front| <= room && front <= data
  {
    if |data| <= room then data else data[..room]
  }

  /** How one `Read` ends: with a message, at the end of the stream, or with a message larger
      than the caller's buffer. `pongs` are the answers sent on the way. */
  datatype Outcome =
    | Message(data: seq<Byte>, rest: seq<Byte>, pongs: seq<seq<Byte>>)
    | Ended(pongs: seq<seq<Byte>>)
    | TooLarge(spilled: Spilled, pongs: seq<seq<Byte>>)

  function WithPong(payload: seq<Byte>, o: Outcome): Outcome {
    o.(pongs := [payload] + o.pongs)
  }

  /** What one `Read` makes of the input, as a function of the whole input. */
  function ReadMessage(s: seq<Byte>, capacity: nat): Outcome
    decreases |s|
  {
    var h := HeadOf(s);
    if h.NoHead? || h.opcode == CLOSE_FRAME then Ended([])
    else if IsData(h.opcode) && h.len > capacity then
      TooLarge(Spill(s[h.size..], h.key, 0, h.len, [], capacity), [])
    else if |s| < h.size + h.len then Ended([])
    else
      var payload := Cover(s[h.size..h.size + h.len], h.key);
      var rest := s[h.size + h.len..];
      if IsData(h.opcode) then Message(payload, rest, [])
      else if h.opcode == PING_FRAME then WithPong(payload, ReadMessage(rest, capacity))
      else ReadMessage(rest, capacity)
  }

  lemma {:induction false} RestIsShorter(s: seq<Byte>, capacity: nat)
    ensures ReadMessage(s, capacity).Message? ==> |ReadMessage(s, capacity).rest| < |s|
    decreases |s|
  {
    hide Cover;
    var h := HeadOf(s);
    if h.Head? && |s| >= h.size + h.len {
      RestIsShorter(s[h.size + h.len..], capacity);
    }
  }

  /** The messages of successive reads and the pongs sent. */
  datatype Session = Session(messages: seq<seq<Byte>>, pongs: seq<seq<Byte>>)

  /** Reads until the stream ends; `room(k)` is the size of the buffer of the `k`-th read. */
  function ReadAll(s: seq<Byte>, room: nat -> nat, k: nat): Session
    decreases |s|
  {
    var o := ReadMessage(s, room(k));
    RestIsShorter(s, room(k));
    if o.Message? then
      var later := ReadAll(o.rest, room, k + 1);
      Session([o.data] + later.messages, o.pongs + later.pongs)
    else Session([], o.pongs)
  }

  function Pongs(payloads: seq<seq<Byte>>): seq<Byte> {
    if payloads == [] then []
    else Pongs(payloads[..|payloads| - 1]) + FrameOf(OwnFrame(PONG_FRAME, payloads[|payloads| - 1]))
  }

  function AfterPongs(pongs: seq<seq<Byte>>, o: Outcome): Outcome {
    o.(pongs := pongs + o.pongs)
  }

  datatype ReadStatus = GotMessage | EndOfStream | TooMuch | CutShort | Panic

  /** A connection: what is still to be read and what was written. */
  class WsConn {
    var input: seq<Byte>
    var output: seq<Byte>

    constructor (input: seq<Byte>)
      ensures this.input == input && output == []
    {
      this.input, output := input, [];
    }

    /** Reads exactly `n` bytes, or fails and loses what there was. */
    method ReadFull(n: nat) returns (ok: bool, data: array<Byte>)
      modifies this`input
      ensures ok == (n <= |old(input)|) && fresh(data)
      ensures ok ==> data[..] == old(input)[..n] && input == old(input)[n..]
      ensures !ok ==> input == []
    {
      if n <= |input| {
        var taken := input[..n];
        data := new Byte[n](i requires 0 <= i < n => taken[i]);
        input := input[n..];
        return true, data;
      }
      data := new Byte[0];
      input := [];
      return false, data;
    }

    method WriteFrame(opcode: Byte, payload: seq<Byte>)
      modifies this`output
      ensures output == old(output) + FrameOf(OwnFrame(opcode, payload))
    {
      hide ByteOf, BigEndian;
      var frame := [0x80 | opcode];
      var payloadLen := |payload|;
      if payloadLen <= 125 {
        frame := frame + [ByteOf(payloadLen)];
      } else if payloadLen <= 65535 {
        frame := frame + [ByteOf(126)];
        frame := frame + BigEndian(payloadLen, 2);
      } else {
        frame := frame + [ByteOf(127)];
        frame := frame + BigEndian(payloadLen, 8);
      }
      frame := frame + payload;
      output := output + frame;
    }

    /** Reads the header at the front of the input. */
    method ReadHead() returns (ok: bool, opcode: Byte, len: nat, key: seq<Byte>)
      modifies this`input
      ensures ok == HeadOf(old(input)).Head?
      ensures ok ==> var h := HeadOf(old(input));
                     opcode == h.opcode && len == h.len && key == h.key && input == old(input)[h.size..]
    {
      hide ReadBig, Opcode, CodeOf;
      ghost var s := input;
      opcode, len, key := 0, 0, [];
      var header;
      ok, header := ReadFull(2);
      if !ok {
        return;
      }
      assert header[0] == s[0] && header[1] == s[1];
      opcode := Opcode(header[0]);
      var masked := header[1] & 0x80 != 0;
      len := CodeOf(header[1]);
      var extension := if len == 126 then 2 else if len == 127 then 8 else 0;
      if extension > 0 {
        var ext;
        ok, ext := ReadFull(extension);
        if !ok {
          return;
        }
        assert ext[..] == s[2..2 + extension];
        len := ReadBig(ext[..]);
      }
      assert input == s[2 + extension..];
      if masked {
        var maskKey;
        ok, maskKey := ReadFull(4);
        if !ok {
          return;
        }
        key := maskKey[..];
      }
    }

    /** Reads and unmasks a payload. */
    method ReadPayload(len: nat, key: seq<Byte>) returns (ok: bool, data: seq<Byte>)
      requires |key| == 0 || |key| == 4
      modifies this`input
      ensures ok == (len <= |old(input)|)
      ensures ok ==> data == Cover(old(input)[..len], key) && input == old(input)[len..]
    {
      hide XorByte;
      var buf;
      ok, buf := ReadFull(len);
      if ok && |key| == 4 {
        MaskBytes(buf, key);
      }
      data := buf[..];
    }

    /** Reads a message larger than the buffer, piece by piece, the key starting over each time. */
    method ReadPieces(p: array<Byte>, len: nat, key: seq<Byte>) returns (total: nat, status: ReadStatus)
      requires |key| == 0 || |key| == 4
      modifies this`input, p
      ensures var o := Spill(old(input), key, 0, len, [], p.Length);
              && (status == Panic <==> o.Panicked?)
              && (o.Spilled? ==>
                    && status == (if o.cut then CutShort else TooMuch)
                    && total == o.count && input == o.rest
                    && |o.filled| <= p.Length && p[..|o.filled|] == o.filled && p[|o.filled|..] == old(p[|o.filled|..]))
    {
      hide Cover, Spill;
      var remaining: nat := len;
      total := 0;
      ghost var filled: seq<Byte> := [];
      ghost var goal := Spill(input, key, 0, len, [], p.Length);
      while remaining > 0
        invariant goal == Spill(input, key, total, remaining, filled, p.Length)
        invariant |filled| <= p.Length && |filled| == if total <= p.Length then total else p.Length
        invariant p[..|filled|] == filled && p[|filled|..] == old(p[|filled|..])
        decreases remaining
      {
        SpillStep(input, key, total, remaining, filled, p.Length);
        var n := if remaining < PIECE then remaining else PIECE;
        var ok, piece := ReadPayload(n, key);
        if !ok {
          input := [];
          return total, CutShort;
        }
        if total > p.Length {
          return total, Panic;
        }
        ghost var before := p[..];
        CopyAt(p, total, piece);
        FilledMore(before, p[..], old(p[..]), filled, Fitting(piece, p.Length - total));
        filled := filled + Fitting(piece, p.Length - total);
        total := total + n;
        remaining := remaining - n;
      }
      SpillStep(input, key, total, remaining, filled, p.Length);
      status := TooMuch;
    }

    /** Reads one message into `p`, answering pings and skipping everything else. */
    method Read(p: array<Byte>) returns (n: nat, status: ReadStatus)
      modifies this, p
      ensures var o := ReadMessage(old(input), p.Length);
              && output == old(output) + Pongs(o.pongs)
              && (status == GotMessage <==> o.Message?) && (status == EndOfStream <==> o.Ended?)
              && (status == Panic <==> o.TooLarge? && o.spilled.Panicked?)
              && (o.Message? ==>
                    n == |o.data| <= p.Length && p[..n] == o.data && p[n..] == old(p[n..]) && input == o.rest)
              && (o.Ended? ==> n == 0 && p[..] == old(p[..]))
              && (o.TooLarge? && o.spilled.Spilled? ==>
                    var w := o.spilled;
                    && status == (if w.cut then CutShort else TooMuch) && n == w.count && input == w.rest
                    && |w.filled| <= p.Length && p[..|w.filled|] == w.filled && p[|w.filled|..] == old(p[|w.filled|..]))
    {
      hide HeadOf, Cover, FrameOf, OwnFrame, ReadMessage, Pongs, AfterPongs, WithPong, Spill;
      ghost var goal := ReadMessage(input, p.Length);
      ghost var pongs: seq<seq<Byte>> := [];
      ghost var start := output;
      AfterNone(goal);
      while true
        invariant goal == AfterPongs(pongs, ReadMessage(input, p.Length))
        invariant output == start + Pongs(pongs)
        invariant p[..] == old(p[..])
        decreases |input|
      {
        ghost var s := input;
        Unfold(s, p.Length);
        AfterPongsIs(pongs, ReadMessage(s, p.Length));
        var ok, opcode, len, key := ReadHead();
        if !ok || opcode == CLOSE_FRAME {
          return 0, EndOfStream;
        }
        ghost var h := HeadOf(s);
        if IsData(opcode) && len > p.Length {
          n, status := ReadPieces(p, len, key);
          return;
        }
        var data;
        ok, data := ReadPayload(len, key);
        if !ok {
          return 0, EndOfStream;
        }
        Slices(s, h.size, h.len);
        if IsData(opcode) {
          n := |data|;
          CopyData(p, data);
          return n, GotMessage;
        }
        if opcode == PING_FRAME {
          WriteFrame(PONG_FRAME, data);
          PongAppended(pongs, data, ReadMessage(input, p.Length));
          pongs := pongs + [data];
        }
      }
    }
  }

  /** Copying a piece behind what is filled fills that much more. */
  lemma FilledMore(before: seq<Byte>, after: seq<Byte>, start: seq<Byte>, filled: seq<Byte>, front: seq<Byte>)
    requires |before| == |start| && |filled| + |front| <= |before|
    requires before[..|filled|] == filled && before[|filled|..] == start[|filled|..]
    requires after == before[..|filled|] + front + before[|filled| + |front|..]
    ensures |after| == |start| && after[..|filled + front|] == filled + front
    ensures after[|filled + front|..] == start[|filled + front|..]
  {
    var n := |filled + front|;
    forall i | 0 <= i < |start| - n ensures after[n..][i] == start[n..][i] {
      assert before[|filled|..][|front| + i] == start[|filled|..][|front| + i];
    }
  }

  lemma SpillStep(s: seq<Byte>, key: seq<Byte>, total: nat, remaining: nat, filled: seq<Byte>, capacity: nat)
    ensures var n := if remaining < PIECE then remaining else PIECE;
            Spill(s, key, total, remaining, filled, capacity) ==
              if remaining == 0 then Spilled(total, filled, false, s)
              else if |s| < n then Spilled(total, filled, true, [])
              else if total > capacity then Panicked
              else Spill(s[n..], key, total + n, remaining - n,
                         filled + Fitting(Cover(s[..n], key), capacity - total), capacity)
  {
    hide Cover;
  }

  method CopyData(p: array<Byte>, data: seq<Byte>)
    requires |data| <= p.Length
    modifies p
    ensures p[..|data|] == data && p[|data|..] == old(p[|data|..])
  {
    forall i | 0 <= i < |data| {
      p[i] := data[i];
    }
  }

  /** Copies as much as fits from an offset on. */
  method CopyAt(p: array<Byte>, at: nat, data: seq<Byte>)
    requires at <= p.Length
    modifies p
    ensures var front := Fitting(data, p.Length - at);
            p[..] == old(p[..at]) + front + old(p[at + |front|..])
  {
    var n := |Fitting(data, p.Length - at)|;
    forall i | 0 <= i < n {
      p[at + i] := data[i];
    }
  }

  lemma Unfold(s: seq<Byte>, capacity: nat)
    ensures ReadMessage(s, capacity) ==
              var h := HeadOf(s);
              if h.NoHead? || h.opcode == CLOSE_FRAME then Ended([])
              else if IsData(h.opcode) && h.len > capacity then
                TooLarge(Spill(s[h.size..], h.key, 0, h.len, [], capacity), [])
              else if |s| < h.size + h.len then Ended([])
              else
                var payload := Cover(s[h.size..h.size + h.len], h.key);
                var rest := s[h.size + h.len..];
                if IsData(h.opcode) then Message(payload, rest, [])
                else if h.opcode == PING_FRAME then WithPong(payload, ReadMessage(rest, capacity))
                else ReadMessage(rest, capacity)
  {
    hide HeadOf, Cover;
  }

  lemma AfterNone(o: Outcome)
    ensures AfterPongs([], o) == o && Pongs([]) == []
  {
    assert [] + o.pongs == o.pongs;
  }

  lemma AfterPongsIs(pongs: seq<seq<Byte>>, o: Outcome)
    ensures AfterPongs(pongs, o) == o.(pongs := pongs + o.pongs)
    ensures o.pongs == [] ==> AfterPongs(pongs, o) == o.(pongs := pongs)
    ensures o.TooLarge? ==> AfterPongs(pongs, o).TooLarge? && AfterPongs(pongs, o).spilled == o.spilled
  {
    assert o.pongs == [] ==> pongs + o.pongs == pongs;
  }

  lemma PongAppended(pongs: seq<seq<Byte>>, data: seq<Byte>, o: Outcome)
    ensures AfterPongs(pongs, WithPong(data, o)) == AfterPongs(pongs + [data], o)
    ensures Pongs(pongs + [data]) == Pongs(pongs) + FrameOf(OwnFrame(PONG_FRAME, data))
  {
    assert pongs + ([data] + o.pongs) == pongs + [data] + o.pongs;
    assert (pongs + [data])[..|pongs|] == pongs;
  }

  // ---------------------------------------------------------------------------
  // What reading makes of what was written
  // ---------------------------------------------------------------------------

  lemma LengthFits(n: nat)
    requires n < MAX_LENGTH
    ensures ReadBig(Extended(n)) == if n <= 125 then 0 else n
  {
    PowTwo();
    PowEight();
    if n > 65535 {
      BigRoundTrip(n, 8);
    } else if n > 125 {
      BigRoundTrip(n, 2);
    }
  }

  /** The header of a frame reads back as what the frame was made from. */
  lemma HeadOfFrame(m: WsFrame, t: seq<Byte>)
    requires WsFrameOk(m)
    ensures var f := FrameOf(m);
            && HeadOf(f + t) == Head(Opcode(m.first), |m.payload|, m.key, |f| - |m.payload|)
            && (f + t)[|f| - |m.payload|..|f|] == Cover(m.payload, m.key)
            && (f + t)[|f|..] == t
  {
    hide LengthByte, Extended, ReadBig, Cover, Opcode, HeadOf, CodeOf, KeySize;
    var n := |m.payload|;
    LengthByteReads(n, m.masked);
    LengthFits(n);
    ExtendedFits(n);
    var second, e, c := LengthByte(n, m.masked), Extended(n), Cover(m.payload, m.key);
    Parts(m.first, second, e, m.key, c, t);
    HeadOfParts([m.first, second] + e + m.key + c + t, e, m.key);
  }

  lemma ExtendedFits(n: nat)
    ensures |Extended(n)| == ExtendedSize(LengthCode(n))
    ensures |Extended(n)| == 0 ==> LengthCode(n) == n
  {}

  lemma HeadOfParts(s: seq<Byte>, e: seq<Byte>, k: seq<Byte>)
    requires |s| >= 2 + |e| + |k| && (|k| == 0 || |k| == 4)
    requires s[2..2 + |e|] == e && s[2 + |e|..2 + |e| + |k|] == k
    ensures ExtendedSize(CodeOf(s[1])) == |e| && KeySize(s[1]) == |k| ==>
              HeadOf(s) == Head(Opcode(s[0]), if |e| == 0 then CodeOf(s[1]) else ReadBig(e), k, 2 + |e| + |k|)
  {
    hide ReadBig, Opcode, CodeOf, KeySize;
  }

  lemma Parts(a: Byte, b: Byte, e: seq<Byte>, k: seq<Byte>, c: seq<Byte>, t: seq<Byte>)
    ensures var s := [a, b] + e + k + c + t;
            && |[a, b] + e + k + c| == 2 + |e| + |k| + |c|
            && s[0] == a && s[1] == b && s[2..2 + |e|] == e
            && s[2 + |e|..2 + |e| + |k|] == k
            && s[2 + |e| + |k|..2 + |e| + |k| + |c|] == c
            && s[2 + |e| + |k| + |c|..] == t
  {}

  lemma CoverTwice(payload: seq<Byte>, key: seq<Byte>)
    ensures Cover(Cover(payload, key), key) == payload
  {
    hide XorByte;
    if |key| == 4 {
      MaskTwice(payload, key);
    }
  }

  /** What becomes of a complete message larger than the buffer: if the buffer ends before the last
      piece begins the copy panics, otherwise the buffer is filled and the whole length reported. */
  function Oversize(payload: seq<Byte>, capacity: nat, rest: seq<Byte>): Spilled
    requires |payload| > capacity
  {
    if (|payload| - 1) / PIECE * PIECE > capacity then Panicked
    else Spilled(|payload|, payload[..capacity], false, rest)
  }

  lemma CoverSlice(data: seq<Byte>, key: seq<Byte>, i: nat, j: nat)
    requires i <= j <= |data| && i % 4 == 0
    ensures Cover(data[i..j], key) == Cover(data, key)[i..j]
  {
    hide XorByte;
    if |key| == 4 {
      forall k | 0 <= k < j - i ensures Mask(data[i..j], key)[k] == Mask(data, key)[i..j][k] {
        SameKeyByte(i + k, i);
      }
    }
  }

  lemma LastPiece(total: nat, len: nat)
    requires total < len && total % PIECE == 0
    ensures total <= (len - 1) / PIECE * PIECE < len
    ensures len - total <= PIECE <==> (len - 1) / PIECE * PIECE == total
  {
    assert total == total / PIECE * PIECE;
  }

  lemma {:induction false} SpillIs(s: seq<Byte>, key: seq<Byte>, len: nat, total: nat, filled: seq<Byte>, capacity: nat)
    requires capacity < len <= |s| && total <= len && (total == len || total % PIECE == 0)
    requires filled == Fitting(Cover(s[..len], key)[..total], capacity)
    requires total == len ==> (len - 1) / PIECE * PIECE <= capacity
    ensures Spill(s[total..], key, total, len - total, filled, capacity) ==
              Oversize(Cover(s[..len], key), capacity, s[len..])
    decreases len - total
  {
    hide Cover, Spill, Fitting, Oversize;
    var remaining := len - total;
    SpillStep(s[total..], key, total, remaining, filled, capacity);
    if remaining > 0 {
      if total <= capacity {
        var n := if remaining < PIECE then remaining else PIECE;
        Slices(s, total, n);
        PieceIs(s, key, len, total, n, filled, capacity);
        SpillIs(s, key, len, total + n, filled + Fitting(Cover(s[total..][..n], key), capacity - total), capacity);
      } else {
        LastPiece(total, len);
        NoPlaceLeft(Cover(s[..len], key), capacity, s[len..], total);
      }
    } else {
      assert s[total..] == s[len..];
      assert Cover(s[..len], key)[..total] == Cover(s[..len], key);
      AllPlaced(Cover(s[..len], key), capacity, s[len..]);
    }
  }

  lemma NoPlaceLeft(payload: seq<Byte>, capacity: nat, rest: seq<Byte>, total: nat)
    requires capacity < total <= (|payload| - 1) / PIECE * PIECE && |payload| > capacity
    ensures Oversize(payload, capacity, rest) == Panicked
  {}

  lemma AllPlaced(payload: seq<Byte>, capacity: nat, rest: seq<Byte>)
    requires capacity < |payload| && (|payload| - 1) / PIECE * PIECE <= capacity
    ensures Oversize(payload, capacity, rest) == Spilled(|payload|, Fitting(payload, capacity), false, rest)
  {}

  lemma PieceIs(s: seq<Byte>, key: seq<Byte>, len: nat, total: nat, n: nat, filled: seq<Byte>, capacity: nat)
    requires total + n <= len <= |s| && total % PIECE == 0 && total <= capacity
    requires filled == Fitting(Cover(s[..len], key)[..total], capacity)
    ensures filled + Fitting(Cover(s[total..][..n], key), capacity - total) ==
              Fitting(Cover(s[..len], key)[..total + n], capacity)
  {
    hide Cover, Fitting;
    var whole := Cover(s[..len], key);
    Slices(s, total, n);
    PrefixSlice(s, len, total, total + n);
    CoverSlice(s[..len], key, total, total + n);
    FittingAppend(whole[..total], whole[total..total + n], capacity);
    PrefixJoin(whole, total, total + n);
    WholeFits(whole[..total], capacity);
  }

  lemma WholeFits(a: seq<Byte>, capacity: nat)
    requires |a| <= capacity
    ensures Fitting(a, capacity) == a
  {}

  lemma FittingAppend(a: seq<Byte>, b: seq<Byte>, capacity: nat)
    requires |a| <= capacity
    ensures a + Fitting(b, capacity - |a|) == Fitting(a + b, capacity)
  {}

  lemma PrefixJoin(s: seq<Byte>, i: nat, j: nat)
    requires i <= j <= |s|
    ensures s[..i] + s[i..j] == s[..j]
  {}

  /** Reading a frame: data (1 and 2) that fits is delivered, a ping (9) is answered, a close (8)
      ends the stream, anything else leaves no trace. */
  lemma ReadFrame(m: WsFrame, t: seq<Byte>, capacity: nat)
    requires WsFrameOk(m)
    ensures var opcode, later := m.first & 0x0F, ReadMessage(t, capacity);
            ReadMessage(FrameOf(m) + t, capacity) ==
              if opcode == 8 then Ended([])
              else if opcode == 1 || opcode == 2 then
                if |m.payload| > capacity then TooLarge(Oversize(m.payload, capacity, t), [])
                else Message(m.payload, t, [])
              else if opcode == 9 then later.(pongs := [m.payload] + later.pongs)
              else later
  {
    ReadFrameIs(m, t, capacity);
    hide FrameOf, ReadMessage, Oversize, WsFrameOk;
  }

  lemma ReadFrameIs(m: WsFrame, t: seq<Byte>, capacity: nat)
    requires WsFrameOk(m)
    ensures var opcode := Opcode(m.first);
            ReadMessage(FrameOf(m) + t, capacity) ==
              if opcode == CLOSE_FRAME then Ended([])
              else if IsData(opcode) then
                if |m.payload| > capacity then TooLarge(Oversize(m.payload, capacity, t), [])
                else Message(m.payload, t, [])
              else if opcode == PING_FRAME then WithPong(m.payload, ReadMessage(t, capacity))
              else ReadMessage(t, capacity)
  {
    hide FrameOf, HeadOf, Cover, Opcode, Spill, ReadMessage, Oversize;
    HeadOfFrame(m, t);
    CoverTwice(m.payload, m.key);
    Unfold(FrameOf(m) + t, capacity);
    if |m.payload| > capacity {
      OversizeSpills(m, t, capacity);
    }
  }

  lemma OversizeSpills(m: WsFrame, t: seq<Byte>, capacity: nat)
    requires WsFrameOk(m) && |m.payload| > capacity
    ensures var f := FrameOf(m);
            |m.payload| <= |f| &&
            Spill((f + t)[|f| - |m.payload|..], m.key, 0, |m.payload|, [], capacity) == Oversize(m.payload, capacity, t)
  {
    var f, c := FrameOf(m), Cover(m.payload, m.key);
    hide LengthByte, Extended, Cover, Spill, Oversize;
    CoverTwice(m.payload, m.key);
    var body := (f + t)[|f| - |m.payload|..];
    assert body == c + t;
    hide FrameOf;
    assert body[..|m.payload|] == c && body[|m.payload|..] == t && body[0..] == body;
    WholeFits([], capacity);
    assert c[..0] == [];
    SpillIs(body, m.key, |m.payload|, 0, [], capacity);
  }

  lemma ReadAllFrame(m: WsFrame, t: seq<Byte>, room: nat -> nat, k: nat)
    requires Readable(m, room(k))
    ensures ReadAll(FrameOf(m) + t, room, k) ==
              if IsData(Opcode(m.first)) then
                var later := ReadAll(t, room, k + 1);
                Session([m.payload] + later.messages, later.pongs)
              else
                var later := ReadAll(t, room, k);
                if Opcode(m.first) == PING_FRAME then Session(later.messages, [m.payload] + later.pongs) else later
  {
    hide FrameOf, ReadMessage, Opcode;
    ReadFrameIs(m, t, room(k));
    var o := ReadMessage(t, room(k));
    if IsData(Opcode(m.first)) {
      var later := ReadAll(t, room, k + 1);
      assert [] + later.pongs == later.pongs;
    } else if o.Message? {
      var later := ReadAll(o.rest, room, k + 1);
      assert [m.payload] + o.pongs + later.pongs == [m.payload] + (o.pongs + later.pongs);
    }
  }

  /** Frames one after the other. */
  function Stream(frames: seq<WsFrame>): seq<Byte> {
    if frames == [] then [] else FrameOf(frames[0]) + Stream(frames[1..])
  }

  function PayloadsOf(frames: seq<WsFrame>, wanted: Byte -> bool): seq<seq<Byte>> {
    if frames == [] then []
    else (if wanted(Opcode(frames[0].first)) then [frames[0].payload] else []) + PayloadsOf(frames[1..], wanted)
  }

  function DataOf(frames: seq<WsFrame>): seq<seq<Byte>> {
    PayloadsOf(frames, (opcode: Byte) => IsData(opcode))
  }

  function PingsOf(frames: seq<WsFrame>): seq<seq<Byte>> {
    PayloadsOf(frames, (opcode: Byte) => opcode == PING_FRAME)
  }

  predicate Readable(m: WsFrame, capacity: nat) {
    WsFrameOk(m) && Opcode(m.first) != CLOSE_FRAME && (IsData(Opcode(m.first)) ==> |m.payload| <= capacity)
  }

  /** No read has less room than `least`. */
  ghost predicate RoomFor(room: nat -> nat, least: nat) {
    forall k: nat :: room(k) >= least
  }

  /** Over any mix of frames, masked or not, successive reads deliver exactly the data payloads
      in order and answer exactly the pings, with their own payloads. */
  lemma {:induction false} StreamReads(frames: seq<WsFrame>, least: nat, room: nat -> nat, k: nat)
    requires RoomFor(room, least)
    requires forall i | 0 <= i < |frames| :: Readable(frames[i], least)
    ensures ReadAll(Stream(frames), room, k) == Session(DataOf(frames), PingsOf(frames))
    decreases |frames|
  {
    hide FrameOf, ReadMessage, Opcode, WsFrameOk;
    if frames == [] {
      NothingToRead(room, k);
    } else {
      assert Readable(frames[0], least) && room(k) >= least;
      StreamReads(frames[1..], least, room, k);
      StreamReads(frames[1..], least, room, k + 1);
      ReadAllFrame(frames[0], Stream(frames[1..]), room, k);
      hide ReadAll, RoomFor;
      assert [] + DataOf(frames[1..]) == DataOf(frames[1..]);
      assert [] + PingsOf(frames[1..]) == PingsOf(frames[1..]);
    }
  }

  lemma NothingToRead(room: nat -> nat, k: nat)
    ensures ReadAll([], room, k) == Session([], [])
  {
    assert ReadMessage([], room(k)) == Ended([]);
  }

  function Concat(messages: seq<seq<Byte>>): seq<Byte> {
    if messages == [] then [] else messages[0] + Concat(messages[1..])
  }

  /** The layer carries protocol frames. Every read of the decoder has room for a whole read
      buffer (`Decoder.Grow`), so messages up to that size are delivered whole; and however the
      bytes are cut into them, with whatever control frames between, the packets of what is
      delivered are the packets that were sent. */
  lemma FramesOverWebSocket(frames: seq<WsFrame>, room: nat -> nat, items: seq<Item>)
    requires RoomFor(room, Decoding.READ_BUFFER_SIZE)
    requires forall i | 0 <= i < |frames| :: Readable(frames[i], Decoding.READ_BUFFER_SIZE)
    requires forall i | 0 <= i < |items| :: Quiet(items[i].noise) && WellFormed(items[i].packet)
    requires Concat(DataOf(frames)) == Transmit(items)
    ensures var messages := ReadAll(Stream(frames), room, 0).messages;
            messages == DataOf(frames) && Packets(Concat(messages)) == Sent(items)
  {
    hide Quiet, WellFormed, Scan, FrameOf, Readable, RoomFor;
    StreamReads(frames, Decoding.READ_BUFFER_SIZE, room, 0);
    TransmitDecodes(items, []);
    assert Transmit(items) + [] == Transmit(items);
    NoBytes();
    assert Sent(items) + [] == Sent(items);
  }

  /** A reader that hands out one message at a time. */
  function Deliveries(messages: seq<seq<Byte>>): seq<Reading.ReadEvent> {
    if messages == [] then [] else [Reading.ReadEvent(messages[0], Reading.Fine)] + Deliveries(messages[1..])
  }

  lemma {:induction false} DeliveriesUnread(messages: seq<seq<Byte>>)
    ensures Reading.Unread(Deliveries(messages)) == Concat(messages) && Reading.NoEof(Deliveries(messages))
    decreases |messages|
  {
    if messages != [] {
      DeliveriesUnread(messages[1..]);
      var script := Deliveries(messages);
      assert script[1..] == Deliveries(messages[1..]);
      forall e | e in script ensures e.status != Reading.Eof {
        assert e == script[0] || e in script[1..];
      }
    }
  }

  /** Every read gets one read buffer. */
  function OneBuffer(): nat -> nat {
    (k: nat) => Decoding.READ_BUFFER_SIZE
  }

  lemma {:induction false} PongsJoin(a: seq<seq<Byte>>, b: seq<seq<Byte>>)
    ensures Pongs(a + b) == Pongs(a) + Pongs(b)
    decreases |b|
  {
    hide FrameOf, OwnFrame;
    if b == [] {
      assert a + b == a;
    } else {
      assert (a + b)[..|a + b| - 1] == a + b[..|b| - 1];
      PongsJoin(a, b[..|b| - 1]);
    }
  }

  lemma ReadAllStep(s: seq<Byte>, room: nat -> nat, k: nat)
    ensures var o := ReadMessage(s, room(k));
            ReadAll(s, room, k) ==
              if o.Message? then
                var later := ReadAll(o.rest, room, k + 1);
                Session([o.data] + later.messages, o.pongs + later.pongs)
              else Session([], o.pongs)
  {
    hide ReadMessage;
  }

  lemma SessionJoin(messages: seq<seq<Byte>>, pongs: seq<seq<Byte>>, o: Outcome, later: Session)
    requires o.Message?
    ensures Session(messages + ([o.data] + later.messages), pongs + (o.pongs + later.pongs)) ==
              Session(messages + [o.data] + later.messages, pongs + o.pongs + later.pongs)
  {
    assert messages + ([o.data] + later.messages) == messages + [o.data] + later.messages;
    assert pongs + (o.pongs + later.pongs) == pongs + o.pongs + later.pongs;
  }

  /** Reads a connection to its end, one buffer at a time. */
  method ReadMessages(w: WsConn) returns (messages: seq<seq<Byte>>)
    modifies w
    ensures var all := ReadAll(old(w.input), OneBuffer(), 0);
            messages == all.messages && w.output == old(w.output) + Pongs(all.pongs)
  {
    hide ReadMessage, ReadAll, Pongs;
    messages := [];
    var k := 0;
    ghost var all := ReadAll(w.input, OneBuffer(), 0);
    ghost var pongs: seq<seq<Byte>> := [];
    AfterNone(Ended([]));
    while true
      invariant var later := ReadAll(w.input, OneBuffer(), k);
                all == Session(messages + later.messages, pongs + later.pongs)
      invariant w.output == old(w.output) + Pongs(pongs)
      decreases |w.input|
    {
      var buf := new Byte[Decoding.READ_BUFFER_SIZE](i => 0);
      ghost var o := ReadMessage(w.input, Decoding.READ_BUFFER_SIZE);
      ReadAllStep(w.input, OneBuffer(), k);
      RestIsShorter(w.input, Decoding.READ_BUFFER_SIZE);
      PongsJoin(pongs, o.pongs);
      if o.Message? {
        SessionJoin(messages, pongs, o, ReadAll(o.rest, OneBuffer(), k + 1));
      }
      var n, status := w.Read(buf);
      pongs := pongs + o.pongs;
      if status != GotMessage {
        assert messages + [] == messages;
        return;
      }
      messages := messages + [buf[..n]];
      k := k + 1;
    }
  }

  /** The streaming decoder over a connection returns the packets of `FramesOverWebSocket`. The
      decoder's own reads have at least as much room, which changes nothing (`StreamReads`). */
  method DecodeConnection(w: WsConn, table: array<bv16>) returns (packets: seq<PacketData>)
    requires Crc.IsTable(table[..])
    modifies w
    ensures packets == Packets(Concat(ReadAll(old(w.input), OneBuffer(), 0).messages))
  {
    hide Packets, Concat, ReadAll, Pongs;
    var messages := ReadMessages(w);
    DeliveriesUnread(messages);
    var reader := new Reading.Reader(Deliveries(messages));
    var decoder := new Decoding.Decoder(reader, table);
    assert decoder.Unparsed() + Reading.Unread(Deliveries(messages)) == Concat(messages);
    packets := Decoding.ReadLoop(decoder);
  }

  /** A packet written as one message reaches a new decoder, whose first read has room for exactly
      one read buffer, if and only if its frame is no larger than that. Otherwise the read reports
      more bytes than there was room for, or panics. */
  lemma FirstPacketFitsExactly(p: PacketData, t: seq<Byte>)
    requires |EncodeFrame(p)| < MAX_LENGTH
    ensures var o := ReadMessage(FrameOf(OwnFrame(BINARY_FRAME, EncodeFrame(p))) + t, Decoding.READ_BUFFER_SIZE);
            if |EncodeFrame(p)| <= 4096 then o == Message(EncodeFrame(p), t, [])
            else o.TooLarge? && (o.spilled.Panicked? || o.spilled.count > 4096)
  {
    hide EncodeFrame, FrameOf, ReadMessage, OwnFrame;
    WrittenReadsBack(EncodeFrame(p), t, Decoding.READ_BUFFER_SIZE);
  }

  /** The payloads of data and continuation frames: what the peer sent as messages. */
  function MessagesOf(frames: seq<WsFrame>): seq<seq<Byte>> {
    PayloadsOf(frames, (opcode: Byte) => IsData(opcode) || opcode == CONTINUATION_FRAME)
  }

  predicate LosesNothing(frames: seq<WsFrame>) {
    forall i | 0 <= i < |frames| && Opcode(frames[i].first) == CONTINUATION_FRAME :: frames[i].payload == []
  }

  lemma {:induction false} ContinuationsLength(frames: seq<WsFrame>)
    ensures |Concat(MessagesOf(frames))| >= |Concat(DataOf(frames))|
    ensures LosesNothing(frames) ==> Concat(MessagesOf(frames)) == Concat(DataOf(frames))
    ensures !LosesNothing(frames) ==> |Concat(MessagesOf(frames))| > |Concat(DataOf(frames))|
    decreases |frames|
  {
    hide Opcode;
    if frames != [] {
      var m, later := frames[0], frames[1..];
      ContinuationsLength(later);
      FirstPayload(m, later, (opcode: Byte) => IsData(opcode));
      FirstPayload(m, later, (opcode: Byte) => IsData(opcode) || opcode == CONTINUATION_FRAME);
      assert frames == [m] + later;
      hide PayloadsOf;
      assert LosesNothing(frames) <==>
             (Opcode(m.first) == CONTINUATION_FRAME ==> m.payload == []) && LosesNothing(later) by {
        LosesNothingStep(m, later);
      }
    }
  }

  lemma LosesNothingStep(m: WsFrame, later: seq<WsFrame>)
    ensures LosesNothing([m] + later) <==>
              (Opcode(m.first) == CONTINUATION_FRAME ==> m.payload == []) && LosesNothing(later)
  {
    hide Opcode;
    var frames := [m] + later;
    assert frames[0] == m;
    assert forall i | 0 <= i < |later| :: later[i] == frames[i + 1];
    if LosesNothing(frames) {
      forall i | 0 <= i < |later| && Opcode(later[i].first) == CONTINUATION_FRAME ensures later[i].payload == [] {
        assert frames[i + 1] == later[i];
      }
    }
  }

  lemma FirstPayload(m: WsFrame, later: seq<WsFrame>, wanted: Byte -> bool)
    ensures Concat(PayloadsOf([m] + later, wanted)) ==
              (if wanted(Opcode(m.first)) then m.payload else []) + Concat(PayloadsOf(later, wanted))
  {
    hide Opcode;
    assert ([m] + later)[1..] == later;
    if wanted(Opcode(m.first)) {
      assert ([m.payload] + PayloadsOf(later, wanted))[1..] == PayloadsOf(later, wanted);
    } else {
      assert [] + PayloadsOf(later, wanted) == PayloadsOf(later, wanted);
    }
  }

  /** Fragmented messages are not reassembled: continuation frames carry an opcode the reader
      skips. Nothing of what was sent is lost if and only if every continuation is empty. */
  lemma ContinuationsLostExactly(frames: seq<WsFrame>, least: nat, room: nat -> nat)
    requires RoomFor(room, least) && forall i | 0 <= i < |frames| :: Readable(frames[i], least)
    ensures Concat(ReadAll(Stream(frames), room, 0).messages) == Concat(MessagesOf(frames)) <==> LosesNothing(frames)
  {
    hide Opcode, FrameOf, ReadAll, Readable, DataOf, PingsOf, Stream, RoomFor, MessagesOf, LosesNothing;
    StreamReads(frames, least, room, 0);
    ContinuationsLength(frames);
  }

  /** The two-frame case: the first fragment arrives as if it were the message. */
  lemma ContinuationDropped(head: WsFrame, tail: WsFrame, least: nat, room: nat -> nat)
    requires RoomFor(room, least) && Readable(head, least) && Readable(tail, least)
    requires IsData(Opcode(head.first)) && Opcode(tail.first) == CONTINUATION_FRAME
    ensures ReadAll(Stream([head, tail]), room, 0).messages == [head.payload]
  {
    hide Opcode, FrameOf, ReadAll, Readable, DataOf, PingsOf, Stream, RoomFor;
    StreamReads([head, tail], least, room, 0);
    TwoFrames(head, tail);
  }

  lemma TwoFrames(head: WsFrame, tail: WsFrame)
    requires IsData(Opcode(head.first)) && !IsData(Opcode(tail.first))
    ensures DataOf([head, tail]) == [head.payload]
  {
    hide Opcode;
    var frames := [head, tail];
    assert frames[1..] == [tail];
    assert [tail][1..] == [];
    assert DataOf([]) == [];
    assert DataOf([tail]) == DataOf([]);
  }

  /** What `Write` sends, the other end reads back as one message exactly if its buffer is no
      smaller. */
  lemma WrittenReadsBack(payload: seq<Byte>, t: seq<Byte>, capacity: nat)
    requires |payload| < MAX_LENGTH
    ensures ReadMessage(FrameOf(OwnFrame(BINARY_FRAME, payload)) + t, capacity) ==
              if |payload| <= capacity then Message(payload, t, []) else TooLarge(Oversize(payload, capacity, t), [])
  {
    OwnOpcode(BINARY_FRAME);
    ReadFrameIs(OwnFrame(BINARY_FRAME, payload), t, capacity);
    hide FrameOf, ReadMessage, Opcode;
  }
}
