/** What encoding followed by parsing gives back, and what corruption costs. */
module RoundTrip {
  import opened Bytes
  import opened Flags
  import opened Packet
  import opened Crc
  import opened CrcBoundary
  import opened CrcErrors
  import opened CrcPeriod
  import opened Encoder
  import opened StreamParser

  /** A packet that survives the wire: accepted flags, values that fit their fields and, with
      a Length field, a payload that fits sixteen bits. */
  predicate WellFormed(f: PacketData) {
    Consistent(f) && (HasBodyLen(f.flags) ==> PayloadLen(f) <= 65535)
  }

  function HeaderBytes(f: PacketData): seq<Byte> {
    [MAGIC, f.flags] + if HasBodyLen(f.flags) then LengthField(PayloadLen(f)) else []
  }

  lemma HeaderBytesLength(f: PacketData)
    ensures |HeaderBytes(f)| == HeaderLen(f.flags)
    ensures |Core(f)| == CoreLen(f.flags, |f.body|)
    ensures |EncodeFrame(f)| == FrameLen(f.flags, |f.body|)
  {
    CoreLength(f);
  }

  /** The Length says how much follows, and without one there is no body. */
  predicate Measured(f: PacketData) {
    if HasBodyLen(f.flags) then PayloadLen(f) <= 65535 else f.body == []
  }

  lemma WellFormedMeasured(f: PacketData)
    requires WellFormed(f)
    ensures Measured(f)
  {
    hide OpcodeLen, SeqLen, CrcLen, FitsField;
  }

  /** Any string that starts with a measured frame's header is scanned as one complete frame of
      the announced size. */
  lemma ScanHeader(f: PacketData, s: seq<Byte>)
    requires Measured(f) && HeaderBytes(f) <= s
    ensures Scan(s) == Complete(s, f.flags, |f.body|)
  {
    hide Complete, OpcodeLen, SeqLen, CrcLen, LengthField, ReadLength;
    HeaderBytesLength(f);
    HeaderStarts(f, s);
    hide HasBodyLen, HeaderBytes;
    if HasBodyLen(f.flags) {
      LengthTruncates(PayloadLen(f));
    }
  }

  lemma HeaderStarts(f: PacketData, s: seq<Byte>)
    requires HeaderBytes(f) <= s
    ensures |s| >= 2 && s[0] == MAGIC && s[1] == f.flags
    ensures HasBodyLen(f.flags) ==> |s| >= 4 && s[2..4] == LengthField(PayloadLen(f))
  {
    hide HasBodyLen, LengthField, PayloadLen;
    var h := HeaderBytes(f);
    assert s[0] == h[0] && s[1] == h[1];
    if HasBodyLen(f.flags) {
      assert s[2..4] == h[2..4] == LengthField(PayloadLen(f));
    }
  }

  /** Six pieces in a row, taken apart again. */
  lemma Pieces(h: seq<Byte>, a: seq<Byte>, b: seq<Byte>, c: seq<Byte>, d: seq<Byte>, r: seq<Byte>)
    ensures var s := h + a + b + c + d + r;
            var i, j, k := |h|, |h| + |a|, |h| + |a| + |b|;
            s[i..j] == a && s[j..k] == b && s[k..k + |c|] == c && s[k + |c|..k + |c| + |d|] == d
            && s[..k + |c|] == h + a + b + c && h <= s
  {
    var s := h + a + b + c + d + r;
    assert s == h + a + (b + c + d + r);
    assert s == (h + a) + b + (c + d + r);
    assert s == (h + a + b) + c + (d + r);
    assert s == (h + a + b + c) + d + r;
  }

  /** The pieces of a frame. */
  lemma CoreIsPieces(f: PacketData)
    ensures Core(f) == HeaderBytes(f) + UintBytes(f.opcode, OpcodeLen(f.flags)) + UintBytes(f.seqNo, SeqLen(f.flags))
                       + f.body + CrcField(Covered(f), CrcLen(f.flags))
    ensures [MAGIC] + Covered(f) == HeaderBytes(f) + UintBytes(f.opcode, OpcodeLen(f.flags))
                                    + UintBytes(f.seqNo, SeqLen(f.flags)) + f.body
  {
    hide OpcodeLen, SeqLen, CrcLen, HasBodyLen, UintBytes, LengthField, CrcField;
  }

  lemma CoreParts(f: PacketData, s: seq<Byte>)
    requires Core(f) <= s
    ensures var opcodeAt := HeaderLen(f.flags);
            var seqAt := opcodeAt + OpcodeLen(f.flags);
            var bodyAt := seqAt + SeqLen(f.flags);
            var crcAt := bodyAt + |f.body|;
            HeaderBytes(f) <= s && crcAt + CrcLen(f.flags) <= |s| &&
            s[opcodeAt..seqAt] == UintBytes(f.opcode, OpcodeLen(f.flags)) &&
            s[seqAt..bodyAt] == UintBytes(f.seqNo, SeqLen(f.flags)) &&
            s[bodyAt..crcAt] == f.body && s[1..crcAt] == Covered(f) &&
            s[crcAt..crcAt + CrcLen(f.flags)] == CrcField(Covered(f), CrcLen(f.flags))
  {
    HeaderBytesLength(f);
    CrcWidths(f.flags);
    CoreIsPieces(f);
    hide OpcodeLen, SeqLen, CrcLen, HasBodyLen, UintBytes, LengthField, CrcField, Core, HeaderBytes, Covered, HeaderLen;
    var op, sq := UintBytes(f.opcode, OpcodeLen(f.flags)), UintBytes(f.seqNo, SeqLen(f.flags));
    var h, crc, rest := HeaderBytes(f), CrcField(Covered(f), CrcLen(f.flags)), s[|Core(f)|..];
    assert s == h + op + sq + f.body + crc + rest;
    Pieces(h, op, sq, f.body, crc, rest);
    assert s[..|h| + |op| + |sq| + |f.body|] == [MAGIC] + Covered(f);
  }

  /** Two bytes, the high one first. */
  function Pair(s: seq<Byte>, i: nat): nat
    requires i + 2 <= |s|
  {
    s[i] as nat * 256 + s[i + 1] as nat
  }

  /** Four bytes, the highest first. */
  function Quad(s: seq<Byte>, i: nat): nat
    requires i + 4 <= |s|
  {
    s[i] as nat * 0x100_0000 + s[i + 1] as nat * 0x1_0000 + s[i + 2] as nat * 256 + s[i + 3] as nat
  }

  /** The field of `n` bytes at `i` holds `v`, modulo its width. */
  ghost predicate Holds(s: seq<Byte>, i: nat, n: Width, v: bv32) {
    && i + n <= |s|
    && (n == 2 ==> Pair(s, i) == v as nat % 65536)
    && (n == 4 ==> Quad(s, i) == v as nat)
  }

  /** A frame byte by byte: Magic, Flags, the length of what follows up to the padding, opcode,
      sequence number, body, the checksum of everything between Magic and itself, and zeros up to
      the next multiple of four; all numbers with the high byte first. */
  lemma FrameOnWire(f: PacketData)
    ensures var s := EncodeFrame(f);
            var opcodeAt := if HasBodyLen(f.flags) then 4 else 2;
            var seqAt := opcodeAt + OpcodeLen(f.flags);
            var bodyAt := seqAt + SeqLen(f.flags);
            var crcAt := bodyAt + |f.body|;
            var end := crcAt + CrcLen(f.flags);
            && end <= |s| < end + 4 && |s| % 4 == 0
            && s[0] == 0x51 && s[1] == f.flags
            && (HasBodyLen(f.flags) ==> Pair(s, 2) == (end - 4) % 65536)
            && Holds(s, opcodeAt, OpcodeLen(f.flags), f.opcode)
            && Holds(s, seqAt, SeqLen(f.flags), f.seqNo)
            && s[bodyAt..crcAt] == f.body
            && (CrcLen(f.flags) == 2 ==> Pair(s, crcAt) == Checksum(s[1..crcAt]) as nat)
            && forall i | end <= i < |s| :: s[i] == 0
  {
    hide EncodeFrame, Core, Covered, UintBytes, CrcField, HeaderBytes, OpcodeLen, SeqLen, CrcLen, HasBodyLen;
    hide Pair, Checksum;
    var s := EncodeFrame(f);
    HeaderBytesLength(f);
    CrcWidths(f.flags);
    CoreFirst(f);
    CoreParts(f, s);
    PaddingOnWire(f);
    HeaderOnWire(f, s);
    var opcodeAt := HeaderLen(f.flags);
    var seqAt := opcodeAt + OpcodeLen(f.flags);
    var crcAt := seqAt + SeqLen(f.flags) + |f.body|;
    FieldOnWire(s, opcodeAt, OpcodeLen(f.flags), f.opcode);
    FieldOnWire(s, seqAt, SeqLen(f.flags), f.seqNo);
    if CrcLen(f.flags) == 2 {
      ChecksumOnWire(s, crcAt, s[1..crcAt]);
    }
  }

  lemma PaddingOnWire(f: PacketData)
    ensures var s := EncodeFrame(f);
            |Core(f)| <= |s| < |Core(f)| + 4 && forall i | |Core(f)| <= i < |s| :: s[i] == 0
  {
    hide Core;
  }

  lemma HeaderOnWire(f: PacketData, s: seq<Byte>)
    requires HeaderBytes(f) <= s
    ensures |s| >= 2 && s[0] == 0x51 && s[1] == f.flags
    ensures HasBodyLen(f.flags) ==> |s| >= 4 && Pair(s, 2) == PayloadLen(f) % 65536
  {
    HeaderStarts(f, s);
    LengthOnWire(PayloadLen(f));
    hide HeaderBytes, LengthField, PayloadLen, HasBodyLen;
    if HasBodyLen(f.flags) {
      assert s[2] == s[2..4][0] && s[3] == s[2..4][1];
    }
  }

  lemma FieldOnWire(s: seq<Byte>, i: nat, n: Width, v: bv32)
    requires i + n <= |s| && s[i..i + n] == UintBytes(v, n)
    ensures Holds(s, i, n, v)
  {
    UintBytesValue(v, n);
    hide UintBytes;
    var field := s[i..i + n];
    assert forall k | 0 <= k < n :: s[i + k] == field[k];
  }

  lemma ChecksumOnWire(s: seq<Byte>, i: nat, data: seq<Byte>)
    requires i + 2 <= |s| && s[i..i + 2] == CrcField(data, 2)
    ensures Pair(s, i) == Checksum(data) as nat
  {
    WordValue(Checksum(data));
    hide Checksum, WordBytes;
    var field := s[i..i + 2];
    assert s[i] == field[0] && s[i + 1] == field[1];
  }

  lemma WordValue(v: bv16)
    ensures v as nat == WordBytes(v)[0] as nat * 256 + WordBytes(v)[1] as nat
  {
    WordJoins(v);
    hide WordBytes;
    JoinedValue(WordBytes(v)[0], WordBytes(v)[1]);
  }

  lemma WordJoins(v: bv16)
    ensures v == ((WordBytes(v)[0] as bv16) << 8) | (WordBytes(v)[1] as bv16)
  {}

  lemma JoinedValue(a: Byte, b: Byte)
    ensures (((a as bv16) << 8) | (b as bv16)) as nat == a as nat * 256 + b as nat
  {}

  lemma SplitAt(s: seq<Byte>, i: nat, j: nat)
    requires i <= j <= |s|
    ensures s[i..] == s[i..j] + s[j..]
  {}

  /** The fields of an encoded frame are read back. */
  lemma BuildEncoded(f: PacketData, s: seq<Byte>)
    requires Consistent(f) && Core(f) <= s && |s| >= CoreLen(f.flags, |f.body|)
    ensures Build(s, f.flags, |f.body|) == Good(f)
  {
    hide OpcodeLen, SeqLen, CrcLen, HasBodyLen, UintBytes, CrcField, Core, Covered, ReadUint, FitsField, Validate;
    CoreParts(f, s);
    var opcodeAt := HeaderLen(f.flags);
    var seqAt := opcodeAt + OpcodeLen(f.flags);
    var bodyAt := seqAt + SeqLen(f.flags);
    SplitAt(s, opcodeAt, seqAt);
    SplitAt(s, seqAt, bodyAt);
    ReadAfterWrite(f.opcode, OpcodeLen(f.flags), s[seqAt..]);
    ReadAfterWrite(f.seqNo, SeqLen(f.flags), s[bodyAt..]);
  }

  /** A well-formed frame at the front is recognised, whatever follows it. */
  lemma ScanEncoded(f: PacketData, t: seq<Byte>)
    requires WellFormed(f)
    ensures Scan(EncodeFrame(f) + t) == Frame(|EncodeFrame(f)|, f)
  {
    hide Scan, Build, Consistent, OpcodeLen, SeqLen, CrcLen, HasBodyLen, Covered, HeaderBytes;
    var s := EncodeFrame(f);
    HeaderBytesLength(f);
    CoreFirst(f);
    assert Core(f) <= s + t;
    CoreParts(f, s + t);
    WellFormedMeasured(f);
    ScanHeader(f, s + t);
    assert (s + t)[..|s|] == s;
    BuildEncoded(f, s);
  }

  lemma CoreFirst(f: PacketData)
    ensures Core(f) <= EncodeFrame(f)
  {}

  // ---------------------------------------------------------------------------
  // What the parser accepts
  // ---------------------------------------------------------------------------

  lemma BuiltConsistent(s: seq<Byte>, f: FlagByte, bodyLen: nat)
    requires |s| >= CoreLen(f, bodyLen) && Build(s, f, bodyLen).Good?
    ensures var p := Build(s, f, bodyLen).packet;
            Consistent(p) && p.flags == f && |p.body| == bodyLen &&
            var seqAt := HeaderLen(f) + OpcodeLen(f);
            UintBytes(p.opcode, OpcodeLen(f)) == s[HeaderLen(f)..seqAt] &&
            UintBytes(p.seqNo, SeqLen(f)) == s[seqAt..seqAt + SeqLen(f)]
  {
    hide OpcodeLen, SeqLen, CrcLen, HasBodyLen, UintBytes, CrcField, ReadUint, FitsField, Validate;
    var opcodeAt := HeaderLen(f);
    var seqAt := opcodeAt + OpcodeLen(f);
    var bodyAt := seqAt + SeqLen(f);
    WriteAfterRead(s[opcodeAt..], OpcodeLen(f));
    WriteAfterRead(s[seqAt..], SeqLen(f));
    Slices(s, opcodeAt, OpcodeLen(f));
    Slices(s, seqAt, SeqLen(f));
  }

  /** A frame built from `s` re-encodes to the bytes of `s`. */
  lemma BuiltCore(s: seq<Byte>, f: FlagByte, bodyLen: nat)
    requires |s| >= CoreLen(f, bodyLen) && Build(s, f, bodyLen).Good?
    requires s[0] == MAGIC && s[1] == f
    requires HasBodyLen(f) ==> ReadLength(s[2..4]) == bodyLen + MinPayload(f)
    ensures Core(Build(s, f, bodyLen).packet) == s[..CoreLen(f, bodyLen)]
  {
    hide Core, Covered, Build, ReadLength, LengthField;
    var p := Build(s, f, bodyLen).packet;
    BuiltConsistent(s, f, bodyLen);
    BuiltHeader(s, f, bodyLen);
    BuiltCrc(s, f, bodyLen);
    CoreIsPieces(p);
    hide OpcodeLen, SeqLen, CrcLen, UintBytes, CrcField, Consistent, HeaderBytes;
    var opcodeAt := HeaderLen(f);
    var seqAt := opcodeAt + OpcodeLen(f);
    var bodyAt := seqAt + SeqLen(f);
    var crcAt := bodyAt + bodyLen;
    Concatenate(s, opcodeAt, seqAt, bodyAt, crcAt, crcAt + CrcLen(f));
    assert [MAGIC] + Covered(p) == s[..crcAt];
    assert Covered(p) == s[1..crcAt];
  }

  lemma BuiltHeader(s: seq<Byte>, f: FlagByte, bodyLen: nat)
    requires |s| >= CoreLen(f, bodyLen) && Build(s, f, bodyLen).Good?
    requires s[0] == MAGIC && s[1] == f
    requires HasBodyLen(f) ==> ReadLength(s[2..4]) == bodyLen + MinPayload(f)
    ensures HeaderBytes(Build(s, f, bodyLen).packet) == s[..HeaderLen(f)]
  {
    hide OpcodeLen, SeqLen, CrcLen, LengthField, ReadLength;
    var p := Build(s, f, bodyLen).packet;
    BuiltConsistent(s, f, bodyLen);
    hide Build, Consistent;
    if HasBodyLen(f) {
      LengthRewrites(s[2..4]);
      assert PayloadLen(p) == ReadLength(s[2..4]);
      assert s[2..4][..2] == s[2..4];
    }
  }

  lemma BuiltCrc(s: seq<Byte>, f: FlagByte, bodyLen: nat)
    requires |s| >= CoreLen(f, bodyLen) && Build(s, f, bodyLen).Good?
    ensures var crcAt := HeaderLen(f) + OpcodeLen(f) + SeqLen(f) + bodyLen;
            s[crcAt..crcAt + CrcLen(f)] == CrcField(s[1..crcAt], CrcLen(f)) &&
            Build(s, f, bodyLen).packet.body == s[crcAt - bodyLen..crcAt]
  {}

  lemma Concatenate(s: seq<Byte>, i: nat, j: nat, k: nat, m: nat, n: nat)
    requires i <= j <= k <= m <= n <= |s|
    ensures s[..i] + s[i..j] + s[j..k] + s[k..m] == s[..m]
    ensures s[..m] + s[m..n] == s[..n]
  {
    assert s[..i] + s[i..j] == s[..j];
    assert s[..j] + s[j..k] == s[..k];
    assert s[..k] + s[k..m] == s[..m];
  }

  /** Every accepted frame is well-formed and re-encodes to the bytes it was read from, apart
      from the padding, which the parser does not inspect. */
  lemma AcceptedReencodes(s: seq<Byte>)
    requires Scan(s).Frame?
    ensures WellFormed(Scan(s).packet) && Scan(s).n == |EncodeFrame(Scan(s).packet)|
    ensures Core(Scan(s).packet) <= s
  {
    hide Build, OpcodeLen, SeqLen, CrcLen, Core, Covered, Consistent, EncodeFrame;
    var f, n, p := s[1], Scan(s).n, Scan(s).packet;
    var bodyLen := if HasBodyLen(f) then ReadLength(s[2..4]) - MinPayload(f) else 0;
    assert Build(s[..n], f, bodyLen) == Good(p);
    assert n == FrameLen(f, bodyLen);
    PrefixSlice(s, n, 2, 4);
    BuiltConsistent(s[..n], f, bodyLen);
    BuiltCore(s[..n], f, bodyLen);
    PrefixSlice(s, n, 0, CoreLen(f, bodyLen));
    HeaderBytesLength(p);
  }

  lemma {:induction false} PacketsWellFormed(s: seq<Byte>, p: PacketData)
    requires p in Packets(s)
    ensures WellFormed(p)
    decreases |s|
  {
    hide Scan, WellFormed;
    if Scan(s).Frame? {
      AcceptedReencodes(s);
      if p != Scan(s).packet {
        PacketsWellFormed(s[Scan(s).n..], p);
      }
    } else {
      PacketsWellFormed(s[Scan(s).n..], p);
    }
  }

  /** No packet that `Encode` refuses is ever delivered. */
  lemma DecodedLegal(s: seq<Byte>, p: PacketData)
    requires p in Packets(s)
    ensures RequiresAck(p.flags) ==> SeqLen(p.flags) > 0 && IsRequest(p.flags)
    ensures p.body != [] ==> HasBodyLen(p.flags)
  {
    PacketsWellFormed(s, p);
    RefusedExactly(p.flags, |p.body| > 0);
    hide Packets, Validate, OpcodeLen, SeqLen, CrcLen, FitsField;
  }

  /** An intact frame whose flags are refused is dropped whole, and nothing after it is affected. */
  lemma RefusedFrameDropped(f: PacketData, t: seq<Byte>)
    requires Measured(f) && RequiresAck(f.flags) && (SeqLen(f.flags) == 0 || IsResponse(f.flags))
    ensures Packets(EncodeFrame(f) + t) == Packets(t) && Pending(EncodeFrame(f) + t) == Pending(t)
  {
    RefusedExactly(f.flags, |f.body| > 0);
    hide Scan, Packets, Pending, EncodeFrame, Validate, Measured;
    RefusedFrameSkipped(f, t);
    SkippedFront(EncodeFrame(f) + t, |EncodeFrame(f)|);
    assert (EncodeFrame(f) + t)[|EncodeFrame(f)|..] == t;
  }

  lemma RefusedFrameSkipped(f: PacketData, t: seq<Byte>)
    requires Measured(f) && Validate(f.flags, |f.body| > 0) != Accepted
    ensures Scan(EncodeFrame(f) + t) == Skip(|EncodeFrame(f)|)
  {
    hide OpcodeLen, SeqLen, CrcLen, HasBodyLen, CrcField, Core, Covered, EncodeFrame, Scan, HeaderBytes, ReadUint;
    hide Validate;
    var s := EncodeFrame(f);
    HeaderBytesLength(f);
    CoreFirst(f);
    assert Core(f) <= s + t;
    CoreParts(f, s + t);
    ScanHeader(f, s + t);
    assert (s + t)[..|s|] == s;
    assert Build(s, f.flags, |f.body|) == Bad;
  }

  lemma SkippedFront(s: seq<Byte>, n: nat)
    requires Scan(s) == Skip(n) && n <= |s|
    ensures Packets(s) == Packets(s[n..]) && Pending(s) == Pending(s[n..])
  {
    hide Scan;
  }

  /** The padding may be anything. */
  lemma PaddingIgnored(f: PacketData, pad: seq<Byte>, t: seq<Byte>)
    requires WellFormed(f) && |Core(f) + pad| == |EncodeFrame(f)|
    ensures Packets(Core(f) + pad + t) == [f] + Packets(t) && Pending(Core(f) + pad + t) == Pending(t)
  {
    hide Scan, Build, Complete, Consistent, OpcodeLen, SeqLen, CrcLen, HasBodyLen, Covered, Core;
    hide HeaderBytes, EncodeFrame;
    var s := Core(f) + pad;
    HeaderBytesLength(f);
    assert Core(f) <= s + t;
    CoreParts(f, s + t);
    WellFormedMeasured(f);
    ScanHeader(f, s + t);
    BuildEncoded(f, s);
    PaddedComplete(f, s, t);
    assert (s + t)[|s|..] == t;
  }

  lemma PaddedComplete(f: PacketData, s: seq<Byte>, t: seq<Byte>)
    requires |s| == FrameLen(f.flags, |f.body|) && Build(s, f.flags, |f.body|) == Good(f)
    ensures Complete(s + t, f.flags, |f.body|) == Frame(|s|, f)
  {
    hide Build, FrameLen;
    assert (s + t)[..|s|] == s;
  }

  // ---------------------------------------------------------------------------
  // Round trips
  // ---------------------------------------------------------------------------

  /** The condition a caller can check before encoding. */
  predicate Fits(f: PacketData) {
    FitsField(f.opcode, OpcodeLen(f.flags)) && FitsField(f.seqNo, SeqLen(f.flags)) &&
    (HasBodyLen(f.flags) ==> PayloadLen(f) <= 65535)
  }

  lemma PacketsEncoded(f: PacketData, t: seq<Byte>)
    requires WellFormed(f)
    ensures Packets(EncodeFrame(f) + t) == [f] + Packets(t)
    ensures Pending(EncodeFrame(f) + t) == Pending(t)
  {
    hide Scan, WellFormed, EncodeFrame;
    ScanEncoded(f, t);
    var s := EncodeFrame(f);
    assert (s + t)[|s|..] == t;
  }

  /** An encoded packet decodes to itself exactly when its values fit their fields and its
      payload fits the Length field: `Encode` checks neither. */
  lemma RoundTripExactly(f: PacketData)
    requires Validate(f.flags, |f.body| > 0) == Accepted
    ensures Packets(EncodeFrame(f)) == [f] <==> Fits(f)
  {
    hide Validate, FitsField, EncodeFrame;
    var s := EncodeFrame(f);
    if Fits(f) {
      PacketsEncoded(f, []);
      assert s + [] == s;
      assert Packets([]) == [];
    }
    if Packets(s) == [f] {
      assert f in Packets(s);
      PacketsWellFormed(s, f);
    }
  }

  /** The documented body limit is safe exactly when the other fields take at most the eight
      bytes it reserves; a frame with 4-byte opcode, 4-byte seq and CRC needs ten. */
  lemma MaxBodyLenSafeExactly(f: PacketData)
    requires Consistent(f) && HasBodyLen(f.flags) && |f.body| == MAX_BODY_LEN
    ensures Packets(EncodeFrame(f)) == [f] <==> MinPayload(f.flags) <= 8
  {
    hide EncodeFrame, FitsField, Validate;
    RoundTripExactly(f);
  }

  lemma MaxBodyLenTooLarge() returns (f: PacketData)
    ensures Consistent(f) && |f.body| == MAX_BODY_LEN && Packets(EncodeFrame(f)) != [f]
  {
    f := PacketData(0x35, 1, 1, Zeros(MAX_BODY_LEN));
    hide EncodeFrame;
    MaxBodyLenSafeExactly(f);
  }

  // ---------------------------------------------------------------------------
  // Many frames and noise
  // ---------------------------------------------------------------------------

  /** Bytes that cannot start a frame. */
  ghost predicate Quiet(noise: seq<Byte>) {
    forall i | 0 <= i < |noise| :: noise[i] != MAGIC
  }

  /** A packet and the noise before it. */
  datatype Item = Item(noise: seq<Byte>, packet: PacketData)

  function Transmit(items: seq<Item>): seq<Byte> {
    if items == [] then [] else items[0].noise + EncodeFrame(items[0].packet) + Transmit(items[1..])
  }

  function Sent(items: seq<Item>): (packets: seq<PacketData>)
    ensures |packets| == |items|
  {
    if items == [] then [] else [items[0].packet] + Sent(items[1..])
  }

  lemma {:induction false} NoiseDropped(noise: seq<Byte>, t: seq<Byte>)
    requires Quiet(noise)
    ensures Packets(noise + t) == Packets(t) && Pending(noise + t) == Pending(t)
    decreases |noise|
  {
    if noise == [] {
      assert noise + t == t;
    } else {
      assert noise[0] != MAGIC;
      assert Scan(noise + t) == Skip(1);
      hide Scan;
      assert (noise + t)[1..] == noise[1..] + t;
      NoiseDropped(noise[1..], t);
    }
  }

  /** Any list of well-formed packets, with any noise free of the magic byte before them, is
      decoded to exactly that list; parsing then continues with what follows. */
  lemma {:induction false} TransmitDecodes(items: seq<Item>, t: seq<Byte>)
    requires forall i | 0 <= i < |items| :: Quiet(items[i].noise) && WellFormed(items[i].packet)
    ensures Packets(Transmit(items) + t) == Sent(items) + Packets(t)
    ensures Pending(Transmit(items) + t) == Pending(t)
    decreases |items|
  {
    hide WellFormed, Quiet, EncodeFrame, Packets, Pending;
    if items == [] {
      assert Transmit(items) + t == t;
    } else {
      var noise, frame, rest := items[0].noise, EncodeFrame(items[0].packet), Transmit(items[1..]) + t;
      assert Transmit(items) + t == noise + (frame + rest);
      NoiseDropped(noise, frame + rest);
      PacketsEncoded(items[0].packet, rest);
      TransmitDecodes(items[1..], t);
      assert Sent(items) + Packets(t) == [items[0].packet] + (Sent(items[1..]) + Packets(t));
    }
  }

  // ---------------------------------------------------------------------------
  // Corruption
  // ---------------------------------------------------------------------------

  /** A frame's bytes after damage that leaves Magic, Flags and Length alone. */
  ghost predicate Damaged(f: PacketData, c: seq<Byte>) {
    HeaderBytes(f) <= c && |c| == |EncodeFrame(f)|
  }

  /** Where the CRC of a frame starts. */
  function CrcAt(f: PacketData): nat {
    1 + |Covered(f)|
  }

  /** The CRC found in the bytes of a frame is the CRC of its covered bytes. */
  ghost predicate CrcMatches(f: PacketData, c: seq<Byte>)
    requires |c| == |EncodeFrame(f)|
  {
    var end := CrcAt(f) + |CrcField(Covered(f), CrcLen(f.flags))|;
    c[CrcAt(f)..end] == CrcField(c[1..CrcAt(f)], CrcLen(f.flags))
  }

  lemma CrcPosition(f: PacketData)
    ensures CrcAt(f) == HeaderLen(f.flags) + OpcodeLen(f.flags) + SeqLen(f.flags) + |f.body|
    ensures |CrcField(Covered(f), CrcLen(f.flags))| == CrcLen(f.flags)
    ensures CrcAt(f) + CrcLen(f.flags) <= |EncodeFrame(f)| == FrameLen(f.flags, |f.body|)
  {
    HeaderBytesLength(f);
    CrcWidths(f.flags);
    hide CrcField;
  }

  /** A frame whose header is intact and whose CRC check fails is dropped whole, and nothing
      after it is affected. */
  lemma DamagedFrameDropped(f: PacketData, c: seq<Byte>, t: seq<Byte>)
    requires WellFormed(f) && Damaged(f, c) && !CrcMatches(f, c)
    ensures Scan(c + t) == Skip(|c|)
    ensures Packets(c + t) == Packets(t) && Pending(c + t) == Pending(t)
  {
    hide Scan, Packets, Pending, Damaged, CrcMatches, EncodeFrame;
    DamagedFrameSkipped(f, c, t);
    SkippedFront(c + t, |c|);
    assert (c + t)[|c|..] == t;
  }

  lemma DamagedFrameSkipped(f: PacketData, c: seq<Byte>, t: seq<Byte>)
    requires WellFormed(f) && Damaged(f, c) && !CrcMatches(f, c)
    ensures Scan(c + t) == Skip(|c|)
  {
    hide OpcodeLen, SeqLen, CrcLen, HasBodyLen, CrcField, Covered, EncodeFrame, Scan, HeaderBytes, ReadUint, Validate;
    CrcPosition(f);
    WellFormedMeasured(f);
    ScanHeader(f, c + t);
    assert (c + t)[..|c|] == c;
    assert Build(c, f.flags, |f.body|) == Bad;
  }

  /** One damaged frame among intact ones: the others are all decoded. */
  lemma FaultIsolated(before: seq<Item>, f: PacketData, c: seq<Byte>, after: seq<Item>)
    requires forall i | 0 <= i < |before| :: Quiet(before[i].noise) && WellFormed(before[i].packet)
    requires forall i | 0 <= i < |after| :: Quiet(after[i].noise) && WellFormed(after[i].packet)
    requires WellFormed(f) && Damaged(f, c) && !CrcMatches(f, c)
    ensures Packets(Transmit(before) + c + Transmit(after)) == Sent(before) + Sent(after)
  {
    hide WellFormed, Quiet, Damaged, CrcMatches, Packets, Pending, Transmit, Sent;
    var t := Transmit(after);
    TransmitDecodes(before, c + t);
    DamagedFrameDropped(f, c, t);
    TransmitDecodes(after, []);
    assert t + [] == t;
    NoBytes();
    assert Transmit(before) + (c + t) == Transmit(before) + c + t;
    assert Sent(after) + [] == Sent(after);
  }

  lemma NoBytes()
    ensures Packets([]) == []
  {}

  /** A checked frame with errors xored into the bytes its CRC covers and into the CRC. */
  function WithError(f: PacketData, error: seq<Byte>, fieldError: seq<Byte>): seq<Byte>
    requires CrcLen(f.flags) == 2 && |error| == |Covered(f)| && |fieldError| == 2
  {
    [MAGIC] + XorBytes(Covered(f), error) + XorBytes(CrcField(Covered(f), 2), fieldError) + Zeros(PadLen(|Core(f)|))
  }

  /** The error leaves Flags and Length alone. */
  ghost predicate SparesHeader(f: PacketData, error: seq<Byte>)
    requires |error| == |Covered(f)|
  {
    forall i | 0 <= i < HeaderLen(f.flags) - 1 && i < |error| :: error[i] == 0
  }

  /** An error behind the header leaves a frame of the same size, whose CRC matches exactly when
      the check does not see the error. */
  lemma ErrorDamages(f: PacketData, error: seq<Byte>, fieldError: seq<Byte>)
    requires CrcLen(f.flags) == 2 && |error| == |Covered(f)| && |fieldError| == 2 && SparesHeader(f, error)
    ensures Damaged(f, WithError(f, error, fieldError))
    ensures CrcMatches(f, WithError(f, error, fieldError)) <==> Undetected(Covered(f), error, fieldError)
  {
    hide CrcField, XorBytes;
    HeaderBytesLength(f);
    HeaderCovered(f);
    HeaderSpared(f, error);
    CrcPosition(f);
    hide OpcodeLen, SeqLen, CrcLen, HasBodyLen, Covered, HeaderBytes;
    var x, crc := XorBytes(Covered(f), error), XorBytes(CrcField(Covered(f), 2), fieldError);
    ErrorParts(x, crc, Zeros(PadLen(|Core(f)|)));
  }

  lemma HeaderCovered(f: PacketData)
    ensures HeaderBytes(f) <= [MAGIC] + Covered(f)
  {
    CoreIsPieces(f);
    hide Covered, HeaderBytes, Core;
  }

  lemma ErrorParts(x: seq<Byte>, crc: seq<Byte>, pad: seq<Byte>)
    ensures var c := [MAGIC] + x + crc + pad;
            c[1..1 + |x|] == x && c[1 + |x|..1 + |x| + |crc|] == crc && [MAGIC] + x <= c
  {}

  lemma HeaderSpared(f: PacketData, error: seq<Byte>)
    requires |error| == |Covered(f)| && SparesHeader(f, error)
    requires HeaderBytes(f) <= [MAGIC] + Covered(f) && |HeaderBytes(f)| == HeaderLen(f.flags)
    ensures HeaderBytes(f) <= [MAGIC] + XorBytes(Covered(f), error)
  {
    hide Covered, HeaderBytes, HasBodyLen;
    var x := XorBytes(Covered(f), error);
    forall i | 0 <= i < |HeaderBytes(f)| ensures HeaderBytes(f)[i] == ([MAGIC] + x)[i] {
      assert HeaderBytes(f)[i] == ([MAGIC] + Covered(f))[i];
      if i > 0 {
        assert error[i - 1] == 0;
        XorZeroByte(Covered(f)[i - 1]);
      }
    }
  }

  lemma XorZeroByte(b: Byte)
    ensures b ^ 0 == b
  {}

  /** An error that the check sees costs its frame and no other. */
  lemma DetectedErrorCostsOneFrame(before: seq<Item>, f: PacketData, error: seq<Byte>, fieldError: seq<Byte>,
                                   after: seq<Item>)
    requires forall k | 0 <= k < |before| :: Quiet(before[k].noise) && WellFormed(before[k].packet)
    requires forall k | 0 <= k < |after| :: Quiet(after[k].noise) && WellFormed(after[k].packet)
    requires WellFormed(f) && CrcLen(f.flags) == 2
    requires |error| == |Covered(f)| && |fieldError| == 2 && SparesHeader(f, error)
    requires !Undetected(Covered(f), error, fieldError)
    ensures Packets(Transmit(before) + WithError(f, error, fieldError) + Transmit(after)) == Sent(before) + Sent(after)
  {
    hide WellFormed, Quiet, WithError, Packets, Transmit, Sent, Covered, Undetected, SparesHeader;
    ErrorDamages(f, error, fieldError);
    FaultIsolated(before, f, WithError(f, error, fieldError), after);
  }

  lemma MatchingFrameAccepted(f: PacketData, c: seq<Byte>, t: seq<Byte>) returns (p: PacketData)
    requires WellFormed(f) && Damaged(f, c) && CrcMatches(f, c)
    ensures Scan(c + t) == Frame(|c|, p)
    ensures |c| >= CoreLen(f.flags, |f.body|) && Build(c, f.flags, |f.body|) == Good(p)
  {
    hide OpcodeLen, SeqLen, CrcLen, HasBodyLen, CrcField, Covered, EncodeFrame, Scan, HeaderBytes, ReadUint, Validate;
    CrcPosition(f);
    WellFormedMeasured(f);
    ScanHeader(f, c + t);
    assert (c + t)[..|c|] == c;
    p := Build(c, f.flags, |f.body|).packet;
  }

  /** An error that the check does not see turns the frame into another packet, which is delivered
      in its place. */
  lemma UndetectedErrorDelivered(before: seq<Item>, f: PacketData, error: seq<Byte>, fieldError: seq<Byte>,
                                 after: seq<Item>)
    returns (p: PacketData)
    requires forall k | 0 <= k < |before| :: Quiet(before[k].noise) && WellFormed(before[k].packet)
    requires forall k | 0 <= k < |after| :: Quiet(after[k].noise) && WellFormed(after[k].packet)
    requires WellFormed(f) && CrcLen(f.flags) == 2
    requires |error| == |Covered(f)| && |fieldError| == 2 && SparesHeader(f, error)
    requires Undetected(Covered(f), error, fieldError) && exists i | 0 <= i < |error| :: error[i] != 0
    ensures p != f
    ensures Packets(Transmit(before) + WithError(f, error, fieldError) + Transmit(after)) ==
              Sent(before) + [p] + Sent(after)
  {
    hide WellFormed, Quiet, WithError, Packets, Pending, Transmit, Sent, Covered, Undetected, SparesHeader;
    hide Scan, Damaged, CrcMatches;
    var c, t := WithError(f, error, fieldError), Transmit(after);
    ErrorDamages(f, error, fieldError);
    p := MatchingFrameAccepted(f, c, t);
    PacketDiffers(f, error, fieldError, t, p);
    FirstPacket(c + t, |c|, p);
    assert (c + t)[|c|..] == t;
    TransmitDecodes(before, c + t);
    TransmitDecodes(after, []);
    NoBytes();
    assert t + [] == t;
    assert Transmit(before) + (c + t) == Transmit(before) + c + t;
    assert Sent(after) + [] == Sent(after);
    assert Sent(before) + ([p] + Sent(after)) == Sent(before) + [p] + Sent(after);
  }

  lemma FirstPacket(s: seq<Byte>, n: nat, p: PacketData)
    requires Scan(s) == Frame(n, p) && n <= |s|
    ensures Packets(s) == [p] + Packets(s[n..])
  {
    hide Scan;
  }

  lemma PacketDiffers(f: PacketData, error: seq<Byte>, fieldError: seq<Byte>, t: seq<Byte>, p: PacketData)
    requires CrcLen(f.flags) == 2 && |error| == |Covered(f)| && |fieldError| == 2
    requires exists i | 0 <= i < |error| :: error[i] != 0
    requires Scan(WithError(f, error, fieldError) + t) == Frame(|WithError(f, error, fieldError)|, p)
    ensures p != f
  {
    hide Covered, CrcField, Scan, XorBytes, Core;
    var s := WithError(f, error, fieldError) + t;
    AcceptedReencodes(s);
    var i :| 0 <= i < |error| && error[i] != 0;
    assert s[1 + i] == XorBytes(Covered(f), error)[i];
    XorChanges(Covered(f), error, i);
    CoreAt(f, i);
  }

  lemma CoreAt(f: PacketData, i: nat)
    requires i < |Covered(f)|
    ensures 1 + i < |Core(f)| && Core(f)[1 + i] == Covered(f)[i]
  {
    hide Covered, CrcField;
  }

  lemma XorChanges(a: seq<Byte>, error: seq<Byte>, i: nat)
    requires |a| == |error| && i < |a| && error[i] != 0
    ensures XorBytes(a, error)[i] != a[i]
  {}

  /** A burst within sixteen consecutive bits behind the header of a checked frame, in covered
      bytes and CRC field together, costs that frame and no other, if it lies on one side of the
      boundary between them or spans at most eight bits. */
  lemma BurstCostsOneFrame(before: seq<Item>, f: PacketData, error: seq<Byte>, fieldError: seq<Byte>, lo: nat,
                           n: nat, after: seq<Item>)
    requires forall k | 0 <= k < |before| :: Quiet(before[k].noise) && WellFormed(before[k].packet)
    requires forall k | 0 <= k < |after| :: Quiet(after[k].noise) && WellFormed(after[k].packet)
    requires WellFormed(f) && CrcLen(f.flags) == 2
    requires |error| == |Covered(f)| && |fieldError| == 2 && SparesHeader(f, error)
    requires WithinWindow(Bits(error + fieldError), lo, n) && !AllClear(Bits(error + fieldError)) && n <= 16
    requires AllClear(Bits(error)) || AllClear(Bits(fieldError)) || n <= 8
    ensures Packets(Transmit(before) + WithError(f, error, fieldError) + Transmit(after)) == Sent(before) + Sent(after)
  {
    hide WellFormed, Quiet, WithError, Packets, Transmit, Sent, Covered, Undetected, Bits, SparesHeader;
    BurstDetectedAcross(Covered(f), error, fieldError, lo, n);
    DetectedErrorCostsOneFrame(before, f, error, fieldError, after);
  }

  /** Nine bits across the boundary are too many: in every checked frame with anything behind its
      header the same nine-bit burst delivers a wrong packet. */
  lemma NineBitBurstDelivered(f: PacketData) returns (p: PacketData)
    requires WellFormed(f) && CrcLen(f.flags) == 2 && |Covered(f)| >= HeaderLen(f.flags)
    ensures var error, fieldError := LastByteError(|Covered(f)|, 0x0C), [0x05, 0x00];
            && SparesHeader(f, error) && WithinWindow(Bits(error + fieldError), 8 * |Covered(f)| - 6, 9)
            && p != f && Packets(WithError(f, error, fieldError)) == [p]
  {
    hide WellFormed, WithError, Packets, Covered, Undetected, Bits, HeaderLen;
    var error, fieldError := LastByteError(|Covered(f)|, 0x0C), [0x05, 0x00];
    NineBitBurstUndetected(Covered(f));
    CrcPosition(f);
    assert error[|error| - 1] == 0x0C;
    p := UndetectedErrorDelivered([], f, error, fieldError, []);
    assert Transmit([]) == [] && Sent([]) == [];
    assert [] + WithError(f, error, fieldError) + [] == WithError(f, error, fieldError);
  }

  lemma UintBytesInjective(a: bv32, b: bv32, n: Width)
    requires FitsField(a, n) && FitsField(b, n) && UintBytes(a, n) == UintBytes(b, n)
    ensures a == b
  {
    hide UintBytes, ReadUint, FitsField;
    ReadAfterWrite(a, n, []);
    ReadAfterWrite(b, n, []);
  }

  /** Without a body the burst hits the sequence number: the frame arrives as one for another
      request, with flags and opcode intact. */
  lemma NineBitBurstMisroutes(f: PacketData) returns (p: PacketData)
    requires WellFormed(f) && CrcLen(f.flags) == 2 && f.body == [] && SeqLen(f.flags) > 0
    ensures Packets(WithError(f, LastByteError(|Covered(f)|, 0x0C), [0x05, 0x00])) == [p]
    ensures p.flags == f.flags && p.opcode == f.opcode && p.body == [] && p.seqNo != f.seqNo
  {
    hide WithError, Covered, Packets, Scan, Build, WellFormed, Consistent, LastByteError, UintBytes, HeaderLen;
    var c := WithError(f, LastByteError(|Covered(f)|, 0x0C), [0x05, 0x00]);
    CrcPosition(f);
    LastByteChanged(f, c);
    p := BurstAccepted(f, c);
    ScansAlone(c, p);
    BuiltConsistent(c, f.flags, |f.body|);
    SameOpcode(f, p);
  }

  lemma BurstAccepted(f: PacketData, c: seq<Byte>) returns (p: PacketData)
    requires WellFormed(f) && CrcLen(f.flags) == 2 && |Covered(f)| >= HeaderLen(f.flags)
    requires c == WithError(f, LastByteError(|Covered(f)|, 0x0C), [0x05, 0x00])
    ensures |c| >= CoreLen(f.flags, |f.body|)
    ensures Scan(c) == Frame(|c|, p) && Build(c, f.flags, |f.body|) == Good(p)
  {
    hide Covered, Undetected, WithError, Damaged, CrcMatches, Scan, Build, WellFormed, LastByteError;
    SparedByLast(f, 0x0C);
    ErrorDamages(f, LastByteError(|Covered(f)|, 0x0C), [0x05, 0x00]);
    NineBitBurstUndetected(Covered(f));
    p := MatchingFrameAccepted(f, c, []);
    assert c + [] == c;
  }

  lemma ScansAlone(c: seq<Byte>, p: PacketData)
    requires Scan(c) == Frame(|c|, p)
    ensures Packets(c) == [p]
  {
    hide Scan;
    FirstPacket(c, |c|, p);
    assert c[|c|..] == [];
    NoBytes();
    assert [p] + [] == [p];
  }

  lemma SparedByLast(f: PacketData, b: Byte)
    requires |Covered(f)| >= HeaderLen(f.flags)
    ensures SparesHeader(f, LastByteError(|Covered(f)|, b))
  {
    hide Covered, HeaderLen;
  }

  lemma SameOpcode(f: PacketData, p: PacketData)
    requires WellFormed(f) && Consistent(p) && p.flags == f.flags
    requires UintBytes(p.opcode, OpcodeLen(f.flags)) == UintBytes(f.opcode, OpcodeLen(f.flags))
    ensures p.opcode == f.opcode
  {
    hide UintBytes, FitsField, OpcodeLen, Validate;
    UintBytesInjective(p.opcode, f.opcode, OpcodeLen(f.flags));
  }

  /** An error in the last covered byte of a frame without a body leaves the opcode's bytes alone
      and changes those of the sequence number. */
  lemma LastByteChanged(f: PacketData, c: seq<Byte>)
    requires CrcLen(f.flags) == 2 && f.body == [] && SeqLen(f.flags) > 0
    requires c == WithError(f, LastByteError(|Covered(f)|, 0x0C), [0x05, 0x00])
    ensures var opcodeAt := HeaderLen(f.flags);
            var seqAt := opcodeAt + OpcodeLen(f.flags);
            && seqAt + SeqLen(f.flags) <= |c|
            && c[opcodeAt..seqAt] == UintBytes(f.opcode, OpcodeLen(f.flags))
            && c[seqAt..seqAt + SeqLen(f.flags)] != UintBytes(f.seqNo, SeqLen(f.flags))
  {
    hide *;
    var h, op, sq := HeaderBytes(f), UintBytes(f.opcode, OpcodeLen(f.flags)), UintBytes(f.seqNo, SeqLen(f.flags));
    HeaderBytesLength(f);
    CoreIsPieces(f);
    assert h + op + sq + [] == h + op + sq;
    ErrorInLast(f, c);
    LastPieceChanged(h, op, sq, c);
  }

  /** The error's bytes before the last are zero. */
  lemma ErrorInLast(f: PacketData, c: seq<Byte>)
    requires CrcLen(f.flags) == 2 && c == WithError(f, LastByteError(|Covered(f)|, 0x0C), [0x05, 0x00])
    ensures DiffersInLast([MAGIC] + Covered(f), c)
  {
    hide Covered, CrcField, CrcLen, Core, XorBytes, LastByteError;
    XorLast(Covered(f), LastByteError(|Covered(f)|, 0x0C));
  }

  ghost predicate DiffersInLast(whole: seq<Byte>, c: seq<Byte>) {
    && 0 < |whole| <= |c| && c[|whole| - 1] != whole[|whole| - 1]
    && forall i | 0 <= i < |whole| - 1 :: c[i] == whole[i]
  }

  lemma LastPieceChanged(h: seq<Byte>, op: seq<Byte>, sq: seq<Byte>, c: seq<Byte>)
    requires DiffersInLast(h + op + sq, c) && |sq| > 0
    ensures |h| + |op| + |sq| <= |c|
    ensures c[|h|..|h| + |op|] == op
    ensures c[|h| + |op|..|h| + |op| + |sq|] != sq
  {
    var whole, last := h + op + sq, |h| + |op| + |sq| - 1;
    assert whole[last] == sq[|sq| - 1];
    assert c[|h| + |op|..last + 1][|sq| - 1] == c[last];
    forall i | 0 <= i < |op| ensures c[|h|..|h| + |op|][i] == op[i] {
      assert c[|h| + i] == whole[|h| + i];
    }
  }

  lemma XorLast(a: seq<Byte>, error: seq<Byte>)
    requires |a| == |error| > 0 && error == LastByteError(|a|, 0x0C)
    ensures var x := XorBytes(a, error);
            x[|a| - 1] != a[|a| - 1] && forall i | 0 <= i < |a| - 1 :: x[i] == a[i]
  {
    XorChanges(a, error, |a| - 1);
    forall i | 0 <= i < |a| - 1 ensures XorBytes(a, error)[i] == a[i] {
      XorZeroByte(a[i]);
    }
  }

  /** Two flipped bits behind the header cost that frame and no other unless they cancel. */
  lemma TwoBitsCostOneFrame(before: seq<Item>, f: PacketData, error: seq<Byte>, fieldError: seq<Byte>, a: nat,
                            b: nat, after: seq<Item>)
    requires forall k | 0 <= k < |before| :: Quiet(before[k].noise) && WellFormed(before[k].packet)
    requires forall k | 0 <= k < |after| :: Quiet(after[k].noise) && WellFormed(after[k].packet)
    requires WellFormed(f) && CrcLen(f.flags) == 2
    requires |error| == |Covered(f)| && |fieldError| == 2 && SparesHeader(f, error)
    requires TwoBits(Bits(error + fieldError), a, b) && !Cancel(8 * |error|, a, b)
    ensures Packets(Transmit(before) + WithError(f, error, fieldError) + Transmit(after)) == Sent(before) + Sent(after)
  {
    hide WellFormed, Quiet, WithError, Packets, Transmit, Sent, Covered, Undetected, Bits, SparesHeader;
    hide Cancel, TwoBits;
    TwoBitsUndetectedExactly(Covered(f), error, fieldError, a, b);
    DetectedErrorCostsOneFrame(before, f, error, fieldError, after);
  }

  /** An odd number of flipped bits after the header, in the covered bytes and the CRC field
      together, costs that frame and no other. */
  lemma OddErrorCostsOneFrame(before: seq<Item>, f: PacketData, error: seq<Byte>, fieldError: seq<Byte>,
                              after: seq<Item>)
    requires forall k | 0 <= k < |before| :: Quiet(before[k].noise) && WellFormed(before[k].packet)
    requires forall k | 0 <= k < |after| :: Quiet(after[k].noise) && WellFormed(after[k].packet)
    requires WellFormed(f) && CrcLen(f.flags) == 2
    requires |error| == |Covered(f)| && |fieldError| == 2 && SparesHeader(f, error)
    requires Odd(Bits(error + fieldError))
    ensures Packets(Transmit(before) + WithError(f, error, fieldError) + Transmit(after)) == Sent(before) + Sent(after)
  {
    hide WellFormed, Quiet, WithError, Packets, Transmit, Sent, Covered, CrcField, Bits, SparesHeader, XorBytes, Odd;
    OddErrorDetected(Covered(f), error, fieldError);
    DetectedErrorCostsOneFrame(before, f, error, fieldError, after);
  }

  /** After a Length too small for its own fields the decoder drops four bytes, where its
      comment promises to resynchronise after Magic alone.  The two agree: none of the other
      three bytes can be a magic byte. */
  lemma BadLengthResynchronises(s: seq<Byte>)
    requires |s| >= 4 && s[0] == MAGIC && HasBodyLen(s[1]) && ReadLength(s[2..4]) < MinPayload(s[1])
    ensures Packets(s) == Packets(s[1..]) && Pending(s) == Pending(s[1..])
  {
    BadLengthQuiet(s);
    assert Scan(s) == Skip(4);
    hide Scan;
    assert s[1..] == s[1..4] + s[4..];
    NoiseDropped(s[1..4], s[4..]);
  }

  lemma BadLengthQuiet(s: seq<Byte>)
    requires |s| >= 4 && HasBodyLen(s[1]) && ReadLength(s[2..4]) < MinPayload(s[1])
    ensures Quiet(s[1..4])
  {
    assert MinPayload(s[1]) <= 10;
    assert s[2..4][0] == s[2] && s[2..4][1] == s[3];
    assert MAGIC as nat == 81;
    assert s[2] as nat * 256 + s[3] as nat < 10;
  }
}
