/** Frame encoding (conn/encoder.go).

    Variant A  Magic Flags Length Opcode Seq Body CRC Padding
    Variant B  Magic Flags Opcode Seq CRC Padding */
module Encoder {
  import opened Bytes
  import opened Flags
  import opened Packet
  import opened Crc

  datatype EncodeResult = Encoded(buf: array<Byte>) | Refused(error: FlagsError)

  /** The value of the Length field before truncation. */
  function PayloadLen(f: PacketData): nat {
    OpcodeLen(f.flags) + SeqLen(f.flags) + |f.body| + CrcLen(f.flags)
  }

  /** The bytes between Magic and CRC, which the CRC covers. */
  function Covered(f: PacketData): (s: seq<Byte>)
    ensures |s| > 0 && s[0] == f.flags
  {
    [f.flags]
    + (if HasBodyLen(f.flags) then LengthField(PayloadLen(f)) else [])
    + UintBytes(f.opcode, OpcodeLen(f.flags))
    + UintBytes(f.seqNo, SeqLen(f.flags))
    + f.body
  }

  /** Magic, covered bytes and CRC. */
  function Core(f: PacketData): seq<Byte> {
    [MAGIC] + Covered(f) + CrcField(Covered(f), CrcLen(f.flags))
  }

  /** The whole frame. */
  function EncodeFrame(f: PacketData): (s: seq<Byte>)
    ensures |s| % 4 == 0 && |s| >= 4
  {
    Core(f) + Zeros(PadLen(|Core(f)|))
  }

  lemma CoreLength(f: PacketData)
    ensures |Core(f)| == 2 + (if HasBodyLen(f.flags) then 2 else 0) + PayloadLen(f)
  {
    CrcWidths(f.flags);
  }

  /** The announced size is the size of the encoding, a multiple of four. */
  method FrameSize(f: PacketData) returns (size: nat)
    ensures size == |EncodeFrame(f)| && size % 4 == 0
  {
    CoreLength(f);
    size := 1 + 1;
    if HasBodyLen(f.flags) {
      size := size + 2;
    }
    size := size + OpcodeLen(f.flags);
    size := size + SeqLen(f.flags);
    size := size + |f.body|;
    size := size + CrcLen(f.flags);
    var pad := (4 - size % 4) % 4;
    size := size + pad;
  }

  /** Copies `src` into the buffer at an offset. */
  method CopyInto(buf: array<Byte>, offset: nat, src: seq<Byte>)
    requires offset + |src| <= buf.Length
    modifies buf
    ensures buf[..] == old(buf[..offset]) + src + old(buf[offset + |src|..])
  {
    for i := 0 to |src|
      invariant forall k | 0 <= k < buf.Length ::
              buf[k] == if offset <= k < offset + i then src[k - offset] else old(buf[k])
    {
      buf[offset + i] := src[i];
    }
  }

  /** The written prefix of a zeroed buffer. */
  ghost predicate Written(buf: seq<Byte>, prefix: seq<Byte>) {
    |prefix| <= |buf| && buf == prefix + Zeros(|buf| - |prefix|)
  }

  method Append(buf: array<Byte>, offset: nat, ghost prefix: seq<Byte>, src: seq<Byte>) returns (next: nat)
    requires |prefix| == offset && offset + |src| <= buf.Length && Written(buf[..], prefix)
    modifies buf
    ensures next == offset + |src| && Written(buf[..], prefix + src)
  {
    CopyInto(buf, offset, src);
    next := offset + |src|;
  }

  /** Writes everything before the CRC, field by field at a moving offset. */
  method WriteCovered(buf: array<Byte>, f: PacketData) returns (offset: nat)
    requires buf.Length >= 1 + |Covered(f)| && Written(buf[..], [])
    modifies buf
    ensures offset == 1 + |Covered(f)| && Written(buf[..], [MAGIC] + Covered(f))
  {
    CoveredParts(f);
    hide OpcodeLen, SeqLen, HasBodyLen, UintBytes, LengthField, Written, Covered;
    var opcodeLen, seqLen := OpcodeLen(f.flags), SeqLen(f.flags);
    ghost var done: seq<Byte> := [];
    offset := Append(buf, 0, done, [MAGIC]);
    done := done + [MAGIC];
    offset := Append(buf, offset, done, [f.flags]);
    done := done + [f.flags];
    if HasBodyLen(f.flags) {
      offset := Append(buf, offset, done, LengthField(PayloadLen(f)));
      done := done + LengthField(PayloadLen(f));
    } else {
      done := done + [];
    }
    offset := Append(buf, offset, done, UintBytes(f.opcode, opcodeLen));
    done := done + UintBytes(f.opcode, opcodeLen);
    offset := Append(buf, offset, done, UintBytes(f.seqNo, seqLen));
    done := done + UintBytes(f.seqNo, seqLen);
    offset := Append(buf, offset, done, f.body);
    done := done + f.body;
  }

  lemma CoveredParts(f: PacketData)
    ensures [] + [MAGIC] + [f.flags] + (if HasBodyLen(f.flags) then LengthField(PayloadLen(f)) else [])
            + UintBytes(f.opcode, OpcodeLen(f.flags)) + UintBytes(f.seqNo, SeqLen(f.flags)) + f.body
         == [MAGIC] + Covered(f)
    ensures |Covered(f)| == 1 + (if HasBodyLen(f.flags) then 2 else 0) + OpcodeLen(f.flags) + SeqLen(f.flags) + |f.body|
  {
    hide OpcodeLen, SeqLen, HasBodyLen, UintBytes, LengthField;
  }

  /** Writes the CRC over the bytes between Magic and `offset`. */
  method WriteCrc(table: array<bv16>, buf: array<Byte>, f: PacketData, offset: nat)
    requires IsTable(table[..]) && buf.Length >= |Core(f)|
    requires offset == 1 + |Covered(f)| && Written(buf[..], [MAGIC] + Covered(f))
    modifies buf
    ensures Written(buf[..], Core(f))
  {
    hide CrcLen, CrcField, Covered, IsTable;
    var crcLen := CrcLen(f.flags);
    CrcWidths(f.flags);
    if crcLen > 0 {
      assert buf[1..offset] == Covered(f);
      var crcBytes := ComputeCrc(table, buf[1..offset], crcLen);
      var end := Append(buf, offset, [MAGIC] + Covered(f), crcBytes);
    } else {
      assert Core(f) == [MAGIC] + Covered(f);
    }
  }

  lemma CompleteFrame(buf: seq<Byte>, f: PacketData)
    requires Written(buf, Core(f)) && |buf| == |Core(f)| + PadLen(|Core(f)|)
    ensures buf == EncodeFrame(f)
  {}

  /** Allocates a zeroed buffer of the frame's size and fills it, refusing what `Validate`
      refuses. */
  method Encode(table: array<bv16>, f: PacketData) returns (r: EncodeResult)
    requires IsTable(table[..])
    ensures Validate(f.flags, |f.body| > 0) == Accepted <==> r.Encoded?
    ensures r.Encoded? <==> && (RequiresAck(f.flags) ==> SeqLen(f.flags) > 0 && IsRequest(f.flags))
                            && (f.body != [] ==> HasBodyLen(f.flags))
    ensures r.Encoded? ==> fresh(r.buf) && r.buf[..] == EncodeFrame(f)
    ensures r.Refused? ==> Validate(f.flags, |f.body| > 0) == Rejected(r.error)
  {
    hide Validate, OpcodeLen, SeqLen, CrcLen, HasBodyLen, CrcField, Covered, Core, EncodeFrame, IsTable;
    RefusedExactly(f.flags, |f.body| > 0);
    var validity := Validate(f.flags, |f.body| > 0);
    if validity.Rejected? {
      return Refused(validity.error);
    }
    CoreLength(f);
    CoreCoversFrame(f);
    var lengthField := if HasBodyLen(f.flags) then 2 else 0;
    var totalSize := 1 + 1 + lengthField + PayloadLen(f);
    var padLen := (4 - totalSize % 4) % 4;
    var buf := new Byte[totalSize + padLen](i => 0);
    assert Written(buf[..], []);
    var offset := WriteCovered(buf, f);
    WriteCrc(table, buf, f, offset);
    CompleteFrame(buf[..], f);
    r := Encoded(buf);
  }

  lemma CoreCoversFrame(f: PacketData)
    ensures |Core(f)| >= 1 + |Covered(f)|
  {}
}
