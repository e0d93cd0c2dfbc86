/** Protocol frames, their constructors and their big-endian integer fields (packet.go). */
module Packet {
  import opened Flags
  import opened Bytes

  const MAGIC: Byte := 0x51

  /** The largest body the source documents (constants.go). */
  const MAX_BODY_LEN: nat := 65535 - 8

  datatype PacketData = PacketData(flags: FlagByte, opcode: bv32, seqNo: bv32, body: seq<Byte>)

  /** The narrowest width that holds a value. */
  function FieldLen(v: bv32): Width {
    if v == 0 then 0 else if v <= 0xFFFF then 2 else 4
  }

  /** The value survives a field of `n` bytes. */
  predicate FitsField(v: bv32, n: Width) {
    n == 4 || (n == 2 && v <= 0xFFFF) || v == 0
  }

  /** It holds the value and no narrower width does. */
  lemma FieldLenNarrowest(v: bv32)
    ensures FitsField(v, FieldLen(v))
    ensures forall n: Width | FitsField(v, n) :: FieldLen(v) <= n
  {}

  /** The Flags byte with the given fields. */
  function FlagsWith(fields: Fields): FlagByte {
    (if fields.resp then FLAG_DIR else 0) |
    (if fields.ack then FLAG_REQUIRES_ACK else 0) |
    (if fields.bodyLen then FLAG_BODY_LEN else 0) |
    (if fields.opLen == 2 then FLAG_OP_LEN_2 else if fields.opLen == 4 then FLAG_OP_LEN_4 else 0) |
    (if fields.seqLen == 2 then FLAG_SEQ_LEN_2 else if fields.seqLen == 4 then FLAG_SEQ_LEN_4 else 0) |
    (if fields.crcLen > 0 then FLAG_CRC_LEN_2 else 0)
  }

  predicate ValidFields(fields: Fields) {
    (fields.opLen == 0 || fields.opLen == 2 || fields.opLen == 4) &&
    (fields.seqLen == 0 || fields.seqLen == 2 || fields.seqLen == 4) &&
    (fields.crcLen == 0 || fields.crcLen == 2)
  }

  lemma FlagsWithFields(fields: Fields)
    requires ValidFields(fields)
    ensures FieldsOf(FlagsWith(fields)) == fields
    ensures NoReservedWidth(FlagsWith(fields))
  {}

  // ---------------------------------------------------------------------------
  // Constructors
  // ---------------------------------------------------------------------------

  function RequestFields(opcode: bv32, seqNo: bv32, hasBody: bool, requiresAck: bool, crc: bool): Fields {
    var narrow := FieldLen(seqNo);
    Fields(false, requiresAck, hasBody, FieldLen(opcode),
           if requiresAck && narrow == 0 then 2 else narrow, if crc then 2 else 0)
  }

  function ResponseFields(opcode: bv32, hasBody: bool, request: FlagByte): Fields {
    Fields(true, false, hasBody, FieldLen(opcode), SeqLen(request), CrcLen(request))
  }

  function NotificationFields(opcode: bv32, hasBody: bool, crc: bool): Fields {
    Fields(false, false, hasBody, FieldLen(opcode), 0, if crc then 2 else 0)
  }

  /** A packet whose flags are accepted and whose values fit their fields. */
  predicate Consistent(f: PacketData) {
    Validate(f.flags, |f.body| > 0) == Accepted &&
    FitsField(f.opcode, OpcodeLen(f.flags)) &&
    FitsField(f.seqNo, SeqLen(f.flags))
  }

  lemma FlagsAreWith(f: FlagByte, fields: Fields)
    requires ValidFields(fields) && FieldsOf(f) == fields && NoReservedWidth(f)
    ensures f == FlagsWith(fields)
  {
    FlagsWithFields(fields);
    hide FlagsWith;
    FieldsDetermineFlags(f, FlagsWith(fields));
  }

  lemma FieldsRead(f: FlagByte)
    ensures FieldsOf(f) ==
              Fields(!IsRequest(f), RequiresAck(f), HasBodyLen(f), OpcodeLen(f), SeqLen(f), CrcLen(f))
    ensures IsResponse(f) == !IsRequest(f)
  {}

  lemma NoFlags()
    ensures FieldsOf(0) == Fields(false, false, false, 0, 0, 0) && NoReservedWidth(0)
  {}

  method NewRequestPacket(opcode: bv32, seqNo: bv32, body: seq<Byte>, requiresAck: bool, crc: bool)
    returns (f: PacketData)
    ensures f == PacketData(FlagsWith(RequestFields(opcode, seqNo, |body| > 0, requiresAck, crc)), opcode, seqNo, body)
    ensures IsRequest(f.flags) && RequiresAck(f.flags) == requiresAck && HasBodyLen(f.flags) == (|body| > 0)
    ensures OpcodeLen(f.flags) == FieldLen(opcode) && CrcLen(f.flags) == if crc then 2 else 0
    ensures SeqLen(f.flags) == if requiresAck && seqNo == 0 then 2 else FieldLen(seqNo)
  {
    hide FieldsOf, NoReservedWidth, SetDir, SetRequiresAck, SetBodyLen, SetOpcodeLen, SetSeqLen, SetCrcLen, FlagsWith;
    NoFlags();
    f := PacketData(0, opcode, seqNo, body);
    var opLen := FieldLen(opcode);
    var seqLen: nat := FieldLen(seqNo);
    f := f.(flags := SetDir(f.flags, false));
    f := f.(flags := SetOpcodeLen(f.flags, opLen));
    f := f.(flags := SetBodyLen(f.flags, |body| > 0));
    if requiresAck {
      if seqLen == 0 {
        seqLen := 2;
      }
      f := f.(flags := SetRequiresAck(f.flags, true));
    }
    f := f.(flags := SetSeqLen(f.flags, seqLen));
    if crc {
      f := f.(flags := SetCrcLen(f.flags, 2));
    }
    FieldsRead(f.flags);
    FlagsAreWith(f.flags, RequestFields(opcode, seqNo, |body| > 0, requiresAck, crc));
  }

  method NewResponsePacket(opcode: bv32, seqNo: bv32, body: seq<Byte>, request: FlagByte) returns (f: PacketData)
    ensures f == PacketData(FlagsWith(ResponseFields(opcode, |body| > 0, request)), opcode, seqNo, body)
    ensures IsResponse(f.flags) && !RequiresAck(f.flags) && HasBodyLen(f.flags) == (|body| > 0)
    ensures OpcodeLen(f.flags) == FieldLen(opcode) && SeqLen(f.flags) == SeqLen(request)
    ensures CrcLen(f.flags) == CrcLen(request)
  {
    hide FieldsOf, NoReservedWidth, SetDir, SetRequiresAck, SetBodyLen, SetOpcodeLen, SetSeqLen, SetCrcLen, FlagsWith;
    hide SeqLen, CrcLen;
    NoFlags();
    f := PacketData(0, opcode, seqNo, body);
    var opLen := FieldLen(opcode);
    var seqLen := SeqLen(request);
    f := f.(flags := SetDir(f.flags, true));
    f := f.(flags := SetRequiresAck(f.flags, false));
    f := f.(flags := SetOpcodeLen(f.flags, opLen));
    f := f.(flags := SetSeqLen(f.flags, seqLen));
    f := f.(flags := SetBodyLen(f.flags, |body| > 0));
    if CrcLen(request) > 0 {
      f := f.(flags := SetCrcLen(f.flags, CrcLen(request)));
    }
    CrcWidths(request);
    FieldsRead(f.flags);
    FlagsAreWith(f.flags, ResponseFields(opcode, |body| > 0, request));
  }

  lemma CrcWidths(f: FlagByte)
    ensures CrcLen(f) == 0 || CrcLen(f) == 2
  {}

  method NewNotificationPacket(opcode: bv32, body: seq<Byte>, crc: bool) returns (f: PacketData)
    ensures f == PacketData(FlagsWith(NotificationFields(opcode, |body| > 0, crc)), opcode, 0, body)
    ensures IsRequest(f.flags) && !RequiresAck(f.flags) && HasBodyLen(f.flags) == (|body| > 0)
    ensures OpcodeLen(f.flags) == FieldLen(opcode) && SeqLen(f.flags) == 0
    ensures CrcLen(f.flags) == if crc then 2 else 0
  {
    hide FieldsOf, NoReservedWidth, SetDir, SetRequiresAck, SetBodyLen, SetOpcodeLen, SetSeqLen, SetCrcLen, FlagsWith;
    NoFlags();
    f := PacketData(0, opcode, 0, body);
    var opLen := FieldLen(opcode);
    f := f.(flags := SetDir(f.flags, false));
    f := f.(flags := SetRequiresAck(f.flags, false));
    f := f.(flags := SetOpcodeLen(f.flags, opLen));
    f := f.(flags := SetSeqLen(f.flags, 0));
    f := f.(flags := SetBodyLen(f.flags, |body| > 0));
    if crc {
      f := f.(flags := SetCrcLen(f.flags, 2));
    }
    FieldsRead(f.flags);
    FlagsAreWith(f.flags, NotificationFields(opcode, |body| > 0, crc));
  }

  /** Request packets are always consistent. */
  lemma RequestConsistent(opcode: bv32, seqNo: bv32, body: seq<Byte>, requiresAck: bool, crc: bool)
    ensures Consistent(PacketData(FlagsWith(RequestFields(opcode, seqNo, |body| > 0, requiresAck, crc)),
                                  opcode, seqNo, body))
  {
    FlagsWithFields(RequestFields(opcode, seqNo, |body| > 0, requiresAck, crc));
    hide FlagsWith;
  }

  /** Response packets are consistent exactly when the sequence number fits the width the
      request used. */
  lemma ResponseConsistentExactly(opcode: bv32, seqNo: bv32, body: seq<Byte>, request: FlagByte)
    ensures Consistent(PacketData(FlagsWith(ResponseFields(opcode, |body| > 0, request)), opcode, seqNo, body))
       <==> FitsField(seqNo, SeqLen(request))
  {
    CrcWidths(request);
    FlagsWithFields(ResponseFields(opcode, |body| > 0, request));
    hide FlagsWith;
  }

  lemma NotificationConsistent(opcode: bv32, body: seq<Byte>, crc: bool)
    ensures Consistent(PacketData(FlagsWith(NotificationFields(opcode, |body| > 0, crc)), opcode, 0, body))
  {
    FlagsWithFields(NotificationFields(opcode, |body| > 0, crc));
    hide FlagsWith;
  }

  // ---------------------------------------------------------------------------
  // Big-endian integers
  // ---------------------------------------------------------------------------

  function UintBytes(v: bv32, n: Width): (s: seq<Byte>)
    ensures |s| == n
  {
    if n == 2 then [((v >> 8) & 0xFF) as Byte, (v & 0xFF) as Byte]
    else if n == 4 then
      [((v >> 24) & 0xFF) as Byte, ((v >> 16) & 0xFF) as Byte, ((v >> 8) & 0xFF) as Byte, (v & 0xFF) as Byte]
    else []
  }

  function ReadUint(s: seq<Byte>, n: Width): bv32
    requires |s| >= n
  {
    if n == 2 then ((s[0] as bv32) << 8) | (s[1] as bv32)
    else if n == 4 then ((s[0] as bv32) << 24) | ((s[1] as bv32) << 16) | ((s[2] as bv32) << 8) | (s[3] as bv32)
    else 0
  }

  /** Reading back a written value returns it exactly when it fits the field. */
  lemma ReadAfterWrite(v: bv32, n: Width, rest: seq<Byte>)
    ensures ReadUint(UintBytes(v, n) + rest, n) == v <==> FitsField(v, n)
    ensures FitsField(ReadUint(UintBytes(v, n) + rest, n), n)
  {
    hide ReadUint, UintBytes;
    if n == 2 {
      ReadTwo(v, rest);
      LowHalf(v);
    } else if n == 4 {
      ReadFour(v, rest);
    } else {
      ReadNone(v, rest);
    }
  }

  lemma ReadTwo(v: bv32, rest: seq<Byte>)
    ensures ReadUint(UintBytes(v, 2) + rest, 2) == v & 0xFFFF
  {}

  lemma ReadFour(v: bv32, rest: seq<Byte>)
    ensures ReadUint(UintBytes(v, 4) + rest, 4) == v
  {}

  lemma ReadNone(v: bv32, rest: seq<Byte>)
    ensures ReadUint(UintBytes(v, 0) + rest, 0) == 0
  {}

  lemma LowHalf(v: bv32)
    ensures v & 0xFFFF == v <==> v <= 0xFFFF
    ensures v & 0xFFFF <= 0xFFFF
  {}

  /** Writing back a value that was read gives the same bytes. */
  lemma WriteAfterRead(s: seq<Byte>, n: Width)
    requires |s| >= n
    ensures UintBytes(ReadUint(s, n), n) == s[..n]
    ensures FitsField(ReadUint(s, n), n)
  {}

  /** The bytes of an integer field, the most significant first, read as a number. */
  lemma ReadUintValue(s: seq<Byte>, n: Width)
    requires |s| >= n
    ensures n == 0 ==> ReadUint(s, n) as nat == 0
    ensures n == 2 ==> ReadUint(s, n) as nat == s[0] as nat * 256 + s[1] as nat
    ensures n == 4 ==> ReadUint(s, n) as nat == s[0] as nat * 0x100_0000 + s[1] as nat * 0x1_0000
                                                + s[2] as nat * 256 + s[3] as nat
  {
    if n == 2 {
      TwoBytesValue(s[0], s[1]);
    } else if n == 4 {
      FourBytesValue(s[0], s[1], s[2], s[3]);
    }
  }

  lemma TwoBytesValue(a: Byte, b: Byte)
    ensures (((a as bv32) << 8) | (b as bv32)) as nat == a as nat * 256 + b as nat
  {}

  lemma FourBytesValue(a: Byte, b: Byte, c: Byte, d: Byte)
    ensures (((a as bv32) << 24) | ((b as bv32) << 16) | ((c as bv32) << 8) | (d as bv32)) as nat
         == a as nat * 0x100_0000 + b as nat * 0x1_0000 + c as nat * 256 + d as nat
  {}

  /** An integer field holds its value with the most significant byte first, modulo its width. */
  lemma UintBytesValue(v: bv32, n: Width)
    ensures n == 2 ==> UintBytes(v, n)[0] as nat * 256 + UintBytes(v, n)[1] as nat == v as nat % 65536
    ensures n == 4 ==> v as nat == UintBytes(v, n)[0] as nat * 0x100_0000 + UintBytes(v, n)[1] as nat * 0x1_0000
                                   + UintBytes(v, n)[2] as nat * 256 + UintBytes(v, n)[3] as nat
  {
    hide UintBytes;
    WholeValue(v);
    if n == 2 {
      LowBytesValue(v, v as nat);
    }
  }

  lemma LowBytesValue(v: bv32, x: nat)
    requires x == UintBytes(v, 4)[0] as nat * 0x100_0000 + UintBytes(v, 4)[1] as nat * 0x1_0000
                  + UintBytes(v, 4)[2] as nat * 256 + UintBytes(v, 4)[3] as nat
    ensures UintBytes(v, 2)[0] as nat * 256 + UintBytes(v, 2)[1] as nat == x % 65536
  {
    hide UintBytes;
    LowBytes(v);
    var s := UintBytes(v, 4);
    assert s[2..][0] == s[2] && s[2..][1] == s[3];
    LowWord(x, s[0] as nat, s[1] as nat, s[2] as nat, s[3] as nat);
  }

  lemma WholeValue(v: bv32)
    ensures v as nat == UintBytes(v, 4)[0] as nat * 0x100_0000 + UintBytes(v, 4)[1] as nat * 0x1_0000
                        + UintBytes(v, 4)[2] as nat * 256 + UintBytes(v, 4)[3] as nat
  {
    hide UintBytes, ReadUint;
    var s := UintBytes(v, 4);
    assert s + [] == s;
    ReadFour(v, []);
    ReadUintValue(s, 4);
  }

  lemma LowWord(v: nat, a: nat, b: nat, c: nat, d: nat)
    requires v == a * 0x100_0000 + b * 0x1_0000 + c * 256 + d && c < 256 && d < 256
    ensures v % 65536 == c * 256 + d
  {
    assert v == (a * 256 + b) * 65536 + (c * 256 + d);
  }

  lemma LowBytes(v: bv32)
    ensures UintBytes(v, 2) == UintBytes(v, 4)[2..]
  {}

  /** Writes an integer into a buffer at an offset. */
  method PutUintN(buf: array<Byte>, offset: nat, v: bv32, n: Width)
    requires offset + n <= buf.Length
    modifies buf
    ensures buf[..] == old(buf[..offset]) + UintBytes(v, n) + old(buf[offset + n..])
    ensures n == 2 ==> buf[offset] as nat * 256 + buf[offset + 1] as nat == v as nat % 65536
    ensures n == 4 ==> v as nat == buf[offset] as nat * 0x100_0000 + buf[offset + 1] as nat * 0x1_0000
                                   + buf[offset + 2] as nat * 256 + buf[offset + 3] as nat
  {
    UintBytesValue(v, n);
    hide UintBytes;
    var bytes := UintBytes(v, n);
    for i := 0 to n
      invariant forall k | 0 <= k < buf.Length ::
              buf[k] == if offset <= k < offset + i then bytes[k - offset] else old(buf[k])
    {
      buf[offset + i] := bytes[i];
    }
  }
}
