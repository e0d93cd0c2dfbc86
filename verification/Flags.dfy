/** The one-byte Flags bitmap of a frame (flags.go, constants.go).

      bit 7     DIR       0 request, 1 response
      bit 6     ACK_REQ
      bit 5     BODY_LEN  a Length field is present
      bits 4-3  OP_LEN    00 none, 01 two bytes, 10 four bytes, 11 reserved
      bits 2-1  SEQ_LEN   likewise
      bit 0     CRC_LEN   a two-byte CRC is present */
module Flags {

  type FlagByte = bv8

  const FLAG_DIR: FlagByte := 0x80
  const FLAG_REQUIRES_ACK: FlagByte := 0x40
  const FLAG_BODY_LEN: FlagByte := 0x20
  const FLAG_OP_LEN_MASK: FlagByte := 0x18
  const FLAG_OP_LEN_2: FlagByte := 0x08
  const FLAG_OP_LEN_4: FlagByte := 0x10
  const FLAG_SEQ_LEN_MASK: FlagByte := 0x06
  const FLAG_SEQ_LEN_2: FlagByte := 0x02
  const FLAG_SEQ_LEN_4: FlagByte := 0x04
  const FLAG_CRC_LEN_MASK: FlagByte := 0x01
  const FLAG_CRC_LEN_2: FlagByte := 0x01

  datatype FlagsError = RequiresAckNoSeq | ResponseRequiresAck | BodyWithoutLength

  datatype Validity = Accepted | Rejected(error: FlagsError)

  predicate IsRequest(f: FlagByte) {
    f & FLAG_DIR == 0
  }

  predicate IsResponse(f: FlagByte) {
    f & FLAG_DIR != 0
  }

  predicate RequiresAck(f: FlagByte) {
    f & FLAG_REQUIRES_ACK != 0
  }

  predicate HasBodyLen(f: FlagByte) {
    f & FLAG_BODY_LEN != 0
  }

  /** A field width on the wire. */
  type Width = n: nat | n == 0 || n == 2 || n == 4

  function OpcodeLen(f: FlagByte): Width {
    var bits := f & FLAG_OP_LEN_MASK;
    if bits == FLAG_OP_LEN_2 then 2 else if bits == FLAG_OP_LEN_4 then 4 else 0
  }

  function SeqLen(f: FlagByte): Width {
    var bits := f & FLAG_SEQ_LEN_MASK;
    if bits == FLAG_SEQ_LEN_2 then 2 else if bits == FLAG_SEQ_LEN_4 then 4 else 0
  }

  function CrcLen(f: FlagByte): Width {
    if f & FLAG_CRC_LEN_MASK != 0 then 2 else 0
  }

  /** Everything a Flags byte says. */
  datatype Fields = Fields(resp: bool, ack: bool, bodyLen: bool, opLen: nat, seqLen: nat, crcLen: nat)

  function FieldsOf(f: FlagByte): Fields {
    Fields(IsResponse(f), RequiresAck(f), HasBodyLen(f), OpcodeLen(f), SeqLen(f), CrcLen(f))
  }

  /** The width a length argument selects: anything but 2 and 4 selects none. */
  function WidthOf(n: int): nat {
    if n == 2 || n == 4 then n else 0
  }

  /** Neither width uses its reserved code. */
  predicate NoReservedWidth(f: FlagByte) {
    f & FLAG_OP_LEN_MASK != FLAG_OP_LEN_MASK && f & FLAG_SEQ_LEN_MASK != FLAG_SEQ_LEN_MASK
  }

  // Every setter changes its own field, as asked, and no other, and never produces a
  // reserved width.

  function Clear(f: FlagByte, mask: FlagByte): FlagByte {
    f & (mask ^ 0xFF)
  }

  function SetDir(f: FlagByte, resp: bool): (g: FlagByte)
    ensures FieldsOf(g) == FieldsOf(f).(resp := resp)
    ensures NoReservedWidth(f) ==> NoReservedWidth(g)
  {
    if resp then f | FLAG_DIR else Clear(f, FLAG_DIR)
  }

  function SetRequiresAck(f: FlagByte, v: bool): (g: FlagByte)
    ensures FieldsOf(g) == FieldsOf(f).(ack := v)
    ensures NoReservedWidth(f) ==> NoReservedWidth(g)
  {
    if v then f | FLAG_REQUIRES_ACK else Clear(f, FLAG_REQUIRES_ACK)
  }

  function SetBodyLen(f: FlagByte, v: bool): (g: FlagByte)
    ensures FieldsOf(g) == FieldsOf(f).(bodyLen := v)
    ensures NoReservedWidth(f) ==> NoReservedWidth(g)
  {
    if v then f | FLAG_BODY_LEN else Clear(f, FLAG_BODY_LEN)
  }

  function SetOpcodeLen(f: FlagByte, n: int): (g: FlagByte)
    ensures FieldsOf(g) == FieldsOf(f).(opLen := WidthOf(n))
    ensures NoReservedWidth(f) ==> NoReservedWidth(g)
  {
    var g := Clear(f, FLAG_OP_LEN_MASK);
    if n == 2 then g | FLAG_OP_LEN_2 else if n == 4 then g | FLAG_OP_LEN_4 else g
  }

  function SetSeqLen(f: FlagByte, n: int): (g: FlagByte)
    ensures FieldsOf(g) == FieldsOf(f).(seqLen := WidthOf(n))
    ensures NoReservedWidth(f) ==> NoReservedWidth(g)
  {
    var g := Clear(f, FLAG_SEQ_LEN_MASK);
    if n == 2 then g | FLAG_SEQ_LEN_2 else if n == 4 then g | FLAG_SEQ_LEN_4 else g
  }

  function SetCrcLen(f: FlagByte, n: int): (g: FlagByte)
    ensures FieldsOf(g) == FieldsOf(f).(crcLen := if n > 0 then 2 else 0)
    ensures NoReservedWidth(f) ==> NoReservedWidth(g)
  {
    var g := Clear(f, FLAG_CRC_LEN_MASK);
    if n > 0 then g | FLAG_CRC_LEN_2 else g
  }

  function Validate(f: FlagByte, hasBody: bool): Validity {
    if RequiresAck(f) && SeqLen(f) == 0 then Rejected(RequiresAckNoSeq)
    else if IsResponse(f) && RequiresAck(f) then Rejected(ResponseRequiresAck)
    else if !HasBodyLen(f) && hasBody then Rejected(BodyWithoutLength)
    else Accepted
  }

  /** What the bits mean, by position: direction, acknowledgement and Length presence in bits 7 to
      5, the codes of the two widths in bits 4-3 and 2-1, the CRC in bit 0. */
  lemma BitLayout(f: FlagByte)
    ensures IsResponse(f) <==> f >> 7 == 1
    ensures IsRequest(f) <==> f >> 7 == 0
    ensures RequiresAck(f) <==> (f >> 6) & 1 == 1
    ensures HasBodyLen(f) <==> (f >> 5) & 1 == 1
    ensures OpcodeLen(f) == match (f >> 3) & 3 { case 1 => 2 case 2 => 4 case _ => 0 }
    ensures SeqLen(f) == match (f >> 1) & 3 { case 1 => 2 case 2 => 4 case _ => 0 }
    ensures CrcLen(f) == if f & 1 == 1 then 2 else 0
  {}

  /** Flags are refused exactly for an acknowledgement without a sequence number, a response that
      asks for one, or a body without a Length; the first of these that applies is reported. */
  lemma RefusedExactly(f: FlagByte, hasBody: bool)
    ensures Validate(f, hasBody) == Accepted <==>
              && (RequiresAck(f) ==> SeqLen(f) > 0 && IsRequest(f))
              && (hasBody ==> HasBodyLen(f))
    ensures Validate(f, hasBody) == Rejected(RequiresAckNoSeq) <==> RequiresAck(f) && SeqLen(f) == 0
    ensures Validate(f, hasBody) == Rejected(ResponseRequiresAck) <==>
              RequiresAck(f) && SeqLen(f) > 0 && IsResponse(f)
    ensures Validate(f, hasBody) == Rejected(BodyWithoutLength) <==>
              hasBody && !HasBodyLen(f) && (RequiresAck(f) ==> SeqLen(f) > 0 && IsRequest(f))
  {}

  /** The fields determine the byte, once the reserved widths are excluded. */
  lemma FieldsDetermineFlags(f: FlagByte, g: FlagByte)
    requires FieldsOf(f) == FieldsOf(g) && NoReservedWidth(f) && NoReservedWidth(g)
    ensures f == g
  {
    assert f & FLAG_OP_LEN_MASK == g & FLAG_OP_LEN_MASK;
    assert f & FLAG_SEQ_LEN_MASK == g & FLAG_SEQ_LEN_MASK;
  }
}
