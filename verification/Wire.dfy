/** The frames the client and the server put on the wire (client/client.go:83-131,
    server/server.go:244-270). */
module Wire {
  import opened Bytes
  import opened Flags
  import opened Packet
  import opened Crc
  import opened Encoder
  import opened StreamParser
  import opened RoundTrip

  /** Widths and options of both ends. */
  datatype Config = Config(opcodeLen: Width, seqLen: nat, crc: bool, serverOpcodeLen: Width, handlers: set<bv32>)

  predicate ConfigOk(c: Config) {
    c.seqLen == 2 || c.seqLen == 4
  }

  function CrcWidth(c: Config): nat {
    if c.crc then 2 else 0
  }

  // ---------------------------------------------------------------------------
  // A sequence number as the 32-bit field of a frame
  // ---------------------------------------------------------------------------

  function FourBytes(n: nat): seq<Byte> {
    [ByteOf(n / 0x100_0000 % 256), ByteOf(n / 0x1_0000 % 256), ByteOf(n / 256 % 256), ByteOf(n % 256)]
  }

  function SeqField(n: nat): bv32 {
    ReadUint(FourBytes(n), 4)
  }

  function SeqOf(v: bv32): nat {
    v as nat
  }

  lemma Digits(n: nat)
    requires n < 0x1_0000_0000
    ensures n / 0x100_0000 % 256 * 0x100_0000 + n / 0x1_0000 % 256 * 0x1_0000 + n / 256 % 256 * 256 + n % 256 == n
  {
    var a := n / 256;
    var b := a / 256;
    var d := b / 256;
    assert a / 256 == n / 0x1_0000;
    assert b / 256 == n / 0x100_0000;
  }

  lemma SeqRoundTrip(n: nat)
    requires n < 0x1_0000_0000
    ensures SeqOf(SeqField(n)) == n
  {
    hide ByteOf, ReadUint;
    ReadUintValue(FourBytes(n), 4);
    ByteRoundTrip(n / 0x100_0000 % 256);
    ByteRoundTrip(n / 0x1_0000 % 256);
    ByteRoundTrip(n / 256 % 256);
    ByteRoundTrip(n % 256);
    Digits(n);
  }

  lemma SeqFieldFits(n: nat, w: Width)
    requires (w == 2 && n <= 0xFFFF) || (w == 4 && n < 0x1_0000_0000)
    ensures FitsField(SeqField(n), w)
  {
    hide ByteOf;
    if w == 2 {
      ZeroByte();
      assert FourBytes(n)[0] == 0 && FourBytes(n)[1] == 0;
      LowField(FourBytes(n));
    }
  }

  lemma ZeroByte()
    ensures ByteOf(0) == 0
  {}

  lemma LowField(s: seq<Byte>)
    requires |s| == 4 && s[0] == 0 && s[1] == 0
    ensures ReadUint(s, 4) <= 0xFFFF
  {}

  // ---------------------------------------------------------------------------
  // Requests and responses
  // ---------------------------------------------------------------------------

  function RequestPacket(c: Config, opcode: bv32, seqNo: nat, body: seq<Byte>): PacketData {
    PacketData(FlagsWith(Fields(false, true, |body| > 0, c.opcodeLen, c.seqLen, CrcWidth(c))),
               opcode, SeqField(seqNo), body)
  }

  function ResponsePacket(c: Config, request: PacketData, reply: seq<Byte>): PacketData {
    PacketData(FlagsWith(Fields(true, false, |reply| > 0, c.serverOpcodeLen, SeqLen(request.flags),
                                CrcLen(request.flags))),
               request.opcode, request.seqNo, reply)
  }

  /** The caller's side of the bargain: the opcode fits both ends' fields and the request fits
      the Length field. */
  predicate Sendable(c: Config, opcode: bv32, body: seq<Byte>) {
    FitsField(opcode, c.opcodeLen) && FitsField(opcode, c.serverOpcodeLen) &&
    c.opcodeLen + c.seqLen + |body| + CrcWidth(c) <= 65535
  }

  predicate Replyable(c: Config, reply: seq<Byte>) {
    c.serverOpcodeLen + c.seqLen + |reply| + CrcWidth(c) <= 65535
  }

  /** The request of `SendRequest`: the constructor's widths are overridden by the client's. */
  method BuildRequest(c: Config, opcode: bv32, seqNo: nat, body: seq<Byte>) returns (f: PacketData)
    requires ConfigOk(c)
    ensures f == RequestPacket(c, opcode, seqNo, body)
  {
    var fields := RequestFields(opcode, SeqField(seqNo), |body| > 0, true, c.crc);
    f := NewRequestPacket(opcode, SeqField(seqNo), body, true, c.crc);
    FlagsWithFields(fields);
    hide FlagsWith, FieldsOf, NoReservedWidth, SetOpcodeLen, SetSeqLen, SeqField;
    f := f.(flags := SetOpcodeLen(f.flags, c.opcodeLen));
    f := f.(flags := SetSeqLen(f.flags, c.seqLen));
    FlagsAreWith(f.flags, Fields(false, true, |body| > 0, c.opcodeLen, c.seqLen, CrcWidth(c)));
  }

  /** The response of `handleRequest` and `sendErrorResponse`. */
  method BuildResponse(c: Config, request: PacketData, reply: seq<Byte>) returns (f: PacketData)
    ensures f == ResponsePacket(c, request, reply)
  {
    hide SeqLen, CrcLen;
    var fields := ResponseFields(request.opcode, |reply| > 0, request.flags);
    f := NewResponsePacket(request.opcode, request.seqNo, reply, request.flags);
    CrcWidths(request.flags);
    FlagsWithFields(fields);
    hide FlagsWith, FieldsOf, NoReservedWidth, SetOpcodeLen;
    f := f.(flags := SetOpcodeLen(f.flags, c.serverOpcodeLen));
    FlagsAreWith(f.flags, fields.(opLen := c.serverOpcodeLen));
  }

  lemma RequestFlags(c: Config, opcode: bv32, seqNo: nat, body: seq<Byte>)
    requires ConfigOk(c)
    ensures FieldsOf(RequestPacket(c, opcode, seqNo, body).flags)
         == Fields(false, true, |body| > 0, c.opcodeLen, c.seqLen, CrcWidth(c))
  {
    FlagsWithFields(Fields(false, true, |body| > 0, c.opcodeLen, c.seqLen, CrcWidth(c)));
    hide FlagsWith, FieldsOf, SeqField;
  }

  lemma ResponseFlags(c: Config, request: PacketData, reply: seq<Byte>)
    ensures FieldsOf(ResponsePacket(c, request, reply).flags)
         == Fields(true, false, |reply| > 0, c.serverOpcodeLen, SeqLen(request.flags), CrcLen(request.flags))
  {
    CrcWidths(request.flags);
    FlagsWithFields(Fields(true, false, |reply| > 0, c.serverOpcodeLen, SeqLen(request.flags), CrcLen(request.flags)));
    hide FlagsWith, FieldsOf;
  }

  predicate SeqInRange(c: Config, seqNo: nat) {
    1 <= seqNo <= if c.seqLen == 2 then 65535 else 4294967295
  }

  lemma RequestWellFormed(c: Config, opcode: bv32, seqNo: nat, body: seq<Byte>)
    requires ConfigOk(c) && SeqInRange(c, seqNo) && Sendable(c, opcode, body)
    ensures WellFormed(RequestPacket(c, opcode, seqNo, body))
  {
    RequestFlags(c, opcode, seqNo, body);
    SeqFieldFits(seqNo, c.seqLen);
    hide FlagsWith, FitsField, SeqField;
  }

  lemma ResponseWellFormed(c: Config, opcode: bv32, seqNo: nat, body: seq<Byte>, reply: seq<Byte>)
    requires ConfigOk(c) && SeqInRange(c, seqNo) && Sendable(c, opcode, body) && Replyable(c, reply)
    ensures WellFormed(ResponsePacket(c, RequestPacket(c, opcode, seqNo, body), reply))
  {
    var request := RequestPacket(c, opcode, seqNo, body);
    RequestFlags(c, opcode, seqNo, body);
    ResponseFlags(c, request, reply);
    SeqFieldFits(seqNo, c.seqLen);
    hide FlagsWith, FitsField, SeqField;
  }

  /** A request reaches the server's loop as the request it was, marked as one. */
  lemma RequestDecodes(c: Config, opcode: bv32, seqNo: nat, body: seq<Byte>)
    requires ConfigOk(c) && SeqInRange(c, seqNo) && Sendable(c, opcode, body)
    ensures var f := RequestPacket(c, opcode, seqNo, body);
            Packets(EncodeFrame(f)) == [f] && IsRequest(f.flags) && RequiresAck(f.flags)
  {
    var f := RequestPacket(c, opcode, seqNo, body);
    RequestWellFormed(c, opcode, seqNo, body);
    RequestFlags(c, opcode, seqNo, body);
    hide FlagsWith, EncodeFrame, RequestPacket;
    RoundTripExactly(f);
  }

  /** A response reaches the client's loop as the response it was, under the request's number. */
  lemma ResponseDecodes(c: Config, opcode: bv32, seqNo: nat, body: seq<Byte>, reply: seq<Byte>)
    requires ConfigOk(c) && SeqInRange(c, seqNo) && Sendable(c, opcode, body) && Replyable(c, reply)
    ensures var f := ResponsePacket(c, RequestPacket(c, opcode, seqNo, body), reply);
            Packets(EncodeFrame(f)) == [f] && IsResponse(f.flags) && SeqOf(f.seqNo) == seqNo
  {
    var request := RequestPacket(c, opcode, seqNo, body);
    var f := ResponsePacket(c, request, reply);
    ResponseWellFormed(c, opcode, seqNo, body, reply);
    ResponseFlags(c, request, reply);
    SeqRoundTrip(seqNo);
    hide FlagsWith, EncodeFrame, SeqField, SeqOf;
    assert f.seqNo == SeqField(seqNo);
    RoundTripExactly(f);
  }

  /** What a request of `SendRequest` says: direction, acknowledgement, the client's widths and CRC
      option, the number, the opcode and the body. */
  lemma RequestSays(c: Config, opcode: bv32, seqNo: nat, body: seq<Byte>)
    requires ConfigOk(c) && SeqInRange(c, seqNo)
    ensures var f := RequestPacket(c, opcode, seqNo, body);
            && IsRequest(f.flags) && RequiresAck(f.flags) && HasBodyLen(f.flags) == (body != [])
            && OpcodeLen(f.flags) == c.opcodeLen && SeqLen(f.flags) == c.seqLen
            && CrcLen(f.flags) == (if c.crc then 2 else 0)
            && f.opcode == opcode && f.seqNo as nat == seqNo && f.body == body
  {
    RequestFlags(c, opcode, seqNo, body);
    SeqRoundTrip(seqNo);
    hide FlagsWith, SeqField;
  }

  /** What a response to it says: the server's opcode width, everything else as in the request. */
  lemma ResponseSays(c: Config, opcode: bv32, seqNo: nat, body: seq<Byte>, reply: seq<Byte>)
    requires ConfigOk(c) && SeqInRange(c, seqNo)
    ensures var f := ResponsePacket(c, RequestPacket(c, opcode, seqNo, body), reply);
            && IsResponse(f.flags) && !RequiresAck(f.flags) && HasBodyLen(f.flags) == (reply != [])
            && OpcodeLen(f.flags) == c.serverOpcodeLen && SeqLen(f.flags) == c.seqLen
            && CrcLen(f.flags) == (if c.crc then 2 else 0)
            && f.opcode == opcode && f.seqNo as nat == seqNo && f.body == reply
  {
    RequestFlags(c, opcode, seqNo, body);
    ResponseFlags(c, RequestPacket(c, opcode, seqNo, body), reply);
    SeqRoundTrip(seqNo);
    hide FlagsWith, SeqField;
  }
}
