/** The streaming decoder (conn/decoder.go): an eight-state machine over a growable buffer
    with absolute indices, which survives partial reads and reader errors, drops bad frames
    and compacts in place.  It is proved to return the packets of the one-shot parser for
    every way the bytes arrive. */
module Reading {
  import opened Bytes

  /** How a read ends: normally, at end of stream, or with a transient error. */
  datatype Status = Fine | Eof | Fault

  /** What one call of the underlying reader delivers, if the caller has room for it. */
  datatype ReadEvent = ReadEvent(data: seq<Byte>, status: Status)

  function Unread(script: seq<ReadEvent>): seq<Byte> {
    if script == [] then [] else script[0].data + Unread(script[1..])
  }

  ghost predicate NoEof(script: seq<ReadEvent>) {
    forall e | e in script :: e.status != Eof
  }

  /** What reading changes: bytes move from the script to `taken`. */
  ghost predicate Took(taken0: seq<Byte>, script0: seq<ReadEvent>, taken: seq<Byte>, script: seq<ReadEvent>) {
    taken0 <= taken && |script| <= |script0| &&
    taken[|taken0|..] + Unread(script) == Unread(script0) &&
    (NoEof(script0) ==> NoEof(script))
  }

  /** A fault uses up an event; end of stream means the script is over, unless it has an
      early end of stream in it. */
  ghost predicate FailureOk(status: Status, script0: seq<ReadEvent>, script: seq<ReadEvent>) {
    (status == Fault ==> |script| < |script0|) &&
    (status == Eof && NoEof(script0) ==> script == [])
  }

  method CopyInto(p: array<Byte>, from: nat, data: seq<Byte>)
    requires from + |data| <= p.Length
    modifies p
    ensures p[..from] == old(p[..from]) && p[from..from + |data|] == data
  {
    for i := 0 to |data|
      invariant p[..from] == old(p[..from])
      invariant p[from..from + i] == data[..i]
    {
      p[from + i] := data[i];
    }
  }

  /** An `io.Reader` whose behaviour is an arbitrary script; after it, end of stream. */
  class Reader {
    var script: seq<ReadEvent>
    ghost var taken: seq<Byte>  // everything handed out so far

    constructor (script: seq<ReadEvent>)
      ensures this.script == script && taken == []
    {
      this.script := script;
      taken := [];
    }

    /** Delivers bytes into `p` from `from` on, at most as many as fit. */
    method Read(p: array<Byte>, from: nat) returns (n: nat, status: Status)
      requires from < p.Length
      modifies this, p
      ensures from + n <= p.Length && p[..from] == old(p[..from])
      ensures taken == old(taken) + p[from..from + n]
      ensures p[from..from + n] + Unread(script) == old(Unread(script))
      ensures |script| <= |old(script)|
      ensures |Unread(script)| + |script| < |Unread(old(script))| + |old(script)| ||
              (old(script) == [] && status == Eof)
      ensures status == Fault ==> |script| < |old(script)|
      ensures NoEof(old(script)) ==> NoEof(script) && (status == Eof ==> script == [])
    {
      if script == [] {
        return 0, Eof;
      }
      var event := script[0];
      var room := p.Length - from;
      n := if |event.data| <= room then |event.data| else room;
      CopyInto(p, from, event.data[..n]);
      taken := taken + event.data[..n];
      if n < |event.data| {
        script := [event.(data := event.data[n..])] + script[1..];
        assert script[1..] == old(script)[1..];
        status := Fine;
      } else {
        script := script[1..];
        status := event.status;
      }
    }
  }
}

module Decoding {
  import opened Bytes
  import opened Flags
  import opened Packet
  import opened Crc
  import opened StreamParser
  import opened Reading

  const READ_BUFFER_SIZE: nat := 4096

  datatype State = WantMagic | WantFlags | WantLength | WantOpcode | WantSeq | WantBody | WantCrc | WantPadding

  /** States left in the current frame. */
  function Rank(s: State): nat {
    match s
    case WantMagic => 8
    case WantFlags => 7
    case WantLength => 6
    case WantOpcode => 5
    case WantSeq => 4
    case WantBody => 3
    case WantCrc => 2
    case WantPadding => 1
  }

  datatype DecodeResult = Decoded(packet: PacketData) | Failed(status: Status)

  /** What one turn of the state machine does. */
  datatype Turn = Continue | Return(result: DecodeResult)

  /** A turn that started with `before` unparsed bytes, including those it read. */
  ghost predicate TurnOk(before: seq<Byte>, after: seq<Byte>, turn: Turn, rank: nat, rank': nat) {
    match turn
    case Continue =>
      (after == before && rank' < rank) ||
      (Scan(before).Skip? && after == before[Scan(before).n..])
    case Return(Decoded(packet)) =>
      Scan(before).Frame? && packet == Scan(before).packet && after == before[Scan(before).n..]
    case Return(Failed(status)) =>
      after == before && status != Fine && (status == Eof ==> Scan(before) == NeedMore)
  }

  /** Bytes a frame header claims, seen from the start of the frame. */
  ghost predicate HeaderSeen(s: seq<Byte>, f: FlagByte, bodyLen: nat) {
    |s| >= HeaderLen(f) && s[0] == MAGIC && s[1] == f &&
    if HasBodyLen(f) then ReadLength(s[2..4]) == bodyLen + MinPayload(f) else bodyLen == 0
  }

  lemma ScanAfterHeader(s: seq<Byte>, f: FlagByte, bodyLen: nat)
    requires HeaderSeen(s, f, bodyLen)
    ensures Scan(s) == Complete(s, f, bodyLen)
  {}

  lemma BuildPrefix(s: seq<Byte>, n: nat, f: FlagByte, bodyLen: nat)
    requires CoreLen(f, bodyLen) <= n <= |s|
    ensures Build(s[..n], f, bodyLen) == Build(s, f, bodyLen)
  {
    hide CrcField, Validate, OpcodeLen, SeqLen, CrcLen, HasBodyLen, ReadUint;
    var opcodeAt := HeaderLen(f);
    var seqAt := opcodeAt + OpcodeLen(f);
    var bodyAt := seqAt + SeqLen(f);
    var crcAt := bodyAt + bodyLen;
    PrefixSlice(s, n, 1, crcAt);
    PrefixSlice(s, n, bodyAt, crcAt);
    PrefixSlice(s, n, crcAt, crcAt + CrcLen(f));
    ReadPrefix(s, n, opcodeAt, OpcodeLen(f));
    ReadPrefix(s, n, seqAt, SeqLen(f));
  }

  lemma ReadPrefix(s: seq<Byte>, n: nat, i: nat, w: Width)
    requires i + w <= n <= |s|
    ensures ReadUint(s[..n][i..], w) == ReadUint(s[i..], w)
  {}

  /** The parsing position inside the buffered bytes. */
  datatype Cursor = Cursor(state: State, f: FlagByte, opcodeLen: nat, seqLen: nat, crcLen: nat, hasBodyLen: bool,
                           bodyLen: nat, start: nat, pos: nat)

  /** How far into the frame a cursor stands. */
  ghost function Offset(c: Cursor): nat {
    match c.state
    case WantMagic => 0
    case WantFlags => 1
    case WantLength => 2
    case WantOpcode => HeaderLen(c.f)
    case WantSeq => HeaderLen(c.f) + OpcodeLen(c.f)
    case WantBody => HeaderLen(c.f) + OpcodeLen(c.f) + SeqLen(c.f)
    case WantCrc => HeaderLen(c.f) + OpcodeLen(c.f) + SeqLen(c.f) + c.bodyLen
    case WantPadding => CoreLen(c.f, c.bodyLen)
  }

  /** The buffered bytes that are not yet parsed: from the start of the current frame. */
  ghost function Left(c: Cursor, data: seq<Byte>): seq<Byte> {
    var from := if c.state == WantMagic then c.pos else c.start;
    if from <= |data| then data[from..] else []
  }

  ghost predicate LengthsMatch(c: Cursor) {
    c.opcodeLen == OpcodeLen(c.f) && c.seqLen == SeqLen(c.f) &&
    c.crcLen == CrcLen(c.f) && c.hasBodyLen == HasBodyLen(c.f)
  }

  /** The cursor's fields agree with the bytes it has passed. */
  ghost predicate Placed(c: Cursor, data: seq<Byte>) {
    c.pos <= |data| &&
    (c.state != WantMagic ==> c.pos == c.start + Offset(c) && data[c.start] == MAGIC) &&
    (c.state == WantMagic || c.state == WantFlags || c.state == WantLength ==> c.bodyLen == 0) &&
    (c.state == WantLength ==> c.hasBodyLen) &&
    (c.state == WantBody ==> c.bodyLen > 0) &&
    (Rank(c.state) <= 6 ==> LengthsMatch(c) && data[c.start + 1] == c.f) &&
    (Rank(c.state) <= 5 ==> HeaderSeen(Left(c, data), c.f, c.bodyLen))
  }

  lemma PlacedExtends(c: Cursor, data: seq<Byte>, more: seq<Byte>)
    requires Placed(c, data)
    ensures Placed(c, data + more) && Left(c, data + more) == Left(c, data) + more
  {
    hide HeaderSeen, OpcodeLen, SeqLen, CrcLen, HasBodyLen;
    assert Left(c, data + more) == Left(c, data) + more;
    if Rank(c.state) <= 5 {
      HeaderSeenExtends(Left(c, data), more, c.f, c.bodyLen);
    }
  }

  /** The bytes the machine asks for before it leaves a state. */
  ghost function Needs(c: Cursor): nat {
    match c.state
    case WantMagic => 1
    case WantFlags => 1
    case WantLength => 2
    case WantOpcode => OpcodeLen(c.f)
    case WantSeq => SeqLen(c.f)
    case WantBody => c.bodyLen
    case WantCrc => CrcLen(c.f)
    case WantPadding => PadLen(CoreLen(c.f, c.bodyLen))
  }

  /** When a state's bytes are missing, no frame is complete. */
  lemma ShortIsNeedMore(c: Cursor, data: seq<Byte>)
    requires Placed(c, data) && |data| - c.pos < Needs(c)
    ensures Scan(Left(c, data)) == NeedMore
  {
    hide HeaderSeen, OpcodeLen, SeqLen, CrcLen, Build;
    if Rank(c.state) <= 5 {
      ScanAfterHeader(Left(c, data), c.f, c.bodyLen);
    }
  }

  lemma MagicTurn(c: Cursor, data: seq<Byte>, c': Cursor)
    requires Placed(c, data) && c.state == WantMagic && c.pos < |data|
    requires c' == if data[c.pos] != MAGIC then c.(pos := c.pos + 1)
                   else c.(start := c.pos, pos := c.pos + 1, state := WantFlags)
    ensures Placed(c', data) && TurnOk(Left(c, data), Left(c', data), Continue, Rank(c.state), Rank(c'.state))
  {
    hide HeaderSeen, Complete;
  }

  lemma FlagsTurn(c: Cursor, data: seq<Byte>, c': Cursor)
    requires Placed(c, data) && c.state == WantFlags && c.pos < |data|
    requires var f := data[c.start + 1];
             c' == c.(f := f, pos := c.start + 2, hasBodyLen := HasBodyLen(f), opcodeLen := OpcodeLen(f),
                      seqLen := SeqLen(f), crcLen := CrcLen(f),
                      state := if HasBodyLen(f) then WantLength else WantOpcode)
    ensures Placed(c', data) && TurnOk(Left(c, data), Left(c', data), Continue, Rank(c.state), Rank(c'.state))
  {
    hide OpcodeLen, SeqLen, CrcLen, Scan;
  }

  lemma LengthTurn(c: Cursor, data: seq<Byte>, c': Cursor)
    requires Placed(c, data) && c.state == WantLength && |data| - c.pos >= 2
    requires var length := ReadLength(data[c.start + 2..c.start + 4]);
             c'.pos == c.start + 4 &&
             if length < MinPayload(c.f) then c'.state == WantMagic && c'.bodyLen == 0
             else c' == c.(pos := c.start + 4, bodyLen := length - MinPayload(c.f), state := WantOpcode)
    ensures Placed(c', data) && TurnOk(Left(c, data), Left(c', data), Continue, Rank(c.state), Rank(c'.state))
  {
    hide OpcodeLen, SeqLen, CrcLen, Complete, ReadLength;
    assert Left(c, data)[2..4] == data[c.start + 2..c.start + 4];
  }

  /** Opcode, Seq, Body and CRC are only stepped over. */
  lemma FieldTurn(c: Cursor, data: seq<Byte>, c': Cursor)
    requires Placed(c, data) && 2 <= Rank(c.state) <= 5 && |data| - c.pos >= Needs(c)
    requires c' == c.(pos := c.pos + Needs(c), state := match c.state
               case WantOpcode => WantSeq
               case WantSeq => if c.bodyLen > 0 then WantBody else WantCrc
               case WantBody => WantCrc
               case _ => WantPadding)
    ensures Placed(c', data) && TurnOk(Left(c, data), Left(c', data), Continue, Rank(c.state), Rank(c'.state))
  {
    hide OpcodeLen, SeqLen, CrcLen, HeaderSeen, Scan;
    assert Left(c, data) == Left(c', data);
  }

  /** A complete frame is returned or dropped as a whole. */
  lemma PaddingTurn(c: Cursor, data: seq<Byte>, rest: seq<Byte>, turn: Turn, rank': nat)
    requires Placed(c, data) && c.state == WantPadding && |data| - c.pos >= Needs(c)
    requires rest == data[c.pos + Needs(c)..]
    requires turn == match Build(Left(c, data), c.f, c.bodyLen)
             case Good(packet) => Return(Decoded(packet))
             case Bad => Continue
    ensures TurnOk(Left(c, data), rest, turn, Rank(c.state), rank')
  {
    hide HeaderSeen, OpcodeLen, SeqLen, CrcLen, Build, CoreLen;
    var s, n := Left(c, data), FrameLen(c.f, c.bodyLen);
    ScanAfterHeader(s, c.f, c.bodyLen);
    BuildPrefix(s, n, c.f, c.bodyLen);
    assert rest == s[n..];
  }

  lemma PaddingPosition(c: Cursor, data: seq<Byte>)
    requires Placed(c, data) && c.state == WantPadding
    ensures c.start <= c.pos <= |data| && c.pos == c.start + CoreLen(c.f, c.bodyLen)
    ensures Needs(c) == PadLen(c.pos - c.start) && LengthsMatch(c)
    ensures Left(c, data) == data[c.start..]
  {}

  /** The frame made of these slices, if its CRC and Flags are right. */
  function BuiltFrom(f: FlagByte, fromOpcode: seq<Byte>, fromSeq: seq<Byte>, body: seq<Byte>,
                     covered: seq<Byte>, field: seq<Byte>): Built
    requires |fromOpcode| >= OpcodeLen(f) && |fromSeq| >= SeqLen(f)
  {
    if field == CrcField(covered, CrcLen(f)) && Validate(f, |body| > 0) == Accepted
    then Good(PacketData(f, ReadUint(fromOpcode, OpcodeLen(f)), ReadUint(fromSeq, SeqLen(f)), body))
    else Bad
  }

  /** `Build` by positions in the whole buffer. */
  lemma BuildAt(data: seq<Byte>, start: nat, f: FlagByte, bodyLen: nat)
    requires start + CoreLen(f, bodyLen) <= |data|
    ensures var opcodeAt := start + HeaderLen(f);
            var seqAt := opcodeAt + OpcodeLen(f);
            var bodyAt := seqAt + SeqLen(f);
            var crcAt := bodyAt + bodyLen;
            Build(data[start..], f, bodyLen) ==
            BuiltFrom(f, data[opcodeAt..], data[seqAt..], data[bodyAt..crcAt], data[start + 1..crcAt],
                      data[crcAt..crcAt + CrcLen(f)])
  {
    hide Build, BuiltFrom, OpcodeLen, SeqLen, CrcLen, CrcField, Validate, ReadUint;
    var opcodeAt := start + HeaderLen(f);
    var seqAt := opcodeAt + OpcodeLen(f);
    var bodyAt := seqAt + SeqLen(f);
    var crcAt := bodyAt + bodyLen;
    var end := crcAt + CrcLen(f);
    Shifted(data, start, opcodeAt, end);
    Shifted(data, start, seqAt, end);
    Shifted(data, start, bodyAt, crcAt);
    Shifted(data, start, start + 1, crcAt);
    Shifted(data, start, crcAt, end);
    BuildFrom(data[start..], f, bodyLen, data[opcodeAt..], data[seqAt..], data[bodyAt..crcAt],
              data[start + 1..crcAt], data[crcAt..end]);
  }

  /** `Build` by the slices it looks at. */
  lemma BuildFrom(c: seq<Byte>, f: FlagByte, bodyLen: nat, fromOpcode: seq<Byte>, fromSeq: seq<Byte>,
                  body: seq<Byte>, covered: seq<Byte>, field: seq<Byte>)
    requires |c| >= CoreLen(f, bodyLen)
    requires var opcodeAt := HeaderLen(f);
             var seqAt := opcodeAt + OpcodeLen(f);
             var bodyAt := seqAt + SeqLen(f);
             var crcAt := bodyAt + bodyLen;
             && c[opcodeAt..] == fromOpcode && c[seqAt..] == fromSeq && c[bodyAt..crcAt] == body
             && c[1..crcAt] == covered && c[crcAt..crcAt + CrcLen(f)] == field
    ensures |fromOpcode| >= OpcodeLen(f) && |fromSeq| >= SeqLen(f)
    ensures Build(c, f, bodyLen) == BuiltFrom(f, fromOpcode, fromSeq, body, covered, field)
  {
    hide OpcodeLen, SeqLen, CrcLen, HeaderLen, CrcField, Validate, ReadUint;
  }

  lemma Shifted(data: seq<Byte>, start: nat, i: nat, j: nat)
    requires start <= i <= j <= |data|
    ensures data[start..][i - start..j - start] == data[i..j]
    ensures data[start..][i - start..] == data[i..]
  {}

  lemma NoCrc(covered: seq<Byte>, field: seq<Byte>)
    requires |field| == 0
    ensures field == CrcField(covered, 0)
  {}

  lemma MagicPlaced(c: Cursor, data: seq<Byte>)
    requires c.state == WantMagic && c.bodyLen == 0 && c.pos <= |data|
    ensures Placed(c, data) && Left(c, data) == data[c.pos..]
  {}

  /** What a call of `Decode` says about the bytes it had. */
  ghost predicate ResultOk(s: seq<Byte>, rest: seq<Byte>, result: DecodeResult) {
    match result
    case Decoded(packet) =>
      Next(s) == Parsed(packet, rest)
    case Failed(status) =>
      (exists k: nat :: Drops(s, k) && rest == s[k..]) && (status == Eof ==> Next(s) == Incomplete(rest))
  }

  lemma NothingTaken(start: seq<Byte>, taken: seq<Byte>, script: seq<ReadEvent>)
    ensures Took(taken, script, taken, script)
    ensures start + taken[|taken|..] == start && Drops(start, 0) && start[0..] == start
  {
    assert taken[|taken|..] + Unread(script) == Unread(script);
  }

  lemma TookTwice(taken0: seq<Byte>, script0: seq<ReadEvent>, taken1: seq<Byte>, script1: seq<ReadEvent>,
                  taken2: seq<Byte>, script2: seq<ReadEvent>)
    requires Took(taken0, script0, taken1, script1) && Took(taken1, script1, taken2, script2)
    ensures Took(taken0, script0, taken2, script2)
    ensures taken0 <= taken1 <= taken2
    ensures taken2[|taken0|..] == taken1[|taken0|..] + taken2[|taken1|..]
    ensures |taken2[|taken1|..]| + |Unread(script2)| == |Unread(script1)| && |script2| <= |script1|
  {
    hide Unread, NoEof;
    assert taken2[|taken0|..] == taken1[|taken0|..] + taken2[|taken1|..];
  }

  lemma DecodedRest(s: seq<Byte>, rest: seq<Byte>, result: DecodeResult)
    requires ResultOk(s, rest, result) && result.Decoded?
    ensures Packets(s) == [result.packet] + Packets(rest) && Pending(s) == Pending(rest) && |rest| < |s|
  {
    hide Packets, Pending, Next, Drops;
    NextPackets(s);
  }

  lemma EofRest(s: seq<Byte>, rest: seq<Byte>, result: DecodeResult)
    requires ResultOk(s, rest, result) && result == Failed(Eof)
    ensures Packets(s) == [] && Pending(s) == rest
  {
    hide Packets, Pending, Next, Drops;
    NextPackets(s);
  }

  /** One call of `Decode` inside the read loop. */
  lemma LoopStep(s: seq<Byte>, packets: seq<PacketData>, unparsed: seq<Byte>, more: seq<Byte>, rest: seq<Byte>,
                 result: DecodeResult)
    requires Packets(s) == packets + Packets(unparsed) && Pending(s) == Pending(unparsed)
    requires ResultOk(unparsed + more, rest, result)
    ensures |rest| <= |unparsed| + |more|
    ensures Pending(s + more) == Pending(rest)
    ensures result.Decoded? ==> |rest| < |unparsed| + |more|
    ensures Packets(s + more) == (if result.Decoded? then packets + [result.packet] else packets) + Packets(rest)
    ensures result == Failed(Eof) ==> Packets(rest) == [] && Pending(rest) == rest
  {
    hide Scan, Packets, Pending, Next, Drops, ResultOk;
    SameTail(s, packets, unparsed, more);
    var u := unparsed + more;
    if result.Decoded? {
      DecodedRest(u, rest, result);
      Regroup(packets, result.packet, Packets(rest));
    } else {
      FailedRest(u, rest, result);
      if result.status == Eof {
        EofRest(u, rest, result);
      }
    }
  }

  lemma Regroup(a: seq<PacketData>, p: PacketData, b: seq<PacketData>)
    ensures a + ([p] + b) == a + [p] + b
  {}

  lemma SameTail(s: seq<Byte>, packets: seq<PacketData>, unparsed: seq<Byte>, more: seq<Byte>)
    requires Packets(s) == packets + Packets(unparsed) && Pending(s) == Pending(unparsed)
    ensures Packets(s + more) == packets + Packets(unparsed + more)
    ensures Pending(s + more) == Pending(unparsed + more)
  {
    hide Packets, Pending;
    PacketsExtend(s, more);
    PacketsExtend(unparsed, more);
  }

  lemma FailedRest(s: seq<Byte>, rest: seq<Byte>, result: DecodeResult)
    requires ResultOk(s, rest, result)
    ensures result.Failed? ==> Packets(s) == Packets(rest) && Pending(s) == Pending(rest) && |rest| <= |s|
  {
    hide Scan, Packets, Pending, Next;
    if result.Failed? {
      var k: nat :| Drops(s, k) && rest == s[k..];
      DropsNext(s, k);
    }
  }

  lemma LoopEnd(script0: seq<ReadEvent>, taken0: seq<Byte>, taken: seq<Byte>, script: seq<ReadEvent>)
    requires Took(taken0, script0, taken, script) && FailureOk(Eof, script0, script)
    ensures taken0 <= taken && (NoEof(script0) ==> taken[|taken0|..] == Unread(script0))
  {}

  lemma FaultUses(status: Status, script0: seq<ReadEvent>, script: seq<ReadEvent>)
    requires FailureOk(status, script0, script) && status == Fault
    ensures |script| < |script0|
  {}

  lemma FailureTwice(status: Status, script0: seq<ReadEvent>, taken0: seq<Byte>, taken1: seq<Byte>,
                     script1: seq<ReadEvent>, script2: seq<ReadEvent>)
    requires Took(taken0, script0, taken1, script1) && FailureOk(status, script1, script2)
    ensures FailureOk(status, script0, script2)
  {}

  lemma AfterTurn(s: seq<Byte>, k: nat, after: seq<Byte>, rank: nat, rank': nat) returns (k': nat)
    requires Drops(s, k) && TurnOk(s[k..], after, Continue, rank, rank')
    ensures Drops(s, k') && k' <= |s| && after == s[k'..]
    ensures |after| < |s[k..]| || (after == s[k..] && rank' < rank)
  {
    hide Scan;
    if after == s[k..] && rank' < rank {
      k' := k;
    } else {
      DropsMore(s, k);
      k' := k + Scan(s[k..]).n;
    }
  }

  lemma DropsResult(s: seq<Byte>, k: nat, after: seq<Byte>, r: DecodeResult, rank: nat, rank': nat)
    requires Drops(s, k)
    requires TurnOk(s[k..], after, Return(r), rank, rank')
    ensures ResultOk(s, after, r)
    ensures r.Failed? ==> r.status != Fine
  {
    hide Scan;
    DropsNext(s, k);
  }

  lemma FlagsPosition(c: Cursor, data: seq<Byte>)
    requires Placed(c, data) && c.state == WantFlags
    ensures c.pos == c.start + 1
  {}

  lemma LengthPosition(c: Cursor, data: seq<Byte>)
    requires Placed(c, data) && c.state == WantLength
    ensures c.pos == c.start + 2
    ensures c.opcodeLen + c.seqLen + c.crcLen == MinPayload(c.f)
  {}

  lemma FieldWidths(c: Cursor, data: seq<Byte>)
    requires Placed(c, data) && 2 <= Rank(c.state) <= 5
    ensures Needs(c) == match c.state
      case WantOpcode => c.opcodeLen
      case WantSeq => c.seqLen
      case WantBody => c.bodyLen
      case _ => c.crcLen
  {}

  /** The status a turn ends the call with, if it does. */
  function Outcome(turn: Turn): Status {
    if turn.Return? && turn.result.Failed? then turn.result.status else Fine
  }

  lemma HeaderSeenExtends(s: seq<Byte>, t: seq<Byte>, f: FlagByte, bodyLen: nat)
    requires HeaderSeen(s, f, bodyLen)
    ensures HeaderSeen(s + t, f, bodyLen)
  {
    if HasBodyLen(f) {
      assert (s + t)[2..4] == s[2..4];
    }
  }

  lemma JoinTaken(t0: seq<Byte>, t1: seq<Byte>, t2: seq<Byte>, d0: seq<Byte>, d1: seq<Byte>, d2: seq<Byte>)
    requires t0 <= t1 <= t2
    requires d1 == d0 + t1[|t0|..] && d2 == d1 + t2[|t1|..]
    ensures d2 == d0 + t2[|t0|..]
  {}

  /** Moves the bytes from `from` to `to` to the front of the buffer; the two places may overlap. */
  method MoveDown(buf: array<Byte>, from: nat, to: nat)
    requires from <= to <= buf.Length
    modifies buf
    ensures buf[..to - from] == old(buf[from..to])
  {
    for i := 0 to to - from
      invariant forall k | 0 <= k < i :: buf[k] == old(buf[from + k])
      invariant forall k | i <= k < buf.Length :: buf[k] == old(buf[k])
    {
      buf[i] := buf[from + i];
    }
  }

  class Decoder {
    const reader: Reader
    const table: array<bv16>
    var buf: array<Byte>
    var bufLen: nat
    var bufPos: nat
    var state: State
    var curFlags: FlagByte
    var curOpcodeLen: Width
    var curSeqLen: Width
    var curCrcLen: Width
    var curHasBodyLen: bool
    var curLengthVal: nat
    var curBodyLen: nat
    var curFrameStart: nat
    var framesDecoded: nat
    var bytesConsumed: nat

    ghost predicate BufferOk()
      reads this, buf, table
    {
      bufPos <= bufLen <= buf.Length &&
      (buf.Length == 0 || buf.Length >= READ_BUFFER_SIZE) &&
      IsTable(table[..])
    }

    /** The buffered bytes. */
    ghost function Data(): seq<Byte>
      reads this, buf
      requires bufLen <= buf.Length
    {
      buf[..bufLen]
    }

    ghost function Cur(): Cursor
      reads this
    {
      Cursor(state, curFlags, curOpcodeLen, curSeqLen, curCrcLen, curHasBodyLen, curBodyLen, curFrameStart, bufPos)
    }

    ghost predicate Valid()
      reads this, buf, table, reader
    {
      BufferOk() && Placed(Cur(), Data()) && bytesConsumed + (bufLen - bufPos) == |reader.taken|
    }

    /** The buffered bytes that no returned packet and no dropped frame accounts for. */
    ghost function Unparsed(): seq<Byte>
      reads this, buf
      requires bufLen <= buf.Length
    {
      Left(Cur(), Data())
    }

    constructor (reader: Reader, table: array<bv16>)
      requires IsTable(table[..]) && reader.taken == []
      ensures Valid() && this.reader == reader && this.table == table
      ensures fresh(buf) && Unparsed() == [] && framesDecoded == 0
    {
      this.reader := reader;
      this.table := table;
      buf := new Byte[0];
      bufLen, bufPos, state := 0, 0, WantMagic;
      curFlags, curOpcodeLen, curSeqLen, curCrcLen, curHasBodyLen := 0, 0, 0, 0, false;
      curLengthVal, curBodyLen, curFrameStart := 0, 0, 0;
      framesDecoded, bytesConsumed := 0, 0;
    }

    /** Makes room for a read: always a whole read buffer, and exactly that at the start. */
    method Grow()
      requires BufferOk()
      modifies this`buf
      ensures BufferOk() && buf.Length - bufLen >= READ_BUFFER_SIZE
      ensures old(buf.Length) == 0 ==> buf.Length == READ_BUFFER_SIZE
      ensures Data() == old(Data()) && (buf == old(buf) || fresh(buf))
    {
      if buf.Length - bufLen < READ_BUFFER_SIZE {
        var newCap := buf.Length * 2;
        if newCap < READ_BUFFER_SIZE {
          newCap := READ_BUFFER_SIZE;
        }
        var newBuf := new Byte[newCap](i => 0);
        for i := 0 to bufLen
          invariant buf == old(buf) && newBuf[..i] == buf[..i]
        {
          newBuf[i] := buf[i];
        }
        buf := newBuf;
      }
    }

    /** One read into the free end of the buffer. */
    method ReadMore() returns (status: Status)
      requires BufferOk()
      modifies this`buf, this`bufLen, buf, reader
      ensures BufferOk() && (buf == old(buf) || fresh(buf))
      ensures old(reader.taken) <= reader.taken
      ensures Data() == old(Data()) + reader.taken[|old(reader.taken)|..]
      ensures reader.taken[|old(reader.taken)|..] + Unread(reader.script) == old(Unread(reader.script))
      ensures |reader.script| <= |old(reader.script)|
      ensures status != Eof ==>
                |Unread(reader.script)| + |reader.script| < |Unread(old(reader.script))| + |old(reader.script)|
      ensures status == Fault ==> |reader.script| < |old(reader.script)|
      ensures NoEof(old(reader.script)) ==> NoEof(reader.script) && (status == Eof ==> reader.script == [])
    {
      hide IsTable, Unread, NoEof;
      Grow();
      var oldLen := bufLen;
      var nr, readStatus := reader.Read(buf, oldLen);
      bufLen := oldLen + nr;
      assert Data() == old(Data()) + buf[oldLen..bufLen];
      status := readStatus;
    }

    /** Reads until `n` unconsumed bytes are buffered, whatever state the machine is in. */
    method Fill(n: nat) returns (status: Status)
      requires BufferOk()
      modifies this`buf, this`bufLen, buf, reader
      ensures BufferOk() && (buf == old(buf) || fresh(buf))
      ensures old(reader.taken) <= reader.taken
      ensures Data() == old(Data()) + reader.taken[|old(reader.taken)|..]
      ensures reader.taken[|old(reader.taken)|..] + Unread(reader.script) == old(Unread(reader.script))
      ensures |reader.script| <= |old(reader.script)|
      ensures status == Fine ==> bufLen - bufPos >= n
      ensures status == Eof ==> bufLen - bufPos < n
      ensures status == Fault ==> |reader.script| < |old(reader.script)|
      ensures NoEof(old(reader.script)) ==> NoEof(reader.script) && (status == Eof ==> reader.script == [])
    {
      hide IsTable, Unread, NoEof;
      while bufLen - bufPos < n
        invariant BufferOk() && (buf == old(buf) || fresh(buf))
        invariant old(reader.taken) <= reader.taken
        invariant Data() == old(Data()) + reader.taken[|old(reader.taken)|..]
        invariant reader.taken[|old(reader.taken)|..] + Unread(reader.script) == old(Unread(reader.script))
        invariant |reader.script| <= |old(reader.script)|
        invariant NoEof(old(reader.script)) ==> NoEof(reader.script)
        decreases |Unread(reader.script)| + |reader.script|
      {
        ghost var base, taken, data := old(reader.taken), reader.taken, Data();
        ghost var script := reader.script;
        var readStatus := ReadMore();
        JoinTaken(base, taken, reader.taken, old(Data()), data, Data());
        assert reader.taken[|base|..] == taken[|base|..] + reader.taken[|taken|..];
        if readStatus == Eof {
          return if bufLen - bufPos < n then Eof else Fine;
        }
        if readStatus == Fault {
          return Fault;
        }
      }
      status := Fine;
    }

    /** `ensureBytes`: reads until `n` unconsumed bytes are buffered. */
    method EnsureBytes(n: nat) returns (status: Status)
      requires Valid()
      modifies this`buf, this`bufLen, buf, reader
      ensures Valid() && Cur() == old(Cur()) && (buf == old(buf) || fresh(buf))
      ensures Took(old(reader.taken), old(reader.script), reader.taken, reader.script)
      ensures Unparsed() == old(Unparsed()) + reader.taken[|old(reader.taken)|..]
      ensures status == Fine ==> bufLen - bufPos >= n
      ensures status == Eof ==> bufLen - bufPos < n
      ensures FailureOk(status, old(reader.script), reader.script)
    {
      hide IsTable, Unread, NoEof, Placed, Left;
      ghost var cursor, data := Cur(), Data();
      status := Fill(n);
      PlacedExtends(cursor, data, reader.taken[|old(reader.taken)|..]);
    }

    method ResetFrame()
      modifies this`state, this`curFlags, this`curOpcodeLen, this`curSeqLen, this`curCrcLen,
               this`curHasBodyLen, this`curLengthVal, this`curBodyLen
      ensures state == WantMagic && curBodyLen == 0
    {
      state := WantMagic;
      curFlags := 0;
      curOpcodeLen, curSeqLen, curCrcLen := 0, 0, 0;
      curHasBodyLen := false;
      curLengthVal := 0;
      curBodyLen := 0;
    }

    /** Moves the unconsumed bytes to the front of the buffer. */
    method Compact()
      requires BufferOk()
      modifies this`bufLen, this`bufPos, this`curFrameStart, buf
      ensures BufferOk() && bufPos == 0 && Data() == old(Data()[bufPos..])
    {
      hide IsTable;
      ghost var data := Data();
      if bufPos > 0 && bufPos < bufLen {
        MoveDown(buf, bufPos, bufLen);
        assert buf[..bufLen][bufPos..] == buf[bufPos..bufLen];
      }
      assert buf[..bufLen - bufPos] == data[bufPos..];
      bufLen := bufLen - bufPos;
      curFrameStart := if curFrameStart < bufPos then 0 else curFrameStart - bufPos;
      bufPos := 0;
    }

    /** A failed wait leaves an incomplete frame. */
    lemma Short(status: Status)
      requires Valid() && (status == Eof ==> bufLen - bufPos < Needs(Cur()))
      ensures status == Eof ==> Scan(Unparsed()) == NeedMore
    {
      if status == Eof {
        ShortIsNeedMore(Cur(), Data());
      }
    }

    /** The width of the field the machine is about to step over. */
    function FieldWidth(): nat
      reads this
      requires 2 <= Rank(state) <= 5
    {
      match state
      case WantOpcode => curOpcodeLen
      case WantSeq => curSeqLen
      case WantBody => curBodyLen
      case _ => curCrcLen
    }

    method TakeMagic()
      requires Valid() && state == WantMagic && bufLen - bufPos >= 1
      modifies this`bufPos, this`bytesConsumed, this`state, this`curFrameStart, this`curFlags, this`curOpcodeLen,
               this`curSeqLen, this`curCrcLen, this`curHasBodyLen, this`curLengthVal, this`curBodyLen
      ensures Valid()
      ensures TurnOk(old(Unparsed()), Unparsed(), Continue, old(Rank(state)), Rank(state))
    {
      hide IsTable, TurnOk, Placed, Left, Scan;
      ghost var c, data := Cur(), Data();
      if buf[bufPos] != MAGIC {
        bufPos := bufPos + 1;
        bytesConsumed := bytesConsumed + 1;
      } else {
        curFrameStart := bufPos;
        bufPos := bufPos + 1;
        bytesConsumed := bytesConsumed + 1;
        state := WantFlags;
      }
      MagicTurn(c, data, Cur());
    }

    method OnMagic() returns (turn: Turn)
      requires Valid() && state == WantMagic
      modifies this, buf, reader
      ensures Valid() && (buf == old(buf) || fresh(buf)) && framesDecoded == old(framesDecoded)
      ensures turn.Return? ==> turn.result.Failed?
      ensures Took(old(reader.taken), old(reader.script), reader.taken, reader.script)
      ensures FailureOk(Outcome(turn), old(reader.script), reader.script)
      ensures TurnOk(old(Unparsed()) + reader.taken[|old(reader.taken)|..], Unparsed(), turn,
                     old(Rank(state)), Rank(state))
    {
      hide IsTable, Took, FailureOk, Placed, Left, Scan, OpcodeLen, SeqLen, CrcLen, HasBodyLen;
      var status := EnsureBytes(1);
      if status != Fine {
        Short(status);
        return Return(Failed(status));
      }
      hide *;
      TakeMagic();
      turn := Continue;
    }

    method ReadFlags(f: FlagByte)
      modifies this`curFlags, this`curOpcodeLen, this`curSeqLen, this`curCrcLen, this`curHasBodyLen
      ensures Cur() == old(Cur()).(f := f, opcodeLen := OpcodeLen(f), seqLen := SeqLen(f), crcLen := CrcLen(f),
                                   hasBodyLen := HasBodyLen(f))
    {
      hide OpcodeLen, SeqLen, CrcLen, HasBodyLen;
      curFlags := f;
      curHasBodyLen := HasBodyLen(curFlags);
      curOpcodeLen := OpcodeLen(curFlags);
      curSeqLen := SeqLen(curFlags);
      curCrcLen := CrcLen(curFlags);
    }

    method TakeFlags()
      requires Valid() && state == WantFlags && bufLen - bufPos >= 1
      modifies this`bufPos, this`bytesConsumed, this`state, this`curFrameStart, this`curFlags, this`curOpcodeLen,
               this`curSeqLen, this`curCrcLen, this`curHasBodyLen, this`curLengthVal, this`curBodyLen
      ensures Valid()
      ensures TurnOk(old(Unparsed()), Unparsed(), Continue, old(Rank(state)), Rank(state))
    {
      hide IsTable, TurnOk, Placed, Left, Scan, OpcodeLen, SeqLen, CrcLen, HasBodyLen;
      ghost var c, data := Cur(), Data();
      FlagsPosition(c, data);
      var flagsPos := curFrameStart + 1;
      ReadFlags(buf[flagsPos]);
      bufPos := flagsPos + 1;
      bytesConsumed := bytesConsumed + (bufPos - flagsPos);
      if curHasBodyLen {
        state := WantLength;
      } else {
        state := WantOpcode;
      }
      FlagsTurn(c, data, Cur());
    }

    method OnFlags() returns (turn: Turn)
      requires Valid() && state == WantFlags
      modifies this, buf, reader
      ensures Valid() && (buf == old(buf) || fresh(buf)) && framesDecoded == old(framesDecoded)
      ensures turn.Return? ==> turn.result.Failed?
      ensures Took(old(reader.taken), old(reader.script), reader.taken, reader.script)
      ensures FailureOk(Outcome(turn), old(reader.script), reader.script)
      ensures TurnOk(old(Unparsed()) + reader.taken[|old(reader.taken)|..], Unparsed(), turn,
                     old(Rank(state)), Rank(state))
    {
      hide IsTable, Took, FailureOk, Placed, Left, Scan, OpcodeLen, SeqLen, CrcLen, HasBodyLen;
      var status := EnsureBytes(1);
      if status != Fine {
        Short(status);
        return Return(Failed(status));
      }
      hide *;
      TakeFlags();
      turn := Continue;
    }

    method TakeLength()
      requires Valid() && state == WantLength && bufLen - bufPos >= 2
      modifies this`bufPos, this`bytesConsumed, this`state, this`curFrameStart, this`curFlags, this`curOpcodeLen,
               this`curSeqLen, this`curCrcLen, this`curHasBodyLen, this`curLengthVal, this`curBodyLen
      ensures Valid()
      ensures TurnOk(old(Unparsed()), Unparsed(), Continue, old(Rank(state)), Rank(state))
    {
      hide IsTable, TurnOk, Placed, Left, Scan, OpcodeLen, SeqLen, CrcLen, HasBodyLen, ReadLength;
      ghost var c, data := Cur(), Data();
      LengthPosition(c, data);
      var lenStart := curFrameStart + 2;
      curLengthVal := ReadLength(buf[lenStart..lenStart + 2]);
      assert buf[lenStart..lenStart + 2] == data[lenStart..lenStart + 2];
      bufPos := lenStart + 2;
      bytesConsumed := bytesConsumed + 2;
      var minPayload := curOpcodeLen + curSeqLen + curCrcLen;
      if curLengthVal < minPayload {
        ResetFrame();
      } else {
        curBodyLen := curLengthVal - minPayload;
        state := WantOpcode;
      }
      LengthTurn(c, data, Cur());
    }

    method OnLength() returns (turn: Turn)
      requires Valid() && state == WantLength
      modifies this, buf, reader
      ensures Valid() && (buf == old(buf) || fresh(buf)) && framesDecoded == old(framesDecoded)
      ensures turn.Return? ==> turn.result.Failed?
      ensures Took(old(reader.taken), old(reader.script), reader.taken, reader.script)
      ensures FailureOk(Outcome(turn), old(reader.script), reader.script)
      ensures TurnOk(old(Unparsed()) + reader.taken[|old(reader.taken)|..], Unparsed(), turn,
                     old(Rank(state)), Rank(state))
    {
      hide IsTable, Took, FailureOk, Placed, Left, Scan, OpcodeLen, SeqLen, CrcLen, HasBodyLen;
      var status := EnsureBytes(2);
      if status != Fine {
        Short(status);
        return Return(Failed(status));
      }
      hide *;
      TakeLength();
      turn := Continue;
    }

    method TakeField()
      requires Valid() && 2 <= Rank(state) <= 5 && bufLen - bufPos >= FieldWidth()
      modifies this`bufPos, this`bytesConsumed, this`state, this`curFrameStart, this`curFlags, this`curOpcodeLen,
               this`curSeqLen, this`curCrcLen, this`curHasBodyLen, this`curLengthVal, this`curBodyLen
      ensures Valid()
      ensures TurnOk(old(Unparsed()), Unparsed(), Continue, old(Rank(state)), Rank(state))
    {
      hide IsTable, TurnOk, Placed, Left, Scan, OpcodeLen, SeqLen, CrcLen, HasBodyLen;
      ghost var c, data := Cur(), Data();
      FieldWidths(c, data);
      var n := FieldWidth();
      bufPos := bufPos + n;
      bytesConsumed := bytesConsumed + n;
      state := match state
        case WantOpcode => WantSeq
        case WantSeq => if curBodyLen > 0 then WantBody else WantCrc
        case WantBody => WantCrc
        case _ => WantPadding;
      FieldTurn(c, data, Cur());
    }

    method OnField() returns (turn: Turn)
      requires Valid() && 2 <= Rank(state) <= 5
      modifies this, buf, reader
      ensures Valid() && (buf == old(buf) || fresh(buf)) && framesDecoded == old(framesDecoded)
      ensures turn.Return? ==> turn.result.Failed?
      ensures Took(old(reader.taken), old(reader.script), reader.taken, reader.script)
      ensures FailureOk(Outcome(turn), old(reader.script), reader.script)
      ensures TurnOk(old(Unparsed()) + reader.taken[|old(reader.taken)|..], Unparsed(), turn,
                     old(Rank(state)), Rank(state))
    {
      hide IsTable, Took, FailureOk, Placed, Left, Scan, OpcodeLen, SeqLen, CrcLen, HasBodyLen;
      FieldWidths(Cur(), Data());
      var n := FieldWidth();
      var status := EnsureBytes(n);
      if status != Fine {
        Short(status);
        return Return(Failed(status));
      }
      hide *;
      TakeField();
      turn := Continue;
    }

    /** Reads the integers, checks the CRC, if the frame has one, and the Flags. */
    method CheckFrame(fromOpcode: seq<Byte>, fromSeq: seq<Byte>, body: seq<Byte>, crcData: seq<Byte>,
                      expectedCrc: seq<Byte>)
      returns (built: Built)
      requires IsTable(table[..]) && LengthsMatch(Cur()) && |expectedCrc| == curCrcLen
      requires |fromOpcode| >= curOpcodeLen && |fromSeq| >= curSeqLen
      ensures built == BuiltFrom(curFlags, fromOpcode, fromSeq, body, crcData, expectedCrc)
    {
      hide IsTable, CrcField, Validate, OpcodeLen, SeqLen, CrcLen, HasBodyLen, ReadUint;
      var opcode, seqNo := ReadUint(fromOpcode, curOpcodeLen), ReadUint(fromSeq, curSeqLen);
      CrcWidths(curFlags);
      if curCrcLen > 0 {
        var ok := VerifyCrc(table, crcData, expectedCrc, curCrcLen);
        if !ok {
          return Bad;
        }
      } else {
        NoCrc(crcData, expectedCrc);
      }
      if Validate(curFlags, |body| > 0).Rejected? {
        return Bad;
      }
      built := Good(PacketData(curFlags, opcode, seqNo, body));
    }

    /** Reads the packet out of a complete frame in the buffer. */
    method BuildFrame() returns (built: Built)
      requires BufferOk() && LengthsMatch(Cur()) && curFrameStart + CoreLen(curFlags, curBodyLen) <= bufLen
      ensures built == Build(Data()[curFrameStart..], curFlags, curBodyLen)
    {
      hide IsTable, OpcodeLen, SeqLen, CrcLen, HasBodyLen, Build, BuiltFrom;
      var data := buf[..bufLen];
      BuildAt(data, curFrameStart, curFlags, curBodyLen);
      var pos := curFrameStart;
      pos := pos + 1;
      pos := pos + 1;
      if curHasBodyLen {
        pos := pos + 2;
      }
      var opcodeAt := pos;
      pos := pos + curOpcodeLen;
      var seqAt := pos;
      pos := pos + curSeqLen;
      var body := data[pos..pos + curBodyLen];
      pos := pos + curBodyLen;
      built := CheckFrame(data[opcodeAt..], data[seqAt..], body, data[curFrameStart + 1..pos],
                          data[pos..pos + curCrcLen]);
    }

    /** Leaves a frame behind: a good one is cleared from the buffer and returned, a bad one
        is only stepped over. */
    method Conclude(built: Built) returns (turn: Turn)
      requires BufferOk() && bytesConsumed + (bufLen - bufPos) == |reader.taken|
      modifies this, buf
      ensures Valid() && buf == old(buf)
      ensures state == WantMagic && Unparsed() == old(Data()[bufPos..])
      ensures turn == match built
        case Good(packet) => Return(Decoded(packet))
        case Bad => Continue
      ensures framesDecoded == old(framesDecoded) + if built.Good? then 1 else 0
    {
      hide IsTable, Placed, Left, Build;
      match built {
        case Bad =>
          ResetFrame();
          turn := Continue;
        case Good(packet) =>
          Compact();
          ResetFrame();
          framesDecoded := framesDecoded + 1;
          turn := Return(Decoded(packet));
      }
      MagicPlaced(Cur(), Data());
    }

    /** Returns or drops the complete frame at the front. */
    method TakePadding() returns (turn: Turn)
      requires Valid() && state == WantPadding && bufLen - bufPos >= PadLen(bufPos - curFrameStart)
      modifies this, buf
      ensures Valid() && buf == old(buf)
      ensures TurnOk(old(Unparsed()), Unparsed(), turn, old(Rank(state)), Rank(state))
      ensures Outcome(turn) == Fine
      ensures framesDecoded == old(framesDecoded) + if turn.Return? then 1 else 0
    {
      hide IsTable, TurnOk, Placed, Left, HeaderSeen, Scan, Build, OpcodeLen, SeqLen, CrcLen, HasBodyLen, Needs;
      ghost var c, data := Cur(), Data();
      PaddingPosition(c, data);
      var frameLen := bufPos - curFrameStart;
      var padLen := PadLen(frameLen);
      bufPos := bufPos + padLen;
      bytesConsumed := bytesConsumed + padLen;
      var built := BuildFrame();
      turn := Conclude(built);
      PaddingTurn(c, data, Unparsed(), turn, Rank(state));
    }

    method OnPadding() returns (turn: Turn)
      requires Valid() && state == WantPadding
      modifies this, buf, reader
      ensures Valid() && (buf == old(buf) || fresh(buf))
      ensures framesDecoded == old(framesDecoded) + if turn.Return? && turn.result.Decoded? then 1 else 0
      ensures Took(old(reader.taken), old(reader.script), reader.taken, reader.script)
      ensures FailureOk(Outcome(turn), old(reader.script), reader.script)
      ensures TurnOk(old(Unparsed()) + reader.taken[|old(reader.taken)|..], Unparsed(), turn,
                     old(Rank(state)), Rank(state))
    {
      hide IsTable, Took, FailureOk, Placed, Left, Scan, OpcodeLen, SeqLen, CrcLen, HasBodyLen, Needs;
      PaddingPosition(Cur(), Data());
      var frameLen := bufPos - curFrameStart;
      var padLen := PadLen(frameLen);
      var status := EnsureBytes(padLen);
      if status != Fine {
        PaddingPosition(Cur(), Data());
        Short(status);
        return Return(Failed(status));
      }
      turn := TakePadding();
    }

    /** One turn of the state machine. */
    method TakeTurn() returns (turn: Turn)
      requires Valid()
      modifies this, buf, reader
      ensures Valid() && (buf == old(buf) || fresh(buf))
      ensures framesDecoded == old(framesDecoded) + if turn.Return? && turn.result.Decoded? then 1 else 0
      ensures Took(old(reader.taken), old(reader.script), reader.taken, reader.script)
      ensures FailureOk(Outcome(turn), old(reader.script), reader.script)
      ensures TurnOk(old(Unparsed()) + reader.taken[|old(reader.taken)|..], Unparsed(), turn,
                     old(Rank(state)), Rank(state))
    {
      hide IsTable, Took, FailureOk, Placed, Left, Scan;
      match state {
        case WantMagic => turn := OnMagic();
        case WantFlags => turn := OnFlags();
        case WantLength => turn := OnLength();
        case WantOpcode => turn := OnField();
        case WantSeq => turn := OnField();
        case WantBody => turn := OnField();
        case WantCrc => turn := OnField();
        case WantPadding => turn := OnPadding();
      }
    }

    /** Decodes the next packet, or reports why there is none yet.  Whatever was read, the
        packet is the one the one-shot parser finds first in the bytes at hand, and what
        stays unparsed is what follows it; a failed call loses nothing. */
    method Decode() returns (result: DecodeResult)
      requires Valid()
      modifies this, buf, reader
      ensures Valid() && (buf == old(buf) || fresh(buf))
      ensures Took(old(reader.taken), old(reader.script), reader.taken, reader.script)
      ensures result.Failed? ==> result.status != Fine && FailureOk(result.status, old(reader.script), reader.script)
      ensures ResultOk(old(Unparsed()) + reader.taken[|old(reader.taken)|..], Unparsed(), result)
      ensures framesDecoded == old(framesDecoded) + if result.Decoded? then 1 else 0
    {
      hide IsTable, Placed, Left, Scan, Unread, NoEof, TurnOk, Drops, ResultOk, FailureOk, Took;
      ghost var start := Unparsed();
      ghost var k: nat := 0;
      ghost var taken0, script0 := reader.taken, reader.script;
      NothingTaken(start, taken0, script0);
      while true
        invariant Valid() && (buf == old(buf) || fresh(buf))
        invariant framesDecoded == old(framesDecoded)
        invariant taken0 <= reader.taken && Took(taken0, script0, reader.taken, reader.script)
        invariant Drops(start + reader.taken[|taken0|..], k) && k <= |start + reader.taken[|taken0|..]|
        invariant Unparsed() == (start + reader.taken[|taken0|..])[k..]
        decreases |Unparsed()| + |Unread(reader.script)|, Rank(state)
      {
        ghost var taken1, script1, rank := reader.taken, reader.script, Rank(state);
        ghost var s1 := start + taken1[|taken0|..];
        var turn := TakeTurn();
        TookTwice(taken0, script0, taken1, script1, reader.taken, reader.script);
        ghost var more := reader.taken[|taken1|..];
        assert start + reader.taken[|taken0|..] == s1 + more;
        DropsExtend(s1, k, more);
        match turn {
          case Continue =>
            k := AfterTurn(s1 + more, k, Unparsed(), rank, Rank(state));
          case Return(r) =>
            DropsResult(s1 + more, k, Unparsed(), r, rank, Rank(state));
            FailureTwice(Outcome(turn), script0, taken0, taken1, script1, reader.script);
            return r;
        }
      }
    }
  }

  /** The read loop of a connection: decodes until end of stream, ignoring transient errors.
      Its packets are the packets of the bytes at hand, however they were chunked. */
  method ReadLoop(d: Decoder) returns (packets: seq<PacketData>)
    requires d.Valid()
    modifies d, d.buf, d.reader
    ensures d.Valid() && Took(old(d.reader.taken), old(d.reader.script), d.reader.taken, d.reader.script)
    ensures packets == Packets(old(d.Unparsed()) + d.reader.taken[|old(d.reader.taken)|..])
    ensures d.Unparsed() == Pending(old(d.Unparsed()) + d.reader.taken[|old(d.reader.taken)|..])
    ensures d.framesDecoded == old(d.framesDecoded) + |packets|
    ensures NoEof(old(d.reader.script)) ==>
              packets == Packets(old(d.Unparsed()) + Unread(old(d.reader.script)))
  {
    hide Took, FailureOk, ResultOk, NoEof, Unread, Packets, Pending, Left, Placed, IsTable;
    packets := [];
    ghost var start, taken0, script0 := d.Unparsed(), d.reader.taken, d.reader.script;
    NothingTaken(start, taken0, script0);
    while true
      invariant d.Valid() && (d.buf == old(d.buf) || fresh(d.buf))
      invariant taken0 <= d.reader.taken && Took(taken0, script0, d.reader.taken, d.reader.script)
      invariant Packets(start + d.reader.taken[|taken0|..]) == packets + Packets(d.Unparsed())
      invariant Pending(start + d.reader.taken[|taken0|..]) == Pending(d.Unparsed())
      invariant d.framesDecoded == old(d.framesDecoded) + |packets|
      decreases |d.Unparsed()| + |Unread(d.reader.script)| + |d.reader.script|
    {
      ghost var taken1, script1, unparsed1 := d.reader.taken, d.reader.script, d.Unparsed();
      var result := d.Decode();
      TookTwice(taken0, script0, taken1, script1, d.reader.taken, d.reader.script);
      ghost var more := d.reader.taken[|taken1|..];
      LoopStep(start + taken1[|taken0|..], packets, unparsed1, more, d.Unparsed(), result);
      assert start + d.reader.taken[|taken0|..] == start + taken1[|taken0|..] + more;
      if result.Decoded? {
        packets := packets + [result.packet];
      } else if result.status == Eof {
        FailureTwice(Eof, script0, taken0, taken1, script1, d.reader.script);
        LoopEnd(script0, taken0, d.reader.taken, d.reader.script);
        return;
      } else {
        FaultUses(result.status, script1, d.reader.script);
      }
    }
  }
}
