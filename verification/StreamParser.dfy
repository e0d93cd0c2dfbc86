/** The frames of a byte string, by a pure one-shot parser.

    The parser is the specification of the streaming decoder: it looks at the whole string
    at once, keeps no state and does not know how the bytes arrived. */
module StreamParser {
  import opened Bytes
  import opened Flags
  import opened Packet
  import opened Crc

  /** What the front of a byte string is: too short to tell, `n` bytes to drop, or a frame
      of `n` bytes. */
  datatype Front = NeedMore | Skip(n: nat) | Frame(n: nat, packet: PacketData)

  datatype Parse = Incomplete(rest: seq<Byte>) | Parsed(packet: PacketData, rest: seq<Byte>)

  function HeaderLen(f: FlagByte): nat {
    if HasBodyLen(f) then 4 else 2
  }

  /** The smallest Length a frame with these flags can announce. */
  function MinPayload(f: FlagByte): nat {
    OpcodeLen(f) + SeqLen(f) + CrcLen(f)
  }

  /** From Magic to the end of the CRC. */
  function CoreLen(f: FlagByte, bodyLen: nat): nat {
    HeaderLen(f) + OpcodeLen(f) + SeqLen(f) + bodyLen + CrcLen(f)
  }

  /** With padding. */
  function FrameLen(f: FlagByte, bodyLen: nat): (n: nat)
    ensures n >= 4 && n >= CoreLen(f, bodyLen)
  {
    CoreLen(f, bodyLen) + PadLen(CoreLen(f, bodyLen))
  }

  /** The packet in a complete frame, unless its CRC or its flags are wrong. */
  datatype Built = Good(packet: PacketData) | Bad

  function Build(c: seq<Byte>, f: FlagByte, bodyLen: nat): Built
    requires |c| >= CoreLen(f, bodyLen)
  {
    var opcodeAt := HeaderLen(f);
    var seqAt := opcodeAt + OpcodeLen(f);
    var bodyAt := seqAt + SeqLen(f);
    var crcAt := bodyAt + bodyLen;
    if c[crcAt..crcAt + CrcLen(f)] == CrcField(c[1..crcAt], CrcLen(f)) && Validate(f, bodyLen > 0) == Accepted
    then Good(PacketData(f, ReadUint(c[opcodeAt..], OpcodeLen(f)), ReadUint(c[seqAt..], SeqLen(f)), c[bodyAt..crcAt]))
    else Bad
  }

  /** A frame whose flags and body length are known. */
  function Complete(s: seq<Byte>, f: FlagByte, bodyLen: nat): Front {
    var n := FrameLen(f, bodyLen);
    if |s| < n then NeedMore
    else match Build(s[..n], f, bodyLen)
         case Good(packet) => Frame(n, packet)
         case Bad => Skip(n)
  }

  /** The front of a byte string. */
  function Scan(s: seq<Byte>): (front: Front)
    ensures front.Skip? ==> 0 < front.n <= |s|
    ensures front.Frame? ==> 0 < front.n <= |s|
  {
    if |s| == 0 then NeedMore
    else if s[0] != MAGIC then Skip(1)
    else if |s| < 2 then NeedMore
    else if !HasBodyLen(s[1]) then Complete(s, s[1], 0)
    else if |s| < 4 then NeedMore
    else if ReadLength(s[2..4]) < MinPayload(s[1]) then Skip(4)
    else Complete(s, s[1], ReadLength(s[2..4]) - MinPayload(s[1]))
  }

  /** The first frame of a byte string and what follows it, or what is left to wait on. */
  function Next(s: seq<Byte>): Parse
    decreases |s|
  {
    match Scan(s)
    case NeedMore => Incomplete(s)
    case Skip(n) => Next(s[n..])
    case Frame(n, packet) => Parsed(packet, s[n..])
  }

  /** All frames of a byte string. */
  function Packets(s: seq<Byte>): seq<PacketData>
    decreases |s|
  {
    match Scan(s)
    case NeedMore => []
    case Skip(n) => Packets(s[n..])
    case Frame(n, packet) => [packet] + Packets(s[n..])
  }

  /** What the parser still waits on after all complete frames. */
  function Pending(s: seq<Byte>): (rest: seq<Byte>)
    ensures |rest| <= |s|
    decreases |s|
  {
    match Scan(s)
    case NeedMore => s
    case Skip(n) => Pending(s[n..])
    case Frame(n, packet) => Pending(s[n..])
  }

  // ---------------------------------------------------------------------------
  // More input never changes what was already decided
  // ---------------------------------------------------------------------------

  lemma CompleteStable(s: seq<Byte>, t: seq<Byte>, f: FlagByte, bodyLen: nat)
    requires Complete(s, f, bodyLen) != NeedMore
    ensures Complete(s + t, f, bodyLen) == Complete(s, f, bodyLen)
  {
    hide Build, FrameLen;
    var n := FrameLen(f, bodyLen);
    assert (s + t)[..n] == s[..n];
  }

  lemma ScanStable(s: seq<Byte>, t: seq<Byte>)
    requires Scan(s) != NeedMore
    ensures Scan(s + t) == Scan(s)
  {
    hide Complete, ReadLength, MinPayload, HasBodyLen;
    if |s| >= 2 && s[0] == MAGIC {
      if HasBodyLen(s[1]) {
        if |s| >= 4 {
          assert (s + t)[2..4] == s[2..4];
          if ReadLength(s[2..4]) >= MinPayload(s[1]) {
            CompleteStable(s, t, s[1], ReadLength(s[2..4]) - MinPayload(s[1]));
          }
        }
      } else {
        CompleteStable(s, t, s[1], 0);
      }
    }
  }

  /** Parsing more input continues from where parsing stopped. */
  lemma {:induction false} PacketsExtend(s: seq<Byte>, t: seq<Byte>)
    ensures Packets(s + t) == Packets(s) + Packets(Pending(s) + t)
    ensures Pending(s + t) == Pending(Pending(s) + t)
    decreases |s|
  {
    hide Scan;
    if Scan(s) != NeedMore {
      var n := Scan(s).n;
      ScanStable(s, t);
      assert (s + t)[n..] == s[n..] + t;
      PacketsExtend(s[n..], t);
    }
  }

  lemma {:induction false} PendingIsStuck(s: seq<Byte>)
    ensures Scan(Pending(s)) == NeedMore
    decreases |s|
  {
    hide Scan;
    if Scan(s) != NeedMore {
      PendingIsStuck(s[Scan(s).n..]);
    }
  }

  /** The first `k` bytes of `s` are dropped without a frame being found. */
  ghost predicate Drops(s: seq<Byte>, k: nat)
    decreases |s|
  {
    k <= |s| && (k == 0 || (Scan(s).Skip? && Scan(s).n <= k && Drops(s[Scan(s).n..], k - Scan(s).n)))
  }

  lemma {:induction false} DropsNext(s: seq<Byte>, k: nat)
    requires Drops(s, k)
    ensures Next(s) == Next(s[k..])
    ensures Packets(s) == Packets(s[k..]) && Pending(s) == Pending(s[k..])
    decreases |s|
  {
    hide Scan;
    if k == 0 {
      assert s[0..] == s;
    } else {
      var n := Scan(s).n;
      DropsNext(s[n..], k - n);
      assert s[n..][k - n..] == s[k..];
    }
  }

  lemma {:induction false} DropsExtend(s: seq<Byte>, k: nat, t: seq<Byte>)
    requires Drops(s, k)
    ensures Drops(s + t, k) && (s + t)[k..] == s[k..] + t
    decreases |s|
  {
    hide Scan;
    if k > 0 {
      var n := Scan(s).n;
      ScanStable(s, t);
      assert (s + t)[n..] == s[n..] + t;
      DropsExtend(s[n..], k - n, t);
    }
  }

  lemma {:induction false} DropsMore(s: seq<Byte>, k: nat)
    requires Drops(s, k) && Scan(s[k..]).Skip?
    ensures Drops(s, k + Scan(s[k..]).n)
    decreases |s|
  {
    hide Scan;
    if k == 0 {
      assert s[0..] == s;
      assert Drops(s[Scan(s).n..], 0);
    } else {
      var n := Scan(s).n;
      assert s[n..][k - n..] == s[k..];
      DropsMore(s[n..], k - n);
    }
  }

  /** `Next` finds the first packet of `Packets`. */
  lemma {:induction false} NextPackets(s: seq<Byte>)
    ensures match Next(s)
            case Incomplete(rest) => Packets(s) == [] && Pending(s) == rest
            case Parsed(packet, rest) =>
              Packets(s) == [packet] + Packets(rest) && Pending(s) == Pending(rest) && |rest| < |s|
    decreases |s|
  {
    hide Scan;
    if Scan(s).Skip? {
      NextPackets(s[Scan(s).n..]);
    }
  }
}
