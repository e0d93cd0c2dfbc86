/** The server's side of one connection (server/server.go:198-270). */
module Server {
  import opened Bytes
  import opened Flags
  import opened Packet
  import opened Encoder
  import opened StreamParser
  import opened RoundTrip
  import opened Sequencing
  import opened Wire

  /** A handler's response body and, if it failed, its error text. */
  datatype HandlerResult = HandlerResult(body: seq<Byte>, error: Mailbox<seq<Byte>>)

  function ReplyBody(r: HandlerResult): seq<Byte> {
    if r.error.Holding? && |r.body| == 0 then r.error.value else r.body
  }

  /** What the server answers a frame with: its handlers and its text for unknown opcodes. */
  datatype Behaviour = Behaviour(handle: (bv32, seq<Byte>) -> HandlerResult, unknown: bv32 -> seq<Byte>)

  function Reply(c: Config, b: Behaviour, opcode: bv32, body: seq<Byte>): seq<Byte> {
    if opcode in c.handlers then ReplyBody(b.handle(opcode, body)) else b.unknown(opcode)
  }

  predicate WantsAnswer(frame: PacketData) {
    IsRequest(frame.flags) && RequiresAck(frame.flags)
  }

  function ResponseTo(c: Config, b: Behaviour, frame: PacketData): PacketData {
    ResponsePacket(c, frame, Reply(c, b, frame.opcode, frame.body))
  }

  // ---------------------------------------------------------------------------
  // The serve loop and its handlers
  // ---------------------------------------------------------------------------

  /** How many frames the loop has taken, the requests whose handlers run, and the requests
      answered, in the order of their responses. */
  datatype Progress = Progress(taken: nat, jobs: seq<PacketData>, answered: seq<PacketData>)

  /** The loop takes the next frame, or the `k`-th running handler ends and writes its response. */
  datatype Step = TakeFrame | Finish(k: nat)

  /** A frame that wants an answer gets it at once if its opcode is unknown; otherwise its handler
      starts, and the loop goes on. */
  function Take(c: Config, s: Progress, frame: PacketData): Progress {
    if !WantsAnswer(frame) then s.(taken := s.taken + 1)
    else if frame.opcode !in c.handlers then s.(taken := s.taken + 1, answered := s.answered + [frame])
    else s.(taken := s.taken + 1, jobs := s.jobs + [frame])
  }

  function Finished(s: Progress, k: nat): Progress
    requires k < |s.jobs|
  {
    s.(jobs := s.jobs[..k] + s.jobs[k + 1..], answered := s.answered + [s.jobs[k]])
  }

  /** One step; a step that is not possible changes nothing. */
  function After(c: Config, frames: seq<PacketData>, s: Progress, step: Step): Progress {
    match step
    case TakeFrame => if s.taken < |frames| then Take(c, s, frames[s.taken]) else s
    case Finish(k) => if k < |s.jobs| then Finished(s, k) else s
  }

  function Performed(c: Config, frames: seq<PacketData>, steps: seq<Step>): Progress {
    if steps == [] then Progress(0, [], [])
    else After(c, frames, Performed(c, frames, steps[..|steps| - 1]), steps[|steps| - 1])
  }

  /** Every frame was taken and every handler has ended. */
  predicate RunsToEnd(c: Config, frames: seq<PacketData>, steps: seq<Step>) {
    var s := Performed(c, frames, steps);
    s.taken == |frames| && s.jobs == []
  }

  function Map<A, B>(f: A -> B, s: seq<A>): (t: seq<B>)
    ensures |t| == |s|
  {
    seq(|s|, i requires 0 <= i < |s| => f(s[i]))
  }

  function ResponsesTo(c: Config, b: Behaviour, frames: seq<PacketData>): (responses: seq<PacketData>)
    ensures |responses| == |frames|
  {
    Map((frame: PacketData) => ResponseTo(c, b, frame), frames)
  }

  /** The bytes of the responses. */
  function ResponseBytes(c: Config, b: Behaviour, answered: seq<PacketData>): seq<Byte> {
    Transmit(Items(ResponsesTo(c, b, answered)))
  }

  lemma OneMoreResponse(c: Config, b: Behaviour, answered: seq<PacketData>, frame: PacketData)
    ensures ResponseBytes(c, b, answered + [frame]) ==
              ResponseBytes(c, b, answered) + EncodeFrame(ResponseTo(c, b, frame))
  {
    hide ResponseTo, EncodeFrame, Transmit;
    var items := Items(ResponsesTo(c, b, answered));
    var item := Item([], ResponseTo(c, b, frame));
    assert Items(ResponsesTo(c, b, answered + [frame])) == items + [item];
    TransmitAppend(items, item);
    assert Transmit(items) + [] == Transmit(items);
  }

  class ConnContext {
    const config: Config
    const behaviour: Behaviour
    var closed: bool
    var jobs: seq<PacketData>  // the requests whose handlers run
    var written: seq<Byte>

    constructor (config: Config, behaviour: Behaviour)
      ensures this.config == config && this.behaviour == behaviour && !closed && jobs == [] && written == []
    {
      this.config, this.behaviour, closed, jobs, written := config, behaviour, false, [], [];
    }

    method WritePacket(f: PacketData) returns (ok: bool)
      modifies this`written
      ensures ok == (!closed && Validate(f.flags, |f.body| > 0) == Accepted)
      ensures written == old(written) + if ok then EncodeFrame(f) else []
    {
      ok := !closed && Validate(f.flags, |f.body| > 0) == Accepted;
      if ok {
        written := written + EncodeFrame(f);
      }
    }

    method Respond(frame: PacketData, body: seq<Byte>)
      modifies this`written
      ensures written == old(written) + if closed then [] else EncodeFrame(ResponsePacket(config, frame, body))
    {
      var resp := BuildResponse(config, frame, body);
      ResponseValid(config, frame, body);
      hide Validate, EncodeFrame, FlagsWith, SeqLen, CrcLen;
      var ok := WritePacket(resp);
    }

    /** The loop's treatment of one frame: an unknown opcode is answered, a handler started. */
    method ServeFrame(frame: PacketData)
      modifies this`written, this`jobs
      ensures var s := Take(config, Progress(0, old(jobs), []), frame);
              && jobs == s.jobs
              && written == old(written) + if closed then [] else ResponseBytes(config, behaviour, s.answered)
    {
      hide EncodeFrame, ResponsePacket;
      NoResponses(config, behaviour);
      if !IsRequest(frame.flags) {
        return;
      }
      if frame.opcode !in config.handlers {
        if RequiresAck(frame.flags) {
          OneMoreResponse(config, behaviour, [], frame);
          hide ResponseBytes;
          assert [] + [frame] == [frame];
          Respond(frame, behaviour.unknown(frame.opcode));
        }
        return;
      }
      if RequiresAck(frame.flags) {
        jobs := jobs + [frame];
      }
    }

    /** `handleRequest`: the `k`-th running handler ends and its response is written. */
    method HandleRequest(k: nat)
      requires k < |jobs| && jobs[k].opcode in config.handlers
      modifies this`written, this`jobs
      ensures jobs == old(jobs[..k] + jobs[k + 1..])
      ensures written == old(written) + if closed then [] else ResponseBytes(config, behaviour, [old(jobs[k])])
      ensures var frame := old(jobs[k]);
              var result := behaviour.handle(frame.opcode, frame.body);
              !closed ==> written == old(written) + EncodeFrame(ResponsePacket(config, frame,
                if result.body != [] then result.body else if result.error.Holding? then result.error.value else []))
    {
      hide EncodeFrame, ResponsePacket;
      var frame := jobs[k];
      var result := behaviour.handle(frame.opcode, frame.body);
      var body := result.body;
      if result.error.Holding? && |body| == 0 {
        body := result.error.value;
      }
      jobs := jobs[..k] + jobs[k + 1..];
      NoResponses(config, behaviour);
      OneMoreResponse(config, behaviour, [], frame);
      hide ResponseBytes;
      assert [] + [frame] == [frame];
      Respond(frame, body);
    }

    /** The serve loop over the frames the decoder finds, under any schedule of its handlers. */
    method Serve(frames: seq<PacketData>, steps: seq<Step>)
      requires jobs == []
      modifies this`written, this`jobs
      ensures var s := Performed(config, frames, steps);
              && jobs == s.jobs
              && written == old(written) + if closed then [] else ResponseBytes(config, behaviour, s.answered)
    {
      hide ResponseBytes, WantsAnswer, After;
      NoResponses(config, behaviour);
      var taken := 0;
      for i := 0 to |steps|
        invariant var s := Performed(config, frames, steps[..i]);
                  && taken == s.taken && jobs == s.jobs
                  && written == old(written) + if closed then [] else ResponseBytes(config, behaviour, s.answered)
      {
        ghost var s := Performed(config, frames, steps[..i]);
        assert steps[..i + 1][..i] == steps[..i];
        JobsRegistered(config, frames, steps[..i]);
        taken := PerformStep(frames, s, taken, steps[i]);
      }
      assert steps[..|steps|] == steps;
    }

    /** One step of the schedule. */
    method PerformStep(frames: seq<PacketData>, ghost s: Progress, taken: nat, step: Step) returns (taken': nat)
      requires taken == s.taken && jobs == s.jobs && forall k | 0 <= k < |jobs| :: jobs[k].opcode in config.handlers
      modifies this`written, this`jobs
      ensures var t := After(config, frames, s, step);
              && taken' == t.taken && jobs == t.jobs
              && (closed ==> written == old(written))
              && (!closed ==> forall start | old(written) == start + ResponseBytes(config, behaviour, s.answered) ::
                    written == start + ResponseBytes(config, behaviour, t.answered))
    {
      hide ResponseBytes, WantsAnswer;
      taken' := taken;
      match step {
        case TakeFrame =>
          if taken < |frames| {
            TakeIs(config, s, frames[taken]);
            ResponsesJoin(config, behaviour, s.answered, Take(config, Progress(0, s.jobs, []), frames[taken]).answered);
            hide Take;
            ServeFrame(frames[taken]);
            taken' := taken + 1;
          }
        case Finish(k) =>
          if k < |jobs| {
            ResponsesJoin(config, behaviour, s.answered, [jobs[k]]);
            HandleRequest(k);
          }
      }
    }
  }

  lemma TakeIs(c: Config, s: Progress, frame: PacketData)
    ensures var more := Take(c, Progress(0, s.jobs, []), frame);
            Take(c, s, frame) == Progress(s.taken + 1, more.jobs, s.answered + more.answered) && |more.answered| <= 1
  {
    hide WantsAnswer;
  }

  lemma NoResponses(c: Config, b: Behaviour)
    ensures ResponseBytes(c, b, []) == []
  {}

  /** At most one response more. */
  lemma ResponsesJoin(c: Config, b: Behaviour, answered: seq<PacketData>, more: seq<PacketData>)
    requires |more| <= 1
    ensures ResponseBytes(c, b, answered + more) == ResponseBytes(c, b, answered) + ResponseBytes(c, b, more)
  {
    hide EncodeFrame, ResponseBytes, ResponseTo;
    NoResponses(c, b);
    if more == [] {
      assert answered + more == answered;
    } else {
      assert more == [more[0]] == [] + [more[0]];
      OneMoreResponse(c, b, answered, more[0]);
      OneMoreResponse(c, b, [], more[0]);
    }
  }

  /** Only requests for registered opcodes have a handler running. */
  lemma {:induction false} JobsRegistered(c: Config, frames: seq<PacketData>, steps: seq<Step>)
    ensures var s := Performed(c, frames, steps);
            s.taken <= |frames| && forall k | 0 <= k < |s.jobs| ::
              s.jobs[k].opcode in c.handlers && WantsAnswer(s.jobs[k])
    decreases |steps|
  {
    if steps != [] {
      JobsRegistered(c, frames, steps[..|steps| - 1]);
    }
  }

  lemma ResponseValid(c: Config, frame: PacketData, body: seq<Byte>)
    ensures Validate(ResponsePacket(c, frame, body).flags, |body| > 0) == Accepted
  {
    ResponseFlags(c, frame, body);
    hide FlagsWith;
  }

  // ---------------------------------------------------------------------------
  // A pipeline of requests
  // ---------------------------------------------------------------------------

  /** One request as its sender means it. */
  datatype Ask = Ask(opcode: bv32, seqNo: nat, body: seq<Byte>)

  predicate AskOk(c: Config, b: Behaviour, a: Ask) {
    SeqInRange(c, a.seqNo) && Sendable(c, a.opcode, a.body) && Replyable(c, Reply(c, b, a.opcode, a.body))
  }

  function Requests(c: Config, asks: seq<Ask>): (frames: seq<PacketData>)
    ensures |frames| == |asks|
  {
    seq(|asks|, i requires 0 <= i < |asks| => RequestPacket(c, asks[i].opcode, asks[i].seqNo, asks[i].body))
  }

  /** Frames as they go over the wire. */
  function Items(frames: seq<PacketData>): (items: seq<Item>)
    ensures |items| == |frames|
  {
    seq(|frames|, i requires 0 <= i < |frames| => Item([], frames[i]))
  }

  lemma {:induction false} SentItems(frames: seq<PacketData>)
    ensures Sent(Items(frames)) == frames
    decreases |frames|
  {
    if frames != [] {
      SentItems(frames[1..]);
      assert Items(frames)[1..] == Items(frames[1..]);
    }
  }

  lemma ItemsDecode(frames: seq<PacketData>)
    requires forall i | 0 <= i < |frames| :: WellFormed(frames[i])
    ensures Packets(Transmit(Items(frames))) == frames
  {
    hide WellFormed, Packets, Pending, Transmit;
    TransmitDecodes(Items(frames), []);
    NoBytes();
    assert Transmit(Items(frames)) + [] == Transmit(Items(frames));
    SentItems(frames);
    assert frames + [] == frames;
  }

  lemma {:induction false} TransmitAppend(items: seq<Item>, item: Item)
    ensures Transmit(items + [item]) == Transmit(items) + item.noise + EncodeFrame(item.packet)
    decreases |items|
  {
    hide EncodeFrame;
    if items == [] {
      assert [] + [item] == [item];
      assert [item][1..] == [];
    } else {
      assert (items + [item])[1..] == items[1..] + [item];
      TransmitAppend(items[1..], item);
    }
  }

  /** The requests are of the kind that is answered. */
  lemma RequestsAnswered(c: Config, b: Behaviour, asks: seq<Ask>, i: nat)
    requires ConfigOk(c) && i < |asks| && AskOk(c, b, asks[i])
    ensures var f := Requests(c, asks)[i];
            WantsAnswer(f) && WellFormed(f) && f.opcode == asks[i].opcode && f.body == asks[i].body
  {
    RequestDecodes(c, asks[i].opcode, asks[i].seqNo, asks[i].body);
    RequestWellFormed(c, asks[i].opcode, asks[i].seqNo, asks[i].body);
    hide EncodeFrame, FlagsWith, WellFormed;
  }

  /** The `i`-th request's response: its number, its opcode and what the server computed from it. */
  lemma ResponseIs(c: Config, b: Behaviour, asks: seq<Ask>, i: nat)
    requires ConfigOk(c) && i < |asks| && AskOk(c, b, asks[i])
    ensures var r := ResponseTo(c, b, Requests(c, asks)[i]);
            && WellFormed(r) && IsResponse(r.flags) && SeqOf(r.seqNo) == asks[i].seqNo
            && r.opcode == asks[i].opcode && r.body == Reply(c, b, asks[i].opcode, asks[i].body)
  {
    var a := asks[i];
    RequestsAnswered(c, b, asks, i);
    ResponseDecodes(c, a.opcode, a.seqNo, a.body, Reply(c, b, a.opcode, a.body));
    ResponseWellFormed(c, a.opcode, a.seqNo, a.body, Reply(c, b, a.opcode, a.body));
    hide EncodeFrame, FlagsWith, WellFormed, Reply, SeqOf, WantsAnswer;
  }

  // ---------------------------------------------------------------------------
  // Every request is answered once
  // ---------------------------------------------------------------------------

  function AnsweredIn(frames: seq<PacketData>): seq<PacketData> {
    if frames == [] then []
    else AnsweredIn(frames[..|frames| - 1]) + if WantsAnswer(frames[|frames| - 1]) then [frames[|frames| - 1]] else []
  }

  lemma DropOne<T>(s: seq<T>, k: nat)
    requires k < |s|
    ensures multiset(s) == multiset(s[..k] + s[k + 1..]) + multiset{s[k]}
  {
    assert s == s[..k] + [s[k]] + s[k + 1..];
  }

  /** What is answered and what is being handled. */
  function Claimed(s: Progress): multiset<PacketData> {
    multiset(s.answered) + multiset(s.jobs)
  }

  lemma TakeClaims(c: Config, s: Progress, frame: PacketData)
    ensures Claimed(Take(c, s, frame)) == Claimed(s) + if WantsAnswer(frame) then multiset{frame} else multiset{}
  {
    hide WantsAnswer;
  }

  lemma FinishClaims(s: Progress, k: nat)
    requires k < |s.jobs|
    ensures Claimed(Finished(s, k)) == Claimed(s)
  {
    DropOne(s.jobs, k);
  }

  lemma AnsweredInOneMore(frames: seq<PacketData>, n: nat)
    requires n < |frames|
    ensures multiset(AnsweredIn(frames[..n + 1])) ==
              multiset(AnsweredIn(frames[..n])) + if WantsAnswer(frames[n]) then multiset{frames[n]} else multiset{}
  {
    hide WantsAnswer;
    assert frames[..n + 1][..n] == frames[..n];
  }

  /** What is answered and what is being handled are together the requests taken, each once. */
  lemma {:induction false} NothingLost(c: Config, frames: seq<PacketData>, steps: seq<Step>)
    ensures var s := Performed(c, frames, steps);
            s.taken <= |frames| && Claimed(s) == multiset(AnsweredIn(frames[..s.taken]))
    decreases |steps|
  {
    hide WantsAnswer, Claimed, AnsweredIn;
    if steps == [] {
      NothingClaimed(frames);
    } else {
      NothingLost(c, frames, steps[..|steps| - 1]);
      var s := Performed(c, frames, steps[..|steps| - 1]);
      match steps[|steps| - 1]
      case TakeFrame =>
        if s.taken < |frames| {
          TakeClaims(c, s, frames[s.taken]);
          TakeIs(c, s, frames[s.taken]);
          AnsweredInOneMore(frames, s.taken);
          hide Take;
        }
      case Finish(k) =>
        if k < |s.jobs| {
          FinishClaims(s, k);
        }
    }
  }

  lemma NothingClaimed(frames: seq<PacketData>)
    ensures Claimed(Progress(0, [], [])) == multiset(AnsweredIn(frames[..0]))
  {}

  lemma {:induction false} AllAnswered(frames: seq<PacketData>)
    requires forall i | 0 <= i < |frames| :: WantsAnswer(frames[i])
    ensures AnsweredIn(frames) == frames
    decreases |frames|
  {
    hide WantsAnswer;
    if frames != [] {
      AllAnswered(frames[..|frames| - 1]);
    }
  }

  lemma {:induction false} MapPermuted<A, B>(f: A -> B, s: seq<A>, t: seq<A>)
    requires multiset(s) == multiset(t)
    ensures multiset(Map(f, s)) == multiset(Map(f, t))
    decreases |s|
  {
    if s == [] {
      assert |multiset(t)| == 0;
    } else {
      var last := |s| - 1;
      assert s[last] in multiset(t);
      var j :| 0 <= j < |t| && t[j] == s[last];
      DropOne(s, last);
      DropOne(t, j);
      MapDrop(f, s, last);
      MapDrop(f, t, j);
      SameWithout(multiset(s[..last] + s[last + 1..]), multiset(t[..j] + t[j + 1..]), s[last]);
      MapPermuted(f, s[..last] + s[last + 1..], t[..j] + t[j + 1..]);
    }
  }

  lemma SameWithout<T>(a: multiset<T>, b: multiset<T>, x: T)
    requires a + multiset{x} == b + multiset{x}
    ensures a == b
  {
    forall y ensures a[y] == b[y] {
      assert (a + multiset{x})[y] == (b + multiset{x})[y];
    }
  }

  lemma MapDrop<A, B>(f: A -> B, s: seq<A>, k: nat)
    requires k < |s|
    ensures multiset(Map(f, s)) == multiset(Map(f, s[..k] + s[k + 1..])) + multiset{f(s[k])}
  {
    DropOne(Map(f, s), k);
    assert Map(f, s)[..k] + Map(f, s)[k + 1..] == Map(f, s[..k] + s[k + 1..]);
  }

  /** Requests sent back to back come out of the server's decoder as sent, and in every schedule
      that runs to its end the responses come out of the client's decoder in some order, one for
      each request: under its number, with its opcode and with what the server computed from it. */
  lemma PipelineAnswered(c: Config, b: Behaviour, asks: seq<Ask>, steps: seq<Step>)
    requires ConfigOk(c) && forall i | 0 <= i < |asks| :: AskOk(c, b, asks[i])
    requires RunsToEnd(c, Packets(Transmit(Items(Requests(c, asks)))), steps)
    ensures var received := Packets(Transmit(Items(Requests(c, asks))));
            var answered := Performed(c, received, steps).answered;
            && received == Requests(c, asks)
            && multiset(Packets(ResponseBytes(c, b, answered))) == multiset(ResponsesTo(c, b, received))
            && Packets(ResponseBytes(c, b, answered)) == ResponsesTo(c, b, answered) && |answered| == |asks|
            && forall i | 0 <= i < |asks| ::
                 var r := ResponsesTo(c, b, received)[i];
                 && IsResponse(r.flags) && SeqOf(r.seqNo) == asks[i].seqNo && r.opcode == asks[i].opcode
                 && r.body == Reply(c, b, asks[i].opcode, asks[i].body)
    ensures forall i | 0 <= i < |asks| && asks[i].opcode in c.handlers ::
              var result := b.handle(asks[i].opcode, asks[i].body);
              var sent := ResponsesTo(c, b, Requests(c, asks))[i].body;
              && (result.body != [] ==> sent == result.body)
              && (result.body == [] && result.error.Holding? ==> sent == result.error.value)
              && (result.body == [] && result.error.Empty? ==> sent == [])
    ensures forall i | 0 <= i < |asks| && asks[i].opcode !in c.handlers ::
              ResponsesTo(c, b, Requests(c, asks))[i].body == b.unknown(asks[i].opcode)
  {
    hide Packets, Transmit, Items, WantsAnswer, WellFormed, ResponseTo, AskOk, SeqOf, Reply, IsResponse, RequestPacket;
    var requests := Requests(c, asks);
    forall i | 0 <= i < |asks| ensures WellFormed(requests[i]) && WantsAnswer(requests[i]) {
      RequestsAnswered(c, b, asks, i);
    }
    forall i | 0 <= i < |asks|
      ensures var r := ResponsesTo(c, b, requests)[i];
              && IsResponse(r.flags) && SeqOf(r.seqNo) == asks[i].seqNo && r.opcode == asks[i].opcode
              && r.body == Reply(c, b, asks[i].opcode, asks[i].body)
              && (var sent := r.body;
                  if asks[i].opcode in c.handlers then
                    var result := b.handle(asks[i].opcode, asks[i].body);
                    && (result.body != [] ==> sent == result.body)
                    && (result.body == [] && result.error.Holding? ==> sent == result.error.value)
                    && (result.body == [] && result.error.Empty? ==> sent == [])
                  else sent == b.unknown(asks[i].opcode))
    {
      ReplyCases(c, b, asks[i].opcode, asks[i].body);
      ResponseIs(c, b, asks, i);
    }
    ItemsDecode(requests);
    AnsweredAre(c, requests, steps);
    var answered := Performed(c, requests, steps).answered;
    hide Performed;
    ResponsesDecode(c, b, asks, answered);
    MapPermuted((frame: PacketData) => ResponseTo(c, b, frame), answered, requests);
    assert |answered| == |multiset(answered)| == |multiset(requests)| == |requests|;
  }

  lemma ReplyCases(c: Config, b: Behaviour, opcode: bv32, body: seq<Byte>)
    ensures opcode in c.handlers ==>
              var result := b.handle(opcode, body);
              Reply(c, b, opcode, body) ==
                if result.body != [] then result.body else if result.error.Holding? then result.error.value else []
    ensures opcode !in c.handlers ==> Reply(c, b, opcode, body) == b.unknown(opcode)
  {}

  /** Whatever frames come in, in every schedule that runs to its end each is answered once if it is a
      request that asks for an acknowledgement, and never otherwise. */
  lemma AnsweredOnce(c: Config, frames: seq<PacketData>, steps: seq<Step>, frame: PacketData)
    requires RunsToEnd(c, frames, steps)
    ensures multiset(Performed(c, frames, steps).answered)[frame] ==
              if IsRequest(frame.flags) && RequiresAck(frame.flags) then multiset(frames)[frame] else 0
  {
    NothingLost(c, frames, steps);
    assert frames[..|frames|] == frames;
    AnsweredCount(frames, frame);
    hide Performed, AnsweredIn, IsRequest, RequiresAck;
    assert multiset(Performed(c, frames, steps).jobs) == multiset{};
  }

  lemma {:induction false} AnsweredCount(frames: seq<PacketData>, frame: PacketData)
    ensures multiset(AnsweredIn(frames))[frame] ==
              if IsRequest(frame.flags) && RequiresAck(frame.flags) then multiset(frames)[frame] else 0
    decreases |frames|
  {
    hide IsRequest, RequiresAck;
    if frames != [] {
      var n := |frames| - 1;
      AnsweredCount(frames[..n], frame);
      assert frames == frames[..n] + [frames[n]];
    }
  }

  lemma AnsweredAre(c: Config, frames: seq<PacketData>, steps: seq<Step>)
    requires RunsToEnd(c, frames, steps) && forall i | 0 <= i < |frames| :: WantsAnswer(frames[i])
    ensures multiset(Performed(c, frames, steps).answered) == multiset(frames)
  {
    hide WantsAnswer;
    NothingLost(c, frames, steps);
    assert frames[..|frames|] == frames;
    AllAnswered(frames);
  }

  /** Responses to some of the requests, in any order, decode to themselves. */
  lemma ResponsesDecode(c: Config, b: Behaviour, asks: seq<Ask>, answered: seq<PacketData>)
    requires ConfigOk(c) && forall i | 0 <= i < |asks| :: AskOk(c, b, asks[i])
    requires multiset(answered) == multiset(Requests(c, asks))
    ensures Packets(ResponseBytes(c, b, answered)) == ResponsesTo(c, b, answered)
  {
    hide Packets, Transmit, Items, WellFormed, ResponseTo, AskOk;
    var requests := Requests(c, asks);
    forall k | 0 <= k < |answered| ensures WellFormed(ResponsesTo(c, b, answered)[k]) {
      assert answered[k] in multiset(requests);
      var i :| 0 <= i < |requests| && requests[i] == answered[k];
      ResponseIs(c, b, asks, i);
    }
    ItemsDecode(ResponsesTo(c, b, answered));
  }

  // ---------------------------------------------------------------------------
  // When the order is kept
  // ---------------------------------------------------------------------------

  /** Under every schedule the responses arrive in the order of the requests. */
  ghost predicate OrderKept(c: Config, b: Behaviour, requests: seq<PacketData>) {
    forall steps | RunsToEnd(c, requests, steps) ::
      Packets(ResponseBytes(c, b, Performed(c, requests, steps).answered)) == ResponsesTo(c, b, requests)
  }

  /** With handlers for the last request at most, answers follow requests. */
  lemma {:induction false} InlineInOrder(c: Config, frames: seq<PacketData>, steps: seq<Step>)
    requires forall i | 0 <= i < |frames| :: WantsAnswer(frames[i])
    requires forall i | 0 <= i < |frames| - 1 :: frames[i].opcode !in c.handlers
    ensures var s := Performed(c, frames, steps);
            && s.taken <= |frames| && s.answered + s.jobs == frames[..s.taken] && |s.jobs| <= 1
            && (s.jobs != [] ==> s.taken == |frames|)
    decreases |steps|
  {
    hide WantsAnswer;
    if steps != [] {
      InlineInOrder(c, frames, steps[..|steps| - 1]);
      var s := Performed(c, frames, steps[..|steps| - 1]);
      match steps[|steps| - 1]
      case TakeFrame =>
        if s.taken < |frames| {
          assert s.answered + [] == s.answered;
          assert frames[..s.taken + 1] == frames[..s.taken] + [frames[s.taken]];
        }
      case Finish(k) =>
        if k < |s.jobs| {
          assert s.jobs == [s.jobs[0]];
        }
    }
  }

  lemma StepsOneMore(c: Config, frames: seq<PacketData>, steps: seq<Step>, step: Step)
    ensures Performed(c, frames, steps + [step]) == After(c, frames, Performed(c, frames, steps), step)
  {
    hide After;
    assert (steps + [step])[..|steps|] == steps;
  }

  /** The loop first takes every frame; of the handlers then running, one for request `i` or an
      earlier one was started first. */
  lemma {:induction false} TakeAll(c: Config, frames: seq<PacketData>, n: nat, i: nat) returns (steps: seq<Step>)
    requires n <= |frames| && forall k | 0 <= k < |frames| :: WantsAnswer(frames[k])
    ensures Performed(c, frames, steps).taken == n
    ensures i < n && frames[i].opcode in c.handlers ==>
              var s := Performed(c, frames, steps); s.jobs != [] && s.jobs[0] in frames[..i + 1]
    decreases n
  {
    hide WantsAnswer;
    if n == 0 {
      steps := [];
    } else {
      steps := TakeAll(c, frames, n - 1, i);
      var s := Performed(c, frames, steps);
      StepsOneMore(c, frames, steps, TakeFrame);
      if i == n - 1 && s.jobs != [] {
        JobsTaken(c, frames, steps);
        assert s.jobs[0] in frames[..n - 1];
        InLonger(frames, s.jobs[0], n - 1, n);
      }
      steps := steps + [TakeFrame];
    }
  }

  lemma InLonger(frames: seq<PacketData>, frame: PacketData, m: nat, n: nat)
    requires m <= n <= |frames| && frame in frames[..m]
    ensures frame in frames[..n]
  {
    var k :| 0 <= k < m && frames[..m][k] == frame;
    assert frames[..n][k] == frame;
  }

  lemma {:induction false} JobsTaken(c: Config, frames: seq<PacketData>, steps: seq<Step>)
    ensures var s := Performed(c, frames, steps);
            s.taken <= |frames| && forall k | 0 <= k < |s.jobs| :: s.jobs[k] in frames[..s.taken]
    decreases |steps|
  {
    hide WantsAnswer;
    if steps != [] {
      var before := steps[..|steps| - 1];
      JobsTaken(c, frames, before);
      var s, t := Performed(c, frames, before), Performed(c, frames, steps);
      forall k | 0 <= k < |t.jobs| ensures t.jobs[k] in frames[..t.taken] {
        if t.taken == s.taken + 1 && k == |s.jobs| {
          assert frames[..t.taken][s.taken] == t.jobs[k];
        } else {
          assert t.jobs[k] in s.jobs;
          InLonger(frames, t.jobs[k], s.taken, t.taken);
        }
      }
    }
  }

  /** The handlers end in reverse, so the first one started answers last. */
  lemma {:induction false} FinishBackwards(c: Config, frames: seq<PacketData>, steps: seq<Step>)
    returns (steps': seq<Step>)
    requires var s := Performed(c, frames, steps); s.taken == |frames| && s.jobs != []
    ensures RunsToEnd(c, frames, steps')
    ensures var answered := Performed(c, frames, steps').answered;
            answered != [] && answered[|answered| - 1] == Performed(c, frames, steps).jobs[0]
    decreases |Performed(c, frames, steps).jobs|
  {
    hide Performed;
    var s := Performed(c, frames, steps);
    var last := |s.jobs| - 1;
    StepsOneMore(c, frames, steps, Finish(last));
    steps' := steps + [Finish(last)];
    if last > 0 {
      steps' := FinishBackwards(c, frames, steps');
    }
  }

  /** A handler before the last request is enough to break the order. */
  lemma OrderBroken(c: Config, b: Behaviour, asks: seq<Ask>, i: nat)
    requires ConfigOk(c) && forall k | 0 <= k < |asks| :: AskOk(c, b, asks[k])
    requires forall j, k | 0 <= j < k < |asks| :: asks[j].seqNo != asks[k].seqNo
    requires i < |asks| - 1 && asks[i].opcode in c.handlers
    ensures !OrderKept(c, b, Requests(c, asks))
  {
    hide Packets, Transmit, Items, WantsAnswer, WellFormed, ResponseTo, AskOk, Performed, ResponseBytes, SeqOf;
    hide RequestPacket;
    var requests := Requests(c, asks);
    forall k | 0 <= k < |asks|
      ensures WellFormed(requests[k]) && WantsAnswer(requests[k]) && requests[k].opcode == asks[k].opcode
    {
      RequestsAnswered(c, b, asks, k);
    }
    ItemsDecode(requests);
    var steps := TakeAll(c, requests, |requests|, i);
    var job := Performed(c, requests, steps).jobs[0];
    var j :| 0 <= j < i + 1 && requests[..i + 1][j] == job;
    steps := FinishBackwards(c, requests, steps);
    PipelineAnswered(c, b, asks, steps);
    var n := |asks| - 1;
    var answered := Performed(c, requests, steps).answered;
    assert answered[n] == requests[j];
    ResponseIs(c, b, asks, j);
    ResponseIs(c, b, asks, n);
    assert ResponsesTo(c, b, answered)[n] == ResponseTo(c, b, requests[j]);
    assert ResponsesTo(c, b, requests)[n] == ResponseTo(c, b, requests[n]);
  }

  /** For requests with different numbers, the responses arrive in request order under every
      schedule if and only if no request but the last has a handler. */
  lemma OrderKeptExactly(c: Config, b: Behaviour, asks: seq<Ask>)
    requires ConfigOk(c) && forall i | 0 <= i < |asks| :: AskOk(c, b, asks[i])
    requires forall j, k | 0 <= j < k < |asks| :: asks[j].seqNo != asks[k].seqNo
    ensures OrderKept(c, b, Requests(c, asks)) <==> forall i | 0 <= i < |asks| - 1 :: asks[i].opcode !in c.handlers
  {
    hide Packets, Transmit, Items, WantsAnswer, WellFormed, ResponseTo, AskOk, Performed, ResponseBytes, RequestPacket;
    if i: nat :| i < |asks| - 1 && asks[i].opcode in c.handlers {
      OrderBroken(c, b, asks, i);
    } else {
      var requests := Requests(c, asks);
      forall k | 0 <= k < |asks|
        ensures WellFormed(requests[k]) && WantsAnswer(requests[k]) && requests[k].opcode == asks[k].opcode
      {
        RequestsAnswered(c, b, asks, k);
      }
      ItemsDecode(requests);
      forall steps | RunsToEnd(c, requests, steps)
        ensures Packets(ResponseBytes(c, b, Performed(c, requests, steps).answered)) == ResponsesTo(c, b, requests)
      {
        InlineInOrder(c, requests, steps);
        var s := Performed(c, requests, steps);
        assert s.answered + [] == s.answered && requests[..|requests|] == requests;
        PipelineAnswered(c, b, asks, steps);
      }
    }
  }
}
