/** Client, network and server as one transition system (client/client.go:83-171,
    server/server.go:199-270, conn/seq.go:64-250).

    Each event is one critical section or one channel operation, with two exceptions: a timer
    expiry is one event, and so is the delivery of a response, with the deletion from the table,
    the close of `done` and the send that belong to it. Frames in flight are bags of byte strings
    that may be duplicated, dropped and delivered in any order; whoever receives one decodes it. */
module Protocol {
  import opened Bytes
  import opened Flags
  import opened Packet
  import opened Encoder
  import opened StreamParser
  import opened Sequencing
  import opened Server
  import opened Wire

  /** How far a `SendRequest` has come; a failed one returns `Empty`. */
  datatype Phase = Allocated | Enqueued | Waiting | Failing | Returned(answer: Mailbox<PacketData>)

  /** One `SendRequest`: its arguments, its pending request, how often `done` was closed, how
      often the frame was written, successfully or not, and whether its retry loop still runs. */
  datatype Call = Call(opcode: bv32, body: seq<Byte>, seqNo: nat, phase: Phase,
                       request: Request, closes: nat, writes: nat, looping: bool)

  // Frames and handler runs carry the index of the call or reply they come from. It is
  // history only: no event looks at it.
  datatype Up = Up(call: nat, bytes: seq<Byte>)
  datatype Job = Job(call: nat, packet: PacketData)
  datatype Served = Served(call: nat, opcode: bv32, body: seq<Byte>, reply: seq<Byte>)
  datatype Down = Down(served: nat, bytes: seq<Byte>)

  datatype State = State(calls: seq<Call>, next: nat, closed: bool, pending: map<nat, nat>,
                         up: multiset<Up>, jobs: multiset<Job>, served: seq<Served>, down: multiset<Down>)

  datatype Event =
    | Allocate(opcode: bv32, body: seq<Byte>)
    | Enqueue(i: nat)
    | Write(i: nat, reaches: bool, ok: bool)
    | Expire(i: nat, reaches: bool, ok: bool)
    | SeeDone(i: nat)
    | TakeResponse(i: nat)
    | TakeError(i: nat)
    | ContextDone(i: nat)
    | Cleanup(i: nat)
    | CloseManager
    | DuplicateUp(u: Up)
    | DropUp(u: Up)
    | ServerReceive(u: Up, errorText: seq<Byte>, reaches: bool)
    | Answer(job: Job, result: HandlerResult, reaches: bool)
    | DuplicateDown(d: Down)
    | DropDown(d: Down)
    | ClientReceive(d: Down)

  function Init(): State {
    State([], 1, false, map[], multiset{}, multiset{}, [], multiset{})
  }

  // ---------------------------------------------------------------------------
  // Client events
  // ---------------------------------------------------------------------------

  function SetCall(s: State, i: nat, call: Call): State
    requires i < |s.calls|
  {
    s.(calls := s.calls[i := call])
  }

  function AllocateStep(c: Config, s: State, opcode: bv32, body: seq<Byte>): State {
    if s.closed then s
    else
      var a := AllocateFrom(s.next, s.pending.Keys, c.seqLen);
      var request := NewRequest(a.seqNo, RequestPacket(c, opcode, a.seqNo, body));
      s.(calls := s.calls + [Call(opcode, body, a.seqNo, Allocated, request, 0, 0, false)], next := a.next)
  }

  function EnqueueStep(s: State, i: nat): State {
    if i >= |s.calls| || !s.calls[i].phase.Allocated? then s
    else SetCall(s, i, s.calls[i].(phase := Enqueued, looping := true)).(pending := s.pending[s.calls[i].seqNo := i])
  }

  /** A frame on its way to the server, if it gets that far. */
  function Launched(s: State, i: nat, reaches: bool): multiset<Up>
    requires i < |s.calls|
  {
    if reaches then multiset{Up(i, EncodeFrame(s.calls[i].request.packet))} else multiset{}
  }

  function WriteStep(s: State, i: nat, reaches: bool, ok: bool): State {
    if i >= |s.calls| || !s.calls[i].phase.Enqueued? then s
    else
      var call := s.calls[i].(phase := if ok then Waiting else Failing, writes := s.calls[i].writes + 1);
      SetCall(s, i, call).(up := s.up + Launched(s, i, reaches))
  }

  /** The timer arm asks the table for the number and then works on its own request. */
  function ExpireStep(s: State, i: nat, reaches: bool, ok: bool): State {
    if i >= |s.calls| || !s.calls[i].looping then s
    else
      var call := s.calls[i];
      if call.seqNo !in s.pending then SetCall(s, i, call.(looping := false))
      else
        var writes := call.request.retries + 1 <= MAX_RETRIES;
        var sends := reaches && writes;
        var after := call.(request := Expired(call.request, ok), writes := call.writes + if writes then 1 else 0);
        if GivesUp(call.request, ok)
        then SetCall(s, i, after.(closes := call.closes + 1, looping := false))
             .(pending := s.pending - {call.seqNo}, up := s.up + Launched(s, i, sends))
        else SetCall(s, i, after).(up := s.up + Launched(s, i, sends))
  }

  function SeeDoneStep(s: State, i: nat): State {
    if i >= |s.calls| || !s.calls[i].request.done then s else SetCall(s, i, s.calls[i].(looping := false))
  }

  function TakeResponseStep(s: State, i: nat): State {
    if i >= |s.calls| || !s.calls[i].phase.Waiting? || s.calls[i].request.response.Empty? then s
    else SetCall(s, i, s.calls[i].(phase := Returned(s.calls[i].request.response)))
  }

  function TakeErrorStep(s: State, i: nat): State {
    if i >= |s.calls| || !s.calls[i].phase.Waiting? || s.calls[i].request.error.Empty? then s
    else SetCall(s, i, s.calls[i].(phase := Failing))
  }

  function ContextDoneStep(s: State, i: nat): State {
    if i >= |s.calls| || !s.calls[i].phase.Waiting? then s else SetCall(s, i, s.calls[i].(phase := Failing))
  }

  /** Whoever is filed under the number leaves the table with `done` closed: resolved if there
      is a response, removed if not. */
  function TakeOut(s: State, seqNo: nat, response: Mailbox<PacketData>): State {
    if seqNo !in s.pending || s.pending[seqNo] >= |s.calls| then s
    else
      var i := s.pending[seqNo];
      var r := s.calls[i].request;
      var settled := if response.Holding? then Resolved(r, response.value) else Removed(r);
      SetCall(s, i, s.calls[i].(request := settled, closes := s.calls[i].closes + 1)).(pending := s.pending - {seqNo})
  }

  function CleanupStep(s: State, i: nat): State {
    if i >= |s.calls| || !s.calls[i].phase.Failing? then s
    else
      var t := TakeOut(s, s.calls[i].seqNo, Empty);
      SetCall(t, i, t.calls[i].(phase := Returned(Empty)))
  }

  function ClosedCall(call: Call, tabled: bool): Call {
    if tabled then call.(request := FailedWith(call.request, ConnClosed), closes := call.closes + 1) else call
  }

  /** Every entry of the table fails. */
  function CloseStep(s: State): State {
    s.(closed := true, pending := map[],
       calls := seq(|s.calls|, i requires 0 <= i < |s.calls| => ClosedCall(s.calls[i], i in s.pending.Values)))
  }

  /** The client's read loop ignores everything but responses. */
  function ClientReceiveStep(s: State, d: Down): State {
    if d !in s.down then s
    else
      var t := s.(down := s.down - multiset{d});
      var packets := Packets(d.bytes);
      if |packets| != 1 || !IsResponse(packets[0].flags) then t
      else TakeOut(t, SeqOf(packets[0].seqNo), Holding(packets[0]))
  }

  // ---------------------------------------------------------------------------
  // Server events
  // ---------------------------------------------------------------------------

  /** The server computed `reply` for the request and tries to write it. */
  function ReplyStep(c: Config, s: State, call: nat, request: PacketData, reply: seq<Byte>, reaches: bool): State {
    var k := |s.served|;
    var bytes := EncodeFrame(ResponsePacket(c, request, reply));
    s.(served := s.served + [Served(call, request.opcode, request.body, reply)],
       down := s.down + if reaches then multiset{Down(k, bytes)} else multiset{})
  }

  /** The server's loop: frames that are not requests and requests that want no answer leave
      no trace here; an unknown opcode is answered at once, a known one by a handler. */
  function ServerReceiveStep(c: Config, s: State, u: Up, errorText: seq<Byte>, reaches: bool): State {
    if u !in s.up then s
    else
      var t := s.(up := s.up - multiset{u});
      var packets := Packets(u.bytes);
      if |packets| != 1 || !IsRequest(packets[0].flags) || !RequiresAck(packets[0].flags) then t
      else if packets[0].opcode !in c.handlers then ReplyStep(c, t, u.call, packets[0], errorText, reaches)
      else t.(jobs := t.jobs + multiset{Job(u.call, packets[0])})
  }

  function AnswerStep(c: Config, s: State, job: Job, result: HandlerResult, reaches: bool): State {
    if job !in s.jobs then s
    else ReplyStep(c, s.(jobs := s.jobs - multiset{job}), job.call, job.packet, ReplyBody(result), reaches)
  }

  // ---------------------------------------------------------------------------
  // Runs
  // ---------------------------------------------------------------------------

  function Next(c: Config, s: State, e: Event): State {
    match e
    case Allocate(opcode, body) => AllocateStep(c, s, opcode, body)
    case Enqueue(i) => EnqueueStep(s, i)
    case Write(i, reaches, ok) => WriteStep(s, i, reaches, ok)
    case Expire(i, reaches, ok) => ExpireStep(s, i, reaches, ok)
    case SeeDone(i) => SeeDoneStep(s, i)
    case TakeResponse(i) => TakeResponseStep(s, i)
    case TakeError(i) => TakeErrorStep(s, i)
    case ContextDone(i) => ContextDoneStep(s, i)
    case Cleanup(i) => CleanupStep(s, i)
    case CloseManager => CloseStep(s)
    case DuplicateUp(u) => if u in s.up then s.(up := s.up + multiset{u}) else s
    case DropUp(u) => s.(up := s.up - multiset{u})
    case ServerReceive(u, errorText, reaches) => ServerReceiveStep(c, s, u, errorText, reaches)
    case Answer(job, result, reaches) => AnswerStep(c, s, job, result, reaches)
    case DuplicateDown(d) => if d in s.down then s.(down := s.down + multiset{d}) else s
    case DropDown(d) => s.(down := s.down - multiset{d})
    case ClientReceive(d) => ClientReceiveStep(s, d)
  }

  function Run(c: Config, s: State, events: seq<Event>): State
    decreases |events|
  {
    if events == [] then s else Run(c, Next(c, s, events[0]), events[1..])
  }

  /** The call has not returned or its retry loop still runs. */
  predicate Outstanding(call: Call) {
    !call.phase.Returned? || call.looping
  }

  /** How many allocations it takes to come back to the same number. */
  function Cycle(c: Config): nat {
    MaxSeq(c.seqLen) - 1
  }

  /** Everything alive belongs to one of the last `Cycle - slack` calls. */
  ghost predicate Window(c: Config, s: State, slack: nat) {
    var n := |s.calls| + slack;
    && (forall i | 0 <= i < |s.calls| && Outstanding(s.calls[i]) :: n <= i + Cycle(c))
    && (forall u | u in s.up :: n <= u.call + Cycle(c))
    && (forall j | j in s.jobs :: n <= j.call + Cycle(c))
    && (forall d | d in s.down :: d.served < |s.served| && n <= s.served[d.served].call + Cycle(c))
  }

  /** What is asked of the environment: opcodes and lengths that fit, and, when a number is
      allocated, nothing left of the call that had it before. */
  ghost predicate Allowed(c: Config, s: State, e: Event) {
    match e
    case Allocate(opcode, body) => s.closed || (Sendable(c, opcode, body) && Window(c, s, 1))
    case ServerReceive(_, errorText, _) => Replyable(c, errorText)
    case Answer(_, result, _) => Replyable(c, ReplyBody(result))
    case _ => true
  }

  ghost predicate AllowedRun(c: Config, s: State, events: seq<Event>)
    decreases |events|
  {
    events == [] || (Allowed(c, s, events[0]) && AllowedRun(c, Next(c, s, events[0]), events[1..]))
  }

  // ---------------------------------------------------------------------------
  // The invariant
  // ---------------------------------------------------------------------------

  predicate Tabled(calls: seq<Call>, pending: map<nat, nat>, i: nat) {
    i < |calls| && calls[i].seqNo in pending && pending[calls[i].seqNo] == i
  }

  /** A call's identity, fixed when it is allocated. */
  ghost predicate CallOk(c: Config, call: Call, i: nat) {
    && call.seqNo == NthSeq(i, c.seqLen)
    && call.request.seqNo == call.seqNo
    && call.request.packet == RequestPacket(c, call.opcode, call.seqNo, call.body)
    && Sendable(c, call.opcode, call.body)
  }

  predicate AtMostOne(r: Request) {
    r.response.Empty? || r.error.Empty?
  }

  /** Something is there for the waiter to take. */
  predicate HasOutcome(r: Request) {
    r.response.Holding? || r.error.Holding?
  }

  /** The frame was written once by `SendRequest` and once for every expiry but a fourth, which
      ends the request instead; in the table there were at most three. */
  predicate Attempts(call: Call, tabled: bool) {
    var r := call.request;
    && r.retries <= MAX_RETRIES + 1 && (tabled ==> r.retries <= MAX_RETRIES)
    && (r.retries > MAX_RETRIES <==> r.error == Holding(MaxRetriesExceeded))
    && call.writes == (if call.phase.Allocated? || call.phase.Enqueued? then 0 else 1)
                      + (if r.retries > MAX_RETRIES then MAX_RETRIES else r.retries)
  }

  /** In the table a request is untouched; out of it, it was closed once and got at most one
      of the two outcomes, and got one unless its own call withdrew it. */
  predicate Settlement(call: Call, tabled: bool) {
    && Attempts(call, tabled)
    && if call.phase.Allocated? then !tabled && Open(call.request) && call.closes == 0
       else if tabled then Open(call.request) && call.closes == 0 && call.looping
       else
         && call.request.done && call.closes == 1 && AtMostOne(call.request)
         && (HasOutcome(call.request) || call.phase.Returned?)
  }

  /** The `k`-th reply was computed from call `i`'s own frame and `p` is that reply's frame. */
  ghost predicate AnswerAt(c: Config, served: seq<Served>, i: nat, call: Call, p: PacketData, k: nat) {
    && k < |served| && served[k].call == i
    && served[k].opcode == call.opcode && served[k].body == call.body
    && p == ResponsePacket(c, call.request.packet, served[k].reply)
  }

  ghost predicate Answered(c: Config, served: seq<Served>, i: nat, call: Call) {
    && (call.request.response.Holding? ==>
          exists k: nat :: AnswerAt(c, served, i, call, call.request.response.value, k))
    && (call.phase.Returned? && call.phase.answer.Holding? ==> call.request.response == call.phase.answer)
  }

  ghost predicate TableOk(calls: seq<Call>, pending: map<nat, nat>) {
    forall q | q in pending ::
      pending[q] < |calls| && calls[pending[q]].seqNo == q && !calls[pending[q]].phase.Allocated?
  }

  ghost predicate ClientOk(c: Config, calls: seq<Call>, pending: map<nat, nat>, served: seq<Served>) {
    && TableOk(calls, pending)
    && (forall i | 0 <= i < |calls| :: CallOk(c, calls[i], i))
    && (forall i | 0 <= i < |calls| :: Settlement(calls[i], Tabled(calls, pending, i)))
    && (forall i | 0 <= i < |calls| :: Answered(c, served, i, calls[i]))
  }

  /** Call `i` exists and its frame is `packet`. */
  predicate IsFrameOf(calls: seq<Call>, i: nat, packet: PacketData) {
    i < |calls| && calls[i].request.packet == packet
  }

  predicate UpOk(calls: seq<Call>, u: Up) {
    u.call < |calls| && u.bytes == EncodeFrame(calls[u.call].request.packet)
  }

  predicate ServedOk(c: Config, calls: seq<Call>, r: Served) {
    r.call < |calls| && r.opcode == calls[r.call].opcode && r.body == calls[r.call].body && Replyable(c, r.reply)
  }

  predicate DownOk(c: Config, calls: seq<Call>, served: seq<Served>, d: Down) {
    d.served < |served| && served[d.served].call < |calls| &&
    d.bytes == EncodeFrame(ResponsePacket(c, calls[served[d.served].call].request.packet, served[d.served].reply))
  }

  ghost predicate WireOk(c: Config, s: State) {
    && (forall u | u in s.up :: UpOk(s.calls, u))
    && (forall j | j in s.jobs :: IsFrameOf(s.calls, j.call, j.packet))
    && (forall k | 0 <= k < |s.served| :: ServedOk(c, s.calls, s.served[k]))
    && (forall d | d in s.down :: DownOk(c, s.calls, s.served, d))
  }

  ghost predicate Inv(c: Config, s: State) {
    && s.next == NthSeq(|s.calls|, c.seqLen)
    && ClientOk(c, s.calls, s.pending, s.served)
    && WireOk(c, s)
    && Window(c, s, 0)
  }

  // ---------------------------------------------------------------------------
  // One owner per number
  // ---------------------------------------------------------------------------

  lemma SameOwner(c: Config, n: nat, i: nat, j: nat)
    requires ConfigOk(c)
    requires i < n <= i + Cycle(c) && j < n <= j + Cycle(c)
    requires NthSeq(i, c.seqLen) == NthSeq(j, c.seqLen)
    ensures i == j
  {
    hide NthSeq;
    if i < j {
      NthDistinct(i, j, c.seqLen);
    } else if j < i {
      NthDistinct(j, i, c.seqLen);
    }
  }

  /** A number that a live call looks up in the table leads back to that call. */
  lemma OwnEntry(c: Config, s: State, i: nat)
    requires ConfigOk(c) && Inv(c, s) && i < |s.calls| && |s.calls| <= i + Cycle(c)
    requires s.calls[i].seqNo in s.pending
    ensures s.pending[s.calls[i].seqNo] == i
  {
    hide NthSeq, Sendable, Answered, WireOk;
    var q := s.calls[i].seqNo;
    var j := s.pending[q];
    assert CallOk(c, s.calls[i], i) && CallOk(c, s.calls[j], j);
    assert Tabled(s.calls, s.pending, j);
    assert Settlement(s.calls[j], true);
    SameOwner(c, |s.calls|, i, j);
  }

  // ---------------------------------------------------------------------------
  // What every event keeps
  // ---------------------------------------------------------------------------

  predicate SameIdentity(a: Call, b: Call) {
    a.opcode == b.opcode && a.body == b.body && a.seqNo == b.seqNo &&
    a.request.seqNo == b.request.seqNo && a.request.packet == b.request.packet
  }

  /** Calls are only added, and keep their identity. */
  ghost predicate Evolves(a: seq<Call>, b: seq<Call>) {
    |a| <= |b| && forall i | 0 <= i < |a| :: SameIdentity(a[i], b[i])
  }

  lemma WireKept(c: Config, s: State, t: State)
    requires WireOk(c, s) && Evolves(s.calls, t.calls)
    requires s.served <= t.served
    requires forall u | u in t.up :: u in s.up || UpOk(t.calls, u)
    requires forall j | j in t.jobs :: j in s.jobs || IsFrameOf(t.calls, j.call, j.packet)
    requires forall k | |s.served| <= k < |t.served| :: ServedOk(c, t.calls, t.served[k])
    requires forall d | d in t.down :: d in s.down || DownOk(c, t.calls, t.served, d)
    ensures WireOk(c, t)
  {
    hide EncodeFrame, ResponsePacket, Replyable;
    forall u | u in t.up ensures UpOk(t.calls, u) {
      if u in s.up {
        assert UpOk(s.calls, u) && SameIdentity(s.calls[u.call], t.calls[u.call]);
      }
    }
    forall j | j in t.jobs ensures IsFrameOf(t.calls, j.call, j.packet) {
      if j in s.jobs {
        assert IsFrameOf(s.calls, j.call, j.packet) && SameIdentity(s.calls[j.call], t.calls[j.call]);
      }
    }
    forall k | 0 <= k < |t.served| ensures ServedOk(c, t.calls, t.served[k]) {
      if k < |s.served| {
        assert ServedOk(c, s.calls, s.served[k]) && SameIdentity(s.calls[s.served[k].call], t.calls[s.served[k].call]);
      }
    }
    forall d | d in t.down ensures DownOk(c, t.calls, t.served, d) {
      if d in s.down {
        assert DownOk(c, s.calls, s.served, d);
        assert SameIdentity(s.calls[s.served[d.served].call], t.calls[s.served[d.served].call]);
      }
    }
  }

  /** A step that allocates nothing and gives life to nothing keeps the window. */
  lemma WindowKept(c: Config, s: State, t: State)
    requires Window(c, s, 0) && |t.calls| == |s.calls| && s.served <= t.served
    requires forall i | 0 <= i < |s.calls| && Outstanding(t.calls[i]) :: Outstanding(s.calls[i])
    requires forall u | u in t.up :: u in s.up || |t.calls| <= u.call + Cycle(c)
    requires forall j | j in t.jobs :: j in s.jobs || |t.calls| <= j.call + Cycle(c)
    requires forall d | d in t.down ::
               d in s.down || (d.served < |t.served| && |t.calls| <= t.served[d.served].call + Cycle(c))
    ensures Window(c, t, 0)
  {}

  /** Answers stay answers as the log of replies grows. */
  lemma AnsweredKept(c: Config, a: seq<Served>, b: seq<Served>, i: nat, call: Call)
    requires Answered(c, a, i, call) && a <= b
    ensures Answered(c, b, i, call)
  {
    hide ResponsePacket;
    if call.request.response.Holding? {
      var p := call.request.response.value;
      var k: nat :| AnswerAt(c, a, i, call, p, k);
      assert AnswerAt(c, b, i, call, p, k);
    }
  }

  lemma ClientServedKept(c: Config, calls: seq<Call>, pending: map<nat, nat>, a: seq<Served>, b: seq<Served>)
    requires ClientOk(c, calls, pending, a) && a <= b
    ensures ClientOk(c, calls, pending, b)
  {
    hide CallOk, Settlement, Answered, TableOk, Tabled;
    forall i | 0 <= i < |calls| ensures Answered(c, b, i, calls[i]) {
      AnsweredKept(c, a, b, i, calls[i]);
    }
  }

  /** Replacing one call by a version of itself that is right for its place in the table. */
  lemma ClientSet(c: Config, calls: seq<Call>, pending: map<nat, nat>, served: seq<Served>,
                  i: nat, call: Call, pending': map<nat, nat>)
    requires ClientOk(c, calls, pending, served) && i < |calls|
    requires SameIdentity(calls[i], call) && (call.phase.Allocated? ==> calls[i].phase.Allocated?)
    requires pending' == pending || pending' == pending - {call.seqNo} || pending' == pending[call.seqNo := i]
    requires pending' != pending && call.seqNo in pending ==> pending[call.seqNo] == i
    requires call.seqNo in pending' && pending'[call.seqNo] == i ==> !call.phase.Allocated?
    requires Settlement(call, Tabled(calls[i := call], pending', i)) && Answered(c, served, i, call)
    ensures ClientOk(c, calls[i := call], pending', served)
  {
    hide Sendable, NthSeq, RequestPacket, Answered, Settlement;
    var calls' := calls[i := call];
    assert CallOk(c, calls[i], i);
    forall j | 0 <= j < |calls| && j != i ensures Tabled(calls', pending', j) == Tabled(calls, pending, j) {
      if calls[j].seqNo == call.seqNo && call.seqNo in pending && pending[call.seqNo] == j {
        assert Tabled(calls, pending, j);
      }
    }
    forall j | 0 <= j < |calls| ensures Settlement(calls'[j], Tabled(calls', pending', j)) {
      if j != i {
        assert Settlement(calls[j], Tabled(calls, pending, j));
      }
    }
    forall j | 0 <= j < |calls| ensures Answered(c, served, j, calls'[j]) {
      assert j != i ==> Answered(c, served, j, calls[j]);
    }
  }

  /** A step on call `i` alone: its record, its entry in the table and perhaps its frame. */
  lemma CallStepKeeps(c: Config, s: State, i: nat, call: Call, pending': map<nat, nat>, reaches: bool)
    requires Inv(c, s) && i < |s.calls|
    requires SameIdentity(s.calls[i], call) && (call.phase.Allocated? ==> s.calls[i].phase.Allocated?)
    requires pending' == s.pending || pending' == s.pending - {call.seqNo} || pending' == s.pending[call.seqNo := i]
    requires pending' != s.pending && call.seqNo in s.pending ==> s.pending[call.seqNo] == i
    requires call.seqNo in pending' && pending'[call.seqNo] == i ==> !call.phase.Allocated?
    requires Settlement(call, Tabled(s.calls[i := call], pending', i)) && Answered(c, s.served, i, call)
    requires Outstanding(call) || reaches ==> Outstanding(s.calls[i])
    ensures Inv(c, SetCall(s, i, call).(pending := pending', up := s.up + Launched(s, i, reaches)))
  {
    hide ClientOk, Settlement, Answered, EncodeFrame, NthSeq, UpOk, DownOk, ServedOk, IsFrameOf, Outstanding;
    var t := SetCall(s, i, call).(pending := pending', up := s.up + Launched(s, i, reaches));
    ClientSet(c, s.calls, s.pending, s.served, i, call, pending');
    LaunchedOk(s, i, call, reaches);
    assert Evolves(s.calls, t.calls);
    WireKept(c, s, t);
    hide WireOk;
    WindowKept(c, s, t);
  }

  lemma LaunchedOk(s: State, i: nat, call: Call, reaches: bool)
    requires i < |s.calls| && SameIdentity(s.calls[i], call)
    ensures forall u | u in s.up + Launched(s, i, reaches) ::
              u in s.up || (reaches && u.call == i && UpOk(s.calls[i := call], u))
  {
    hide EncodeFrame;
  }

  lemma CallParts(c: Config, s: State, i: nat)
    requires Inv(c, s) && i < |s.calls|
    ensures Settlement(s.calls[i], Tabled(s.calls, s.pending, i)) && Answered(c, s.served, i, s.calls[i])
    ensures CallOk(c, s.calls[i], i)
    ensures s.calls[i].seqNo in s.pending && s.pending[s.calls[i].seqNo] == i ==> !s.calls[i].phase.Allocated?
    ensures Outstanding(s.calls[i]) ==> |s.calls| <= i + Cycle(c)
  {
    hide CallOk, Settlement, Answered, Outstanding, Tabled, WireOk, NthSeq;
  }

  lemma AnsweredAlike(c: Config, served: seq<Served>, i: nat, a: Call, b: Call)
    requires Answered(c, served, i, a) && SameIdentity(a, b)
    requires b.request.response.Empty? || b.request.response == a.request.response
    requires (b.phase == a.phase && b.request.response == a.request.response)
          || (b.phase.Returned? && b.phase.answer.Holding? ==> b.request.response == b.phase.answer)
    ensures Answered(c, served, i, b)
  {
    hide ResponsePacket;
    if b.request.response.Holding? {
      var p := b.request.response.value;
      var k: nat :| AnswerAt(c, served, i, a, p, k);
      assert AnswerAt(c, served, i, b, p, k);
    }
  }

  lemma Unsent(s: State, i: nat, call: Call)
    requires i < |s.calls|
    ensures SetCall(s, i, call).(pending := s.pending, up := s.up + Launched(s, i, false)) == SetCall(s, i, call)
  {
    hide EncodeFrame;
  }

  lemma EnqueueKeeps(c: Config, s: State, i: nat)
    requires ConfigOk(c) && Inv(c, s)
    ensures Inv(c, EnqueueStep(s, i))
  {
    hide NthSeq, Sendable, EncodeFrame, RequestPacket, ClientOk, WireOk, Window, Inv;
    if i < |s.calls| && s.calls[i].phase.Allocated? {
      CallParts(c, s, i);
      var call := s.calls[i].(phase := Enqueued, looping := true);
      if call.seqNo in s.pending {
        OwnEntry(c, s, i);
      }
      AnsweredAlike(c, s.served, i, s.calls[i], call);
      CallStepKeeps(c, s, i, call, s.pending[call.seqNo := i], false);
      assert s.up + Launched(s, i, false) == s.up;
    }
  }

  lemma WriteKeeps(c: Config, s: State, i: nat, reaches: bool, ok: bool)
    requires ConfigOk(c) && Inv(c, s)
    ensures Inv(c, WriteStep(s, i, reaches, ok))
  {
    hide NthSeq, Sendable, EncodeFrame, RequestPacket, ClientOk, WireOk, Window, Inv;
    if i < |s.calls| && s.calls[i].phase.Enqueued? {
      CallParts(c, s, i);
      var call := s.calls[i].(phase := if ok then Waiting else Failing, writes := s.calls[i].writes + 1);
      AnsweredAlike(c, s.served, i, s.calls[i], call);
      CallStepKeeps(c, s, i, call, s.pending, reaches);
    }
  }

  lemma ExpireKeeps(c: Config, s: State, i: nat, reaches: bool, ok: bool)
    requires ConfigOk(c) && Inv(c, s)
    ensures Inv(c, ExpireStep(s, i, reaches, ok))
  {
    hide NthSeq, Sendable, EncodeFrame, RequestPacket, ClientOk, WireOk, Window, Inv;
    if i < |s.calls| && s.calls[i].looping {
      var call := s.calls[i];
      CallParts(c, s, i);
      if call.seqNo !in s.pending {
        var stopped := call.(looping := false);
        AnsweredAlike(c, s.served, i, call, stopped);
        CallStepKeeps(c, s, i, stopped, s.pending, false);
        Unsent(s, i, stopped);
      } else {
        OwnEntry(c, s, i);
        var writes := call.request.retries + 1 <= MAX_RETRIES;
        var sends := reaches && writes;
        var after := call.(request := Expired(call.request, ok), writes := call.writes + if writes then 1 else 0);
        if GivesUp(call.request, ok) {
          var ended := after.(closes := call.closes + 1, looping := false);
          AnsweredAlike(c, s.served, i, call, ended);
          CallStepKeeps(c, s, i, ended, s.pending - {call.seqNo}, sends);
        } else {
          AnsweredAlike(c, s.served, i, call, after);
          CallStepKeeps(c, s, i, after, s.pending, sends);
        }
      }
    }
  }

  lemma SeeDoneKeeps(c: Config, s: State, i: nat)
    requires ConfigOk(c) && Inv(c, s)
    ensures Inv(c, SeeDoneStep(s, i))
  {
    hide NthSeq, Sendable, EncodeFrame, RequestPacket, ClientOk, WireOk, Window, Inv;
    if i < |s.calls| && s.calls[i].request.done {
      CallParts(c, s, i);
      var call := s.calls[i].(looping := false);
      AnsweredAlike(c, s.served, i, s.calls[i], call);
      CallStepKeeps(c, s, i, call, s.pending, false);
      Unsent(s, i, call);
    }
  }

  lemma WaitKeeps(c: Config, s: State, i: nat)
    requires ConfigOk(c) && Inv(c, s)
    ensures Inv(c, TakeResponseStep(s, i))
    ensures Inv(c, TakeErrorStep(s, i))
    ensures Inv(c, ContextDoneStep(s, i))
  {
    hide NthSeq, Sendable, EncodeFrame, RequestPacket, ClientOk, WireOk, Window, Inv;
    if i < |s.calls| && s.calls[i].phase.Waiting? {
      var call := s.calls[i];
      CallParts(c, s, i);
      var failing := call.(phase := Failing);
      AnsweredAlike(c, s.served, i, call, failing);
      CallStepKeeps(c, s, i, failing, s.pending, false);
      Unsent(s, i, failing);
      if call.request.response.Holding? {
        var t := call.(phase := Returned(call.request.response));
        AnsweredAlike(c, s.served, i, call, t);
        CallStepKeeps(c, s, i, t, s.pending, false);
        Unsent(s, i, t);
      }
    }
  }

  lemma CleanupKeeps(c: Config, s: State, i: nat)
    requires ConfigOk(c) && Inv(c, s)
    ensures Inv(c, CleanupStep(s, i))
  {
    hide NthSeq, Sendable, EncodeFrame, RequestPacket, ClientOk, WireOk, Window, Inv;
    if i < |s.calls| && s.calls[i].phase.Failing? {
      CallParts(c, s, i);
      var call := s.calls[i];
      if call.seqNo in s.pending {
        OwnEntry(c, s, i);
        var removed := call.(request := Removed(call.request), closes := call.closes + 1, phase := Returned(Empty));
        AnsweredAlike(c, s.served, i, call, removed);
        CallStepKeeps(c, s, i, removed, s.pending - {call.seqNo}, false);
        assert s.up + Launched(s, i, false) == s.up;
        assert CleanupStep(s, i).calls == SetCall(s, i, removed).calls;
      } else {
        var failed := call.(phase := Returned(Empty));
        AnsweredAlike(c, s.served, i, call, failed);
        CallStepKeeps(c, s, i, failed, s.pending, false);
        Unsent(s, i, failed);
      }
    }
  }

  /** A number nothing alive still carries is free in the table. */
  lemma NextIsFree(c: Config, s: State)
    requires ConfigOk(c) && Inv(c, s) && Window(c, s, 1)
    ensures s.next !in s.pending
    ensures AllocateFrom(s.next, s.pending.Keys, c.seqLen) == Allocation(s.next, NthSeq(|s.calls| + 1, c.seqLen))
  {
    hide NthSeq, Sendable, EncodeFrame, RequestPacket, WireOk, Answered, Advance;
    var n := |s.calls|;
    forall q | q in s.pending.Keys
      ensures exists j: nat :: j < n < j + MaxSeq(c.seqLen) - 1 && q == NthSeq(j, c.seqLen)
    {
      var j := s.pending[q];
      assert CallOk(c, s.calls[j], j) && Tabled(s.calls, s.pending, j) && Settlement(s.calls[j], true);
      assert Outstanding(s.calls[j]);
    }
    RecentIsFresh(n, s.pending.Keys, c.seqLen);
    NthAdvances(n, c.seqLen);
  }

  lemma ClientAppend(c: Config, calls: seq<Call>, pending: map<nat, nat>, served: seq<Served>, call: Call)
    requires ClientOk(c, calls, pending, served)
    requires CallOk(c, call, |calls|) && call.seqNo !in pending
    requires call.phase.Allocated? && Open(call.request) && call.closes == 0
    requires call.writes == call.request.retries == 0
    ensures ClientOk(c, calls + [call], pending, served)
  {
    hide CallOk, AnswerAt;
    var calls' := calls + [call];
    assert Settlement(call, false) && Answered(c, served, |calls|, call);
    hide Settlement, Answered;
    forall j | 0 <= j < |calls| ensures Tabled(calls', pending, j) == Tabled(calls, pending, j) {}
    forall j | 0 <= j < |calls'|
      ensures Settlement(calls'[j], Tabled(calls', pending, j)) && Answered(c, served, j, calls'[j])
                                      && CallOk(c, calls'[j], j) {
      if j < |calls| {
        assert Settlement(calls[j], Tabled(calls, pending, j)) && Answered(c, served, j, calls[j]) &&
               CallOk(c, calls[j], j);
      }
    }
  }

  lemma AllocateKeeps(c: Config, s: State, opcode: bv32, body: seq<Byte>)
    requires ConfigOk(c) && Inv(c, s) && Allowed(c, s, Allocate(opcode, body))
    ensures Inv(c, AllocateStep(c, s, opcode, body))
  {
    hide NthSeq, Sendable, EncodeFrame, RequestPacket, ResponsePacket, AllocateFrom, UpOk, DownOk, ServedOk;
    hide IsFrameOf, ClientOk;
    if !s.closed {
      NextIsFree(c, s);
      var t := AllocateStep(c, s, opcode, body);
      ClientAppend(c, s.calls, s.pending, s.served, t.calls[|s.calls|]);
      WireKept(c, s, t);
      hide WireOk, Outstanding;
      assert MaxSeq(c.seqLen) > 1;
    }
  }

  lemma CloseKeeps(c: Config, s: State)
    requires ConfigOk(c) && Inv(c, s)
    ensures Inv(c, CloseStep(s))
  {
    hide NthSeq, Sendable, EncodeFrame, RequestPacket, ResponsePacket, UpOk, DownOk, ServedOk, IsFrameOf;
    hide WireOk, Window, ClientOk;
    var t := CloseStep(s);
    CloseClient(c, s);
    assert Evolves(s.calls, t.calls);
    WireKept(c, s, t);
    WindowKept(c, s, t);
  }

  lemma CloseClient(c: Config, s: State)
    requires ClientOk(c, s.calls, s.pending, s.served)
    ensures var t := CloseStep(s); ClientOk(c, t.calls, t.pending, t.served)
  {
    hide NthSeq, Sendable, RequestPacket, Answered, Settlement, ClosedCall, CallOk;
    var t := CloseStep(s);
    forall i | 0 <= i < |t.calls|
      ensures CallOk(c, t.calls[i], i) && Settlement(t.calls[i], Tabled(t.calls, t.pending, i)) &&
              Answered(c, t.served, i, t.calls[i])
    {
      InTable(s, i);
      assert t.calls[i] == ClosedCall(s.calls[i], Tabled(s.calls, s.pending, i));
      CloseCall(c, s.served, i, s.calls[i], Tabled(s.calls, s.pending, i));
    }
  }

  lemma CloseCall(c: Config, served: seq<Served>, i: nat, call: Call, tabled: bool)
    requires CallOk(c, call, i) && Settlement(call, tabled) && Answered(c, served, i, call)
    ensures var closed := ClosedCall(call, tabled);
            CallOk(c, closed, i) && Settlement(closed, false) && Answered(c, served, i, closed)
  {
    hide NthSeq, Sendable, RequestPacket, Answered;
    AnsweredAlike(c, served, i, call, ClosedCall(call, tabled));
  }

  lemma InTable(s: State, i: nat)
    requires TableOk(s.calls, s.pending) && i < |s.calls|
    ensures i in s.pending.Values <==> Tabled(s.calls, s.pending, i)
  {
    if i in s.pending.Values {
      var q :| q in s.pending && s.pending[q] == i;
    }
    if Tabled(s.calls, s.pending, i) {
      assert s.pending[s.calls[i].seqNo] in s.pending.Values;
    }
  }

  /** Losing, copying and reordering frames keeps everything. */
  lemma NetworkKeeps(c: Config, s: State, t: State)
    requires Inv(c, s)
    requires t == s.(up := t.up, jobs := t.jobs, down := t.down)
    requires forall u | u in t.up :: u in s.up
    requires forall j | j in t.jobs :: j in s.jobs
    requires forall d | d in t.down :: d in s.down
    ensures Inv(c, t)
  {
    hide NthSeq, ClientOk, UpOk, DownOk, ServedOk, IsFrameOf, Outstanding, Cycle;
  }

  lemma UpParts(c: Config, s: State, i: nat)
    requires ConfigOk(c) && Inv(c, s) && i < |s.calls|
    ensures s.calls[i].request.packet == RequestPacket(c, s.calls[i].opcode, s.calls[i].seqNo, s.calls[i].body)
    ensures SeqInRange(c, s.calls[i].seqNo) && Sendable(c, s.calls[i].opcode, s.calls[i].body)
  {
    hide NthSeq, Sendable, RequestPacket, WireOk;
    assert CallOk(c, s.calls[i], i);
    NthAdvances(i, c.seqLen);
  }

  /** The server's reply to a frame of call `i`. */
  lemma ReplyKeeps(c: Config, s: State, i: nat, reply: seq<Byte>, reaches: bool)
    requires ConfigOk(c) && Inv(c, s) && i < |s.calls| && |s.calls| <= i + Cycle(c) && Replyable(c, reply)
    ensures Inv(c, ReplyStep(c, s, i, s.calls[i].request.packet, reply, reaches))
  {
    hide NthSeq, ClientOk, Sendable, EncodeFrame, ResponsePacket, UpOk, IsFrameOf, Outstanding, Cycle, Replyable;
    var t := ReplyStep(c, s, i, s.calls[i].request.packet, reply, reaches);
    RequestContents(c, s, i);
    ClientServedKept(c, s.calls, s.pending, s.served, t.served);
    var k := |s.served|;
    assert t.served[k] == Served(i, s.calls[i].opcode, s.calls[i].body, reply);
    forall d | d in t.down ensures d in s.down || (d.served == k && DownOk(c, t.calls, t.served, d)) {}
    assert Evolves(s.calls, t.calls);
    WireKept(c, s, t);
    hide WireOk, DownOk, ServedOk;
    WindowKept(c, s, t);
  }

  lemma RequestContents(c: Config, s: State, i: nat)
    requires Inv(c, s) && i < |s.calls|
    ensures s.calls[i].request.packet.opcode == s.calls[i].opcode && s.calls[i].request.packet.body == s.calls[i].body
  {
    assert CallOk(c, s.calls[i], i);
  }

  lemma HandlerStarts(c: Config, s: State, i: nat)
    requires Inv(c, s) && i < |s.calls| && |s.calls| <= i + Cycle(c)
    ensures Inv(c, s.(jobs := s.jobs + multiset{Job(i, s.calls[i].request.packet)}))
  {
    hide NthSeq, ClientOk, UpOk, DownOk, ServedOk, Outstanding, Cycle;
    var t := s.(jobs := s.jobs + multiset{Job(i, s.calls[i].request.packet)});
    assert Evolves(s.calls, t.calls);
    WireKept(c, s, t);
    hide WireOk;
    WindowKept(c, s, t);
  }

  lemma ServerReceiveKeeps(c: Config, s: State, u: Up, errorText: seq<Byte>, reaches: bool)
    requires ConfigOk(c) && Inv(c, s) && Replyable(c, errorText)
    ensures Inv(c, ServerReceiveStep(c, s, u, errorText, reaches))
  {
    hide NthSeq, ClientOk, Sendable, EncodeFrame, RequestPacket, ResponsePacket, Packets, DownOk, ServedOk;
    hide Outstanding, Cycle, Replyable;
    if u in s.up {
      var t := s.(up := s.up - multiset{u});
      NetworkKeeps(c, s, t);
      assert UpOk(s.calls, u);
      var call := s.calls[u.call];
      UpParts(c, s, u.call);
      RequestDecodes(c, call.opcode, call.seqNo, call.body);
      var f := call.request.packet;
      assert Packets(u.bytes) == [f];
      if f.opcode !in c.handlers {
        ReplyKeeps(c, t, u.call, errorText, reaches);
      } else {
        HandlerStarts(c, t, u.call);
      }
    }
  }

  lemma AnswerKeeps(c: Config, s: State, job: Job, result: HandlerResult, reaches: bool)
    requires ConfigOk(c) && Inv(c, s) && Replyable(c, ReplyBody(result))
    ensures Inv(c, AnswerStep(c, s, job, result, reaches))
  {
    hide NthSeq, ClientOk, EncodeFrame, ResponsePacket, UpOk, DownOk, ServedOk, Outstanding, Cycle, Replyable;
    hide ReplyBody;
    if job in s.jobs {
      var t := s.(jobs := s.jobs - multiset{job});
      NetworkKeeps(c, s, t);
      assert IsFrameOf(s.calls, job.call, job.packet);
      ReplyKeeps(c, t, job.call, ReplyBody(result), reaches);
    }
  }

  /** A response finds the call its request came from, or nobody. */
  lemma ClientReceiveKeeps(c: Config, s: State, d: Down)
    requires ConfigOk(c) && Inv(c, s)
    ensures Inv(c, ClientReceiveStep(s, d))
  {
    hide NthSeq, ClientOk, Sendable, EncodeFrame, RequestPacket, ResponsePacket, Packets, UpOk, Outstanding, Replyable;
    hide IsFrameOf, Settlement, Answered;
    if d in s.down {
      var t := s.(down := s.down - multiset{d});
      NetworkKeeps(c, s, t);
      assert DownOk(c, s.calls, s.served, d);
      var i, reply := s.served[d.served].call, s.served[d.served].reply;
      assert ServedOk(c, s.calls, s.served[d.served]);
      var call := s.calls[i];
      UpParts(c, s, i);
      ResponseDecodes(c, call.opcode, call.seqNo, call.body, reply);
      var f := ResponsePacket(c, call.request.packet, reply);
      assert Packets(d.bytes) == [f];
      hide Inv, WireOk, Window, DownOk, ServedOk;
      if call.seqNo in t.pending {
        WindowOfDown(c, s, d);
        OwnEntry(c, t, i);
        ResolveKeeps(c, t, i, d.served);
      }
    }
  }

  lemma WindowOfDown(c: Config, s: State, d: Down)
    requires Inv(c, s) && d in s.down
    ensures d.served < |s.served| && |s.calls| <= s.served[d.served].call + Cycle(c)
  {}

  lemma ResolvedAnswered(c: Config, served: seq<Served>, i: nat, call: Call, k: nat, tabled: bool)
    requires Settlement(call, tabled) && tabled && Answered(c, served, i, call)
    requires k < |served| && served[k].call == i && served[k].opcode == call.opcode && served[k].body == call.body
    ensures var f := ResponsePacket(c, call.request.packet, served[k].reply);
            Answered(c, served, i, call.(request := Resolved(call.request, f), closes := call.closes + 1))
  {
    hide ResponsePacket;
    var f := ResponsePacket(c, call.request.packet, served[k].reply);
    var resolved := call.(request := Resolved(call.request, f), closes := call.closes + 1);
    assert AnswerAt(c, served, i, resolved, f, k);
  }

  lemma ResolveKeeps(c: Config, s: State, i: nat, k: nat)
    requires ConfigOk(c) && Inv(c, s) && i < |s.calls| && Tabled(s.calls, s.pending, i)
    requires k < |s.served| && s.served[k].call == i
    ensures Inv(c, TakeOut(s, s.calls[i].seqNo,
                           Holding(ResponsePacket(c, s.calls[i].request.packet, s.served[k].reply))))
  {
    hide NthSeq, ClientOk, Sendable, EncodeFrame, RequestPacket, ResponsePacket, Replyable;
    var call := s.calls[i];
    CallParts(c, s, i);
    assert ServedOk(c, s.calls, s.served[k]);
    var f := ResponsePacket(c, call.request.packet, s.served[k].reply);
    var resolved := call.(request := Resolved(call.request, f), closes := call.closes + 1);
    hide WireOk, Window, Inv;
    ResolvedAnswered(c, s.served, i, call, k, Tabled(s.calls, s.pending, i));
    assert Settlement(resolved, false);
    hide Answered, ServedOk, Settlement;
    CallStepKeeps(c, s, i, resolved, s.pending - {call.seqNo}, false);
    assert s.up + Launched(s, i, false) == s.up;
    assert TakeOut(s, call.seqNo, Holding(f)) == SetCall(s, i, resolved).(pending := s.pending - {call.seqNo});
  }

  lemma StepKeeps(c: Config, s: State, e: Event)
    requires ConfigOk(c) && Inv(c, s) && Allowed(c, s, e)
    ensures Inv(c, Next(c, s, e))
  {
    hide Inv, AllocateStep, EnqueueStep, WriteStep, ExpireStep, SeeDoneStep, TakeResponseStep, TakeErrorStep;
    hide ContextDoneStep, CleanupStep, CloseStep, ServerReceiveStep, AnswerStep, ClientReceiveStep, Window;
    hide Sendable, Replyable;
    match e
    case Allocate(opcode, body) => AllocateKeeps(c, s, opcode, body);
    case Enqueue(i) => EnqueueKeeps(c, s, i);
    case Write(i, reaches, ok) => WriteKeeps(c, s, i, reaches, ok);
    case Expire(i, reaches, ok) => ExpireKeeps(c, s, i, reaches, ok);
    case SeeDone(i) => SeeDoneKeeps(c, s, i);
    case TakeResponse(i) => WaitKeeps(c, s, i);
    case TakeError(i) => WaitKeeps(c, s, i);
    case ContextDone(i) => WaitKeeps(c, s, i);
    case Cleanup(i) => CleanupKeeps(c, s, i);
    case CloseManager => CloseKeeps(c, s);
    case ServerReceive(u, errorText, reaches) => ServerReceiveKeeps(c, s, u, errorText, reaches);
    case Answer(job, result, reaches) => AnswerKeeps(c, s, job, result, reaches);
    case ClientReceive(d) => ClientReceiveKeeps(c, s, d);
    case _ => LossKeeps(c, s, e);
  }

  lemma LossKeeps(c: Config, s: State, e: Event)
    requires Inv(c, s) && (e.DuplicateUp? || e.DropUp? || e.DuplicateDown? || e.DropDown?)
    ensures Inv(c, Next(c, s, e))
  {
    hide Inv;
    NetworkKeeps(c, s, Next(c, s, e));
  }

  lemma {:induction false} RunKeeps(c: Config, s: State, events: seq<Event>)
    requires ConfigOk(c) && Inv(c, s) && AllowedRun(c, s, events)
    ensures Inv(c, Run(c, s, events))
    decreases |events|
  {
    hide Inv, Next, Allowed;
    if events != [] {
      StepKeeps(c, s, events[0]);
      RunKeeps(c, Next(c, s, events[0]), events[1..]);
    }
  }

  lemma InitInv(c: Config)
    requires ConfigOk(c)
    ensures Inv(c, Init())
  {
    FirstSeq(c.seqLen);
    hide NthSeq;
  }

  // ---------------------------------------------------------------------------
  // The theorems
  // ---------------------------------------------------------------------------

  /** In every run, a `SendRequest` that returns a response returns what the server computed
      from that request's own opcode and body, under that request's number. */
  lemma ResponsesAreOwn(c: Config, events: seq<Event>, i: nat)
    requires ConfigOk(c) && AllowedRun(c, Init(), events)
    requires var s := Run(c, Init(), events);
             i < |s.calls| && s.calls[i].phase.Returned? && s.calls[i].phase.answer.Holding?
    ensures var s := Run(c, Init(), events);
            var call, p := s.calls[i], s.calls[i].phase.answer.value;
            IsResponse(p.flags) && SeqOf(p.seqNo) == call.seqNo && p.opcode == call.opcode &&
            exists k: nat :: k < |s.served| && s.served[k] == Served(i, call.opcode, call.body, p.body)
  {
    InitInv(c);
    RunKeeps(c, Init(), events);
    var s := Run(c, Init(), events);
    hide Run, AllowedRun, Init, NthSeq, EncodeFrame, ResponsePacket, RequestPacket, Sendable, Replyable, Packets;
    var call, p := s.calls[i], s.calls[i].phase.answer.value;
    assert Answered(c, s.served, i, call);
    var k: nat :| AnswerAt(c, s.served, i, call, p, k);
    assert ServedOk(c, s.calls, s.served[k]);
    hide Window, ClientOk;
    UpParts(c, s, i);
    ResponseDecodes(c, call.opcode, call.seqNo, call.body, s.served[k].reply);
    ResponseContents(c, call.request.packet, s.served[k].reply);
    RequestContents(c, s, i);
    assert s.served[k] == Served(i, call.opcode, call.body, p.body);
  }

  lemma ResponseContents(c: Config, request: PacketData, reply: seq<Byte>)
    ensures var p := ResponsePacket(c, request, reply); p.body == reply && p.opcode == request.opcode
  {}

  /** In every reachable state: a request in the table is untouched; one that has left it had
      `done` closed exactly once and holds at most one of a response and an error; and it holds
      exactly one for as long as its call has not returned, so no waiter is left without a wake-up. */
  lemma ClosedExactlyOnce(c: Config, events: seq<Event>, i: nat)
    requires ConfigOk(c) && AllowedRun(c, Init(), events)
    requires i < |Run(c, Init(), events).calls|
    ensures var s := Run(c, Init(), events);
            var call := s.calls[i];
            && call.closes == (if call.phase.Allocated? || Tabled(s.calls, s.pending, i) then 0 else 1)
            && call.request.done == (call.closes == 1)
            && (!call.request.done ==> call.request.response.Empty? && call.request.error.Empty?)
            && (call.request.response.Empty? || call.request.error.Empty?)
            && (call.request.done && !call.phase.Returned? ==>
                  call.request.response.Holding? != call.request.error.Holding?)
  {
    InitInv(c);
    RunKeeps(c, Init(), events);
    hide Run, AllowedRun, Init, NthSeq, WireOk, CallOk, Answered, Window;
    var s := Run(c, Init(), events);
    assert Settlement(s.calls[i], Tabled(s.calls, s.pending, i));
  }

  /** In every reachable state, under any expiries, failed writes, closes and responses: a request
      in the table outlived at most three expiries, its frame was written at most four times, and
      it failed for too many retries exactly when a fourth expiry found it there. */
  lemma RetriesBounded(c: Config, events: seq<Event>, i: nat)
    requires ConfigOk(c) && AllowedRun(c, Init(), events)
    requires i < |Run(c, Init(), events).calls|
    ensures var s := Run(c, Init(), events);
            var call := s.calls[i];
            && (Tabled(s.calls, s.pending, i) ==> call.request.retries <= 3)
            && call.writes <= 4
            && (call.request.error == Holding(MaxRetriesExceeded) <==> call.request.retries == 4)
            && (call.request.error == Holding(MaxRetriesExceeded) && !call.phase.Enqueued? ==> call.writes == 4)
  {
    InitInv(c);
    RunKeeps(c, Init(), events);
    hide Run, AllowedRun, Init, NthSeq, WireOk, CallOk, Answered, Window;
    var s := Run(c, Init(), events);
    assert Settlement(s.calls[i], Tabled(s.calls, s.pending, i));
  }

  /** In every reachable state from which a number may be allocated, that number is free, so
      the table never loses an entry to another and the collision skip is never taken. */
  lemma NumbersAreFresh(c: Config, events: seq<Event>)
    requires ConfigOk(c) && AllowedRun(c, Init(), events)
    ensures var s := Run(c, Init(), events);
            && (forall i | 0 <= i < |s.calls| :: s.calls[i].seqNo == NthSeq(i, c.seqLen))
            && (Window(c, s, 1) ==>
                  s.next !in s.pending && AllocateFrom(s.next, s.pending.Keys, c.seqLen).seqNo == s.next)
  {
    InitInv(c);
    RunKeeps(c, Init(), events);
    hide Run, AllowedRun, Init, NthSeq, WireOk, Answered, Sendable, RequestPacket;
    var s := Run(c, Init(), events);
    forall i | 0 <= i < |s.calls| ensures s.calls[i].seqNo == NthSeq(i, c.seqLen) {
      assert CallOk(c, s.calls[i], i);
    }
    if Window(c, s, 1) {
      NextIsFree(c, s);
    }
  }

  /** The window cannot be one allocation wider. If a response is still in flight when its
      number comes round again, the new call can return it, though the server never saw the new
      call's request. */
  lemma StaleReplyMisdelivered(c: Config, s: State, d: Down, opcode: bv32, body: seq<Byte>)
    requires ConfigOk(c) && Inv(c, s) && !s.closed && Sendable(c, opcode, body)
    requires d in s.down && s.next !in s.pending
    requires d.served < |s.served| && s.served[d.served].call + Cycle(c) == |s.calls|
    ensures var n := |s.calls|;
            var t := Run(c, s,
                         [Allocate(opcode, body), Enqueue(n), Write(n, true, true), ClientReceive(d), TakeResponse(n)]);
            && n < |t.calls| && t.calls[n].opcode == opcode && t.calls[n].body == body
            && t.calls[n].phase.Returned? && t.calls[n].phase.answer.Holding?
            && t.calls[n].phase.answer.value.body == s.served[d.served].reply
            && t.served == s.served && forall k | 0 <= k < |t.served| :: t.served[k].call != n
  {
    hide Run, Next, NthSeq, EncodeFrame, ResponsePacket, RequestPacket, Sendable, Replyable, Packets;
    var f := ResponsePacket(c, s.calls[s.served[d.served].call].request.packet, s.served[d.served].reply);
    forall k | 0 <= k < |s.served| ensures s.served[k].call != |s.calls| {
      assert ServedOk(c, s.calls, s.served[k]);
    }
    StaleFrame(c, s, d);
    hide Inv;
    FrameReachesNewCall(c, s, d, f, opcode, body);
  }

  /** A response in flight for a whole cycle carries the number about to be allocated. */
  lemma StaleFrame(c: Config, s: State, d: Down)
    requires ConfigOk(c) && Inv(c, s) && d in s.down && d.served < |s.served|
    requires s.served[d.served].call + Cycle(c) == |s.calls|
    ensures var r := s.served[d.served];
            var f := ResponsePacket(c, s.calls[r.call].request.packet, r.reply);
            Packets(d.bytes) == [f] && IsResponse(f.flags) && SeqOf(f.seqNo) == s.next && f.body == r.reply
  {
    hide NthSeq, EncodeFrame, ResponsePacket, RequestPacket, Sendable, Replyable, Packets, Window;
    var r := s.served[d.served];
    var call := s.calls[r.call];
    assert DownOk(c, s.calls, s.served, d) && ServedOk(c, s.calls, r) && CallOk(c, call, r.call);
    UpParts(c, s, r.call);
    ResponseDecodes(c, call.opcode, call.seqNo, call.body, r.reply);
    ResponseContents(c, call.request.packet, r.reply);
    NthRepeats(r.call, c.seqLen);
  }

  lemma FrameReachesNewCall(c: Config, s: State, d: Down, f: PacketData, opcode: bv32, body: seq<Byte>)
    requires !s.closed && d in s.down && s.next !in s.pending
    requires Packets(d.bytes) == [f] && IsResponse(f.flags) && SeqOf(f.seqNo) == s.next
    ensures var n := |s.calls|;
            var t := Run(c, s,
                         [Allocate(opcode, body), Enqueue(n), Write(n, true, true), ClientReceive(d), TakeResponse(n)]);
            && n < |t.calls| && t.calls[n].opcode == opcode && t.calls[n].body == body
            && t.calls[n].phase == Returned(Holding(f)) && t.served == s.served
  {
    hide Run, EncodeFrame, RequestPacket, Packets, SeqOf, Next, EnqueueStep, WriteStep, ClientReceiveStep;
    hide TakeResponseStep, Awaiting;
    var n := |s.calls|;
    var events := [Allocate(opcode, body), Enqueue(n), Write(n, true, true), ClientReceive(d), TakeResponse(n)];
    var s1 := AllocateStep(c, s, opcode, body);
    var s2 := EnqueueStep(s1, n);
    var s3 := WriteStep(s2, n, true, true);
    NewCallAwaits(s1, n);
    var s4 := ClientReceiveStep(s3, d);
    ReceivedAndTaken(s3, n, d, f);
    var s5 := TakeResponseStep(s4, n);
    hide AllocateStep;
    NextIs(c, s, s1, s2, s3, s4, opcode, body, n, d);
    FiveSteps(c, s, s1, s2, s3, s4, s5, events);
  }

  lemma NextIs(c: Config, s: State, s1: State, s2: State, s3: State, s4: State,
               opcode: bv32, body: seq<Byte>, n: nat, d: Down)
    ensures Next(c, s, Allocate(opcode, body)) == AllocateStep(c, s, opcode, body)
    ensures Next(c, s1, Enqueue(n)) == EnqueueStep(s1, n)
    ensures Next(c, s2, Write(n, true, true)) == WriteStep(s2, n, true, true)
    ensures Next(c, s3, ClientReceive(d)) == ClientReceiveStep(s3, d)
    ensures Next(c, s4, TakeResponse(n)) == TakeResponseStep(s4, n)
  {
    hide AllocateStep, EnqueueStep, WriteStep, ClientReceiveStep, TakeResponseStep;
  }

  /** Call `n` waits, filed under its number. */
  predicate Awaiting(s: State, n: nat) {
    Tabled(s.calls, s.pending, n) && s.calls[n].phase.Waiting? && Open(s.calls[n].request)
  }

  lemma NewCallAwaits(s: State, n: nat)
    requires n < |s.calls| && s.calls[n].phase.Allocated? && Open(s.calls[n].request)
    ensures var t := WriteStep(EnqueueStep(s, n), n, true, true);
            && Awaiting(t, n) && SameIdentity(s.calls[n], t.calls[n]) && t.served == s.served && t.down == s.down
            && Up(n, EncodeFrame(s.calls[n].request.packet)) in t.up
  {
    hide EncodeFrame;
  }

  lemma ReceivedAndTaken(s: State, n: nat, d: Down, f: PacketData)
    requires Awaiting(s, n) && d in s.down
    requires Packets(d.bytes) == [f] && IsResponse(f.flags) && SeqOf(f.seqNo) == s.calls[n].seqNo
    ensures var t := TakeResponseStep(ClientReceiveStep(s, d), n);
            n < |t.calls| && t.calls[n].phase == Returned(Holding(f)) && t.served == s.served &&
            SameIdentity(s.calls[n], t.calls[n])
  {
    hide Packets, SeqOf;
  }

  lemma FiveSteps(c: Config, s: State, s1: State, s2: State, s3: State, s4: State, s5: State, events: seq<Event>)
    requires |events| == 5
    requires s1 == Next(c, s, events[0]) && s2 == Next(c, s1, events[1]) && s3 == Next(c, s2, events[2])
    requires s4 == Next(c, s3, events[3]) && s5 == Next(c, s4, events[4])
    ensures Run(c, s, events) == s5
  {
    hide Next;
    assert events[1..][1..] == events[2..];
    assert events[2..][1..] == events[3..];
    assert events[3..][1..] == events[4..];
    assert events[4..][1..] == [];
    assert Run(c, s5, []) == s5;
    assert Run(c, s4, events[4..]) == s5;
    assert Run(c, s3, events[3..]) == s5;
    assert Run(c, s2, events[2..]) == s5;
    assert Run(c, s1, events[1..]) == s5;
  }

  /** An undisturbed exchange works: from any reachable state in which a number may be allocated,
      a new call whose frames get through returns the handler's answer. */
  lemma UndisturbedCallReturns(c: Config, s: State, opcode: bv32, body: seq<Byte>, result: HandlerResult)
    requires ConfigOk(c) && Inv(c, s) && !s.closed && Window(c, s, 1)
    requires Sendable(c, opcode, body) && Replyable(c, ReplyBody(result)) && opcode in c.handlers
    ensures var n, request := |s.calls|, RequestPacket(c, opcode, s.next, body);
            var response := ResponsePacket(c, request, ReplyBody(result));
            var t := Run(c, s, [Allocate(opcode, body), Enqueue(n), Write(n, true, true),
                                ServerReceive(Up(n, EncodeFrame(request)), [], true),
                                Answer(Job(n, request), result, true),
                                ClientReceive(Down(|s.served|, EncodeFrame(response))), TakeResponse(n)]);
            && n < |t.calls| && t.calls[n].phase == Returned(Holding(response))
            && t.served == s.served + [Served(n, opcode, body, ReplyBody(result))]
            && IsResponse(response.flags) && SeqOf(response.seqNo) == s.next && response.opcode == opcode
            && (result.body != [] ==> response.body == result.body)
            && (result.body == [] && result.error.Holding? ==> response.body == result.error.value)
            && (result.body == [] && result.error.Empty? ==> response.body == [])
  {
    hide Run, Next, NthSeq, EncodeFrame, ResponsePacket, Sendable, Replyable, Packets, ReplyBody, SeqOf;
    hide ClientOk, WireOk, Window;
    hide EnqueueStep, WriteStep, ServerReceiveStep, AnswerStep, ClientReceiveStep, TakeResponseStep, Awaiting;
    hide AllocateFrom;
    var n, request := |s.calls|, RequestPacket(c, opcode, s.next, body);
    var response := ResponsePacket(c, request, ReplyBody(result));
    var u, job, d := Up(n, EncodeFrame(request)), Job(n, request), Down(|s.served|, EncodeFrame(response));
    CallLaunched(c, s, opcode, body);
    RequestDecodes(c, opcode, s.next, body);
    ResponseDecodes(c, opcode, s.next, body, ReplyBody(result));
    RequestCarries(c, opcode, s.next, body);
    ResponseContents(c, request, ReplyBody(result));
    AnswerCases(result);
    hide AllocateStep, Inv, RequestPacket;
    var s1 := AllocateStep(c, s, opcode, body);
    var s2 := EnqueueStep(s1, n);
    var s3 := WriteStep(s2, n, true, true);
    var s4 := ServerReceiveStep(c, s3, u, [], true);
    RequestHandled(c, s3, n, u, request);
    var s5 := AnswerStep(c, s4, job, result, true);
    HandlerAnswers(c, s4, n, job, result);
    var s6 := ClientReceiveStep(s5, d);
    var s7 := TakeResponseStep(s6, n);
    ReceivedAndTaken(s5, n, d, response);
    NextIs(c, s, s1, s2, s5, s6, opcode, body, n, d);
    ServerNextIs(c, s3, s4, u, job, result);
    SevenSteps(c, s, s1, s2, s3, s4, s5, s6, s7,
               [Allocate(opcode, body), Enqueue(n), Write(n, true, true), ServerReceive(u, [], true),
                Answer(job, result, true),
                ClientReceive(d), TakeResponse(n)]);
  }

  /** What a handler's end puts into its response. */
  lemma AnswerCases(result: HandlerResult)
    ensures ReplyBody(result) ==
              if result.body != [] then result.body else if result.error.Holding? then result.error.value else []
  {}

  lemma CallLaunched(c: Config, s: State, opcode: bv32, body: seq<Byte>)
    requires ConfigOk(c) && Inv(c, s) && !s.closed && Window(c, s, 1)
    ensures SeqInRange(c, s.next)
    ensures var n := |s.calls|;
            var t := WriteStep(EnqueueStep(AllocateStep(c, s, opcode, body), n), n, true, true);
            && Awaiting(t, n) && t.calls[n].seqNo == s.next && t.served == s.served
            && Up(n, EncodeFrame(RequestPacket(c, opcode, s.next, body))) in t.up
  {
    hide NthSeq, EncodeFrame, RequestPacket, AllocateFrom, EnqueueStep, WriteStep, Awaiting, ClientOk, WireOk;
    NextIsFree(c, s);
    NthAdvances(|s.calls|, c.seqLen);
    hide Window;
    NewCallAwaits(AllocateStep(c, s, opcode, body), |s.calls|);
  }

  lemma RequestCarries(c: Config, opcode: bv32, seqNo: nat, body: seq<Byte>)
    ensures var p := RequestPacket(c, opcode, seqNo, body); p.opcode == opcode && p.body == body
  {}

  lemma RequestHandled(c: Config, s: State, n: nat, u: Up, request: PacketData)
    requires Awaiting(s, n) && u in s.up && u.call == n
    requires Packets(u.bytes) == [request] && IsRequest(request.flags) && RequiresAck(request.flags)
    requires request.opcode in c.handlers
    ensures var t := ServerReceiveStep(c, s, u, [], true);
            t == s.(up := t.up, jobs := t.jobs) && Job(n, request) in t.jobs && Awaiting(t, n)
  {
    hide Packets;
  }

  lemma HandlerAnswers(c: Config, s: State, n: nat, job: Job, result: HandlerResult)
    requires Awaiting(s, n) && job in s.jobs && job.call == n
    ensures var t := AnswerStep(c, s, job, result, true);
            && Awaiting(t, n) && t.calls == s.calls
            && t.served == s.served + [Served(n, job.packet.opcode, job.packet.body, ReplyBody(result))]
            && Down(|s.served|, EncodeFrame(ResponsePacket(c, job.packet, ReplyBody(result)))) in t.down
  {
    hide EncodeFrame, ResponsePacket, ReplyBody;
  }

  lemma ServerNextIs(c: Config, s3: State, s4: State, u: Up, job: Job, result: HandlerResult)
    ensures Next(c, s3, ServerReceive(u, [], true)) == ServerReceiveStep(c, s3, u, [], true)
    ensures Next(c, s4, Answer(job, result, true)) == AnswerStep(c, s4, job, result, true)
  {
    hide ServerReceiveStep, AnswerStep;
  }

  lemma SevenSteps(c: Config, s: State, s1: State, s2: State, s3: State, s4: State, s5: State, s6: State, s7: State,
                   events: seq<Event>)
    requires |events| == 7
    requires s1 == Next(c, s, events[0]) && s2 == Next(c, s1, events[1]) && s3 == Next(c, s2, events[2])
    requires s4 == Next(c, s3, events[3]) && s5 == Next(c, s4, events[4])
    requires s6 == Next(c, s5, events[5]) && s7 == Next(c, s6, events[6])
    ensures Run(c, s, events) == s7
  {
    hide Next;
    assert events[1..][1..] == events[2..];
    assert Run(c, s, events) == Run(c, s1, events[1..]);
    assert Run(c, s1, events[1..]) == Run(c, s2, events[2..]) by {
      assert events[1..][0] == events[1];
    }
    FiveSteps(c, s2, s3, s4, s5, s6, s7, events[2..]);
  }
}
