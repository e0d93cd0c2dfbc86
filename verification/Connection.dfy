/** Sending, completing and closing on one connection at the granularity of single atomic
    operations (conn/connection.go:83-110 and 222-251, message_queue.go:48-102).

    A completion takes a channel out of the queue in one event and acts on it in a later one;
    `Close` sets the flag in one event and clears the queue in a later one. */
module Connection {
  import opened Bytes
  import opened Packet
  import opened MessageQueue

  /** Where one `Send` stands. `Passed` has seen the connection open before taking the write
      lock, `Writing` again under it; `Erroring(j)` waits for its own completion `j`. */
  datatype Pc =
    | Started | Admitted | Numbered | Waiting | Passed | Writing | WriteFailed | Erroring(j: nat)
    | Rejected | Delivered | Failed

  datatype Op = Send(frame: PacketData) | CloseChannel

  /** Who may act on a send's channel next. History only: no event looks at it. */
  datatype Where = Nowhere | Table | Held(j: nat) | Used

  /** One `Send`: the counter value it drew, its number, and what was done to its channel. */
  datatype Sending = Sending(pc: Pc, draw: nat, seqNo: nat, ops: seq<Op>, where: Where)

  /** One `Complete` or `CompleteError` that found a channel and has yet to act on it. */
  datatype Completion = Completion(send: nat, op: Op, finished: bool)

  datatype Closing = NotClosing | FlagSet | Cleared

  datatype State = State(closed: bool, closing: Closing, counter: nat, queue: Queue<nat>,
                         sends: seq<Sending>, completions: seq<Completion>, writer: seq<nat>)

  datatype Event =
    | Begin
    | CheckOpen(i: nat)
    | OtherDraw
    | Draw(i: nat)
    | PutChannel(i: nat)
    | FirstCheck(i: nat)
    | SecondCheck(i: nat)
    | RawWrite(i: nat, ok: bool)
    | TakeError(i: nat)
    | SeeError(i: nat)
    | TakeResponse(seqNo: nat, frame: PacketData)
    | Act(j: nat)
    | SwapClosed
    | ClearQueue

  /** The counter is shared by all connections, so it may start anywhere. */
  function Init(counter: nat): State {
    State(false, NotClosing, counter, Queue(map[], 0), [], [], [])
  }

  function Set(s: State, i: nat, x: Sending): State
    requires i < |s.sends|
  {
    s.(sends := s.sends[i := x])
  }

  predicate At(s: State, i: nat, pc: Pc) {
    i < |s.sends| && s.sends[i].pc == pc
  }

  function Goto(s: State, i: nat, pc: Pc): State
    requires i < |s.sends|
  {
    Set(s, i, s.sends[i].(pc := pc))
  }

  /** Takes the number's channel out of the queue on behalf of a new completion. */
  function Take(s: State, seqNo: nat, op: Op): State {
    if seqNo !in s.queue.pending || s.queue.pending[seqNo] >= |s.sends| then s
    else
      var i := s.queue.pending[seqNo];
      Set(s, i, s.sends[i].(where := Held(|s.completions|)))
      .(queue := Without(s.queue, seqNo), completions := s.completions + [Completion(i, op, false)])
  }

  function TakeErrorStep(s: State, i: nat): State {
    if !At(s, i, WriteFailed) then s
    else
      var t := Take(s, s.sends[i].seqNo, CloseChannel);
      if |t.completions| == |s.completions| then Goto(t, i, Failed) else Goto(t, i, Erroring(|s.completions|))
  }

  function SeeErrorStep(s: State, i: nat): State {
    if i < |s.sends| && s.sends[i].pc.Erroring? && s.sends[i].pc.j < |s.completions|
       && s.completions[s.sends[i].pc.j].finished
    then Goto(s, i, Failed) else s
  }

  function ActStep(s: State, j: nat): State {
    if j >= |s.completions| || s.completions[j].finished || s.completions[j].send >= |s.sends| then s
    else
      var k := s.completions[j];
      var x := s.sends[k.send];
      Set(s, k.send, x.(ops := x.ops + [k.op], where := Used)).(completions := s.completions[j := k.(finished := true)])
  }

  function ClosedSending(x: Sending, waiting: bool): Sending {
    if waiting then x.(ops := x.ops + [CloseChannel], where := Used) else x
  }

  function ClearStep(s: State): State {
    if !s.closing.FlagSet? then s
    else
      s.(closing := Cleared, queue := Queue(map[], 0),
         sends := seq(|s.sends|, i requires 0 <= i < |s.sends| =>
                        ClosedSending(s.sends[i], i in s.queue.pending.Values)))
  }

  function PutStep(s: State, i: nat): State {
    if !At(s, i, Numbered) then s
    else Set(s, i, s.sends[i].(pc := Waiting, where := Table)).(queue := Registered(s.queue, s.sends[i].seqNo, i))
  }

  /** Drawing `d`, the next counter value, makes its low half the send's number. */
  function Drew(s: State, i: nat, d: nat, seqNo: nat): State
    requires i < |s.sends|
  {
    Set(s, i, s.sends[i].(pc := Numbered, draw := d, seqNo := seqNo)).(counter := d)
  }

  /** Adds one to the shared counter and takes its low 32 bits, unless they are zero: then the
      send draws again. The source draws again once; a second zero would take 2^32 draws. */
  function DrawStep(s: State, i: nat): State {
    if !At(s, i, Admitted) then s
    else
      var d := s.counter + 1;
      if d % UINT32 == 0 then s.(counter := d)
      else Drew(s, i, d, d % UINT32)
  }

  function Next(s: State, e: Event): State {
    match e
    case Begin => s.(sends := s.sends + [Sending(Started, 0, 0, [], Nowhere)])
    case CheckOpen(i) => if At(s, i, Started) then Goto(s, i, if s.closed then Rejected else Admitted) else s
    case OtherDraw => s.(counter := s.counter + 1)
    case Draw(i) => DrawStep(s, i)
    case PutChannel(i) => PutStep(s, i)
    case FirstCheck(i) => if At(s, i, Waiting) then Goto(s, i, if s.closed then WriteFailed else Passed) else s
    case SecondCheck(i) =>
      if !At(s, i, Passed) || s.writer != [] then s
      else if s.closed then Goto(s, i, WriteFailed)
      else Goto(s, i, Writing).(writer := [i])
    case RawWrite(i, ok) =>
      if At(s, i, Writing) then Goto(s, i, if ok then Delivered else WriteFailed).(writer := []) else s
    case TakeError(i) => TakeErrorStep(s, i)
    case SeeError(i) => SeeErrorStep(s, i)
    case TakeResponse(seqNo, frame) => Take(s, seqNo, Send(frame))
    case Act(j) => ActStep(s, j)
    case SwapClosed => if s.closed then s else s.(closed := true, closing := FlagSet)
    case ClearQueue => ClearStep(s)
  }

  function Run(s: State, events: seq<Event>): State
    decreases |events|
  {
    if events == [] then s else Run(Next(s, events[0]), events[1..])
  }

  /** Its number is still in use: it is filed, or its `Send` may yet file or complete it. */
  predicate Live(x: Sending) {
    x.pc.Numbered? || x.pc.Waiting? || x.pc.Passed? || x.pc.Writing? || x.pc.WriteFailed? || x.where.Table?
  }

  /** The next draw is less than 2^32 draws away from that of every send whose number is in use,
      whoever drew in between. */
  ghost predicate Window(s: State) {
    forall j | 0 <= j < |s.sends| && Live(s.sends[j]) :: s.counter + 1 < s.sends[j].draw + UINT32
  }

  ghost predicate WindowRun(s: State, events: seq<Event>)
    decreases |events|
  {
    events == [] || ((events[0].Draw? ==> Window(s)) && WindowRun(Next(s, events[0]), events[1..]))
  }

  // ---------------------------------------------------------------------------
  // The invariant
  // ---------------------------------------------------------------------------

  predicate Early(pc: Pc) {
    pc.Started? || pc.Admitted? || pc.Numbered? || pc.Rejected?
  }

  /** Where the channel is agrees with what was done to it, and a channel still filed once the
      queue was cleared belongs to a `Send` that is bound to notice the close. */
  predicate SendOk(s: State, i: nat)
    requires i < |s.sends|
  {
    var x := s.sends[i];
    && (Early(x.pc) <==> x.where.Nowhere?)
    && |x.ops| == (if x.where.Used? then 1 else 0)
    && (x.where.Table? <==> InQueue(s, i))
    && (x.where.Held? ==>
          x.where.j < |s.completions| && s.completions[x.where.j] == Completion(i, s.completions[x.where.j].op, false))
    && (x.pc.Writing? <==> s.writer == [i])
    && (s.closing.Cleared? && x.where.Table? ==> x.pc.Waiting? || x.pc.WriteFailed?)
    && (x.pc.Failed? || x.pc.Erroring? ==> !x.where.Table?)
  }

  predicate InQueue(s: State, i: nat)
    requires i < |s.sends|
  {
    s.sends[i].seqNo in s.queue.pending && s.queue.pending[s.sends[i].seqNo] == i
  }

  predicate Drawn(pc: Pc) {
    !(pc.Started? || pc.Admitted? || pc.Rejected?)
  }

  predicate NumberOk(s: State, i: nat)
    requires i < |s.sends|
  {
    var x := s.sends[i];
    Drawn(x.pc) ==> x.draw <= s.counter && x.seqNo == x.draw % UINT32 && x.seqNo != 0
  }

  ghost predicate NumbersOk(s: State) {
    && (forall i | 0 <= i < |s.sends| :: NumberOk(s, i))
    && (forall i, j | 0 <= i < j < |s.sends| && Live(s.sends[i]) && Live(s.sends[j]) ::
          s.sends[i].seqNo != s.sends[j].seqNo)
  }

  ghost predicate QueueOk(s: State) {
    && CountOk(s.queue)
    && forall q | q in s.queue.pending ::
         var i := s.queue.pending[q]; i < |s.sends| && s.sends[i].seqNo == q && Drawn(s.sends[i].pc)
  }

  ghost predicate CompletionsOk(s: State) {
    forall j | 0 <= j < |s.completions| && !s.completions[j].finished ::
      s.completions[j].send < |s.sends| && s.sends[s.completions[j].send].where == Held(j)
  }

  ghost predicate Inv(s: State) {
    && (forall i | 0 <= i < |s.sends| :: SendOk(s, i))
    && NumbersOk(s)
    && QueueOk(s)
    && CompletionsOk(s)
    && s.closed == !s.closing.NotClosing?
    && (s.writer == [] || (|s.writer| == 1 && s.writer[0] < |s.sends|))
  }

  /** Draws less than 2^32 apart have different low halves. */
  lemma DrawsDistinct(a: nat, b: nat)
    requires a < b < a + UINT32
    ensures a % UINT32 != b % UINT32
  {}

  /** The next number drawn is one a send is using exactly when that send drew a multiple of 2^32
      draws ago; inside the window there is none. */
  lemma NumbersDistinct(s: State, j: nat)
    requires NumbersOk(s) && j < |s.sends| && Live(s.sends[j]) && Drawn(s.sends[j].pc)
    ensures s.sends[j].seqNo == (s.counter + 1) % UINT32 <==> (s.counter + 1 - s.sends[j].draw) % UINT32 == 0
    ensures Window(s) ==> s.sends[j].seqNo != (s.counter + 1) % UINT32
  {
    assert NumberOk(s, j);
    if Window(s) {
      DrawsDistinct(s.sends[j].draw, s.counter + 1);
    }
  }

  // Steps that change only histories and channels keep every number.

  predicate SameNumber(a: Sending, b: Sending) {
    a.draw == b.draw && a.seqNo == b.seqNo && Drawn(a.pc) == Drawn(b.pc) && (Live(b) ==> Live(a))
  }

  lemma NumbersKept(s: State, t: State)
    requires NumbersOk(s) && |t.sends| == |s.sends| && t.counter == s.counter
    requires forall i | 0 <= i < |s.sends| :: SameNumber(s.sends[i], t.sends[i])
    ensures NumbersOk(t)
  {
    forall j | 0 <= j < |t.sends| ensures NumberOk(t, j) {
      assert NumberOk(s, j) && SameNumber(s.sends[j], t.sends[j]);
    }
    forall i, j | 0 <= i < j < |t.sends| && Live(t.sends[i]) && Live(t.sends[j])
      ensures t.sends[i].seqNo != t.sends[j].seqNo
    {
      assert SameNumber(s.sends[i], t.sends[i]) && SameNumber(s.sends[j], t.sends[j]);
      assert s.sends[i].seqNo != s.sends[j].seqNo;
    }
  }

  lemma QueueKept(s: State, t: State)
    requires QueueOk(s) && |t.sends| == |s.sends| && t.queue == s.queue
    requires forall i | 0 <= i < |s.sends| :: SameNumber(s.sends[i], t.sends[i])
    ensures QueueOk(t)
  {
    hide CountOk;
    forall q | q in t.queue.pending ensures s.queue.pending[q] < |s.sends| &&
                                            t.sends[s.queue.pending[q]].seqNo == q &&
                                            Drawn(t.sends[s.queue.pending[q]].pc)
    {
      var i := s.queue.pending[q];
      assert SameNumber(s.sends[i], t.sends[i]);
    }
  }

  lemma GotoSends(s: State, i: nat, pc: Pc, writer: seq<nat>)
    requires Inv(s) && i < |s.sends|
    requires Early(pc) == Early(s.sends[i].pc) && Drawn(pc) == Drawn(s.sends[i].pc)
    requires Live(s.sends[i].(pc := pc)) ==> Live(s.sends[i])
    requires pc.Writing? <==> writer == [i]
    requires s.sends[i].pc.Writing? || pc.Writing? || writer == s.writer
    requires writer == s.writer || (s.writer == [] && writer == [i]) || (s.writer == [i] && writer == [])
    requires s.closing.Cleared? && s.sends[i].where.Table? ==> pc.Waiting? || pc.WriteFailed?
    requires pc.Failed? || pc.Erroring? ==> !s.sends[i].where.Table?
    ensures var t := Goto(s, i, pc).(writer := writer);
            forall j | 0 <= j < |t.sends| :: SendOk(t, j) && SameNumber(s.sends[j], t.sends[j])
  {
    hide NumbersOk, QueueOk, CompletionsOk, Drawn;
    var t := Goto(s, i, pc).(writer := writer);
    forall j | 0 <= j < |t.sends| ensures SendOk(t, j) && SameNumber(s.sends[j], t.sends[j]) {
      assert SendOk(s, j);
    }
  }

  /** A send that moves on without touching queue, channel or completions. */
  lemma GotoKeeps(s: State, i: nat, pc: Pc, writer: seq<nat>)
    requires Inv(s) && i < |s.sends|
    requires Early(pc) == Early(s.sends[i].pc) && Drawn(pc) == Drawn(s.sends[i].pc)
    requires Live(s.sends[i].(pc := pc)) ==> Live(s.sends[i])
    requires pc.Writing? <==> writer == [i]
    requires s.sends[i].pc.Writing? || pc.Writing? || writer == s.writer
    requires writer == s.writer || (s.writer == [] && writer == [i]) || (s.writer == [i] && writer == [])
    requires s.closing.Cleared? && s.sends[i].where.Table? ==> pc.Waiting? || pc.WriteFailed?
    requires pc.Failed? || pc.Erroring? ==> !s.sends[i].where.Table?
    ensures Inv(Goto(s, i, pc).(writer := writer))
  {
    var t := Goto(s, i, pc).(writer := writer);
    GotoSends(s, i, pc, writer);
    hide SendOk, CountOk;
    NumbersKept(s, t);
    QueueKept(s, t);
    hide NumbersOk, QueueOk;
  }

  lemma BeginKeeps(s: State)
    requires Inv(s)
    ensures Inv(Next(s, Begin))
  {
    var t := Next(s, Begin);
    forall j | 0 <= j < |t.sends| ensures SendOk(t, j) {
      assert j < |s.sends| ==> SendOk(s, j);
    }
    forall j | 0 <= j < |t.sends| ensures NumberOk(t, j) {
      assert j < |s.sends| ==> NumberOk(s, j);
    }
  }

  lemma OtherDrawKeeps(s: State)
    requires Inv(s)
    ensures Inv(Next(s, OtherDraw))
  {
    var t := Next(s, OtherDraw);
    forall j | 0 <= j < |t.sends| ensures SendOk(t, j) && NumberOk(t, j) {
      assert SendOk(s, j) && NumberOk(s, j);
    }
  }

  lemma DrewSends(s: State, i: nat, d: nat, seqNo: nat)
    requires Inv(s) && At(s, i, Admitted)
    ensures var t := Drew(s, i, d, seqNo); forall j | 0 <= j < |t.sends| :: SendOk(t, j)
    ensures var t := Drew(s, i, d, seqNo); QueueOk(t) && CompletionsOk(t)
  {
    hide NumbersOk, CountOk;
    var t := Drew(s, i, d, seqNo);
    assert SendOk(s, i);
    forall j | 0 <= j < |t.sends| ensures SendOk(t, j) {
      assert SendOk(s, j);
    }
  }

  lemma DrewNumbers(s: State, i: nat, d: nat)
    requires NumbersOk(s) && Window(s) && At(s, i, Admitted) && d == s.counter + 1 && d % UINT32 != 0
    requires forall j | 0 <= j < |s.sends| && Live(s.sends[j]) :: Drawn(s.sends[j].pc)
    ensures NumbersOk(Drew(s, i, d, d % UINT32))
  {
    var t := Drew(s, i, d, d % UINT32);
    forall j | 0 <= j < |t.sends|
      ensures NumberOk(t, j) && (j != i && Live(t.sends[j]) ==> t.sends[j].seqNo != d % UINT32)
    {
      assert NumberOk(s, j);
      if j != i && Live(s.sends[j]) {
        NumbersDistinct(s, j);
      }
    }
    hide NumberOk;
    forall j, k | 0 <= j < k < |t.sends| && Live(t.sends[j]) && Live(t.sends[k])
      ensures t.sends[j].seqNo != t.sends[k].seqNo
    {}
  }

  lemma LiveDrawn(s: State, j: nat)
    requires j < |s.sends| && SendOk(s, j) && Live(s.sends[j])
    ensures Drawn(s.sends[j].pc)
  {
    hide InQueue;
  }

  lemma DrawKeeps(s: State, i: nat)
    requires Inv(s) && Window(s)
    ensures Inv(DrawStep(s, i))
  {
    if At(s, i, Admitted) {
      hide Inv;
      if (s.counter + 1) % UINT32 == 0 {
        OtherDrawKeeps(s);
      } else {
        DrewKeeps(s, i, s.counter + 1);
      }
    }
  }

  lemma DrewKeeps(s: State, i: nat, d: nat)
    requires Inv(s) && Window(s) && At(s, i, Admitted) && d == s.counter + 1 && d % UINT32 != 0
    ensures Inv(Drew(s, i, d, d % UINT32))
  {
    DrewSends(s, i, d, d % UINT32);
    AllLiveDrawn(s);
    hide SendOk, QueueOk, CompletionsOk, Live, Drawn, Window;
    DrewNumbers(s, i, d);
    hide NumbersOk;
  }

  lemma AllLiveDrawn(s: State)
    requires Inv(s)
    ensures forall j | 0 <= j < |s.sends| && Live(s.sends[j]) :: Drawn(s.sends[j].pc)
  {
    hide NumbersOk, QueueOk, CompletionsOk;
    forall j | 0 <= j < |s.sends| && Live(s.sends[j]) ensures Drawn(s.sends[j].pc) {
      LiveDrawn(s, j);
    }
  }

  lemma NumberIsOwn(s: State, i: nat)
    requires NumbersOk(s) && i < |s.sends| && Live(s.sends[i])
    ensures forall j | 0 <= j < |s.sends| && j != i && Live(s.sends[j]) :: s.sends[j].seqNo != s.sends[i].seqNo
  {
    hide NumberOk, Live;
    forall j | 0 <= j < |s.sends| && j != i && Live(s.sends[j]) ensures s.sends[j].seqNo != s.sends[i].seqNo {
      if i < j {
        assert s.sends[i].seqNo != s.sends[j].seqNo;
      } else {
        assert s.sends[j].seqNo != s.sends[i].seqNo;
      }
    }
  }

  lemma QueuedInTable(s: State)
    requires Inv(s)
    ensures forall q | q in s.queue.pending ::
              s.queue.pending[q] < |s.sends| && s.sends[s.queue.pending[q]].where.Table?
  {
    hide NumbersOk, CompletionsOk, CountOk;
    forall q | q in s.queue.pending ensures s.sends[s.queue.pending[q]].where.Table? {
      assert SendOk(s, s.queue.pending[q]) && InQueue(s, s.queue.pending[q]);
    }
  }

  /** A number found in the queue when its `Send` fails still leads to that send's own channel. */
  lemma FailureTakesOwn(s: State, i: nat)
    requires Inv(s) && At(s, i, WriteFailed) && s.sends[i].seqNo in s.queue.pending
    ensures s.queue.pending[s.sends[i].seqNo] == i
  {
    NumberIsOwn(s, i);
    QueuedInTable(s);
    hide SendOk, NumbersOk, CompletionsOk, CountOk;
  }

  /** The number a send is about to file is free. */
  lemma NumberIsFree(s: State, i: nat)
    requires Inv(s) && At(s, i, Numbered)
    ensures s.sends[i].seqNo !in s.queue.pending
  {
    NumberIsOwn(s, i);
    QueuedInTable(s);
    assert SendOk(s, i);
    hide SendOk, NumbersOk, CompletionsOk, CountOk;
  }

  lemma PutSends(s: State, i: nat)
    requires Inv(s) && At(s, i, Numbered) && s.sends[i].seqNo !in s.queue.pending
    ensures var t := PutStep(s, i); (forall j | 0 <= j < |t.sends| :: SendOk(t, j)) && CompletionsOk(t)
  {
    hide NumbersOk, CountOk;
    var t := PutStep(s, i);
    assert SendOk(s, i);
    forall j | 0 <= j < |t.sends| ensures SendOk(t, j) {
      assert SendOk(s, j);
    }
  }

  lemma PutQueue(s: State, i: nat)
    requires QueueOk(s) && At(s, i, Numbered) && s.sends[i].seqNo !in s.queue.pending
    ensures QueueOk(PutStep(s, i))
  {
    RegisteredCountsExactly(s.queue, s.sends[i].seqNo, i);
    hide CountOk;
  }

  lemma PutKeeps(s: State, i: nat)
    requires Inv(s)
    ensures Inv(PutStep(s, i))
  {
    if At(s, i, Numbered) {
      NumberIsFree(s, i);
      PutSends(s, i);
      PutQueue(s, i);
      PutNumbers(s, i);
      hide SendOk, NumbersOk, QueueOk, CompletionsOk;
    }
  }

  lemma PutNumbers(s: State, i: nat)
    requires NumbersOk(s) && At(s, i, Numbered)
    ensures NumbersOk(PutStep(s, i))
  {
    var t := PutStep(s, i);
    forall j | 0 <= j < |t.sends| ensures NumberOk(t, j) {
      assert NumberOk(s, j);
    }
  }

  lemma TakeKeeps(s: State, seqNo: nat, op: Op)
    requires Inv(s)
    ensures Inv(Take(s, seqNo, op)) && seqNo !in Take(s, seqNo, op).queue.pending
    ensures forall j | 0 <= j < |s.sends| :: Take(s, seqNo, op).sends[j].pc == s.sends[j].pc
  {
    if seqNo in s.queue.pending {
      var i := s.queue.pending[seqNo];
      var t := Take(s, seqNo, op);
      TakeSends(s, seqNo, op);
      TakeNumbers(s, seqNo, op);
      TakeCompletions(s, seqNo, op);
      hide SendOk, NumbersOk, QueueOk, CompletionsOk;
    }
  }

  lemma TakeCompletions(s: State, seqNo: nat, op: Op)
    requires Inv(s) && seqNo in s.queue.pending
    ensures CompletionsOk(Take(s, seqNo, op))
  {
    assert SendOk(s, s.queue.pending[seqNo]) && InQueue(s, s.queue.pending[seqNo]);
    hide SendOk, NumbersOk, CountOk;
  }

  lemma TakeNumbers(s: State, seqNo: nat, op: Op)
    requires Inv(s) && seqNo in s.queue.pending
    ensures NumbersOk(Take(s, seqNo, op)) && QueueOk(Take(s, seqNo, op)) && seqNo !in Take(s, seqNo, op).queue.pending
  {
    NumbersKept(s, Take(s, seqNo, op));
    hide NumbersOk, SendOk;
    WithoutCounts(s.queue, seqNo);
    hide CountOk;
  }

  lemma TakeSends(s: State, seqNo: nat, op: Op)
    requires Inv(s) && seqNo in s.queue.pending
    ensures var t := Take(s, seqNo, op); forall j | 0 <= j < |t.sends| :: SendOk(t, j)
    ensures SendOk(s, s.queue.pending[seqNo]) && s.sends[s.queue.pending[seqNo]].where.Table?
  {
    var i := s.queue.pending[seqNo];
    var t := Take(s, seqNo, op);
    assert SendOk(s, i) && InQueue(s, i);
    hide NumbersOk, CountOk;
    forall j | 0 <= j < |t.sends| ensures SendOk(t, j) {
      assert SendOk(s, j);
    }
  }

  lemma FailingKeeps(t: State, i: nat, pc: Pc)
    requires Inv(t) && At(t, i, WriteFailed) && t.sends[i].seqNo !in t.queue.pending
    requires pc.Failed? || pc.Erroring?
    ensures Inv(Goto(t, i, pc))
  {
    assert SendOk(t, i);
    hide NumbersOk, QueueOk, CompletionsOk, Inv;
    GotoKeeps(t, i, pc, t.writer);
  }

  lemma TakeErrorKeeps(s: State, i: nat)
    requires Inv(s)
    ensures Inv(TakeErrorStep(s, i))
  {
    if At(s, i, WriteFailed) {
      var q := s.sends[i].seqNo;
      var t := Take(s, q, CloseChannel);
      TakeKeeps(s, q, CloseChannel);
      assert At(t, i, WriteFailed) && t.sends[i].seqNo == q;
      hide Take, Inv, Goto;
      if |t.completions| == |s.completions| {
        FailingKeeps(t, i, Failed);
      } else {
        FailingKeeps(t, i, Erroring(|s.completions|));
      }
    }
  }

  lemma ActKeeps(s: State, j: nat)
    requires Inv(s)
    ensures Inv(ActStep(s, j))
  {
    if j < |s.completions| && !s.completions[j].finished {
      var t := ActStep(s, j);
      NumbersKept(s, t);
      hide NumbersOk, NumberOk;
      forall i | 0 <= i < |t.sends| ensures SendOk(t, i) {
        assert SendOk(s, i);
      }
    }
  }

  lemma ClearSend(s: State, i: nat)
    requires Inv(s) && s.closing.FlagSet? && i < |s.sends|
    ensures var t := ClearStep(s);
            && t.sends[i] == ClosedSending(s.sends[i], InQueue(s, i))
            && SameNumber(s.sends[i], t.sends[i]) && SendOk(t, i)
            && (s.sends[i].where.Held? ==> t.sends[i] == s.sends[i])
  {
    hide NumbersOk, CompletionsOk;
    assert SendOk(s, i);
    QueueValues(s, i);
    hide QueueOk;
  }

  lemma ClearKeeps(s: State)
    requires Inv(s)
    ensures Inv(ClearStep(s))
  {
    if s.closing.FlagSet? {
      var t := ClearStep(s);
      forall i | 0 <= i < |s.sends|
        ensures SameNumber(s.sends[i], t.sends[i]) && SendOk(t, i)
        ensures s.sends[i].where.Held? ==> t.sends[i] == s.sends[i]
      {
        ClearSend(s, i);
      }
      hide SendOk;
      NumbersKept(s, t);
      hide NumbersOk;
      assert |t.queue.pending| == 0;
    }
  }

  lemma QueueValues(s: State, i: nat)
    requires QueueOk(s) && i < |s.sends|
    ensures i in s.queue.pending.Values <==> InQueue(s, i)
  {
    if i in s.queue.pending.Values {
      var q :| q in s.queue.pending && s.queue.pending[q] == i;
    }
    if InQueue(s, i) {
      assert s.queue.pending[s.sends[i].seqNo] in s.queue.pending.Values;
    }
  }

  lemma StepKeeps(s: State, e: Event)
    requires Inv(s) && (e.Draw? ==> Window(s))
    ensures Inv(Next(s, e))
  {
    hide SendOk, NumbersOk, QueueOk, CompletionsOk, TakeErrorStep, ActStep, ClearStep, PutStep, DrawStep, Take;
    match e
    case Begin => BeginKeeps(s);
    case OtherDraw => OtherDrawKeeps(s);
    case Draw(i) => DrawKeeps(s, i);
    case PutChannel(i) => PutKeeps(s, i);
    case TakeError(i) => TakeErrorKeeps(s, i);
    case TakeResponse(seqNo, frame) => TakeKeeps(s, seqNo, Send(frame));
    case Act(j) => ActKeeps(s, j);
    case ClearQueue => ClearKeeps(s);
    case SwapClosed => SwapKeeps(s);
    case _ => WriteStepKeeps(s, e);
  }

  lemma SwapKeeps(s: State)
    requires Inv(s)
    ensures Inv(Next(s, SwapClosed))
  {
    var t := Next(s, SwapClosed);
    forall i | 0 <= i < |s.sends| ensures SendOk(t, i) && NumberOk(t, i) {
      assert SendOk(s, i) && NumberOk(s, i);
    }
  }

  /** The steps of `WritePacket` and the opening check. */
  lemma WriteStepKeeps(s: State, e: Event)
    requires Inv(s)
    requires e.CheckOpen? || e.FirstCheck? || e.SecondCheck? || e.RawWrite? || e.SeeError?
    ensures Inv(Next(s, e))
  {
    if e.i < |s.sends| {
      SendStanding(s, e.i);
      hide Inv;
      match e
      case CheckOpen(i) =>
        if s.sends[i].pc.Started? {
          GotoKeeps(s, i, if s.closed then Rejected else Admitted, s.writer);
        }
      case FirstCheck(i) =>
        if s.sends[i].pc.Waiting? {
          GotoKeeps(s, i, if s.closed then WriteFailed else Passed, s.writer);
        }
      case SecondCheck(i) => SecondCheckKeeps(s, i);
      case RawWrite(i, ok) =>
        if s.sends[i].pc.Writing? {
          GotoKeeps(s, i, if ok then Delivered else WriteFailed, []);
        }
      case SeeError(i) => SeeErrorKeeps(s, i);
    }
  }

  lemma SecondCheckKeeps(s: State, i: nat)
    requires Inv(s)
    ensures Inv(Next(s, SecondCheck(i)))
  {
    if At(s, i, Passed) && s.writer == [] {
      SendStanding(s, i);
      hide Inv;
      if s.closed {
        GotoKeeps(s, i, WriteFailed, s.writer);
      } else {
        GotoKeeps(s, i, Writing, [i]);
      }
    }
  }

  lemma SeeErrorKeeps(s: State, i: nat)
    requires Inv(s)
    ensures Inv(SeeErrorStep(s, i))
  {
    if SeeErrorStep(s, i) != s {
      SendStanding(s, i);
      hide Inv;
      GotoKeeps(s, i, Failed, s.writer);
    }
  }

  /** What the invariant says of one send and the writer. */
  lemma SendStanding(s: State, i: nat)
    requires Inv(s) && i < |s.sends|
    ensures var x := s.sends[i];
            && (x.pc.Writing? <==> s.writer == [i])
            && (Early(x.pc) <==> x.where.Nowhere?)
            && (s.closing.Cleared? ==> s.closed && (x.where.Table? ==> x.pc.Waiting? || x.pc.WriteFailed?))
            && (x.pc.Failed? || x.pc.Erroring? ==> !x.where.Table?)
  {
    assert SendOk(s, i);
    hide NumbersOk, QueueOk, CompletionsOk;
  }

  lemma {:induction false} RunKeeps(s: State, events: seq<Event>)
    requires Inv(s) && WindowRun(s, events)
    ensures Inv(Run(s, events))
    decreases |events|
  {
    hide Inv, Next, Window;
    if events != [] {
      StepKeeps(s, events[0]);
      RunKeeps(Next(s, events[0]), events[1..]);
    }
  }

  // ---------------------------------------------------------------------------
  // The theorems
  // ---------------------------------------------------------------------------

  /** Under every interleaving a channel gets at most one event, so no send on it ever blocks
      and it is never used after being closed; the count is the number waiting; and at most one
      `Send` writes at a time. */
  lemma ChannelsUsedOnce(start: nat, events: seq<Event>)
    requires WindowRun(Init(start), events)
    ensures var s := Run(Init(start), events);
            && (forall i | 0 <= i < |s.sends| :: |s.sends[i].ops| <= 1)
            && s.queue.count == |s.queue.pending|
            && (forall i, j | 0 <= i < j < |s.sends| :: !(s.sends[i].pc.Writing? && s.sends[j].pc.Writing?))
  {
    RunKeeps(Init(start), events);
    hide Run, WindowRun, Init, NumbersOk, CompletionsOk;
    var s := Run(Init(start), events);
    forall i | 0 <= i < |s.sends| ensures |s.sends[i].ops| <= 1 && (s.sends[i].pc.Writing? ==> s.writer == [i]) {
      assert SendOk(s, i);
    }
  }

  predicate Over(pc: Pc) {
    pc.Rejected? || pc.Delivered? || pc.Failed?
  }

  /** Once `Close` and every `Send` have returned nothing is pending; and once the completions
      have acted too, every channel that was registered got exactly one event. */
  lemma NothingLeftBehind(start: nat, events: seq<Event>)
    requires WindowRun(Init(start), events)
    requires var s := Run(Init(start), events); s.closing.Cleared? && forall i | 0 <= i < |s.sends| ::
            Over(s.sends[i].pc)
    ensures var s := Run(Init(start), events);
            && s.queue.pending == map[] && s.queue.count == 0
            && ((forall j | 0 <= j < |s.completions| :: s.completions[j].finished) ==>
                  forall i | 0 <= i < |s.sends| :: |s.sends[i].ops| == if s.sends[i].pc.Rejected? then 0 else 1)
  {
    RunKeeps(Init(start), events);
    hide Run, WindowRun, Init, NumbersOk, CompletionsOk, CountOk;
    var s := Run(Init(start), events);
    forall i | 0 <= i < |s.sends| ensures SendOk(s, i) && !s.sends[i].where.Table? {
      assert SendOk(s, i);
    }
    QueuedInTable(s);
    hide SendOk;
    assert s.queue.pending == map[];
    EmptyCount(s);
  }

  lemma EmptyCount(s: State)
    requires QueueOk(s) && s.queue.pending == map[]
    ensures s.queue.count == 0
  {}
}
