/** A run of the protocol in which a response stays in flight for one allocation too many and is
    handed to a call the server never saw: the window of `Protocol` is exact, and reachable. */
module StaleReply {
  import opened Bytes
  import opened Flags
  import opened Packet
  import opened Encoder
  import opened StreamParser
  import opened Sequencing
  import opened Wire
  import opened Server
  import opened Protocol

  /** An allowed run from the start that ends in `s`. */
  ghost predicate Reaches(c: Config, events: seq<Event>, s: State) {
    AllowedRun(c, Init(), events) && Run(c, Init(), events) == s
  }

  lemma {:induction false} RunExtend(c: Config, s: State, events: seq<Event>, e: Event)
    requires AllowedRun(c, s, events) && Allowed(c, Run(c, s, events), e)
    ensures AllowedRun(c, s, events + [e]) && Run(c, s, events + [e]) == Protocol.Next(c, Run(c, s, events), e)
    decreases |events|
  {
    hide Protocol.Next, Allowed;
    if events == [] {
      assert [] + [e] == [e];
      assert [e][1..] == [];
    } else {
      assert (events + [e])[1..] == events[1..] + [e];
      RunExtend(c, Protocol.Next(c, s, events[0]), events[1..], e);
    }
  }

  lemma OneMore(c: Config, events: seq<Event>, s: State, e: Event)
    requires Reaches(c, events, s) && Allowed(c, s, e)
    ensures Reaches(c, events + [e], Protocol.Next(c, s, e))
  {
    hide Protocol.Next, Allowed;
    RunExtend(c, Init(), events, e);
  }

  lemma ReachesInv(c: Config, events: seq<Event>, s: State)
    requires ConfigOk(c) && Reaches(c, events, s)
    ensures Inv(c, s)
  {
    hide Inv;
    InitInv(c);
    RunKeeps(c, Init(), events);
  }

  // ---------------------------------------------------------------------------
  // The first call
  // ---------------------------------------------------------------------------

  function FirstRequest(c: Config, opcode: bv32, body: seq<Byte>): PacketData {
    RequestPacket(c, opcode, 1, body)
  }

  function FirstResponse(c: Config, opcode: bv32, body: seq<Byte>, reply: seq<Byte>): PacketData {
    ResponsePacket(c, FirstRequest(c, opcode, body), reply)
  }

  function Registered(c: Config, opcode: bv32, body: seq<Byte>, phase: Phase): Call {
    Call(opcode, body, 1, phase, NewRequest(1, FirstRequest(c, opcode, body)), 0, if phase.Waiting? then 1 else 0, true)
  }

  function FirstDown(c: Config, opcode: bv32, body: seq<Byte>, reply: seq<Byte>): Down {
    Down(0, EncodeFrame(FirstResponse(c, opcode, body, reply)))
  }

  /** The first call waits and its request is in flight. */
  function RequestInFlight(c: Config, opcode: bv32, body: seq<Byte>): State {
    State([Registered(c, opcode, body, Waiting)], 2, false, map[1 := 0],
          multiset{Up(0, EncodeFrame(FirstRequest(c, opcode, body)))}, multiset{}, [], multiset{})
  }

  /** The server has answered it. */
  function AnswerInFlight(c: Config, opcode: bv32, body: seq<Byte>, reply: seq<Byte>): State {
    State([Registered(c, opcode, body, Waiting)], 2, false, map[1 := 0], multiset{}, multiset{},
          [Served(0, opcode, body, reply)], multiset{FirstDown(c, opcode, body, reply)})
  }

  lemma FirstSent(c: Config, opcode: bv32, body: seq<Byte>) returns (events: seq<Event>)
    requires ConfigOk(c) && Sendable(c, opcode, body)
    ensures Reaches(c, events, RequestInFlight(c, opcode, body))
  {
    hide Reaches, EncodeFrame, RequestPacket, Sendable, Protocol.Next, RequestInFlight;
    FirstSteps(c, opcode, body);
    Nothing(c);
    OneMore(c, [], Init(), Allocate(opcode, body));
    var s1 := Protocol.Next(c, Init(), Allocate(opcode, body));
    OneMore(c, [] + [Allocate(opcode, body)], s1, Enqueue(0));
    var s2 := Protocol.Next(c, s1, Enqueue(0));
    events := [] + [Allocate(opcode, body)] + [Enqueue(0)];
    OneMore(c, events, s2, Write(0, true, true));
    events := events + [Write(0, true, true)];
  }

  lemma FirstSteps(c: Config, opcode: bv32, body: seq<Byte>)
    requires ConfigOk(c)
    ensures var s1 := Protocol.Next(c, Init(), Allocate(opcode, body));
            var s2 := Protocol.Next(c, s1, Enqueue(0));
            Protocol.Next(c, s2, Write(0, true, true)) == RequestInFlight(c, opcode, body)
  {
    hide EncodeFrame, RequestPacket, AllocateFrom;
    FirstAllocation(c);
    var s1 := AllocateStep(c, Init(), opcode, body);
    assert s1.calls == [Call(opcode, body, 1, Allocated, NewRequest(1, FirstRequest(c, opcode, body)), 0, 0, false)];
    var s2 := EnqueueStep(s1, 0);
    assert s2.calls == [Registered(c, opcode, body, Enqueued)] && s2.pending == map[1 := 0];
    var s3 := WriteStep(s2, 0, true, true);
    assert s3.calls == [Registered(c, opcode, body, Waiting)];
  }

  lemma FirstAllocation(c: Config)
    requires ConfigOk(c)
    ensures AllocateFrom(1, Init().pending.Keys, c.seqLen) == Allocation(1, 2)
  {
    AdvanceIs(1, c.seqLen);
  }

  lemma Nothing(c: Config)
    ensures Reaches(c, [], Init())
  {}

  /** The server takes the request and answers it, through a handler or not. */
  lemma FirstServed(c: Config, opcode: bv32, body: seq<Byte>, reply: seq<Byte>) returns (events: seq<Event>)
    requires ConfigOk(c) && Sendable(c, opcode, body) && Replyable(c, reply)
    ensures Reaches(c, events, AnswerInFlight(c, opcode, body, reply))
  {
    hide Reaches, EncodeFrame, RequestPacket, ResponsePacket, Sendable, Replyable, Packets;
    events := FirstSent(c, opcode, body);
    var request, sent := FirstRequest(c, opcode, body), RequestInFlight(c, opcode, body);
    var u := Up(0, EncodeFrame(request));
    RequestDecodes(c, opcode, 1, body);
    RequestCarries(c, opcode, 1, body);
    OneMore(c, events, sent, ServerReceive(u, reply, true));
    events := events + [ServerReceive(u, reply, true)];
    var s := ServerReceiveStep(c, sent, u, reply, true);
    if opcode in c.handlers {
      var job, result := Job(0, request), HandlerResult(reply, Empty);
      assert s == sent.(up := multiset{}, jobs := multiset{job});
      OneMore(c, events, s, Answer(job, result, true));
      events := events + [Answer(job, result, true)];
      assert AnswerStep(c, s, job, result, true) == AnswerInFlight(c, opcode, body, reply);
    } else {
      assert s == AnswerInFlight(c, opcode, body, reply);
    }
  }

  /** One copy of the response is in flight and every call is over. */
  ghost predicate Parked(s: State, d: Down, n: nat) {
    && |s.calls| == n && !s.closed && s.pending == map[]
    && s.up == multiset{} && s.jobs == multiset{} && s.down == multiset{d}
    && d.served < |s.served| && s.served[d.served].call == 0
    && forall i | 0 <= i < n :: !Outstanding(s.calls[i])
  }

  /** The response is delivered once and stays in flight once; the call returns. */
  lemma FirstReturned(c: Config, opcode: bv32, body: seq<Byte>, reply: seq<Byte>)
    returns (events: seq<Event>, s: State)
    requires ConfigOk(c) && Sendable(c, opcode, body) && Replyable(c, reply)
    ensures Reaches(c, events, s) && Parked(s, FirstDown(c, opcode, body, reply), 1)
    ensures s.served == [Served(0, opcode, body, reply)]
  {
    hide Reaches, EncodeFrame, RequestPacket, ResponsePacket, Sendable, Replyable, Packets, SeqOf;
    events := FirstServed(c, opcode, body, reply);
    var answered, d := AnswerInFlight(c, opcode, body, reply), FirstDown(c, opcode, body, reply);
    var f := FirstResponse(c, opcode, body, reply);
    ResponseDecodes(c, opcode, 1, body, reply);
    OneMore(c, events, answered, DuplicateDown(d));
    events := events + [DuplicateDown(d)];
    var twice := answered.(down := multiset{d, d});
    assert answered.down + multiset{d} == twice.down;
    OneMore(c, events, twice, ClientReceive(d));
    events := events + [ClientReceive(d)];
    var resolved := ClientReceiveStep(twice, d);
    FirstResolved(c, opcode, body, reply);
    OneMore(c, events, resolved, TakeResponse(0));
    events := events + [TakeResponse(0)];
    var returned := TakeResponseStep(resolved, 0);
    OneMore(c, events, returned, SeeDone(0));
    events := events + [SeeDone(0)];
    s := SeeDoneStep(returned, 0);
  }

  lemma FirstResolved(c: Config, opcode: bv32, body: seq<Byte>, reply: seq<Byte>)
    requires ConfigOk(c) && Sendable(c, opcode, body) && Replyable(c, reply)
    ensures var d, f := FirstDown(c, opcode, body, reply), FirstResponse(c, opcode, body, reply);
            var s := AnswerInFlight(c, opcode, body, reply).(down := multiset{d, d});
            var t := ClientReceiveStep(s, d);
            && t == s.(calls := t.calls, pending := map[], down := multiset{d}) && |t.calls| == 1
            && t.calls[0].phase.Waiting? && t.calls[0].request.done && t.calls[0].request.response == Holding(f)
  {
    hide EncodeFrame, RequestPacket, ResponsePacket, Sendable, Replyable, Packets, SeqOf;
    ResponseDecodes(c, opcode, 1, body, reply);
    assert map[1 := 0] - {1} == map[];
  }

  // ---------------------------------------------------------------------------
  // Calls that come and go
  // ---------------------------------------------------------------------------

  /** A call whose write fails is allocated, filed, withdrawn and over. */
  lemma CallFails(c: Config, events: seq<Event>, s: State, d: Down, n: nat, opcode: bv32, body: seq<Byte>)
    returns (events': seq<Event>, s': State)
    requires ConfigOk(c) && Sendable(c, opcode, body)
    requires Reaches(c, events, s) && Parked(s, d, n) && n < Cycle(c)
    ensures Reaches(c, events', s') && Parked(s', d, n + 1) && s'.served == s.served
  {
    hide Reaches, EncodeFrame, RequestPacket, Sendable, Parked, Protocol.Next;
    ParkedWindow(c, s, d, n);
    OneMore(c, events, s, Allocate(opcode, body));
    var s1 := Protocol.Next(c, s, Allocate(opcode, body));
    OneMore(c, events + [Allocate(opcode, body)], s1, Enqueue(n));
    var s2 := Protocol.Next(c, s1, Enqueue(n));
    OneMore(c, events + [Allocate(opcode, body)] + [Enqueue(n)], s2, Write(n, false, false));
    var s3 := Protocol.Next(c, s2, Write(n, false, false));
    OneMore(c, events + [Allocate(opcode, body)] + [Enqueue(n)] + [Write(n, false, false)], s3, Cleanup(n));
    var s4 := Protocol.Next(c, s3, Cleanup(n));
    events' := events + [Allocate(opcode, body)] + [Enqueue(n)] + [Write(n, false, false)] + [Cleanup(n)];
    OneMore(c, events', s4, SeeDone(n));
    events', s' := events' + [SeeDone(n)], Protocol.Next(c, s4, SeeDone(n));
    ParkedNext(c, s, d, n, opcode, body, s1, s2, s3, s4, s');
  }

  lemma ParkedWindow(c: Config, s: State, d: Down, n: nat)
    requires Parked(s, d, n) && n < Cycle(c)
    ensures Window(c, s, 1)
  {}

  lemma ParkedNext(c: Config, s: State, d: Down, n: nat, opcode: bv32, body: seq<Byte>,
                   s1: State, s2: State, s3: State, s4: State, s5: State)
    requires Parked(s, d, n)
    requires s1 == Protocol.Next(c, s, Allocate(opcode, body)) && s2 == Protocol.Next(c, s1, Enqueue(n))
    requires s3 == Protocol.Next(c, s2, Write(n, false, false)) && s4 == Protocol.Next(c, s3, Cleanup(n))
    requires s5 == Protocol.Next(c, s4, SeeDone(n))
    ensures Parked(s5, d, n + 1) && s5.served == s.served
  {
    hide Parked, EnqueueStep, WriteStep, CleanupStep, SeeDoneStep, AllocateStep;
    StepsAre(c, s, s1, s2, s3, s4, n, opcode, body);
    ParkedAllocated(c, s, d, n, opcode, body);
    Withdrawn(s1, n);
    hide Protocol.Next;
    ParkedAgain(s1, s5, d, n);
  }

  lemma StepsAre(c: Config, s: State, s1: State, s2: State, s3: State, s4: State, n: nat, opcode: bv32, body: seq<Byte>)
    ensures Protocol.Next(c, s, Allocate(opcode, body)) == AllocateStep(c, s, opcode, body)
    ensures Protocol.Next(c, s1, Enqueue(n)) == EnqueueStep(s1, n)
    ensures Protocol.Next(c, s2, Write(n, false, false)) == WriteStep(s2, n, false, false)
    ensures Protocol.Next(c, s3, Cleanup(n)) == CleanupStep(s3, n)
    ensures Protocol.Next(c, s4, SeeDone(n)) == SeeDoneStep(s4, n)
  {
    hide EnqueueStep, WriteStep, CleanupStep, SeeDoneStep, AllocateStep;
  }

  /** Parked but for a new call that has only its number. */
  ghost predicate ParkedBut(s: State, d: Down, n: nat) {
    && |s.calls| == n + 1 && !s.closed && s.pending == map[]
    && s.up == multiset{} && s.jobs == multiset{} && s.down == multiset{d}
    && d.served < |s.served| && s.served[d.served].call == 0
    && s.calls[n].phase.Allocated? && forall i | 0 <= i < n :: !Outstanding(s.calls[i])
  }

  lemma ParkedAllocated(c: Config, s: State, d: Down, n: nat, opcode: bv32, body: seq<Byte>)
    requires Parked(s, d, n)
    ensures var t := AllocateStep(c, s, opcode, body); ParkedBut(t, d, n) && t.served == s.served
  {
    hide RequestPacket, AllocateFrom, Outstanding;
  }

  lemma ParkedAgain(s: State, t: State, d: Down, n: nat)
    requires ParkedBut(s, d, n) && t == s.(calls := t.calls) && |t.calls| == n + 1
    requires t.calls == s.calls[n := t.calls[n]] && !Outstanding(t.calls[n])
    ensures Parked(t, d, n + 1)
  {
    hide Outstanding;
  }

  lemma Withdrawn(s: State, n: nat)
    requires |s.calls| == n + 1 && s.pending == map[] && s.calls[n].phase.Allocated?
    ensures var t := SeeDoneStep(CleanupStep(WriteStep(EnqueueStep(s, n), n, false, false), n), n);
            && t == s.(calls := t.calls) && t.calls == s.calls[n := t.calls[n]] && !Outstanding(t.calls[n])
  {
    hide EncodeFrame;
    var q := s.calls[n].seqNo;
    assert map[q := n] - {q} == map[];
  }

  /** Failing calls up to a whole cycle after the first. */
  lemma {:induction false} CycleReached(c: Config, events: seq<Event>, s: State, d: Down, n: nat, opcode: bv32,
                                        body: seq<Byte>)
    returns (events': seq<Event>, s': State)
    requires ConfigOk(c) && Sendable(c, opcode, body)
    requires Reaches(c, events, s) && Parked(s, d, n) && n <= Cycle(c)
    ensures Reaches(c, events', s') && Parked(s', d, Cycle(c)) && s'.served == s.served
    decreases Cycle(c) - n
  {
    hide Reaches, Parked, Sendable;
    if n == Cycle(c) {
      events', s' := events, s;
    } else {
      var es, t := CallFails(c, events, s, d, n, opcode, body);
      events', s' := CycleReached(c, es, t, d, n + 1, opcode, body);
    }
  }

  /** The run: for every configuration, every request and reply that fit and every later request,
      some run is allowed up to a state where only the window is one allocation short, and from
      there the later call returns the reply to the earlier one, which alone the server saw. */
  lemma StaleReplyReachable(c: Config, opcode: bv32, body: seq<Byte>, reply: seq<Byte>,
                            late: bv32, lateBody: seq<Byte>)
    returns (events: seq<Event>, d: Down)
    requires ConfigOk(c) && Sendable(c, opcode, body) && Replyable(c, reply) && Sendable(c, late, lateBody)
    ensures AllowedRun(c, Init(), events)
    ensures var s := Run(c, Init(), events);
            var n := |s.calls|;
            var t := Run(c, s,
                         [Allocate(late, lateBody), Enqueue(n), Write(n, true, true), ClientReceive(d),
                          TakeResponse(n)]);
            && Window(c, s, 0) && !Window(c, s, 1)
            && n < |t.calls| && t.calls[n].opcode == late && t.calls[n].body == lateBody
            && t.calls[n].phase.Returned? && t.calls[n].phase.answer.Holding?
            && t.calls[n].phase.answer.value.body == reply
            && t.served == [Served(0, opcode, body, reply)]
  {
    hide Run, AllowedRun, Sendable, Replyable, EncodeFrame, RequestPacket, ResponsePacket;
    d := FirstDown(c, opcode, body, reply);
    var es, s := FirstReturned(c, opcode, body, reply);
    events, s := CycleReached(c, es, s, d, 1, opcode, body);
    ReachesInv(c, events, s);
    CycleOver(c, s, d);
    hide Inv, Window, FirstDown;
    StaleReplyMisdelivered(c, s, d, late, lateBody);
  }

  lemma CycleOver(c: Config, s: State, d: Down)
    requires Inv(c, s) && Parked(s, d, Cycle(c))
    ensures Window(c, s, 0) && !Window(c, s, 1)
    ensures d in s.down && s.next !in s.pending && d.served < |s.served| && !s.closed
    ensures s.served[d.served].call + Cycle(c) == |s.calls|
  {
    hide ClientOk, WireOk, NthSeq;
  }
}
