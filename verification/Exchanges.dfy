/** Calls that get through: what unknown opcodes, lost frames, failures and closing come to
    (client/client.go:83-171, conn/seq.go:139-250, server/server.go:199-270). `Protocol` says what
    no run can do; here is what runs do achieve. */
module Exchanges {
  import opened Bytes
  import opened Flags
  import opened Packet
  import opened Encoder
  import opened StreamParser
  import opened Sequencing
  import opened Wire
  import opened Server
  import opened Protocol

  lemma {:induction false} RunAppend(c: Config, s: State, a: seq<Event>, b: seq<Event>)
    ensures Run(c, s, a + b) == Run(c, Run(c, s, a), b)
    decreases |a|
  {
    hide Protocol.Next;
    if a == [] {
      assert a + b == b;
    } else {
      assert (a + b)[1..] == a[1..] + b;
      RunAppend(c, Protocol.Next(c, s, a[0]), a[1..], b);
    }
  }

  lemma OneStep(c: Config, s: State, e: Event)
    ensures Run(c, s, [e]) == Protocol.Next(c, s, e)
  {
    hide Protocol.Next;
    assert [e][1..] == [];
    assert Run(c, Protocol.Next(c, s, e), []) == Protocol.Next(c, s, e);
  }

  lemma TwoSteps(c: Config, s: State, e: Event, f: Event)
    ensures Run(c, s, [e, f]) == Protocol.Next(c, Protocol.Next(c, s, e), f)
  {
    hide Protocol.Next, Run;
    assert [e, f] == [e] + [f];
    RunAppend(c, s, [e], [f]);
    OneStep(c, s, e);
    OneStep(c, Protocol.Next(c, s, e), f);
  }

  // ---------------------------------------------------------------------------
  // Lost requests
  // ---------------------------------------------------------------------------

  /** Call `n` waits for its first outcome after `retries` expiries, each of which wrote its frame once
      more; its retry loop runs. */
  ghost predicate Pending(s: State, n: nat, retries: nat) {
    Awaiting(s, n) && s.calls[n].looping && s.calls[n].request.retries == retries && s.calls[n].writes == retries + 1
  }

  /** Nothing but the call itself and the frames on their way to the server differ. */
  ghost predicate OnlyCall(s: State, t: State, n: nat) {
    && t == s.(calls := t.calls, up := t.up) && n < |s.calls| && |t.calls| == |s.calls|
    && t.calls == s.calls[n := t.calls[n]] && SameIdentity(s.calls[n], t.calls[n])
  }

  /** An expiry before the fourth sends the frame once more, and the call waits on. */
  lemma Retransmits(s: State, n: nat, retries: nat, reaches: bool)
    requires Pending(s, n, retries) && retries < 3
    ensures var t := ExpireStep(s, n, reaches, true);
            && Pending(t, n, retries + 1) && OnlyCall(s, t, n)
            && (reaches ==> Up(n, EncodeFrame(s.calls[n].request.packet)) in t.up)
  {
    hide EncodeFrame;
  }

  /** `j` expiries whose frames are lost. */
  function Losses(n: nat, j: nat): seq<Event> {
    seq(j, _ => Expire(n, false, true))
  }

  lemma {:induction false} LossesSurvived(c: Config, s: State, n: nat, retries: nat, j: nat)
    requires Pending(s, n, retries) && retries + j <= 3
    ensures var t := Run(c, s, Losses(n, j)); Pending(t, n, retries + j) && OnlyCall(s, t, n)
    decreases j
  {
    hide Pending, ExpireStep, EncodeFrame;
    if j == 0 {
      assert Losses(n, 0) == [];
      PendingCall(s, n, retries);
    } else {
      var t := ExpireStep(s, n, false, true);
      Retransmits(s, n, retries, false);
      LossesSurvived(c, t, n, retries + 1, j - 1);
      assert Losses(n, j)[1..] == Losses(n, j - 1);
    }
  }

  lemma PendingCall(s: State, n: nat, retries: nat)
    requires Pending(s, n, retries)
    ensures n < |s.calls| && Tabled(s.calls, s.pending, n)
  {}

  /** A new call whose first frame may be lost waits, filed under its number. */
  lemma CallWaits(c: Config, s: State, opcode: bv32, body: seq<Byte>, reaches: bool)
    requires ConfigOk(c) && Inv(c, s) && !s.closed && Window(c, s, 1)
    ensures SeqInRange(c, s.next)
    ensures var n := |s.calls|;
            var t := Run(c, s, [Allocate(opcode, body), Enqueue(n), Write(n, reaches, true)]);
            && Pending(t, n, 0) && t.calls[n].seqNo == s.next && t.served == s.served
            && t.calls[n].request.packet == RequestPacket(c, opcode, s.next, body)
            && (reaches ==> Up(n, EncodeFrame(RequestPacket(c, opcode, s.next, body))) in t.up)
  {
    hide NthSeq, EncodeFrame, RequestPacket, AllocateFrom, EnqueueStep, WriteStep, Run, ClientOk, WireOk, Pending;
    NextIsFree(c, s);
    NthAdvances(|s.calls|, c.seqLen);
    hide Window, Inv;
    var n := |s.calls|;
    var s1 := AllocateStep(c, s, opcode, body);
    Starts(s1, n, reaches);
    var first, rest := [Allocate(opcode, body)], [Enqueue(n), Write(n, reaches, true)];
    assert first + rest == [Allocate(opcode, body), Enqueue(n), Write(n, reaches, true)];
    RunAppend(c, s, first, rest);
    OneStep(c, s, Allocate(opcode, body));
    TwoSteps(c, s1, Enqueue(n), Write(n, reaches, true));
    hide AllocateStep;
  }

  lemma Starts(s: State, n: nat, reaches: bool)
    requires n < |s.calls| && s.calls[n].phase.Allocated? && Open(s.calls[n].request)
    requires s.calls[n].request.retries == s.calls[n].writes == 0
    ensures var t := WriteStep(EnqueueStep(s, n), n, reaches, true);
            && Pending(t, n, 0) && SameIdentity(s.calls[n], t.calls[n]) && t.served == s.served
            && (reaches ==> Up(n, EncodeFrame(s.calls[n].request.packet)) in t.up)
  {
    hide EncodeFrame;
  }

  // ---------------------------------------------------------------------------
  // The server's side of an exchange
  // ---------------------------------------------------------------------------

  /** The frame of waiting call `n` is on its way and decodes to `request`. */
  ghost predicate OnItsWay(c: Config, s: State, n: nat, request: PacketData) {
    && Awaiting(s, n) && Up(n, EncodeFrame(request)) in s.up
    && Packets(EncodeFrame(request)) == [request] && IsRequest(request.flags) && RequiresAck(request.flags)
  }

  /** The response to it decodes to itself, under the call's number. */
  ghost predicate Decodable(c: Config, s: State, n: nat, request: PacketData, reply: seq<Byte>) {
    var response := ResponsePacket(c, request, reply);
    && n < |s.calls| && Packets(EncodeFrame(response)) == [response] && IsResponse(response.flags)
    && SeqOf(response.seqNo) == s.calls[n].seqNo
  }

  /** A known opcode: the handler runs and its reply comes back. */
  function Handling(c: Config, s: State, n: nat, request: PacketData, result: HandlerResult): seq<Event> {
    [ServerReceive(Up(n, EncodeFrame(request)), [], true), Answer(Job(n, request), result, true)]
  }

  /** The response on its way is received and returned. */
  function Returning(c: Config, k: nat, n: nat, request: PacketData, reply: seq<Byte>): seq<Event> {
    [ClientReceive(Down(k, EncodeFrame(ResponsePacket(c, request, reply)))), TakeResponse(n)]
  }

  ghost predicate Replied(c: Config, s: State, t: State, n: nat, request: PacketData, reply: seq<Byte>) {
    && Awaiting(t, n) && t.calls == s.calls
    && t.served == s.served + [Served(n, request.opcode, request.body, reply)]
    && Down(|s.served|, EncodeFrame(ResponsePacket(c, request, reply))) in t.down
  }

  lemma HandlerReplies(c: Config, s: State, n: nat, request: PacketData, result: HandlerResult)
    requires OnItsWay(c, s, n, request) && request.opcode in c.handlers
    ensures Replied(c, s, Run(c, s, Handling(c, s, n, request, result)), n, request, ReplyBody(result))
  {
    hide EncodeFrame, ResponsePacket, ReplyBody, Packets, Run, ServerReceiveStep, AnswerStep, Awaiting;
    var u, job := Up(n, EncodeFrame(request)), Job(n, request);
    RequestHandled(c, s, n, u, request);
    var t := ServerReceiveStep(c, s, u, [], true);
    HandlerAnswers(c, t, n, job, result);
    ServerNextIs(c, s, t, u, job, result);
    TwoSteps(c, s, ServerReceive(u, [], true), Answer(job, result, true));
  }

  lemma UnknownReplies(c: Config, s: State, n: nat, request: PacketData, errorText: seq<Byte>)
    requires OnItsWay(c, s, n, request) && request.opcode !in c.handlers
    ensures Replied(c, s, ServerReceiveStep(c, s, Up(n, EncodeFrame(request)), errorText, true), n, request, errorText)
  {
    hide EncodeFrame, ResponsePacket, Packets;
  }

  lemma ReplyReturns(c: Config, s: State, t: State, n: nat, request: PacketData, reply: seq<Byte>)
    requires Replied(c, s, t, n, request, reply) && Decodable(c, s, n, request, reply)
    ensures var v := Run(c, t, Returning(c, |s.served|, n, request, reply));
            && n < |v.calls| && v.calls[n].phase == Returned(Holding(ResponsePacket(c, request, reply)))
            && v.served == t.served
  {
    hide EncodeFrame, ResponsePacket, Packets, Run, SeqOf, Awaiting, ClientReceiveStep, TakeResponseStep;
    var response := ResponsePacket(c, request, reply);
    var d := Down(|s.served|, EncodeFrame(response));
    ReceivedAndTaken(t, n, d, response);
    TwoSteps(c, t, ClientReceive(d), TakeResponse(n));
    var t' := ClientReceiveStep(t, d);
    ClientNextIs(c, t, t', d, n);
  }

  lemma ClientNextIs(c: Config, s: State, t: State, d: Down, n: nat)
    ensures Protocol.Next(c, s, ClientReceive(d)) == ClientReceiveStep(s, d)
    ensures Protocol.Next(c, t, TakeResponse(n)) == TakeResponseStep(t, n)
  {
    hide ClientReceiveStep, TakeResponseStep;
  }

  /** A call whose first `lost` frames are lost and whose next one reaches the server. */
  function Sending(n: nat, opcode: bv32, body: seq<Byte>, lost: nat): seq<Event> {
    [Allocate(opcode, body), Enqueue(n), Write(n, lost == 0, true)]
    + if lost == 0 then [] else Losses(n, lost - 1) + [Expire(n, true, true)]
  }

  lemma RequestArrives(c: Config, s: State, opcode: bv32, body: seq<Byte>, lost: nat)
    requires ConfigOk(c) && Inv(c, s) && !s.closed && Window(c, s, 1) && Sendable(c, opcode, body) && lost <= 3
    ensures SeqInRange(c, s.next)
    ensures var n, request := |s.calls|, RequestPacket(c, opcode, s.next, body);
            var t := Run(c, s, Sending(n, opcode, body, lost));
            OnItsWay(c, t, n, request) && t.calls[n].seqNo == s.next && t.served == s.served
  {
    hide Inv, Window, Sendable, Run, EncodeFrame, RequestPacket, Packets, IsRequest, RequiresAck, ExpireStep;
    var n, request := |s.calls|, RequestPacket(c, opcode, s.next, body);
    CallWaits(c, s, opcode, body, lost == 0);
    RequestDecodes(c, opcode, s.next, body);
    var first := [Allocate(opcode, body), Enqueue(n), Write(n, lost == 0, true)];
    var t := Run(c, s, first);
    if lost == 0 {
      assert first + [] == first;
    } else {
      RunAppend(c, s, first, Losses(n, lost - 1) + [Expire(n, true, true)]);
      RunAppend(c, t, Losses(n, lost - 1), [Expire(n, true, true)]);
      LossesSurvived(c, t, n, 0, lost - 1);
      var u := Run(c, t, Losses(n, lost - 1));
      OneStep(c, u, Expire(n, true, true));
      Retransmits(u, n, lost - 1, true);
    }
  }

  /** Retransmission makes up for up to three lost frames: the fourth write at the latest reaches the
      server, and the call returns what the handler's end was. */
  lemma LostRequestsRecovered(c: Config, s: State, opcode: bv32, body: seq<Byte>, lost: nat, result: HandlerResult)
    requires ConfigOk(c) && Inv(c, s) && !s.closed && Window(c, s, 1) && lost <= 3
    requires Sendable(c, opcode, body) && Replyable(c, ReplyBody(result)) && opcode in c.handlers
    ensures var n, request := |s.calls|, RequestPacket(c, opcode, s.next, body);
            var t := Run(c, s, Sending(n, opcode, body, lost) + (Handling(c, s, n, request, result)
                               + Returning(c, |s.served|, n, request, ReplyBody(result))));
            && n < |t.calls| && t.calls[n].phase.Returned? && t.calls[n].phase.answer.Holding?
            && (var p := t.calls[n].phase.answer.value;
                && IsResponse(p.flags) && SeqOf(p.seqNo) == s.next && p.opcode == opcode
                && (result.body != [] ==> p.body == result.body)
                && (result.body == [] && result.error.Holding? ==> p.body == result.error.value)
                && (result.body == [] && result.error.Empty? ==> p.body == [])
                && t.served == s.served + [Served(n, opcode, body, p.body)])
  {
    AnswerCases(result);
    hide Inv, Window, Sendable, Replyable, Run, EncodeFrame, RequestPacket, ResponsePacket, ReplyBody, Packets, Sending;
    hide IsRequest, RequiresAck, IsResponse, SeqOf, Replied, Handling, Returning;
    var n, request, reply := |s.calls|, RequestPacket(c, opcode, s.next, body), ReplyBody(result);
    RequestArrives(c, s, opcode, body, lost);
    RequestDecodes(c, opcode, s.next, body);
    RequestCarries(c, opcode, s.next, body);
    ResponseContents(c, RequestPacket(c, opcode, s.next, body), reply);
    ResponseDecodes(c, opcode, s.next, body, reply);
    var t := Run(c, s, Sending(n, opcode, body, lost));
    HandlerReplies(c, t, n, request, result);
    var u := Run(c, t, Handling(c, t, n, request, result));
    ReplyReturns(c, t, u, n, request, reply);
    RepliedServed(c, t, u, n, request, reply);
    SameHandling(c, s, t, n, request, result);
    RunAppend(c, s, Sending(n, opcode, body, lost),
              Handling(c, s, n, request, result) + Returning(c, |s.served|, n, request, reply));
    RunAppend(c, t, Handling(c, s, n, request, result), Returning(c, |s.served|, n, request, reply));
  }

  lemma SameHandling(c: Config, s: State, t: State, n: nat, request: PacketData, result: HandlerResult)
    ensures Handling(c, s, n, request, result) == Handling(c, t, n, request, result)
  {}

  lemma RepliedServed(c: Config, s: State, t: State, n: nat, request: PacketData, reply: seq<Byte>)
    requires Replied(c, s, t, n, request, reply)
    ensures t.served == s.served + [Served(n, request.opcode, request.body, reply)]
  {}

  /** A request for an opcode without a handler is answered too, with the server's error text. */
  lemma UnknownOpcodeAnswered(c: Config, s: State, opcode: bv32, body: seq<Byte>, lost: nat, errorText: seq<Byte>)
    requires ConfigOk(c) && Inv(c, s) && !s.closed && Window(c, s, 1) && lost <= 3
    requires Sendable(c, opcode, body) && Replyable(c, errorText) && opcode !in c.handlers
    ensures var n, request := |s.calls|, RequestPacket(c, opcode, s.next, body);
            var t := Run(c, s, Sending(n, opcode, body, lost)
                               + ([ServerReceive(Up(n, EncodeFrame(request)), errorText, true)]
                                  + Returning(c, |s.served|, n, request, errorText)));
            && n < |t.calls| && t.calls[n].phase.Returned? && t.calls[n].phase.answer.Holding?
            && (var p := t.calls[n].phase.answer.value;
                IsResponse(p.flags) && SeqOf(p.seqNo) == s.next && p.opcode == opcode && p.body == errorText)
            && t.served == s.served + [Served(n, opcode, body, errorText)]
  {
    hide Inv, Window, Sendable, Replyable, Run, EncodeFrame, RequestPacket, ResponsePacket, Packets, Sending;
    hide IsRequest, RequiresAck, IsResponse, SeqOf, Replied, Returning, ServerReceiveStep;
    var n, request := |s.calls|, RequestPacket(c, opcode, s.next, body);
    RequestArrives(c, s, opcode, body, lost);
    RequestDecodes(c, opcode, s.next, body);
    RequestCarries(c, opcode, s.next, body);
    ResponseContents(c, RequestPacket(c, opcode, s.next, body), errorText);
    ResponseDecodes(c, opcode, s.next, body, errorText);
    var t := Run(c, s, Sending(n, opcode, body, lost));
    var receive := ServerReceive(Up(n, EncodeFrame(request)), errorText, true);
    UnknownReplies(c, t, n, request, errorText);
    OneStep(c, t, receive);
    var u := Run(c, t, [receive]);
    ReplyReturns(c, t, u, n, request, errorText);
    RepliedServed(c, t, u, n, request, errorText);
    RunAppend(c, s, Sending(n, opcode, body, lost), [receive] + Returning(c, |s.served|, n, request, errorText));
    RunAppend(c, t, [receive], Returning(c, |s.served|, n, request, errorText));
  }

  /** Four lost frames are too many: the next expiry ends the call, which fails and leaves nothing of
      its own in the table. */
  lemma FourLossesGiveUp(c: Config, s: State, opcode: bv32, body: seq<Byte>, reaches: bool, ok: bool)
    requires ConfigOk(c) && Inv(c, s) && !s.closed && Window(c, s, 1)
    ensures var n := |s.calls|;
            var t := Run(c, s, [Allocate(opcode, body), Enqueue(n), Write(n, false, true)]
                               + (Losses(n, 3) + [Expire(n, reaches, ok)]));
            && n < |t.calls| && t.calls[n].phase.Waiting? && s.next !in t.pending && t.served == s.served
            && t.calls[n].request.error == Holding(MaxRetriesExceeded) && t.calls[n].request.response.Empty?
            && t.calls[n].writes == 4
  {
    hide Inv, Window, Run, EncodeFrame, RequestPacket, ExpireStep, Pending, OnlyCall;
    var n := |s.calls|;
    CallWaits(c, s, opcode, body, false);
    var first := [Allocate(opcode, body), Enqueue(n), Write(n, false, true)];
    var t := Run(c, s, first);
    RunAppend(c, s, first, Losses(n, 3) + [Expire(n, reaches, ok)]);
    RunAppend(c, t, Losses(n, 3), [Expire(n, reaches, ok)]);
    LossesSurvived(c, t, n, 0, 3);
    var u := Run(c, t, Losses(n, 3));
    OneStep(c, u, Expire(n, reaches, ok));
    GivesUpHere(u, n, reaches, ok);
    SameCall(t, u, n);
  }

  lemma GivesUpHere(s: State, n: nat, reaches: bool, ok: bool)
    requires Pending(s, n, 3)
    ensures var t := ExpireStep(s, n, reaches, ok);
            && n < |t.calls| && t.calls[n].phase.Waiting? && s.calls[n].seqNo !in t.pending && t.served == s.served
            && t.calls[n].request.error == Holding(MaxRetriesExceeded) && t.calls[n].request.response.Empty?
            && t.calls[n].writes == 4
  {
    hide EncodeFrame;
  }

  lemma SameCall(s: State, t: State, n: nat)
    requires OnlyCall(s, t, n)
    ensures n < |s.calls| == |t.calls| && t.calls[n].seqNo == s.calls[n].seqNo && t.served == s.served
  {}

  // ---------------------------------------------------------------------------
  // How a wait ends
  // ---------------------------------------------------------------------------

  /** In every reachable state: a waiting call whose request is settled can return at once, with the
      response if there is one and with a failure otherwise; and one whose context has ended can
      return a failure, whatever else happened, leaving nothing of its own in the table. */
  lemma WaitEnds(c: Config, events: seq<Event>, i: nat)
    requires ConfigOk(c) && AllowedRun(c, Init(), events)
    requires i < |Run(c, Init(), events).calls| && Run(c, Init(), events).calls[i].phase.Waiting?
    ensures var s := Run(c, Init(), events);
            var r := s.calls[i].request;
            && (r.response.Holding? ==> ReturnsWith(Run(c, s, [TakeResponse(i)]), i, r.response))
            && (r.error.Holding? ==> ReturnsWith(Run(c, s, [TakeError(i), Cleanup(i)]), i, Empty))
            && ReturnsWith(Run(c, s, [ContextDone(i), Cleanup(i)]), i, Empty)
            && (r.done ==> r.response.Holding? || r.error.Holding?)
  {
    hide Run, AllowedRun, Init, TakeResponseStep, TakeErrorStep, ContextDoneStep, CleanupStep, Inv, ReturnsWith;
    InitInv(c);
    RunKeeps(c, Init(), events);
    var s := Run(c, Init(), events);
    SettledHasOutcome(c, s, i);
    OneStep(c, s, TakeResponse(i));
    TwoSteps(c, s, TakeError(i), Cleanup(i));
    TwoSteps(c, s, ContextDone(i), Cleanup(i));
    ArmsAre(c, s, i);
    FailingIs(s, i);
    WaitKeeps(c, s, i);
    if s.calls[i].request.response.Holding? {
      ResponseTaken(c, s, i);
    }
    if s.calls[i].request.error.Holding? {
      FailureCleaned(c, s, TakeErrorStep(s, i), i);
    }
    FailureCleaned(c, s, ContextDoneStep(s, i), i);
  }

  /** The call has returned and nothing is filed for it. */
  ghost predicate ReturnsWith(s: State, i: nat, answer: Mailbox<PacketData>) {
    i < |s.calls| && s.calls[i].phase == Returned(answer) && !Tabled(s.calls, s.pending, i)
  }

  lemma ArmsAre(c: Config, s: State, i: nat)
    ensures Protocol.Next(c, s, TakeResponse(i)) == TakeResponseStep(s, i)
    ensures Protocol.Next(c, Protocol.Next(c, s, TakeError(i)), Cleanup(i)) == CleanupStep(TakeErrorStep(s, i), i)
    ensures Protocol.Next(c, Protocol.Next(c, s, ContextDone(i)), Cleanup(i)) == CleanupStep(ContextDoneStep(s, i), i)
  {
    hide TakeResponseStep, TakeErrorStep, ContextDoneStep, CleanupStep;
  }

  lemma FailingIs(s: State, i: nat)
    requires i < |s.calls| && s.calls[i].phase.Waiting?
    ensures s.calls[i].request.error.Holding? ==> TakeErrorStep(s, i) == SetCall(s, i, s.calls[i].(phase := Failing))
    ensures ContextDoneStep(s, i) == SetCall(s, i, s.calls[i].(phase := Failing))
  {}

  lemma SettledHasOutcome(c: Config, s: State, i: nat)
    requires Inv(c, s) && i < |s.calls| && s.calls[i].phase.Waiting?
    ensures s.calls[i].request.done ==> HasOutcome(s.calls[i].request)
    ensures HasOutcome(s.calls[i].request) ==> !Tabled(s.calls, s.pending, i)
  {
    CallParts(c, s, i);
    hide Inv, Protocol.Answered, CallOk;
  }

  lemma ResponseTaken(c: Config, s: State, i: nat)
    requires Inv(c, s) && i < |s.calls| && s.calls[i].phase.Waiting? && s.calls[i].request.response.Holding?
    ensures ReturnsWith(TakeResponseStep(s, i), i, s.calls[i].request.response)
  {
    SettledHasOutcome(c, s, i);
    hide Inv;
  }

  /** A failing call withdraws what is filed under its number, which is its own. */
  lemma FailureCleaned(c: Config, s: State, t: State, i: nat)
    requires ConfigOk(c) && Inv(c, t) && i < |s.calls| && s.calls[i].phase.Waiting?
    requires t == SetCall(s, i, s.calls[i].(phase := Failing))
    ensures ReturnsWith(CleanupStep(t, i), i, Empty)
  {
    hide Inv;
    CallWindow(c, t, i);
    if t.calls[i].seqNo in t.pending {
      OwnEntry(c, t, i);
    }
  }

  lemma CallWindow(c: Config, s: State, i: nat)
    requires Inv(c, s) && i < |s.calls| && !s.calls[i].phase.Returned?
    ensures |s.calls| <= i + Cycle(c)
  {
    CallParts(c, s, i);
    hide Inv, CallOk, Protocol.Answered, Settlement, Tabled;
  }

  // ---------------------------------------------------------------------------
  // Closing
  // ---------------------------------------------------------------------------

  /** Closing the manager in any reachable state fails every request in the table with the close
      error and leaves every other call as it was. */
  lemma CloseFailsAll(c: Config, events: seq<Event>, i: nat)
    requires ConfigOk(c) && AllowedRun(c, Init(), events)
    requires i < |Run(c, Init(), events).calls|
    ensures var s := Run(c, Init(), events);
            var t := Run(c, s, [CloseManager]);
            && t.closed && t.pending == map[] && |t.calls| == |s.calls|
            && (Tabled(s.calls, s.pending, i) ==>
                  t.calls[i].request.done && t.calls[i].request.error == Holding(ConnClosed) &&
                  t.calls[i].request.response.Empty?)
            && (!Tabled(s.calls, s.pending, i) ==> t.calls[i] == s.calls[i])
  {
    hide Run, AllowedRun, Init, Inv;
    InitInv(c);
    RunKeeps(c, Init(), events);
    var s := Run(c, Init(), events);
    OneStep(c, s, CloseManager);
    ClosedOrKept(c, s, i);
  }

  lemma ClosedOrKept(c: Config, s: State, i: nat)
    requires Inv(c, s) && i < |s.calls|
    ensures var t := CloseStep(s);
            && (Tabled(s.calls, s.pending, i) ==>
                  t.calls[i].request.done && t.calls[i].request.error == Holding(ConnClosed) &&
                  t.calls[i].request.response.Empty?)
            && (!Tabled(s.calls, s.pending, i) ==> t.calls[i] == s.calls[i])
  {
    CallParts(c, s, i);
    InTable(s, i);
    hide WireOk, Window, Protocol.Answered, CallOk, NthSeq, TableOk;
  }

  /** No call is added once the manager is closed. */
  lemma {:induction false} NoCallAfterClose(c: Config, s: State, events: seq<Event>)
    requires s.closed
    ensures Run(c, s, events).closed && |Run(c, s, events).calls| == |s.calls|
    decreases |events|
  {
    hide Protocol.Next;
    if events != [] {
      ClosedStays(c, s, events[0]);
      NoCallAfterClose(c, Protocol.Next(c, s, events[0]), events[1..]);
    }
  }

  lemma ClosedStays(c: Config, s: State, e: Event)
    requires s.closed
    ensures Protocol.Next(c, s, e).closed && |Protocol.Next(c, s, e).calls| == |s.calls|
  {
    hide ExpireStep, CleanupStep, ServerReceiveStep, AnswerStep, ClientReceiveStep;
    match e
    case Expire(i, reaches, ok) => ExpireStays(s, i, reaches, ok);
    case Cleanup(i) => CleanupStays(s, i);
    case ServerReceive(u, errorText, reaches) => ServerStays(c, s, u, errorText, reaches);
    case Answer(job, result, reaches) => AnswerStays(c, s, job, result, reaches);
    case ClientReceive(d) => ReceiveStays(s, d);
    case _ => hide EncodeFrame, RequestPacket, AllocateFrom;
  }

  ghost predicate Stays(s: State, t: State) {
    t.closed == s.closed && |t.calls| == |s.calls|
  }

  lemma ExpireStays(s: State, i: nat, reaches: bool, ok: bool)
    ensures Stays(s, ExpireStep(s, i, reaches, ok))
  {
    hide EncodeFrame, Expired, Launched;
  }

  lemma CleanupStays(s: State, i: nat)
    ensures Stays(s, CleanupStep(s, i))
  {}

  lemma ServerStays(c: Config, s: State, u: Up, errorText: seq<Byte>, reaches: bool)
    ensures Stays(s, ServerReceiveStep(c, s, u, errorText, reaches))
  {
    hide EncodeFrame, ResponsePacket, Packets;
  }

  lemma AnswerStays(c: Config, s: State, job: Job, result: HandlerResult, reaches: bool)
    ensures Stays(s, AnswerStep(c, s, job, result, reaches))
  {
    hide EncodeFrame, ResponsePacket, ReplyBody;
  }

  lemma ReceiveStays(s: State, d: Down)
    ensures Stays(s, ClientReceiveStep(s, d))
  {
    hide Packets, SeqOf;
  }
}
