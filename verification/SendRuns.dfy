/** What becomes of a `Send` (conn/connection.go:83-110 and 222-251): its outcome is that of its
    checks and its write, and its channel gets its own response, or is closed. */
module SendRuns {
  import opened Bytes
  import opened Packet
  import opened MessageQueue
  import opened Connection

  lemma {:induction false} RunSnoc(s: State, events: seq<Event>, e: Event)
    ensures Run(s, events + [e]) == Connection.Next(Run(s, events), e)
    decreases |events|
  {
    hide Connection.Next;
    if events == [] {
      assert [] + [e] == [e];
      assert [e][1..] == [];
      assert Run(Connection.Next(s, e), []) == Connection.Next(s, e);
    } else {
      assert (events + [e])[1..] == events[1..] + [e];
      RunSnoc(Connection.Next(s, events[0]), events[1..], e);
    }
  }

  /** The state before the last event of a run. */
  lemma LastEvent(s: State, events: seq<Event>)
    requires events != []
    ensures Run(s, events) == Connection.Next(Run(s, events[..|events| - 1]), events[|events| - 1])
  {
    hide Run, Connection.Next;
    assert events == events[..|events| - 1] + [events[|events| - 1]];
    RunSnoc(s, events[..|events| - 1], events[|events| - 1]);
  }

  // ---------------------------------------------------------------------------
  // Outcomes
  // ---------------------------------------------------------------------------

  /** The raw write of send `i` took place as event `k`, with this result. */
  ghost predicate WroteAt(s: State, events: seq<Event>, k: nat, i: nat, ok: bool) {
    k < |events| && events[k] == RawWrite(i, ok) && At(Run(s, events[..k]), i, Writing)
  }

  /** Send `i` made its first check, or its second with the write lock free, as event `k` and found
      the connection closed. */
  ghost predicate FoundClosedAt(s: State, events: seq<Event>, k: nat, i: nat) {
    && k < |events| && Run(s, events[..k]).closed
    && (|| (events[k] == FirstCheck(i) && At(Run(s, events[..k]), i, Waiting))
        || (events[k] == SecondCheck(i) && At(Run(s, events[..k]), i, Passed) && Run(s, events[..k]).writer == []))
  }

  /** Send `i` began, as event `k`, on a closed connection. */
  ghost predicate RefusedAt(s: State, events: seq<Event>, k: nat, i: nat) {
    k < |events| && events[k] == CheckOpen(i) && At(Run(s, events[..k]), i, Started) && Run(s, events[..k]).closed
  }

  predicate Failing(s: State, i: nat) {
    i < |s.sends| && (s.sends[i].pc.WriteFailed? || s.sends[i].pc.Erroring? || s.sends[i].pc.Failed?)
  }

  lemma DeliveredStep(s: State, e: Event, i: nat)
    ensures At(Connection.Next(s, e), i, Delivered) <==>
              At(s, i, Delivered) || (e == RawWrite(i, true) && At(s, i, Writing))
  {}

  lemma FailingStep(s: State, e: Event, i: nat)
    ensures Failing(Connection.Next(s, e), i) <==>
              || Failing(s, i) || (e == RawWrite(i, false) && At(s, i, Writing))
              || (s.closed && e == FirstCheck(i) && At(s, i, Waiting))
              || (s.closed && e == SecondCheck(i) && At(s, i, Passed) && s.writer == [])
  {}

  lemma RejectedStep(s: State, e: Event, i: nat)
    ensures At(Connection.Next(s, e), i, Rejected) <==>
              At(s, i, Rejected) || (e == CheckOpen(i) && At(s, i, Started) && s.closed)
  {}

  lemma ClosedStep(s: State, e: Event)
    ensures Connection.Next(s, e).closed <==> s.closed || e == SwapClosed
  {}

  /** Existing runs and their last event. */
  lemma PrefixOfPrefix(events: seq<Event>, k: nat)
    requires k < |events|
    ensures var before := events[..|events| - 1];
            (k < |before| ==> before[..k] == events[..k] && before[k] == events[k]) &&
            (k == |before| ==> events[..k] == before)
  {}

  /** Over all runs a send is delivered if and only if its write took place and succeeded. */
  lemma {:induction false} DeliveredExactly(s: State, events: seq<Event>, i: nat)
    requires i >= |s.sends|
    ensures At(Run(s, events), i, Delivered) <==> exists k: nat :: WroteAt(s, events, k, i, true)
    decreases |events|
  {
    hide Run, Connection.Next;
    if events == [] {
      NothingRun(s);
    } else {
      var n := |events| - 1;
      DeliveredExactly(s, events[..n], i);
      LastEvent(s, events);
      DeliveredStep(Run(s, events[..n]), events[n], i);
      PrefixOfPrefix(events, n);
      if k: nat :| WroteAt(s, events[..n], k, i, true) {
        PrefixOfPrefix(events, k);
        assert WroteAt(s, events, k, i, true);
      }
      if k: nat :| WroteAt(s, events, k, i, true) {
        PrefixOfPrefix(events, k);
        assert k < n ==> WroteAt(s, events[..n], k, i, true);
      }
      if events[n] == RawWrite(i, true) && At(Run(s, events[..n]), i, Writing) {
        assert WroteAt(s, events, n, i, true);
      }
    }
  }

  lemma NothingRun(s: State)
    ensures Run(s, []) == s
  {}

  /** It fails if and only if its write did, or it found the connection closed. */
  lemma {:induction false} FailingExactly(s: State, events: seq<Event>, i: nat)
    requires i >= |s.sends|
    ensures Failing(Run(s, events), i) <==>
              exists k: nat :: WroteAt(s, events, k, i, false) || FoundClosedAt(s, events, k, i)
    decreases |events|
  {
    hide Run, Connection.Next;
    if events == [] {
      NothingRun(s);
    } else {
      var n := |events| - 1;
      FailingExactly(s, events[..n], i);
      LastEvent(s, events);
      FailingStep(Run(s, events[..n]), events[n], i);
      PrefixOfPrefix(events, n);
      if k: nat :| WroteAt(s, events[..n], k, i, false) || FoundClosedAt(s, events[..n], k, i) {
        PrefixOfPrefix(events, k);
        assert WroteAt(s, events, k, i, false) || FoundClosedAt(s, events, k, i);
      }
      if k: nat :| WroteAt(s, events, k, i, false) || FoundClosedAt(s, events, k, i) {
        PrefixOfPrefix(events, k);
        assert k < n ==> WroteAt(s, events[..n], k, i, false) || FoundClosedAt(s, events[..n], k, i);
      }
      if Failing(Run(s, events), i) && !Failing(Run(s, events[..n]), i) {
        assert WroteAt(s, events, n, i, false) || FoundClosedAt(s, events, n, i);
      }
    }
  }

  /** It is refused if and only if it began on a closed connection. */
  lemma {:induction false} RejectedExactly(s: State, events: seq<Event>, i: nat)
    requires i >= |s.sends|
    ensures At(Run(s, events), i, Rejected) <==> exists k: nat :: RefusedAt(s, events, k, i)
    decreases |events|
  {
    hide Run, Connection.Next;
    if events == [] {
      NothingRun(s);
    } else {
      var n := |events| - 1;
      RejectedExactly(s, events[..n], i);
      LastEvent(s, events);
      RejectedStep(Run(s, events[..n]), events[n], i);
      PrefixOfPrefix(events, n);
      if k: nat :| RefusedAt(s, events[..n], k, i) {
        PrefixOfPrefix(events, k);
        assert RefusedAt(s, events, k, i);
      }
      if k: nat :| RefusedAt(s, events, k, i) {
        PrefixOfPrefix(events, k);
        assert k < n ==> RefusedAt(s, events[..n], k, i);
      }
      if events[n] == CheckOpen(i) && At(Run(s, events[..n]), i, Started) && Run(s, events[..n]).closed {
        assert RefusedAt(s, events, n, i);
      }
    }
  }

  /** And the connection is closed if and only if someone called `Close`. */
  lemma {:induction false} ClosedExactly(start: nat, events: seq<Event>)
    ensures Run(Init(start), events).closed <==> SwapClosed in events
    decreases |events|
  {
    hide Run, Connection.Next;
    if events == [] {
      NothingRun(Init(start));
    } else {
      var n := |events| - 1;
      ClosedExactly(start, events[..n]);
      LastEvent(Init(start), events);
      ClosedStep(Run(Init(start), events[..n]), events[n]);
      assert events == events[..n] + [events[n]];
    }
  }

  // ---------------------------------------------------------------------------
  // Whose response it is
  // ---------------------------------------------------------------------------

  /** Every response sent on a channel, or about to be, came in under its send's number. */
  ghost predicate Traced(s: State, done: seq<Event>) {
    && (forall i, f | 0 <= i < |s.sends| && Send(f) in s.sends[i].ops :: TakeResponse(s.sends[i].seqNo, f) in done)
    && (forall j | 0 <= j < |s.completions| && !s.completions[j].finished && s.completions[j].op.Send? ::
          && s.completions[j].send < |s.sends|
          && TakeResponse(s.sends[s.completions[j].send].seqNo, s.completions[j].op.frame) in done)
  }

  /** Nothing but closing was done to channels, and numbers stay once a channel may be touched. */
  ghost predicate OnlyCloses(s: State, t: State) {
    && |s.sends| <= |t.sends|
    && (forall i | 0 <= i < |s.sends| ::
          && (t.sends[i].ops == s.sends[i].ops || t.sends[i].ops == s.sends[i].ops + [CloseChannel])
          && (s.sends[i].where.Nowhere? || t.sends[i].seqNo == s.sends[i].seqNo))
    && (forall i | |s.sends| <= i < |t.sends| :: t.sends[i].ops == [])
    && |s.completions| <= |t.completions|
    && (forall j | 0 <= j < |s.completions| :: t.completions[j] == s.completions[j])
    && (forall j | |s.completions| <= j < |t.completions| :: t.completions[j].op.CloseChannel?)
  }

  lemma ChannelsPlaced(s: State)
    requires Inv(s)
    ensures forall i | 0 <= i < |s.sends| && s.sends[i].where.Nowhere? :: s.sends[i].ops == []
    ensures forall j | 0 <= j < |s.completions| && !s.completions[j].finished ::
              s.completions[j].send < |s.sends| && !s.sends[s.completions[j].send].where.Nowhere?
  {
    hide NumbersOk, QueueOk;
    forall i | 0 <= i < |s.sends| && s.sends[i].where.Nowhere? ensures s.sends[i].ops == [] {
      assert SendOk(s, i);
    }
  }

  lemma TracedKept(s: State, t: State, done: seq<Event>, e: Event)
    requires Inv(s) && Traced(s, done) && OnlyCloses(s, t)
    ensures Traced(t, done + [e])
  {
    ChannelsPlaced(s);
    hide Inv;
    forall i, f | 0 <= i < |t.sends| && Send(f) in t.sends[i].ops
      ensures TakeResponse(t.sends[i].seqNo, f) in done + [e]
    {
      assert i < |s.sends| && Send(f) in s.sends[i].ops;
    }
    forall j | 0 <= j < |t.completions| && !t.completions[j].finished && t.completions[j].op.Send?
      ensures t.completions[j].send < |t.sends|
      ensures TakeResponse(t.sends[t.completions[j].send].seqNo, t.completions[j].op.frame) in done + [e]
    {
      assert t.completions[j] == s.completions[j];
    }
  }

  lemma ResponseTraced(s: State, done: seq<Event>, q: nat, f: PacketData)
    requires Inv(s) && Traced(s, done)
    ensures Traced(Take(s, q, Send(f)), done + [TakeResponse(q, f)])
  {
    hide SendOk, NumbersOk, CompletionsOk, CountOk;
    var t, e := Take(s, q, Send(f)), TakeResponse(q, f);
    forall j | 0 <= j < |t.completions| && !t.completions[j].finished && t.completions[j].op.Send?
      ensures t.completions[j].send < |t.sends|
      ensures TakeResponse(t.sends[t.completions[j].send].seqNo, t.completions[j].op.frame) in done + [e]
    {
      assert j < |s.completions| ==> t.completions[j] == s.completions[j];
    }
  }

  lemma ActTraced(s: State, done: seq<Event>, j: nat, e: Event)
    requires Inv(s) && Traced(s, done)
    ensures Traced(ActStep(s, j), done + [e])
  {
    hide Inv;
    var t := ActStep(s, j);
    forall i, f | 0 <= i < |t.sends| && Send(f) in t.sends[i].ops
      ensures TakeResponse(t.sends[i].seqNo, f) in done + [e]
    {
      assert Send(f) in s.sends[i].ops || (t != s && s.completions[j] == Completion(i, Send(f), false));
    }
  }

  lemma ClearCloses(s: State)
    ensures OnlyCloses(s, ClearStep(s))
  {}

  lemma StepCloses(s: State, e: Event)
    requires Inv(s) && !e.TakeResponse? && !e.Act? && !e.ClearQueue?
    ensures OnlyCloses(s, Connection.Next(s, e))
  {
    hide Inv, DrawStep, PutStep, TakeErrorStep, SeeErrorStep;
    match e
    case Draw(i) => DrawCloses(s, i);
    case PutChannel(i) => PutCloses(s, i);
    case TakeError(i) => TakeErrorCloses(s, i);
    case SeeError(i) => SeeErrorCloses(s, i);
    case _ =>
  }

  lemma PutCloses(s: State, i: nat)
    ensures OnlyCloses(s, PutStep(s, i))
  {}

  lemma TakeErrorCloses(s: State, i: nat)
    ensures OnlyCloses(s, TakeErrorStep(s, i))
  {}

  lemma SeeErrorCloses(s: State, i: nat)
    ensures OnlyCloses(s, SeeErrorStep(s, i))
  {}

  lemma DrawCloses(s: State, i: nat)
    requires Inv(s)
    ensures OnlyCloses(s, DrawStep(s, i))
  {
    if i < |s.sends| {
      assert SendOk(s, i);
    }
    hide SendOk, NumbersOk, QueueOk, CompletionsOk;
  }

  lemma TracedStep(s: State, done: seq<Event>, e: Event)
    requires Inv(s) && Traced(s, done)
    ensures Traced(Connection.Next(s, e), done + [e])
  {
    hide Inv, Traced, OnlyCloses, Take, ActStep, ClearStep, Connection.Next;
    StepIs(s, e);
    match e
    case TakeResponse(q, f) => ResponseTraced(s, done, q, f);
    case Act(j) => ActTraced(s, done, j, e);
    case ClearQueue =>
      ClearCloses(s);
      TracedKept(s, ClearStep(s), done, e);
    case _ =>
      StepCloses(s, e);
      TracedKept(s, Connection.Next(s, e), done, e);
  }

  lemma StepIs(s: State, e: Event)
    ensures e.TakeResponse? ==> Connection.Next(s, e) == Take(s, e.seqNo, Send(e.frame))
    ensures e.Act? ==> Connection.Next(s, e) == ActStep(s, e.j)
    ensures e.ClearQueue? ==> Connection.Next(s, e) == ClearStep(s)
  {
    hide Take, ActStep, ClearStep;
  }

  lemma {:induction false} WindowPrefix(s: State, events: seq<Event>)
    requires WindowRun(s, events) && events != []
    ensures WindowRun(s, events[..|events| - 1])
    decreases |events|
  {
    hide Connection.Next, Window;
    var before := events[..|events| - 1];
    if before != [] {
      assert before[1..] == events[1..][..|events[1..]| - 1];
      WindowPrefix(Connection.Next(s, events[0]), events[1..]);
    }
  }

  lemma {:induction false} RunTraced(start: nat, events: seq<Event>)
    requires WindowRun(Init(start), events)
    ensures Traced(Run(Init(start), events), events)
    decreases |events|
  {
    hide Run, WindowRun, Connection.Next, Inv;
    if events == [] {
      NothingRun(Init(start));
    } else {
      var before, n := events[..|events| - 1], |events| - 1;
      WindowPrefix(Init(start), events);
      RunTraced(start, before);
      InitKeeps(start);
      RunKeeps(Init(start), before);
      LastEvent(Init(start), events);
      TracedStep(Run(Init(start), before), before, events[n]);
      assert before + [events[n]] == events;
    }
  }

  lemma InitKeeps(start: nat)
    ensures Inv(Init(start))
  {}

  /** Under every interleaving a response that a send's channel carries came in under that send's own
      number. */
  lemma ResponsesAreOwn(start: nat, events: seq<Event>, i: nat, f: PacketData)
    requires WindowRun(Init(start), events)
    requires var s := Run(Init(start), events); i < |s.sends| && Send(f) in s.sends[i].ops
    ensures TakeResponse(Run(Init(start), events).sends[i].seqNo, f) in events
  {
    hide Run, WindowRun, Init;
    RunTraced(start, events);
  }

  // ---------------------------------------------------------------------------
  // Undisturbed sends
  // ---------------------------------------------------------------------------

  /** The number the next send gets: the next counter value's low half, or the one after zero. */
  function NextNumber(counter: nat): nat {
    if (counter + 1) % UINT32 == 0 then 1 else (counter + 1) % UINT32
  }

  function Draws(counter: nat, i: nat): seq<Event> {
    if (counter + 1) % UINT32 == 0 then [Draw(i), Draw(i)] else [Draw(i)]
  }

  /** A whole `Send` up to its write. */
  function Sending(counter: nat, i: nat): seq<Event> {
    [Begin, CheckOpen(i)] + Draws(counter, i) + [PutChannel(i), FirstCheck(i), SecondCheck(i)]
  }

  /** Send `i` writes, filed under its number with an untouched channel; nothing else has changed. */
  ghost predicate IsWriting(s: State, t: State, i: nat) {
    && i == |s.sends| && |t.sends| == i + 1 && !t.closed && t.closing == s.closing
    && t.writer == [i] && t.completions == s.completions
    && t.sends[i].pc.Writing? && t.sends[i].seqNo == NextNumber(s.counter) && t.sends[i].ops == []
    && t.queue == Registered(s.queue, NextNumber(s.counter), i)
  }

  lemma SendWrites(s: State)
    requires !s.closed && s.writer == []
    ensures IsWriting(s, Run(s, Sending(s.counter, |s.sends|)), |s.sends|)
  {
    hide Run, Connection.Next;
    var i := |s.sends|;
    var s1 := SendDraws(s);
    var front := [Begin, CheckOpen(i)] + Draws(s.counter, i);
    RunSnoc(s, front, PutChannel(i));
    RunSnoc(s, front + [PutChannel(i)], FirstCheck(i));
    RunSnoc(s, front + [PutChannel(i)] + [FirstCheck(i)], SecondCheck(i));
    assert Sending(s.counter, i) == front + [PutChannel(i)] + [FirstCheck(i)] + [SecondCheck(i)];
    LastSteps(s, s1, i);
  }

  /** Send `i` has its number and has not filed its channel. */
  ghost predicate HasNumber(s: State, t: State, i: nat) {
    && i == |s.sends| && |t.sends| == i + 1 && !t.closed && t.closing == s.closing
    && t.writer == [] && t.completions == s.completions && t.queue == s.queue
    && t.sends[i].pc.Numbered? && t.sends[i].seqNo == NextNumber(s.counter) && t.sends[i].ops == []
  }

  lemma SendDraws(s: State) returns (t: State)
    requires !s.closed && s.writer == []
    ensures t == Run(s, [Begin, CheckOpen(|s.sends|)] + Draws(s.counter, |s.sends|))
    ensures HasNumber(s, t, |s.sends|)
  {
    hide Run, Connection.Next;
    var i := |s.sends|;
    NothingRun(s);
    RunSnoc(s, [], Begin);
    assert [] + [Begin] == [Begin] && [Begin] + [CheckOpen(i)] == [Begin, CheckOpen(i)];
    RunSnoc(s, [Begin], CheckOpen(i));
    RunSnoc(s, [Begin, CheckOpen(i)], Draw(i));
    var both := [Begin, CheckOpen(i)] + [Draw(i)];
    RunSnoc(s, both, Draw(i));
    assert both + [Draw(i)] == [Begin, CheckOpen(i)] + [Draw(i), Draw(i)];
    t := Run(s, [Begin, CheckOpen(i)] + Draws(s.counter, i));
    FirstSteps(s, i);
  }

  lemma FirstSteps(s: State, i: nat)
    requires !s.closed && s.writer == [] && i == |s.sends|
    ensures var t := Connection.Next(Connection.Next(Connection.Next(s, Begin), CheckOpen(i)), Draw(i));
            if (s.counter + 1) % UINT32 == 0 then HasNumber(s, Connection.Next(t, Draw(i)), i) else HasNumber(s, t, i)
  {}

  lemma LastSteps(s: State, t: State, i: nat)
    requires HasNumber(s, t, i)
    ensures var checked := Connection.Next(Connection.Next(t, PutChannel(i)), FirstCheck(i));
            IsWriting(s, Connection.Next(checked, SecondCheck(i)), i)
  {}

  /** A send whose write succeeds and whose response then comes in is delivered with exactly that
      response on its channel, and nothing of it stays in the queue. */
  lemma ResponseDelivered(s: State, f: PacketData)
    requires !s.closed && s.writer == []
    ensures var i, j, q := |s.sends|, |s.completions|, NextNumber(s.counter);
            var t := Run(s, Sending(s.counter, i) + [RawWrite(i, true)] + [TakeResponse(q, f)] + [Act(j)]);
            && i < |t.sends| && t.sends[i].pc.Delivered? && t.sends[i].ops == [Send(f)]
            && q !in t.queue.pending && t.writer == []
  {
    hide Run, Connection.Next, Sending, NextNumber;
    var i, j, q := |s.sends|, |s.completions|, NextNumber(s.counter);
    SendWrites(s);
    var es := Sending(s.counter, i);
    RunSnoc(s, es, RawWrite(i, true));
    RunSnoc(s, es + [RawWrite(i, true)], TakeResponse(q, f));
    RunSnoc(s, es + [RawWrite(i, true)] + [TakeResponse(q, f)], Act(j));
    DeliverySteps(s, Run(s, es), i, j, q, f);
  }

  lemma DeliverySteps(s: State, t: State, i: nat, j: nat, q: nat, f: PacketData)
    requires IsWriting(s, t, i) && j == |s.completions| && q == NextNumber(s.counter)
    ensures var taken := Connection.Next(Connection.Next(t, RawWrite(i, true)), TakeResponse(q, f));
            var u := Connection.Next(taken, Act(j));
            && i < |u.sends| && u.sends[i].pc.Delivered? && u.sends[i].ops == [Send(f)]
            && q !in u.queue.pending && u.writer == []
  {
    hide NextNumber;
  }

  /** A send whose write fails closes its own channel, fails, and leaves nothing in the queue. */
  lemma FailedWriteCloses(s: State)
    requires !s.closed && s.writer == []
    ensures var i, j, q := |s.sends|, |s.completions|, NextNumber(s.counter);
            var t := Run(s, Sending(s.counter, i) + [RawWrite(i, false)] + [TakeError(i)] + [Act(j)] + [SeeError(i)]);
            && i < |t.sends| && t.sends[i].pc.Failed? && t.sends[i].ops == [CloseChannel]
            && q !in t.queue.pending && t.writer == []
  {
    hide Run, Connection.Next, Sending, NextNumber;
    var i, j, q := |s.sends|, |s.completions|, NextNumber(s.counter);
    SendWrites(s);
    var es := Sending(s.counter, i);
    RunSnoc(s, es, RawWrite(i, false));
    RunSnoc(s, es + [RawWrite(i, false)], TakeError(i));
    RunSnoc(s, es + [RawWrite(i, false)] + [TakeError(i)], Act(j));
    RunSnoc(s, es + [RawWrite(i, false)] + [TakeError(i)] + [Act(j)], SeeError(i));
    FailureSteps(s, Run(s, es), i, j, q);
  }

  lemma FailureSteps(s: State, t: State, i: nat, j: nat, q: nat)
    requires IsWriting(s, t, i) && j == |s.completions| && q == NextNumber(s.counter)
    ensures var t1 := Connection.Next(Connection.Next(t, RawWrite(i, false)), TakeError(i));
            var u := Connection.Next(Connection.Next(t1, Act(j)), SeeError(i));
            && i < |u.sends| && u.sends[i].pc.Failed? && u.sends[i].ops == [CloseChannel]
            && q !in u.queue.pending && u.writer == []
  {
    hide NextNumber;
  }

  /** A send still waiting for its response when the connection is closed gets its channel closed. */
  lemma CloseDelivers(s: State)
    requires !s.closed && s.closing.NotClosing? && s.writer == []
    ensures var i := |s.sends|;
            var t := Run(s, Sending(s.counter, i) + [RawWrite(i, true)] + [SwapClosed] + [ClearQueue]);
            && i < |t.sends| && t.sends[i].pc.Delivered? && t.sends[i].ops == [CloseChannel]
            && t.closed && t.closing.Cleared? && t.queue == Queue(map[], 0)
  {
    hide Run, Connection.Next, Sending, NextNumber;
    var i := |s.sends|;
    SendWrites(s);
    var es := Sending(s.counter, i);
    RunSnoc(s, es, RawWrite(i, true));
    RunSnoc(s, es + [RawWrite(i, true)], SwapClosed);
    RunSnoc(s, es + [RawWrite(i, true)] + [SwapClosed], ClearQueue);
    ClosingSteps(s, Run(s, es), i);
  }

  lemma ClosingSteps(s: State, t: State, i: nat)
    requires IsWriting(s, t, i) && s.closing.NotClosing?
    ensures var u := Connection.Next(Connection.Next(Connection.Next(t, RawWrite(i, true)), SwapClosed), ClearQueue);
            && i < |u.sends| && u.sends[i].pc.Delivered? && u.sends[i].ops == [CloseChannel]
            && u.closed && u.closing.Cleared? && u.queue == Queue(map[], 0)
  {
    hide NextNumber;
    assert t.queue.pending[NextNumber(s.counter)] == i;
    assert i in t.queue.pending.Values;
  }
}
