/** One pending request and its retry loop at the granularity of single lock sections
    (conn/seq.go:139-196): the loop checks the table, releases the lock, retransmits or decides to
    give up, and takes the lock again only to delete the entry. */
module RetryRace {
  import opened Sequencing

  /** Where the retry loop stands. `GivingUp` holds no lock; `Deleted` has yet to close `done`. */
  datatype Loop = Waiting | Retransmitting | GivingUp | Deleted | Stopped

  /** `closes` counts the calls of `close(done)`, the second of which panics. Two fields are
      history: where the loop stood when Resolve, Remove or Close took the entry out of the table,
      and how the latest retransmission went. */
  datatype State = State(inTable: bool, loop: Loop, retries: nat, closes: nat,
                         takenDuring: Mailbox<Loop>, lastWrite: Mailbox<bool>)

  /** `Take` is the deletion by another party together with its own `close(done)`. */
  datatype Event = Take | TimerFires | Written(ok: bool) | DeleteEntry | CloseDone | SeeDone

  function Start(): State {
    State(true, Waiting, 0, 0, Empty, Empty)
  }

  /** One step; an event that is not enabled changes nothing. */
  function Next(s: State, e: Event): State {
    match e
    case Take =>
      if s.inTable then s.(inTable := false, closes := s.closes + 1, takenDuring := Holding(s.loop)) else s
    case TimerFires =>
      if !s.loop.Waiting? then s
      else if !s.inTable then s.(loop := Stopped)
      else if s.retries + 1 > MAX_RETRIES then s.(retries := s.retries + 1, loop := GivingUp)
      else s.(retries := s.retries + 1, loop := Retransmitting)
    case Written(ok) =>
      if !s.loop.Retransmitting? then s else s.(loop := if ok then Waiting else GivingUp, lastWrite := Holding(ok))
    case DeleteEntry =>
      if !s.loop.GivingUp? then s else s.(inTable := false, loop := Deleted)
    case CloseDone =>
      if !s.loop.Deleted? then s else s.(loop := Stopped, closes := s.closes + 1)
    case SeeDone =>
      if s.loop.Waiting? && s.closes > 0 then s.(loop := Stopped) else s
  }

  function Run(s: State, events: seq<Event>): State
    decreases |events|
  {
    if events == [] then s else Run(Next(s, events[0]), events[1..])
  }

  /** The entry was taken while the loop, past its check, was bound to give up: it had decided
      to, or the write under way was about to fail. */
  predicate TakenTooLate(s: State) {
    s.takenDuring == Holding(GivingUp) || (s.takenDuring == Holding(Retransmitting) && s.lastWrite == Holding(false))
  }

  /** What links the loop, the table and the closes in every reachable state. */
  predicate Consistent(s: State) {
    && s.retries <= MAX_RETRIES + 1
    && (s.loop.Waiting? || s.loop.Retransmitting? ==> s.retries <= MAX_RETRIES)
    && (s.inTable ==> s.closes == 0 && s.takenDuring.Empty? && !s.loop.Deleted? && !s.loop.Stopped?)
    && (!s.inTable && s.takenDuring.Empty? ==> s.loop.Deleted? || s.loop.Stopped?)
    && match s.takenDuring
       case Empty => s.closes == if s.loop.Stopped? then 1 else 0
       case Holding(Waiting) => s.closes == 1 && (s.loop.Waiting? || s.loop.Stopped?)
       case Holding(Retransmitting) =>
         match s.loop {
           case Retransmitting => s.closes == 1
           case Waiting => s.closes == 1 && s.lastWrite == Holding(true)
           case GivingUp => s.closes == 1 && s.lastWrite == Holding(false)
           case Deleted => s.closes == 1 && s.lastWrite == Holding(false)
           case Stopped => s.lastWrite.Holding? && s.closes == if s.lastWrite.value then 1 else 2
         }
       case Holding(GivingUp) =>
         if s.loop.Stopped? then s.closes == 2 else s.closes == 1 && (s.loop.GivingUp? || s.loop.Deleted?)
       case Holding(_) => false
  }

  lemma {:induction false} RunConsistent(s: State, events: seq<Event>)
    requires Consistent(s)
    ensures Consistent(Run(s, events))
    decreases |events|
  {
    hide Consistent;
    if events != [] {
      StepConsistent(s, events[0]);
      RunConsistent(Next(s, events[0]), events[1..]);
    }
  }

  lemma StepConsistent(s: State, e: Event)
    requires Consistent(s)
    ensures Consistent(Next(s, e))
  {}

  /** Once the loop has stopped, `done` was closed twice if and only if another party took the
      entry while the loop had already decided to give up, or during a retransmission that then
      failed. Until it has stopped `done` is closed at most once. */
  lemma ClosedTwiceExactly(events: seq<Event>)
    ensures var s := Run(Start(), events); s.closes <= 2
    ensures var s := Run(Start(), events); s.loop.Stopped? ==> (s.closes == 2 <==> TakenTooLate(s))
    ensures var s := Run(Start(), events); !s.loop.Stopped? ==> s.closes <= 1
  {
    RunConsistent(Start(), events);
    hide Run;
  }

  /** In every reachable state a waiting loop whose request has left the table can stop at once, on
      `done` or at its next expiry, and cannot write or give up any more; one whose request is in the
      table goes on for three expiries and gives up at the fourth. */
  lemma LoopStops(events: seq<Event>)
    ensures var s := Run(Start(), events);
            s.loop.Waiting? ==>
              && (!s.inTable ==> Next(s, SeeDone).loop.Stopped? && Next(s, TimerFires).loop.Stopped?)
              && (s.inTable && s.retries < 3 ==> Next(s, TimerFires).loop.Retransmitting?)
              && (s.inTable && s.retries >= 3 ==> Next(s, TimerFires).loop.GivingUp?)
              && (s.inTable ==> Next(s, SeeDone) == s)
  {
    RunConsistent(Start(), events);
    hide Run;
  }

  /** Such a run: the fourth expiry passes the check, a response arrives, the loop goes on. */
  lemma ClosedTwice()
    ensures exists events :: Run(Start(), events).closes == 2
  {
    var round := [TimerFires, Written(true)];
    var events := round + round + round + [TimerFires, Take, DeleteEntry, CloseDone];
    var s := Start();
    RunAppend(s, round + round + round, [TimerFires, Take, DeleteEntry, CloseDone]);
    RunAppend(s, round + round, round);
    RunAppend(s, round, round);
    Round(s);
    Round(s.(retries := 1, lastWrite := Holding(true)));
    Round(s.(retries := 2, lastWrite := Holding(true)));
    LastRound(s.(retries := 3, lastWrite := Holding(true)));
    assert Run(s, events).closes == 2;
  }

  lemma Round(s: State)
    requires s.loop.Waiting? && s.inTable && s.retries < MAX_RETRIES
    ensures Run(s, [TimerFires, Written(true)]) == s.(retries := s.retries + 1, lastWrite := Holding(true))
  {
    var t := Next(s, TimerFires);
    assert [TimerFires, Written(true)][1..] == [Written(true)];
    assert Run(t, [Written(true)]) == Run(Next(t, Written(true)), []);
  }

  lemma LastRound(s: State)
    requires s.loop.Waiting? && s.inTable && s.retries == MAX_RETRIES && s.closes == 0
    ensures Run(s, [TimerFires, Take, DeleteEntry, CloseDone]).closes == 2
  {
    var a := Next(s, TimerFires);
    var b := Next(a, Take);
    var c := Next(b, DeleteEntry);
    assert [TimerFires, Take, DeleteEntry, CloseDone][1..] == [Take, DeleteEntry, CloseDone];
    assert [Take, DeleteEntry, CloseDone][1..] == [DeleteEntry, CloseDone];
    assert [DeleteEntry, CloseDone][1..] == [CloseDone];
    assert Run(c, [CloseDone]) == Run(Next(c, CloseDone), []);
  }

  lemma {:induction false} RunAppend(s: State, a: seq<Event>, b: seq<Event>)
    ensures Run(s, a + b) == Run(Run(s, a), b)
    decreases |a|
  {
    hide Next;
    if a == [] {
      assert a + b == b;
    } else {
      assert (a + b)[1..] == a[1..] + b;
      RunAppend(Next(s, a[0]), a[1..], b);
    }
  }

  /** A whole expiry without interruption: the atomic step of `SeqManager.Expire`. */
  function Expiry(writeOk: bool): seq<Event> {
    [TimerFires, Written(writeOk), DeleteEntry, CloseDone]
  }

  datatype Coarse = TakeEntry | WholeExpiry(writeOk: bool) | NoticeDone

  function Expand(run: seq<Coarse>): seq<Event>
    decreases |run|
  {
    if run == [] then []
    else
      (match run[0]
       case TakeEntry => [Take]
       case WholeExpiry(ok) => Expiry(ok)
       case NoticeDone => [SeeDone]) + Expand(run[1..])
  }

  predicate Settled(s: State) {
    Consistent(s) && (s.loop.Waiting? || s.loop.Stopped?) && (s.takenDuring.Empty? || s.takenDuring == Holding(Waiting))
  }

  /** When each expiry runs undivided, `done` is closed at most once, and exactly once as soon
      as the request has left the table. */
  lemma {:induction false} AtomicExpiryClosesOnce(s: State, run: seq<Coarse>)
    requires Settled(s)
    ensures var t := Run(s, Expand(run)); Settled(t) && t.closes == if t.inTable then 0 else 1
    decreases |run|
  {
    hide Consistent, Next;
    if run == [] {
      OnceOut(s);
    } else {
      var head := Expand([run[0]]);
      assert [run[0]][1..] == [];
      assert Expand([]) == [];
      assert Expand(run) == head + Expand(run[1..]);
      RunAppend(s, head, Expand(run[1..]));
      CoarseStepSettled(s, run[0]);
      AtomicExpiryClosesOnce(Run(s, head), run[1..]);
    }
  }

  /** From the start: undivided expiries close `done` exactly when the request leaves the table. */
  lemma AtomicRunsCloseOnce(run: seq<Coarse>)
    ensures var t := Run(Start(), Expand(run)); t.closes == if t.inTable then 0 else 1
  {
    AtomicExpiryClosesOnce(Start(), run);
  }

  lemma OnceOut(s: State)
    requires Settled(s)
    ensures s.closes == if s.inTable then 0 else 1
  {}

  lemma CoarseStepSettled(s: State, c: Coarse)
    requires Settled(s)
    ensures Settled(Run(s, Expand([c])))
  {
    assert [c][1..] == [];
    match c
    case TakeEntry =>
      SingleStep(s, Take);
      assert Expand([c]) == [Take];
    case NoticeDone =>
      SingleStep(s, SeeDone);
      assert Expand([c]) == [SeeDone];
    case WholeExpiry(ok) =>
      assert Expand([c]) == Expiry(ok);
      WholeExpirySettled(s, ok);
  }

  lemma SingleStep(s: State, e: Event)
    ensures Run(s, [e]) == Next(s, e)
  {
    assert [e][1..] == [];
    assert Run(Next(s, e), []) == Next(s, e);
  }

  lemma WholeExpirySettled(s: State, ok: bool)
    requires Settled(s)
    ensures Settled(Run(s, Expiry(ok)))
  {
    var a := Next(s, TimerFires);
    var b := Next(a, Written(ok));
    var c := Next(b, DeleteEntry);
    var d := Next(c, CloseDone);
    assert Expiry(ok)[1..] == [Written(ok), DeleteEntry, CloseDone];
    assert [Written(ok), DeleteEntry, CloseDone][1..] == [DeleteEntry, CloseDone];
    assert [DeleteEntry, CloseDone][1..] == [CloseDone];
    SingleStep(c, CloseDone);
    assert Run(b, [DeleteEntry, CloseDone]) == Run(c, [CloseDone]);
    assert Run(a, [Written(ok), DeleteEntry, CloseDone]) == Run(b, [DeleteEntry, CloseDone]);
    assert Run(s, Expiry(ok)) == d;
  }
}
