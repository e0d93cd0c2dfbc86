/** The filter chain and the negotiation gate (basic/register/filter_chain.go:29-94,
    basic/filter/negotiate.go:44-69, basic/register/message_dispatcher.go:86-133,
    basic/message/handler/negotiate.go:63-117, basic/register/bean.go:105-135).

    A filter is foreign code. In any one run it makes finitely many calls of the chain, so it is
    the list of what it does; whatever holds for every list holds for every filter. */
module FilterChain {
  const NEGOTIATE: bv32 := 0x01

  datatype Action = CallChain | CloseConnection

  datatype Filter = NegotiateGate | Custom(script: seq<Action>)

  /** What a negotiation handler run finds: a body, a request that parses, an accepting
      negotiator. */
  datatype Verdict = Verdict(hasBody: bool, parses: bool, accepted: bool)

  predicate Accepts(v: Verdict) {
    v.hasBody && v.parses && v.accepted
  }

  datatype Entry =
    | Entered(i: nat)
    | Refused(messageID: bv32)
    | NoHandler(messageID: bv32)
    | Handled(messageID: bv32, accepted: bool)

  /** A request on its way through the chain: the filters as they were when it arrived, its
      opcode, the registered handlers and what the negotiator will decide. The low byte of the
      opcode is the message's identifier. */
  datatype Request = Request(snapshot: seq<Filter>, opcode: bv32, handlers: set<bv32>, decide: nat -> Verdict) {
    function MessageID(): bv32 {
      opcode & 0xFF
    }
  }

  /** The continuation's index, the connection's state and everything that happened. */
  datatype Exec = Exec(index: nat, closed: bool, negotiated: bool, log: seq<Entry>)

  function Logged(s: Exec, e: Entry): Exec {
    s.(log := s.log + [e])
  }

  /** The end of the chain: the handler for the message, if there is one. An accepting
      negotiation marks the connection. */
  function Completed(r: Request, s: Exec): Exec {
    if r.MessageID() !in r.handlers then Logged(s, NoHandler(r.MessageID()))
    else if r.MessageID() == NEGOTIATE && Accepts(r.decide(|s.log|))
    then Logged(s, Handled(r.MessageID(), true)).(negotiated := true)
    else Logged(s, Handled(r.MessageID(), false))
  }

  /** One call of the chain: stop on a closed connection, enter the next filter, or complete. */
  function Continued(r: Request, s: Exec): (t: Exec)
    ensures s.index <= t.index && (s.index <= |r.snapshot| ==> t.index <= |r.snapshot|)
    decreases |r.snapshot| - s.index, 0
  {
    if s.closed then s
    else if s.index < |r.snapshot| then
      var entered := Logged(s, Entered(s.index)).(index := s.index + 1);
      match r.snapshot[s.index]
      case NegotiateGate =>
        if r.MessageID() == NEGOTIATE || s.negotiated then Continued(r, entered)
        else Logged(entered, Refused(r.MessageID()))
      case Custom(script) => RunScript(r, script, entered)
    else Completed(r, s)
  }

  function RunScript(r: Request, script: seq<Action>, s: Exec): (t: Exec)
    ensures s.index <= t.index && (s.index <= |r.snapshot| ==> t.index <= |r.snapshot|)
    decreases |r.snapshot| - s.index, |script| + 1
  {
    if script == [] then s
    else match script[0]
         case CallChain => RunScript(r, script[1..], Continued(r, s))
         case CloseConnection => RunScript(r, script[1..], s.(closed := true))
  }

  /** The object that a filter is given to go on with. */
  class Continuation {
    const request: Request
    var index: nat
    var closed: bool
    var negotiated: bool
    var log: seq<Entry>

    constructor (request: Request, closed: bool, negotiated: bool)
      ensures this.request == request && View() == Exec(0, closed, negotiated, [])
    {
      this.request := request;
      this.index, this.closed, this.negotiated, this.log := 0, closed, negotiated, [];
    }

    function View(): Exec
      reads this
    {
      Exec(index, closed, negotiated, log)
    }

    method DoFilter()
      modifies this
      ensures View() == Continued(request, old(View()))
      decreases |request.snapshot| - index, 0
    {
      if closed {
        return;
      }
      if index < |request.snapshot| {
        var filter := request.snapshot[index];
        log := log + [Entered(index)];
        index := index + 1;
        match filter
        case NegotiateGate => Gate();
        case Custom(script) => Run(script);
      } else {
        Complete();
      }
    }

    /** `NegotiateFilter.DoFilter`. */
    method Gate()
      modifies this
      ensures View() == if request.MessageID() == NEGOTIATE || old(negotiated)
                        then Continued(request, old(View()))
                        else Logged(old(View()), Refused(request.MessageID()))
      decreases |request.snapshot| - index, 1
    {
      if request.MessageID() != NEGOTIATE && !negotiated {
        log := log + [Refused(request.MessageID())];
        return;
      }
      DoFilter();
    }

    method Run(script: seq<Action>)
      modifies this
      ensures View() == RunScript(request, script, old(View()))
      decreases |request.snapshot| - index, |script| + 1
    {
      if script == [] {
        return;
      }
      match script[0] {
        case CallChain => DoFilter();
        case CloseConnection => closed := true;
      }
      Run(script[1..]);
    }

    method Complete()
      modifies this
      ensures View() == Completed(request, old(View()))
    {
      if request.MessageID() !in request.handlers {
        log := log + [NoHandler(request.MessageID())];
      } else if request.MessageID() == NEGOTIATE {
        Negotiate(request.decide(|log|));
      } else {
        log := log + [Handled(request.MessageID(), false)];
      }
    }

    /** `NegotiatePayloadHandler.Handle`: only an accepted request sets the property. */
    method Negotiate(v: Verdict)
      modifies this
      ensures View() == Logged(old(View()), Handled(request.MessageID(), Accepts(v)))
                        .(negotiated := old(negotiated) || Accepts(v))
      ensures negotiated == (old(negotiated) || (v.hasBody && v.parses && v.accepted))
      ensures log == old(log) + [Handled(request.MessageID(), v.hasBody && v.parses && v.accepted)]
    {
      if !v.hasBody || !v.parses {
        log := log + [Handled(request.MessageID(), false)];
        return;
      }
      if v.accepted {
        negotiated := true;
      }
      log := log + [Handled(request.MessageID(), v.accepted)];
    }
  }

  // ---------------------------------------------------------------------------
  // Order and number of filters
  // ---------------------------------------------------------------------------

  /** The filters entered, in order. */
  function EnteredBy(log: seq<Entry>): seq<nat> {
    if log == [] then []
    else EnteredBy(log[..|log| - 1]) + if log[|log| - 1].Entered? then [log[|log| - 1].i] else []
  }

  function UpTo(n: nat): (s: seq<nat>)
    ensures |s| == n
  {
    seq(n, i => i)
  }

  /** The filters entered are the first `index` ones, each once, in order; a handler was looked
      up only after all of them. */
  ghost predicate Orderly(r: Request, s: Exec) {
    && s.index <= |r.snapshot|
    && EnteredBy(s.log) == UpTo(s.index)
    && forall k | 0 <= k < |s.log| && (s.log[k].Handled? || s.log[k].NoHandler?) ::
         EnteredBy(s.log[..k]) == UpTo(|r.snapshot|)
  }

  lemma LoggedEntered(log: seq<Entry>, e: Entry)
    ensures EnteredBy(log + [e]) == EnteredBy(log) + if e.Entered? then [e.i] else []
  {
    assert (log + [e])[..|log|] == log;
  }

  lemma OrderlyLogged(r: Request, s: Exec, e: Entry, index: nat)
    requires Orderly(r, s) && index <= |r.snapshot|
    requires if e.Entered? then e.i == s.index && index == s.index + 1 else index == s.index
    requires e.Handled? || e.NoHandler? ==> s.index == |r.snapshot|
    ensures Orderly(r, Logged(s, e).(index := index))
  {
    LoggedEntered(s.log, e);
    var log := s.log + [e];
    assert UpTo(index) == UpTo(s.index) + if e.Entered? then [s.index] else [];
    forall k | 0 <= k < |log| && (log[k].Handled? || log[k].NoHandler?)
      ensures EnteredBy(log[..k]) == UpTo(|r.snapshot|)
    {
      if k < |s.log| {
        assert log[..k] == s.log[..k];
      } else {
        assert log[..k] == s.log;
      }
    }
  }

  lemma {:induction false} ContinuedOrderly(r: Request, s: Exec)
    requires Orderly(r, s)
    ensures Orderly(r, Continued(r, s))
    decreases |r.snapshot| - s.index, 0
  {
    hide Orderly;
    if !s.closed {
      IndexInRange(r, s);
      if s.index < |r.snapshot| {
        var entered := Logged(s, Entered(s.index)).(index := s.index + 1);
        OrderlyLogged(r, s, Entered(s.index), s.index + 1);
        match r.snapshot[s.index]
        case NegotiateGate =>
          if r.MessageID() == NEGOTIATE || s.negotiated {
            ContinuedOrderly(r, entered);
          } else {
            OrderlyLogged(r, entered, Refused(r.MessageID()), entered.index);
          }
        case Custom(script) => RunScriptOrderly(r, script, entered);
      } else {
        var e := if r.MessageID() !in r.handlers then NoHandler(r.MessageID())
                 else Handled(r.MessageID(), r.MessageID() == NEGOTIATE && Accepts(r.decide(|s.log|)));
        OrderlyLogged(r, s, e, s.index);
        OrderlyMarked(r, Logged(s, e));
      }
    }
  }

  lemma IndexInRange(r: Request, s: Exec)
    requires Orderly(r, s)
    ensures s.index <= |r.snapshot|
  {}

  lemma OrderlyMarked(r: Request, s: Exec)
    requires Orderly(r, s)
    ensures Orderly(r, s.(negotiated := true)) && Orderly(r, s.(closed := true))
  {}

  lemma {:induction false} RunScriptOrderly(r: Request, script: seq<Action>, s: Exec)
    requires Orderly(r, s)
    ensures Orderly(r, RunScript(r, script, s))
    decreases |r.snapshot| - s.index, |script| + 1
  {
    hide Orderly;
    if script != [] {
      match script[0]
      case CallChain =>
        ContinuedOrderly(r, s);
        RunScriptOrderly(r, script[1..], Continued(r, s));
      case CloseConnection =>
        OrderlyMarked(r, s);
        RunScriptOrderly(r, script[1..], s.(closed := true));
    }
  }

  /** Each filter runs at most once and in order, however often filters call the chain, and no
      handler is looked up before every filter has been entered. */
  lemma FiltersInOrder(r: Request, closed: bool, negotiated: bool)
    ensures var t := Continued(r, Exec(0, closed, negotiated, []));
            && t.index <= |r.snapshot| && EnteredBy(t.log) == UpTo(t.index)
            && forall k | 0 <= k < |t.log| && (t.log[k].Handled? || t.log[k].NoHandler?) ::
                 EnteredBy(t.log[..k]) == UpTo(|r.snapshot|)
  {
    var s := Exec(0, closed, negotiated, []);
    assert Orderly(r, s);
    ContinuedOrderly(r, s);
    hide Continued;
  }

  // ---------------------------------------------------------------------------
  // The gate
  // ---------------------------------------------------------------------------

  /** A connection and everything its requests caused. */
  datatype Link = Link(closed: bool, negotiated: bool, history: seq<Entry>)

  function Dispatch(r: Request, l: Link): Link {
    var t := Continued(r, Exec(0, l.closed, l.negotiated, []));
    Link(t.closed, t.negotiated, l.history + t.log)
  }

  function Serve(requests: seq<Request>, l: Link): Link
    decreases |requests|
  {
    if requests == [] then l else Serve(requests[1..], Dispatch(requests[0], l))
  }

  ghost predicate HasAcceptance(log: seq<Entry>) {
    exists j | 0 <= j < |log| :: log[j] == Handled(NEGOTIATE, true)
  }

  /** As entry `k` a negotiation ran on a request that has a body, parses and is accepted. */
  predicate NegotiatedAt(r: Request, log: seq<Entry>, k: nat) {
    && k < |log| && log[k].Handled? && log[k].messageID == 1
    && r.decide(k).hasBody && r.decide(k).parses && r.decide(k).accepted
  }

  /** An entry says what happened: a handler ran for the request's own, registered message, and
      accepted it exactly if that was a negotiation with a body that parses and is accepted. */
  predicate EntryOk(r: Request, e: Entry, k: nat) {
    match e
    case Handled(m, accepted) =>
      && m == r.MessageID() && m in r.handlers
      && (accepted <==> m == 1 && r.decide(k).hasBody && r.decide(k).parses && r.decide(k).accepted)
    case NoHandler(m) => m == r.MessageID() && m !in r.handlers
    case Refused(m) => m == r.MessageID() && m != 1
    case Entered(i) => i < |r.snapshot|
  }

  /** During one dispatch: every entry is explained, and the connection is marked exactly if it was
      before or a negotiation was accepted. */
  ghost predicate Explained(r: Request, before: bool, s: Exec) {
    && (forall k | 0 <= k < |s.log| :: EntryOk(r, s.log[k], k))
    && (s.negotiated <==> before || exists k: nat :: NegotiatedAt(r, s.log, k))
  }

  lemma ExplainedLogged(r: Request, before: bool, s: Exec, e: Entry, t: Exec)
    requires Explained(r, before, s) && t.log == s.log + [e] && EntryOk(r, e, |s.log|)
    requires t.negotiated == (s.negotiated || (e.Handled? && e.accepted))
    ensures Explained(r, before, t)
  {
    hide EntryOk;
    forall k | 0 <= k < |t.log| ensures EntryOk(r, t.log[k], k) {
      assert k < |s.log| ==> t.log[k] == s.log[k];
    }
    EntryDecides(r, e, |s.log|, t.log);
    if k: nat :| NegotiatedAt(r, s.log, k) {
      assert NegotiatedAt(r, t.log, k);
    }
    if k: nat :| NegotiatedAt(r, t.log, k) {
      assert k < |s.log| ==> NegotiatedAt(r, s.log, k);
    }
  }

  lemma EntryDecides(r: Request, e: Entry, k: nat, log: seq<Entry>)
    requires k < |log| && log[k] == e && EntryOk(r, e, k)
    ensures NegotiatedAt(r, log, k) <==> e.Handled? && e.accepted
  {}

  lemma {:induction false} ContinuedExplained(r: Request, before: bool, s: Exec)
    requires Explained(r, before, s)
    ensures Explained(r, before, Continued(r, s))
    decreases |r.snapshot| - s.index, 0
  {
    hide Explained;
    if !s.closed {
      if s.index < |r.snapshot| {
        var entered := Logged(s, Entered(s.index)).(index := s.index + 1);
        ExplainedLogged(r, before, s, Entered(s.index), entered);
        match r.snapshot[s.index]
        case NegotiateGate =>
          if r.MessageID() == NEGOTIATE || s.negotiated {
            ContinuedExplained(r, before, entered);
          } else {
            ExplainedLogged(r, before, entered, Refused(r.MessageID()), Logged(entered, Refused(r.MessageID())));
          }
        case Custom(script) => RunScriptExplained(r, before, script, entered);
      } else {
        var t := Completed(r, s);
        ExplainedLogged(r, before, s, t.log[|s.log|], t);
      }
    }
  }

  lemma {:induction false} RunScriptExplained(r: Request, before: bool, script: seq<Action>, s: Exec)
    requires Explained(r, before, s)
    ensures Explained(r, before, RunScript(r, script, s))
    decreases |r.snapshot| - s.index, |script| + 1
  {
    if script != [] {
      match script[0]
      case CallChain =>
        ContinuedExplained(r, before, s);
        RunScriptExplained(r, before, script[1..], Continued(r, s));
      case CloseConnection =>
        RunScriptExplained(r, before, script[1..], s.(closed := true));
    }
  }

  /** In every dispatch, whatever the filters do: handlers run for the request's own message if it is
      registered; a negotiation is logged as accepted exactly if the request had a body, parsed and was
      accepted by the negotiator; and a connection is marked exactly if it was before or there was
      such a negotiation. */
  lemma MarkedExactly(r: Request, l: Link)
    ensures var t := Continued(r, Exec(0, l.closed, l.negotiated, []));
            && (forall k | 0 <= k < |t.log| && t.log[k].Handled? ::
                  && t.log[k].messageID == r.opcode & 0xFF && r.opcode & 0xFF in r.handlers
                  && (t.log[k].accepted <==> r.opcode & 0xFF == 1 && r.decide(k).hasBody && r.decide(k).parses
                                             && r.decide(k).accepted))
            && (t.negotiated <==> l.negotiated || exists k: nat ::
                  k < |t.log| && t.log[k].Handled? && t.log[k].messageID == 1 &&
                  r.decide(k).hasBody && r.decide(k).parses && r.decide(k).accepted)
  {
    hide Continued, NegotiatedAt;
    var s := Exec(0, l.closed, l.negotiated, []);
    NothingNegotiated(r);
    ContinuedExplained(r, l.negotiated, s);
    var t := Continued(r, s);
    forall k | 0 <= k < |t.log| && t.log[k].Handled?
      ensures t.log[k].messageID == r.opcode & 0xFF && r.opcode & 0xFF in r.handlers
      ensures t.log[k].accepted <==> r.opcode & 0xFF == 1 && r.decide(k).hasBody && r.decide(k).parses
                                     && r.decide(k).accepted
    {
      assert EntryOk(r, t.log[k], k);
    }
    NegotiatedSpelled(r, t.log);
  }

  lemma NothingNegotiated(r: Request)
    ensures forall k: nat :: !NegotiatedAt(r, [], k)
  {}

  lemma NegotiatedSpelled(r: Request, log: seq<Entry>)
    ensures (exists k: nat :: NegotiatedAt(r, log, k)) <==>
            (exists k: nat :: k < |log| && log[k].Handled? && log[k].messageID == 1 &&
               r.decide(k).hasBody && r.decide(k).parses && r.decide(k).accepted)
  {
    if k: nat :| NegotiatedAt(r, log, k) {
      assert log[k].Handled?;
    }
    if k: nat :| k < |log| && log[k].Handled? && log[k].messageID == 1 &&
                 r.decide(k).hasBody && r.decide(k).parses && r.decide(k).accepted {
      assert NegotiatedAt(r, log, k);
    }
  }

  /** On a closed connection nothing happens, whatever filters still do. */
  lemma {:induction false} NothingAfterClose(r: Request, script: seq<Action>, s: Exec)
    requires s.closed
    ensures Continued(r, s) == s && RunScript(r, script, s) == s
    decreases |script|
  {
    if script != [] {
      NothingAfterClose(r, script[1..], s);
    }
  }

  /** A filter that closes the connection keeps everything after it from running. */
  lemma ClosingFilterStops(r: Request, script: seq<Action>, negotiated: bool)
    requires r.snapshot != [] && r.snapshot[0] == Custom([CloseConnection] + script)
    ensures Continued(r, Exec(0, false, negotiated, [])) == Exec(1, true, negotiated, [Entered(0)])
  {
    var s, entered := Exec(0, false, negotiated, []), Exec(1, false, negotiated, [Entered(0)]);
    var closing := [CloseConnection] + script;
    assert closing[1..] == script;
    NothingAfterClose(r, script, entered.(closed := true));
    assert RunScript(r, closing, entered) == RunScript(r, script, entered.(closed := true));
    assert Logged(s, Entered(0)).(index := 1) == entered;
    assert Continued(r, s) == RunScript(r, closing, entered);
  }

  /** Every filter but the gate calls the chain once. */
  predicate Plain(r: Request) {
    forall i | 0 <= i < |r.snapshot| && r.snapshot[i].Custom? :: r.snapshot[i].script == [CallChain]
  }

  ghost predicate Ran(log: seq<Entry>) {
    exists k: nat :: k < |log| && log[k].Handled?
  }

  lemma {:induction false} PlainRuns(r: Request, s: Exec)
    requires Plain(r) && !s.closed && s.index <= |r.snapshot| && !Ran(s.log)
    ensures Ran(Continued(r, s).log) <==>
              && r.MessageID() in r.handlers
              && (s.negotiated || r.MessageID() == 1 ||
                  forall i | s.index <= i < |r.snapshot| :: !r.snapshot[i].NegotiateGate?)
    decreases |r.snapshot| - s.index
  {
    if s.index < |r.snapshot| {
      var entered := Logged(s, Entered(s.index)).(index := s.index + 1);
      NotRan(s.log, Entered(s.index));
      if r.snapshot[s.index].NegotiateGate? && r.MessageID() != NEGOTIATE && !s.negotiated {
        NotRan(entered.log, Refused(r.MessageID()));
      } else {
        PlainRuns(r, entered);
        if r.snapshot[s.index].Custom? {
          CallsOnce(r, entered);
        }
      }
    } else {
      var t := Completed(r, s);
      assert t.log[|s.log|].Handled? ==> Ran(t.log);
      if t.log[|s.log|].NoHandler? {
        NotRan(s.log, t.log[|s.log|]);
      }
    }
  }

  lemma NotRan(log: seq<Entry>, e: Entry)
    requires !Ran(log) && !e.Handled?
    ensures !Ran(log + [e])
  {
    var longer := log + [e];
    forall k: nat | k < |longer| ensures !longer[k].Handled? {
      if k < |log| {
        assert longer[k] == log[k];
      }
    }
  }

  lemma CallsOnce(r: Request, s: Exec)
    ensures RunScript(r, [CallChain], s) == Continued(r, s)
  {
    assert [CallChain][1..] == [];
    assert RunScript(r, [], Continued(r, s)) == Continued(r, s);
  }

  /** If every filter passes its message on once, a registered message reaches its handler exactly if
      the connection has negotiated, the message is a negotiation, or there is no gate. */
  lemma PlainChainExactly(r: Request, negotiated: bool)
    requires Plain(r)
    ensures var log := Continued(r, Exec(0, false, negotiated, [])).log;
            (exists k: nat :: k < |log| && log[k].Handled?) <==>
              && r.opcode & 0xFF in r.handlers
              && (negotiated || r.opcode & 0xFF == 1 || NegotiateGate !in r.snapshot)
  {
    var s := Exec(0, false, negotiated, []);
    PlainRuns(r, s);
    hide Continued, Plain;
    var log := Continued(r, s).log;
    assert Ran(log) <==> exists k: nat :: k < |log| && log[k].Handled?;
    assert NegotiateGate !in r.snapshot <==> forall i | 0 <= i < |r.snapshot| :: !r.snapshot[i].NegotiateGate?;
  }

  predicate Gated(r: Request) {
    |r.snapshot| > 0 && r.snapshot[0].NegotiateGate?
  }

  /** Before acceptance a gated request for anything but negotiation runs no handler. */
  lemma GateRefuses(r: Request, s: Exec)
    requires Gated(r) && s.index == 0 && !s.negotiated && r.MessageID() != NEGOTIATE && s.log == []
    ensures forall k | 0 <= k < |Continued(r, s).log| :: !Continued(r, s).log[k].Handled?
  {}

  /** What holds of a connection's history: it is marked only after an acceptance, and every
      other handler ran after one. */
  ghost predicate GateKept(l: Link) {
    && (l.negotiated ==> HasAcceptance(l.history))
    && forall k | 0 <= k < |l.history| && l.history[k].Handled? && l.history[k].messageID != NEGOTIATE ::
         HasAcceptance(l.history[..k])
  }

  lemma AcceptanceExtends(a: seq<Entry>, b: seq<Entry>)
    requires HasAcceptance(a) || HasAcceptance(b)
    ensures HasAcceptance(a + b)
  {
    if HasAcceptance(a) {
      var j :| 0 <= j < |a| && a[j] == Handled(NEGOTIATE, true);
      assert (a + b)[j] == Handled(NEGOTIATE, true);
    } else {
      var j :| 0 <= j < |b| && b[j] == Handled(NEGOTIATE, true);
      assert (a + b)[|a| + j] == Handled(NEGOTIATE, true);
    }
  }

  lemma DispatchKeepsGate(r: Request, l: Link)
    requires Gated(r) && GateKept(l)
    ensures GateKept(Dispatch(r, l))
  {
    var s := Exec(0, l.closed, l.negotiated, []);
    ContinuedExplained(r, l.negotiated, s);
    if !l.negotiated && r.MessageID() != NEGOTIATE {
      GateRefuses(r, s);
    }
    var t := Continued(r, s);
    hide Continued, HasAcceptance;
    var h := l.history + t.log;
    if t.negotiated {
      AcceptanceExtends(l.history, t.log);
    }
    forall k | 0 <= k < |h| && h[k].Handled? && h[k].messageID != NEGOTIATE ensures HasAcceptance(h[..k]) {
      if k < |l.history| {
        assert h[..k] == l.history[..k];
      } else {
        assert t.log[k - |l.history|] == h[k];
        assert h[..k] == l.history + t.log[..k - |l.history|];
        AcceptanceExtends(l.history, t.log[..k - |l.history|]);
      }
    }
  }

  lemma {:induction false} ServeKeepsGate(requests: seq<Request>, l: Link)
    requires GateKept(l) && forall i | 0 <= i < |requests| :: Gated(requests[i])
    ensures GateKept(Serve(requests, l))
    decreases |requests|
  {
    hide GateKept, Dispatch;
    if requests != [] {
      DispatchKeepsGate(requests[0], l);
      ServeKeepsGate(requests[1..], Dispatch(requests[0], l));
    }
  }

  /** With the gate first in the dispatcher's own chain, in every run over a new connection, a
      handler for anything but negotiation runs only after an accepted negotiation. */
  lemma NoHandlerBeforeNegotiation(requests: seq<Request>, k: nat)
    requires forall i | 0 <= i < |requests| :: Gated(requests[i])
    requires var h := Serve(requests, Link(false, false, [])).history;
             k < |h| && h[k].Handled? && h[k].messageID != NEGOTIATE
    ensures var h := Serve(requests, Link(false, false, [])).history;
            exists j | 0 <= j < k :: h[j] == Handled(NEGOTIATE, true)
  {
    var l := Link(false, false, []);
    ServeKeepsGate(requests, l);
    hide Serve;
    var h := Serve(requests, l).history;
    assert HasAcceptance(h[..k]);
    var j :| 0 <= j < |h[..k]| && h[..k][j] == Handled(NEGOTIATE, true);
    assert h[j] == Handled(NEGOTIATE, true);
  }

  /** One of these requests was a negotiation with a body that parsed and was accepted. */
  ghost predicate Negotiated(requests: seq<Request>) {
    exists i: nat, j: nat :: i < |requests| && AcceptedBy(requests[i], j)
  }

  predicate AcceptedBy(r: Request, j: nat) {
    r.opcode & 0xFF == 1 && r.decide(j).hasBody && r.decide(j).parses && r.decide(j).accepted
  }

  lemma {:induction false} ServeOneMore(requests: seq<Request>, r: Request, l: Link)
    ensures Serve(requests + [r], l) == Dispatch(r, Serve(requests, l))
    decreases |requests|
  {
    hide Dispatch;
    if requests == [] {
      assert [] + [r] == [r];
      assert [r][1..] == [];
      assert Serve([], Dispatch(r, l)) == Dispatch(r, l);
    } else {
      assert (requests + [r])[1..] == requests[1..] + [r];
      ServeOneMore(requests[1..], r, Dispatch(requests[0], l));
    }
  }

  /** A connection that was new is marked only by a request that negotiated. */
  lemma {:induction false} MarkedByRequest(requests: seq<Request>)
    ensures Serve(requests, Link(false, false, [])).negotiated ==> Negotiated(requests)
    decreases |requests|
  {
    hide Continued;
    if requests != [] {
      var n := |requests| - 1;
      var before, r := requests[..n], requests[n];
      var l := Serve(before, Link(false, false, []));
      MarkedByRequest(before);
      assert requests == before + [r];
      ServeOneMore(before, r, Link(false, false, []));
      MarkedExactly(r, l);
      if i: nat, j: nat :| i < |before| && AcceptedBy(before[i], j) {
        assert AcceptedBy(requests[i], j);
      } else if Dispatch(r, l).negotiated {
        var log := Continued(r, Exec(0, l.closed, l.negotiated, [])).log;
        var k: nat :| k < |log| && log[k].Handled? && log[k].messageID == 1 &&
                      r.decide(k).hasBody && r.decide(k).parses && r.decide(k).accepted;
        assert AcceptedBy(requests[n], k);
      }
    }
  }

  /** With the gate first in every request's chain: if the dispatch of the last of these requests, on a
      connection that was new before the first, runs a handler for anything but negotiation, an earlier
      request was a negotiation that had a body, parsed and was accepted by the negotiator. */
  lemma HandlersNeedNegotiation(requests: seq<Request>, r: Request, k: nat)
    requires Gated(r)
    requires var l := Serve(requests, Link(false, false, []));
             var log := Continued(r, Exec(0, l.closed, l.negotiated, [])).log;
             k < |log| && log[k].Handled? && log[k].messageID != 1
    ensures exists i: nat, j: nat :: i < |requests| && requests[i].opcode & 0xFF == 1 &&
              requests[i].decide(j).hasBody && requests[i].decide(j).parses && requests[i].decide(j).accepted
  {
    var l := Serve(requests, Link(false, false, []));
    MarkedByRequest(requests);
    MarkedExactly(r, l);
    if !l.negotiated {
      GateRefuses(r, Exec(0, l.closed, l.negotiated, []));
    }
    hide Serve, Continued;
    var i: nat, j: nat :| i < |requests| && AcceptedBy(requests[i], j);
    assert requests[i].decide(j).accepted;
  }

  // ---------------------------------------------------------------------------
  // Anywhere but first, the gate can be walked around
  // ---------------------------------------------------------------------------

  function Calls(n: nat): seq<Action> {
    seq(n, _ => CallChain)
  }

  /** A chain of `n` filters with the gate at `g`: the first filter calls the chain `n` times,
      the others never do. */
  function Layout(n: nat, g: nat): seq<Filter>
    requires 0 < g < n
  {
    seq(n, i => if i == 0 then Custom(Calls(n)) else if i == g then NegotiateGate else Custom([]))
  }

  /** Each further call enters one more filter, which goes no further, until the last call
      reaches the handler. */
  lemma {:induction false} CallsReachHandler(r: Request, n: nat, g: nat, k: nat, s: Exec)
    requires 0 < g < n && r.snapshot == Layout(n, g) && r.MessageID() in r.handlers && r.MessageID() != NEGOTIATE
    requires !s.closed && !s.negotiated && 0 < s.index <= n && k == n - s.index + 1
    ensures var t := RunScript(r, Calls(k), s);
            |t.log| > 0 && t.log[|t.log| - 1] == Handled(r.MessageID(), false)
    decreases k
  {
    assert Calls(k)[1..] == Calls(k - 1);
    var t := Continued(r, s);
    if s.index == n {
      assert t == Completed(r, s);
      assert RunScript(r, Calls(0), t) == t;
    } else {
      IdleFilter(r, n, g, s);
      CallsReachHandler(r, n, g, k - 1, t);
    }
  }

  lemma IdleFilter(r: Request, n: nat, g: nat, s: Exec)
    requires 0 < g < n && r.snapshot == Layout(n, g) && r.MessageID() != NEGOTIATE
    requires !s.closed && !s.negotiated && 0 < s.index < n
    ensures var t := Continued(r, s); !t.closed && !t.negotiated && t.index == s.index + 1
  {
    var entered := Logged(s, Entered(s.index)).(index := s.index + 1);
    assert RunScript(r, [], entered) == entered;
  }

  /** Wherever in a chain the gate stands, if it is not first some filters before it let an
      ungated message through on a connection that never negotiated. */
  lemma GateBypassedUnlessFirst(n: nat, g: nat, opcode: bv32, handlers: set<bv32>, decide: nat -> Verdict)
    requires 0 < g < n && opcode & 0xFF in handlers && opcode & 0xFF != NEGOTIATE
    ensures exists snapshot: seq<Filter> :: |snapshot| == n && snapshot[g].NegotiateGate? &&
              Handled(opcode & 0xFF, false) in Dispatch(Request(snapshot, opcode, handlers, decide),
                                                       Link(false, false, [])).history
  {
    var snapshot := Layout(n, g);
    var r := Request(snapshot, opcode, handlers, decide);
    var s := Exec(0, false, false, []);
    var entered := Logged(s, Entered(0)).(index := 1);
    CallsReachHandler(r, n, g, n, entered);
    var t := RunScript(r, Calls(n), entered);
    assert Continued(r, s) == t;
    hide Continued, RunScript;
    assert t.log[|t.log| - 1] == Handled(opcode & 0xFF, false);
    assert Dispatch(r, Link(false, false, [])).history == t.log;
  }

  // ---------------------------------------------------------------------------
  // Wiring
  // ---------------------------------------------------------------------------

  class FilterChainRegister {
    var filters: seq<Filter>

    constructor ()
      ensures filters == []
    {
      filters := [];
    }

    method AddFilter(f: Filter)
      modifies this
      ensures filters == old(filters) + [f]
    {
      filters := filters + [f];
    }
  }

  /** The registry holds one chain and its dispatcher another; `Register` fills the first,
      `Dispatch` runs the second. */
  class BeanRegister {
    const filterChain: FilterChainRegister
    const dispatcherChain: FilterChainRegister

    constructor ()
      ensures fresh(filterChain) && fresh(dispatcherChain) && filterChain != dispatcherChain
      ensures filterChain.filters == [] && dispatcherChain.filters == []
    {
      filterChain := new FilterChainRegister();
      dispatcherChain := new FilterChainRegister();
    }

    method Register(f: Filter)
      requires filterChain != dispatcherChain
      modifies filterChain
      ensures filterChain.filters == old(filterChain.filters) + [f]
      ensures dispatcherChain.filters == old(dispatcherChain.filters)
    {
      filterChain.AddFilter(f);
    }

    method Dispatch(opcode: bv32, handlers: set<bv32>, decide: nat -> Verdict, closed: bool, negotiated: bool)
      returns (t: Exec)
      ensures t == Continued(Request(dispatcherChain.filters, opcode, handlers, decide),
                             Exec(0, closed, negotiated, []))
    {
      var snapshot := dispatcherChain.filters;
      var continuation := new Continuation(Request(snapshot, opcode, handlers, decide), closed, negotiated);
      continuation.DoFilter();
      t := continuation.View();
    }
  }

  /** So a gate that went through `Register` guards nothing: a new connection's first message
      reaches its handler. */
  method RegisteredGateIsUnused(opcode: bv32, handlers: set<bv32>, decide: nat -> Verdict) returns (t: Exec)
    requires opcode & 0xFF in handlers && opcode & 0xFF != NEGOTIATE
    ensures t.log == [Handled(opcode & 0xFF, false)] && !t.negotiated
  {
    var beans := new BeanRegister();
    beans.Register(NegotiateGate);
    t := beans.Dispatch(opcode, handlers, decide, false, false);
  }
}
