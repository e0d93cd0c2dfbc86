/** One caller of the client, with what happens to its request while it waits: frames that the
    read loop meets, expiries of its timer and a close (client/client.go:59-171, conn/seq.go:134-250).
    What other callers do meanwhile is the subject of `Protocol`. */
module Client {
  import opened Bytes
  import opened Flags
  import opened Packet
  import opened Encoder
  import opened Sequencing
  import opened Wire

  datatype Reason = ConnectionClosed | NotWritten | Ended(error: RequestError) | ContextDone

  datatype Answer = Response(packet: PacketData) | Failure(reason: Reason)

  /** What happens while a caller waits; a timer expiry says whether the transport takes the
      frame once more. */
  datatype Happening = Arrived(frame: PacketData) | Expiry(transportOk: bool) | Closing

  /** The frame is a response under the number. */
  predicate Matches(frame: PacketData, seqNo: nat) {
    IsResponse(frame.flags) && SeqOf(frame.seqNo) == seqNo
  }

  /** The numbers that the arriving frames are responses to. */
  function AnsweredBy(hs: seq<Happening>): set<nat> {
    set i | 0 <= i < |hs| && hs[i].Arrived? && IsResponse(hs[i].frame.flags) :: SeqOf(hs[i].frame.seqNo)
  }

  function Expiries(hs: seq<Happening>): nat {
    if hs == [] then 0 else Expiries(hs[..|hs| - 1]) + if hs[|hs| - 1].Expiry? then 1 else 0
  }

  /** Nothing has ended the wait under the number: no response to it, no close, every
      retransmission written and at most three of them. */
  ghost predicate Survived(hs: seq<Happening>, seqNo: nat) {
    && Expiries(hs) <= MAX_RETRIES
    && forall k | 0 <= k < |hs| ::
         match hs[k]
         case Arrived(frame) => !Matches(frame, seqNo)
         case Expiry(transportOk) => transportOk
         case Closing => false
  }

  /** The last of these ended the wait. */
  ghost predicate EndsWith(hs: seq<Happening>, seqNo: nat) {
    hs != [] && Survived(hs[..|hs| - 1], seqNo) && !Survived(hs, seqNo)
  }

  /** What the last of these makes of the wait it ends. */
  function Ending(hs: seq<Happening>): Answer
    requires hs != []
  {
    match hs[|hs| - 1]
    case Arrived(frame) => Response(frame)
    case Expiry(_) => Failure(Ended(if Expiries(hs) > MAX_RETRIES then MaxRetriesExceeded else RetransmitFailed))
    case Closing => Failure(Ended(ConnClosed))
  }

  /** How many of the expiries wrote the frame once more: a fourth does not, nor does a failing one. */
  function Rewritten(hs: seq<Happening>): nat {
    if hs == [] then 0
    else
      var h := hs[|hs| - 1];
      Rewritten(hs[..|hs| - 1]) + if h.Expiry? && h.transportOk && Expiries(hs) <= MAX_RETRIES then 1 else 0
  }

  function Copies(s: seq<Byte>, n: nat): seq<Byte> {
    if n == 0 then [] else Copies(s, n - 1) + s
  }

  /** The answer and the happenings it takes: the first that ends the wait ends it, and says how. */
  ghost predicate WaitedFor(r: Answer, hs: seq<Happening>, used: nat, seqNo: nat)
    requires used <= |hs|
  {
    if Survived(hs, seqNo) then r == Failure(ContextDone) && used == |hs|
    else EndsWith(hs[..used], seqNo) && r == Ending(hs[..used])
  }

  /** What the mailboxes hold for the caller; the context's end otherwise. */
  function Outcome(r: Request): Answer {
    if r.response.Holding? then Response(r.response.value)
    else if r.error.Holding? then Failure(Ended(r.error.value))
    else Failure(ContextDone)
  }

  /** The other callers' entries after all this. */
  function Left<T>(table: map<nat, T>, hs: seq<Happening>): map<nat, T> {
    if Closing in hs then map[] else table - AnsweredBy(hs)
  }

  /** What the happening does to a request under the number. */
  function Happened(r: Request, seqNo: nat, h: Happening): Request {
    match h
    case Arrived(frame) => if Matches(frame, seqNo) then Resolved(r, frame) else r
    case Expiry(transportOk) => Expired(r, transportOk)
    case Closing => FailedWith(r, ConnClosed)
  }

  /** The table after one happening, apart from the caller's own entry. */
  ghost predicate TableMoved<T>(h: Happening, seqNo: nat, now: map<nat, T>, next: map<nat, T>) {
    next - {seqNo} == match h
                      case Arrived(frame) =>
                        now - (if IsResponse(frame.flags) then {SeqOf(frame.seqNo)} else {}) - {seqNo}
                      case Expiry(_) => now - {seqNo}
                      case Closing => map[] - {seqNo}
  }

  /** The happening leaves the wait going, as its `n`-th expiry if it is one. */
  predicate Harmless(h: Happening, seqNo: nat, n: nat) {
    match h
    case Arrived(frame) => !Matches(frame, seqNo)
    case Expiry(transportOk) => transportOk && n <= MAX_RETRIES
    case Closing => false
  }

  lemma SurvivedOneMore(hs: seq<Happening>, i: nat, seqNo: nat)
    requires i < |hs| && Survived(hs[..i], seqNo)
    ensures Expiries(hs[..i + 1]) == Expiries(hs[..i]) + if hs[i].Expiry? then 1 else 0
    ensures Survived(hs[..i + 1], seqNo) <==> Harmless(hs[i], seqNo, Expiries(hs[..i + 1]))
    ensures !Harmless(hs[i], seqNo, Expiries(hs[..i + 1])) ==> EndsWith(hs[..i + 1], seqNo)
  {
    hide Matches;
    var some, more := hs[..i], hs[..i + 1];
    assert more[..|more| - 1] == some && more[i] == hs[i];
    forall k | 0 <= k < i ensures more[k] == some[k] {}
  }

  lemma NothingYet<T>(table: map<nat, T>, hs: seq<Happening>, seqNo: nat)
    ensures Survived(hs[..0], seqNo) && Expiries(hs[..0]) == Rewritten(hs[..0]) == 0 && Left(table, hs[..0]) == table
  {}

  lemma NotClosed(hs: seq<Happening>, seqNo: nat)
    requires Survived(hs, seqNo)
    ensures Closing !in hs
  {
    hide Matches;
  }

  /** The mailboxes say how the wait ended, or that it goes on. */
  lemma MetOutcome(hs: seq<Happening>, i: nat, seqNo: nat, was: Request, now: Request)
    requires i < |hs| && Survived(hs[..i], seqNo) && Open(was) && was.retries == Expiries(hs[..i])
    requires now == Happened(was, seqNo, hs[i])
    ensures now.done <==> !Harmless(hs[i], seqNo, Expiries(hs[..i + 1]))
    ensures now.done ==> Outcome(now) == Ending(hs[..i + 1])
    ensures !now.done ==> Open(now) && Outcome(now) == Failure(ContextDone) && now.retries == Expiries(hs[..i + 1])
  {
    hide Matches, Survived;
    SurvivedOneMore(hs, i, seqNo);
    assert hs[..i + 1][i] == hs[i];
  }

  lemma RewrittenOneMore(hs: seq<Happening>, i: nat)
    requires i < |hs|
    ensures Rewritten(hs[..i + 1]) ==
              Rewritten(hs[..i]) +
              if hs[i].Expiry? && hs[i].transportOk && Expiries(hs[..i + 1]) <= MAX_RETRIES then 1 else 0
  {
    assert hs[..i + 1][..i] == hs[..i];
  }

  lemma CopiesOneMore(a: seq<Byte>, s: seq<Byte>, n: nat)
    ensures a + Copies(s, n) + s == a + Copies(s, n + 1)
    ensures a + Copies(s, n) + [] == a + Copies(s, n)
  {}

  /** At most three expiries write the frame once more. */
  lemma {:induction false} RewrittenAtMost(hs: seq<Happening>)
    ensures Rewritten(hs) <= MAX_RETRIES && Rewritten(hs) <= Expiries(hs)
  {
    if hs != [] {
      RewrittenAtMost(hs[..|hs| - 1]);
    }
  }

  lemma LeftOneMore<T>(table: map<nat, T>, now: map<nat, T>, next: map<nat, T>, number: nat, hs: seq<Happening>, i: nat)
    requires i < |hs| && Closing !in hs[..i] && now - {number} == Left(table, hs[..i]) - {number}
    requires TableMoved(hs[i], number, now, next)
    ensures next - {number} == Left(table, hs[..i + 1]) - {number}
  {
    hide SeqOf, IsResponse, AnsweredBy;
    AnsweredByOneMore(hs, i);
    assert hs[..i + 1] == hs[..i] + [hs[i]];
    assert Closing in hs[..i + 1] <==> hs[i] == Closing;
    if hs[i].Arrived? {
      var q := if IsResponse(hs[i].frame.flags) then {SeqOf(hs[i].frame.seqNo)} else {};
      assert now - q - {number} == (now - {number}) - q;
      assert table - AnsweredBy(hs[..i]) - {number} - q == table - (AnsweredBy(hs[..i]) + q) - {number};
    }
  }

  lemma {:induction false} SurvivedPrefix(hs: seq<Happening>, n: nat, seqNo: nat)
    requires n <= |hs| && Survived(hs, seqNo)
    ensures Survived(hs[..n], seqNo)
    decreases |hs|
  {
    hide Matches;
    if n == |hs| {
      assert hs[..n] == hs;
    } else {
      var less := hs[..|hs| - 1];
      forall k | 0 <= k < |less| ensures less[k] == hs[k] {}
      SurvivedPrefix(less, n, seqNo);
      assert less[..n] == hs[..n];
    }
  }

  /** What has ended a wait has ended it whatever follows. */
  lemma EndedForGood(hs: seq<Happening>, seqNo: nat, a: nat, b: nat)
    requires a <= b <= |hs| && EndsWith(hs[..a], seqNo)
    ensures !Survived(hs[..b], seqNo)
  {
    assert hs[..b][..a] == hs[..a];
    hide Survived;
    if Survived(hs[..b], seqNo) {
      SurvivedPrefix(hs[..b], a, seqNo);
      assert false;
    }
  }

  lemma EndsInOrder(hs: seq<Happening>, seqNo: nat, a: nat, b: nat)
    requires a <= |hs| && b <= |hs| && EndsWith(hs[..a], seqNo) && EndsWith(hs[..b], seqNo)
    ensures a >= b
  {
    hide Survived;
    if a < b {
      assert hs[..b][..b - 1] == hs[..b - 1];
      EndedForGood(hs, seqNo, a, b - 1);
    }
  }

  /** A wait ends at one point only. */
  lemma EndsOnce(hs: seq<Happening>, seqNo: nat, a: nat, b: nat)
    requires a <= |hs| && b <= |hs| && EndsWith(hs[..a], seqNo) && EndsWith(hs[..b], seqNo)
    ensures a == b
  {
    hide EndsWith;
    EndsInOrder(hs, seqNo, a, b);
    EndsInOrder(hs, seqNo, b, a);
  }

  lemma AnsweredByOneMore(hs: seq<Happening>, i: nat)
    requires i < |hs|
    ensures AnsweredBy(hs[..i + 1]) ==
              AnsweredBy(hs[..i]) +
              if hs[i].Arrived? && IsResponse(hs[i].frame.flags) then {SeqOf(hs[i].frame.seqNo)} else {}
  {
    hide SeqOf, IsResponse;
    var a, b := AnsweredBy(hs[..i]), AnsweredBy(hs[..i + 1]);
    forall q | q in b
      ensures q in a || (hs[i].Arrived? && IsResponse(hs[i].frame.flags) && q == SeqOf(hs[i].frame.seqNo))
    {
      var j :| 0 <= j < i + 1 && hs[..i + 1][j].Arrived? && IsResponse(hs[..i + 1][j].frame.flags)
               && SeqOf(hs[..i + 1][j].frame.seqNo) == q;
      assert j < i ==> hs[..i][j] == hs[..i + 1][j];
    }
    forall q | q in a ensures q in b {
      var j :| 0 <= j < i && hs[..i][j].Arrived? && IsResponse(hs[..i][j].frame.flags)
               && SeqOf(hs[..i][j].frame.seqNo) == q;
      assert hs[..i + 1][j] == hs[..i][j];
    }
    assert hs[..i + 1][i] == hs[i];
  }

  /** A response under the number arrives at `k`, in time. */
  ghost predicate AnsweredAt(hs: seq<Happening>, k: nat, seqNo: nat) {
    && k < |hs| && hs[k].Arrived? && IsResponse(hs[k].frame.flags) && SeqOf(hs[k].frame.seqNo) == seqNo
    && Survived(hs[..k], seqNo)
  }

  lemma AnswerEnds(hs: seq<Happening>, k: nat, seqNo: nat)
    requires AnsweredAt(hs, k, seqNo)
    ensures EndsWith(hs[..k + 1], seqNo) && Ending(hs[..k + 1]) == Response(hs[k].frame)
  {
    assert Matches(hs[k].frame, seqNo);
    hide Matches, Survived;
    SurvivedOneMore(hs, k, seqNo);
    assert hs[..k + 1][k] == hs[k];
  }

  lemma ResponseIsAnswer(hs: seq<Happening>, used: nat, seqNo: nat)
    requires 0 < used <= |hs| && EndsWith(hs[..used], seqNo) && Ending(hs[..used]).Response?
    ensures AnsweredAt(hs, used - 1, seqNo) && Ending(hs[..used]) == Response(hs[used - 1].frame)
  {
    hide SeqOf, IsResponse, Survived;
    assert hs[..used][..used - 1] == hs[..used - 1];
    SurvivedOneMore(hs, used - 1, seqNo);
  }

  /** A wait brings a response exactly when one arrives before a close, a failed retransmission
      and the fourth expiry, and then that one; the frame is written four times at most. */
  lemma AnswersExactly(r: Answer, hs: seq<Happening>, used: nat, seqNo: nat)
    requires used <= |hs| && WaitedFor(r, hs, used, seqNo)
    ensures r.Response? <==> exists k: nat :: AnsweredAt(hs, k, seqNo)
    ensures r.Response? ==> used > 0 && AnsweredAt(hs, used - 1, seqNo) && hs[used - 1].frame == r.packet
    ensures 1 + Rewritten(hs[..used]) <= 4
  {
    RewrittenAtMost(hs[..used]);
    hide Survived, Rewritten, AnsweredAt, Ending;
    if r.Response? {
      ResponseIsAnswer(hs, used, seqNo);
    }
    if k: nat :| AnsweredAt(hs, k, seqNo) {
      AnswerInTime(r, hs, used, k, seqNo);
    }
  }

  lemma AnswerInTime(r: Answer, hs: seq<Happening>, used: nat, k: nat, seqNo: nat)
    requires used <= |hs| && WaitedFor(r, hs, used, seqNo) && AnsweredAt(hs, k, seqNo)
    ensures r == Response(hs[k].frame)
  {
    AnswerEnds(hs, k, seqNo);
    hide Survived, EndsWith, Ending;
    EndedForGood(hs, seqNo, k + 1, |hs|);
    assert hs[..|hs|] == hs;
    EndsOnce(hs, seqNo, used, k + 1);
  }

  /** How a wait stands after some happenings: its request, the other callers' entries and what
      was written since. */
  ghost predicate Standing<T>(hs: seq<Happening>, seqNo: nat, r: Request, table: map<nat, T>, now: map<nat, T>,
                              before: seq<Byte>, written: seq<Byte>) {
    && (r.done ==> EndsWith(hs, seqNo) && Outcome(r) == Ending(hs))
    && (!r.done ==> Survived(hs, seqNo) && Open(r) && r.retries == Expiries(hs))
    && now - {seqNo} == Left(table, hs) - {seqNo}
    && written == before + Copies(EncodeFrame(r.packet), Rewritten(hs))
  }

  /** What an expiry writes. */
  function Resent(h: Happening, retries: nat, packet: PacketData): seq<Byte> {
    if h.Expiry? && h.transportOk && retries <= MAX_RETRIES then EncodeFrame(packet) else []
  }

  lemma StandingStep<T>(hs: seq<Happening>, i: nat, seqNo: nat, was: Request, r: Request, table: map<nat, T>,
                        now: map<nat, T>, next: map<nat, T>, before: seq<Byte>, written: seq<Byte>, longer: seq<Byte>)
    requires i < |hs| && !was.done && Standing(hs[..i], seqNo, was, table, now, before, written)
    requires r == Happened(was, seqNo, hs[i]) && TableMoved(hs[i], seqNo, now, next)
    requires longer == written + Resent(hs[i], r.retries, r.packet)
    requires r.retries == was.retries + if hs[i].Expiry? then 1 else 0
    ensures Standing(hs[..i + 1], seqNo, r, table, next, before, longer)
  {
    hide EncodeFrame, Matches, SeqOf, Survived, Left, Ending, EndsWith;
    SurvivedOneMore(hs, i, seqNo);
    RewrittenOneMore(hs, i);
    NotClosed(hs[..i], seqNo);
    MetOutcome(hs, i, seqNo, was, r);
    LeftOneMore(table, now, next, seqNo, hs, i);
    hide TableMoved, Harmless, Happened, Rewritten;
    CopiesOneMore(before, EncodeFrame(r.packet), Rewritten(hs[..i]));
  }

  lemma BeforeAny<T>(hs: seq<Happening>, seqNo: nat, r: Request, table: map<nat, T>, before: seq<Byte>)
    requires Open(r) && r.retries == 0
    ensures Standing(hs[..0], seqNo, r, table, table, before, before)
  {
    NothingYet(table, hs, seqNo);
  }

  lemma StandingEnds<T>(hs: seq<Happening>, used: nat, seqNo: nat, r: Request, table: map<nat, T>, now: map<nat, T>,
                        before: seq<Byte>, written: seq<Byte>)
    requires used <= |hs| && Standing(hs[..used], seqNo, r, table, now, before, written)
    requires r.done || used == |hs|
    ensures WaitedFor(Outcome(r), hs, used, seqNo)
    ensures now - {seqNo} == Left(table, hs[..used]) - {seqNo}
    ensures written == before + Copies(EncodeFrame(r.packet), Rewritten(hs[..used]))
    ensures Outcome(r).Response? ==> r.done
  {
    hide Survived, EncodeFrame, Left, EndsWith, Ending, Rewritten;
    assert hs[..|hs|] == hs;
    if r.done {
      EndedForGood(hs, seqNo, used, |hs|);
    }
  }

  class Client {
    const config: Config
    const seqMgr: SeqManager
    var closed: bool
    var written: seq<Byte>
    var requestsSent: nat
    var responsesReceived: nat

    ghost predicate Valid()
      reads this, seqMgr, seqMgr.pending.Values
    {
      seqMgr.Valid() && ConfigOk(config) && seqMgr.seqLen == config.seqLen
    }

    constructor (config: Config)
      requires ConfigOk(config)
      ensures Valid() && this.config == config && !closed && written == []
      ensures fresh(seqMgr) && seqMgr.pending == map[]
    {
      this.config := config;
      closed, written, requestsSent, responsesReceived := false, [], 0, 0;
      seqMgr := new SeqManager(config.seqLen);
    }

    /** `transportOk` says whether the transport takes the bytes. */
    method WritePacket(f: PacketData, transportOk: bool) returns (ok: bool)
      modifies this`written
      ensures ok == (!closed && transportOk)
      ensures written == old(written) + if ok then EncodeFrame(f) else []
    {
      hide EncodeFrame;
      ok := !closed && transportOk;
      if ok {
        written := written + EncodeFrame(f);
      }
    }

    /** The read loop's treatment of one frame. */
    method OnFrame(frame: PacketData)
      requires Valid()
      modifies seqMgr`pending,
               if IsResponse(frame.flags) && SeqOf(frame.seqNo) in seqMgr.pending
               then {seqMgr.pending[SeqOf(frame.seqNo)]} else {}
      ensures Valid()
      ensures seqMgr.pending == old(seqMgr.pending) - (if IsResponse(frame.flags) then {SeqOf(frame.seqNo)} else {})
      ensures IsResponse(frame.flags) && SeqOf(frame.seqNo) in old(seqMgr.pending) ==>
                old(seqMgr.pending)[SeqOf(frame.seqNo)].View() ==
                  Resolved(old(seqMgr.pending[SeqOf(frame.seqNo)].View()), frame)
    {
      hide SeqOf, IsResponse;
      if IsResponse(frame.flags) {
        var found := seqMgr.Resolve(SeqOf(frame.seqNo), frame);
      }
    }

    /** Closing fails every pending request. */
    method Close()
      requires Valid()
      modifies this`closed, seqMgr, seqMgr.pending.Values
      ensures Valid() && closed
      ensures old(closed) ==> seqMgr.pending == old(seqMgr.pending) && seqMgr.closed == old(seqMgr.closed)
      ensures old(closed) ==> forall s | s in seqMgr.pending ::
                seqMgr.pending[s].View() == old(seqMgr.pending[s].View())
      ensures !old(closed) ==> seqMgr.closed && seqMgr.pending == map[]
      ensures !old(closed) ==> forall s | s in old(seqMgr.pending) ::
                old(seqMgr.pending)[s].View() == FailedWith(old(seqMgr.pending[s].View()), ConnClosed)
    {
      if closed {
        return;
      }
      seqMgr.Close();
      closed := true;
    }

    /** The timer arm of the retry loop: up to three times the frame is written once more. */
    method OnTimer(number: nat, pr: PendingRequest, transportOk: bool)
      requires Valid() && !closed && number in seqMgr.pending && seqMgr.pending[number] == pr
      modifies this`written, seqMgr`pending, pr
      ensures Valid()
      ensures pr.View() == Expired(old(pr.View()), transportOk)
      ensures seqMgr.pending == if pr.done then old(seqMgr.pending) - {number} else old(seqMgr.pending)
      ensures written == old(written) +
                if transportOk && pr.retries <= MAX_RETRIES then EncodeFrame(pr.packet) else []
    {
      hide EncodeFrame;
      var ok := transportOk;
      if pr.retries + 1 <= MAX_RETRIES {
        ok := WritePacket(pr.packet, transportOk);
      }
      var stop, panics := seqMgr.Expire(number, pr, ok);
    }

    /** One happening while `pr` is open. */
    method Meet(number: nat, pr: PendingRequest, h: Happening)
      requires Valid() && !closed && number in seqMgr.pending && seqMgr.pending[number] == pr
      modifies this`closed, this`written, seqMgr, seqMgr.pending.Values
      ensures Valid() && (closed ==> pr.done)
      ensures pr.done ==> number !in seqMgr.pending
      ensures !pr.done ==> number in seqMgr.pending && seqMgr.pending[number] == pr
      ensures pr.retries == old(pr.retries) + if h.Expiry? then 1 else 0
      ensures pr.View() == Happened(old(pr.View()), number, h)
      ensures TableMoved(h, number, old(seqMgr.pending), seqMgr.pending)
      ensures seqMgr.pending.Values <= old(seqMgr.pending.Values)
      ensures written == old(written) + Resent(h, pr.retries, pr.packet)
    {
      hide SeqOf, EncodeFrame;
      match h
      case Arrived(frame) => OnFrame(frame);
      case Expiry(transportOk) => OnTimer(number, pr, transportOk);
      case Closing => Close();
    }

    /** Waits for `pr`'s mailboxes while things happen. */
    method Wait(number: nat, pr: PendingRequest, hs: seq<Happening>) returns (used: nat)
      requires Valid() && !closed && number in seqMgr.pending && seqMgr.pending[number] == pr && pr.retries == 0
      modifies this`closed, this`written, seqMgr, seqMgr.pending.Values
      ensures Valid() && used <= |hs|
      ensures WaitedFor(Outcome(pr.View()), hs, used, number)
      ensures pr.response.Holding? ==> number !in seqMgr.pending
      ensures seqMgr.pending.Values <= old(seqMgr.pending.Values)
      ensures seqMgr.pending - {number} == Left(old(seqMgr.pending), hs[..used]) - {number}
      ensures written == old(written) + Copies(EncodeFrame(pr.packet), Rewritten(hs[..used]))
    {
      hide Standing, WaitedFor, Happened, TableMoved, Resent, Left, EncodeFrame, Rewritten, Copies;
      used := 0;
      BeforeAny(hs, number, pr.View(), seqMgr.pending, written);
      while used < |hs| && !pr.done
        invariant Valid() && used <= |hs| && (!pr.done ==> !closed)
        invariant Standing(hs[..used], number, pr.View(), old(seqMgr.pending), seqMgr.pending, old(written), written)
        invariant pr.done ==> number !in seqMgr.pending
        invariant !pr.done ==> number in seqMgr.pending && seqMgr.pending[number] == pr
        invariant seqMgr.pending.Values <= old(seqMgr.pending.Values)
        decreases |hs| - used
      {
        ghost var now, was, sofar := seqMgr.pending, pr.View(), written;
        Meet(number, pr, hs[used]);
        StandingStep(hs, used, number, was, pr.View(), old(seqMgr.pending), now, seqMgr.pending,
                     old(written), sofar, written);
        used := used + 1;
      }
      StandingEnds(hs, used, number, pr.View(), old(seqMgr.pending), seqMgr.pending, old(written), written);
    }

    /** Allocates a number, builds the request and files it; nothing if the manager is closed. */
    method Register(opcode: bv32, body: seq<Byte>) returns (number: nat, pr: PendingRequest?)
      requires Valid()
      modifies seqMgr`next, seqMgr`pending
      ensures Valid()
      ensures seqMgr.closed ==> pr == null && seqMgr.pending == old(seqMgr.pending)
      ensures !seqMgr.closed ==>
                && pr != null && fresh(pr)
                && number == AllocateFrom(old(seqMgr.next), old(seqMgr.pending.Keys), config.seqLen).seqNo
                && seqMgr.pending == old(seqMgr.pending)[number := pr]
                && pr.View() == NewRequest(number, RequestPacket(config, opcode, number, body))
    {
      hide RequestPacket, AllocateFrom, Advance;
      number := seqMgr.Allocate();
      if number == 0 {
        return 0, null;
      }
      var frame := BuildRequest(config, opcode, number, body);
      pr := seqMgr.Enqueue(number, frame);
    }

    /** Writes a registered request, waits for its answer and takes it out of the table. */
    method Exchange(number: nat, pr: PendingRequest, transportOk: bool, hs: seq<Happening>)
      returns (r: Answer, used: nat)
      requires Valid() && !closed && number in seqMgr.pending && seqMgr.pending[number] == pr && pr.retries == 0
      modifies this, seqMgr, seqMgr.pending.Values
      ensures Valid() && used <= |hs|
      ensures !transportOk ==> r == Failure(NotWritten) && used == 0 && written == old(written)
      ensures transportOk ==> WaitedFor(r, hs, used, number)
      ensures transportOk ==>
                written == old(written) + EncodeFrame(pr.packet) + Copies(EncodeFrame(pr.packet), Rewritten(hs[..used]))
      ensures seqMgr.pending == Left(old(seqMgr.pending), hs[..used]) - {number}
      ensures requestsSent == old(requestsSent) + if transportOk then 1 else 0
      ensures responsesReceived == old(responsesReceived) + if r.Response? then 1 else 0
    {
      hide SeqOf, EncodeFrame, Matches, AnsweredBy, Open, Survived, EndsWith, Ending, Left;
      NothingYet(seqMgr.pending, hs, number);
      var ok := WritePacket(pr.packet, transportOk);
      if !ok {
        seqMgr.Remove(number);
        return Failure(NotWritten), 0;
      }
      requestsSent := requestsSent + 1;
      used := Wait(number, pr, hs);
      r := Outcome(pr.View());
      if r.Response? {
        responsesReceived := responsesReceived + 1;
        assert seqMgr.pending - {number} == seqMgr.pending;
      } else {
        seqMgr.Remove(number);
      }
    }

    /** Sends a request and waits while `hs` happens, until the context ends at the latest. It
        answers with what ended the wait and leaves nothing of its own in the table. */
    method SendRequest(opcode: bv32, body: seq<Byte>, transportOk: bool, hs: seq<Happening>)
      returns (r: Answer, ghost seqNo: nat, used: nat)
      requires Valid()
      modifies this, seqMgr, seqMgr.pending.Values
      ensures Valid() && used <= |hs|
      ensures old(closed) || old(seqMgr.closed) ==>
                r == Failure(ConnectionClosed) && written == old(written) && seqMgr.pending == old(seqMgr.pending)
      ensures !old(closed) && !old(seqMgr.closed) ==>
                && seqNo == AllocateFrom(old(seqMgr.next), old(seqMgr.pending.Keys), config.seqLen).seqNo
                && seqMgr.pending == Left(old(seqMgr.pending), hs[..used]) - {seqNo}
                && (if transportOk then WaitedFor(r, hs, used, seqNo) else r == Failure(NotWritten) && used == 0)
                && written == old(written) + Copies(EncodeFrame(RequestPacket(config, opcode, seqNo, body)),
                                                    if transportOk then 1 + Rewritten(hs[..used]) else 0)
                && requestsSent == old(requestsSent) + (if transportOk then 1 else 0)
      ensures responsesReceived == old(responsesReceived) + if r.Response? then 1 else 0
    {
      hide SeqOf, EncodeFrame, RequestPacket, AllocateFrom, Matches, AnsweredBy, Open, Left, WaitedFor, Rewritten;
      seqNo, used := 0, 0;
      if closed {
        return Failure(ConnectionClosed), 0, 0;
      }
      ghost var table, before := seqMgr.pending, written;
      var number, pr := Register(opcode, body);
      seqNo := number;
      if pr == null {
        return Failure(ConnectionClosed), number, 0;
      }
      r, used := Exchange(number, pr, transportOk, hs);
      Restored<PendingRequest>(table, number, pr, hs[..used]);
      FirstCopy(before, EncodeFrame(pr.packet), Rewritten(hs[..used]));
    }
  }

  /** Filing an entry and taking it and others out leaves the table without all of them. */
  lemma Restored<T>(table: map<nat, T>, number: nat, entry: T, hs: seq<Happening>)
    ensures Left(table[number := entry], hs) - {number} == Left(table, hs) - {number}
  {
    hide AnsweredBy;
  }

  lemma {:induction false} FirstCopy(a: seq<Byte>, s: seq<Byte>, n: nat)
    ensures a + s + Copies(s, n) == a + Copies(s, 1 + n)
    ensures a + Copies(s, 0) == a
  {
    assert Copies(s, 1 + n) == Copies(s, n) + s;
    if n == 0 {
      assert Copies(s, 0) == [] && Copies(s, 1) == [] + s;
    } else {
      FirstCopy(a, s, n - 1);
      assert a + s + (Copies(s, n - 1) + s) == a + s + Copies(s, n - 1) + s;
      assert a + Copies(s, n) + s == a + (Copies(s, n) + s);
    }
  }
}
