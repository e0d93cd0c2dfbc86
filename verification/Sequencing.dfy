/** Sequence numbers, pending requests and retransmission (conn/seq.go).

    A channel of capacity one is a mailbox; a channel that is only ever closed is a flag.
    Each method is one critical section of the source together with the channel operations
    that belong to it. */
module Sequencing {
  import opened Bytes
  import opened Packet

  const MAX_RETRIES: nat := 3
  const MAX_SEQ_16: nat := 65535
  const MAX_SEQ_32: nat := 4294967295

  datatype Mailbox<T> = Empty | Holding(value: T)

  /** A send that gives up when the mailbox is full. */
  function Offer<T>(box: Mailbox<T>, value: T): Mailbox<T> {
    if box.Empty? then Holding(value) else box
  }

  datatype RequestError = MaxRetriesExceeded | RetransmitFailed | ConnClosed

  /** A pending request's state; `done` is the closed `done` channel. */
  datatype Request = Request(seqNo: nat, packet: PacketData, response: Mailbox<PacketData>,
                             error: Mailbox<RequestError>, retries: nat, done: bool)

  /** Nothing has happened to the request except retransmission. */
  predicate Open(r: Request) {
    !r.done && r.response.Empty? && r.error.Empty?
  }

  function NewRequest(seqNo: nat, packet: PacketData): Request {
    Request(seqNo, packet, Empty, Empty, 0, false)
  }

  function Resolved(r: Request, response: PacketData): Request {
    r.(done := true, response := Offer(r.response, response))
  }

  function FailedWith(r: Request, e: RequestError): Request {
    r.(done := true, error := Offer(r.error, e))
  }

  function Removed(r: Request): Request {
    r.(done := true)
  }

  /** The expiry ends the request. */
  predicate GivesUp(r: Request, writeOk: bool) {
    r.retries + 1 > MAX_RETRIES || !writeOk
  }

  /** A timer expiry: another retransmission, or the end of the request. */
  function Expired(r: Request, writeOk: bool): Request {
    var again := r.(retries := r.retries + 1);
    if again.retries > MAX_RETRIES then FailedWith(again, MaxRetriesExceeded)
    else if !writeOk then FailedWith(again, RetransmitFailed)
    else again
  }

  // ---------------------------------------------------------------------------
  // Allocation
  // ---------------------------------------------------------------------------

  function MaxSeq(seqLen: nat): nat {
    if seqLen == 2 then MAX_SEQ_16 else MAX_SEQ_32
  }

  /** The counter after one step: a 32-bit increment, the wrap-around and the skipped zero. */
  function Advance(next: nat, seqLen: nat): nat {
    var n := (next + 1) % UINT32 % MaxSeq(seqLen);
    if n == 0 then 1 else n
  }

  datatype Allocation = Allocation(seqNo: nat, next: nat)

  /** What `Allocate` returns and leaves behind: one collision is skipped, a second is not. */
  function AllocateFrom(next: nat, busy: set<nat>, seqLen: nat): Allocation {
    var after := Advance(next, seqLen);
    if next in busy then Allocation(after, (after + 1) % UINT32) else Allocation(next, after)
  }

  predicate CounterOk(next: nat, seqLen: nat) {
    (seqLen == 2 || seqLen == 4) && 1 <= next <= MaxSeq(seqLen)
  }

  /** The counter in plain terms: it wraps to 1 one step before the maximum. */
  lemma AdvanceIs(next: nat, seqLen: nat)
    requires CounterOk(next, seqLen)
    ensures Advance(next, seqLen) == if next + 1 >= MaxSeq(seqLen) then 1 else next + 1
    ensures MaxSeq(seqLen) == if seqLen == 2 then 65535 else 4294967295
  {
    if seqLen == 2 {
      assert (next + 1) % UINT32 == next + 1;
    }
  }

  /** A sequence number is never zero and always fits its field. */
  lemma AllocateInRange(next: nat, busy: set<nat>, seqLen: nat)
    requires CounterOk(next, seqLen)
    ensures 1 <= AllocateFrom(next, busy, seqLen).seqNo <= MaxSeq(seqLen)
    ensures CounterOk(AllocateFrom(next, busy, seqLen).next, seqLen)
  {}

  /** The allocated number is already pending exactly when the counter and its successor both
      are: a single collision is always avoided, two adjacent ones never. */
  lemma AllocateCollidesExactly(next: nat, busy: set<nat>, seqLen: nat)
    ensures AllocateFrom(next, busy, seqLen).seqNo in busy <==> next in busy && Advance(next, seqLen) in busy
  {}

  /** The numbers handed out by consecutive allocations, given what is pending at each. */
  function Allocations(next: nat, busy: seq<set<nat>>, seqLen: nat): (seqNos: seq<nat>)
    ensures |seqNos| == |busy|
    decreases |busy|
  {
    if busy == [] then []
    else
      var a := AllocateFrom(next, busy[0], seqLen);
      [a.seqNo] + Allocations(a.next, busy[1..], seqLen)
  }

  /** Half the sequence space: the window in which numbers never repeat. */
  function HalfSpace(seqLen: nat): nat {
    if seqLen == 2 then 32767 else 2147483647
  }

  /** The counter stands at most `2 * k + 2` steps after `v`, going round at most once. */
  ghost predicate Ahead(v: nat, next: nat, k: nat, seqLen: nat) {
    (v < next <= v + 2 * k + 1) || (next <= v && next + MaxSeq(seqLen) <= v + 2 * k + 2)
  }

  lemma AheadAfter(next: nat, busy: set<nat>, seqLen: nat)
    requires CounterOk(next, seqLen)
    ensures var a := AllocateFrom(next, busy, seqLen); Ahead(a.seqNo, a.next, 0, seqLen)
  {
    AdvanceIs(next, seqLen);
    AllocateIs(next, busy, seqLen);
    hide Advance, AllocateFrom;
  }

  lemma AheadStep(v: nat, next: nat, k: nat, busy: set<nat>, seqLen: nat)
    requires CounterOk(next, seqLen) && CounterOk(v, seqLen) && Ahead(v, next, k, seqLen)
    requires k + 2 <= HalfSpace(seqLen)
    ensures var a := AllocateFrom(next, busy, seqLen);
            a.seqNo != v && CounterOk(a.next, seqLen) && Ahead(v, a.next, k + 1, seqLen)
  {
    AdvanceIs(next, seqLen);
    AllocateIs(next, busy, seqLen);
    hide Advance, AllocateFrom;
  }

  lemma AllocateIs(next: nat, busy: set<nat>, seqLen: nat)
    requires CounterOk(next, seqLen)
    ensures var a, after := AllocateFrom(next, busy, seqLen), Advance(next, seqLen);
            a == if next in busy then Allocation(after, after + 1) else Allocation(next, after)
  {
    AdvanceIs(next, seqLen);
  }

  lemma {:induction false} NotRepeated(v: nat, next: nat, k: nat, busy: seq<set<nat>>, seqLen: nat)
    requires CounterOk(next, seqLen) && CounterOk(v, seqLen) && Ahead(v, next, k, seqLen)
    requires k + |busy| + 1 <= HalfSpace(seqLen)
    ensures v !in Allocations(next, busy, seqLen)
    decreases |busy|
  {
    hide AllocateFrom, Ahead;
    if busy != [] {
      var a := AllocateFrom(next, busy[0], seqLen);
      AheadStep(v, next, k, busy[0], seqLen);
      NotRepeated(v, a.next, k + 1, busy[1..], seqLen);
    }
  }

  /** Any half sequence space of consecutive allocations is pairwise distinct, whatever
      collisions are skipped on the way. */
  lemma {:induction false} AllocationsDistinct(next: nat, busy: seq<set<nat>>, seqLen: nat)
    requires CounterOk(next, seqLen) && |busy| <= HalfSpace(seqLen)
    ensures var s := Allocations(next, busy, seqLen); forall i, j | 0 <= i < j < |s| :: s[i] != s[j]
    decreases |busy|
  {
    hide AllocateFrom, Ahead;
    if busy != [] {
      var a := AllocateFrom(next, busy[0], seqLen);
      AllocateInRange(next, busy[0], seqLen);
      AheadAfter(next, busy[0], seqLen);
      AllocationsDistinct(a.next, busy[1..], seqLen);
      NotRepeated(a.seqNo, a.next, 0, busy[1..], seqLen);
    }
  }

  /** The number of the `k`-th allocation when no collision occurs. */
  function NthSeq(k: nat, seqLen: nat): nat {
    k % (MaxSeq(seqLen) - 1) + 1
  }

  lemma Multiples(m: nat, d: int)
    ensures d >= 1 ==> m * d >= m
    ensures d <= -1 ==> m * d + m <= 0
  {}

  lemma ModIs(a: nat, m: nat, q: int, r: nat)
    requires r < m && a == m * q + r
    ensures a % m == r
  {
    var d := q - a / m;
    assert a == m * (a / m) + a % m;
    assert m * d == a % m - r;
    Multiples(m, d);
  }

  lemma ModStep(k: nat, m: nat)
    requires 0 < m
    ensures (k + 1) % m == if k % m == m - 1 then 0 else k % m + 1
  {
    var q, r := k / m, k % m;
    assert k == m * q + r;
    if r == m - 1 {
      assert k + 1 == m * (q + 1) + 0;
      ModIs(k + 1, m, q + 1, 0);
    } else {
      ModIs(k + 1, m, q, r + 1);
    }
  }

  /** The cycle comes back to a number after exactly `MaxSeq - 1` allocations. */
  lemma NthRepeats(k: nat, seqLen: nat)
    ensures NthSeq(k + (MaxSeq(seqLen) - 1), seqLen) == NthSeq(k, seqLen)
  {
    var m := MaxSeq(seqLen) - 1;
    assert k == m * (k / m) + k % m;
    assert k + m == m * (k / m + 1) + k % m;
    ModIs(k + m, m, k / m + 1, k % m);
  }

  lemma NthAdvances(k: nat, seqLen: nat)
    requires seqLen == 2 || seqLen == 4
    ensures CounterOk(NthSeq(k, seqLen), seqLen)
    ensures Advance(NthSeq(k, seqLen), seqLen) == NthSeq(k + 1, seqLen)
  {
    ModStep(k, MaxSeq(seqLen) - 1);
    AdvanceIs(NthSeq(k, seqLen), seqLen);
    hide Advance;
  }

  lemma NthDistinct(j: nat, k: nat, seqLen: nat)
    requires (seqLen == 2 || seqLen == 4) && j < k < j + MaxSeq(seqLen) - 1
    ensures NthSeq(j, seqLen) != NthSeq(k, seqLen)
  {
    var m := MaxSeq(seqLen) - 1;
    if j % m == k % m {
      SameResidue(j, k, m);
    }
  }

  lemma SameResidue(j: nat, k: nat, m: nat)
    requires 0 < m && j % m == k % m && j < k
    ensures k >= j + m
  {
    var q := k / m - j / m;
    assert k == m * (k / m) + k % m && j == m * (j / m) + j % m;
    assert k - j == m * q;
    assert q >= 1;
  }

  /** Only numbers handed out at most `MaxSeq - 2` allocations ago are pending. */
  ghost predicate Recent(busy: set<nat>, k: nat, seqLen: nat) {
    forall s | s in busy :: exists j: nat :: j < k < j + MaxSeq(seqLen) - 1 && s == NthSeq(j, seqLen)
  }

  /** Pending numbers never older than 65533 allocations (for two bytes): every allocation is
      fresh, no skip is ever taken, and the numbers follow the plain cycle. */
  lemma {:induction false} RecentAllocationsFresh(k: nat, busy: seq<set<nat>>, seqLen: nat)
    requires seqLen == 2 || seqLen == 4
    requires forall i | 0 <= i < |busy| :: Recent(busy[i], k + i, seqLen)
    ensures var s := Allocations(NthSeq(k, seqLen), busy, seqLen);
            forall i | 0 <= i < |s| :: s[i] == NthSeq(k + i, seqLen) && s[i] !in busy[i]
    decreases |busy|
  {
    hide Advance, NthSeq;
    if busy != [] {
      assert Recent(busy[0], k + 0, seqLen);
      RecentIsFresh(k, busy[0], seqLen);
      NthAdvances(k, seqLen);
      forall i | 0 <= i < |busy[1..]| ensures Recent(busy[1..][i], k + 1 + i, seqLen) {
        assert Recent(busy[i + 1], k + (i + 1), seqLen);
      }
      hide Recent;
      RecentAllocationsFresh(k + 1, busy[1..], seqLen);
      var s, t := Allocations(NthSeq(k, seqLen), busy, seqLen), Allocations(NthSeq(k + 1, seqLen), busy[1..], seqLen);
      assert s == [NthSeq(k, seqLen)] + t;
      forall i | 0 <= i < |s| ensures s[i] == NthSeq(k + i, seqLen) && s[i] !in busy[i] {
        if i > 0 {
          assert t[i - 1] == NthSeq(k + 1 + (i - 1), seqLen) && t[i - 1] !in busy[1..][i - 1];
        }
      }
    }
  }

  lemma RecentIsFresh(k: nat, busy: set<nat>, seqLen: nat)
    requires (seqLen == 2 || seqLen == 4) && Recent(busy, k, seqLen)
    ensures NthSeq(k, seqLen) !in busy
  {
    hide NthSeq;
    if NthSeq(k, seqLen) in busy {
      var j: nat :| j < k < j + MaxSeq(seqLen) - 1 && NthSeq(k, seqLen) == NthSeq(j, seqLen);
      NthDistinct(j, k, seqLen);
    }
  }

  lemma {:induction false} AllocationsPrefix(next: nat, busy: seq<set<nat>>, n: nat, seqLen: nat)
    requires n <= |busy|
    ensures Allocations(next, busy, seqLen)[..n] == Allocations(next, busy[..n], seqLen)
    decreases n
  {
    hide AllocateFrom;
    if n > 0 {
      assert busy[..n][1..] == busy[1..][..n - 1];
      AllocationsPrefix(AllocateFrom(next, busy[0], seqLen).next, busy[1..], n - 1, seqLen);
    }
  }

  /** Every number in `busy[i]` was handed out in this run, at most `MaxSeq - 2` allocations
      before the `i`-th. */
  ghost predicate LiveWindow(busy: seq<set<nat>>, i: nat, seqLen: nat)
    requires i < |busy|
  {
    forall s | s in busy[i] ::
      exists j: nat :: j < i < j + MaxSeq(seqLen) - 1 && s == Allocations(1, busy, seqLen)[j]
  }

  /** A run from the start in which nothing stays pending across 65534 later allocations (for
      two bytes) hands out the plain cycle and never a pending number. */
  lemma {:induction false} LiveWindowFresh(busy: seq<set<nat>>, n: nat, seqLen: nat)
    requires (seqLen == 2 || seqLen == 4) && n <= |busy|
    requires forall i | 0 <= i < |busy| :: LiveWindow(busy, i, seqLen)
    ensures var s := Allocations(1, busy, seqLen);
            forall i | 0 <= i < n :: s[i] == NthSeq(i, seqLen) && s[i] !in busy[i] && Recent(busy[i], i, seqLen)
    decreases n
  {
    hide AllocateFrom, NthSeq;
    if n > 0 {
      var m := n - 1;
      LiveWindowFresh(busy, m, seqLen);
      WindowIsRecent(busy, m, seqLen);
      forall i | 0 <= i < |busy[..n]| ensures Recent(busy[..n][i], 0 + i, seqLen) {
        assert i < m || i == m;
      }
      AllocationsPrefix(1, busy, n, seqLen);
      FirstSeq(seqLen);
      hide Recent;
      RecentAllocationsFresh(0, busy[..n], seqLen);
      var s, t := Allocations(1, busy, seqLen), Allocations(1, busy[..n], seqLen);
      forall i | 0 <= i < n ensures s[i] == NthSeq(i, seqLen) && s[i] !in busy[i] {
        assert s[..n][i] == t[i] && t[i] == NthSeq(0 + i, seqLen);
      }
    }
  }

  lemma FirstSeq(seqLen: nat)
    ensures NthSeq(0, seqLen) == 1
  {}

  lemma WindowIsRecent(busy: seq<set<nat>>, m: nat, seqLen: nat)
    requires m < |busy| && LiveWindow(busy, m, seqLen)
    requires forall j | 0 <= j < m :: Allocations(1, busy, seqLen)[j] == NthSeq(j, seqLen)
    ensures Recent(busy[m], m, seqLen)
  {
    hide NthSeq, Allocations;
  }

  // ---------------------------------------------------------------------------
  // The retry schedule
  // ---------------------------------------------------------------------------

  function Pow2(k: nat): nat {
    if k == 0 then 1 else 2 * Pow2(k - 1)
  }

  /** The wait before expiry `retry + 1`: exponential backoff from the initial timeout. */
  function ComputeTimeout(initial: nat, retry: nat): nat {
    initial * Pow2(retry)
  }

  /** When the `k`-th expiry is due, counted from the first transmission. */
  function DueAt(initial: nat, k: nat): nat {
    if k == 0 then 0 else DueAt(initial, k - 1) + ComputeTimeout(initial, k - 1)
  }

  lemma {:induction false} DueAtIs(initial: nat, k: nat)
    ensures DueAt(initial, k) + initial == Pow2(k) * initial
  {
    if k > 0 {
      DueAtIs(initial, k - 1);
    }
  }

  lemma {:induction false} DueAtGrows(initial: nat, j: nat, k: nat)
    requires j <= k
    ensures DueAt(initial, j) <= DueAt(initial, k)
    decreases k
  {
    if j < k {
      DueAtGrows(initial, j, k - 1);
    }
  }

  datatype RetryEnd = Answered | GaveUp(error: RequestError)

  /** The request is settled by someone else no later than `at`. */
  predicate SettledBy(settledAt: Mailbox<nat>, at: nat) {
    settledAt.Holding? && settledAt.value <= at
  }

  /** One request's retry loop: wait for the timer or for `done`, retransmit, double the wait.

      `settledAt` is when another party closes `done`, if ever; `writes[k]` says whether the
      `k`-th retransmission can be written. Retransmission `k` leaves at `(2^k - 1)` initial
      timeouts; a request nobody settles is given up at fifteen. */
  method RetryLoop(initial: nat, settledAt: Mailbox<nat>, writes: nat -> bool)
    returns (sentAt: seq<nat>, end: RetryEnd, endedAt: nat)
    ensures |sentAt| <= MAX_RETRIES
    ensures forall k | 0 <= k < |sentAt| :: sentAt[k] + initial == Pow2(k + 1) * initial
    ensures forall k | 0 <= k < |sentAt| :: !SettledBy(settledAt, sentAt[k])
    ensures end == GaveUp(MaxRetriesExceeded) <==>
              !SettledBy(settledAt, 15 * initial) && forall k: nat | 1 <= k <= MAX_RETRIES :: writes(k)
    ensures end == GaveUp(MaxRetriesExceeded) ==> |sentAt| == MAX_RETRIES && endedAt == 15 * initial
    ensures end == GaveUp(RetransmitFailed) <==>
              exists k: nat | 1 <= k <= MAX_RETRIES ::
                !writes(k) && !SettledBy(settledAt, DueAt(initial, k)) && forall j: nat | 1 <= j < k :: writes(j)
    ensures end != GaveUp(ConnClosed)
    ensures end == Answered ==> settledAt == Holding(endedAt)
  {
    var retries := 0;
    var now := 0;
    sentAt := [];
    while true
      invariant 0 <= retries <= MAX_RETRIES
      invariant now == DueAt(initial, retries)
      invariant retries > 0 ==> !SettledBy(settledAt, now)
      invariant |sentAt| == retries
      invariant forall k | 0 <= k < retries :: sentAt[k] == DueAt(initial, k + 1) && !SettledBy(settledAt, sentAt[k])
      invariant forall k: nat | 1 <= k <= retries :: writes(k)
      decreases MAX_RETRIES - retries
    {
      forall k | 0 <= k < retries ensures sentAt[k] + initial == Pow2(k + 1) * initial {
        DueAtIs(initial, k + 1);
      }
      var timeout := ComputeTimeout(initial, retries);
      DueAtIs(initial, MAX_RETRIES + 1);
      FifteenTimeouts(initial);
      DueAtGrows(initial, retries + 1, MAX_RETRIES + 1);
      if SettledBy(settledAt, now + timeout) {
        forall k: nat | retries + 1 <= k ensures SettledBy(settledAt, DueAt(initial, k)) {
          DueAtGrows(initial, retries + 1, k);
        }
        return sentAt, Answered, settledAt.value;
      }
      now := now + timeout;
      retries := retries + 1;
      if retries > MAX_RETRIES {
        return sentAt, GaveUp(MaxRetriesExceeded), now;
      }
      if !writes(retries) {
        return sentAt, GaveUp(RetransmitFailed), now;
      }
      sentAt := sentAt + [now];
    }
  }

  lemma FifteenTimeouts(initial: nat)
    ensures DueAt(initial, MAX_RETRIES + 1) == 15 * initial
  {
    DueAtIs(initial, MAX_RETRIES + 1);
    assert Pow2(1) == 2;
    assert Pow2(2) == 4;
    assert Pow2(3) == 8;
    assert Pow2(4) == 16;
  }

  /** The request after successive timer expiries, each with its write result. */
  function AfterExpiries(r: Request, writes: seq<bool>): Request
    decreases |writes|
  {
    if writes == [] || r.done then r else AfterExpiries(Expired(r, writes[0]), writes[1..])
  }

  /** Whatever happens, a request outlives at most three expiries, and exactly when every
      retransmission was written. */
  lemma {:induction false} SurvivesExactly(r: Request, writes: seq<bool>)
    requires Open(r) && r.retries <= MAX_RETRIES
    ensures Open(AfterExpiries(r, writes)) <==>
              r.retries + |writes| <= MAX_RETRIES && forall i | 0 <= i < |writes| :: writes[i]
    decreases |writes|
  {
    if writes != [] {
      var e := Expired(r, writes[0]);
      if Open(e) {
        SurvivesExactly(e, writes[1..]);
        assert forall i | 0 < i < |writes| :: writes[i] == writes[1..][i - 1];
      } else {
        assert AfterExpiries(e, writes[1..]) == e;
      }
    }
  }

  // ---------------------------------------------------------------------------
  // The pending table
  // ---------------------------------------------------------------------------

  /** A pending request: its two mailboxes and the channel its retry loop watches. */
  class PendingRequest {
    const seqNo: nat
    const packet: PacketData
    var response: Mailbox<PacketData>
    var error: Mailbox<RequestError>
    var retries: nat
    var done: bool

    constructor (seqNo: nat, packet: PacketData)
      ensures View() == NewRequest(seqNo, packet)
    {
      this.seqNo := seqNo;
      this.packet := packet;
      response, error, retries, done := Empty, Empty, 0, false;
    }

    function View(): Request
      reads this
    {
      Request(seqNo, packet, response, error, retries, done)
    }

    /** Closing a closed channel panics, so whoever closes must know it is open. */
    method CloseDone()
      requires !done
      modifies this
      ensures View() == old(View()).(done := true)
    {
      done := true;
    }

    method OfferResponse(packet: PacketData)
      modifies this
      ensures View() == old(View()).(response := Offer(old(response), packet))
    {
      response := Offer(response, packet);
    }

    method OfferError(e: RequestError)
      modifies this
      ensures View() == old(View()).(error := Offer(old(error), e))
    {
      error := Offer(error, e);
    }

    method Fail(e: RequestError)
      requires !done
      modifies this
      ensures View() == FailedWith(old(View()), e)
    {
      CloseDone();
      OfferError(e);
    }
  }

  class SeqManager {
    const seqLen: nat
    var next: nat
    var pending: map<nat, PendingRequest>
    var closed: bool

    /** Every table entry is filed under its own number, still open, with nothing delivered. */
    ghost predicate Valid()
      reads this, pending.Values
    {
      && CounterOk(next, seqLen)
      && forall s | s in pending :: pending[s].seqNo == s && Open(pending[s].View())
    }

    constructor (seqLen: nat)
      ensures Valid() && pending == map[] && !closed && next == 1
      ensures this.seqLen == if seqLen == 4 then 4 else 2
    {
      this.seqLen := if seqLen != 2 && seqLen != 4 then 2 else seqLen;
      next, pending, closed := 1, map[], false;
    }

    method Allocate() returns (seqNo: nat)
      requires Valid()
      modifies this`next
      ensures Valid()
      ensures closed ==> seqNo == 0 && next == old(next)
      ensures !closed ==> Allocation(seqNo, next) == AllocateFrom(old(next), pending.Keys, seqLen)
      ensures !closed ==> 1 <= seqNo <= MaxSeq(seqLen)
    {
      AllocateInRange(next, pending.Keys, seqLen);
      if closed {
        return 0;
      }
      seqNo := next;
      next := (next + 1) % UINT32;
      if seqLen == 2 {
        next := next % MAX_SEQ_16;
      } else {
        next := next % MAX_SEQ_32;
      }
      if next == 0 {
        next := 1;
      }
      if seqNo in pending {
        seqNo := next;
        next := (next + 1) % UINT32;
      }
    }

    /** An entry already filed under the number is dropped from the table, untouched. */
    method Enqueue(seqNo: nat, packet: PacketData) returns (pr: PendingRequest)
      requires Valid()
      modifies this`pending
      ensures Valid() && fresh(pr)
      ensures pr.View() == NewRequest(seqNo, packet)
      ensures pending == old(pending)[seqNo := pr]
    {
      pr := new PendingRequest(seqNo, packet);
      pending := pending[seqNo := pr];
    }

    method Resolve(seqNo: nat, response: PacketData) returns (found: bool)
      requires Valid()
      modifies this`pending, if seqNo in pending then {pending[seqNo]} else {}
      ensures Valid()
      ensures found <==> seqNo in old(pending)
      ensures pending == old(pending) - {seqNo}
      ensures found ==> old(pending)[seqNo].View() == Resolved(old(pending[seqNo].View()), response)
      ensures forall s | s in pending :: pending[s].View() == old(pending[s].View())
    {
      if seqNo !in pending {
        return false;
      }
      var pr := pending[seqNo];
      pending := pending - {seqNo};
      pr.CloseDone();
      pr.OfferResponse(response);
      return true;
    }

    /** The timer arm of `pr`'s retry loop, taken as one step. The table is asked for the number,
        not for the request. If the number has been given to another request meanwhile, giving up
        takes that one out of the table and then panics if `pr` is already done. */
    method Expire(seqNo: nat, pr: PendingRequest, writeOk: bool) returns (stop: bool, panics: bool)
      requires Valid() && pr.seqNo == seqNo
      modifies this`pending, pr
      ensures Valid()
      ensures seqNo !in old(pending) ==> stop && !panics && pending == old(pending) && pr.View() == old(pr.View())
      ensures seqNo in old(pending) ==>
                && stop == GivesUp(old(pr.View()), writeOk)
                && panics == (stop && old(pr.done))
                && pending == (if stop then old(pending) - {seqNo} else old(pending))
                && pr.View() == if panics then old(pr.View()).(retries := old(pr.retries) + 1)
                                else Expired(old(pr.View()), writeOk)
      ensures forall s | s in pending && pending[s] != pr :: pending[s].View() == old(pending[s].View())
      ensures old(seqNo in pending && pending[seqNo] == pr) ==> !panics
    {
      if seqNo !in pending {
        return true, false;
      }
      assert pending[seqNo] == pr ==> !pr.done;
      pr.retries := pr.retries + 1;
      if pr.retries > MAX_RETRIES {
        pending := pending - {seqNo};
        if pr.done {
          return true, true;
        }
        pr.Fail(MaxRetriesExceeded);
        return true, false;
      }
      if !writeOk {
        pending := pending - {seqNo};
        if pr.done {
          return true, true;
        }
        pr.Fail(RetransmitFailed);
        return true, false;
      }
      return false, false;
    }

    method Remove(seqNo: nat)
      requires Valid()
      modifies this`pending, if seqNo in pending then {pending[seqNo]} else {}
      ensures Valid()
      ensures pending == old(pending) - {seqNo}
      ensures seqNo in old(pending) ==> old(pending)[seqNo].View() == Removed(old(pending[seqNo].View()))
      ensures forall s | s in pending :: pending[s].View() == old(pending[s].View())
    {
      if seqNo in pending {
        pending[seqNo].CloseDone();
      }
      pending := pending - {seqNo};
    }

    /** Every pending request fails with the close error, each closed once. */
    method Close()
      requires Valid()
      modifies this`pending, this`closed, pending.Values
      ensures Valid() && closed && pending == map[]
      ensures forall s | s in old(pending) ::
                old(pending)[s].View() == FailedWith(old(pending[s].View()), ConnClosed)
    {
      closed := true;
      ghost var all := pending;
      while pending != map[]
        invariant CounterOk(next, seqLen) && closed
        invariant pending.Keys <= all.Keys
        invariant forall s | s in all :: all[s].seqNo == s
        invariant forall s | s in pending :: pending[s] == all[s]
        invariant forall s | s in pending :: unchanged(all[s]) && !all[s].done
        invariant forall s | s in all && s !in pending :: all[s].View() == FailedWith(old(all[s].View()), ConnClosed)
        decreases pending.Keys
      {
        var s :| s in pending;
        Cancel(s);
      }
    }

    /** One turn of the closing loop: the entry leaves the table and fails. */
    method Cancel(seqNo: nat)
      requires seqNo in pending && !pending[seqNo].done
      modifies this`pending, pending[seqNo]
      ensures pending == old(pending) - {seqNo}
      ensures old(pending)[seqNo].View() == FailedWith(old(pending[seqNo].View()), ConnClosed)
    {
      var pr := pending[seqNo];
      pending := pending - {seqNo};
      pr.Fail(ConnClosed);
    }
  }
}
