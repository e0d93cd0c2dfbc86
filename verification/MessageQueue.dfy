/** The queue of requests waiting for their acknowledgement (message_queue.go). */
module MessageQueue {
  import opened Packet

  /** What the queue holds, for any kind of channel, and the count it keeps beside it. */
  datatype Queue<C> = Queue(pending: map<nat, C>, count: int)

  predicate Full<C>(q: Queue<C>, capacity: int) {
    capacity > 0 && q.count >= capacity
  }

  /** Registering overwrites what the number had and counts one more. */
  function Registered<C>(q: Queue<C>, seqNo: nat, ch: C): Queue<C> {
    Queue(q.pending[seqNo := ch], q.count + 1)
  }

  function Without<C>(q: Queue<C>, seqNo: nat): Queue<C> {
    if seqNo in q.pending then Queue(q.pending - {seqNo}, q.count - 1) else q
  }

  predicate CountOk<C>(q: Queue<C>) {
    q.count == |q.pending|
  }

  /** The count stays right exactly when the number was free: the code does not look. */
  lemma RegisteredCountsExactly<C>(q: Queue<C>, seqNo: nat, ch: C)
    requires CountOk(q)
    ensures CountOk(Registered(q, seqNo, ch)) <==> seqNo !in q.pending
  {
    var keys := q.pending.Keys;
    assert q.pending[seqNo := ch].Keys == keys + {seqNo};
    if seqNo in keys {
      assert keys + {seqNo} == keys;
    }
  }

  lemma WithoutCounts<C>(q: Queue<C>, seqNo: nat)
    requires CountOk(q)
    ensures CountOk(Without(q, seqNo)) && seqNo !in Without(q, seqNo).pending
  {
    if seqNo in q.pending {
      assert (q.pending - {seqNo}).Keys == q.pending.Keys - {seqNo};
    }
  }

  /** Registering under a free number and completing it leaves the queue as it was. */
  lemma CompleteUndoesPut<C>(q: Queue<C>, seqNo: nat, ch: C)
    requires seqNo !in q.pending
    ensures Without(Registered(q, seqNo, ch), seqNo) == q
  {
    assert q.pending[seqNo := ch] - {seqNo} == q.pending;
  }

  /** A channel with room for one frame. */
  datatype Slot = Vacant | Value(frame: PacketData) | Shut

  class Channel {
    var slot: Slot

    constructor ()
      ensures slot == Vacant
    {
      slot := Vacant;
    }

    /** A send blocks on a full channel and panics on a closed one. */
    method Send(frame: PacketData)
      requires slot.Vacant?
      modifies this
      ensures slot == Value(frame)
    {
      slot := Value(frame);
    }

    method Close()
      requires !slot.Shut?
      modifies this
      ensures slot == Shut
    {
      slot := Shut;
    }
  }

  class MessageQueue {
    var pending: map<nat, Channel>
    var count: int

    function View(): Queue<Channel>
      reads this
    {
      Queue(pending, count)
    }

    /** No channel is filed twice, and nothing has happened on any of them. */
    ghost predicate Valid()
      reads this, pending.Values
    {
      && (forall a, b | a in pending && b in pending && pending[a] == pending[b] :: a == b)
      && (forall a | a in pending :: pending[a].slot.Vacant?)
    }

    constructor ()
      ensures Valid() && View() == Queue(map[], 0)
    {
      pending, count := map[], 0;
    }

    /** A vacant channel that is not filed yet keeps the queue valid; anything is accepted. */
    method Put(seqNo: nat, ch: Channel, capacity: int) returns (ok: bool)
      modifies this
      ensures ok == !Full(old(View()), capacity)
      ensures View() == if ok then Registered(old(View()), seqNo, ch) else old(View())
      ensures ok == (capacity <= 0 || old(count) < capacity)
      ensures pending == (if ok then old(pending)[seqNo := ch] else old(pending))
      ensures count == old(count) + if ok then 1 else 0
      ensures old(Valid()) && ch.slot.Vacant? && ch !in old(pending.Values) ==> Valid()
    {
      if capacity > 0 && count >= capacity {
        return false;
      }
      assert ch !in pending.Values ==> forall a | a in pending :: pending[a] != ch;
      pending := pending[seqNo := ch];
      count := count + 1;
      return true;
    }

    method Complete(seqNo: nat, frame: PacketData)
      requires Valid()
      modifies this, if seqNo in pending then {pending[seqNo]} else {}
      ensures Valid() && View() == Without(old(View()), seqNo)
      ensures pending == old(pending) - {seqNo} && count == old(count) - if seqNo in old(pending) then 1 else 0
      ensures seqNo in old(pending) ==> old(pending)[seqNo].slot == Value(frame)
    {
      if seqNo in pending {
        var ch := pending[seqNo];
        pending := pending - {seqNo};
        count := count - 1;
        ch.Send(frame);
      }
    }

    method CompleteError(seqNo: nat)
      requires Valid()
      modifies this, if seqNo in pending then {pending[seqNo]} else {}
      ensures Valid() && View() == Without(old(View()), seqNo)
      ensures pending == old(pending) - {seqNo} && count == old(count) - if seqNo in old(pending) then 1 else 0
      ensures seqNo in old(pending) ==> old(pending)[seqNo].slot == Shut
    {
      if seqNo in pending {
        var ch := pending[seqNo];
        pending := pending - {seqNo};
        count := count - 1;
        ch.Close();
      }
    }

    /** Every waiting channel is closed, once, whatever the count said. */
    method Clear()
      requires Valid()
      modifies this, pending.Values
      ensures Valid() && View() == Queue(map[], 0)
      ensures forall a | a in old(pending) :: old(pending)[a].slot == Shut
    {
      ghost var all := pending;
      while pending != map[]
        invariant pending.Keys <= all.Keys
        invariant forall a | a in pending :: pending[a] == all[a]
        invariant forall a | a in pending :: all[a].slot.Vacant?
        invariant forall a | a in all && a !in pending :: all[a].slot == Shut
        decreases pending.Keys
      {
        var a :| a in pending;
        CloseOne(a);
      }
      count := 0;
    }

    method CloseOne(seqNo: nat)
      requires seqNo in pending && pending[seqNo].slot.Vacant?
      modifies this`pending, pending[seqNo]
      ensures pending == old(pending) - {seqNo} && old(pending)[seqNo].slot == Shut
    {
      var ch := pending[seqNo];
      ch.Close();
      pending := pending - {seqNo};
    }
  }
}
