/**
 The queue of memory-object operations: requests for a slot that is already
 queued join its entry, and an index from slots to absolute positions finds it.
 */
module ObjectQueue {
  import opened Wrappers

  type SlotId = nat
  type Callback = nat
  type Fabric = nat

  datatype OpType = Init(fabric: Fabric) | Flush

  datatype QueueEntry = QueueEntry(slot: SlotId, callbacks: seq<Callback>, op: OpType)

  /** `Unneeded`: the operation is done already; `Full`: try again later. */
  datatype Outcome = Queued | Unneeded | Full

  predicate Contains(queue: seq<QueueEntry>, slot: SlotId) {
    exists i :: 0 <= i < |queue| && queue[i].slot == slot
  }

  /** A joining request: a flush takes over from a queued initialisation. */
  function Joined(e: QueueEntry, op: OpType, callback: Option<Callback>): QueueEntry {
    QueueEntry(e.slot, if callback.Some? then e.callbacks + [callback.value] else e.callbacks,
               if op.Flush? then Flush else e.op)
  }

  function NewEntry(slot: SlotId, op: OpType, callback: Option<Callback>): QueueEntry {
    QueueEntry(slot, if callback.Some? then [callback.value] else [], op)
  }

  /** The queue after an accepted request. */
  function Accepted(queue: seq<QueueEntry>, slot: SlotId, op: OpType, callback: Option<Callback>): seq<QueueEntry> {
    if queue == [] then [NewEntry(slot, op, callback)]
    else if queue[0].slot == slot then [Joined(queue[0], op, callback)] + queue[1..]
    else [queue[0]] + Accepted(queue[1..], slot, op, callback)
  }

  lemma {:induction false} AcceptedJoins(queue: seq<QueueEntry>, i: nat, op: OpType, callback: Option<Callback>)
    requires i < |queue| && forall j :: 0 <= j < i ==> queue[j].slot != queue[i].slot
    ensures Accepted(queue, queue[i].slot, op, callback) == queue[i := Joined(queue[i], op, callback)]
  {
    if i > 0 {
      AcceptedJoins(queue[1..], i - 1, op, callback);
    }
  }

  lemma {:induction false} AcceptedAppends(queue: seq<QueueEntry>, slot: SlotId, op: OpType, callback: Option<Callback>)
    requires !Contains(queue, slot)
    ensures Accepted(queue, slot, op, callback) == queue + [NewEntry(slot, op, callback)]
  {
    if queue != [] {
      forall i | 0 <= i < |queue[1..]| ensures queue[1..][i].slot != slot {
        assert queue[i + 1].slot != slot;
      }
      AcceptedAppends(queue[1..], slot, op, callback);
    }
  }

  ghost predicate DistinctSlots(queue: seq<QueueEntry>) {
    forall i, j :: 0 <= i < j < |queue| ==> queue[i].slot != queue[j].slot
  }

  ghost predicate EntryIndexed(queue: seq<QueueEntry>, index: map<SlotId, nat>, base: nat, i: nat)
    requires i < |queue|
  {
    queue[i].slot in index && index[queue[i].slot] == base + i
  }

  ghost predicate SlotQueued(queue: seq<QueueEntry>, index: map<SlotId, nat>, base: nat, slot: SlotId)
    requires slot in index
  {
    base <= index[slot] < base + |queue| && queue[index[slot] - base].slot == slot
  }

  /** `index` maps the slot of every entry to its absolute position, and holds nothing else. */
  ghost predicate IndexOk(queue: seq<QueueEntry>, index: map<SlotId, nat>, base: nat) {
    && (forall i: nat {:trigger EntryIndexed(queue, index, base, i)} :: i < |queue| ==>
        EntryIndexed(queue, index, base, i))
    && (forall slot {:trigger SlotQueued(queue, index, base, slot)} :: slot in index ==>
          SlotQueued(queue, index, base, slot))
  }

  lemma IndexAfterPop(queue: seq<QueueEntry>, index: map<SlotId, nat>, base: nat)
    requires IndexOk(queue, index, base) && queue != []
    ensures queue[0].slot in index && index[queue[0].slot] == base
    ensures IndexOk(queue[1..], index - {queue[0].slot}, if |queue| == 1 then 0 else base + 1)
  {
    var rest, left, next := queue[1..], index - {queue[0].slot}, if |queue| == 1 then 0 else base + 1;
    assert EntryIndexed(queue, index, base, 0);
    forall i: nat {:trigger EntryIndexed(rest, left, next, i)} | i < |rest| ensures EntryIndexed(rest, left, next, i) {
      assert EntryIndexed(queue, index, base, i + 1);
    }
    forall slot {:trigger SlotQueued(rest, left, next, slot)} | slot in left
      ensures SlotQueued(rest, left, next, slot)
    {
      assert SlotQueued(queue, index, base, slot);
    }
  }

  lemma IndexAfterPush(queue: seq<QueueEntry>, index: map<SlotId, nat>, base: nat, e: QueueEntry)
    requires IndexOk(queue, index, base) && e.slot !in index
    ensures IndexOk(queue + [e], index[e.slot := base + |queue|], base)
  {
    var longer, more := queue + [e], index[e.slot := base + |queue|];
    forall i: nat {:trigger EntryIndexed(longer, more, base, i)} | i < |longer|
      ensures EntryIndexed(longer, more, base, i)
    {
      if i < |queue| {
        assert EntryIndexed(queue, index, base, i);
      }
    }
    forall slot {:trigger SlotQueued(longer, more, base, slot)} | slot in more
      ensures SlotQueued(longer, more, base, slot)
    {
      if slot != e.slot {
        assert SlotQueued(queue, index, base, slot);
      }
    }
  }

  lemma IndexAfterJoin(queue: seq<QueueEntry>, index: map<SlotId, nat>, base: nat, k: nat, e: QueueEntry)
    requires IndexOk(queue, index, base) && k < |queue| && e.slot == queue[k].slot
    ensures IndexOk(queue[k := e], index, base)
  {
    forall i: nat {:trigger EntryIndexed(queue[k := e], index, base, i)} | i < |queue|
      ensures EntryIndexed(queue[k := e], index, base, i)
    {
      assert EntryIndexed(queue, index, base, i);
    }
    forall slot {:trigger SlotQueued(queue[k := e], index, base, slot)} | slot in index
      ensures SlotQueued(queue[k := e], index, base, slot)
    {
      assert SlotQueued(queue, index, base, slot);
    }
  }

  /** The index answers whether a slot is queued, and no slot is queued twice. */
  lemma IndexIsExact(queue: seq<QueueEntry>, index: map<SlotId, nat>, base: nat, slot: SlotId)
    requires IndexOk(queue, index, base)
    ensures slot in index <==> Contains(queue, slot)
    ensures slot in index ==> base <= index[slot] < base + |queue| && queue[index[slot] - base].slot == slot
    ensures DistinctSlots(queue) && |index| == |queue|
  {
    if slot in index {
      assert SlotQueued(queue, index, base, slot);
    }
    if Contains(queue, slot) {
      var i: nat :| i < |queue| && queue[i].slot == slot;
      assert EntryIndexed(queue, index, base, i);
    }
    forall i, j | 0 <= i < j < |queue| ensures queue[i].slot != queue[j].slot {
      assert EntryIndexed(queue, index, base, i) && EntryIndexed(queue, index, base, j);
    }
    CountSlots(queue);
    forall s ensures s in index <==> s in Slots(queue) {
      if s in index {
        assert SlotQueued(queue, index, base, s);
      }
      if s in Slots(queue) {
        var i: nat :| i < |queue| && queue[i].slot == s;
        assert EntryIndexed(queue, index, base, i);
      }
    }
    assert index.Keys == Slots(queue);
  }

  class Queue {
    var queue: seq<QueueEntry>
    var alreadyInQueue: map<SlotId, nat>
    var base: nat

    /** The index holds the absolute position of every entry, and nothing else. */
    ghost predicate Valid()
      reads this
    {
      IndexOk(queue, alreadyInQueue, base)
    }

    constructor ()
      ensures Valid() && queue == []
    {
      queue, alreadyInQueue, base := [], map[], 0;
    }

    /** Takes the oldest entry; its recorded position is the base. */
    method Dequeue() returns (entry: Option<QueueEntry>)
      requires Valid()
      modifies this
      ensures Valid()
      ensures old(queue) == [] ==> entry == None && queue == []
      ensures old(queue) != [] ==> entry == Some(old(queue)[0]) && queue == old(queue)[1..]
    {
      if queue == [] {
        return None;
      }
      IndexIsExact(queue, alreadyInQueue, base, queue[0].slot);
      IndexAfterPop(queue, alreadyInQueue, base);
      assert |queue| == |alreadyInQueue|;
      var first := queue[0];
      queue := queue[1..];
      assert first.slot in alreadyInQueue && alreadyInQueue[first.slot] == base;
      alreadyInQueue := alreadyInQueue - {first.slot};
      base := if queue == [] then 0 else base + 1;
      return Some(first);
    }

    /**
     Adds a request.  `resident` are the slots whose page is initialised.  The
     aborts on a flush of an uninitialised page cannot be reached.
     */
    method Enqueue(slot: SlotId, op: OpType, callback: Option<Callback>, limit: nat, resident: set<SlotId>)
      returns (outcome: Outcome)
      requires Valid()
      requires forall i :: 0 <= i < |queue| && queue[i].op.Flush? ==> queue[i].slot in resident
      requires op.Flush? ==> slot in resident
      requires forall i :: 0 <= i < |queue| && queue[i].slot == slot && queue[i].op.Init? && op.Init? ==>
          queue[i].op == op
      modifies this
      ensures Valid()
      ensures outcome == if op.Init? && slot in resident then Unneeded
                         else if !Contains(old(queue), slot) && |old(queue)| >= limit then Full else Queued
      ensures outcome.Queued? ==> queue == Accepted(old(queue), slot, op, callback)
      ensures !outcome.Queued? ==> queue == old(queue)
    {
      if op.Init? && slot in resident {
        return Unneeded;
      }
      IndexIsExact(queue, alreadyInQueue, base, slot);
      assert |queue| == |alreadyInQueue|;
      if slot in alreadyInQueue {
        var index := alreadyInQueue[slot] - base;
        var entry := queue[index];
        assert op.Init? ==> entry.op == op;
        var callbacks := if callback.Some? then entry.callbacks + [callback.value] else entry.callbacks;
        AcceptedJoins(queue, index, op, callback);
        IndexAfterJoin(queue, alreadyInQueue, base, index, Joined(entry, op, callback));
        queue := queue[index := QueueEntry(slot, callbacks, if op.Flush? then Flush else entry.op)];
        return Queued;
      }
      if |queue| >= limit {
        return Full;
      }
      AcceptedAppends(queue, slot, op, callback);
      IndexAfterPush(queue, alreadyInQueue, base, NewEntry(slot, op, callback));
      alreadyInQueue := alreadyInQueue[slot := base + |queue|];
      queue := queue + [QueueEntry(slot, if callback.Some? then [callback.value] else [], op)];
      return Queued;
    }
  }

  function Slots(queue: seq<QueueEntry>): set<SlotId> {
    set i | 0 <= i < |queue| :: queue[i].slot
  }

  lemma {:induction false} CountSlots(queue: seq<QueueEntry>)
    requires DistinctSlots(queue)
    ensures |Slots(queue)| == |queue|
  {
    if queue != [] {
      var init, last := queue[..|queue| - 1], queue[|queue| - 1];
      CountSlots(init);
      assert Slots(queue) == Slots(init) + {last.slot};
    }
  }
}
