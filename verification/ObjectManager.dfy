/**
 The object manager as a whole: any number of threads queue requests, one worker
 carries them out, slots may be dropped at any time.  Every accepted callback is
 called at most once, with the result of an operation that began after it was
 accepted, and exactly once if its slot lives.
 */
module ObjectManagers {
  import opened Wrappers
  import opened ObjectQueue

  type Time = nat

  datatype Task =
    | NoTask
    | Taken(entry: QueueEntry)
    | Operating(entry: QueueEntry, begun: Time)
    | Delivering(slot: SlotId, rest: seq<Callback>, ok: bool, begun: Time)

  /** `Trivial`: there was nothing to do at all when the request was made. */
  datatype Delivery = Trivial | Result(ok: bool, begun: Time)

  datatype Acceptance = Acceptance(slot: SlotId, time: Time)

  datatype State = State(
    queue: seq<QueueEntry>, limit: nat, fabric: Fabric, resident: set<SlotId>, dead: set<SlotId>, closed: bool,
    task: Task, now: Time, accepted: map<Callback, Acceptance>, delivered: map<Callback, Delivery>,
    dropped: set<Callback>)

  datatype Event =
    | Request(slot: SlotId, op: OpType, callback: Option<Callback>)
    | Take
    | Upgrade
    | Complete(ok: bool)
    | Deliver
    | Die(slot: SlotId)
    | Close

  /** The request is answered without queueing anything. */
  predicate Trivially(s: State, slot: SlotId, op: OpType) {
    if op.Flush? then slot !in s.resident else slot in s.resident
  }

  function AfterRequest(s: State, slot: SlotId, op: OpType, callback: Option<Callback>): State {
    var accepted := if callback.Some? then s.accepted[callback.value := Acceptance(slot, s.now)] else s.accepted;
    var n := s.(accepted := accepted, now := s.now + 1);
    if Trivially(s, slot, op) then
      n.(delivered := if callback.Some? then s.delivered[callback.value := Trivial] else s.delivered)
    else n.(queue := Accepted(s.queue, slot, op, callback))
  }

  function AfterUpgrade(s: State): State
    requires s.task.Taken?
  {
    var e := s.task.entry;
    if e.slot in s.dead then
      s.(task := NoTask, dropped := s.dropped + (set cb | cb in e.callbacks), now := s.now + 1)
    else s.(task := Operating(e, s.now), now := s.now + 1)
  }

  function AfterComplete(s: State, ok: bool): State
    requires s.task.Operating?
  {
    var e := s.task.entry;
    s.(resident := if e.op.Init? && ok then s.resident + {e.slot} else s.resident,
       task := Delivering(e.slot, e.callbacks, ok, s.task.begun), now := s.now + 1)
  }

  function AfterDeliver(s: State): State
    requires s.task.Delivering?
  {
    var t := s.task;
    if t.rest == [] then s.(task := NoTask, now := s.now + 1)
    else
      s.(delivered := s.delivered[t.rest[0] := Result(t.ok, t.begun)], task := t.(rest := t.rest[1..]),
         now := s.now + 1)
  }

  /** One step.  A request for a full queue waits, so it is no step. */
  ghost predicate Step(s: State, e: Event, n: State) {
    match e
    case Request(slot, op, callback) =>
      && !s.closed && slot !in s.dead
      && (callback.Some? ==> callback.value !in s.accepted)
      && (op.Init? ==> op.fabric == s.fabric)
      && (Trivially(s, slot, op) || Contains(s.queue, slot) || |s.queue| < s.limit)
      && n == AfterRequest(s, slot, op, callback)
    case Take =>
      && !s.closed && s.task.NoTask? && s.queue != []
      && n == s.(queue := s.queue[1..], task := Taken(s.queue[0]), now := s.now + 1)
    case Upgrade => s.task.Taken? && n == AfterUpgrade(s)
    case Complete(ok) =>
      && s.task.Operating? && (s.task.entry.op.Init? && s.task.entry.slot in s.resident ==> ok)
      && n == AfterComplete(s, ok)
    case Deliver => s.task.Delivering? && n == AfterDeliver(s)
    case Die(slot) =>
      && !(s.task.Operating? && s.task.entry.slot == slot)
      && n == s.(dead := s.dead + {slot}, now := s.now + 1)
    case Close => n == s.(closed := true, now := s.now + 1)
  }

  // ---------------------------------------------------------------------
  // Where the callbacks are

  function QueuedCallbacks(queue: seq<QueueEntry>): multiset<Callback> {
    if queue == [] then multiset{} else multiset(queue[0].callbacks) + QueuedCallbacks(queue[1..])
  }

  function TaskCallbacks(t: Task): multiset<Callback> {
    match t
    case NoTask => multiset{}
    case Taken(e) => multiset(e.callbacks)
    case Operating(e, _) => multiset(e.callbacks)
    case Delivering(_, rest, _, _) => multiset(rest)
  }

  /** The callbacks that are still waiting for their result. */
  function Waiting(s: State): multiset<Callback> {
    QueuedCallbacks(s.queue) + TaskCallbacks(s.task)
  }

  lemma {:induction false} AcceptedAdds(queue: seq<QueueEntry>, slot: SlotId, op: OpType, callback: Option<Callback>)
    ensures QueuedCallbacks(Accepted(queue, slot, op, callback))
      == QueuedCallbacks(queue) + (if callback.Some? then multiset{callback.value} else multiset{})
  {
    if queue != [] {
      if queue[0].slot == slot {
        var joined := Joined(queue[0], op, callback);
        assert ([joined] + queue[1..])[1..] == queue[1..];
      } else {
        AcceptedAdds(queue[1..], slot, op, callback);
        var rest := Accepted(queue[1..], slot, op, callback);
        assert ([queue[0]] + rest)[1..] == rest;
      }
    }
  }

  /** The callback was accepted for this slot before `time`. */
  predicate AcceptedBefore(s: State, cb: Callback, slot: SlotId, time: Time) {
    cb in s.accepted && s.accepted[cb].slot == slot && s.accepted[cb].time < time
  }

  ghost predicate EntryOk(s: State, e: QueueEntry, time: Time) {
    && (forall cb :: cb in e.callbacks ==> AcceptedBefore(s, cb, e.slot, time))
    && (e.op.Flush? ==> e.slot in s.resident)
    && (e.op.Init? ==> e.op.fabric == s.fabric)
  }

  ghost predicate TaskOk(s: State) {
    match s.task
    case NoTask => true
    case Taken(e) => EntryOk(s, e, s.now)
    case Operating(e, begun) => begun < s.now && EntryOk(s, e, begun) && e.slot !in s.dead
    case Delivering(slot, rest, _, begun) =>
      begun < s.now && forall cb :: cb in rest ==> AcceptedBefore(s, cb, slot, begun)
  }

  /** Every accepted callback is in exactly one place. */
  ghost predicate PlaceOk(s: State, cb: Callback) {
    && Waiting(s)[cb] <= 1
    && (cb in s.accepted <==> cb in Waiting(s) || cb in s.delivered || cb in s.dropped)
    && !(cb in Waiting(s) && cb in s.delivered) && !(cb in Waiting(s) && cb in s.dropped)
    && !(cb in s.delivered && cb in s.dropped)
  }

  ghost predicate FateOk(s: State, cb: Callback)
    requires cb in s.accepted
  {
    && (cb in s.delivered && s.delivered[cb].Result? ==> s.accepted[cb].time < s.delivered[cb].begun)
    && (cb in s.dropped ==> s.accepted[cb].slot in s.dead)
  }

  ghost predicate Ok(s: State) {
    && DistinctSlots(s.queue) && |s.queue| <= s.limit
    && (forall i {:trigger s.queue[i]} :: 0 <= i < |s.queue| ==> EntryOk(s, s.queue[i], s.now))
    && TaskOk(s)
    && (forall cb {:trigger PlaceOk(s, cb)} :: PlaceOk(s, cb))
    && (forall cb {:trigger FateOk(s, cb)} :: cb in s.accepted ==> FateOk(s, cb))
  }

  // ---------------------------------------------------------------------
  // Every step keeps this

  lemma AcceptedKeepsEntries(s: State, n: State, slot: SlotId, op: OpType, callback: Option<Callback>)
    requires Ok(s) && Step(s, Request(slot, op, callback), n) && !Trivially(s, slot, op)
    ensures DistinctSlots(n.queue) && |n.queue| <= n.limit
    ensures forall i {:trigger n.queue[i]} :: 0 <= i < |n.queue| ==> EntryOk(n, n.queue[i], n.now)
  {
    if Contains(s.queue, slot) {
      var k: nat :| k < |s.queue| && s.queue[k].slot == slot;
      AcceptedJoins(s.queue, k, op, callback);
      forall i {:trigger n.queue[i]} | 0 <= i < |n.queue| ensures EntryOk(n, n.queue[i], n.now) {
        assert EntryOk(s, s.queue[i], s.now);
      }
    } else {
      AcceptedAppends(s.queue, slot, op, callback);
      forall i {:trigger n.queue[i]} | 0 <= i < |n.queue| ensures EntryOk(n, n.queue[i], n.now) {
        if i < |s.queue| {
          assert EntryOk(s, s.queue[i], s.now);
        }
      }
    }
  }

  /** How the waiting callbacks and the ones with a fate change in a step. */
  ghost predicate Moved(s: State, n: State, arriving: multiset<Callback>, leaving: multiset<Callback>) {
    Counted(s, n, arriving, leaving) && Decided(s, n, arriving, leaving)
  }

  ghost predicate Counted(s: State, n: State, arriving: multiset<Callback>, leaving: multiset<Callback>) {
    leaving <= Waiting(s) + arriving && Waiting(n) == Waiting(s) + arriving - leaving
  }

  ghost predicate Decided(s: State, n: State, arriving: multiset<Callback>, leaving: multiset<Callback>) {
    && (forall cb :: cb in n.accepted <==> cb in s.accepted || cb in arriving)
    && (forall cb :: cb in arriving ==> cb !in s.accepted)
    && (forall cb :: cb in n.delivered || cb in n.dropped <==> cb in s.delivered || cb in s.dropped || cb in leaving)
    && (forall cb :: cb in n.delivered && cb in n.dropped ==> cb in s.delivered && cb in s.dropped)
  }

  lemma MovedKeepsPlaces(s: State, n: State, arriving: multiset<Callback>, leaving: multiset<Callback>)
    requires (forall cb {:trigger PlaceOk(s, cb)} :: PlaceOk(s, cb)) && Moved(s, n, arriving, leaving)
    requires forall cb :: arriving[cb] <= 1
    ensures forall cb {:trigger PlaceOk(n, cb)} :: PlaceOk(n, cb)
  {
    forall cb {:trigger PlaceOk(n, cb)} ensures PlaceOk(n, cb) {
      assert PlaceOk(s, cb);
      assert cb in arriving ==> cb !in s.accepted;
      assert Waiting(n)[cb] == Waiting(s)[cb] + arriving[cb] - leaving[cb];
    }
  }

  function Single(callback: Option<Callback>): multiset<Callback> {
    if callback.Some? then multiset{callback.value} else multiset{}
  }

  lemma TrivialMoves(s: State, slot: SlotId, op: OpType, callback: Option<Callback>)
    requires Trivially(s, slot, op) && (callback.Some? ==> callback.value !in s.accepted && PlaceOk(s, callback.value))
    ensures Moved(s, AfterRequest(s, slot, op, callback), Single(callback), Single(callback))
  {
  }

  lemma QueuedMoves(s: State, slot: SlotId, op: OpType, callback: Option<Callback>)
    requires !Trivially(s, slot, op) && (callback.Some? ==> callback.value !in s.accepted)
    ensures Moved(s, AfterRequest(s, slot, op, callback), Single(callback), multiset{})
  {
    AcceptedAdds(s.queue, slot, op, callback);
  }

  lemma RequestKeepsPlaces(s: State, slot: SlotId, op: OpType, callback: Option<Callback>, n: State)
    requires Ok(s) && Step(s, Request(slot, op, callback), n)
    ensures forall cb {:trigger PlaceOk(n, cb)} :: PlaceOk(n, cb)
  {
    assert callback.Some? ==> PlaceOk(s, callback.value);
    if Trivially(s, slot, op) {
      TrivialMoves(s, slot, op, callback);
      MovedKeepsPlaces(s, n, Single(callback), Single(callback));
    } else {
      QueuedMoves(s, slot, op, callback);
      MovedKeepsPlaces(s, n, Single(callback), multiset{});
    }
  }

  lemma RequestKeepsFates(s: State, slot: SlotId, op: OpType, callback: Option<Callback>, n: State)
    requires Ok(s) && Step(s, Request(slot, op, callback), n)
    ensures forall cb {:trigger FateOk(n, cb)} :: cb in n.accepted ==> FateOk(n, cb)
  {
    forall cb {:trigger FateOk(n, cb)} | cb in n.accepted ensures FateOk(n, cb) {
      assert PlaceOk(s, cb);
      if cb in s.accepted {
        assert FateOk(s, cb);
      }
    }
  }

  lemma RequestKeepsEntries(s: State, slot: SlotId, op: OpType, callback: Option<Callback>, n: State)
    requires Ok(s) && Step(s, Request(slot, op, callback), n)
    ensures DistinctSlots(n.queue) && |n.queue| <= n.limit && TaskOk(n)
    ensures forall i {:trigger n.queue[i]} :: 0 <= i < |n.queue| ==> EntryOk(n, n.queue[i], n.now)
  {
    if Trivially(s, slot, op) {
      forall i {:trigger n.queue[i]} | 0 <= i < |n.queue| ensures EntryOk(n, n.queue[i], n.now) {
        assert EntryOk(s, s.queue[i], s.now);
      }
    } else {
      AcceptedKeepsEntries(s, n, slot, op, callback);
    }
  }

  /** The callbacks that are given up when the slot of their entry is dead. */
  function GivenUp(s: State): multiset<Callback>
    requires s.task.Taken?
  {
    if s.task.entry.slot in s.dead then multiset(s.task.entry.callbacks) else multiset{}
  }

  lemma SameWaiting(s: State, n: State)
    requires n.queue == s.queue && TaskCallbacks(n.task) == TaskCallbacks(s.task)
    ensures Counted(s, n, multiset{}, multiset{})
  {
  }

  lemma DeliverCountsOne(s: State, n: State, rest: seq<Callback>)
    requires rest != [] && n.queue == s.queue
    requires TaskCallbacks(s.task) == multiset(rest) && TaskCallbacks(n.task) == multiset(rest[1..])
    ensures Counted(s, n, multiset{}, multiset{rest[0]})
  {
    assert rest == [rest[0]] + rest[1..];
    assert multiset(rest) == multiset{rest[0]} + multiset(rest[1..]);
    TakeOne(QueuedCallbacks(s.queue), multiset(rest), rest[0], multiset(rest[1..]));
  }

  lemma TakeOne(queued: multiset<Callback>, all: multiset<Callback>, cb: Callback, rest: multiset<Callback>)
    requires all == multiset{cb} + rest
    ensures multiset{cb} <= queued + all + multiset{} && queued + rest == queued + all + multiset{} - multiset{cb}
  {
  }

  lemma DeliverDecides(s: State)
    requires s.task.Delivering? && (s.task.rest != [] ==> PlaceOk(s, s.task.rest[0]))
    ensures Decided(s, AfterDeliver(s), multiset{},
                    if s.task.rest == [] then multiset{} else multiset{s.task.rest[0]})
  {
    if s.task.rest != [] {
      assert s.task.rest[0] in TaskCallbacks(s.task);
      assert s.task.rest[0] in Waiting(s);
    }
  }

  lemma UpgradeCounts(s: State)
    requires s.task.Taken?
    ensures Counted(s, AfterUpgrade(s), multiset{}, GivenUp(s))
  {
  }

  lemma UpgradeDecides(s: State)
    requires s.task.Taken? && forall cb :: cb in s.task.entry.callbacks ==> PlaceOk(s, cb)
    ensures Decided(s, AfterUpgrade(s), multiset{}, GivenUp(s))
  {
    forall cb | cb in s.task.entry.callbacks ensures cb !in s.delivered {
      assert PlaceOk(s, cb) && cb in TaskCallbacks(s.task) && cb in Waiting(s);
    }
  }

  lemma DeliverMoves(s: State, n: State)
    requires Ok(s) && s.task.Delivering? && n == AfterDeliver(s)
    ensures Moved(s, n, multiset{}, if s.task.rest == [] then multiset{} else multiset{s.task.rest[0]})
  {
    assert s.task.rest != [] ==> PlaceOk(s, s.task.rest[0]);
    DeliverDecides(s);
    if s.task.rest == [] {
      SameWaiting(s, n);
    } else {
      DeliverCountsOne(s, n, s.task.rest);
    }
  }

  lemma UpgradeMoves(s: State)
    requires Ok(s) && s.task.Taken?
    ensures Moved(s, AfterUpgrade(s), multiset{}, GivenUp(s))
  {
    forall cb | cb in s.task.entry.callbacks ensures PlaceOk(s, cb) {
    }
    UpgradeCounts(s);
    UpgradeDecides(s);
  }

  lemma OthersMove(s: State, e: Event, n: State)
    requires Ok(s) && Step(s, e, n) && !e.Request? && !e.Deliver? && !e.Upgrade?
    ensures Moved(s, n, multiset{}, multiset{})
  {
  }

  lemma WorkerKeepsPlaces(s: State, e: Event, n: State)
    requires Ok(s) && Step(s, e, n) && !e.Request?
    ensures forall cb {:trigger PlaceOk(n, cb)} :: PlaceOk(n, cb)
  {
    if e.Deliver? {
      DeliverMoves(s, n);
      MovedKeepsPlaces(s, n, multiset{}, if s.task.rest == [] then multiset{} else multiset{s.task.rest[0]});
    } else if e.Upgrade? {
      UpgradeMoves(s);
      MovedKeepsPlaces(s, n, multiset{}, GivenUp(s));
    } else {
      OthersMove(s, e, n);
      MovedKeepsPlaces(s, n, multiset{}, multiset{});
    }
  }

  lemma WorkerKeepsFates(s: State, e: Event, n: State)
    requires Ok(s) && Step(s, e, n) && !e.Request?
    ensures forall cb {:trigger FateOk(n, cb)} :: cb in n.accepted ==> FateOk(n, cb)
  {
    forall cb {:trigger FateOk(n, cb)} | cb in n.accepted ensures FateOk(n, cb) {
      assert FateOk(s, cb);
      if e.Deliver? && s.task.rest != [] && cb == s.task.rest[0] {
        assert AcceptedBefore(s, cb, s.task.slot, s.task.begun);
      }
    }
  }

  lemma WorkerKeepsTask(s: State, e: Event, n: State)
    requires Ok(s) && Step(s, e, n) && !e.Request?
    ensures TaskOk(n)
  {
    if e.Take? {
      assert EntryOk(s, s.queue[0], s.now);
    }
    if e.Deliver? && s.task.rest != [] {
      forall cb | cb in s.task.rest[1..] ensures AcceptedBefore(n, cb, s.task.slot, s.task.begun) {
        assert cb in s.task.rest;
      }
    }
  }

  lemma WorkerKeepsEntries(s: State, e: Event, n: State)
    requires Ok(s) && Step(s, e, n) && !e.Request?
    ensures DistinctSlots(n.queue) && |n.queue| <= n.limit
    ensures forall i {:trigger n.queue[i]} :: 0 <= i < |n.queue| ==> EntryOk(n, n.queue[i], n.now)
  {
    forall i {:trigger n.queue[i]} | 0 <= i < |n.queue| ensures EntryOk(n, n.queue[i], n.now) {
      assert EntryOk(s, if e.Take? then s.queue[i + 1] else s.queue[i], s.now);
    }
  }

  lemma StepKeepsOk(s: State, e: Event, n: State)
    requires Ok(s) && Step(s, e, n)
    ensures Ok(n)
  {
    if e.Request? {
      RequestKeepsPlaces(s, e.slot, e.op, e.callback, n);
      RequestKeepsFates(s, e.slot, e.op, e.callback, n);
      RequestKeepsEntries(s, e.slot, e.op, e.callback, n);
    } else {
      WorkerKeepsPlaces(s, e, n);
      WorkerKeepsFates(s, e, n);
      WorkerKeepsTask(s, e, n);
      WorkerKeepsEntries(s, e, n);
    }
  }

  ghost predicate IsStart(s: State) {
    s == State([], s.limit, s.fabric, {}, {}, false, NoTask, 0, map[], map[], {})
  }

  ghost predicate IsRun(states: seq<State>, events: seq<Event>) {
    && |states| == |events| + 1 && IsStart(states[0])
    && forall i {:trigger events[i]} :: 0 <= i < |events| ==> Step(states[i], events[i], states[i + 1])
  }

  lemma {:induction false} RunsAreOk(states: seq<State>, events: seq<Event>, i: nat)
    requires IsRun(states, events) && i < |states|
    ensures Ok(states[i])
  {
    if i == 0 {
      forall cb {:trigger PlaceOk(states[0], cb)} ensures PlaceOk(states[0], cb) {
      }
    } else {
      RunsAreOk(states, events, i - 1);
      StepKeepsOk(states[i - 1], events[i - 1], states[i]);
    }
  }

  // ---------------------------------------------------------------------
  // What callers may rely on

  /** A callback that is called gets its first and only result. */
  lemma DeliveredOnce(states: seq<State>, events: seq<Event>, i: nat)
    requires IsRun(states, events) && i < |events|
    requires events[i].Deliver? && states[i].task.rest != []
    ensures states[i].task.rest[0] !in states[i].delivered
  {
    RunsAreOk(states, events, i);
    assert PlaceOk(states[i], states[i].task.rest[0]);
  }

  lemma {:induction false} DeliveryStays(states: seq<State>, events: seq<Event>, i: nat, j: nat, cb: Callback)
    requires IsRun(states, events) && i <= j < |states| && cb in states[i].delivered
    ensures cb in states[j].delivered && states[j].delivered[cb] == states[i].delivered[cb]
    decreases j
  {
    if i < j {
      DeliveryStays(states, events, i, j - 1, cb);
      var s, e := states[j - 1], events[j - 1];
      RunsAreOk(states, events, j - 1);
      assert PlaceOk(s, cb);
      if e.Deliver? && s.task.rest != [] {
        DeliveredOnce(states, events, j - 1);
      }
    }
  }

  /** The result handed to a callback is that of an operation begun after the request was accepted. */
  lemma ResultIsFresh(states: seq<State>, events: seq<Event>, i: nat, cb: Callback)
    requires IsRun(states, events) && i < |states| && cb in states[i].delivered && states[i].delivered[cb].Result?
    ensures cb in states[i].accepted && states[i].accepted[cb].time < states[i].delivered[cb].begun
  {
    RunsAreOk(states, events, i);
    assert PlaceOk(states[i], cb) && FateOk(states[i], cb);
  }

  // ---------------------------------------------------------------------
  // Where results come from

  /** Every step takes one tick, so times are positions in the run. */
  lemma {:induction false} NowIsIndex(states: seq<State>, events: seq<Event>, i: nat)
    requires IsRun(states, events) && i < |states|
    ensures states[i].now == i
  {
    if i > 0 {
      NowIsIndex(states, events, i - 1);
      assert Step(states[i - 1], events[i - 1], states[i]);
    }
  }

  predicate BringsIn(e: Event, cb: Callback) {
    e.Request? && e.callback == Some(cb)
  }

  /** A callback is accepted by the one request that brings it. */
  lemma {:induction false} AcceptedFrom(states: seq<State>, events: seq<Event>, i: nat, cb: Callback) returns (r: nat)
    requires IsRun(states, events) && i < |states| && cb in states[i].accepted
    ensures r < i && BringsIn(events[r], cb) && states[i].accepted[cb] == Acceptance(events[r].slot, r)
    ensures cb !in states[r].accepted
  {
    NowIsIndex(states, events, i - 1);
    assert Step(states[i - 1], events[i - 1], states[i]);
    if cb in states[i - 1].accepted {
      AcceptanceStays(states[i - 1], events[i - 1], states[i], cb);
      r := AcceptedFrom(states, events, i - 1, cb);
    } else {
      r := i - 1;
    }
  }

  /** An operation under way was begun at its time, while its slot was alive. */
  lemma {:induction false} OperatingFrom(states: seq<State>, events: seq<Event>, i: nat)
    requires IsRun(states, events) && i < |states| && states[i].task.Operating?
    ensures var u := states[i].task.begun;
      && u < i && events[u] == Upgrade && states[u].task == Taken(states[i].task.entry)
      && states[i].task.entry.slot !in states[u].dead
  {
    NowIsIndex(states, events, i - 1);
    assert Step(states[i - 1], events[i - 1], states[i]);
    if states[i - 1].task.Operating? {
      OperatingFrom(states, events, i - 1);
    }
  }

  /** The operation that completed at `k` is the one on `slot`, for `cb` among others, with this outcome. */
  ghost predicate CompletedAt(states: seq<State>, events: seq<Event>, k: nat, slot: SlotId, cb: Callback, ok: bool,
                              begun: Time)
    requires |events| < |states|
  {
    && k < |events| && events[k] == Complete(ok) && states[k].task.Operating?
    && states[k].task.entry.slot == slot && cb in states[k].task.entry.callbacks && states[k].task.begun == begun
  }

  /** The results being handed out are those of the operation that completed last. */
  lemma {:induction false} DeliveringFrom(states: seq<State>, events: seq<Event>, i: nat) returns (k: nat)
    requires IsRun(states, events) && i < |states| && states[i].task.Delivering?
    ensures var t := states[i].task;
      k < i && forall cb :: cb in t.rest ==> CompletedAt(states, events, k, t.slot, cb, t.ok, t.begun)
  {
    assert Step(states[i - 1], events[i - 1], states[i]);
    if states[i - 1].task.Delivering? {
      k := DeliveringFrom(states, events, i - 1);
    } else {
      k := i - 1;
    }
  }

  lemma {:induction false} ResultFrom(states: seq<State>, events: seq<Event>, i: nat, cb: Callback)
    returns (k: nat, slot: SlotId)
    requires IsRun(states, events) && i < |states| && cb in states[i].delivered && states[i].delivered[cb].Result?
    ensures k < i && CompletedAt(states, events, k, slot, cb, states[i].delivered[cb].ok, states[i].delivered[cb].begun)
  {
    var s, e := states[i - 1], events[i - 1];
    assert Step(s, e, states[i]);
    if cb in s.delivered && s.delivered[cb] == states[i].delivered[cb] {
      k, slot := ResultFrom(states, events, i - 1, cb);
    } else {
      assert e.Deliver? && s.task.rest != [] && cb == s.task.rest[0];
      k := DeliveringFrom(states, events, i - 1);
      slot := s.task.slot;
    }
  }

  ghost predicate OnlyInFlushes(queue: seq<QueueEntry>, cb: Callback) {
    forall e {:trigger e in queue} :: e in queue && cb in e.callbacks ==> e.op.Flush?
  }

  /** While `cb` waits, its entry is a flush. */
  ghost predicate CarriedByFlush(s: State, cb: Callback) {
    && OnlyInFlushes(s.queue, cb)
    && (s.task.Taken? || s.task.Operating? ==> (cb in s.task.entry.callbacks ==> s.task.entry.op.Flush?))
  }

  lemma {:induction false} WaitsInQueue(queue: seq<QueueEntry>, e: QueueEntry, cb: Callback)
    requires e in queue && cb in e.callbacks
    ensures cb in QueuedCallbacks(queue)
  {
    if e != queue[0] {
      assert e in queue[1..];
      WaitsInQueue(queue[1..], e, cb);
    }
  }

  lemma OnlyInTail(queue: seq<QueueEntry>, cb: Callback)
    requires queue != [] && OnlyInFlushes(queue, cb)
    ensures OnlyInFlushes(queue[1..], cb)
  {
    forall e {:trigger e in queue[1..]} | e in queue[1..] && cb in e.callbacks ensures e.op.Flush? {
      assert e in queue;
    }
  }

  /** An accepted request other than of `cb` leaves its flush a flush; a flush request of `cb` makes it one. */
  lemma {:induction false} AcceptedFlushes(queue: seq<QueueEntry>, slot: SlotId, op: OpType,
                                           callback: Option<Callback>, cb: Callback)
    requires OnlyInFlushes(queue, cb) && (callback == Some(cb) ==> op.Flush?)
    ensures OnlyInFlushes(Accepted(queue, slot, op, callback), cb)
  {
    if queue != [] {
      assert queue[0] in queue;
      OnlyInTail(queue, cb);
      AcceptedFlushes(queue[1..], slot, op, callback, cb);
    }
  }

  lemma FlushStarts(s: State, cb: Callback)
    requires PlaceOk(s, cb) && cb !in s.accepted
    ensures OnlyInFlushes(s.queue, cb) && cb !in TaskCallbacks(s.task)
  {
    if !OnlyInFlushes(s.queue, cb) {
      var e :| e in s.queue && cb in e.callbacks;
      WaitsInQueue(s.queue, e, cb);
      assert false;
    }
    assert cb in TaskCallbacks(s.task) ==> cb in Waiting(s);
  }

  lemma FlushStep(s: State, e: Event, n: State, cb: Callback)
    requires Step(s, e, n) && CarriedByFlush(s, cb) && (BringsIn(e, cb) ==> e.op.Flush?)
    ensures CarriedByFlush(n, cb)
  {
    if e.Request? && !Trivially(s, e.slot, e.op) {
      AcceptedFlushes(s.queue, e.slot, e.op, e.callback, cb);
    } else if e.Take? {
      assert s.queue[0] in s.queue;
      OnlyInTail(s.queue, cb);
    }
  }

  lemma {:induction false} FlushIsCarried(states: seq<State>, events: seq<Event>, r: nat, i: nat, cb: Callback)
    requires IsRun(states, events) && r < i < |states| && BringsIn(events[r], cb) && events[r].op.Flush?
    ensures CarriedByFlush(states[i], cb) && cb in states[i].accepted
    decreases i
  {
    var s, e := states[i - 1], events[i - 1];
    if r == i - 1 {
      RunsAreOk(states, events, r);
      assert PlaceOk(s, cb);
      FlushStarts(s, cb);
    } else {
      FlushIsCarried(states, events, r, i - 1, cb);
      AcceptanceStays(s, e, states[i], cb);
    }
    FlushStep(s, e, states[i], cb);
  }

  /**
   A result handed to a callback is the outcome of one operation on its slot: it
   was requested, then begun, then completed with that outcome, in this order.  A
   flush that was asked for is answered by a flush.
   */
  lemma AnsweredByOperation(states: seq<State>, events: seq<Event>, i: nat, cb: Callback)
    returns (r: nat, u: nat, k: nat)
    requires IsRun(states, events) && i < |states| && cb in states[i].delivered && states[i].delivered[cb].Result?
    ensures r < u < k < i && BringsIn(events[r], cb) && events[u] == Upgrade && u == states[i].delivered[cb].begun
    ensures states[i].accepted.Keys >= {cb} && states[i].accepted[cb] == Acceptance(events[r].slot, r)
    ensures CompletedAt(states, events, k, events[r].slot, cb, states[i].delivered[cb].ok, u)
    ensures events[r].op.Flush? ==> states[k].task.entry.op.Flush?
  {
    var slot;
    k, slot := ResultFrom(states, events, i, cb);
    OperatingFrom(states, events, k);
    u := states[k].task.begun;
    RunsAreOk(states, events, k);
    assert AcceptedBefore(states[k], cb, slot, u);
    r := AcceptedFrom(states, events, k, cb);
    WorkSpent(states, events, k, i, cb);
    if events[r].op.Flush? {
      FlushIsCarried(states, events, r, k, cb);
    }
  }

  /** The operation that completed at `k` faulted the page of `slot` in. */
  ghost predicate BroughtIn(states: seq<State>, events: seq<Event>, k: nat, slot: SlotId)
    requires |events| < |states|
  {
    && k < |events| && events[k] == Complete(true) && states[k].task.Operating?
    && states[k].task.entry.slot == slot && states[k].task.entry.op.Init?
  }

  /** A page is resident exactly when an initialisation of its slot has succeeded. */
  lemma {:induction false} ResidentIff(states: seq<State>, events: seq<Event>, i: nat, slot: SlotId)
    requires IsRun(states, events) && i < |states|
    ensures slot in states[i].resident <==> exists k: nat :: k < i && BroughtIn(states, events, k, slot)
  {
    if i > 0 {
      ResidentIff(states, events, i - 1, slot);
      assert Step(states[i - 1], events[i - 1], states[i]);
      if slot in states[i].resident && slot !in states[i - 1].resident {
        assert BroughtIn(states, events, i - 1, slot);
      }
    }
  }

  /** A request was answered on the spot exactly when there was nothing to do for it. */
  lemma {:induction false} TrivialIff(states: seq<State>, events: seq<Event>, r: nat, i: nat, cb: Callback)
    requires IsRun(states, events) && r < i < |states| && BringsIn(events[r], cb)
    ensures cb in states[i].accepted
    ensures cb in states[i].delivered && states[i].delivered[cb].Trivial?
      <==> (if events[r].op.Flush? then events[r].slot !in states[r].resident else events[r].slot in states[r].resident)
    decreases i
  {
    var s, e := states[i - 1], events[i - 1];
    RunsAreOk(states, events, i - 1);
    assert Step(s, e, states[i]) && PlaceOk(s, cb);
    if r < i - 1 {
      TrivialIff(states, events, r, i - 1, cb);
      if cb in s.delivered {
        DeliveryStays(states, events, i - 1, i, cb);
      }
    }
  }

  /** An initialisation reported as successful has made the page resident. */
  lemma InitMeansResident(states: seq<State>, events: seq<Event>, r: nat, i: nat, cb: Callback)
    requires IsRun(states, events) && r < i < |states| && BringsIn(events[r], cb) && events[r].op.Init?
    requires cb in states[i].delivered && (states[i].delivered[cb].Result? ==> states[i].delivered[cb].ok)
    ensures events[r].slot in states[i].resident
  {
    var slot := events[r].slot;
    ResidentIff(states, events, i, slot);
    if states[i].delivered[cb].Trivial? {
      TrivialIff(states, events, r, i, cb);
      ResidentIff(states, events, r, slot);
    } else {
      var q, u, k := AnsweredByOperation(states, events, i, cb);
      OneRequest(states, events, r, q, cb);
      AbortsUnreachable(states, events, k);
      ResidentIff(states, events, k, slot);
      if states[k].task.entry.op.Init? {
        assert BroughtIn(states, events, k, slot);
      }
    }
  }

  /** No two requests bring the same callback. */
  lemma OneRequest(states: seq<State>, events: seq<Event>, r: nat, q: nat, cb: Callback)
    requires IsRun(states, events) && r < |events| && q < |events|
    requires BringsIn(events[r], cb) && BringsIn(events[q], cb)
    ensures r == q
  {
    assert Step(states[r], events[r], states[r + 1]) && Step(states[q], events[q], states[q + 1]);
    if r < q {
      WorkSpent(states, events, r + 1, q, cb);
    } else if q < r {
      WorkSpent(states, events, q + 1, r, cb);
    }
  }

  /** Once the queue is drained, every accepted callback has been called, unless its slot died first. */
  lemma DrainedMeansDelivered(states: seq<State>, events: seq<Event>, i: nat, cb: Callback)
    requires IsRun(states, events) && i < |states| && states[i].queue == [] && states[i].task.NoTask?
    requires cb in states[i].accepted && states[i].accepted[cb].slot !in states[i].dead
    ensures cb in states[i].delivered
  {
    RunsAreOk(states, events, i);
    assert PlaceOk(states[i], cb) && FateOk(states[i], cb);
  }

  // ---------------------------------------------------------------------
  // How long a callback waits

  predicate IsWork(e: Event) {
    e.Take? || e.Upgrade? || e.Complete? || e.Deliver?
  }

  /** How many of the events are steps of the worker. */
  function WorkerSteps(events: seq<Event>): nat {
    if events == [] then 0
    else WorkerSteps(events[..|events| - 1]) + (if IsWork(events[|events| - 1]) then 1 else 0)
  }

  function Requests(events: seq<Event>): nat {
    if events == [] then 0
    else Requests(events[..|events| - 1]) + (if events[|events| - 1].Request? then 1 else 0)
  }

  /** The steps it takes to finish the current task. */
  function TaskWork(t: Task): nat {
    match t
    case NoTask => 0
    case Taken(e) => 3 + |e.callbacks|
    case Operating(e, _) => 2 + |e.callbacks|
    case Delivering(_, rest, _, _) => 1 + |rest|
  }

  /** The steps it takes to work off the queue up to and including the entry of `cb`. */
  function QueueWork(queue: seq<QueueEntry>, cb: Callback): nat {
    if cb !in QueuedCallbacks(queue) then 0
    else 4 + |queue[0].callbacks| + (if cb in queue[0].callbacks then 0 else QueueWork(queue[1..], cb))
  }

  /** The worker steps after which `cb` has certainly got its result, if nobody joins the entries before it. */
  function WorkUntil(s: State, cb: Callback): nat {
    TaskWork(s.task) + QueueWork(s.queue, cb)
  }

  lemma {:induction false} QueueWorkBound(queue: seq<QueueEntry>, cb: Callback)
    ensures QueueWork(queue, cb) <= 4 * |queue| + |QueuedCallbacks(queue)|
  {
    if cb in QueuedCallbacks(queue) {
      assert |multiset(queue[0].callbacks)| == |queue[0].callbacks|;
      QueueWorkBound(queue[1..], cb);
    }
  }

  /** The wait is bounded by the entries and callbacks that wait now. */
  lemma WorkBound(s: State, cb: Callback)
    requires Ok(s)
    ensures WorkUntil(s, cb) <= 4 * s.limit + 3 + |Waiting(s)|
  {
    QueueWorkBound(s.queue, cb);
    match s.task
    case NoTask =>
    case Taken(e) => assert |multiset(e.callbacks)| == |e.callbacks|;
    case Operating(e, _) => assert |multiset(e.callbacks)| == |e.callbacks|;
    case Delivering(_, rest, _, _) => assert |multiset(rest)| == |rest|;
  }

  lemma WaitingHasWork(s: State, cb: Callback)
    requires cb in Waiting(s)
    ensures WorkUntil(s, cb) > 0
  {
    if cb !in QueuedCallbacks(s.queue) {
      assert cb in TaskCallbacks(s.task);
    }
  }

  lemma WorkDecreases(s: State, e: Event, n: State, cb: Callback)
    requires Step(s, e, n) && IsWork(e) && PlaceOk(s, cb) && cb in Waiting(s)
    ensures WorkUntil(n, cb) < WorkUntil(s, cb)
  {
    if e.Take? {
      assert cb in QueuedCallbacks(s.queue);
      assert QueuedCallbacks(s.queue) == multiset(s.queue[0].callbacks) + QueuedCallbacks(s.queue[1..]);
      if cb in s.queue[0].callbacks {
        assert cb !in QueuedCallbacks(s.queue[1..]);
      }
    }
  }

  /** A request can only lengthen the wait for `cb` by the one callback it brings along. */
  lemma {:induction false} AcceptedWork(queue: seq<QueueEntry>, slot: SlotId, op: OpType, callback: Option<Callback>,
                                        cb: Callback)
    requires callback != Some(cb)
    ensures QueueWork(Accepted(queue, slot, op, callback), cb) <= QueueWork(queue, cb) + 1
  {
    AcceptedAdds(queue, slot, op, callback);
    if queue != [] {
      if queue[0].slot == slot {
        var joined := Joined(queue[0], op, callback);
        assert ([joined] + queue[1..])[1..] == queue[1..];
      } else {
        AcceptedWork(queue[1..], slot, op, callback, cb);
        var rest := Accepted(queue[1..], slot, op, callback);
        assert ([queue[0]] + rest)[1..] == rest;
      }
    }
  }

  lemma StepWork(s: State, e: Event, n: State, cb: Callback)
    requires Step(s, e, n) && PlaceOk(s, cb) && cb in Waiting(s)
    ensures WorkUntil(n, cb) + (if IsWork(e) then 1 else 0) <= WorkUntil(s, cb) + (if e.Request? then 1 else 0)
  {
    if IsWork(e) {
      WorkDecreases(s, e, n, cb);
    } else if e.Request? && !Trivially(s, e.slot, e.op) {
      AcceptedWork(s.queue, e.slot, e.op, e.callback, cb);
    }
  }

  /** A callback waits from its acceptance on without a break. */
  lemma WaitedBefore(s: State, e: Event, n: State, cb: Callback)
    requires Ok(s) && Step(s, e, n) && cb in s.accepted && cb in Waiting(n)
    ensures cb in Waiting(s)
  {
    StepKeepsOk(s, e, n);
    assert PlaceOk(s, cb) && PlaceOk(n, cb);
  }

  lemma AcceptanceStays(s: State, e: Event, n: State, cb: Callback)
    requires Step(s, e, n) && cb in s.accepted
    ensures cb in n.accepted && n.accepted[cb] == s.accepted[cb]
  {
  }

  lemma StepSpends(s: State, e: Event, n: State, cb: Callback)
    requires Ok(s) && Step(s, e, n) && cb in s.accepted && cb in Waiting(n)
    ensures cb in Waiting(s)
    ensures WorkUntil(n, cb) + (if IsWork(e) then 1 else 0) <= WorkUntil(s, cb) + (if e.Request? then 1 else 0)
  {
    WaitedBefore(s, e, n, cb);
    assert PlaceOk(s, cb);
    StepWork(s, e, n, cb);
  }

  ghost predicate WithinWork(s: State, t: State, between: seq<Event>, cb: Callback) {
    WorkUntil(t, cb) + WorkerSteps(between) <= WorkUntil(s, cb) + Requests(between)
  }

  lemma CountLast(between: seq<Event>, e: Event)
    ensures WorkerSteps(between + [e]) == WorkerSteps(between) + (if IsWork(e) then 1 else 0)
    ensures Requests(between + [e]) == Requests(between) + (if e.Request? then 1 else 0)
  {
    assert (between + [e])[..|between|] == between;
  }

  /** While `cb` waits, what is left of its wait and the worker's steps so far stay within the bound. */
  lemma {:induction false} WorkSpent(states: seq<State>, events: seq<Event>, i: nat, j: nat, cb: Callback)
    requires IsRun(states, events) && i <= j < |states| && cb in states[i].accepted
    ensures cb in states[j].accepted && states[j].accepted[cb] == states[i].accepted[cb]
    ensures cb in Waiting(states[j]) ==> WithinWork(states[i], states[j], events[i..j], cb)
    decreases j
  {
    if i < j {
      WorkSpent(states, events, i, j - 1, cb);
      RunsAreOk(states, events, j - 1);
      var e := events[j - 1];
      assert events[i..j] == events[i..j - 1] + [e];
      CountLast(events[i..j - 1], e);
      AcceptanceStays(states[j - 1], e, states[j], cb);
      if cb in Waiting(states[j]) {
        StepSpends(states[j - 1], e, states[j], cb);
      }
    }
  }

  /**
   Every accepted callback gets its result, unless its slot dies, as soon as the
   worker has made `WorkUntil` steps and one more for each request made meanwhile:
   later requests cannot hold it up any longer than that.
   */
  lemma DeliveredInTime(states: seq<State>, events: seq<Event>, i: nat, j: nat, cb: Callback)
    requires IsRun(states, events) && i <= j < |states| && cb in states[i].accepted
    requires WorkerSteps(events[i..j]) >= WorkUntil(states[i], cb) + Requests(events[i..j])
    requires states[i].accepted[cb].slot !in states[j].dead
    ensures cb in states[j].delivered
  {
    WorkSpent(states, events, i, j, cb);
    if cb in Waiting(states[j]) {
      WaitingHasWork(states[j], cb);
    }
    RunsAreOk(states, events, j);
    assert PlaceOk(states[j], cb) && FateOk(states[j], cb);
  }

  /** The worker never flushes an uninitialised page, and no request finds a flush queued for one. */
  lemma AbortsUnreachable(states: seq<State>, events: seq<Event>, i: nat)
    requires IsRun(states, events) && i < |states|
    ensures |states[i].queue| <= states[i].limit
    ensures forall k :: 0 <= k < |states[i].queue| && states[i].queue[k].op.Flush? ==>
      states[i].queue[k].slot in states[i].resident
    ensures states[i].task.Operating? && states[i].task.entry.op.Flush? ==>
      states[i].task.entry.slot in states[i].resident
    ensures forall k :: 0 <= k < |states[i].queue| && states[i].queue[k].op.Init? ==>
      states[i].queue[k].op.fabric == states[i].fabric
  {
    RunsAreOk(states, events, i);
    var s := states[i];
    forall k | 0 <= k < |s.queue| ensures EntryOk(s, s.queue[k], s.now) {
    }
  }

  /** While the manager is open and something waits, the worker can move. */
  lemma WorkerMoves(s: State)
    requires !s.closed && (s.queue != [] || !s.task.NoTask?)
    ensures exists e: Event, n: State :: IsWork(e) && Step(s, e, n)
  {
    match s.task
    case NoTask => assert Step(s, Take, s.(queue := s.queue[1..], task := Taken(s.queue[0]), now := s.now + 1));
    case Taken(_) => assert Step(s, Upgrade, AfterUpgrade(s));
    case Operating(_, _) => assert Step(s, Complete(true), AfterComplete(s, true));
    case Delivering(_, _, _, _) => assert Step(s, Deliver, AfterDeliver(s));
  }
}
