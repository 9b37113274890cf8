/**
 The two-bit protocol that decides when the instruction cache is invalidated for
 a page, as a system of atomic steps of any number of writers and flushers.
 */
module DirtyFlush {
  import opened Wrappers

  type Thread = nat
  type Time = nat

  /** Where a flusher is; `begun` is when its flush was called. */
  datatype Phase =
    | Waiting(begun: Time)
    | Holding(begun: Time)
    | Loaded(begun: Time, sawDirty: bool, sawFlushing: bool)
    | Ready(begun: Time)
    | Invalidating(begun: Time, started: Time)
    | Invalidated(begun: Time, started: Time)
    | Returned(begun: Time)
    | Panicked(begun: Time)

  /**
   One page.  `sets` are the times at which a writer set the dirty bit, and
   `completed` the start times of the invalidations that have completed.
   */
  datatype State = State(dirty: bool, flushing: bool, gate: Option<Thread>, phases: map<Thread, Phase>, now: Time,
                         sets: set<Time>, completed: set<Time>)

  datatype Event =
    | SetDirty
    | Begin(t: Thread)
    | Lock(t: Thread)
    | LoadFlags(t: Thread)
    | ClearDirty(t: Thread)
    | StartInvalidate(t: Thread)
    | EndInvalidate(t: Thread)
    | Panic(t: Thread)
    | Finish(t: Thread)

  const START := State(false, false, None, map[], 0, {}, {})

  /** One atomic step. */
  ghost predicate Step(s: State, e: Event, n: State) {
    && n.now == s.now + 1
    && match e
       case SetDirty => n == s.(dirty := true, sets := s.sets + {s.now}, now := s.now + 1)
       case Begin(t) => t !in s.phases && n == To(s, t, Waiting(s.now))
       case Lock(t) =>
         && t in s.phases && s.phases[t].Waiting? && s.gate.None?
         && n == To(s, t, Holding(s.phases[t].begun)).(gate := Some(t))
       case LoadFlags(t) =>
         && t in s.phases && s.phases[t].Holding?
         && n == (if !s.dirty && !s.flushing then To(s, t, Returned(s.phases[t].begun)).(gate := None)
                  else if s.dirty then To(s, t, Loaded(s.phases[t].begun, s.dirty, s.flushing))
                  else To(s, t, Ready(s.phases[t].begun)))
       case ClearDirty(t) =>
         && t in s.phases && s.phases[t].Loaded?
         && n == (if s.phases[t].sawFlushing then To(s, t, Ready(s.phases[t].begun)).(dirty := false)
                  else To(s, t, Ready(s.phases[t].begun)).(dirty := !s.dirty, flushing := !s.flushing))
       case StartInvalidate(t) =>
         && t in s.phases && s.phases[t].Ready?
         && n == To(s, t, Invalidating(s.phases[t].begun, s.now))
       case EndInvalidate(t) =>
         && t in s.phases && s.phases[t].Invalidating?
         && n == To(s, t, Invalidated(s.phases[t].begun, s.phases[t].started))
                 .(completed := s.completed + {s.phases[t].started})
       case Panic(t) =>
         && t in s.phases && (s.phases[t].Ready? || s.phases[t].Invalidating?)
         && n == To(s, t, Panicked(s.phases[t].begun)).(gate := None)
       case Finish(t) =>
         && t in s.phases && s.phases[t].Invalidated?
         && n == To(s, t, Returned(s.phases[t].begun)).(flushing := false, gate := None)
  }

  function To(s: State, t: Thread, phase: Phase): State {
    s.(phases := s.phases[t := phase], now := s.now + 1)
  }

  /** An invalidation that began after `time` has completed. */
  ghost predicate Covered(s: State, time: Time) {
    exists start {:trigger start in s.completed} :: start in s.completed && start > time
  }

  predicate HoldsGate(p: Phase) {
    p.Holding? || p.Loaded? || p.Ready? || p.Invalidating? || p.Invalidated?
  }

  /** What is known about a flusher from where it is. */
  ghost predicate PhaseOk(s: State, p: Phase) {
    && p.begun < s.now
    && match p
       case Waiting(_) => true
       case Holding(_) => true
       case Loaded(_, sawDirty, sawFlushing) => sawDirty && s.dirty && s.flushing == sawFlushing
       case Ready(_) => s.flushing
       case Invalidating(begun, started) =>
         s.flushing && begun < started < s.now
         && forall time :: time in s.sets ==> time < started || s.dirty
       case Invalidated(begun, started) =>
         s.flushing && begun < started && started in s.completed
         && forall time :: time in s.sets ==> Covered(s, time) || s.dirty
       case Returned(begun) => forall time :: time in s.sets && time < begun ==> Covered(s, time)
       case Panicked(_) => true
  }

  ghost predicate Ok(s: State) {
    && (forall t {:trigger s.phases[t]} :: t in s.phases ==> (HoldsGate(s.phases[t]) <==> s.gate == Some(t)))
    && (s.gate.Some? ==> s.gate.value in s.phases)
    && (forall t {:trigger s.phases[t]} :: t in s.phases ==> PhaseOk(s, s.phases[t]))
    && (forall time :: time in s.sets ==> time < s.now)
    && (forall start :: start in s.completed ==> start < s.now)
    && (forall time :: time in s.sets ==> Covered(s, time) || s.dirty || s.flushing)
  }

  lemma CoveredGrows(s: State, n: State)
    requires s.completed <= n.completed
    ensures forall time: Time {:trigger Covered(n, time)} :: Covered(s, time) ==> Covered(n, time)
  {
  }

  lemma StepKeepsGate(s: State, e: Event, n: State)
    requires Ok(s) && Step(s, e, n)
    ensures forall t {:trigger n.phases[t]} :: t in n.phases ==> (HoldsGate(n.phases[t]) <==> n.gate == Some(t))
    ensures n.gate.Some? ==> n.gate.value in n.phases
  {
  }

  lemma StepKeepsPhases(s: State, e: Event, n: State)
    requires Ok(s) && Step(s, e, n)
    ensures forall t {:trigger n.phases[t]} :: t in n.phases ==> PhaseOk(n, n.phases[t])
  {
    CoveredGrows(s, n);
    forall t {:trigger n.phases[t]} | t in n.phases ensures PhaseOk(n, n.phases[t]) {
      if t in s.phases {
        assert PhaseOk(s, s.phases[t]);
        assert HoldsGate(s.phases[t]) <==> s.gate == Some(t);
      }
      if e.EndInvalidate? {
        assert s.phases[e.t].started in n.completed;
      }
    }
  }

  lemma StepKeepsOk(s: State, e: Event, n: State)
    requires Ok(s) && Step(s, e, n)
    ensures Ok(n)
  {
    CoveredGrows(s, n);
    StepKeepsGate(s, e, n);
    StepKeepsPhases(s, e, n);
    if !e.SetDirty? && !e.Begin? {
      assert PhaseOk(s, s.phases[e.t]);
    }
  }

  ghost predicate IsRun(states: seq<State>, events: seq<Event>) {
    && |states| == |events| + 1 && states[0] == START
    && forall i {:trigger events[i]} :: 0 <= i < |events| ==> Step(states[i], events[i], states[i + 1])
  }

  lemma {:induction false} RunsAreOk(states: seq<State>, events: seq<Event>, i: nat)
    requires IsRun(states, events) && i < |states|
    ensures Ok(states[i])
  {
    if i > 0 {
      RunsAreOk(states, events, i - 1);
      StepKeepsOk(states[i - 1], events[i - 1], states[i]);
    }
  }

  /**
   No lost invalidation: whenever a flush that was called after the dirty bit was
   set has returned, an invalidation that began after the bit was set has
   completed, whatever other flushers did or panicked on.
   */
  lemma NoLostInvalidation(states: seq<State>, events: seq<Event>, i: nat, t: Thread, time: Time)
    requires IsRun(states, events) && i < |states|
    requires t in states[i].phases && states[i].phases[t].Returned?
    requires time in states[i].sets && time < states[i].phases[t].begun
    ensures Covered(states[i], time)
  {
    RunsAreOk(states, events, i);
    assert PhaseOk(states[i], states[i].phases[t]);
  }

  // ---------------------------------------------------------------------
  // The same in terms of the events

  /** Every event takes one tick, so times are positions in the run. */
  lemma {:induction false} NowIsIndex(states: seq<State>, events: seq<Event>, i: nat)
    requires IsRun(states, events) && i < |states|
    ensures states[i].now == i
  {
    if i > 0 {
      NowIsIndex(states, events, i - 1);
      assert Step(states[i - 1], events[i - 1], states[i]);
    }
  }

  lemma {:induction false} SetsAreEvents(states: seq<State>, events: seq<Event>, i: nat, time: Time)
    requires IsRun(states, events) && i < |states|
    ensures time in states[i].sets <==> time < i && events[time] == SetDirty
  {
    if i > 0 {
      SetsAreEvents(states, events, i - 1, time);
      NowIsIndex(states, events, i - 1);
      assert Step(states[i - 1], events[i - 1], states[i]);
    }
  }

  /** Thread `t` invalidates from `u` to `k` without giving up in between. */
  ghost predicate Invalidates(events: seq<Event>, u: nat, k: nat, t: Thread) {
    && u < k < |events| && events[u] == StartInvalidate(t) && events[k] == EndInvalidate(t)
    && forall j {:trigger events[j]} :: u < j < k ==> events[j].SetDirty? || events[j].t != t
  }

  /** Where a flusher is tells which of its own events lie behind it. */
  ghost predicate BegunAt(events: seq<Event>, i: nat, t: Thread, p: Phase)
    requires i <= |events|
  {
    && p.begun < i && events[p.begun] == Begin(t)
    && (p.Invalidating? ==>
          p.started < i && events[p.started] == StartInvalidate(t)
          && forall j {:trigger events[j]} :: p.started < j < i ==> events[j].SetDirty? || events[j].t != t)
  }

  lemma {:induction false} PhasesAreEvents(states: seq<State>, events: seq<Event>, i: nat, t: Thread)
    requires IsRun(states, events) && i < |states| && t in states[i].phases
    ensures BegunAt(events, i, t, states[i].phases[t])
  {
    var s, e := states[i - 1], events[i - 1];
    NowIsIndex(states, events, i - 1);
    assert Step(s, e, states[i]);
    if t in s.phases {
      PhasesAreEvents(states, events, i - 1, t);
    }
  }

  lemma {:induction false} CompletedAreEvents(states: seq<State>, events: seq<Event>, i: nat, start: Time)
    returns (k: nat, t: Thread)
    requires IsRun(states, events) && i < |states| && start in states[i].completed
    ensures k < i && Invalidates(events, start, k, t)
  {
    var s, e := states[i - 1], events[i - 1];
    assert Step(s, e, states[i]);
    if start in s.completed {
      k, t := CompletedAreEvents(states, events, i - 1, start);
    } else {
      PhasesAreEvents(states, events, i - 1, e.t);
      k, t := i - 1, e.t;
    }
  }

  /**
   A flush that was begun at `b`, after the bit was set at `d`, has returned: then
   between the setting and now some thread started an invalidation and completed it.
   */
  lemma FlushMeansInvalidated(states: seq<State>, events: seq<Event>, d: nat, b: nat, i: nat, t: Thread)
    returns (u: nat, k: nat, flusher: Thread)
    requires IsRun(states, events) && d < b < i < |states|
    requires events[d] == SetDirty && events[b] == Begin(t)
    requires t in states[i].phases && states[i].phases[t].Returned?
    ensures d < u < k < i && Invalidates(events, u, k, flusher)
  {
    PhasesAreEvents(states, events, i, t);
    OneBegin(states, events, states[i].phases[t].begun, b, t);
    SetsAreEvents(states, events, i, d);
    NoLostInvalidation(states, events, i, t, d);
    u :| u in states[i].completed && u > d;
    k, flusher := CompletedAreEvents(states, events, i, u);
  }

  lemma {:induction false} Stays(states: seq<State>, events: seq<Event>, i: nat, j: nat, t: Thread)
    requires IsRun(states, events) && i <= j < |states| && t in states[i].phases
    ensures t in states[j].phases
    decreases j
  {
    if i < j {
      Stays(states, events, i, j - 1, t);
      assert Step(states[j - 1], events[j - 1], states[j]);
    }
  }

  lemma OneBegin(states: seq<State>, events: seq<Event>, a: nat, b: nat, t: Thread)
    requires IsRun(states, events) && a < |events| && b < |events|
    requires events[a] == Begin(t) && events[b] == Begin(t)
    ensures a == b
  {
    assert Step(states[a], events[a], states[a + 1]) && Step(states[b], events[b], states[b + 1]);
    if a < b {
      Stays(states, events, a + 1, b, t);
    } else if b < a {
      Stays(states, events, b + 1, a, t);
    }
  }

  /** A page that looks clean really has nothing left to invalidate. */
  lemma CleanIsCovered(states: seq<State>, events: seq<Event>, i: nat)
    requires IsRun(states, events) && i < |states| && !states[i].dirty && !states[i].flushing
    ensures forall time :: time in states[i].sets ==> Covered(states[i], time)
  {
    RunsAreOk(states, events, i);
  }

  /** The consistency checks on the flag words never fire: nobody else touches the bits they test. */
  lemma FlagChecksHold(states: seq<State>, events: seq<Event>, i: nat)
    requires IsRun(states, events) && i < |events|
    ensures var s, n := states[i], states[i + 1];
      && (events[i].ClearDirty? ==> s.dirty && !n.dirty && n.flushing)
      && (events[i].Finish? ==> s.flushing)
  {
    RunsAreOk(states, events, i);
    if events[i].ClearDirty? || events[i].Finish? {
      assert PhaseOk(states[i], states[i].phases[events[i].t]);
    }
  }

  /** At most one flusher is past the gate, and it can always take a step. */
  lemma GateHolderMoves(states: seq<State>, events: seq<Event>, i: nat)
    requires IsRun(states, events) && i < |states| && states[i].gate.Some?
    ensures exists e: Event, n: State ::
      Step(states[i], e, n) && !e.SetDirty? && !e.Panic? && e.t == states[i].gate.value
  {
    RunsAreOk(states, events, i);
    var s := states[i];
    var t := s.gate.value;
    assert HoldsGate(s.phases[t]);
    var begun := s.phases[t].begun;
    match s.phases[t]
    case Holding(_) =>
      var n := if !s.dirty && !s.flushing then To(s, t, Returned(begun)).(gate := None)
               else if s.dirty then To(s, t, Loaded(begun, s.dirty, s.flushing)) else To(s, t, Ready(begun));
      assert Step(s, LoadFlags(t), n);
    case Loaded(_, _, sawFlushing) =>
      var n := if sawFlushing then To(s, t, Ready(begun)).(dirty := false)
               else To(s, t, Ready(begun)).(dirty := !s.dirty, flushing := !s.flushing);
      assert Step(s, ClearDirty(t), n);
    case Ready(_) => assert Step(s, StartInvalidate(t), To(s, t, Invalidating(begun, s.now)));
    case Invalidating(_, started) =>
      assert Step(s, EndInvalidate(t), To(s, t, Invalidated(begun, started)).(completed := s.completed + {started}));
    case Invalidated(_, _) => assert Step(s, Finish(t), To(s, t, Returned(begun)).(flushing := false, gate := None));
  }
}
