/**
 The operations of a countdown state and of the two kinds of block halters:
 lazy correction, insertion points for compensating checks, and the walk over
 the safepoints of a block.
 */
module HaltStates {
  import opened Wrappers
  import opened ExecIr
  import opened Traces
  import opened PassInvariant

  /** Corrects a state against the compensating checks inserted so far. */
  method CanonicalizeAgainstResets(st: HaltState, every: nat, resetAfter: set<Stmt>) returns (result: HaltState)
    requires |st.suffix| + st.remaining <= every
    ensures result == Canonical(st, every, resetAfter)
  {
    if st.suffix == [] || resetAfter == {} {
      NoResets(st.suffix, resetAfter);
      return st;
    }
    var foundReset := false;
    var newSuffix: seq<Stmt> := [];
    var i := 0;
    while i < |st.suffix|
      invariant 0 <= i <= |st.suffix|
      invariant foundReset <==> Tail(st.suffix[..i], resetAfter) < i
      invariant foundReset ==> newSuffix == st.suffix[i - Tail(st.suffix[..i], resetAfter)..i]
      invariant !foundReset ==> newSuffix == []
    {
      var stmt := st.suffix[i];
      assert st.suffix[..i + 1] == st.suffix[..i] + [stmt];
      TailAppend(st.suffix[..i], stmt, resetAfter);
      if stmt in resetAfter {
        foundReset := true;
        newSuffix := [];
      } else if foundReset {
        newSuffix := newSuffix + [stmt];
      }
      i := i + 1;
    }
    assert st.suffix[..i] == st.suffix;
    if !foundReset {
      return st;
    }
    var afterCount := |newSuffix|;
    assert afterCount < every && afterCount < |st.suffix|;
    return HaltState(every - afterCount, newSuffix);
  }

  lemma {:induction false} NoResets(suffix: seq<Stmt>, resets: set<Stmt>)
    requires suffix == [] || resets == {}
    ensures !HasReset(suffix, resets)
  {
    TailShape(suffix, resets);
  }

  /** Whether a compensating check on the suffix can raise the countdown to `target`. */
  predicate HasInsertionPoint(st: HaltState, every: nat, target: nat) {
    && st.remaining < target
    && HasCompleteSuffix(st, every)
    && |st.suffix| > every - target
  }

  /** For a complete suffix the last test is implied, so the search for an insertion point cannot fail. */
  lemma InsertionPointExists(st: HaltState, every: nat, target: nat)
    requires st.remaining <= every && target <= every
    ensures HasInsertionPoint(st, every, target) <==> st.remaining < target && HasCompleteSuffix(st, every)
  {
  }

  /** The position in the suffix after which exactly `every - target` safepoints remain. */
  function InsertionIndex(st: HaltState, every: nat, target: nat): nat
    requires target <= every && HasInsertionPoint(st, every, target)
  {
    |st.suffix| - (every - target) - 1
  }

  function CompensatingInsertionSafepoint(st: HaltState, every: nat, target: nat): Stmt
    requires target <= every && HasInsertionPoint(st, every, target)
  {
    st.suffix[InsertionIndex(st, every, target)]
  }

  /**
   After the compensating check the corrected countdown has reached the target; it
   is exactly the target unless the walk met that safepoint again later.
   */
  lemma CompensationReachesTarget(st: HaltState, every: nat, checked: set<Stmt>, resets: set<Stmt>, known: set<Stmt>,
                                  target: nat)
    requires StateOk(st, every, checked, resets, known) && 0 < target <= every
    requires forall s :: s in st.suffix ==> s !in resets
    requires HasInsertionPoint(st, every, target)
    ensures var at := CompensatingInsertionSafepoint(st, every, target);
      var reached := Canonical(st, every, resets + {at}).remaining;
      at in st.suffix && reached >= target
      && (reached == target <==> at !in st.suffix[InsertionIndex(st, every, target) + 1..])
  {
    var i, at := InsertionIndex(st, every, target), CompensatingInsertionSafepoint(st, every, target);
    TailShape(st.suffix, resets + {at});
    TailStopsAt(st.suffix, resets + {at}, i);
    if Tail(st.suffix, resets + {at}) < |st.suffix| - 1 - i {
      var j := |st.suffix| - 1 - Tail(st.suffix, resets + {at});
      assert st.suffix[j] == st.suffix[i + 1..][j - i - 1];
    }
  }

  lemma {:induction false} TailStopsAt(t: seq<Stmt>, checked: set<Stmt>, i: nat)
    requires i < |t| && t[i] in checked
    ensures Tail(t, checked) <= |t| - 1 - i
  {
    if t[|t| - 1] !in checked {
      TailStopsAt(t[..|t| - 1], checked, i);
    }
  }

  /** Correction keeps the ability to reach a target. */
  lemma CanonicalKeepsTarget(st: HaltState, every: nat, checked: set<Stmt>, resets: set<Stmt>, known: set<Stmt>,
                             target: nat)
    requires StateOk(st, every, checked, resets, known) && target <= every
    requires st.remaining >= target || HasInsertionPoint(st, every, target)
    ensures var c := Canonical(st, every, resets); c.remaining >= target || HasInsertionPoint(c, every, target)
  {
    CanonicalOk(st, every, checked, resets, known);
  }

  // ---------------------------------------------------------------------
  // Block halters

  /** Safepoints of a statement list, in order. */
  function SafepointsOf(ir: Ir, stmts: seq<Stmt>): seq<Stmt> {
    if stmts == [] then []
    else
      var last := stmts[|stmts| - 1];
      SafepointsOf(ir, stmts[..|stmts| - 1]) + (if IsSafepoint(ir, last) then [last] else [])
  }

  lemma {:induction false} SafepointsConcat(ir: Ir, a: seq<Stmt>, b: seq<Stmt>)
    ensures SafepointsOf(ir, a + b) == SafepointsOf(ir, a) + SafepointsOf(ir, b)
  {
    if b == [] {
      assert a + b == a;
    } else {
      SafepointsConcat(ir, a, b[..|b| - 1]);
      assert (a + b)[..|a + b| - 1] == a + b[..|b| - 1];
    }
  }

  lemma {:induction false} SafepointsAreSafepoints(ir: Ir, stmts: seq<Stmt>)
    ensures forall s :: s in SafepointsOf(ir, stmts) <==> s in stmts && IsSafepoint(ir, s)
  {
    if stmts != [] {
      SafepointsAreSafepoints(ir, stmts[..|stmts| - 1]);
      assert stmts == stmts[..|stmts| - 1] + [stmts[|stmts| - 1]];
    }
  }

  /** Two programs that agree on the statements agree on their safepoints. */
  lemma {:induction false} SameSafepointsOf(o: Ir, c: Ir, stmts: seq<Stmt>)
    requires o.stmts <= c.stmts && forall s :: s in stmts ==> s < |o.stmts|
    ensures SafepointsOf(o, stmts) == SafepointsOf(c, stmts)
  {
    if stmts != [] {
      var init := stmts[..|stmts| - 1];
      assert stmts[|stmts| - 1] in stmts;
      forall s | s in init ensures s < |o.stmts| {
        assert s in stmts;
      }
      SameSafepointsOf(o, c, init);
    }
  }

  /** A cyclic halter remembers whether the current block had a safepoint; an acyclic one counts down. */
  datatype HalterState =
    | Cyclic(seen: Option<nat>, stateInRemaining: nat)
    | ACyclic(state: HaltState)

  ghost predicate HalterOk(h: HalterState, every: nat) {
    match h
    case Cyclic(_, r) => 0 < r <= every
    case ACyclic(st) => 0 < st.remaining <= every
  }

  function HalterStep(h: HalterState, every: nat, s: Stmt): (HalterState, bool)
    requires h.ACyclic? ==> h.state.remaining > 0
  {
    match h
    case Cyclic(_, r) => (Cyclic(Some(every), r), true)
    case ACyclic(st) => (ACyclic(CountDown(st, every, s).0), CountDown(st, every, s).1)
  }

  ghost function HalterRun(h: HalterState, every: nat, sps: seq<Stmt>): (r: HalterState)
    requires HalterOk(h, every)
    ensures HalterOk(r, every)
  {
    if sps == [] then h else HalterStep(HalterRun(h, every, sps[..|sps| - 1]), every, sps[|sps| - 1]).0
  }

  /** The safepoints after which the halter asks for a halt check. */
  ghost function HalterChecks(h: HalterState, every: nat, sps: seq<Stmt>): set<Stmt>
    requires HalterOk(h, every)
  {
    if sps == [] then {}
    else
      var init, s := sps[..|sps| - 1], sps[|sps| - 1];
      HalterChecks(h, every, init) + (if HalterStep(HalterRun(h, every, init), every, s).1 then {s} else {})
  }

  function HalterTake(h: HalterState): HaltState {
    match h
    case Cyclic(Some(every), _) => FromRemaining(every)
    case Cyclic(None, r) => FromRemaining(r)
    case ACyclic(st) => st
  }

  /** An acyclic halter is the plain countdown. */
  lemma {:induction false} ACyclicRun(st: HaltState, every: nat, sps: seq<Stmt>)
    requires 0 < st.remaining <= every
    ensures HalterRun(ACyclic(st), every, sps) == ACyclic(RunDown(st, every, sps))
    ensures HalterChecks(ACyclic(st), every, sps) == RunChecks(st, every, sps)
  {
    if sps != [] {
      ACyclicRun(st, every, sps[..|sps| - 1]);
    }
  }

  /** A cyclic halter checks every safepoint. */
  lemma {:induction false} CyclicRun(st: HaltState, every: nat, sps: seq<Stmt>)
    requires 0 < st.remaining <= every
    ensures HalterTake(HalterRun(Cyclic(None, st.remaining), every, sps)) == CyclicOut(st, every, sps)
    ensures HalterRun(Cyclic(None, st.remaining), every, sps).Cyclic?
    ensures HalterRun(Cyclic(None, st.remaining), every, sps).stateInRemaining == st.remaining
    ensures forall s :: s in sps <==> s in HalterChecks(Cyclic(None, st.remaining), every, sps)
  {
    if sps != [] {
      CyclicRun(st, every, sps[..|sps| - 1]);
      assert sps == sps[..|sps| - 1] + [sps[|sps| - 1]];
    }
  }

  class BlockHalter {
    const cyclic: bool
    var haltCheckEvery: Option<nat>
    const stateInRemaining: nat
    var state: HaltState

    ghost function View(): HalterState
      reads this
    {
      if cyclic then Cyclic(haltCheckEvery, stateInRemaining) else ACyclic(state)
    }

    constructor (cyclic: bool, stateIn: HaltState)
      ensures View() == if cyclic then Cyclic(None, stateIn.remaining) else ACyclic(stateIn)
      ensures this.cyclic == cyclic
    {
      this.cyclic := cyclic;
      haltCheckEvery, stateInRemaining, state := None, stateIn.remaining, stateIn;
    }

    /** Returns true when a halt check must follow `safepoint`. */
    method ProcessSafepoint(every: nat, safepoint: Stmt) returns (shouldHalt: bool)
      requires HalterOk(View(), every)
      modifies this
      ensures (View(), shouldHalt) == HalterStep(old(View()), every, safepoint)
    {
      if cyclic {
        haltCheckEvery := Some(every);
        return true;
      }
      var newRemaining := state.remaining - 1;
      shouldHalt := newRemaining == 0;
      if shouldHalt {
        state := HaltState(every, []);
      } else {
        var suffix := state.suffix + [safepoint];
        if |suffix| > every {
          suffix := suffix[1..];
        }
        state := HaltState(newRemaining, suffix);
      }
    }

    /** The state at the end of a block; a cyclic halter starts over for its next block. */
    method TakeCurrentState() returns (st: HaltState)
      modifies this
      ensures st == HalterTake(old(View()))
      ensures View() == if cyclic then Cyclic(None, stateInRemaining) else old(View())
    {
      if cyclic {
        var remaining := if haltCheckEvery.Some? then haltCheckEvery.value else stateInRemaining;
        haltCheckEvery := None;
        return FromRemaining(remaining);
      }
      return state;
    }
  }
}
