/**
 Merging the states that arrive at a component.  When the countdowns differ a
 lot, compensating halt checks are placed after earlier safepoints so that the
 merged state can keep the largest countdown.
 */
module HaltStateMerge {
  import opened ExecIr
  import opened Traces
  import opened HaltStateMaps
  import opened HaltCheckInserters
  import opened HaltStates

  /** The safepoints of the blocks in `done`. */
  ghost predicate Known(o: Ir, done: set<Block>, s: Stmt) {
    IsSafepoint(o, s) && exists b: Block, i {:trigger At(o.blocks, b, i, s)} :: b in done && At(o.blocks, b, i, s)
  }

  ghost function KnownSet(o: Ir, done: set<Block>): (known: set<Stmt>)
    ensures forall s {:trigger s in known} :: s in known <==> Known(o, done, s)
  {
    set s: Stmt | s < |o.stmts| && Known(o, done, s)
  }

  /** Checks and resets only grow, and every new check is a reset. */
  ghost predicate Grew(checked0: set<Stmt>, resets0: set<Stmt>, checked: set<Stmt>, resets: set<Stmt>) {
    checked0 <= checked && resets0 <= resets && checked <= checked0 + resets
  }

  lemma StateStaysOk(st: HaltState, every: nat, checked0: set<Stmt>, resets0: set<Stmt>, known: set<Stmt>,
                     checked: set<Stmt>, resets: set<Stmt>)
    requires StateOk(st, every, checked0, resets0, known) && Grew(checked0, resets0, checked, resets)
    ensures StateOk(st, every, checked, resets, known)
  {
  }

  /** Blocks outside `done` keep their last piece. */
  ghost predicate LastsSameOutside(before: seq<Block>, after: seq<Block>, done: set<Block>) {
    |after| == |before| && forall a: Block {:trigger after[a]} :: a < |after| && a !in done ==> after[a] == before[a]
  }

  lemma OnlyDoneChanged(o: Ir, before: seq<Block>, after: seq<Block>, at: Stmt, done: set<Block>)
    requires WellFormedIr(o) && Known(o, done, at) && LastsSameBut(o, before, after, at)
    ensures LastsSameOutside(before, after, done)
  {
    forall a: Block {:trigger after[a]} | a < |after| && a !in done ensures after[a] == before[a] {
      if at in o.blocks[a].stmts {
        OnlyPlacedInDone(o, done, at, a);
      }
    }
  }

  lemma OnlyPlacedInDone(o: Ir, done: set<Block>, s: Stmt, a: Block)
    requires WellFormedIr(o) && Known(o, done, s) && a < |o.blocks| && s in o.blocks[a].stmts
    ensures a in done
  {
    var j :| 0 <= j < |o.blocks[a].stmts| && o.blocks[a].stmts[j] == s;
    assert At(o.blocks, a, j, s);
  }

  lemma KnownIsRecorded(o: Ir, loc: Locations, done: set<Block>, s: Stmt)
    requires AllRecorded(o, loc) && Known(o, done, s)
    ensures s in loc
  {
    var b: Block, i :| b in done && At(o.blocks, b, i, s);
  }

  /** What may have happened to the inserter while compensating checks were placed. */
  twostate predicate Compensated(inserter: HaltCheckInserter, done: set<Block>)
    reads inserter
  {
    && Grew(old(inserter.checked), old(inserter.semanticResetAfter), inserter.checked, inserter.semanticResetAfter)
    && LastsSameOutside(old(inserter.last), inserter.last, done)
    && inserter.safepointLoc.Keys == old(inserter.safepointLoc.Keys)
  }

  /** The countdown of the state can be raised to `target`, if it is not there yet. */
  predicate CanReach(st: HaltState, every: nat, target: nat) {
    st.remaining >= target || HasInsertionPoint(st, every, target)
  }

  /** Raises the countdown of a corrected state to at least `target`. */
  method InsertCompensatingCheck(st: HaltState, inserter: HaltCheckInserter, every: nat, target: nat,
                                 ghost done: set<Block>, ghost known: set<Stmt>)
    returns (result: HaltState)
    requires inserter.Valid() && known == KnownSet(inserter.o, done) && 0 < target <= every
    requires StateOk(st, every, inserter.checked, inserter.semanticResetAfter, known) && CanReach(st, every, target)
    requires forall s :: s in st.suffix ==> s !in inserter.checked
    modifies inserter`safepointLoc, inserter`origin, inserter`last, inserter`checked, inserter`semanticResetAfter
    modifies inserter.ir, inserter.edges
    ensures inserter.Valid() && Compensated(inserter, done)
    ensures result.remaining >= target
    ensures inserter.semanticResetAfter == old(inserter.semanticResetAfter) + RaisingCheck(st, every, target)
    ensures inserter.checked == old(inserter.checked) + RaisingCheck(st, every, target)
    ensures StateOk(result, every, inserter.checked, inserter.semanticResetAfter, known)
    ensures Weakens(st, old(inserter.checked), result, inserter.checked, every)
  {
    if st.remaining >= target {
      return st;
    }
    ghost var checked0, resets0 := inserter.checked, inserter.semanticResetAfter;
    var insertionSafepoint := CompensatingInsertionSafepoint(st, every, target);
    CompensationReachesTarget(st, every, checked0, resets0, known, target);
    KnownIsRecorded(inserter.o, inserter.safepointLoc, done, insertionSafepoint);
    var _ := inserter.InsertCompensatingHaltCheckAfterSafepoint(insertionSafepoint);
    OnlyDoneChanged(inserter.o, old(inserter.last), inserter.last, insertionSafepoint, done);
    ghost var checked, resets := inserter.checked, inserter.semanticResetAfter;
    StateStaysOk(st, every, checked0, resets0, known, checked, resets);
    CanonicalOk(st, every, checked, resets, known);
    MoreChecks(st, every, checked0, checked);
    CanonicalWeakens(st, every, checked, resets);
    WeakensTrans(st, checked0, st, checked, Canonical(st, every, resets), checked, every);
    result := CanonicalizeAgainstResets(st, every, inserter.semanticResetAfter);
  }

  function MinRemaining(states: seq<HaltState>): (lo: nat)
    requires states != []
    ensures forall i :: 0 <= i < |states| ==> lo <= states[i].remaining
    ensures exists i :: 0 <= i < |states| && lo == states[i].remaining
  {
    if |states| == 1 then states[0].remaining
    else
      var rest := MinRemaining(states[1..]);
      assert exists i :: 0 <= i < |states[1..]| && states[1..][i].remaining == rest;
      if states[0].remaining <= rest then states[0].remaining else rest
  }

  function MaxRemaining(states: seq<HaltState>): (hi: nat)
    requires states != []
    ensures forall i :: 0 <= i < |states| ==> hi >= states[i].remaining
    ensures exists i :: 0 <= i < |states| && hi == states[i].remaining
  {
    if |states| == 1 then states[0].remaining
    else
      var rest := MaxRemaining(states[1..]);
      assert exists i :: 0 <= i < |states[1..]| && states[1..][i].remaining == rest;
      if states[0].remaining >= rest then states[0].remaining else rest
  }

  ghost predicate AllOk(states: seq<HaltState>, every: nat, checked: set<Stmt>, resets: set<Stmt>, known: set<Stmt>) {
    forall i {:trigger states[i]} :: 0 <= i < |states| ==> StateOk(states[i], every, checked, resets, known)
  }

  /** State `i` of `now` weakens state `i` of `was`. */
  ghost predicate WeakensAt(was: seq<HaltState>, checked0: set<Stmt>, now: seq<HaltState>, checked: set<Stmt>,
                            every: nat, i: nat)
    requires i < |was| == |now|
  {
    Weakens(was[i], checked0, now[i], checked, every)
  }

  ghost predicate AllWeakened(was: seq<HaltState>, checked0: set<Stmt>, now: seq<HaltState>, checked: set<Stmt>,
                              every: nat)
  {
    |was| == |now| && forall i: nat {:trigger WeakensAt(was, checked0, now, checked, every, i)} :: i < |was| ==>
      WeakensAt(was, checked0, now, checked, every, i)
  }

  /** Every state of `was` is weakened by the one state `merged`. */
  ghost predicate MergedFrom(was: seq<HaltState>, checked0: set<Stmt>, merged: HaltState, checked: set<Stmt>,
                             every: nat) {
    forall i {:trigger was[i]} :: 0 <= i < |was| ==> Weakens(was[i], checked0, merged, checked, every)
  }

  lemma ForgetAll(was: seq<HaltState>, checked0: set<Stmt>, now: seq<HaltState>, checked: set<Stmt>, every: nat,
                  remaining: nat)
    requires AllWeakened(was, checked0, now, checked, every)
    requires 0 < remaining && forall i :: 0 <= i < |now| ==> remaining <= now[i].remaining
    ensures MergedFrom(was, checked0, FromRemaining(remaining), checked, every)
  {
    forall i: nat {:trigger was[i]} | i < |was|
      ensures Weakens(was[i], checked0, FromRemaining(remaining), checked, every)
    {
      assert WeakensAt(was, checked0, now, checked, every, i);
      Forget(now[i], every, checked, remaining);
      WeakensTrans(was[i], checked0, now[i], checked, FromRemaining(remaining), checked, every);
    }
  }

  ghost function CanonicalStates(states: seq<HaltState>, every: nat, resets: set<Stmt>): (r: seq<HaltState>)
    requires forall i :: 0 <= i < |states| ==> |states[i].suffix| + states[i].remaining <= every
    ensures |r| == |states|
  {
    seq(|states|, i requires 0 <= i < |states| => Canonical(states[i], every, resets))
  }

  /** Corrects every state against the resets inserted so far. */
  method CanonicalizeAll(incoming: seq<HaltState>, every: nat, resets: set<Stmt>, ghost checked: set<Stmt>,
                         ghost known: set<Stmt>)
    returns (states: seq<HaltState>)
    requires resets <= checked && AllOk(incoming, every, checked, resets, known)
    ensures states == CanonicalStates(incoming, every, resets)
    ensures AllWeakened(incoming, checked, states, checked, every)
    ensures AllOk(states, every, checked, resets, known)
    ensures forall i, s :: 0 <= i < |states| && s in states[i].suffix ==> s !in checked
  {
    states := [];
    for i := 0 to |incoming|
      invariant states == CanonicalStates(incoming[..i], every, resets)
      invariant AllWeakened(incoming[..i], checked, states, checked, every)
      invariant AllOk(states, every, checked, resets, known)
      invariant forall j, s :: 0 <= j < i && s in states[j].suffix ==> s !in checked
    {
      CanonicalOk(incoming[i], every, checked, resets, known);
      CanonicalWeakens(incoming[i], every, checked, resets);
      var st := CanonicalizeAgainstResets(incoming[i], every, resets);
      AllWeakenedAppend(incoming[..i], checked, states, checked, every, incoming[i], st);
      assert incoming[..i + 1][..i] == incoming[..i];
      assert incoming[..i] + [incoming[i]] == incoming[..i + 1];
      states := states + [st];
    }
    assert incoming[..|incoming|] == incoming;
  }

  lemma AllWeakenedAppend(was: seq<HaltState>, checked0: set<Stmt>, now: seq<HaltState>, checked: set<Stmt>,
                          every: nat, a: HaltState, b: HaltState)
    requires AllWeakened(was, checked0, now, checked, every) && Weakens(a, checked0, b, checked, every)
    ensures AllWeakened(was + [a], checked0, now + [b], checked, every)
  {
    forall i: nat {:trigger WeakensAt(was + [a], checked0, now + [b], checked, every, i)} | i < |was| + 1
      ensures WeakensAt(was + [a], checked0, now + [b], checked, every, i)
    {
      if i < |was| {
        assert WeakensAt(was, checked0, now, checked, every, i);
      }
    }
  }

  lemma AllWeakenedUpdate(was: seq<HaltState>, checked0: set<Stmt>, now: seq<HaltState>, before: set<Stmt>,
                          checked: set<Stmt>, every: nat, i: nat, st: HaltState)
    requires AllWeakened(was, checked0, now, before, every) && before <= checked
    requires i < |now| && Weakens(now[i], before, st, checked, every)
    ensures AllWeakened(was, checked0, now[i := st], checked, every)
  {
    var next := now[i := st];
    forall j: nat {:trigger WeakensAt(was, checked0, next, checked, every, j)} | j < |was|
      ensures WeakensAt(was, checked0, next, checked, every, j)
    {
      assert WeakensAt(was, checked0, now, before, every, j);
      MoreChecks(now[j], every, before, checked);
      WeakensTrans(was[j], checked0, now[j], before, next[j], checked, every);
    }
  }

  /** The states from position `i` on can still be raised to `target`; those before are there. */
  ghost predicate Normalizing(states: seq<HaltState>, every: nat, target: nat, i: nat) {
    && (forall j :: 0 <= j < i && j < |states| ==> states[j].remaining >= target)
    && (forall j :: i <= j < |states| ==> CanReach(states[j], every, target))
  }

  ghost predicate AllFit(states: seq<HaltState>, every: nat) {
    forall i {:trigger states[i]} :: 0 <= i < |states| ==>
      0 < states[i].remaining && |states[i].suffix| + states[i].remaining <= every
  }

  /** The check that raises a corrected state to `target`, if it needs one. */
  function RaisingCheck(st: HaltState, every: nat, target: nat): set<Stmt>
    requires target <= every
  {
    if HasInsertionPoint(st, every, target) then {CompensatingInsertionSafepoint(st, every, target)} else {}
  }

  /** The resets once the first `n` states have been raised to `target`, each corrected against the earlier ones. */
  ghost function RaisedResets(states: seq<HaltState>, every: nat, target: nat, resets: set<Stmt>, n: nat): set<Stmt>
    requires AllFit(states, every) && n <= |states| && target <= every
  {
    if n == 0 then resets
    else
      var before := RaisedResets(states, every, target, resets, n - 1);
      before + RaisingCheck(Canonical(states[n - 1], every, before), every, target)
  }

  /** The first `i` states have been raised to `target`; the others are as they came. */
  ghost predicate RaisedTo(incoming: seq<HaltState>, states: seq<HaltState>, every: nat, target: nat, i: nat,
                           checked0: set<Stmt>, resets0: set<Stmt>, checked: set<Stmt>, resets: set<Stmt>,
                           known: set<Stmt>)
  {
    && i <= |incoming| == |states| && AllFit(incoming, every) && target <= every
    && AllWeakened(incoming, checked0, states, checked, every)
    && AllOk(states, every, checked, resets, known)
    && Normalizing(states, every, target, i)
    && (forall j :: i <= j < |states| ==> states[j] == incoming[j])
    && resets0 <= checked0 && resets == RaisedResets(incoming, every, target, resets0, i)
    && checked == checked0 + resets
  }

  lemma NothingRaised(incoming: seq<HaltState>, every: nat, target: nat, checked: set<Stmt>, resets: set<Stmt>,
                      known: set<Stmt>)
    requires AllOk(incoming, every, checked, resets, known) && Normalizing(incoming, every, target, 0)
    requires target <= every && resets <= checked
    ensures RaisedTo(incoming, incoming, every, target, 0, checked, resets, checked, resets, known)
  {
    Unchanged(incoming, checked, every);
  }

  /** The next state, corrected against the checks placed so far, can still be raised. */
  lemma ReadyToRaise(incoming: seq<HaltState>, states: seq<HaltState>, every: nat, target: nat, i: nat,
                     checked0: set<Stmt>, resets0: set<Stmt>, checked: set<Stmt>, resets: set<Stmt>, known: set<Stmt>)
    requires RaisedTo(incoming, states, every, target, i, checked0, resets0, checked, resets, known)
    requires i < |states|
    ensures |states[i].suffix| + states[i].remaining <= every
    ensures var st := Canonical(states[i], every, resets);
      && StateOk(st, every, checked, resets, known) && CanReach(st, every, target)
      && (forall s :: s in st.suffix ==> s !in checked)
      && Weakens(states[i], checked, st, checked, every)
  {
    CanonicalOk(states[i], every, checked, resets, known);
    CanonicalWeakens(states[i], every, checked, resets);
    CanonicalKeepsTarget(states[i], every, checked, resets, known, target);
  }

  lemma RaisedOneMore(incoming: seq<HaltState>, states: seq<HaltState>, every: nat, target: nat, i: nat,
                      checked0: set<Stmt>, resets0: set<Stmt>, checked: set<Stmt>, resets: set<Stmt>,
                      known: set<Stmt>, raised: HaltState, moreChecked: set<Stmt>, moreResets: set<Stmt>)
    requires RaisedTo(incoming, states, every, target, i, checked0, resets0, checked, resets, known)
    requires i < |states| && |states[i].suffix| + states[i].remaining <= every
    requires Weakens(states[i], checked, raised, moreChecked, every) && raised.remaining >= target
    requires StateOk(raised, every, moreChecked, moreResets, known)
    requires var st := Canonical(states[i], every, resets);
      && moreResets == resets + RaisingCheck(st, every, target)
      && moreChecked == checked + RaisingCheck(st, every, target)
    ensures RaisedTo(incoming, states[i := raised], every, target, i + 1, checked0, resets0, moreChecked, moreResets,
                     known)
  {
    AllWeakenedUpdate(incoming, checked0, states, checked, moreChecked, every, i, raised);
    var next := states[i := raised];
    forall j {:trigger next[j]} | 0 <= j < |next| ensures StateOk(next[j], every, moreChecked, moreResets, known) {
      if j != i {
        StateStaysOk(states[j], every, checked, resets, known, moreChecked, moreResets);
      }
    }
  }

  /** Brings every state up to `target`.  The first one is already corrected. */
  method Normalize(incoming: seq<HaltState>, inserter: HaltCheckInserter, every: nat, target: nat,
                   ghost done: set<Block>, ghost known: set<Stmt>)
    returns (states: seq<HaltState>)
    requires inserter.Valid() && known == KnownSet(inserter.o, done) && 0 < target <= every
    requires AllOk(incoming, every, inserter.checked, inserter.semanticResetAfter, known)
    requires Normalizing(incoming, every, target, 0)
    requires forall i, s :: 0 <= i < |incoming| && s in incoming[i].suffix ==> s !in inserter.checked
    modifies inserter`safepointLoc, inserter`origin, inserter`last, inserter`checked, inserter`semanticResetAfter
    modifies inserter.ir, inserter.edges
    ensures inserter.Valid() && Compensated(inserter, done)
    ensures AllWeakened(incoming, old(inserter.checked), states, inserter.checked, every)
    ensures forall i :: 0 <= i < |states| ==> states[i].remaining >= target
    ensures AllFit(incoming, every)
    ensures inserter.semanticResetAfter
      == RaisedResets(incoming, every, target, old(inserter.semanticResetAfter), |incoming|)
    ensures inserter.checked == old(inserter.checked) + inserter.semanticResetAfter
  {
    states := incoming;
    ghost var checked0, resets0 := inserter.checked, inserter.semanticResetAfter;
    NothingRaised(incoming, every, target, checked0, resets0, known);
    for i := 0 to |incoming|
      invariant inserter.Valid() && Compensated(inserter, done)
      invariant RaisedTo(incoming, states, every, target, i, checked0, resets0, inserter.checked,
                         inserter.semanticResetAfter, known)
    {
      ghost var checked, resets := inserter.checked, inserter.semanticResetAfter;
      ReadyToRaise(incoming, states, every, target, i, checked0, resets0, checked, resets, known);
      var st := states[i];
      if i != 0 {
        st := CanonicalizeAgainstResets(st, every, inserter.semanticResetAfter);
      } else {
        FreeOfResets(st, every, inserter.semanticResetAfter);
      }
      var raised := InsertCompensatingCheck(st, inserter, every, target, done, known);
      WeakensTrans(states[i], checked, st, checked, raised, inserter.checked, every);
      RaisedOneMore(incoming, states, every, target, i, checked0, resets0, checked, resets, known, raised,
                    inserter.checked, inserter.semanticResetAfter);
      states := states[i := raised];
    }
  }

  /** A state whose suffix holds no reset is corrected already. */
  lemma FreeOfResets(st: HaltState, every: nat, resets: set<Stmt>)
    requires |st.suffix| + st.remaining <= every && forall s :: s in st.suffix ==> s !in resets
    ensures Canonical(st, every, resets) == st
  {
    TailShape(st.suffix, resets);
  }

  predicate CanNormalize(states: seq<HaltState>, every: nat, target: nat) {
    forall i :: 0 <= i < |states| ==> CanReach(states[i], every, target)
  }

  /** Whether the countdowns differ so much that every state is to be raised to the largest, and can be. */
  predicate Raises(states: seq<HaltState>, every: nat) {
    |states| > 1
    && MaxRemaining(states) - MinRemaining(states) > (every + 1) / 2
    && CanNormalize(states, every, MaxRemaining(states))
  }

  /** Several corrected states: all raised to the largest countdown, or cut down to the smallest. */
  ghost predicate SeveralRule(states: seq<HaltState>, every: nat, resets0: set<Stmt>, merged: HaltState,
                              resets: set<Stmt>)
    requires |states| > 1 && AllFit(states, every)
  {
    if Raises(states, every) then
      var hi := MaxRemaining(states);
      merged == FromRemaining(hi) && hi <= every && resets == RaisedResets(states, every, hi, resets0, |states|)
    else merged == FromRemaining(MinRemaining(states)) && resets == resets0
  }

  /** What merging gives: the one state, and the resets with the compensating checks it takes. */
  ghost predicate MergeRule(incoming: seq<HaltState>, every: nat, resets0: set<Stmt>, merged: HaltState,
                            resets: set<Stmt>)
  {
    && AllFit(incoming, every)
    && var states := CanonicalStates(incoming, every, resets0);
       if |states| == 0 then merged == FromRemaining(every) && resets == resets0
       else if |states| == 1 then merged == states[0] && resets == resets0
       else AllFit(states, every) && SeveralRule(states, every, resets0, merged, resets)
  }

  /** One state that covers every walk the incoming states cover. */
  method MergeHaltStates(inserter: HaltCheckInserter, every: nat, incoming: seq<HaltState>, ghost done: set<Block>,
                         ghost known: set<Stmt>)
    returns (merged: HaltState)
    requires inserter.Valid() && known == KnownSet(inserter.o, done) && every > 0
    requires AllOk(incoming, every, inserter.checked, inserter.semanticResetAfter, known)
    modifies inserter`safepointLoc, inserter`origin, inserter`last, inserter`checked, inserter`semanticResetAfter
    modifies inserter.ir, inserter.edges
    ensures inserter.Valid() && Compensated(inserter, done)
    ensures StateOk(merged, every, inserter.checked, inserter.semanticResetAfter, known)
    ensures MergedFrom(incoming, old(inserter.checked), merged, inserter.checked, every)
    ensures MergeRule(incoming, every, old(inserter.semanticResetAfter), merged, inserter.semanticResetAfter)
    ensures inserter.checked == old(inserter.checked) + inserter.semanticResetAfter
  {
    var states := CanonicalizeAll(incoming, every, inserter.semanticResetAfter, inserter.checked, known);
    if |states| == 0 {
      return FromRemaining(every);
    }
    if |states| == 1 {
      assert WeakensAt(incoming, inserter.checked, states, inserter.checked, every, 0);
      return states[0];
    }
    ghost var checked0 := inserter.checked;
    merged := MergeSeveral(inserter, every, states, done, known);
    MergedAfter(incoming, checked0, states, checked0, merged, inserter.checked, every);
  }

  /** Several corrected states become one without history. */
  method MergeSeveral(inserter: HaltCheckInserter, every: nat, states: seq<HaltState>, ghost done: set<Block>,
                      ghost known: set<Stmt>)
    returns (merged: HaltState)
    requires inserter.Valid() && known == KnownSet(inserter.o, done) && every > 0 && |states| > 1
    requires AllOk(states, every, inserter.checked, inserter.semanticResetAfter, known)
    requires forall i, s :: 0 <= i < |states| && s in states[i].suffix ==> s !in inserter.checked
    modifies inserter`safepointLoc, inserter`origin, inserter`last, inserter`checked, inserter`semanticResetAfter
    modifies inserter.ir, inserter.edges
    ensures inserter.Valid() && Compensated(inserter, done)
    ensures StateOk(merged, every, inserter.checked, inserter.semanticResetAfter, known)
    ensures MergedFrom(states, old(inserter.checked), merged, inserter.checked, every)
    ensures AllFit(states, every)
    ensures SeveralRule(states, every, old(inserter.semanticResetAfter), merged, inserter.semanticResetAfter)
    ensures inserter.checked == old(inserter.checked) + inserter.semanticResetAfter
  {
    var lo, hi := MinRemaining(states), MaxRemaining(states);
    Unchanged(states, inserter.checked, every);
    var threshold := (every + 1) / 2;
    if hi - lo > threshold {
      var target := hi;
      if CanNormalize(states, every, target) {
        var raised := Normalize(states, inserter, every, target, done, known);
        ForgetAll(states, old(inserter.checked), raised, inserter.checked, every, hi);
        return FromRemaining(hi);
      }
    }
    ForgetAll(states, inserter.checked, states, inserter.checked, every, lo);
    return FromRemaining(lo);
  }

  lemma Unchanged(states: seq<HaltState>, checked: set<Stmt>, every: nat)
    ensures AllWeakened(states, checked, states, checked, every)
  {
    forall i: nat {:trigger WeakensAt(states, checked, states, checked, every, i)} | i < |states|
      ensures WeakensAt(states, checked, states, checked, every, i)
    {
    }
  }

  lemma MergedAfter(was: seq<HaltState>, checked0: set<Stmt>, now: seq<HaltState>, checked1: set<Stmt>,
                    merged: HaltState, checked: set<Stmt>, every: nat)
    requires AllWeakened(was, checked0, now, checked1, every) && MergedFrom(now, checked1, merged, checked, every)
    ensures MergedFrom(was, checked0, merged, checked, every)
  {
    forall i: nat {:trigger was[i]} | i < |was| ensures Weakens(was[i], checked0, merged, checked, every) {
      assert WeakensAt(was, checked0, now, checked1, every, i);
      WeakensTrans(was[i], checked0, now[i], checked1, merged, checked, every);
    }
  }
}
