/**
 Safepoint traces and the countdown states that summarise them.  A trace is the
 list of safepoints met along a walk; a safepoint is `checked` when a halt
 check follows it immediately.
 */
module Traces {
  import opened ExecIr

  /** The number of trailing safepoints of `t` since the last checked one. */
  function Tail(t: seq<Stmt>, checked: set<Stmt>): (n: nat)
    ensures n <= |t|
  {
    if t == [] then 0
    else if t[|t| - 1] in checked then 0
    else 1 + Tail(t[..|t| - 1], checked)
  }

  /** No prefix of `t` ends in `every` unchecked safepoints. */
  ghost predicate Bounded(t: seq<Stmt>, checked: set<Stmt>, every: nat) {
    forall k {:trigger t[..k]} :: 0 <= k <= |t| ==> Tail(t[..k], checked) < every
  }

  lemma TailAppend(t: seq<Stmt>, s: Stmt, checked: set<Stmt>)
    ensures Tail(t + [s], checked) == if s in checked then 0 else 1 + Tail(t, checked)
  {
    assert (t + [s])[..|t|] == t;
  }

  lemma {:induction false} TailConcat(a: seq<Stmt>, b: seq<Stmt>, checked: set<Stmt>)
    ensures Tail(a + b, checked) == if Tail(b, checked) < |b| then Tail(b, checked) else |b| + Tail(a, checked)
  {
    if b == [] {
      assert a + b == a;
    } else {
      var init := b[..|b| - 1];
      assert (a + b)[..|a + b| - 1] == a + init;
      TailConcat(a, init, checked);
    }
  }

  lemma {:induction false} TailMono(t: seq<Stmt>, checked: set<Stmt>, more: set<Stmt>)
    requires checked <= more
    ensures Tail(t, more) <= Tail(t, checked)
  {
    if t != [] {
      TailMono(t[..|t| - 1], checked, more);
    }
  }

  /** The trailing part counted by `Tail` holds no checked safepoint, and what precedes it ends in one. */
  lemma {:induction false} TailShape(t: seq<Stmt>, checked: set<Stmt>)
    ensures var n := Tail(t, checked);
      && (forall i :: |t| - n <= i < |t| ==> t[i] !in checked)
      && (n < |t| ==> t[|t| - n - 1] in checked)
  {
    if t != [] && t[|t| - 1] !in checked {
      TailShape(t[..|t| - 1], checked);
    }
  }

  lemma BoundedMono(t: seq<Stmt>, checked: set<Stmt>, more: set<Stmt>, every: nat)
    requires Bounded(t, checked, every) && checked <= more
    ensures Bounded(t, more, every)
  {
    forall k {:trigger t[..k]} | 0 <= k <= |t| ensures Tail(t[..k], more) < every {
      TailMono(t[..k], checked, more);
    }
  }

  lemma BoundedAppend(t: seq<Stmt>, s: Stmt, checked: set<Stmt>, every: nat)
    requires Bounded(t, checked, every) && Tail(t + [s], checked) < every
    ensures Bounded(t + [s], checked, every)
  {
    var u := t + [s];
    forall k {:trigger u[..k]} | 0 <= k <= |u| ensures Tail(u[..k], checked) < every {
      if k <= |t| {
        assert u[..k] == t[..k];
      } else {
        assert u[..k] == u;
      }
    }
  }

  /** In a bounded trace every window of `every` consecutive safepoints holds a checked one. */
  lemma BoundedWindow(t: seq<Stmt>, checked: set<Stmt>, every: nat, i: nat)
    requires Bounded(t, checked, every) && i + every <= |t| && every > 0
    ensures exists j :: i <= j < i + every && t[j] in checked
  {
    var u := t[..i + every];
    TailShape(u, checked);
    var n := Tail(u, checked);
    assert u[|u| - n - 1] == t[|u| - n - 1];
  }

  // ---------------------------------------------------------------------
  // Countdown states

  /**
   After `remaining` more safepoints a halt check is due.  `suffix` lists the
   latest safepoints of the walk, as far back as they are known.
   */
  datatype HaltState = HaltState(remaining: nat, suffix: seq<Stmt>)

  function FromRemaining(remaining: nat): HaltState {
    HaltState(remaining, [])
  }

  predicate HasCompleteSuffix(st: HaltState, every: nat) {
    |st.suffix| == every - st.remaining
  }

  /** One of the two lists is a suffix of the other. */
  ghost predicate Agree(suffix: seq<Stmt>, t: seq<Stmt>) {
    if |suffix| <= |t| then t[|t| - |suffix|..] == suffix else suffix[|suffix| - |t|..] == t
  }

  /** What a state says about a walk with safepoint trace `t`. */
  ghost predicate Covers(st: HaltState, every: nat, checked: set<Stmt>, t: seq<Stmt>) {
    && 0 < st.remaining <= every
    && Tail(t, checked) + st.remaining <= every
    && Agree(st.suffix, t)
  }

  /** Sanity of a state on its own; `known` are the safepoints whose position is recorded. */
  ghost predicate StateOk(st: HaltState, every: nat, checked: set<Stmt>, resets: set<Stmt>, known: set<Stmt>) {
    && 0 < st.remaining <= every
    && |st.suffix| + st.remaining <= every
    && (forall s :: s in st.suffix ==> s in known)
    && (forall s :: s in st.suffix && s in checked ==> s in resets)
  }

  /** Whatever `st` covers under `checked`, `weaker` covers under `more`. */
  ghost predicate Weakens(st: HaltState, checked: set<Stmt>, weaker: HaltState, more: set<Stmt>, every: nat) {
    forall t {:trigger Covers(st, every, checked, t)} :: Covers(st, every, checked, t) ==>
        Covers(weaker, every, more, t)
  }

  lemma WeakensTrans(a: HaltState, checkedA: set<Stmt>, b: HaltState, checkedB: set<Stmt>, c: HaltState,
                     checkedC: set<Stmt>, every: nat)
    requires Weakens(a, checkedA, b, checkedB, every) && Weakens(b, checkedB, c, checkedC, every)
    ensures Weakens(a, checkedA, c, checkedC, every)
  {
  }

  /** Adding halt checks never invalidates a state. */
  lemma MoreChecks(st: HaltState, every: nat, checked: set<Stmt>, more: set<Stmt>)
    requires checked <= more
    ensures Weakens(st, checked, st, more, every)
  {
    forall t {:trigger Covers(st, every, checked, t)} | Covers(st, every, checked, t)
      ensures Covers(st, every, more, t)
    {
      TailMono(t, checked, more);
    }
  }

  /** A smaller countdown without history is always a safe summary. */
  lemma Forget(st: HaltState, every: nat, checked: set<Stmt>, remaining: nat)
    requires 0 < remaining <= st.remaining
    ensures Weakens(st, checked, FromRemaining(remaining), checked, every)
  {
  }

  lemma FreshCovers(st: HaltState, every: nat, checked: set<Stmt>)
    requires 0 < st.remaining <= every
    ensures Covers(st, every, checked, [])
  {
  }

  // ---------------------------------------------------------------------
  // Lazy correction against compensating checks

  predicate HasReset(suffix: seq<Stmt>, resets: set<Stmt>) {
    Tail(suffix, resets) < |suffix|
  }

  /** The state seen after the latest compensating check on its suffix. */
  function Canonical(st: HaltState, every: nat, resets: set<Stmt>): HaltState
    requires |st.suffix| + st.remaining <= every
  {
    if HasReset(st.suffix, resets)
    then HaltState(every - Tail(st.suffix, resets), st.suffix[|st.suffix| - Tail(st.suffix, resets)..])
    else st
  }

  /** Correction only ever raises the countdown, and its suffix is free of resets. */
  lemma CanonicalOk(st: HaltState, every: nat, checked: set<Stmt>, resets: set<Stmt>, known: set<Stmt>)
    requires StateOk(st, every, checked, resets, known)
    ensures var c := Canonical(st, every, resets);
      && StateOk(c, every, checked, resets, known)
      && c.remaining >= st.remaining
      && (HasReset(st.suffix, resets) ==> c.remaining > st.remaining && HasCompleteSuffix(c, every))
      && (HasCompleteSuffix(st, every) ==> HasCompleteSuffix(c, every))
      && forall s :: s in c.suffix ==> s !in resets && s !in checked
  {
    TailShape(st.suffix, resets);
    var c := Canonical(st, every, resets);
    forall s | s in c.suffix ensures s in st.suffix && s !in resets {
      if HasReset(st.suffix, resets) {
        var i :| 0 <= i < |c.suffix| && c.suffix[i] == s;
        assert s == st.suffix[|st.suffix| - Tail(st.suffix, resets) + i];
      }
    }
  }

  /** Correction is sound: a reset on the suffix really is a halt check on every covered walk. */
  lemma CanonicalWeakens(st: HaltState, every: nat, checked: set<Stmt>, resets: set<Stmt>)
    requires |st.suffix| + st.remaining <= every && st.remaining > 0 && resets <= checked
    ensures Weakens(st, checked, Canonical(st, every, resets), checked, every)
  {
    var c := Canonical(st, every, resets);
    if HasReset(st.suffix, resets) {
      forall t {:trigger Covers(st, every, checked, t)} | Covers(st, every, checked, t)
        ensures Covers(c, every, checked, t)
      {
        CanonicalCovers(st, every, checked, resets, t);
      }
    }
  }

  /** A shorter suffix agrees with all the walks the longer one agrees with. */
  lemma AgreeShrink(suffix: seq<Stmt>, t: seq<Stmt>, n: nat)
    requires Agree(suffix, t) && n <= |suffix|
    ensures Agree(suffix[|suffix| - n..], t)
  {
    if |suffix| <= |t| {
      assert t[|t| - n..] == t[|t| - |suffix|..][|suffix| - n..];
    } else if n <= |t| {
      assert suffix[|suffix| - n..] == suffix[|suffix| - |t|..][|t| - n..];
    } else {
      assert suffix[|suffix| - n..][n - |t|..] == suffix[|suffix| - |t|..];
    }
  }

  /** The longer of the two ends in the other. */
  lemma AgreeSplit(suffix: seq<Stmt>, t: seq<Stmt>) returns (before: seq<Stmt>)
    requires Agree(suffix, t)
    ensures if |suffix| <= |t| then t == before + suffix else suffix == before + t
  {
    before := if |suffix| <= |t| then t[..|t| - |suffix|] else suffix[..|suffix| - |t|];
  }

  /** A reset within the suffix bounds the unchecked tail of every walk it agrees with. */
  lemma AgreeTail(suffix: seq<Stmt>, t: seq<Stmt>, resets: set<Stmt>)
    requires Agree(suffix, t) && Tail(suffix, resets) < |suffix|
    ensures Tail(t, resets) <= Tail(suffix, resets)
  {
    var before := AgreeSplit(suffix, t);
    if |suffix| <= |t| {
      TailConcat(before, suffix, resets);
    } else {
      TailConcat(before, t, resets);
    }
  }

  lemma CanonicalCovers(st: HaltState, every: nat, checked: set<Stmt>, resets: set<Stmt>, t: seq<Stmt>)
    requires |st.suffix| + st.remaining <= every && resets <= checked && HasReset(st.suffix, resets)
    requires Covers(st, every, checked, t)
    ensures Covers(Canonical(st, every, resets), every, checked, t)
  {
    AgreeTail(st.suffix, t, resets);
    TailMono(t, resets, checked);
    AgreeShrink(st.suffix, t, Tail(st.suffix, resets));
  }

  // ---------------------------------------------------------------------
  // The countdown over a list of safepoints

  /** One safepoint of an acyclic block: count down, or insert a check and start over. */
  function CountDown(st: HaltState, every: nat, s: Stmt): (HaltState, bool)
    requires st.remaining > 0
  {
    if st.remaining == 1 then (FromRemaining(every), true)
    else
      var grown := st.suffix + [s];
      (HaltState(st.remaining - 1, if |grown| > every then grown[1..] else grown), false)
  }

  /** The state after a list of safepoints. */
  function RunDown(st: HaltState, every: nat, sps: seq<Stmt>): (r: HaltState)
    requires 0 < st.remaining <= every
    ensures 0 < r.remaining <= every
  {
    if sps == [] then st else CountDown(RunDown(st, every, sps[..|sps| - 1]), every, sps[|sps| - 1]).0
  }

  /** The safepoints of the list that get a halt check. */
  function RunChecks(st: HaltState, every: nat, sps: seq<Stmt>): set<Stmt>
    requires 0 < st.remaining <= every
  {
    if sps == [] then {}
    else
      var init, s := sps[..|sps| - 1], sps[|sps| - 1];
      RunChecks(st, every, init) + (if CountDown(RunDown(st, every, init), every, s).1 then {s} else {})
  }

  lemma AgreeAppend(suffix: seq<Stmt>, t: seq<Stmt>, s: Stmt)
    requires Agree(suffix, t)
    ensures Agree(suffix + [s], t + [s])
  {
  }

  lemma CountDownCovers(st: HaltState, every: nat, checked: set<Stmt>, s: Stmt, t: seq<Stmt>)
    requires Covers(st, every, checked, t) && |st.suffix| + st.remaining <= every && every > 0
    requires CountDown(st, every, s).1 ==> s in checked
    ensures Covers(CountDown(st, every, s).0, every, checked, t + [s])
    ensures var next := CountDown(st, every, s).0; |next.suffix| + next.remaining <= every
    ensures Bounded(t, checked, every) ==> Bounded(t + [s], checked, every)
  {
    TailAppend(t, s, checked);
    AgreeAppend(st.suffix, t, s);
    if Bounded(t, checked, every) {
      BoundedAppend(t, s, checked, every);
    }
  }

  lemma CountDownOk(st: HaltState, every: nat, checked: set<Stmt>, resets: set<Stmt>, known: set<Stmt>, s: Stmt)
    requires StateOk(st, every, checked, resets, known) && s in known
    requires s in checked && !CountDown(st, every, s).1 ==> s in resets
    ensures StateOk(CountDown(st, every, s).0, every, checked, resets, known)
  {
  }

  /** The countdown keeps covering the walk, and no `every` safepoints in a row stay unchecked. */
  lemma {:induction false} RunDownCovers(st: HaltState, every: nat, checked: set<Stmt>, sps: seq<Stmt>, t: seq<Stmt>)
    requires Covers(st, every, checked, t) && |st.suffix| + st.remaining <= every
    requires RunChecks(st, every, sps) <= checked && Bounded(t, checked, every)
    ensures Covers(RunDown(st, every, sps), every, checked, t + sps)
    ensures |RunDown(st, every, sps).suffix| + RunDown(st, every, sps).remaining <= every
    ensures Bounded(t + sps, checked, every)
  {
    if sps == [] {
      assert t + sps == t;
    } else {
      var init, s := sps[..|sps| - 1], sps[|sps| - 1];
      RunDownCovers(st, every, checked, init, t);
      var before := RunDown(st, every, init);
      CountDownCovers(before, every, checked, s, t + init);
      assert (t + init) + [s] == t + sps by {
        assert init + [s] == sps;
      }
      assert RunDown(st, every, sps) == CountDown(before, every, s).0;
    }
  }

  /**
   A state that knows all safepoints since the last check goes on knowing them:
   its suffix is again the end of the walk, and as long as the countdown says.
   */
  lemma {:induction false} RunDownSuffix(st: HaltState, every: nat, sps: seq<Stmt>)
    requires 0 < st.remaining <= every && HasCompleteSuffix(st, every)
    ensures var now, walk := RunDown(st, every, sps), st.suffix + sps;
      && HasCompleteSuffix(now, every)
      && |now.suffix| <= |walk| && now.suffix == walk[|walk| - |now.suffix|..]
  {
    if sps == [] {
      assert st.suffix + sps == st.suffix;
    } else {
      var init, s := sps[..|sps| - 1], sps[|sps| - 1];
      RunDownSuffix(st, every, init);
      assert st.suffix + sps == (st.suffix + init) + [s];
    }
  }
}
