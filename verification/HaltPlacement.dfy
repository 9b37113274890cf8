/**
 Where the pass puts halt checks: exactly after every `every`-th safepoint where
 control flow is a forest, and after every safepoint of a cyclic component.
 */
module HaltPlacement {
  import opened Graphs
  import opened ExecIr
  import opened Traces
  import opened PassInvariant
  import opened HaltCheckInserters
  import opened HaltStates
  import opened HaltStateMerge
  import opened BlockProcessing
  import opened SccGraphs
  import opened HaltComponents
  import Bytes
  import TarjanScc

  // ---------------------------------------------------------------------
  // Counting down

  /** The countdown `m` safepoints after a start or a check. */
  ghost predicate Counts(st: HaltState, every: nat, m: nat) {
    every > 0 && st.remaining == every - m % every
  }

  lemma ModNext(m: nat, every: nat)
    requires every > 0
    ensures (m + 1) % every == if m % every == every - 1 then 0 else m % every + 1
  {
    var q, r := m / every, m % every;
    assert m == every * q + r;
    if r == every - 1 {
      assert every * (q + 1) == every * q + every;
      Bytes.ModUnique(m + 1, every, q + 1, 0);
    } else {
      Bytes.ModUnique(m + 1, every, q, r + 1);
    }
  }

  lemma CountDownCounts(st: HaltState, every: nat, s: Stmt, m: nat)
    requires Counts(st, every, m) && st.remaining > 0
    ensures Counts(CountDown(st, every, s).0, every, m + 1)
    ensures CountDown(st, every, s).1 <==> (m + 1) % every == 0
  {
    ModNext(m, every);
  }

  /** `sps[i]` is number `m + i + 1`. */
  predicate Due(m: nat, i: nat, every: nat)
    requires every > 0
  {
    (m + i + 1) % every == 0
  }

  /** Counting on from `m` safepoints checks those whose number is a multiple of `every`. */
  lemma {:induction false} RunDownCounts(st: HaltState, every: nat, sps: seq<Stmt>, m: nat)
    requires Counts(st, every, m) && 0 < st.remaining && Distinct(sps)
    ensures Counts(RunDown(st, every, sps), every, m + |sps|)
    ensures forall i :: 0 <= i < |sps| ==> (sps[i] in RunChecks(st, every, sps) <==> Due(m, i, every))
    ensures forall s :: s in RunChecks(st, every, sps) ==> s in sps
  {
    if sps != [] {
      var n := |sps| - 1;
      var init, s := sps[..n], sps[n];
      DistinctPrefix(sps, n);
      RunDownCounts(st, every, init, m);
      NotBefore(sps, n);
      CountDownCounts(RunDown(st, every, init), every, s, m + n);
      assert s !in RunChecks(st, every, init);
      forall i | 0 <= i < n ensures sps[i] != s && (sps[i] in RunChecks(st, every, init) <==> Due(m, i, every)) {
        assert init[i] == sps[i] && sps[i] in init;
      }
    }
  }

  /** In terms of the countdown: the first check comes when it runs out, the next ones `every` safepoints apart. */
  lemma RunChecksAt(st: HaltState, every: nat, sps: seq<Stmt>, i: nat)
    requires 0 < st.remaining <= every && Distinct(sps) && i < |sps|
    ensures sps[i] in RunChecks(st, every, sps)
      <==> i + 1 >= st.remaining && (i + 1 - st.remaining) % every == 0
  {
    var m := every - st.remaining;
    Bytes.ModUnique(m, every, 0, m);
    RunDownCounts(st, every, sps, m);
    assert Due(m, i, every) <==> (every - st.remaining + (i + 1)) % every == 0;
    DueAgain(every, st.remaining, i + 1);
  }

  lemma DueAgain(every: nat, remaining: nat, n: nat)
    requires 0 < remaining <= every && n > 0
    ensures (every - remaining + n) % every == 0 <==> n >= remaining && (n - remaining) % every == 0
  {
    if n >= remaining {
      var k := n - remaining;
      var q, r := k / every, k % every;
      assert k == every * q + r;
      assert every * (q + 1) == every * q + every;
      Bytes.ModUnique(every + k, every, q + 1, r);
    } else {
      Bytes.ModUnique(every - remaining + n, every, 0, every - remaining + n);
    }
  }

  // ---------------------------------------------------------------------
  // Forests

  /** No cycle, and no block with two incoming edges. */
  ghost predicate IsForest(g: Graph) {
    && (forall p :: !IsCycle(g, Vertices(g), p))
    && (forall a, b, c {:trigger Edge(g, a, c), Edge(g, b, c)} :: Edge(g, a, c) && Edge(g, b, c) ==> a == b)
  }

  ghost predicate IsRoot(g: Graph, b: Block) {
    forall a {:trigger Edge(g, a, b)} :: !Edge(g, a, b)
  }

  /** A walk from a root: in a forest, the only one to its last block. */
  ghost predicate RootedWalk(g: Graph, done: set<Block>, p: seq<Block>) {
    IsPath(g, done, p) && IsRoot(g, p[0])
  }

  /** The checked safepoints of the trace are those whose number, from one, is a multiple of `every`. */
  ghost predicate NthChecked(t: seq<Stmt>, every: nat, checked: set<Stmt>)
    requires every > 0
  {
    forall i :: 0 <= i < |t| ==> (t[i] in checked <==> (i + 1) % every == 0)
  }

  /** Along every walk from a root exactly every `every`-th safepoint is checked. */
  ghost predicate EveryNth(g: Graph, sps: seq<seq<Stmt>>, every: nat, done: set<Block>, checked: set<Stmt>)
    requires every > 0
  {
    forall p {:trigger RootedWalk(g, done, p)} :: RootedWalk(g, done, p) ==> NthChecked(Trace(sps, p), every, checked)
  }

  ghost predicate PendingCount(g: Graph, sps: seq<seq<Stmt>>, every: nat, done: set<Block>, pending: Edges) {
    forall p, b {:trigger RootedWalk(g, done, p), (Last(p), b) in pending} ::
      RootedWalk(g, done, p) && (Last(p), b) in pending ==>
        Counts(pending[(Last(p), b)], every, |Trace(sps, p)|)
  }

  ghost predicate HasRoot(g: Graph, done: set<Block>, b: Block) {
    exists p :: RootedWalk(g, done, p) && Last(p) == b
  }

  ghost predicate InBlocks(sps: seq<seq<Stmt>>, done: set<Block>, s: Stmt) {
    exists b :: b in done && s in SafepointsAt(sps, b)
  }

  /** What is known in a forest once the blocks in `done` are processed. */
  ghost predicate Placed(g: Graph, sps: seq<seq<Stmt>>, every: nat, done: set<Block>, pending: Edges,
                         checked: set<Stmt>)
    requires every > 0
  {
    && EveryNth(g, sps, every, done, checked)
    && PendingCount(g, sps, every, done, pending)
    && (forall b {:trigger HasRoot(g, done, b)} :: b in done ==> HasRoot(g, done, b))
    && (forall s {:trigger InBlocks(sps, done, s)} :: s in checked ==> InBlocks(sps, done, s))
  }

  /** The state a block is entered with counts the safepoints of every walk from a root into it. */
  ghost predicate EntersWith(g: Graph, sps: seq<seq<Stmt>>, every: nat, done: set<Block>, block: Block,
                             st: HaltState) {
    && (IsRoot(g, block) ==> Counts(st, every, 0))
    && (forall q {:trigger RootedWalk(g, done, q)} :: RootedWalk(g, done, q) && Edge(g, Last(q), block) ==>
          Counts(st, every, |Trace(sps, q)|))
  }

  /** The safepoints of `block` are its own, and not checked yet. */
  ghost predicate FreshBlock(sps: seq<seq<Stmt>>, done: set<Block>, block: Block, checked: set<Stmt>) {
    && Distinct(SafepointsAt(sps, block))
    && (forall s :: s in SafepointsAt(sps, block) ==> s !in checked && !InBlocks(sps, done, s))
  }

  lemma {:induction false} TraceInBlocks(g: Graph, sps: seq<seq<Stmt>>, done: set<Block>, p: seq<Block>, s: Stmt)
    requires (forall i :: 0 <= i < |p| ==> p[i] in done) && s in Trace(sps, p)
    ensures InBlocks(sps, done, s)
  {
    if s !in SafepointsAt(sps, p[|p| - 1]) {
      TraceInBlocks(g, sps, done, p[..|p| - 1], s);
    }
  }

  /** A walk through the blocks done and one more either stays in them or ends in the new block. */
  lemma WalkParts(g: Graph, done: set<Block>, block: Block, p: seq<Block>)
    requires PredClosed(g, done) && !Edge(g, block, block) && RootedWalk(g, done + {block}, p)
    ensures Last(p) != block ==> RootedWalk(g, done, p)
    ensures Last(p) == block && |p| > 1 ==>
      RootedWalk(g, done, p[..|p| - 1]) && Edge(g, Last(p[..|p| - 1]), block)
    ensures Last(p) == block && |p| == 1 ==> IsRoot(g, block)
  {
    assert Last(p) in done + {block};
    if Last(p) != block {
      WalkStaysIn(g, done + {block}, done, p);
    } else if |p| > 1 {
      var q := p[..|p| - 1];
      WalkPrefix(g, done + {block}, p);
      assert Last(q) in done + {block};
      WalkStaysIn(g, done + {block}, done, q);
    }
  }

  /** Along a walk into the new block the count goes on. */
  lemma NewWalk(g: Graph, sps: seq<seq<Stmt>>, every: nat, done: set<Block>, block: Block, checked: set<Stmt>,
                st: HaltState, p: seq<Block>)
    requires every > 0 && EveryNth(g, sps, every, done, checked) && PredClosed(g, done) && !Edge(g, block, block)
    requires 0 < st.remaining <= every && EntersWith(g, sps, every, done, block, st)
    requires FreshBlock(sps, done, block, checked)
    requires RootedWalk(g, done + {block}, p) && Last(p) == block
    ensures NthChecked(Trace(sps, p), every, checked + RunChecks(st, every, SafepointsAt(sps, block)))
    ensures Counts(RunDown(st, every, SafepointsAt(sps, block)), every, |Trace(sps, p)|)
  {
    var q, here := p[..|p| - 1], SafepointsAt(sps, block);
    var all := checked + RunChecks(st, every, here);
    WalkParts(g, done, block, p);
    RunDownCounts(st, every, here, |Trace(sps, q)|);
    if q != [] {
      assert NthChecked(Trace(sps, q), every, checked);
      OldTrace(g, sps, every, done, block, checked, st, q);
    }
    assert forall i :: 0 <= i < |here| ==> (here[i] in all <==> here[i] in RunChecks(st, every, here));
    JoinCounts(Trace(sps, q), here, every, all);
  }

  lemma JoinCounts(t: seq<Stmt>, here: seq<Stmt>, every: nat, checked: set<Stmt>)
    requires every > 0 && NthChecked(t, every, checked)
    requires forall i :: 0 <= i < |here| ==> (here[i] in checked <==> Due(|t|, i, every))
    ensures NthChecked(t + here, every, checked)
  {
    forall i | 0 <= i < |t + here| ensures (t + here)[i] in checked <==> (i + 1) % every == 0 {
      if i >= |t| {
        assert Due(|t|, i - |t|, every) <==> (i + 1) % every == 0;
      }
    }
  }

  /** Checks in the new block do not touch the walks that do not reach it. */
  lemma OldTrace(g: Graph, sps: seq<seq<Stmt>>, every: nat, done: set<Block>, block: Block, checked: set<Stmt>,
                 st: HaltState, q: seq<Block>)
    requires every > 0 && 0 < st.remaining <= every && FreshBlock(sps, done, block, checked)
    requires IsPath(g, done, q) && NthChecked(Trace(sps, q), every, checked)
    ensures NthChecked(Trace(sps, q), every, checked + RunChecks(st, every, SafepointsAt(sps, block)))
  {
    var t, here := Trace(sps, q), SafepointsAt(sps, block);
    RunChecksAmong(st, every, here);
    forall i | 0 <= i < |t| ensures t[i] !in RunChecks(st, every, here) {
      if t[i] in here {
        TraceInBlocks(g, sps, done, q, t[i]);
        assert false;
      }
    }
  }

  lemma {:induction false} RunChecksAmong(st: HaltState, every: nat, sps: seq<Stmt>)
    requires 0 < st.remaining <= every
    ensures forall s :: s in RunChecks(st, every, sps) ==> s in sps
  {
    if sps != [] {
      RunChecksAmong(st, every, sps[..|sps| - 1]);
    }
  }

  lemma NewRoot(g: Graph, done: set<Block>, block: Block)
    requires PredClosed(g, done + {block}) && !Edge(g, block, block)
    requires forall b {:trigger HasRoot(g, done, b)} :: b in done ==> HasRoot(g, done, b)
    ensures HasRoot(g, done + {block}, block)
  {
    if IsRoot(g, block) {
      assert RootedWalk(g, done + {block}, [block]);
    } else {
      var a :| Edge(g, a, block);
      assert HasRoot(g, done, a);
      var q :| RootedWalk(g, done, q) && Last(q) == a;
      var p := q + [block];
      forall i | 0 <= i < |p| - 1 ensures Edge(g, p[i], p[i + 1]) {
        if i < |q| - 1 {
          EdgeAt(g, done, q, i);
        }
      }
      assert RootedWalk(g, done + {block}, p);
    }
  }

  lemma RootStays(g: Graph, done: set<Block>, more: set<Block>, b: Block)
    requires HasRoot(g, done, b) && done <= more
    ensures HasRoot(g, more, b)
  {
    var p :| RootedWalk(g, done, p) && Last(p) == b;
    assert RootedWalk(g, more, p);
  }

  /** One block processed by the countdown keeps all this. */
  lemma PlacedAdvances(g: Graph, sps: seq<seq<Stmt>>, every: nat, done: set<Block>, block: Block, pending: Edges,
                       next: Edges, checked: set<Stmt>, st: HaltState)
    requires every > 0 && Placed(g, sps, every, done, pending, checked)
    requires PredClosed(g, done) && PredClosed(g, done + {block}) && !Edge(g, block, block)
    requires 0 < st.remaining <= every && EntersWith(g, sps, every, done, block, st)
    requires FreshBlock(sps, done, block, checked)
    requires Advanced(g, done, {block}, pending, next, map[block := RunDown(st, every, SafepointsAt(sps, block))])
    ensures Placed(g, sps, every, done + {block}, next, checked + RunChecks(st, every, SafepointsAt(sps, block)))
  {
    var all, here := done + {block}, SafepointsAt(sps, block);
    var now := checked + RunChecks(st, every, here);
    forall p {:trigger RootedWalk(g, all, p)} | RootedWalk(g, all, p) ensures NthChecked(Trace(sps, p), every, now) {
      WalkParts(g, done, block, p);
      if Last(p) == block {
        NewWalk(g, sps, every, done, block, checked, st, p);
      } else {
        OldTrace(g, sps, every, done, block, checked, st, p);
      }
    }
    forall p, b {:trigger RootedWalk(g, all, p), (Last(p), b) in next} | RootedWalk(g, all, p) && (Last(p), b) in next
      ensures Counts(next[(Last(p), b)], every, |Trace(sps, p)|)
    {
      WalkParts(g, done, block, p);
      if Last(p) == block {
        NewWalk(g, sps, every, done, block, checked, st, p);
      } else {
        assert (Last(p), b) in pending;
      }
    }
    forall b {:trigger HasRoot(g, all, b)} | b in all ensures HasRoot(g, all, b) {
      if b == block {
        NewRoot(g, done, block);
      } else {
        RootStays(g, done, all, b);
      }
    }
    RunChecksAmong(st, every, here);
    forall s {:trigger InBlocks(sps, all, s)} | s in now ensures InBlocks(sps, all, s) {
      if s in checked {
        assert InBlocks(sps, done, s);
      } else {
        assert block in all && s in here;
      }
    }
  }

  // ---------------------------------------------------------------------
  // What the pass does in a forest

  lemma ForestIsAcyclic(g: Graph, sg: SccGraph, c: SccComponent)
    requires WellFormed(g) && SccGraphOk(g, sg) && IsForest(g) && c < |sg.components|
    ensures c !in sg.isCyclic
  {
    if c in sg.isCyclic {
      CyclicIsExact(g, Vertices(g), sg.components[c]);
    }
  }

  /** At most one state waits for a block of a forest, so nothing is merged. */
  lemma EnterForest(g: Graph, sps: seq<seq<Stmt>>, every: nat, done: set<Block>, block: Block, pending: Edges,
                    incoming: seq<HaltState>, st: HaltState, resets: set<Stmt>)
    requires every > 0 && IsForest(g) && block !in done
    requires PendingDomain(g, done, pending) && PendingCount(g, sps, every, done, pending)
    requires Collected(pending, {block}, incoming) && MergeRule(incoming, every, {}, st, resets)
    ensures resets == {} && EntersWith(g, sps, every, done, block, st)
  {
    var sources: seq<(Block, Block)> :| OneEach(pending, {block}, sources, incoming);
    OneSource(g, done, block, pending, sources, incoming);
    if |sources| == 1 {
      NoResets(incoming[0].suffix, {});
      assert st == incoming[0];
    }
    forall q {:trigger RootedWalk(g, done, q)} | RootedWalk(g, done, q) && Edge(g, Last(q), block)
      ensures Counts(st, every, |Trace(sps, q)|)
    {
      assert Last(q) in done;
      assert (Last(q), block) in pending;
      assert (Last(q), block) in sources;
    }
    if IsRoot(g, block) {
      Bytes.ModUnique(0, every, 0, 0);
    }
  }

  lemma OneSource(g: Graph, done: set<Block>, block: Block, pending: Edges, sources: seq<(Block, Block)>,
                  incoming: seq<HaltState>)
    requires IsForest(g) && PendingDomain(g, done, pending) && OneEach(pending, {block}, sources, incoming)
    ensures |sources| <= 1 && (IsRoot(g, block) ==> sources == [])
  {
    if |sources| > 1 {
      SameEdge(g, done, block, pending, sources[0], sources[1]);
    } else if |sources| == 1 {
      SameEdge(g, done, block, pending, sources[0], sources[0]);
    }
  }

  lemma SameEdge(g: Graph, done: set<Block>, block: Block, pending: Edges, e: (Block, Block), f: (Block, Block))
    requires IsForest(g) && PendingDomain(g, done, pending)
    requires e in pending && e.1 == block && f in pending && f.1 == block
    ensures e == f && Edge(g, e.0, block)
  {
    assert (e.0, block) in pending && (f.0, block) in pending;
    assert Edge(g, e.0, block) && Edge(g, f.0, block);
  }

  lemma ForestBlockIsFresh(o: Ir, done: set<Block>, block: Block, checked: set<Stmt>)
    requires WellFormedIr(o) && block < |o.blocks| && block !in done
    requires forall s :: s in SafepointsAt(Sps(o), block) ==> s !in checked
    ensures FreshBlock(Sps(o), done, block, checked)
  {
    BlockSafepointsDistinct(o, block);
    SafepointsAreSafepoints(o, o.blocks[block].stmts);
    forall s | s in SafepointsAt(Sps(o), block) ensures !InBlocks(Sps(o), done, s) {
      if InBlocks(Sps(o), done, s) {
        var a :| a in done && s in SafepointsAt(Sps(o), a);
        SafepointsAreSafepoints(o, o.blocks[a].stmts);
        var i :| 0 <= i < |o.blocks[a].stmts| && o.blocks[a].stmts[i] == s;
        var j :| 0 <= j < |o.blocks[block].stmts| && o.blocks[block].stmts[j] == s;
        assert At(o.blocks, a, i, s) && At(o.blocks, block, j, s);
        assert false;
      }
    }
  }

  /** What the run of the pass has done before its round `i`. */
  ghost predicate PlacedAt(o: Ir, every: nat, run: PassRun, i: nat)
    requires every > 0 && i < |run.snapshots| == |run.resets| && i <= |run.sg.topoOrder|
  {
    && run.resets[i] == {}
    && Placed(Cfg(o), Sps(o), every, DoneBlocks(run.sg, i), run.snapshots[i].pending, run.snapshots[i].checked)
  }

  /** The invariant of the pass held before each of its rounds. */
  lemma {:induction false} RoundStart(o: Ir, every: nat, run: PassRun, n: nat, i: nat)
    requires WellFormedIr(o) && every > 0 && RoundsOk(o, every, run, n) && i <= n
    ensures PassOk(o, every, DoneBlocks(run.sg, i), run.snapshots[i], run.resets[i])
  {
    if i == 0 {
      PassStarts(o, every);
      assert DoneBlocks(run.sg, 0) == {};
    } else {
      RoundStart(o, every, run, n, i - 1);
      assert RoundOk(o, every, run, i - 1);
      var c := run.sg.topoOrder[i - 1];
      CfgWellFormed(o);
      NextComponent(Cfg(o), run.sg, i - 1);
      PassAdvances(o, every, DoneBlocks(run.sg, i - 1), run.sg.components[c], c in run.sg.isCyclic,
                   run.snapshots[i - 1], run.resets[i - 1], run.snapshots[i], run.resets[i]);
    }
  }

  /** The one block of a round in a forest is entered with the count of its walks, and without any new check. */
  lemma ForestEntered(o: Ir, every: nat, done: set<Block>, block: Block, start: Snapshot, stateIn: HaltState,
                      was: Snapshot, resets: set<Stmt>)
    requires PassOk(o, every, done, start, {}) && IsForest(Cfg(o))
    requires PendingCount(Cfg(o), Sps(o), every, done, start.pending)
    requires MergedInto(o, every, done, [block], false, start, {}, stateIn, was, resets)
    ensures resets == {} && was.checked == start.checked && 0 < stateIn.remaining <= every
    ensures EntersWith(Cfg(o), Sps(o), every, done, block, stateIn)
    ensures FreshBlock(Sps(o), done, block, start.checked)
  {
    var incoming :| MergedBy(every, [block], start, {}, incoming, stateIn, was, resets);
    assert Elems([block]) == {block} && block in [block];
    EnterForest(Cfg(o), Sps(o), every, done, block, start.pending, incoming, stateIn, resets);
    ForestBlockIsFresh(o, done, block, start.checked);
  }

  /** It is left with the countdown run over its safepoints. */
  lemma ForestLeft(o: Ir, every: nat, done: set<Block>, block: Block, pending: Edges, stateIn: HaltState,
                   was: Snapshot, now: Snapshot)
    requires PendingDomain(Cfg(o), done, pending) && PredClosed(Cfg(o), done) && block !in done
    requires was.pending == Without(pending, Elems([block]))
    requires BlocksDone(Cfg(o), Sps(o), done, [block], 1, false, stateIn, every, was, now)
    ensures now.checked == was.checked + RunChecks(stateIn, every, SafepointsAt(Sps(o), block))
    ensures Advanced(Cfg(o), done, {block}, pending, now.pending,
                     map[block := RunDown(stateIn, every, SafepointsAt(Sps(o), block))])
  {
    var out := map[block := RunDown(stateIn, every, SafepointsAt(Sps(o), block))];
    assert Elems([block]) == {block} && [block][..1] == [block];
    OneBlock(stateIn, every, Sps(o), block);
    ExtendedAdvances(Cfg(o), done, {block}, pending, now.pending, out);
  }

  lemma ForestRound(o: Ir, every: nat, done: set<Block>, block: Block, start: Snapshot, now: Snapshot,
                    resets: set<Stmt>)
    requires PassOk(o, every, done, start, {}) && IsForest(Cfg(o))
    requires Placed(Cfg(o), Sps(o), every, done, start.pending, start.checked)
    requires Processed(o, every, done, [block], false, start, {}, now, resets)
    ensures resets == {} && Placed(Cfg(o), Sps(o), every, done + {block}, now.pending, now.checked)
  {
    var stateIn, was :| MergedInto(o, every, done, [block], false, start, {}, stateIn, was, resets)
      && BlocksDone(Cfg(o), Sps(o), done, [block], 1, false, stateIn, every, was, now);
    ForestEntered(o, every, done, block, start, stateIn, was, resets);
    SingleNext(Cfg(o), done, block);
    ForestLeft(o, every, done, block, start.pending, stateIn, was, now);
    PlacedAdvances(Cfg(o), Sps(o), every, done, block, start.pending, now.pending, start.checked, stateIn);
  }

  lemma SingleNext(g: Graph, done: set<Block>, block: Block)
    requires NextOk(g, done, [block], false)
    ensures block !in done && PredClosed(g, done) && PredClosed(g, done + {block}) && !Edge(g, block, block)
  {
    assert Elems([block]) == {block} && block in [block];
  }

  lemma OneBlock(st: HaltState, every: nat, sps: seq<seq<Stmt>>, block: Block)
    requires 0 < st.remaining <= every
    ensures ComponentChecks(false, st, every, sps, [block]) == RunChecks(st, every, SafepointsAt(sps, block))
    ensures OutStates(false, st, every, sps, {block}) == map[block := RunDown(st, every, SafepointsAt(sps, block))]
  {
    ACyclicRun(st, every, SafepointsAt(sps, block));
    assert OutState(false, st, every, SafepointsAt(sps, block)) == RunDown(st, every, SafepointsAt(sps, block));
    assert [block][..0] == [];
    assert ComponentChecks(false, st, every, sps, []) == {};
  }

  lemma NothingPlaced(g: Graph, sps: seq<seq<Stmt>>, every: nat)
    requires every > 0
    ensures Placed(g, sps, every, {}, map[], {})
  {
    forall p ensures !IsPath(g, {}, p) {
      NoWalk(g, {}, p);
    }
  }

  lemma ForestAdvances(o: Ir, every: nat, run: PassRun, n: nat, i: nat)
    requires WellFormedIr(o) && every > 0 && IsForest(Cfg(o)) && RoundsOk(o, every, run, n) && i < n
    requires PlacedAt(o, every, run, i)
    ensures PlacedAt(o, every, run, i + 1)
  {
    RoundStart(o, every, run, n, i);
    assert RoundOk(o, every, run, i);
    var block := ForestComponent(o, run.sg, i);
    ForestRound(o, every, DoneBlocks(run.sg, i), block, run.snapshots[i], run.snapshots[i + 1], run.resets[i + 1]);
  }

  lemma {:induction false} ForestRounds(o: Ir, every: nat, run: PassRun, n: nat, i: nat)
    requires WellFormedIr(o) && every > 0 && IsForest(Cfg(o)) && RoundsOk(o, every, run, n) && i <= n
    ensures PlacedAt(o, every, run, i)
  {
    if i == 0 {
      assert DoneBlocks(run.sg, 0) == {};
      NothingPlaced(Cfg(o), Sps(o), every);
    } else {
      ForestRounds(o, every, run, n, i - 1);
      ForestAdvances(o, every, run, n, i - 1);
    }
  }

  /** In a forest the next component is a single block without a cycle. */
  lemma ForestComponent(o: Ir, sg: SccGraph, i: nat) returns (block: Block)
    requires WellFormedIr(o) && SccGraphOk(Cfg(o), sg) && IsForest(Cfg(o)) && i < |sg.topoOrder|
    requires sg.topoOrder[i] < |sg.components| && PredClosed(Cfg(o), DoneBlocks(sg, i))
    ensures sg.components[sg.topoOrder[i]] == [block] && sg.topoOrder[i] !in sg.isCyclic
    ensures DoneBlocks(sg, i + 1) == DoneBlocks(sg, i) + {block}
  {
    var c := sg.topoOrder[i];
    CfgWellFormed(o);
    ForestIsAcyclic(Cfg(o), sg, c);
    NextComponent(Cfg(o), sg, i);
    block := sg.components[c][0];
    assert sg.components[c] == [block] && Elems([block]) == {block};
  }

  /** Checked are exactly the safepoints whose number on a walk from a root is a multiple of `every`. */
  ghost predicate ChecksEveryNth(o: Ir, every: nat, checked: set<Stmt>)
    requires every > 0
  {
    && EveryNth(Cfg(o), Sps(o), every, Vertices(Cfg(o)), checked)
    && forall s {:trigger s in checked} :: s in checked ==> OnRootedWalk(o, s)
  }

  /**
   Where control flow is a forest, the pass checks a safepoint exactly when its
   number on the walk from its root is a multiple of `every`, and no others.
   */
  lemma ForestPlacement(o: Ir, every: nat, run: PassRun, checked: set<Stmt>)
    requires WellFormedIr(o) && every > 0 && IsForest(Cfg(o)) && PassRunOk(o, every, run, checked)
    ensures ChecksEveryNth(o, every, checked)
  {
    var n := |run.sg.topoOrder|;
    ForestRounds(o, every, run, n, n);
    AllDone(Cfg(o), run.sg);
    forall s {:trigger s in checked} | s in checked ensures OnRootedWalk(o, s) {
      assert InBlocks(Sps(o), Vertices(Cfg(o)), s);
      RootedSafepoint(o, s);
    }
  }

  lemma RootedSafepoint(o: Ir, s: Stmt)
    requires InBlocks(Sps(o), Vertices(Cfg(o)), s)
    requires forall b {:trigger HasRoot(Cfg(o), Vertices(Cfg(o)), b)} :: b in Vertices(Cfg(o)) ==>
      HasRoot(Cfg(o), Vertices(Cfg(o)), b)
    ensures OnRootedWalk(o, s)
  {
    var all := Vertices(Cfg(o));
    var b :| b in all && s in SafepointsAt(Sps(o), b);
    assert HasRoot(Cfg(o), all, b);
    var p :| RootedWalk(Cfg(o), all, p) && Last(p) == b;
    var before := Trace(Sps(o), p[..|p| - 1]);
    assert Trace(Sps(o), p) == before + SafepointsAt(Sps(o), b);
  }

  ghost predicate OnRootedWalk(o: Ir, s: Stmt) {
    exists p :: RootedWalk(Cfg(o), Vertices(Cfg(o)), p) && s in Trace(Sps(o), p)
  }

  /** Every walk from a root meets fewer than `every` safepoints. */
  ghost predicate FewSafepoints(o: Ir, every: nat) {
    forall p {:trigger RootedWalk(Cfg(o), Vertices(Cfg(o)), p)} ::
      RootedWalk(Cfg(o), Vertices(Cfg(o)), p) ==> |Trace(Sps(o), p)| < every
  }

  /** A forest with too few safepoints for a check is left alone. */
  lemma ShortForestIsLeftAlone(o: Ir, every: nat, run: PassRun, book: Book)
    requires WellFormedIr(o) && every > 0 && IsForest(Cfg(o)) && PassRunOk(o, every, run, book.checked)
    requires SizeOk(o, book) && FewSafepoints(o, every)
    ensures book.checked == {} && book.c == o
  {
    ForestPlacement(o, every, run, book.checked);
    if book.checked != {} {
      var s :| s in book.checked;
      assert OnRootedWalk(o, s);
      var p :| RootedWalk(Cfg(o), Vertices(Cfg(o)), p) && s in Trace(Sps(o), p);
      assert NthChecked(Trace(Sps(o), p), every, book.checked);
      ShortTrace(Trace(Sps(o), p), every, book.checked, s);
      assert false;
    }
  }

  lemma ShortTrace(t: seq<Stmt>, every: nat, checked: set<Stmt>, s: Stmt)
    requires |t| < every && NthChecked(t, every, checked) && s in t
    ensures s !in checked
  {
    var i :| 0 <= i < |t| && t[i] == s;
    Bytes.ModUnique(i + 1, every, 0, i + 1);
  }

  // ---------------------------------------------------------------------
  // What the pass does in cycles

  lemma {:induction false} ChecksGrow(o: Ir, every: nat, run: PassRun, n: nat, i: nat, j: nat)
    requires RoundsOk(o, every, run, n) && i <= j <= n
    ensures run.snapshots[i].checked <= run.snapshots[j].checked
    decreases j
  {
    if i < j {
      ChecksGrow(o, every, run, n, i, j - 1);
      assert RoundOk(o, every, run, j - 1);
    }
  }

  /** The blocks of a cycle lie in one cyclic component. */
  lemma CycleComponent(g: Graph, sg: SccGraph, p: seq<Block>, b: Block) returns (c: SccComponent)
    requires WellFormed(g) && SccGraphOk(g, sg) && IsCycle(g, Vertices(g), p) && b in p
    ensures c < |sg.components| && c in sg.isCyclic && c in sg.topoOrder && b in sg.components[c]
  {
    var all := Vertices(g);
    var k :| 0 <= k < |p| && p[k] == b;
    SubPath(g, all, p, 0, k);
    SubPath(g, all, p, k, |p| - 1);
    assert p[0] in all && b in all && Mutual(g, all, p[0], b);
    SameComponentIsMutual(g, sg, p[0], b);
    c := sg.componentOf[b];
    assert TarjanScc.IsScc(g, all, sg.components[c]);
    CyclicIsExact(g, all, sg.components[c]);
  }

  /** Every safepoint of every block on a cycle is checked. */
  lemma CycleIsChecked(o: Ir, every: nat, run: PassRun, checked: set<Stmt>, p: seq<Block>, b: Block, s: Stmt)
    requires WellFormedIr(o) && every > 0 && PassRunOk(o, every, run, checked)
    requires IsCycle(Cfg(o), Vertices(Cfg(o)), p) && b in p && s in SafepointsAt(Sps(o), b)
    ensures s in checked
  {
    var g, sg, n := Cfg(o), run.sg, |run.sg.topoOrder|;
    CfgWellFormed(o);
    var c := CycleComponent(g, sg, p, b);
    var i :| 0 <= i < n && sg.topoOrder[i] == c;
    assert RoundOk(o, every, run, i);
    RoundChecksCycle(o, every, DoneBlocks(sg, i), sg.components[c], run.snapshots[i], run.resets[i],
                     run.snapshots[i + 1], run.resets[i + 1], b, s);
    ChecksGrow(o, every, run, n, i + 1, n);
  }

  lemma RoundChecksCycle(o: Ir, every: nat, done: set<Block>, component: seq<Block>, start: Snapshot,
                         resets0: set<Stmt>, now: Snapshot, resets: set<Stmt>, b: Block, s: Stmt)
    requires Processed(o, every, done, component, true, start, resets0, now, resets)
    requires b in component && s in SafepointsAt(Sps(o), b)
    ensures s in now.checked
  {
    var stateIn, was :| MergedInto(o, every, done, component, true, start, resets0, stateIn, was, resets)
      && BlocksDone(Cfg(o), Sps(o), done, component, |component|, true, stateIn, every, was, now);
    CyclicRun(stateIn, every, SafepointsAt(Sps(o), b));
    ComponentChecksOf(true, stateIn, every, Sps(o), component);
    assert component[..|component|] == component;
  }
}
