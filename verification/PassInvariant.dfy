/**
 What the halt-check pass knows after it has processed some components: no walk
 through processed blocks meets too many unchecked safepoints, and every state
 waiting on an edge covers every walk that reaches that edge.
 */
module PassInvariant {
  import opened ExecIr
  import opened Graphs
  import opened Traces

  type Edges = map<(Block, Block), HaltState>

  function SafepointsAt(sps: seq<seq<Stmt>>, b: Block): seq<Stmt> {
    if b < |sps| then sps[b] else []
  }

  /** The safepoints met along a walk, whole blocks at a time. */
  function Trace(sps: seq<seq<Stmt>>, p: seq<Block>): seq<Stmt> {
    if p == [] then [] else Trace(sps, p[..|p| - 1]) + SafepointsAt(sps, p[|p| - 1])
  }

  function Last(p: seq<Block>): Block
    requires p != []
  {
    p[|p| - 1]
  }

  ghost predicate WalkBounded(sps: seq<seq<Stmt>>, every: nat, checked: set<Stmt>, p: seq<Block>) {
    Bounded(Trace(sps, p), checked, every)
  }

  ghost predicate WalkCovered(sps: seq<seq<Stmt>>, every: nat, checked: set<Stmt>, p: seq<Block>, st: HaltState) {
    Covers(st, every, checked, Trace(sps, p))
  }

  /** All predecessors of processed blocks are processed. */
  ghost predicate PredClosed(g: Graph, done: set<Block>) {
    forall a, b {:trigger Edge(g, a, b)} :: Edge(g, a, b) && b in done ==> a in done
  }

  ghost predicate WalksBounded(g: Graph, sps: seq<seq<Stmt>>, every: nat, done: set<Block>, checked: set<Stmt>) {
    forall p {:trigger WalkBounded(sps, every, checked, p)} :: IsPath(g, done, p) ==>
        WalkBounded(sps, every, checked, p)
  }

  /** The edges from processed to unprocessed blocks are exactly the ones with a pending state. */
  ghost predicate PendingDomain(g: Graph, done: set<Block>, pending: Edges) {
    forall a, b {:trigger (a, b) in pending} :: (a, b) in pending <==> Edge(g, a, b) && a in done && b !in done
  }

  ghost predicate PendingCovers(g: Graph, sps: seq<seq<Stmt>>, every: nat, done: set<Block>, pending: Edges,
                                checked: set<Stmt>) {
    forall p, b {:trigger (Last(p), b) in pending, IsPath(g, done, p)} ::
      IsPath(g, done, p) && (Last(p), b) in pending ==> WalkCovered(sps, every, checked, p, pending[(Last(p), b)])
  }

  ghost predicate PassInv(g: Graph, sps: seq<seq<Stmt>>, every: nat, done: set<Block>, pending: Edges,
                          checked: set<Stmt>) {
    && PredClosed(g, done)
    && WalksBounded(g, sps, every, done, checked)
    && PendingDomain(g, done, pending)
    && PendingCovers(g, sps, every, done, pending, checked)
  }

  /** `st` covers every walk through processed blocks that arrives at `component`. */
  ghost predicate Arrivals(g: Graph, sps: seq<seq<Stmt>>, every: nat, done: set<Block>, component: set<Block>,
                           st: HaltState, checked: set<Stmt>) {
    forall p, b {:trigger Edge(g, Last(p), b), IsPath(g, done, p)} ::
      IsPath(g, done, p) && b in component && Edge(g, Last(p), b) ==> WalkCovered(sps, every, checked, p, st)
  }

  lemma InvMono(g: Graph, sps: seq<seq<Stmt>>, every: nat, done: set<Block>, pending: Edges, checked: set<Stmt>,
                more: set<Stmt>)
    requires PassInv(g, sps, every, done, pending, checked) && checked <= more
    ensures PassInv(g, sps, every, done, pending, more)
  {
    forall p {:trigger WalkBounded(sps, every, more, p)} | IsPath(g, done, p) ensures WalkBounded(sps, every, more, p) {
      assert WalkBounded(sps, every, checked, p);
      BoundedMono(Trace(sps, p), checked, more, every);
    }
    forall p, b {:trigger (Last(p), b) in pending, IsPath(g, done, p)} | IsPath(g, done, p) && (Last(p), b) in pending
      ensures WalkCovered(sps, every, more, p, pending[(Last(p), b)])
    {
      assert WalkCovered(sps, every, checked, p, pending[(Last(p), b)]);
      MoreChecks(pending[(Last(p), b)], every, checked, more);
    }
  }

  /** A walk through processed blocks and `component` that ends in `component`, minus its last block. */
  lemma WalkPrefix(g: Graph, allowed: set<Block>, p: seq<Block>)
    requires IsPath(g, allowed, p) && |p| > 1
    ensures IsPath(g, allowed, p[..|p| - 1]) && Edge(g, Last(p[..|p| - 1]), Last(p))
  {
    SubPath(g, allowed, p, 0, |p| - 2);
    EdgeAt(g, allowed, p, |p| - 2);
    assert p[0..|p| - 2 + 1] == p[..|p| - 1];
  }

  /** A walk that ends in a predecessor-closed set never left it. */
  lemma {:induction false} WalkStaysIn(g: Graph, allowed: set<Block>, done: set<Block>, p: seq<Block>)
    requires PredClosed(g, done) && IsPath(g, allowed, p) && Last(p) in done
    ensures IsPath(g, done, p)
  {
    if |p| > 1 {
      WalkPrefix(g, allowed, p);
      WalkStaysIn(g, allowed, done, p[..|p| - 1]);
      var q := p[..|p| - 1];
      forall i | 0 <= i < |p| ensures p[i] in done {
        if i < |q| {
          assert q[i] in done;
        }
      }
      forall i | 0 <= i < |p| - 1 ensures Edge(g, p[i], p[i + 1]) {
        EdgeAt(g, allowed, p, i);
      }
    }
  }

  /** `next` keeps the old states on edges that are still pending and has `out(b)` on edges leaving `component`. */
  ghost predicate Advanced(g: Graph, done: set<Block>, component: set<Block>, pending: Edges, next: Edges,
                           out: map<Block, HaltState>)
    requires component <= out.Keys
  {
    && PendingDomain(g, done + component, next)
    && (forall a, b {:trigger (a, b) in next} :: (a, b) in next && a in component ==> next[(a, b)] == out[a])
    && (forall a, b {:trigger (a, b) in next} :: (a, b) in next && a !in component ==>
          (a, b) in pending && next[(a, b)] == pending[(a, b)])
  }

  /** Every walk that ends in the component is bounded and covered by the state of its last block. */
  ghost predicate ComponentCovered(g: Graph, sps: seq<seq<Stmt>>, every: nat, done: set<Block>, component: set<Block>,
                                   checked: set<Stmt>, out: map<Block, HaltState>)
    requires component <= out.Keys
  {
    forall p {:trigger IsPath(g, done + component, p)} :: IsPath(g, done + component, p) && Last(p) in component ==>
      WalkBounded(sps, every, checked, p) && WalkCovered(sps, every, checked, p, out[Last(p)])
  }

  /** Processing one component re-establishes the invariant. */
  lemma AdvanceInv(g: Graph, sps: seq<seq<Stmt>>, every: nat, done: set<Block>, component: set<Block>,
                   pending: Edges, next: Edges, checked: set<Stmt>, out: map<Block, HaltState>)
    requires PassInv(g, sps, every, done, pending, checked)
    requires component <= out.Keys && PredClosed(g, done + component)
    requires Advanced(g, done, component, pending, next, out)
    requires ComponentCovered(g, sps, every, done, component, checked, out)
    ensures PassInv(g, sps, every, done + component, next, checked)
  {
    var all := done + component;
    forall p {:trigger WalkBounded(sps, every, checked, p)} | IsPath(g, all, p)
      ensures WalkBounded(sps, every, checked, p)
    {
      assert Last(p) in all;
      if Last(p) !in component {
        WalkStaysIn(g, all, done, p);
      }
    }
    forall p, b {:trigger (Last(p), b) in next, IsPath(g, all, p)} | IsPath(g, all, p) && (Last(p), b) in next
      ensures WalkCovered(sps, every, checked, p, next[(Last(p), b)])
    {
      if Last(p) !in component {
        WalkStaysIn(g, all, done, p);
        assert (Last(p), b) in pending;
      }
    }
  }

  /** An acyclic component is one block without a self-loop: its countdown covers it. */
  lemma AcyclicCovered(g: Graph, sps: seq<seq<Stmt>>, every: nat, done: set<Block>, block: Block, st: HaltState,
                       checked: set<Stmt>)
    requires PredClosed(g, done) && WalksBounded(g, sps, every, done, checked)
    requires block !in done && !Edge(g, block, block)
    requires 0 < st.remaining <= every && |st.suffix| + st.remaining <= every
    requires Arrivals(g, sps, every, done, {block}, st, checked)
    requires RunChecks(st, every, SafepointsAt(sps, block)) <= checked
    ensures ComponentCovered(g, sps, every, done, {block}, checked,
                             map[block := RunDown(st, every, SafepointsAt(sps, block))])
  {
    var out := RunDown(st, every, SafepointsAt(sps, block));
    forall p {:trigger IsPath(g, done + {block}, p)} | IsPath(g, done + {block}, p) && Last(p) in {block}
      ensures WalkBounded(sps, every, checked, p) && WalkCovered(sps, every, checked, p, out)
    {
      var q := p[..|p| - 1];
      if q == [] {
        FreshCovers(st, every, checked);
        assert Bounded([], checked, every);
      } else {
        WalkPrefix(g, done + {block}, p);
        assert Last(q) in done + {block};
        WalkStaysIn(g, done + {block}, done, q);
        assert WalkCovered(sps, every, checked, q, st);
        assert WalkBounded(sps, every, checked, q);
      }
      RunDownCovers(st, every, checked, SafepointsAt(sps, block), Trace(sps, q));
    }
  }

  // ---------------------------------------------------------------------
  // Cyclic components

  lemma {:induction false} AllChecked(a: seq<Stmt>, b: seq<Stmt>, checked: set<Stmt>, every: nat)
    requires Bounded(a, checked, every) && every > 0
    requires forall s :: s in b ==> s in checked
    ensures Bounded(a + b, checked, every)
    ensures Tail(a + b, checked) == if b == [] then Tail(a, checked) else 0
  {
    if b == [] {
      assert a + b == a;
    } else {
      var init := b[..|b| - 1];
      assert forall s :: s in init ==> s in b;
      AllChecked(a, init, checked, every);
      assert (a + init) + [b[|b| - 1]] == a + b;
      TailAppend(a + init, b[|b| - 1], checked);
      BoundedAppend(a + init, b[|b| - 1], checked, every);
    }
  }

  /** Exit state of a block in a cyclic component: a safepoint in it was checked, otherwise nothing happened. */
  function CyclicOut(st: HaltState, every: nat, sps: seq<Stmt>): HaltState {
    FromRemaining(if sps != [] then every else st.remaining)
  }

  lemma {:induction false} CyclicWalk(g: Graph, sps: seq<seq<Stmt>>, every: nat, done: set<Block>,
                                      component: set<Block>, st: HaltState, checked: set<Stmt>, p: seq<Block>)
    requires PredClosed(g, done) && WalksBounded(g, sps, every, done, checked)
    requires component !! done && 0 < st.remaining <= every
    requires Arrivals(g, sps, every, done, component, st, checked)
    requires forall b, s :: b in component && s in SafepointsAt(sps, b) ==> s in checked
    requires IsPath(g, done + component, p) && Last(p) in component
    ensures WalkBounded(sps, every, checked, p)
    ensures Tail(Trace(sps, p), checked) + CyclicOut(st, every, SafepointsAt(sps, Last(p))).remaining <= every
    ensures Tail(Trace(sps, p), checked) + st.remaining <= every
  {
    var q := p[..|p| - 1];
    var here := SafepointsAt(sps, Last(p));
    assert forall s :: s in here ==> s in checked;
    if q == [] {
      assert Bounded([], checked, every);
    } else {
      WalkPrefix(g, done + component, p);
      assert Last(q) in done + component;
      if Last(q) in component {
        CyclicWalk(g, sps, every, done, component, st, checked, q);
        assert WalkBounded(sps, every, checked, q);
      } else {
        WalkStaysIn(g, done + component, done, q);
        assert WalkCovered(sps, every, checked, q, st);
        assert WalkBounded(sps, every, checked, q);
      }
    }
    AllChecked(Trace(sps, q), here, checked, every);
  }

  /** With every safepoint of a cyclic component checked, its exit states are covered. */
  lemma CyclicCovered(g: Graph, sps: seq<seq<Stmt>>, every: nat, done: set<Block>, component: set<Block>,
                      st: HaltState, checked: set<Stmt>, out: map<Block, HaltState>)
    requires PredClosed(g, done) && WalksBounded(g, sps, every, done, checked)
    requires component !! done && 0 < st.remaining <= every
    requires Arrivals(g, sps, every, done, component, st, checked)
    requires forall b, s :: b in component && s in SafepointsAt(sps, b) ==> s in checked
    requires out.Keys == component
    requires forall b :: b in component ==> out[b] == CyclicOut(st, every, SafepointsAt(sps, b))
    ensures ComponentCovered(g, sps, every, done, component, checked, out)
  {
    forall p {:trigger IsPath(g, done + component, p)} | IsPath(g, done + component, p) && Last(p) in component
      ensures WalkBounded(sps, every, checked, p) && WalkCovered(sps, every, checked, p, out[Last(p)])
    {
      CyclicWalk(g, sps, every, done, component, st, checked, p);
    }
  }

  /** When everything is processed, every window of `every` safepoints on any walk has a halt check. */
  lemma EveryWindowChecked(g: Graph, sps: seq<seq<Stmt>>, every: nat, pending: Edges, checked: set<Stmt>,
                           p: seq<Block>, i: nat)
    requires PassInv(g, sps, every, Vertices(g), pending, checked) && every > 0
    requires IsPath(g, Vertices(g), p) && i + every <= |Trace(sps, p)|
    ensures exists j :: i <= j < i + every && Trace(sps, p)[j] in checked
  {
    assert WalkBounded(sps, every, checked, p);
    BoundedWindow(Trace(sps, p), checked, every, i);
  }
}
