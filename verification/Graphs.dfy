/**
 Directed graphs over vertices `0..n`, with paths and reachability restricted
 to a set of allowed vertices.  The halt-check pass, Tarjan's algorithm and the
 block ordering all see the control-flow graph through this value.
 */
module Graphs {

  type Vertex = nat

  predicate Differ(a: Vertex, b: Vertex) {
    a != b
  }

  /** No vertex occurs twice. */
  ghost predicate Distinct(s: seq<Vertex>) {
    forall i, j {:trigger Differ(s[i], s[j])} :: 0 <= i < j < |s| ==> Differ(s[i], s[j])
  }

  lemma DistinctAt(s: seq<Vertex>, i: nat, j: nat)
    requires Distinct(s) && i < j < |s|
    ensures s[i] != s[j]
  {
    assert Differ(s[i], s[j]);
  }

  lemma AppendDistinct(s: seq<Vertex>, v: Vertex)
    requires Distinct(s) && v !in s
    ensures Distinct(s + [v])
  {
  }

  /** `succ[v]` lists the successors of `v`, in branch order. */
  datatype Graph = Graph(succ: seq<seq<Vertex>>)

  ghost predicate WellFormed(g: Graph) {
    forall v: Vertex, i :: v < |g.succ| && 0 <= i < |g.succ[v]| ==> g.succ[v][i] < |g.succ|
  }

  function Vertices(g: Graph): set<Vertex> {
    set v: Vertex {:trigger g.succ[v]} | v < |g.succ|
  }

  predicate Edge(g: Graph, a: Vertex, b: Vertex) {
    a < |g.succ| && b in g.succ[a]
  }

  /** A nonempty walk along edges that stays inside `allowed`. */
  ghost predicate IsPath(g: Graph, allowed: set<Vertex>, p: seq<Vertex>) {
    && |p| > 0
    && (forall i {:trigger p[i] in allowed} :: 0 <= i < |p| ==> p[i] in allowed)
    && (forall i {:trigger Edge(g, p[i], p[i + 1])} :: 0 <= i < |p| - 1 ==> Edge(g, p[i], p[i + 1]))
  }

  ghost predicate PathBetween(g: Graph, allowed: set<Vertex>, p: seq<Vertex>, a: Vertex, b: Vertex) {
    IsPath(g, allowed, p) && p[0] == a && p[|p| - 1] == b
  }

  ghost predicate Reach(g: Graph, allowed: set<Vertex>, a: Vertex, b: Vertex) {
    exists p :: PathBetween(g, allowed, p, a, b)
  }

  /** Each of the two vertices reaches the other inside `allowed`. */
  ghost predicate Mutual(g: Graph, allowed: set<Vertex>, a: Vertex, b: Vertex) {
    Reach(g, allowed, a, b) && Reach(g, allowed, b, a)
  }

  /** A closed walk: at least one edge, ending where it started. */
  ghost predicate IsCycle(g: Graph, allowed: set<Vertex>, p: seq<Vertex>) {
    IsPath(g, allowed, p) && |p| >= 2 && p[0] == p[|p| - 1]
  }

  lemma ReachRefl(g: Graph, allowed: set<Vertex>, a: Vertex)
    requires a in allowed
    ensures Reach(g, allowed, a, a)
  {
    assert PathBetween(g, allowed, [a], a, a);
  }

  lemma ReachEdge(g: Graph, allowed: set<Vertex>, a: Vertex, b: Vertex)
    requires a in allowed && b in allowed && Edge(g, a, b)
    ensures Reach(g, allowed, a, b)
  {
    assert PathBetween(g, allowed, [a, b], a, b);
  }

  lemma EdgeAt(g: Graph, allowed: set<Vertex>, p: seq<Vertex>, i: int)
    requires IsPath(g, allowed, p) && 0 <= i < |p| - 1
    ensures Edge(g, p[i], p[i + 1])
  {
  }

  lemma JoinPaths(g: Graph, allowed: set<Vertex>, p: seq<Vertex>, q: seq<Vertex>)
    requires IsPath(g, allowed, p) && IsPath(g, allowed, q)
    requires p[|p| - 1] == q[0]
    ensures PathBetween(g, allowed, p + q[1..], p[0], q[|q| - 1])
  {
    var r := p + q[1..];
    forall i | 0 <= i < |r| - 1 ensures Edge(g, r[i], r[i + 1]) {
      if i < |p| - 1 {
        EdgeAt(g, allowed, p, i);
      } else {
        EdgeAt(g, allowed, q, i - (|p| - 1));
      }
    }
    assert forall i :: 0 <= i < |r| ==> r[i] in allowed;
  }

  lemma ReachTrans(g: Graph, allowed: set<Vertex>, a: Vertex, b: Vertex, c: Vertex)
    requires Reach(g, allowed, a, b) && Reach(g, allowed, b, c)
    ensures Reach(g, allowed, a, c)
  {
    var p :| PathBetween(g, allowed, p, a, b);
    var q :| PathBetween(g, allowed, q, b, c);
    JoinPaths(g, allowed, p, q);
  }

  lemma ReachAllowed(g: Graph, allowed: set<Vertex>, a: Vertex, b: Vertex)
    requires Reach(g, allowed, a, b)
    ensures a in allowed && b in allowed
  {
  }

  /** A walk that starts inside `s` and ends outside takes an edge out of `s`. */
  lemma {:induction false} Crossing(g: Graph, allowed: set<Vertex>, s: set<Vertex>, p: seq<Vertex>)
    returns (x: Vertex, y: Vertex)
    requires IsPath(g, allowed, p) && p[0] in s && p[|p| - 1] !in s
    ensures x in s && y !in s && x in allowed && y in allowed && Edge(g, x, y)
    ensures Reach(g, allowed, p[0], x) && Reach(g, allowed, y, p[|p| - 1])
  {
    EdgeAt(g, allowed, p, 0);
    assert p[1] in allowed;
    if p[1] in s {
      assert PathBetween(g, allowed, [p[0], p[1]], p[0], p[1]);
      SubPath(g, allowed, p, 1, |p| - 1);
      assert p[1..|p| - 1 + 1] == p[1..];
      x, y := Crossing(g, allowed, s, p[1..]);
      ReachTrans(g, allowed, p[0], p[1], x);
    } else {
      x, y := p[0], p[1];
      ReachRefl(g, allowed, x);
      SubPath(g, allowed, p, 1, |p| - 1);
    }
  }

  /** A set closed under allowed edges is closed under reachability. */
  lemma ClosedUnderReach(g: Graph, allowed: set<Vertex>, s: set<Vertex>, a: Vertex, b: Vertex)
    requires forall x, y {:trigger Edge(g, x, y)} :: x in s && y in allowed && Edge(g, x, y) ==> y in s
    requires a in s && Reach(g, allowed, a, b)
    ensures b in s
  {
    if b !in s {
      var p :| PathBetween(g, allowed, p, a, b);
      var x, y := Crossing(g, allowed, s, p);
    }
  }

  /** Splits a walk at position `i`; both parts are walks. */
  lemma SubPath(g: Graph, allowed: set<Vertex>, p: seq<Vertex>, i: nat, j: nat)
    requires IsPath(g, allowed, p) && i <= j < |p|
    ensures PathBetween(g, allowed, p[i..j + 1], p[i], p[j])
  {
    var q := p[i..j + 1];
    forall k | 0 <= k < |q| - 1 ensures Edge(g, q[k], q[k + 1]) {
      EdgeAt(g, allowed, p, i + k);
    }
  }
}
