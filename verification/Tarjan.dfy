/**
 Tarjan's strongly connected components over the control-flow graph, as the
 halt-check pass runs it: a recursive visit with an index map, a low-link map,
 an explicit stack and an optional set of allowed blocks.
 */
module TarjanScc {
  import opened Graphs
  import opened Wrappers
  import opened ArenaSets

  function Min(a: nat, b: nat): nat {
    if a <= b then a else b
  }

  ghost predicate EmittedIn(comps: seq<seq<Vertex>>, last: int, x: Vertex) {
    exists i :: 0 <= i <= last < |comps| && x in comps[i]
  }

  /** Every vertex of every component emitted so far. */
  ghost predicate Emitted(comps: seq<seq<Vertex>>, x: Vertex) {
    EmittedIn(comps, |comps| - 1, x)
  }

  /** `component` is exactly the mutual-reachability class of each of its members. */
  ghost predicate IsScc(g: Graph, allowed: set<Vertex>, component: seq<Vertex>) {
    && |component| > 0
    && Distinct(component)
    && (forall x :: x in component ==> x in allowed)
    && forall x, y {:trigger Mutual(g, allowed, x, y)} ::
         x in component && y in allowed ==> (Mutual(g, allowed, x, y) <==> y in component)
  }

  /**
   What the emitted components satisfy: each is a strongly connected component,
   no vertex is emitted twice, and edges lead to the same or an earlier component.
   */
  ghost predicate ComponentsOk(g: Graph, allowed: set<Vertex>, comps: seq<seq<Vertex>>) {
    && (forall i :: 0 <= i < |comps| ==> IsScc(g, allowed, comps[i]))
    && (forall i, j, x {:trigger x in comps[i], x in comps[j]} ::
          0 <= i < |comps| && 0 <= j < |comps| && x in comps[i] && x in comps[j] ==> i == j)
    && (forall i, x, y {:trigger x in comps[i], Edge(g, x, y)} ::
          0 <= i < |comps| && x in comps[i] && y in allowed && Edge(g, x, y) ==> EmittedIn(comps, i, y))
  }

  /** The state between two steps of the visit; `grays` are the blocks whose visit is still running. */
  datatype State = State(index: map<Vertex, nat>, stack: seq<Vertex>, grays: set<Vertex>,
                         comps: seq<seq<Vertex>>, next: nat)

  /** `y` reaches a block whose visit is running and which was numbered no later. */
  ghost predicate ReachesGray(g: Graph, allowed: set<Vertex>, s: State, y: Vertex) {
    exists x :: x in s.grays && x in s.index && y in s.index && s.index[x] <= s.index[y] && Reach(g, allowed, y, x)
  }

  ghost predicate Older(index: map<Vertex, nat>, a: Vertex, b: Vertex) {
    a in index && b in index && index[a] < index[b]
  }

  /** Stack vertices are numbered, in increasing order from the bottom. */
  ghost predicate Sorted(index: map<Vertex, nat>, stack: seq<Vertex>) {
    && (forall x :: x in stack ==> x in index)
    && (forall i, j {:trigger Older(index, stack[i], stack[j])} :: 0 <= i < j < |stack| ==>
        Older(index, stack[i], stack[j]))
  }

  ghost predicate StackOk(g: Graph, allowed: set<Vertex>, s: State) {
    && Sorted(s.index, s.stack)
    && (forall x, y {:trigger Reach(g, allowed, x, y)} ::
          x in s.stack && y in s.stack && s.index[x] <= s.index[y] ==> Reach(g, allowed, x, y))
    && (forall x :: x in s.grays ==> x in s.stack)
    && (forall y {:trigger ReachesGray(g, allowed, s, y)} :: y in s.stack ==> ReachesGray(g, allowed, s, y))
  }

  /** Every numbered vertex is on the stack or emitted, never both. */
  ghost predicate PartitionOk(s: State) {
    && (forall x {:trigger Emitted(s.comps, x)} :: x in s.index <==> x in s.stack || Emitted(s.comps, x))
    && (forall x {:trigger Emitted(s.comps, x)} :: x in s.stack ==> !Emitted(s.comps, x))
  }

  /** A finished vertex has no successor that is still undiscovered. */
  ghost predicate BlackClosed(g: Graph, allowed: set<Vertex>, index: map<Vertex, nat>, grays: set<Vertex>) {
    forall x, y {:trigger Edge(g, x, y)} ::
      x in index && x !in grays && y in allowed && Edge(g, x, y) ==> y in index
  }

  ghost predicate Ok(g: Graph, allowed: set<Vertex>, s: State) {
    && s.index.Keys <= allowed
    && (forall x :: x in s.index ==> s.index[x] < s.next)
    && StackOk(g, allowed, s)
    && ComponentsOk(g, allowed, s.comps)
    && PartitionOk(s)
    && BlackClosed(g, allowed, s.index, s.grays)
  }

  /** Emitted vertices only reach emitted vertices. */
  lemma EmittedClosed(g: Graph, allowed: set<Vertex>, s: State, x: Vertex, y: Vertex)
    requires Ok(g, allowed, s)
    requires Emitted(s.comps, x) && Reach(g, allowed, x, y)
    ensures Emitted(s.comps, y)
  {
    var closed := set v | v in s.index && Emitted(s.comps, v);
    forall a, b | a in closed && b in allowed && Edge(g, a, b) ensures b in closed {
      var i :| 0 <= i < |s.comps| && a in s.comps[i];
      assert EmittedIn(s.comps, i, b);
    }
    assert x in s.index;
    ClosedUnderReach(g, allowed, closed, x, y);
  }

  lemma PushStackOk(g: Graph, allowed: set<Vertex>, s: State, v: Vertex, t: State)
    requires StackOk(g, allowed, s) && v in allowed && v !in s.index
    requires forall x :: x in s.index ==> s.index[x] < s.next
    requires forall x :: x in s.grays ==> Reach(g, allowed, x, v)
    requires t == State(s.index[v := s.next], s.stack + [v], s.grays + {v}, s.comps, s.next + 1)
    ensures StackOk(g, allowed, t)
  {
    forall i, j | 0 <= i < j < |t.stack| ensures Older(t.index, t.stack[i], t.stack[j]) {
      if j < |s.stack| {
        assert Older(s.index, s.stack[i], s.stack[j]);
      } else {
        assert s.stack[i] in s.stack;
      }
    }
    forall x, y {:trigger Reach(g, allowed, x, y)} | x in t.stack && y in t.stack && t.index[x] <= t.index[y]
      ensures Reach(g, allowed, x, y)
    {
      PushReach(g, allowed, s, v, x, y);
    }
    forall y {:trigger ReachesGray(g, allowed, t, y)} | y in t.stack ensures ReachesGray(g, allowed, t, y) {
      if y != v {
        assert ReachesGray(g, allowed, s, y);
        var x :| x in s.grays && x in s.index && s.index[x] <= s.index[y] && Reach(g, allowed, y, x);
        assert x in t.grays;
      } else {
        ReachRefl(g, allowed, v);
        assert v in t.grays;
      }
    }
  }

  lemma PushReach(g: Graph, allowed: set<Vertex>, s: State, v: Vertex, x: Vertex, y: Vertex)
    requires StackOk(g, allowed, s) && v in allowed
    requires forall z :: z in s.grays ==> Reach(g, allowed, z, v)
    requires x in s.stack || x == v
    requires y == v || (x in s.stack && y in s.stack && s.index[x] <= s.index[y])
    ensures Reach(g, allowed, x, y)
  {
    if x == v {
      ReachRefl(g, allowed, v);
    } else if y == v {
      assert ReachesGray(g, allowed, s, x);
      var z :| z in s.grays && Reach(g, allowed, x, z);
      ReachTrans(g, allowed, x, z, v);
    }
  }

  /** Starting the visit of `v`: it is numbered, pushed and turns gray. */
  lemma PushOk(g: Graph, allowed: set<Vertex>, s: State, v: Vertex, t: State)
    requires Ok(g, allowed, s) && v in allowed && v !in s.index
    requires forall x :: x in s.grays ==> Reach(g, allowed, x, v)
    requires t == State(s.index[v := s.next], s.stack + [v], s.grays + {v}, s.comps, s.next + 1)
    ensures Ok(g, allowed, t)
  {
    PushStackOk(g, allowed, s, v, t);
    assert forall x :: x in t.stack <==> x in s.stack || x == v;
    assert PartitionOk(t);
  }

  /** A stack vertex occurs once, so it is not among those above or below it. */
  lemma StackDistinct(stack: seq<Vertex>, index: map<Vertex, nat>, i: nat)
    requires Sorted(index, stack) && i < |stack|
    ensures stack[i] !in stack[..i] && stack[i] !in stack[i + 1..]
  {
    var below, above := stack[..i], stack[i + 1..];
    forall j | 0 <= j < |below| ensures below[j] != stack[i] {
      assert Older(index, stack[j], stack[i]);
    }
    forall j | 0 <= j < |above| ensures above[j] != stack[i] {
      assert Older(index, stack[i], stack[i + 1 + j]);
    }
  }

  lemma SamePosition(stack: seq<Vertex>, index: map<Vertex, nat>, i: nat, j: nat)
    requires Sorted(index, stack) && i < |stack| && j < |stack| && stack[i] == stack[j]
    ensures i == j
  {
    assert i < j ==> Older(index, stack[i], stack[j]);
    assert j < i ==> Older(index, stack[j], stack[i]);
  }

  /** `v` reaches some stack vertex numbered `low`. */
  ghost predicate LowWitness(g: Graph, allowed: set<Vertex>, s: State, v: Vertex, low: nat) {
    exists z :: z in s.stack && z in s.index && s.index[z] == low && Reach(g, allowed, v, z)
  }

  /** What is known once all successors of the gray vertex `v` have been handled. */
  ghost predicate Explored(g: Graph, allowed: set<Vertex>, s: State, v: Vertex, low: nat) {
    && Ok(g, allowed, s)
    && v in s.grays && v in s.stack && v in s.index
    && (forall x :: x in s.grays && x in s.index ==> s.index[x] <= s.index[v])
    && low <= s.index[v]
    && LowWitness(g, allowed, s, v, low)
    && (forall y {:trigger Edge(g, v, y)} :: y in allowed && Edge(g, v, y) ==> y in s.index)
    && (forall x, y {:trigger Edge(g, x, y)} ::
          x in s.stack && y in s.stack && s.index[y] < s.index[v] <= s.index[x] && Edge(g, x, y) ==> low <= s.index[y])
  }

  /** The stack vertices from `v` upwards. */
  ghost predicate InSegment(s: State, v: Vertex, x: Vertex) {
    x in s.stack && x in s.index && v in s.index && s.index[v] <= s.index[x]
  }

  /** A vertex above `v` on the stack cannot escape to below `v` when `v` is a root. */
  lemma RootSegmentIsClosed(g: Graph, allowed: set<Vertex>, s: State, v: Vertex, x: Vertex, y: Vertex)
    requires v in s.index && Explored(g, allowed, s, v, s.index[v])
    requires InSegment(s, v, x) && Reach(g, allowed, x, y)
    ensures InSegment(s, v, y) || Emitted(s.comps, y)
  {
    var closed := set u | u in s.index && (InSegment(s, v, u) || Emitted(s.comps, u));
    forall a, b | a in closed && b in allowed && Edge(g, a, b) ensures b in closed {
      if Emitted(s.comps, a) {
        ReachEdge(g, allowed, a, b);
        EmittedClosed(g, allowed, s, a, b);
      } else {
        if a in s.grays {
          SameIndex(g, allowed, s, a, v);
        }
        assert b in s.index;
      }
    }
    ClosedUnderReach(g, allowed, closed, x, y);
  }

  lemma SameIndex(g: Graph, allowed: set<Vertex>, s: State, a: Vertex, b: Vertex)
    requires Ok(g, allowed, s) && a in s.stack && b in s.stack && s.index[a] == s.index[b]
    ensures a == b
  {
    var i :| 0 <= i < |s.stack| && s.stack[i] == a;
    var j :| 0 <= j < |s.stack| && s.stack[j] == b;
    assert i < j ==> Older(s.index, s.stack[i], s.stack[j]);
    assert j < i ==> Older(s.index, s.stack[j], s.stack[i]);
  }

  /** The stack segment above a root `v` is one strongly connected component. */
  lemma RootSegmentIsScc(g: Graph, allowed: set<Vertex>, s: State, v: Vertex, component: seq<Vertex>)
    requires v in s.index && Explored(g, allowed, s, v, s.index[v])
    requires Distinct(component) && forall x :: x in component <==> InSegment(s, v, x)
    ensures IsScc(g, allowed, component)
  {
    assert InSegment(s, v, v);
    assert v in component;
    forall x | x in component ensures Mutual(g, allowed, x, v) {
      assert InSegment(s, v, x);
      assert ReachesGray(g, allowed, s, x);
      var z :| z in s.grays && z in s.index && s.index[z] <= s.index[x] && Reach(g, allowed, x, z);
      RootSegmentIsClosed(g, allowed, s, v, x, z);
      SameIndex(g, allowed, s, z, v);
    }
    forall x, y | x in component && y in allowed ensures Mutual(g, allowed, x, y) <==> y in component {
      assert Mutual(g, allowed, x, v);
      if y in component {
        assert Mutual(g, allowed, y, v);
        ReachTrans(g, allowed, x, v, y);
        ReachTrans(g, allowed, y, v, x);
      } else if Mutual(g, allowed, x, y) {
        assert InSegment(s, v, x);
        RootSegmentIsClosed(g, allowed, s, v, x, y);
        EmittedClosed(g, allowed, s, y, x);
        assert false;
      }
    }
  }

  lemma PopComponentsOk(g: Graph, allowed: set<Vertex>, s: State, v: Vertex, component: seq<Vertex>)
    requires v in s.index && Explored(g, allowed, s, v, s.index[v])
    requires Distinct(component) && forall x :: x in component <==> InSegment(s, v, x)
    ensures ComponentsOk(g, allowed, s.comps + [component])
    ensures forall x :: Emitted(s.comps + [component], x) <==> Emitted(s.comps, x) || InSegment(s, v, x)
  {
    var comps := s.comps + [component];
    RootSegmentIsScc(g, allowed, s, v, component);
    forall x ensures Emitted(comps, x) <==> Emitted(s.comps, x) || InSegment(s, v, x) {
      if Emitted(s.comps, x) {
        var i :| 0 <= i < |s.comps| && x in s.comps[i];
        assert x in comps[i];
      }
      if InSegment(s, v, x) {
        assert x in comps[|s.comps|];
      }
      if Emitted(comps, x) {
        var i :| 0 <= i < |comps| && x in comps[i];
        assert comps[i] == if i == |s.comps| then component else s.comps[i];
      }
    }
    forall i, x | 0 <= i < |s.comps| && x in s.comps[i] ensures x !in component {
      assert Emitted(s.comps, x);
    }
    forall i, x, y | 0 <= i < |comps| && x in comps[i] && y in allowed && Edge(g, x, y)
      ensures EmittedIn(comps, i, y)
    {
      if i < |s.comps| {
        assert x in s.comps[i];
        assert EmittedIn(s.comps, i, y);
        var j :| 0 <= j <= i && y in s.comps[j];
        assert y in comps[j];
      } else {
        ReachEdge(g, allowed, x, y);
        RootSegmentIsClosed(g, allowed, s, v, x, y);
        assert Emitted(comps, y);
      }
    }
  }

  /** The stack below a root after its segment is gone. */
  lemma PopStackOk(g: Graph, allowed: set<Vertex>, s: State, k: nat, t: State)
    requires StackOk(g, allowed, s) && k < |s.stack|
    requires forall x :: x in s.grays && x in s.index ==> s.index[x] <= s.index[s.stack[k]]
    requires t.index == s.index && t.stack == s.stack[..k] && t.grays == s.grays - {s.stack[k]}
    ensures StackOk(g, allowed, t)
  {
    assert forall x :: x in t.stack ==> x in s.stack;
    forall x | x in t.grays ensures x in t.stack {
      var i :| 0 <= i < |s.stack| && s.stack[i] == x;
      assert i > k ==> Older(s.index, s.stack[k], s.stack[i]);
      assert i < k;
      assert t.stack[i] == x;
    }
    forall y {:trigger ReachesGray(g, allowed, t, y)} | y in t.stack ensures ReachesGray(g, allowed, t, y) {
      assert ReachesGray(g, allowed, s, y);
      var x :| x in s.grays && x in s.index && s.index[x] <= s.index[y] && Reach(g, allowed, y, x);
      var j :| 0 <= j < k && t.stack[j] == y;
      assert t.stack[j] == s.stack[j];
      assert Older(s.index, s.stack[j], s.stack[k]);
      assert x in t.grays;
    }
  }

  /** The stack positions from `k` on hold exactly the vertices numbered from `s.stack[k]` on. */
  lemma SegmentPositions(g: Graph, allowed: set<Vertex>, s: State, k: nat)
    requires StackOk(g, allowed, s) && k < |s.stack|
    ensures forall x :: x in s.stack[k..] <==> InSegment(s, s.stack[k], x)
    ensures forall x :: x in s.stack[..k] <==> x in s.stack && !InSegment(s, s.stack[k], x)
  {
    forall x | x in s.stack
      ensures x in s.stack[k..] <==> InSegment(s, s.stack[k], x)
      ensures x in s.stack[..k] <==> !InSegment(s, s.stack[k], x)
    {
      var i :| 0 <= i < |s.stack| && s.stack[i] == x;
      if i < k {
        assert s.stack[..k][i] == x;
        assert Older(s.index, s.stack[i], s.stack[k]);
      } else {
        assert s.stack[k..][i - k] == x;
        assert i > k ==> Older(s.index, s.stack[k], s.stack[i]);
      }
      if x in s.stack[..k] {
        var j :| 0 <= j < k && s.stack[..k][j] == x;
        assert s.stack[..k][j] == s.stack[j];
        assert Older(s.index, s.stack[j], s.stack[k]);
      }
      if x in s.stack[k..] {
        var j :| 0 <= j < |s.stack| - k && s.stack[k..][j] == x;
        assert s.stack[k..][j] == s.stack[k + j];
        assert j > 0 ==> Older(s.index, s.stack[k], s.stack[k + j]);
      }
    }
  }

  /** Popping the segment of a root and emitting it keeps the state consistent. */
  lemma PopOk(g: Graph, allowed: set<Vertex>, s: State, k: nat, v: Vertex, component: seq<Vertex>, t: State)
    requires v in s.index && Explored(g, allowed, s, v, s.index[v])
    requires k < |s.stack| && s.stack[k] == v
    requires Distinct(component) && forall x :: x in component <==> x in s.stack[k..]
    requires t == State(s.index, s.stack[..k], s.grays - {v}, s.comps + [component], s.next)
    ensures Ok(g, allowed, t)
  {
    SegmentPositions(g, allowed, s, k);
    PopComponentsOk(g, allowed, s, v, component);
    PopStackOk(g, allowed, s, k, t);
    FinishBlackClosed(g, allowed, s.index, s.grays, v);
    PopPartitionOk(s, k, t);
  }

  lemma PopPartitionOk(s: State, k: nat, t: State)
    requires PartitionOk(s) && k < |s.stack| && s.stack[k] in s.index
    requires t.index == s.index && t.stack == s.stack[..k]
    requires forall x :: x in t.stack <==> x in s.stack && !InSegment(s, s.stack[k], x)
    requires forall x :: Emitted(t.comps, x) <==> Emitted(s.comps, x) || InSegment(s, s.stack[k], x)
    ensures PartitionOk(t)
  {
  }

  lemma FinishBlackClosed(g: Graph, allowed: set<Vertex>, index: map<Vertex, nat>, grays: set<Vertex>, v: Vertex)
    requires BlackClosed(g, allowed, index, grays)
    requires forall y {:trigger Edge(g, v, y)} :: y in allowed && Edge(g, v, y) ==> y in index
    ensures BlackClosed(g, allowed, index, grays - {v})
  {
  }

  /** A finished vertex that reaches an older gray one is no longer needed as a witness. */
  lemma KeepReachesGray(g: Graph, allowed: set<Vertex>, s: State, v: Vertex, z: Vertex, y: Vertex, t: State)
    requires ReachesGray(g, allowed, s, y)
    requires v in s.index && z in s.grays && z in s.index && s.index[z] < s.index[v] && Reach(g, allowed, v, z)
    requires t == s.(grays := s.grays - {v})
    ensures ReachesGray(g, allowed, t, y)
  {
    var x :| x in s.grays && x in s.index && y in s.index && s.index[x] <= s.index[y] && Reach(g, allowed, y, x);
    if x == v {
      ReachTrans(g, allowed, y, v, z);
      assert z in t.grays;
    } else {
      assert x in t.grays;
    }
  }

  lemma KeepStackOk(g: Graph, allowed: set<Vertex>, s: State, v: Vertex, low: nat, t: State)
    requires StackOk(g, allowed, s) && v in s.index
    requires LowWitness(g, allowed, s, v, low) && low < s.index[v]
    requires t == s.(grays := s.grays - {v})
    ensures StackOk(g, allowed, t)
  {
    var r :| r in s.stack && r in s.index && s.index[r] == low && Reach(g, allowed, v, r);
    assert ReachesGray(g, allowed, s, r);
    var z :| z in s.grays && z in s.index && s.index[z] <= s.index[r] && Reach(g, allowed, r, z);
    ReachTrans(g, allowed, v, r, z);
    forall y {:trigger ReachesGray(g, allowed, t, y)} | y in t.stack ensures ReachesGray(g, allowed, t, y) {
      KeepReachesGray(g, allowed, s, v, z, y, t);
    }
  }

  /** Finishing a vertex that is not a root leaves it on the stack. */
  lemma KeepOk(g: Graph, allowed: set<Vertex>, s: State, v: Vertex, low: nat, t: State)
    requires v in s.index && Explored(g, allowed, s, v, low) && low < s.index[v]
    requires t == s.(grays := s.grays - {v})
    ensures Ok(g, allowed, t)
  {
    KeepStackOk(g, allowed, s, v, low, t);
    FinishBlackClosed(g, allowed, s.index, s.grays, v);
  }

  /** The low link after a recursive visit of `succ` still names a stack vertex that `v` reaches. */
  lemma AfterChild(g: Graph, allowed: set<Vertex>, s: State, v: Vertex, low: nat, succ: Vertex, succLow: nat)
    requires Reach(g, allowed, v, succ)
    requires LowWitness(g, allowed, s, v, low)
    requires succLow < low ==> LowWitness(g, allowed, s, succ, succLow)
    ensures LowWitness(g, allowed, s, v, Min(low, succLow))
  {
    if succLow < low {
      var z :| z in s.stack && z in s.index && s.index[z] == succLow && Reach(g, allowed, succ, z);
      ReachTrans(g, allowed, v, succ, z);
    }
  }

  /** Edges from vertices discovered since `s0` back into its stack are covered by `low`. */
  ghost predicate NewEdges(g: Graph, s0: State, s: State, low: nat) {
    forall x, y {:trigger Edge(g, x, y)} ::
      x in s.stack && x !in s0.index && y in s0.stack && y in s.index && Edge(g, x, y) ==> low <= s.index[y]
  }

  /** Numbers, stack entries and components are only ever added. */
  ghost predicate Grows(s0: State, s: State) {
    && (forall x :: x in s0.index ==> x in s.index && s.index[x] == s0.index[x])
    && (forall x :: x in s.index && x !in s0.index ==> s0.next <= s.index[x])
    && s0.next <= s.next
    && s0.stack <= s.stack
    && s0.comps <= s.comps
  }

  ghost predicate SameLinks(before: map<Vertex, nat>, after: map<Vertex, nat>, except: Vertex) {
    forall x :: x in before && x != except ==> x in after && after[x] == before[x]
  }

  lemma LinksAfterVisit(before: map<Vertex, nat>, mid: map<Vertex, nat>, block: Vertex, succ: Vertex, low: nat)
    requires SameLinks(before, mid, succ) && succ !in before
    ensures SameLinks(before, mid[block := low], block)
  {
  }

  /** The loop invariant of a visit of `block` that started in state `s0`. */
  ghost predicate Visiting(g: Graph, allowed: set<Vertex>, s: State, s0: State, block: Vertex, low: nat) {
    && block !in s0.index && block in s.index && s.index[block] == s0.next
    && s.grays == s0.grays + {block}
    && Grows(s0, s)
    && s0.stack + [block] <= s.stack
    && low <= s.index[block]
    && LowWitness(g, allowed, s, block, low)
    && NewEdgesBut(g, s0, s, block, low)
  }

  ghost predicate NewEdgesBut(g: Graph, s0: State, s: State, block: Vertex, low: nat) {
    forall x, y {:trigger Edge(g, x, y)} ::
      x in s.stack && x !in s0.index && x != block && y in s0.stack && y in s.index && Edge(g, x, y) ==>
          low <= s.index[y]
  }

  ghost predicate Handled(allowed: set<Vertex>, s: State, s0: State, succ: Vertex, low: nat) {
    succ in allowed ==> succ in s.index && (succ in s0.stack ==> low <= s.index[succ])
  }

  ghost predicate HandledUpTo(allowed: set<Vertex>, s: State, s0: State, succs: seq<Vertex>, n: nat, low: nat) {
    n <= |succs| && forall j :: 0 <= j < n ==> Handled(allowed, s, s0, succs[j], low)
  }

  lemma HandledGrows(allowed: set<Vertex>, before: State, s: State, s0: State, succs: seq<Vertex>, n: nat,
                     low: nat, newLow: nat)
    requires HandledUpTo(allowed, before, s0, succs, n, low) && newLow <= low
    requires Grows(before, s) && n < |succs| && Handled(allowed, s, s0, succs[n], newLow)
    ensures HandledUpTo(allowed, s, s0, succs, n + 1, newLow)
  {
  }

  lemma GraysReach(g: Graph, allowed: set<Vertex>, grays: set<Vertex>, block: Vertex, succ: Vertex)
    requires forall x :: x in grays ==> Reach(g, allowed, x, block)
    requires Reach(g, allowed, block, succ)
    ensures forall x :: x in grays + {block} ==> Reach(g, allowed, x, succ)
  {
    forall x | x in grays ensures Reach(g, allowed, x, succ) {
      ReachTrans(g, allowed, x, block, succ);
    }
  }

  /** The state right after a block is numbered and pushed. */
  lemma VisitStarts(g: Graph, allowed: set<Vertex>, s: State, v: Vertex, t: State)
    requires Ok(g, allowed, s) && v in allowed && v !in s.index
    requires forall x :: x in s.grays ==> Reach(g, allowed, x, v)
    requires t == State(s.index[v := s.next], s.stack + [v], s.grays + {v}, s.comps, s.next + 1)
    ensures Ok(g, allowed, t) && Visiting(g, allowed, t, s, v, s.next)
  {
    PushOk(g, allowed, s, v, t);
    ReachRefl(g, allowed, v);
    assert v in t.stack;
    assert forall x :: x in t.stack ==> x in s.stack || x == v;
  }

  /** What one complete visit of `v`, started in state `s0`, leaves behind. */
  ghost predicate Visited(g: Graph, allowed: set<Vertex>, s0: State, s: State, v: Vertex, low: nat) {
    && s.grays == s0.grays
    && v in s.index && v !in s0.index && s.index[v] == s0.next
    && Grows(s0, s)
    && low <= s.index[v]
    && (low < s.index[v] ==> LowWitness(g, allowed, s, v, low))
    && NewEdges(g, s0, s, low)
  }

  lemma AfterVisit(g: Graph, allowed: set<Vertex>, before: State, s: State, s0: State, block: Vertex, low: nat,
                   succ: Vertex, succLow: nat)
    requires Visiting(g, allowed, before, s0, block, low) && Ok(g, allowed, before) && Ok(g, allowed, s)
    requires Reach(g, allowed, block, succ)
    requires Visited(g, allowed, before, s, succ, succLow)
    ensures Visiting(g, allowed, s, s0, block, Min(low, succLow))
    ensures Handled(allowed, s, s0, succ, Min(low, succLow))
  {
    var newLow := Min(low, succLow);
    KeepWitness(g, allowed, before, s, block, low);
    AfterChild(g, allowed, s, block, low, succ, succLow);
    StackOfVisit(g, allowed, before, s);
    assert before.stack <= s.stack && s0.stack <= before.stack;
    AfterVisitEdges(g, before, s, s0, block, low, succLow);
  }

  /** An edge to a vertex that is still on the stack lowers the low link to its number. */
  lemma AfterBackEdge(g: Graph, allowed: set<Vertex>, s: State, s0: State, block: Vertex, low: nat, succ: Vertex)
    requires Visiting(g, allowed, s, s0, block, low)
    requires Reach(g, allowed, block, succ) && succ in s.stack && succ in s.index
    ensures Visiting(g, allowed, s, s0, block, Min(low, s.index[succ]))
    ensures Handled(allowed, s, s0, succ, Min(low, s.index[succ]))
  {
  }

  lemma AfterVisitEdges(g: Graph, before: State, s: State, s0: State, block: Vertex, low: nat, succLow: nat)
    requires NewEdgesBut(g, s0, before, block, low) && NewEdges(g, before, s, succLow)
    requires Grows(before, s) && Sorted(before.index, before.stack)
    requires s0.stack <= before.stack
    requires forall x :: x in before.index && x in s.stack ==> x in before.stack
    ensures NewEdgesBut(g, s0, s, block, Min(low, succLow))
  {
  }

  lemma KeepWitness(g: Graph, allowed: set<Vertex>, before: State, s: State, v: Vertex, low: nat)
    requires LowWitness(g, allowed, before, v, low) && Grows(before, s)
    ensures LowWitness(g, allowed, s, v, low)
  {
  }

  /** A vertex numbered before the visit that is on the stack after it was on the stack all along. */
  lemma StackOfVisit(g: Graph, allowed: set<Vertex>, before: State, s: State)
    requires PartitionOk(before) && PartitionOk(s) && Grows(before, s)
    ensures forall x :: x in before.index && x in s.stack ==> x in before.stack
  {
    forall x | x in before.index && x in s.stack ensures x in before.stack {
      if Emitted(before.comps, x) {
        var i :| 0 <= i < |before.comps| && x in before.comps[i];
        assert x in s.comps[i];
        assert Emitted(s.comps, x);
      }
    }
  }

  lemma AllHandled(g: Graph, allowed: set<Vertex>, s: State, s0: State, block: Vertex, low: nat)
    requires Visiting(g, allowed, s, s0, block, low) && block < |g.succ|
    requires Ok(g, allowed, s0) && Ok(g, allowed, s)
    requires HandledUpTo(allowed, s, s0, g.succ[block], |g.succ[block]|, low)
    ensures Explored(g, allowed, s, block, low)
    ensures NewEdges(g, s0, s, low)
  {
    StackOfVisit(g, allowed, s0, s);
    forall y | y in g.succ[block] ensures Handled(allowed, s, s0, y, low) {
      var j :| 0 <= j < |g.succ[block]| && g.succ[block][j] == y;
    }
    assert block in s.stack by {
      assert s.stack[|s0.stack|] == block;
    }
  }

  class Tarjan {
    const g: Graph
    const allowed: Option<set<Vertex>>

    var nextIndex: nat
    var index: map<Vertex, nat>
    var lowLink: map<Vertex, nat>
    var stack: seq<Vertex>
    var onStack: set<Vertex>
    var room: Room
    var components: seq<seq<Vertex>>
    ghost var grays: set<Vertex>

    constructor (g: Graph, allowed: Option<set<Vertex>>)
      requires WellFormed(g)
      requires allowed.Some? ==> allowed.value <= Vertices(g)
      ensures this.g == g && this.allowed == allowed
      ensures Valid() && index == map[] && stack == [] && components == []
    {
      this.g, this.allowed := g, allowed;
      nextIndex, index, lowLink := 0, map[], map[];
      stack, onStack, components := [], {}, [];
      room, grays := NEW_ROOM, {};
    }

    function Allowed(): set<Vertex> {
      if allowed.Some? then allowed.value else Vertices(g)
    }

    predicate BlockIsAllowed(block: Vertex)
      requires block < |g.succ|
      ensures BlockIsAllowed(block) <==> block in Allowed()
    {
      allowed.None? || block in allowed.value
    }

    ghost function View(): State
      reads this
    {
      State(index, stack, grays, components, nextIndex)
    }

    ghost predicate Valid()
      reads this
    {
      && WellFormed(g)
      && Allowed() <= Vertices(g)
      && Ok(g, Allowed(), View())
      && (forall x :: x in onStack <==> x in stack)
      && index.Keys == lowLink.Keys
      && RoomFor(room, index.Keys)
    }

    /** The visit of one block and of everything first discovered from it. */
    method StrongConnect(block: Vertex)
      requires Valid() && block in Allowed() && block !in index
      requires forall x :: x in grays ==> Reach(g, Allowed(), x, block)
      modifies this
      ensures Valid() && block in lowLink
      ensures Visited(g, Allowed(), old(View()), View(), block, lowLink[block])
      ensures SameLinks(old(lowLink), lowLink, block)
      decreases Allowed() - index.Keys, 0
    {
      ghost var s0 := View();
      Begin(block);
      VisitSuccessors(block, s0);
      AllHandled(g, Allowed(), View(), s0, block, lowLink[block]);
      Finish(block, s0);
    }

    /** The loop over the successors of `block`. */
    method VisitSuccessors(block: Vertex, ghost s0: State)
      requires Valid() && block in lowLink && Visiting(g, Allowed(), View(), s0, block, lowLink[block])
      requires block in Allowed() && forall x :: x in s0.grays ==> Reach(g, Allowed(), x, block)
      modifies this
      ensures Valid() && block in lowLink && Visiting(g, Allowed(), View(), s0, block, lowLink[block])
      ensures SameLinks(old(lowLink), lowLink, block)
      ensures HandledUpTo(Allowed(), View(), s0, g.succ[block], |g.succ[block]|, lowLink[block])
      decreases Allowed() - index.Keys, 3
    {
      var successors := g.succ[block];
      var i := 0;
      while i < |successors|
        invariant 0 <= i <= |successors| && old(index.Keys) <= index.Keys
        invariant Valid() && block in lowLink && Visiting(g, Allowed(), View(), s0, block, lowLink[block])
        invariant SameLinks(old(lowLink), lowLink, block)
        invariant HandledUpTo(Allowed(), View(), s0, successors, i, lowLink[block])
      {
        ghost var before, low := View(), lowLink[block];
        VisitSuccessor(block, successors[i], s0);
        HandledGrows(Allowed(), before, View(), s0, successors, i, low, lowLink[block]);
        i := i + 1;
      }
    }

    lemma BeginRoom(block: Vertex)
      requires RoomFor(room, index.Keys) && block !in index && index.Keys == lowLink.Keys
      ensures RoomFor(Inserted(room, block), index[block := nextIndex].Keys)
      ensures index[block := nextIndex].Keys == lowLink[block := nextIndex].Keys
    {
      InsertKeepsRoom(room, index.Keys, block);
      assert index[block := nextIndex].Keys == index.Keys + {block};
    }

    /** Numbers `block` and pushes it. */
    method Begin(block: Vertex)
      requires Valid() && block in Allowed() && block !in index
      requires forall x :: x in grays ==> Reach(g, Allowed(), x, block)
      modifies this
      ensures Valid() && block in lowLink && Visiting(g, Allowed(), View(), old(View()), block, lowLink[block])
      ensures SameLinks(old(lowLink), lowLink, block)
    {
      ghost var s0 := View();
      BeginRoom(block);
      index := index[block := nextIndex];
      lowLink := lowLink[block := nextIndex];
      nextIndex := nextIndex + 1;
      stack := stack + [block];
      onStack := onStack + {block};
      room := Inserted(room, block);
      grays := grays + {block};
      VisitStarts(g, Allowed(), s0, block, View());
    }

    /** One turn of the loop over the successors of `block`. */
    method VisitSuccessor(block: Vertex, succ: Vertex, ghost s0: State)
      requires Valid() && block in index && Visiting(g, Allowed(), View(), s0, block, lowLink[block])
      requires Edge(g, block, succ) && block in Allowed()
      requires forall x :: x in s0.grays ==> Reach(g, Allowed(), x, block)
      modifies this
      ensures Valid() && block in index && Visiting(g, Allowed(), View(), s0, block, lowLink[block])
      ensures lowLink[block] <= old(lowLink[block])
      ensures Grows(old(View()), View())
      ensures SameLinks(old(lowLink), lowLink, block)
      ensures Handled(Allowed(), View(), s0, succ, lowLink[block])
      decreases Allowed() - index.Keys, 2
    {
      if BlockIsAllowed(succ) {
        ReachEdge(g, Allowed(), block, succ);
        if succ !in index {
          VisitTreeEdge(block, succ, s0);
        } else if succ in onStack {
          var blockLowLink := lowLink[block];
          var succIndex := index[succ];
          AfterBackEdge(g, Allowed(), View(), s0, block, blockLowLink, succ);
          SetLowLink(block, Min(blockLowLink, succIndex));
        } else {
          assert s0.stack <= stack;
        }
      }
    }

    /** Visits an undiscovered successor and takes over its low link. */
    method VisitTreeEdge(block: Vertex, succ: Vertex, ghost s0: State)
      requires Valid() && block in index && Visiting(g, Allowed(), View(), s0, block, lowLink[block])
      requires block in Allowed() && succ in Allowed() && succ !in index && Reach(g, Allowed(), block, succ)
      requires forall x :: x in s0.grays ==> Reach(g, Allowed(), x, block)
      modifies this
      ensures Valid() && block in index && Visiting(g, Allowed(), View(), s0, block, lowLink[block])
      ensures lowLink[block] <= old(lowLink[block])
      ensures Grows(old(View()), View())
      ensures SameLinks(old(lowLink), lowLink, block)
      ensures Handled(Allowed(), View(), s0, succ, lowLink[block])
      decreases Allowed() - index.Keys, 1
    {
      ghost var before := View();
      GraysReach(g, Allowed(), s0.grays, block, succ);
      StrongConnect(succ);
      var blockLowLink := lowLink[block];
      var succLowLink := lowLink[succ];
      ghost var after := View();
      AfterVisit(g, Allowed(), before, after, s0, block, blockLowLink, succ, succLowLink);
      LinksAfterVisit(old(lowLink), lowLink, block, succ, Min(blockLowLink, succLowLink));
      SetLowLink(block, Min(blockLowLink, succLowLink));
    }

    method SetLowLink(block: Vertex, value: nat)
      requires Valid() && block in lowLink
      modifies this`lowLink
      ensures Valid() && View() == old(View())
      ensures lowLink == old(lowLink)[block := value]
    {
      lowLink := lowLink[block := value];
    }

    /** The end of a visit: a root pops its component, any other block stays on the stack. */
    method Finish(block: Vertex, ghost s0: State)
      requires Valid() && block in lowLink && Ok(g, Allowed(), s0)
      requires block !in s0.index && s0.stack + [block] <= stack
      requires Explored(g, Allowed(), View(), block, lowLink[block])
      modifies this`stack, this`onStack, this`components, this`grays
      ensures Valid() && (old(grays) == s0.grays + {block} ==> grays == s0.grays)
      ensures s0.stack <= stack && old(components) <= components
      ensures forall x :: x in stack ==> x in old(stack)
      ensures lowLink[block] < index[block] ==> stack == old(stack)
    {
      assert stack[|s0.stack|] == block;
      assert block !in s0.grays;
      if lowLink[block] == index[block] {
        ghost var s1 := View();
        var component := PopComponent(block, |s0.stack|);
        components := components + [component];
        grays := grays - {block};
        PopOk(g, Allowed(), s1, |s0.stack|, block, component, View());
        assert stack == s0.stack;
      } else {
        KeepOk(g, Allowed(), View(), block, lowLink[block], View().(grays := grays - {block}));
        grays := grays - {block};
      }
    }

    /** Pops the stack down to and including `block`. */
    method PopComponent(block: Vertex, ghost k: nat) returns (component: seq<Vertex>)
      requires k < |stack| && stack[k] == block && Sorted(index, stack)
      requires forall x :: x in onStack <==> x in stack
      modifies this`stack, this`onStack
      ensures stack == old(stack)[..k] && forall x :: x in onStack <==> x in stack
      ensures Distinct(component) && forall x :: x in component <==> x in old(stack)[k..]
    {
      component := [];
      while true
        invariant k < |stack| <= |old(stack)| && stack == old(stack)[..|stack|]
        invariant forall x :: x in onStack <==> x in stack
        invariant Distinct(component)
        invariant forall x :: x in component <==> x in old(stack)[|stack|..]
        decreases |stack|
      {
        var member := stack[|stack| - 1];
        assert old(stack)[|stack| - 1..] == [member] + old(stack)[|stack|..];
        StackDistinct(old(stack), index, |stack| - 1);
        assert stack == stack[..|stack| - 1] + [member];
        stack := stack[..|stack| - 1];
        onStack := onStack - {member};
        component := component + [member];
        if member == block {
          break;
        }
      }
      SamePosition(old(stack), index, |stack|, k);
    }

    /** Runs the visit from every allowed block that has not been seen yet.  `overflow`: the stack's bit set panics. */
    method Run() returns (result: seq<seq<Vertex>>, overflow: bool)
      requires Valid() && index == map[] && stack == [] && components == []
      modifies this
      ensures ComponentsOk(g, Allowed(), result)
      ensures forall x :: x in Allowed() <==> Emitted(result, x)
      ensures overflow <==> !Fits(Allowed())
    {
      assert grays == {} by {
        assert forall x :: x in grays ==> x in stack;
      }
      var block: nat := 0;
      while block < |g.succ|
        invariant block <= |g.succ|
        invariant Valid() && grays == {}
        invariant forall x :: x in Allowed() && x < block ==> x in index
      {
        if BlockIsAllowed(block) {
          if block !in index {
            StrongConnect(block);
          }
        }
        block := block + 1;
      }
      assert |stack| == 0 || ReachesGray(g, Allowed(), View(), stack[0]);
      assert index.Keys == Allowed();
      result, overflow := components, room.overflowed;
    }
  }
}
