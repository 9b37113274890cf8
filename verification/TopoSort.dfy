/**
 The order in which blocks are compiled: reverse postorder of a depth-first
 search that keeps its own stack of frames.
 */
module CompileOrders {
  import opened Graphs
  import opened ExecIr
  import opened ArenaSets

  datatype Frame = Enter(block: Block) | Exit(block: Block)

  /** State of the search: blocks with an `Exit` frame are open, blocks in `postorder` are finished. */
  datatype Search = Search(stack: seq<Frame>, seen: set<Block>, postorder: seq<Block>)

  /** Frame `i` was pushed while frame `j` was the innermost open block. */
  ghost predicate PushedBy(g: Graph, stack: seq<Frame>, j: int, i: int) {
    && 0 <= j < i < |stack| && stack[j].Exit? && Edge(g, stack[j].block, stack[i].block)
    && forall m :: j < m < i ==> stack[m].Enter?
  }

  ghost predicate FrameOk(g: Graph, stack: seq<Frame>, i: int)
    requires 0 <= i < |stack|
  {
    && stack[i].block < |g.succ|
    && (if i == 0 then stack[i].block == ENTRYPOINT else exists j :: PushedBy(g, stack, j, i))
  }

  /** A successor of an open block has been seen or is waiting above it. */
  ghost predicate Waiting(s: Search, i: int, t: Block) {
    t in s.seen || exists m :: 0 <= i < m < |s.stack| && s.stack[m] == Enter(t)
  }

  ghost predicate OpenOk(g: Graph, s: Search) {
    forall i, t {:trigger Waiting(s, i, t)} ::
      0 <= i < |s.stack| && s.stack[i].Exit? && Edge(g, s.stack[i].block, t) ==>
        Waiting(s, i, t)
  }

  /** An edge out of the finished block at `k` leads to an earlier finished block or closes a cycle. */
  ghost predicate EdgeDone(g: Graph, s: Search, k: int, t: Block)
    requires 0 <= k < |s.postorder|
  {
    t in s.seen && (t in s.postorder[..k] || Reach(g, Vertices(g), t, s.postorder[k]))
  }

  /** The finished block at `k` was discovered from a block that finishes later. */
  ghost predicate HasParent(g: Graph, s: Search, k: int)
    requires 0 <= k < |s.postorder|
  {
    s.postorder[k] == ENTRYPOINT
    || exists a {:trigger Edge(g, a, s.postorder[k])} ::
         Edge(g, a, s.postorder[k]) && a in s.seen && a !in s.postorder[..k + 1]
  }

  ghost predicate FinishedOk(g: Graph, s: Search) {
    && (forall k, t {:trigger EdgeDone(g, s, k, t)} :: 0 <= k < |s.postorder| && Edge(g, s.postorder[k], t) ==>
          EdgeDone(g, s, k, t))
    && (forall k {:trigger HasParent(g, s, k)} :: 0 <= k < |s.postorder| ==> HasParent(g, s, k))
  }

  /** The open and the finished blocks are the seen ones, each of them once. */
  ghost predicate ColorsOk(g: Graph, s: Search) {
    && Distinct(s.postorder)
    && (forall b {:trigger b in s.seen} :: b in s.seen <==> b in s.postorder || Exit(b) in s.stack)
    && (forall b :: b in s.postorder ==> Exit(b) !in s.stack)
    && (forall i, j :: 0 <= i < j < |s.stack| && s.stack[i].Exit? && s.stack[j].Exit? ==> s.stack[i] != s.stack[j])
    && (forall b :: b in s.seen ==> b < |g.succ| && Reach(g, Vertices(g), ENTRYPOINT, b))
  }

  ghost predicate BottomOk(s: Search) {
    if s.stack == [] then s.postorder != [] && s.postorder[|s.postorder| - 1] == ENTRYPOINT
    else s.stack[0] == Exit(ENTRYPOINT) || (s.stack == [Enter(ENTRYPOINT)] && s.seen == {} && s.postorder == [])
  }

  ghost predicate SearchOk(g: Graph, s: Search) {
    && (forall i {:trigger FrameOk(g, s.stack, i)} :: 0 <= i < |s.stack| ==> FrameOk(g, s.stack, i))
    && OpenOk(g, s) && FinishedOk(g, s) && ColorsOk(g, s) && BottomOk(s)
  }

  /** Open blocks reach the open blocks above them. */
  lemma {:induction false} OpenChain(g: Graph, stack: seq<Frame>, i: int, j: int)
    requires forall i {:trigger FrameOk(g, stack, i)} :: 0 <= i < |stack| ==> FrameOk(g, stack, i)
    requires 0 <= i <= j < |stack| && stack[i].Exit?
    ensures Reach(g, Vertices(g), stack[i].block, stack[j].block)
  {
    assert FrameOk(g, stack, i) && FrameOk(g, stack, j);
    if i == j {
      ReachRefl(g, Vertices(g), stack[i].block);
    } else {
      var p :| PushedBy(g, stack, p, j);
      assert FrameOk(g, stack, p);
      assert i <= p;
      OpenChain(g, stack, i, p);
      ReachEdge(g, Vertices(g), stack[p].block, stack[j].block);
      ReachTrans(g, Vertices(g), stack[i].block, stack[p].block, stack[j].block);
    }
  }

  lemma PrefixFrames(g: Graph, stack: seq<Frame>, init: seq<Frame>)
    requires init <= stack && forall i {:trigger FrameOk(g, stack, i)} :: 0 <= i < |stack| ==> FrameOk(g, stack, i)
    ensures forall i {:trigger FrameOk(g, init, i)} :: 0 <= i < |init| ==> FrameOk(g, init, i)
  {
    forall i {:trigger FrameOk(g, init, i)} | 0 <= i < |init| ensures FrameOk(g, init, i) {
      assert FrameOk(g, stack, i);
      if i > 0 {
        var j :| PushedBy(g, stack, j, i);
        assert PushedBy(g, init, j, i);
      }
    }
  }

  /** Popping an `Enter` frame of a block seen meanwhile. */
  lemma SkipSeen(g: Graph, s: Search, b: Block)
    requires SearchOk(g, s) && s.stack != [] && s.stack[|s.stack| - 1] == Enter(b) && b in s.seen
    ensures SearchOk(g, s.(stack := s.stack[..|s.stack| - 1]))
  {
    var init := s.stack[..|s.stack| - 1];
    var n := s.(stack := init);
    PrefixFrames(g, s.stack, init);
    forall i, t {:trigger Waiting(n, i, t)} | 0 <= i < |init| && init[i].Exit? && Edge(g, init[i].block, t)
      ensures Waiting(n, i, t)
    {
      assert Waiting(s, i, t);
      if t !in s.seen {
        var m :| i < m < |s.stack| && s.stack[m] == Enter(t);
        assert init[m] == Enter(t);
      }
    }
    forall k, t {:trigger EdgeDone(g, n, k, t)} | 0 <= k < |n.postorder| && Edge(g, n.postorder[k], t)
      ensures EdgeDone(g, n, k, t)
    {
      assert EdgeDone(g, s, k, t);
    }
    forall k {:trigger HasParent(g, n, k)} | 0 <= k < |n.postorder| ensures HasParent(g, n, k) {
      assert HasParent(g, s, k);
    }
  }

  /** The frames pushed for the targets of a block. */
  ghost predicate PushedFor(targets: seq<Block>, seen: set<Block>, pushed: seq<Frame>) {
    && (forall f :: f in pushed ==> f.Enter? && f.block in targets)
    && (forall t :: t in targets ==> t in seen || Enter(t) in pushed)
  }

  ghost function Opened(s: Search, b: Block, pushed: seq<Frame>): Search
    requires s.stack != []
  {
    Search(s.stack[..|s.stack| - 1] + [Exit(b)] + pushed, s.seen + {b}, s.postorder)
  }

  lemma PushedAreEnter(s: Search, b: Block, pushed: seq<Frame>, i: int)
    requires s.stack != [] && |s.stack| <= i < |s.stack| + |pushed| && forall f :: f in pushed ==> f.Enter?
    ensures Opened(s, b, pushed).stack[i].Enter?
  {
  }

  lemma OpenedFrames(g: Graph, s: Search, b: Block, pushed: seq<Frame>)
    requires WellFormed(g) && SearchOk(g, s) && s.stack != [] && s.stack[|s.stack| - 1] == Enter(b) && b !in s.seen
    requires b < |g.succ| && PushedFor(g.succ[b], s.seen + {b}, pushed)
    ensures var n := Opened(s, b, pushed).stack;
      forall i {:trigger FrameOk(g, n, i)} :: 0 <= i < |n| ==> FrameOk(g, n, i)
  {
    var top, n := |s.stack| - 1, Opened(s, b, pushed).stack;
    forall i {:trigger FrameOk(g, n, i)} | 0 <= i < |n| ensures FrameOk(g, n, i) {
      if i <= top {
        assert FrameOk(g, s.stack, i);
        if i > 0 {
          var j :| PushedBy(g, s.stack, j, i);
          assert PushedBy(g, n, j, i);
        }
      } else {
        assert n[i] == pushed[i - top - 1];
        assert pushed[i - top - 1] in pushed;
        assert Edge(g, b, n[i].block);
        assert PushedBy(g, n, top, i);
      }
    }
  }

  lemma OpenedWaiting(g: Graph, s: Search, b: Block, pushed: seq<Frame>)
    requires SearchOk(g, s) && s.stack != [] && s.stack[|s.stack| - 1] == Enter(b) && b !in s.seen
    requires b < |g.succ| && PushedFor(g.succ[b], s.seen + {b}, pushed)
    ensures OpenOk(g, Opened(s, b, pushed))
  {
    var top, n := |s.stack| - 1, Opened(s, b, pushed);
    forall i, t {:trigger Waiting(n, i, t)} | 0 <= i < |n.stack| && n.stack[i].Exit? && Edge(g, n.stack[i].block, t)
      ensures Waiting(n, i, t)
    {
      if i > top {
        PushedAreEnter(s, b, pushed, i);
      } else if i == top {
        if t !in n.seen {
          var m :| 0 <= m < |pushed| && pushed[m] == Enter(t);
          assert n.stack[top + 1 + m] == Enter(t);
        }
      } else {
        assert Waiting(s, i, t);
        if t !in n.seen {
          var m :| i < m < |s.stack| && s.stack[m] == Enter(t);
          assert n.stack[m] == Enter(t);
        }
      }
    }
  }

  lemma OpenedFinished(g: Graph, s: Search, n: Search)
    requires FinishedOk(g, s) && n.postorder == s.postorder && s.seen <= n.seen
    ensures FinishedOk(g, n)
  {
    forall k, t {:trigger EdgeDone(g, n, k, t)} | 0 <= k < |n.postorder| && Edge(g, n.postorder[k], t)
      ensures EdgeDone(g, n, k, t)
    {
      assert EdgeDone(g, s, k, t);
    }
    forall k {:trigger HasParent(g, n, k)} | 0 <= k < |n.postorder| ensures HasParent(g, n, k) {
      assert HasParent(g, s, k);
    }
  }

  lemma OpenedColors(g: Graph, s: Search, b: Block, pushed: seq<Frame>)
    requires SearchOk(g, s) && s.stack != [] && s.stack[|s.stack| - 1] == Enter(b) && b !in s.seen
    requires b < |g.succ| && PushedFor(g.succ[b], s.seen + {b}, pushed)
    ensures ColorsOk(g, Opened(s, b, pushed))
  {
    var top, n := |s.stack| - 1, Opened(s, b, pushed);
    var init := s.stack[..top];
    forall x ensures Exit(x) in n.stack <==> Exit(x) in s.stack || x == b {
      assert s.stack == init + [Enter(b)];
      if x == b {
        assert n.stack[top] == Exit(b);
      }
    }
    assert FrameOk(g, s.stack, top);
    if top == 0 {
      ReachRefl(g, Vertices(g), b);
    } else {
      assert s.stack[0] == Exit(ENTRYPOINT);
      OpenChain(g, s.stack, 0, top);
    }
    forall i, j | 0 <= i < j < |n.stack| && n.stack[i].Exit? && n.stack[j].Exit? ensures n.stack[i] != n.stack[j] {
      if j > top {
        PushedAreEnter(s, b, pushed, j);
      } else if j == top {
        assert n.stack[i] == s.stack[i] && s.stack[i] in s.stack;
      }
    }
  }

  /** Entering a new block. */
  lemma Open(g: Graph, s: Search, b: Block, pushed: seq<Frame>)
    requires WellFormed(g) && SearchOk(g, s) && s.stack != [] && s.stack[|s.stack| - 1] == Enter(b) && b !in s.seen
    requires b < |g.succ| && PushedFor(g.succ[b], s.seen + {b}, pushed)
    ensures SearchOk(g, Opened(s, b, pushed))
  {
    OpenedFrames(g, s, b, pushed);
    OpenedWaiting(g, s, b, pushed);
    OpenedFinished(g, s, Opened(s, b, pushed));
    OpenedColors(g, s, b, pushed);
    assert FrameOk(g, s.stack, |s.stack| - 1);
  }

  ghost function Closed(s: Search, b: Block): Search
    requires s.stack != []
  {
    Search(s.stack[..|s.stack| - 1], s.seen, s.postorder + [b])
  }

  lemma ClosedFinished(g: Graph, s: Search, b: Block)
    requires SearchOk(g, s) && s.stack != [] && s.stack[|s.stack| - 1] == Exit(b)
    ensures FinishedOk(g, Closed(s, b))
  {
    var top, n, last := |s.stack| - 1, Closed(s, b), |s.postorder|;
    forall k, t {:trigger EdgeDone(g, n, k, t)} | 0 <= k < |n.postorder| && Edge(g, n.postorder[k], t)
      ensures EdgeDone(g, n, k, t)
    {
      if k < last {
        assert EdgeDone(g, s, k, t);
        assert n.postorder[..k] == s.postorder[..k];
      } else {
        assert Waiting(s, top, t);
        assert n.postorder[..k] == s.postorder;
        if t !in s.postorder {
          var i :| 0 <= i < |s.stack| && s.stack[i] == Exit(t);
          OpenChain(g, s.stack, i, top);
        }
      }
    }
    forall k {:trigger HasParent(g, n, k)} | 0 <= k < |n.postorder| ensures HasParent(g, n, k) {
      if k < last {
        assert HasParent(g, s, k);
        assert n.postorder[..k + 1] == s.postorder[..k + 1];
      } else {
        assert FrameOk(g, s.stack, top);
        if top > 0 {
          var j :| PushedBy(g, s.stack, j, top);
          assert n.postorder[..k + 1] == s.postorder + [b];
          assert s.stack[j] in s.stack && s.stack[j] != s.stack[top];
          assert Edge(g, s.stack[j].block, n.postorder[k]);
        }
      }
    }
  }

  lemma ClosedColors(g: Graph, s: Search, b: Block)
    requires SearchOk(g, s) && s.stack != [] && s.stack[|s.stack| - 1] == Exit(b)
    ensures ColorsOk(g, Closed(s, b))
  {
  }

  /** Leaving a block. */
  lemma Close(g: Graph, s: Search, b: Block)
    requires SearchOk(g, s) && s.stack != [] && s.stack[|s.stack| - 1] == Exit(b)
    ensures SearchOk(g, Closed(s, b))
  {
    var n := Closed(s, b);
    PrefixFrames(g, s.stack, n.stack);
    ClosedFinished(g, s, b);
    ClosedColors(g, s, b);
    forall i, t {:trigger Waiting(n, i, t)} | 0 <= i < |n.stack| && n.stack[i].Exit? && Edge(g, n.stack[i].block, t)
      ensures Waiting(n, i, t)
    {
      assert Waiting(s, i, t);
      if t !in s.seen {
        var m :| i < m < |s.stack| && s.stack[m] == Enter(t);
        assert n.stack[m] == Enter(t);
      }
    }
  }

  // ---------------------------------------------------------------------
  // The order

  /** Position of `b` in an order. */
  ghost predicate Before(order: seq<Block>, a: Block, b: Block) {
    exists i, j :: 0 <= i < j < |order| && order[i] == a && order[j] == b
  }

  /** Every walk from the entry point to `b` passes `d`. */
  ghost predicate Dominates(g: Graph, d: Block, b: Block) {
    forall p :: PathBetween(g, Vertices(g), p, ENTRYPOINT, b) ==> d in p
  }

  /** An edge that does not go forward in the order. */
  ghost predicate Backward(g: Graph, order: seq<Block>, a: Block, b: Block) {
    Edge(g, a, b) && a in order && b in order && !Before(order, a, b)
  }

  ghost predicate CompileOrder(g: Graph, order: seq<Block>) {
    && Distinct(order) && order != [] && order[0] == ENTRYPOINT
    && (forall b :: b in order <==> Reach(g, Vertices(g), ENTRYPOINT, b))
    && (forall a, b {:trigger Backward(g, order, a, b)} :: Backward(g, order, a, b) ==> Reach(g, Vertices(g), b, a))
    && (forall b {:trigger EarlierPred(g, order, b)} :: b in order && b != ENTRYPOINT ==> EarlierPred(g, order, b))
  }

  ghost predicate EarlierPred(g: Graph, order: seq<Block>, b: Block) {
    exists a :: Edge(g, a, b) && Before(order, a, b)
  }

  function Reversed(s: seq<Block>): (r: seq<Block>)
    ensures |r| == |s| && forall i :: 0 <= i < |r| ==> r[i] == s[|s| - 1 - i]
  {
    seq(|s|, i requires 0 <= i < |s| => s[|s| - 1 - i])
  }

  lemma ReversedDistinct(s: seq<Block>)
    requires Distinct(s)
    ensures Distinct(Reversed(s)) && forall b :: b in Reversed(s) <==> b in s
  {
    var r := Reversed(s);
    forall i, j {:trigger Differ(r[i], r[j])} | 0 <= i < j < |r| ensures Differ(r[i], r[j]) {
      DistinctAt(s, |s| - 1 - j, |s| - 1 - i);
    }
    forall b ensures b in r <==> b in s {
      if b in s {
        var i :| 0 <= i < |s| && s[i] == b;
        assert r[|s| - 1 - i] == b;
      }
    }
  }

  /** What finished earlier comes later in the order. */
  lemma LaterInOrder(s: seq<Block>, k: nat)
    requires k < |s|
    ensures forall b {:trigger b in s[..k]} :: b in s[..k] ==> Before(Reversed(s), s[k], b)
  {
    var order, n := Reversed(s), |s|;
    forall b {:trigger b in s[..k]} | b in s[..k] ensures Before(order, s[k], b) {
      var m :| 0 <= m < k && s[m] == b;
      assert order[n - 1 - k] == s[k] && order[n - 1 - m] == b;
    }
  }

  lemma OrderedEdge(g: Graph, s: Search, a: Block, b: Block)
    requires FinishedOk(g, s) && Edge(g, a, b) && a in s.postorder
    ensures Before(Reversed(s.postorder), a, b) || Reach(g, Vertices(g), b, a)
  {
    var k :| 0 <= k < |s.postorder| && s.postorder[k] == a;
    assert EdgeDone(g, s, k, b);
    LaterInOrder(s.postorder, k);
  }

  lemma ParentFirst(g: Graph, s: Search, b: Block)
    requires SearchOk(g, s) && s.stack == [] && b in s.postorder && b != ENTRYPOINT
    ensures EarlierPred(g, Reversed(s.postorder), b)
  {
    var order, n := Reversed(s.postorder), |s.postorder|;
    var k :| 0 <= k < n && s.postorder[k] == b;
    assert HasParent(g, s, k);
    var a :| Edge(g, a, b) && a in s.seen && a !in s.postorder[..k + 1];
    var m :| 0 <= m < n && s.postorder[m] == a;
    AtInPrefix(s.postorder, m, k + 1);
    assert order[n - 1 - m] == a && order[n - 1 - k] == b;
  }

  /** What the finished search says about the reversed postorder. */
  lemma SearchDone(g: Graph, s: Search)
    requires WellFormed(g) && SearchOk(g, s) && s.stack == []
    ensures CompileOrder(g, Reversed(s.postorder))
  {
    var order := Reversed(s.postorder);
    ReversedDistinct(s.postorder);
    AllReached(g, s);
    forall a, b {:trigger Backward(g, order, a, b)} | Backward(g, order, a, b) ensures Reach(g, Vertices(g), b, a) {
      OrderedEdge(g, s, a, b);
    }
    forall b {:trigger EarlierPred(g, order, b)} | b in order && b != ENTRYPOINT ensures EarlierPred(g, order, b) {
      ParentFirst(g, s, b);
    }
  }

  lemma AtInPrefix(s: seq<Block>, m: nat, n: nat)
    requires m < |s| && n <= |s|
    ensures m < n ==> s[m] in s[..n]
  {
  }

  lemma AllReached(g: Graph, s: Search)
    requires WellFormed(g) && SearchOk(g, s) && s.stack == []
    ensures forall b :: b in s.postorder <==> Reach(g, Vertices(g), ENTRYPOINT, b)
  {
    forall x, y {:trigger Edge(g, x, y)} | x in s.seen && y in Vertices(g) && Edge(g, x, y) ensures y in s.seen {
      var k :| 0 <= k < |s.postorder| && s.postorder[k] == x;
      assert EdgeDone(g, s, k, y);
    }
    forall b ensures b in s.postorder <==> Reach(g, Vertices(g), ENTRYPOINT, b) {
      assert b in s.seen <==> b in s.postorder;
      if Reach(g, Vertices(g), ENTRYPOINT, b) {
        assert ENTRYPOINT in s.postorder && ENTRYPOINT in s.seen;
        ClosedUnderReach(g, Vertices(g), s.seen, ENTRYPOINT, b);
      }
    }
  }

  /** Every block is reached by a walk on which the order only goes forward. */
  lemma {:induction false} ForwardWalk(g: Graph, order: seq<Block>, k: nat) returns (p: seq<Block>)
    requires WellFormed(g) && CompileOrder(g, order) && k < |order|
    ensures PathBetween(g, Vertices(g), p, ENTRYPOINT, order[k])
    ensures forall d :: d in p ==> d in order[..k + 1]
  {
    assert order[k] in order;
    ReachAllowed(g, Vertices(g), ENTRYPOINT, order[k]);
    if order[k] == ENTRYPOINT {
      p := [ENTRYPOINT];
      assert order[..k + 1][k] == ENTRYPOINT;
    } else {
      assert EarlierPred(g, order, order[k]);
      var a :| Edge(g, a, order[k]) && Before(order, a, order[k]);
      var i, j :| 0 <= i < j < |order| && order[i] == a && order[j] == order[k];
      assert j == k by {
        if j < k { DistinctAt(order, j, k); } else if k < j { DistinctAt(order, k, j); }
      }
      var q := ForwardWalk(g, order, i);
      assert PathBetween(g, Vertices(g), [a, order[k]], a, order[k]) by {
        assert a in order && order[k] in Vertices(g);
        ReachAllowed(g, Vertices(g), ENTRYPOINT, a);
      }
      JoinPaths(g, Vertices(g), q, [a, order[k]]);
      p := q + [a, order[k]][1..];
      forall d | d in p ensures d in order[..k + 1] {
        if d in q {
          var m :| 0 <= m < i + 1 && order[..i + 1][m] == d;
          assert order[..k + 1][m] == d;
        } else {
          assert d == order[k] && order[..k + 1][k] == d;
        }
      }
    }
  }

  /** Dominators come no later than the blocks they dominate. */
  lemma DominatorsFirst(g: Graph, order: seq<Block>, d: Block, k: nat)
    requires WellFormed(g) && CompileOrder(g, order) && k < |order| && Dominates(g, d, order[k])
    ensures d in order[..k + 1]
  {
    var p := ForwardWalk(g, order, k);
  }

  /** Pushes the targets that have not been seen, last one first. */
  method PushTargets(stack: seq<Frame>, targets: seq<Block>, seen: set<Block>)
    returns (result: seq<Frame>, ghost pushed: seq<Frame>)
    ensures result == stack + pushed && PushedFor(targets, seen, pushed)
  {
    result, pushed := stack, [];
    var i := |targets|;
    while i > 0
      invariant 0 <= i <= |targets| && result == stack + pushed
      invariant forall f :: f in pushed ==> f.Enter? && f.block in targets
      invariant forall j :: i <= j < |targets| ==> targets[j] in seen || Enter(targets[j]) in pushed
    {
      i := i - 1;
      if targets[i] !in seen {
        result := result + [Enter(targets[i])];
        pushed := pushed + [Enter(targets[i])];
      }
    }
  }

  /** Marks `block` as seen, and stacks its exit and its targets. */
  method OpenBlock(ir: Ir, block: Block, stack: seq<Frame>, seen: set<Block>, ghost postorder: seq<Block>)
    returns (newStack: seq<Frame>, newSeen: set<Block>)
    requires WellFormedIr(ir) && block < |ir.blocks| && block !in seen
    requires SearchOk(Cfg(ir), Search(stack + [Enter(block)], seen, postorder))
    ensures newSeen == seen + {block} && SearchOk(Cfg(ir), Search(newStack, newSeen, postorder))
  {
    ghost var s, pushed := Search(stack + [Enter(block)], seen, postorder), [];
    CfgWellFormed(ir);
    newSeen := seen + {block};
    newStack, pushed := PushTargets(stack + [Exit(block)], BlockTargets(ir.blocks[block].terminator), newSeen);
    Open(Cfg(ir), s, block, pushed);
    assert s.stack[..|s.stack| - 1] == stack;
  }

  /** The compile order of a program.  The bit set of seen blocks has room for all of them. */
  method Sort(ir: Ir) returns (order: seq<Block>, overflow: bool)
    requires WellFormedIr(ir)
    ensures CompileOrder(Cfg(ir), order)
    ensures !overflow
  {
    ghost var g := Cfg(ir);
    CfgWellFormed(ir);
    var seen: set<Block>, postorder: seq<Block> := {}, [];
    var stack := [Enter(ENTRYPOINT)];
    var room := Room(WordsFor(|ir.blocks|), false);
    while stack != []
      invariant SearchOk(g, Search(stack, seen, postorder))
      invariant room == Room(WordsFor(|ir.blocks|), false)
      decreases Vertices(g) - seen, |stack|
    {
      ghost var s := Search(stack, seen, postorder);
      var frame := stack[|stack| - 1];
      assert FrameOk(g, stack, |stack| - 1);
      stack := stack[..|stack| - 1];
      match frame
      case Enter(block) =>
        CapacityIsEnough(|ir.blocks|, block);
        room := Inserted(room, block);
        if block in seen {
          SkipSeen(g, s, block);
        } else {
          assert s.stack == stack + [Enter(block)] && block in Vertices(g) - s.seen;
          stack, seen := OpenBlock(ir, block, stack, seen, postorder);
        }
      case Exit(block) =>
        Close(g, s, block);
        postorder := postorder + [block];
    }
    SearchDone(g, Search(stack, seen, postorder));
    order, overflow := Reversed(postorder), room.overflowed;
  }
}
