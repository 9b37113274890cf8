/**
 The condensation of the control-flow graph: components, the cycle check that
 rejects safepoint-free loops, and the topological order the pass follows.
 */
module SccGraphs {
  import opened Graphs
  import opened Wrappers
  import opened ExecIr
  import opened ArenaSets
  import TarjanScc

  type SccComponent = nat

  datatype SccGraph = SccGraph(
    components: seq<seq<Block>>,
    componentOf: map<Block, SccComponent>,
    topoOrder: seq<SccComponent>,
    isCyclic: set<SccComponent>)

  predicate ComponentIsCyclic(g: Graph, component: seq<Block>) {
    match |component|
    case 0 => false
    case 1 => Edge(g, component[0], component[0])
    case _ => true
  }

  predicate BlockHasSafepoint(ir: Ir, b: Block) {
    b < |ir.blocks| && exists i :: 0 <= i < |ir.blocks[b].stmts| && IsSafepoint(ir, ir.blocks[b].stmts[i])
  }

  ghost predicate TouchesSafepoint(ir: Ir, p: seq<Block>) {
    exists i :: 0 <= i < |p| && BlockHasSafepoint(ir, p[i])
  }

  /** Every directed cycle contains a block with a safepoint. */
  ghost predicate CyclesHaveSafepoints(ir: Ir) {
    forall p :: IsCycle(Cfg(ir), Vertices(Cfg(ir)), p) ==> TouchesSafepoint(ir, p)
  }

  /** A strongly connected component is reported cyclic exactly when a cycle starts in it. */
  lemma CyclicIsExact(g: Graph, allowed: set<Block>, component: seq<Block>)
    requires TarjanScc.IsScc(g, allowed, component)
    ensures ComponentIsCyclic(g, component) <==> exists p :: IsCycle(g, allowed, p) && p[0] in component
  {
    var v := component[0];
    if ComponentIsCyclic(g, component) {
      if |component| == 1 {
        assert IsCycle(g, allowed, [v, v]);
      } else {
        CycleThroughTwo(g, allowed, component);
      }
    }
    if p :| IsCycle(g, allowed, p) && p[0] in component {
      if |component| == 1 {
        assert p[0] == v;
        CycleMutual(g, allowed, p);
        assert Mutual(g, allowed, v, p[1]);
        EdgeAt(g, allowed, p, 0);
      }
    }
  }

  lemma CycleThroughTwo(g: Graph, allowed: set<Block>, component: seq<Block>)
    requires TarjanScc.IsScc(g, allowed, component) && |component| >= 2
    ensures exists p :: IsCycle(g, allowed, p) && p[0] in component
  {
    var v, w := component[0], component[1];
    assert Differ(component[0], component[1]);
    assert Mutual(g, allowed, v, w);
    var p :| PathBetween(g, allowed, p, v, w);
    var q :| PathBetween(g, allowed, q, w, v);
    JoinPaths(g, allowed, p, q);
    assert IsCycle(g, allowed, p + q[1..]);
  }

  lemma CycleMutual(g: Graph, allowed: set<Block>, p: seq<Block>)
    requires IsCycle(g, allowed, p)
    ensures p[1] in allowed && Mutual(g, allowed, p[0], p[1])
  {
    SubPath(g, allowed, p, 0, 1);
    SubPath(g, allowed, p, 1, |p| - 1);
    assert PathBetween(g, allowed, p[0..2], p[0], p[1]);
    assert PathBetween(g, allowed, p[1..|p|], p[1], p[0]);
    assert p[1] in allowed;
  }

  /** `overflow` says whether the bit set of Tarjan's stack panics on the way. */
  method StronglyConnectedComponents(g: Graph, allowed: Option<set<Block>>)
    returns (components: seq<seq<Block>>, overflow: bool)
    requires WellFormed(g)
    requires allowed.Some? ==> allowed.value <= Vertices(g)
    ensures TarjanScc.ComponentsOk(g, if allowed.Some? then allowed.value else Vertices(g), components)
    ensures forall x ::
      x in (if allowed.Some? then allowed.value else Vertices(g)) <==> TarjanScc.Emitted(components, x)
    ensures overflow <==> !Fits(if allowed.Some? then allowed.value else Vertices(g))
  {
    var tarjan := new TarjanScc.Tarjan(g, allowed);
    components, overflow := tarjan.Run();
  }

  /** The blocks without a safepoint. */
  function FreeBlocks(ir: Ir): set<Block> {
    set b: Block {:trigger BlockHasSafepoint(ir, b)} | b < |ir.blocks| && !BlockHasSafepoint(ir, b)
  }

  /** Collects the blocks without a safepoint into a bit set made without capacity. */
  method CollectFreeBlocks(ir: Ir) returns (allowed: set<Block>, overflow: bool)
    ensures allowed == FreeBlocks(ir) && (overflow <==> !Fits(FreeBlocks(ir)))
  {
    allowed := {};
    var room := NEW_ROOM;
    for block := 0 to |ir.blocks|
      invariant allowed == set b: Block {:trigger BlockHasSafepoint(ir, b)} | b < block && !BlockHasSafepoint(ir, b)
      invariant RoomFor(room, allowed)
    {
      if !BlockHasSafepoint(ir, block) {
        InsertKeepsRoom(room, allowed, block);
        room := Inserted(room, block);
        allowed := allowed + {block};
      }
    }
    overflow := room.overflowed;
  }

  /**
   Returns false exactly when some cycle has no safepoint; the source then panics.
   It panics on `overflow` too, when a safepoint-free block has too large a handle.
   */
  method AssertCyclesHaveSafepoints(ir: Ir) returns (ok: bool, overflow: bool)
    requires WellFormedIr(ir)
    ensures ok <==> CyclesHaveSafepoints(ir)
    ensures overflow <==> !Fits(FreeBlocks(ir))
  {
    var g := Cfg(ir);
    CfgWellFormed(ir);
    var allowed, collecting := CollectFreeBlocks(ir);
    var components, visiting := StronglyConnectedComponents(g, Some(allowed));
    overflow := collecting || visiting;
    ok := true;
    var c := 0;
    while c < |components| && ok
      invariant 0 <= c <= |components|
      invariant ok ==> forall d :: 0 <= d < c ==> !ComponentIsCyclic(g, components[d])
      invariant !ok ==> exists d :: 0 <= d < |components| && ComponentIsCyclic(g, components[d])
    {
      if ComponentIsCyclic(g, components[c]) {
        ok := false;
      }
      c := c + 1;
    }
    if ok {
      forall p | IsCycle(g, Vertices(g), p) ensures TouchesSafepoint(ir, p) {
        NoFreeCycle(ir, allowed, components, p);
      }
    } else {
      ghost var d :| 0 <= d < |components| && ComponentIsCyclic(g, components[d]);
      CyclicIsExact(g, allowed, components[d]);
      ghost var p :| IsCycle(g, allowed, p) && p[0] in components[d];
      FreeCycleInFullGraph(ir, allowed, p);
    }
  }

  lemma NoFreeCycle(ir: Ir, allowed: set<Block>, components: seq<seq<Block>>, p: seq<Block>)
    requires WellFormedIr(ir)
    requires forall b :: b in allowed <==> b in Vertices(Cfg(ir)) && !BlockHasSafepoint(ir, b)
    requires TarjanScc.ComponentsOk(Cfg(ir), allowed, components)
    requires forall x :: x in allowed <==> TarjanScc.Emitted(components, x)
    requires forall d :: 0 <= d < |components| ==> !ComponentIsCyclic(Cfg(ir), components[d])
    requires IsCycle(Cfg(ir), Vertices(Cfg(ir)), p)
    ensures TouchesSafepoint(ir, p)
  {
    var g := Cfg(ir);
    if !TouchesSafepoint(ir, p) {
      forall i | 0 <= i < |p| ensures p[i] in allowed {
        assert p[i] in Vertices(g);
      }
      forall i | 0 <= i < |p| - 1 ensures Edge(g, p[i], p[i + 1]) {
        EdgeAt(g, Vertices(g), p, i);
      }
      assert IsCycle(g, allowed, p);
      assert TarjanScc.Emitted(components, p[0]);
      var d :| 0 <= d < |components| && p[0] in components[d];
      CyclicIsExact(g, allowed, components[d]);
    }
  }

  lemma FreeCycleInFullGraph(ir: Ir, allowed: set<Block>, p: seq<Block>)
    requires forall b :: b in allowed ==> b in Vertices(Cfg(ir)) && !BlockHasSafepoint(ir, b)
    requires IsCycle(Cfg(ir), allowed, p)
    ensures !CyclesHaveSafepoints(ir)
  {
    var g := Cfg(ir);
    forall i | 0 <= i < |p| ensures p[i] in Vertices(g) && !BlockHasSafepoint(ir, p[i]) {
      assert p[i] in allowed;
    }
    forall i | 0 <= i < |p| - 1 ensures Edge(g, p[i], p[i + 1]) {
      EdgeAt(g, allowed, p, i);
    }
    assert IsCycle(g, Vertices(g), p) && !TouchesSafepoint(ir, p);
  }

  // ---------------------------------------------------------------------
  // Kahn's ordering of the condensation

  /** The components with an edge into `d`. */
  ghost function Preds(edges: seq<set<SccComponent>>, d: SccComponent): set<SccComponent> {
    set c {:trigger edges[c]} | 0 <= c < |edges| && d in edges[c]
  }

  /** `edges` are the cross-component edges of the blocks below `n`, plus the first `m` of block `n`. */
  ghost predicate EdgesOk(g: Graph, componentOf: map<Block, SccComponent>, edges: seq<set<SccComponent>>, n: nat,
                          m: nat)
    requires forall b: Block :: b < |g.succ| ==> b in componentOf
  {
    && (forall b: Block, i {:trigger g.succ[b][i]} ::
          b < |g.succ| && 0 <= i < |g.succ[b]| && (b < n || (b == n && i < m)) ==>
          g.succ[b][i] in componentOf && Crosses(componentOf, edges, b, g.succ[b][i]))
    && (forall c, d {:trigger d in edges[c]} :: 0 <= c < |edges| && d in edges[c] ==>
          c != d && exists b, x :: Edge(g, b, x) && b in componentOf && x in componentOf
                                   && componentOf[b] == c && componentOf[x] == d)
  }

  ghost predicate Crosses(componentOf: map<Block, SccComponent>, edges: seq<set<SccComponent>>, b: Block, x: Block)
    requires b in componentOf && x in componentOf
  {
    componentOf[b] == componentOf[x] || (componentOf[b] < |edges| && componentOf[x] in edges[componentOf[b]])
  }

  ghost predicate DegreesOk(edges: seq<set<SccComponent>>, indegree: seq<nat>) {
    |indegree| == |edges| && forall d :: 0 <= d < |indegree| ==> indegree[d] == |Preds(edges, d)|
  }

  ghost predicate ComponentOfOk(g: Graph, components: seq<seq<Block>>, componentOf: map<Block, SccComponent>) {
    && (forall b: Block :: b < |g.succ| <==> b in componentOf)
    && (forall b :: b in componentOf ==> componentOf[b] < |components| && b in components[componentOf[b]])
    && (forall c, b :: 0 <= c < |components| && b in components[c] ==> b in componentOf && componentOf[b] == c)
  }

  /** Cross-component edges lead to components that Tarjan emitted earlier. */
  ghost predicate EdgesDescend(edges: seq<set<SccComponent>>) {
    forall c, d {:trigger d in edges[c]} :: 0 <= c < |edges| && d in edges[c] ==> d < c
  }

  lemma PredsInsert(edges: seq<set<SccComponent>>, c: SccComponent, d: SccComponent)
    requires c < |edges| && d !in edges[c]
    ensures var e := edges[c := edges[c] + {d}];
      && Preds(e, d) == Preds(edges, d) + {c} && c !in Preds(edges, d)
      && forall x :: x != d ==> Preds(e, x) == Preds(edges, x)
  {
  }

  /** Recording one more control-flow edge. */
  lemma RecordEdge(g: Graph, componentOf: map<Block, SccComponent>, edges: seq<set<SccComponent>>, block: Block, i: nat)
    requires forall b: Block :: b < |g.succ| ==> b in componentOf && componentOf[b] < |edges|
    requires block < |g.succ| && i < |g.succ[block]| && g.succ[block][i] < |g.succ|
    requires EdgesOk(g, componentOf, edges, block, i)
    ensures var from, to := componentOf[block], componentOf[g.succ[block][i]];
      EdgesOk(g, componentOf, if from == to then edges else edges[from := edges[from] + {to}], block, i + 1)
  {
  }

  lemma CountEdge(edges: seq<set<SccComponent>>, indegree: seq<nat>, from: SccComponent, to: SccComponent)
    requires from < |edges| && to < |edges| && to !in edges[from] && DegreesOk(edges, indegree)
    ensures DegreesOk(edges[from := edges[from] + {to}], indegree[to := indegree[to] + 1])
  {
    PredsInsert(edges, from, to);
  }

  /** Each component's bit set of successors was made without capacity. */
  ghost predicate RoomsFor(rooms: seq<Room>, edges: seq<set<SccComponent>>) {
    |rooms| == |edges| && forall c {:trigger rooms[c]} :: 0 <= c < |rooms| ==> RoomFor(rooms[c], edges[c])
  }

  /** Some edge leads to a component whose number does not fit. */
  ghost predicate EdgesOverflow(edges: seq<set<SccComponent>>) {
    exists c {:trigger edges[c]} :: 0 <= c < |edges| && !Fits(edges[c])
  }

  /** Every component has at most one entry per predecessor, so degrees count distinct predecessors. */
  method CondensationEdges(g: Graph, components: nat, componentOf: map<Block, SccComponent>)
    returns (edges: seq<set<SccComponent>>, indegree: seq<nat>, overflow: bool)
    requires WellFormed(g)
    requires forall b: Block :: b < |g.succ| ==> b in componentOf && componentOf[b] < components
    ensures |edges| == components && EdgesOk(g, componentOf, edges, |g.succ|, 0)
    ensures DegreesOk(edges, indegree)
    ensures overflow <==> EdgesOverflow(edges)
  {
    edges := seq(components, _ => {});
    indegree := seq(components, _ => 0);
    var rooms := seq(components, _ => NEW_ROOM);
    assert forall d :: Preds(edges, d) == {};
    var block: nat := 0;
    while block < |g.succ|
      invariant block <= |g.succ| && |edges| == components
      invariant EdgesOk(g, componentOf, edges, block, 0)
      invariant DegreesOk(edges, indegree) && RoomsFor(rooms, edges)
    {
      edges, indegree, rooms := BlockEdges(g, componentOf, edges, indegree, rooms, block);
      assert EdgesOk(g, componentOf, edges, block + 1, 0);
      block := block + 1;
    }
    forall c {:trigger edges[c]} | 0 <= c < |edges| ensures rooms[c].overflowed <==> !Fits(edges[c]) {
      assert RoomFor(rooms[c], edges[c]);
    }
    overflow := exists c :: 0 <= c < |rooms| && rooms[c].overflowed;
  }

  method BlockEdges(g: Graph, componentOf: map<Block, SccComponent>, edgesIn: seq<set<SccComponent>>,
                    indegreeIn: seq<nat>, roomsIn: seq<Room>, block: Block)
    returns (edges: seq<set<SccComponent>>, indegree: seq<nat>, rooms: seq<Room>)
    requires WellFormed(g) && block < |g.succ|
    requires forall b: Block :: b < |g.succ| ==> b in componentOf && componentOf[b] < |edgesIn|
    requires EdgesOk(g, componentOf, edgesIn, block, 0) && DegreesOk(edgesIn, indegreeIn) && RoomsFor(roomsIn, edgesIn)
    ensures |edges| == |edgesIn| && EdgesOk(g, componentOf, edges, block, |g.succ[block]|)
    ensures DegreesOk(edges, indegree) && RoomsFor(rooms, edges)
  {
    edges, indegree, rooms := edgesIn, indegreeIn, roomsIn;
    var from := componentOf[block];
    for i := 0 to |g.succ[block]|
      invariant |edges| == |edgesIn| && EdgesOk(g, componentOf, edges, block, i)
      invariant DegreesOk(edges, indegree) && RoomsFor(rooms, edges)
    {
      var to := componentOf[g.succ[block][i]];
      RecordEdge(g, componentOf, edges, block, i);
      if from != to {
        InsertKeepsRoom(rooms[from], edges[from], to);
        rooms := rooms[from := Inserted(rooms[from], to)];
        if to !in edges[from] {
          CountEdge(edges, indegree, from, to);
          edges := edges[from := edges[from] + {to}];
          indegree := indegree[to := indegree[to] + 1];
        } else {
          assert edges[from] + {to} == edges[from];
        }
      }
    }
  }

  ghost function Elements(s: seq<SccComponent>): set<SccComponent> {
    set c | c in s
  }

  /** Every predecessor of the `i`-th entry comes before it. */
  ghost predicate InOrder(edges: seq<set<SccComponent>>, order: seq<SccComponent>) {
    forall i {:trigger PredsBefore(edges, order, i)} :: 0 <= i < |order| ==> PredsBefore(edges, order, i)
  }

  ghost predicate PredsBefore(edges: seq<set<SccComponent>>, order: seq<SccComponent>, i: nat)
    requires i < |order|
  {
    order[i] < |edges| && Preds(edges, order[i]) <= Elements(order[..i])
  }

  /** State of the ordering loop after popping the components in `popped`. */
  ghost predicate QueueOk(edges: seq<set<SccComponent>>, indegree: seq<nat>, ready: seq<SccComponent>,
                          order: seq<SccComponent>) {
    && |indegree| == |edges|
    && Distinct(order) && Distinct(ready)
    && (forall d :: d in ready ==> d !in order)
    && (forall d :: d in order || d in ready ==> d < |edges|)
    && (forall d :: 0 <= d < |edges| ==> (d in order || d in ready <==> indegree[d] == 0))
    && InOrder(edges, order)
  }

  /** `done` have been popped and their edges removed; `current` has only lost the edges outside `rest`. */
  ghost predicate Remaining(edges: seq<set<SccComponent>>, indegree: seq<nat>, done: set<SccComponent>,
                            current: SccComponent, rest: set<SccComponent>)
    requires current < |edges|
  {
    && |indegree| == |edges| && current !in done
    && forall d {:trigger RemainingAt(edges, indegree, done, current, rest, d)} :: 0 <= d < |edges| ==>
         RemainingAt(edges, indegree, done, current, rest, d)
  }

  ghost predicate RemainingAt(edges: seq<set<SccComponent>>, indegree: seq<nat>, done: set<SccComponent>,
                              current: SccComponent, rest: set<SccComponent>, d: SccComponent)
    requires current < |edges| && d < |indegree|
  {
    indegree[d] == |Preds(edges, d) - done - (if d in edges[current] && d !in rest then {current} else {})|
  }

  lemma Decrement(edges: seq<set<SccComponent>>, indegree: seq<nat>, done: set<SccComponent>, current: SccComponent,
                  rest: set<SccComponent>, d: SccComponent)
    requires current < |edges| && Remaining(edges, indegree, done, current, rest)
    requires d in rest && rest <= edges[current] && d < |edges|
    ensures indegree[d] > 0
    ensures Remaining(edges, indegree[d := indegree[d] - 1], done, current, rest - {d})
  {
    assert RemainingAt(edges, indegree, done, current, rest, d);
    assert current in Preds(edges, d) - done;
    assert Preds(edges, d) - done - {} == Preds(edges, d) - done;
    var next := indegree[d := indegree[d] - 1];
    forall x {:trigger RemainingAt(edges, next, done, current, rest - {d}, x)} | 0 <= x < |edges|
      ensures RemainingAt(edges, next, done, current, rest - {d}, x)
    {
      assert RemainingAt(edges, indegree, done, current, rest, x);
      if x == d {
        assert Preds(edges, d) - done - {} == Preds(edges, d) - done;
        assert |Preds(edges, d) - done - {current}| == |Preds(edges, d) - done| - 1;
      }
    }
  }

  /** With every edge of `current` removed, `current` counts as done. */
  lemma RoundDone(edges: seq<set<SccComponent>>, indegree: seq<nat>, done: set<SccComponent>, current: SccComponent)
    requires current < |edges| && Remaining(edges, indegree, done, current, {})
    ensures DegreesLeft(edges, indegree, done + {current})
  {
    forall d {:trigger DegreeLeft(edges, indegree, done + {current}, d)} | 0 <= d < |edges|
      ensures DegreeLeft(edges, indegree, done + {current}, d)
    {
      assert RemainingAt(edges, indegree, done, current, {}, d);
      var removed := if d in edges[current] && d !in {} then {current} else {};
      assert Preds(edges, d) - done - removed == Preds(edges, d) - (done + {current});
    }
  }

  /** `d` still waits for its predecessors outside `done`. */
  ghost predicate DegreeLeft(edges: seq<set<SccComponent>>, indegree: seq<nat>, done: set<SccComponent>,
                             d: SccComponent)
    requires d < |indegree|
  {
    indegree[d] == |Preds(edges, d) - done|
  }

  ghost predicate DegreesLeft(edges: seq<set<SccComponent>>, indegree: seq<nat>, done: set<SccComponent>) {
    |indegree| == |edges| &&
    forall d {:trigger DegreeLeft(edges, indegree, done, d)} :: 0 <= d < |edges| ==>
        DegreeLeft(edges, indegree, done, d)
  }

  lemma RoundStart(edges: seq<set<SccComponent>>, indegree: seq<nat>, done: set<SccComponent>, current: SccComponent)
    requires current < |edges| && current !in done && DegreesLeft(edges, indegree, done)
    ensures Remaining(edges, indegree, done, current, edges[current])
  {
    forall d {:trigger RemainingAt(edges, indegree, done, current, edges[current], d)} | 0 <= d < |edges|
      ensures RemainingAt(edges, indegree, done, current, edges[current], d)
    {
      assert DegreeLeft(edges, indegree, done, d);
      assert Preds(edges, d) - done - {} == Preds(edges, d) - done;
    }
  }

  /** A popped component had no unpopped predecessor. */
  lemma PopInOrder(edges: seq<set<SccComponent>>, indegree: seq<nat>, order: seq<SccComponent>, current: SccComponent)
    requires InOrder(edges, order) && current < |edges|
    requires DegreesLeft(edges, indegree, Elements(order)) && indegree[current] == 0
    ensures InOrder(edges, order + [current])
  {
    var next := order + [current];
    assert DegreeLeft(edges, indegree, Elements(order), current);
    assert Preds(edges, current) - Elements(order) == {};
    forall i {:trigger PredsBefore(edges, next, i)} | 0 <= i < |next| ensures PredsBefore(edges, next, i) {
      if i < |order| {
        assert PredsBefore(edges, order, i);
        assert next[..i] == order[..i] && next[i] == order[i];
      } else {
        assert next[..i] == order && next[i] == current;
        forall c | c in Preds(edges, current) ensures c in Elements(order) {
          assert c !in Preds(edges, current) - Elements(order);
        }
      }
    }
  }

  lemma Dequeue(edges: seq<set<SccComponent>>, indegree: seq<nat>, ready: seq<SccComponent>, order: seq<SccComponent>)
    requires QueueOk(edges, indegree, ready, order) && ready != []
    requires DegreesLeft(edges, indegree, Elements(order))
    ensures ready[0] < |edges| && ready[0] !in order
    ensures QueueOk(edges, indegree, ready[1..], order + [ready[0]])
  {
    assert ready[0] in ready;
    PopInOrder(edges, indegree, order, ready[0]);
    AppendDistinct(order, ready[0]);
    TailDistinct(ready);
    assert ready == [ready[0]] + ready[1..];
  }

  /** Lowering the degree of `succ` puts it on the queue exactly when it reaches zero. */
  lemma Enqueue(edges: seq<set<SccComponent>>, indegree: seq<nat>, ready: seq<SccComponent>,
                order: seq<SccComponent>, succ: SccComponent)
    requires QueueOk(edges, indegree, ready, order) && succ < |edges| && indegree[succ] > 0
    ensures QueueOk(edges, indegree[succ := indegree[succ] - 1],
                    if indegree[succ] == 1 then ready + [succ] else ready, order)
  {
  }

  lemma TailDistinct(s: seq<SccComponent>)
    requires Distinct(s) && s != []
    ensures Distinct(s[1..]) && s[0] !in s[1..]
  {
    var t := s[1..];
    forall i, j | 0 <= i < j < |t| ensures Differ(t[i], t[j]) {
      assert Differ(s[i + 1], s[j + 1]);
    }
    forall i | 0 <= i < |t| ensures t[i] != s[0] {
      assert Differ(s[0], s[i + 1]);
    }
  }

  /** When the queue runs empty nothing is left over: components only have earlier-emitted successors. */
  lemma {:induction false} AllOrdered(edges: seq<set<SccComponent>>, indegree: seq<nat>, order: seq<SccComponent>,
                                      c: nat)
    requires EdgesDescend(edges) && c <= |edges|
    requires DegreesLeft(edges, indegree, Elements(order)) && QueueOk(edges, indegree, [], order)
    ensures forall d :: c <= d < |edges| ==> d in order
    decreases |edges| - c
  {
    if c < |edges| {
      AllOrdered(edges, indegree, order, c + 1);
      assert DegreeLeft(edges, indegree, Elements(order), c);
      assert Preds(edges, c) - Elements(order) == {};
      }
  }

  lemma NothingDone(edges: seq<set<SccComponent>>, indegree: seq<nat>)
    requires DegreesOk(edges, indegree)
    ensures DegreesLeft(edges, indegree, Elements([]))
  {
  }

  /** The components without predecessors, in index order. */
  method InitiallyReady(indegree: seq<nat>) returns (ready: seq<SccComponent>)
    ensures Distinct(ready)
    ensures forall d :: d in ready <==> 0 <= d < |indegree| && indegree[d] == 0
  {
    ready := [];
    var c := 0;
    while c < |indegree|
      invariant 0 <= c <= |indegree|
      invariant Distinct(ready)
      invariant forall d :: d in ready <==> 0 <= d < c && indegree[d] == 0
    {
      if indegree[c] == 0 {
        AppendDistinct(ready, c);
        ready := ready + [c];
      }
      c := c + 1;
    }
  }

  /** Kahn's queue over the condensation. */
  method TopologicalOrder(edges: seq<set<SccComponent>>, degrees: seq<nat>) returns (order: seq<SccComponent>)
    requires EdgesDescend(edges) && DegreesOk(edges, degrees)
    requires forall c, d :: 0 <= c < |edges| && d in edges[c] ==> d < |edges|
    ensures InOrder(edges, order) && Distinct(order)
    ensures |order| == |edges| && forall c :: 0 <= c < |edges| <==> c in order
  {
    var indegree := degrees;
    var ready := InitiallyReady(indegree);
    order := [];
    NothingDone(edges, indegree);
    while ready != []
      invariant QueueOk(edges, indegree, ready, order)
      invariant DegreesLeft(edges, indegree, Elements(order))
      decreases |edges| - |order|
    {
      var componentId := ready[0];
      Dequeue(edges, indegree, ready, order);
      RoundStart(edges, indegree, Elements(order), componentId);
      ghost var done := Elements(order);
      ready := ready[1..];
      order := order + [componentId];
      assert Elements(order) == done + {componentId};
      Bounded(order, |edges|);
      indegree, ready := ReleaseSuccessors(edges, indegree, ready, order, componentId, done);
    }
    AllOrdered(edges, indegree, order, 0);
    Full(order, |edges|);
  }

  /** Removes the edges of the component just popped; components left without predecessors become ready. */
  method ReleaseSuccessors(edges: seq<set<SccComponent>>, degrees: seq<nat>, queue: seq<SccComponent>,
                           ghost order: seq<SccComponent>, componentId: SccComponent, ghost done: set<SccComponent>)
    returns (indegree: seq<nat>, ready: seq<SccComponent>)
    requires componentId < |edges| && Remaining(edges, degrees, done, componentId, edges[componentId])
    requires Elements(order) == done + {componentId}
    requires forall d :: d in edges[componentId] ==> d < |edges|
    requires QueueOk(edges, degrees, queue, order)
    ensures QueueOk(edges, indegree, ready, order)
    ensures DegreesLeft(edges, indegree, Elements(order))
  {
    indegree, ready := degrees, queue;
    var rest := edges[componentId];
    while rest != {}
      invariant rest <= edges[componentId]
      invariant Remaining(edges, indegree, done, componentId, rest)
      invariant QueueOk(edges, indegree, ready, order)
      decreases rest
    {
      var succ: SccComponent :| succ in rest;
      Decrement(edges, indegree, done, componentId, rest, succ);
      Enqueue(edges, indegree, ready, order, succ);
      indegree := indegree[succ := indegree[succ] - 1];
      rest := rest - {succ};
      if indegree[succ] == 0 {
        ready := ready + [succ];
      }
    }
    RoundDone(edges, indegree, done, componentId);
  }

  /** A list without repetitions below `n` has at most `n` entries. */
  lemma Bounded(s: seq<SccComponent>, n: nat)
    requires Distinct(s) && forall c :: c in s ==> c < n
    ensures |s| <= n && |Elements(s)| == |s|
  {
    SizeOfElements(s);
    Below(Elements(s), n);
  }

  lemma {:induction false} SizeOfElements(s: seq<SccComponent>)
    requires Distinct(s)
    ensures |Elements(s)| == |s|
  {
    if |s| > 0 {
      var init, last := s[..|s| - 1], s[|s| - 1];
      SizeOfElements(init);
      assert s == init + [last];
      assert Elements(s) == Elements(init) + {last};
      forall i | 0 <= i < |init| ensures init[i] != last {
        assert Differ(s[i], s[|s| - 1]);
      }
    }
  }

  lemma {:induction false} Below(s: set<SccComponent>, n: nat)
    requires forall c :: c in s ==> c < n
    ensures |s| <= n
  {
    if n == 0 {
      assert s == {};
    } else {
      Below(s - {n - 1}, n - 1);
      if n - 1 in s {
        assert |s - {n - 1}| == |s| - 1;
      } else {
        assert s - {n - 1} == s;
      }
    }
  }

  lemma Full(s: seq<SccComponent>, n: nat)
    requires Distinct(s) && (forall c :: c in s ==> c < n) && forall c :: 0 <= c < n ==> c in s
    ensures |s| == n
  {
    Bounded(s, n);
    Above(Elements(s), n);
  }

  lemma {:induction false} Above(s: set<SccComponent>, n: nat)
    requires forall c: SccComponent :: c < n ==> c in s
    ensures |s| >= n
  {
    if n > 0 {
      Above(s - {n - 1}, n - 1);
      assert |s - {n - 1}| == |s| - 1;
    }
  }

  // ---------------------------------------------------------------------
  // The condensation as the pass uses it

  /** A predecessor of `b` in another component is processed before position `i`. */
  ghost predicate ComesBefore(g: Graph, sg: SccGraph, i: nat, a: Block, b: Block)
    requires i <= |sg.topoOrder|
  {
    Edge(g, a, b) && a in sg.componentOf && b in sg.componentOf && sg.componentOf[a] != sg.componentOf[b] ==>
      sg.componentOf[a] in sg.topoOrder[..i]
  }

  /** Every component is listed once, and every edge between components goes forward in the list. */
  ghost predicate TopologicallySorted(g: Graph, sg: SccGraph) {
    && Distinct(sg.topoOrder)
    && |sg.topoOrder| == |sg.components|
    && (forall c :: 0 <= c < |sg.components| <==> c in sg.topoOrder)
    && (forall i: nat, a: Block, b: Block {:trigger ComesBefore(g, sg, i, a, b)} ::
          0 <= i < |sg.topoOrder| && b in sg.componentOf && sg.componentOf[b] == sg.topoOrder[i] ==>
            ComesBefore(g, sg, i, a, b))
  }

  ghost predicate SccGraphOk(g: Graph, sg: SccGraph) {
    && TarjanScc.ComponentsOk(g, Vertices(g), sg.components)
    && ComponentOfOk(g, sg.components, sg.componentOf)
    && TopologicallySorted(g, sg)
    && forall c :: c in sg.isCyclic <==> 0 <= c < |sg.components| && ComponentIsCyclic(g, sg.components[c])
  }

  /** Two blocks share a component exactly when each reaches the other. */
  lemma SameComponentIsMutual(g: Graph, sg: SccGraph, a: Block, b: Block)
    requires SccGraphOk(g, sg) && a < |g.succ| && b < |g.succ|
    ensures a in sg.componentOf && b in sg.componentOf
    ensures sg.componentOf[a] == sg.componentOf[b] <==> Mutual(g, Vertices(g), a, b)
  {
    assert a in sg.componentOf && b in sg.componentOf;
    var c := sg.componentOf[a];
    assert TarjanScc.IsScc(g, Vertices(g), sg.components[c]);
    assert b in Vertices(g);
    assert Mutual(g, Vertices(g), a, b) <==> b in sg.components[c];
  }

  /** `componentOf` covers the components below `c` and the first `i` members of component `c`. */
  ghost predicate Listed(components: seq<seq<Block>>, componentOf: map<Block, SccComponent>, c: nat, i: nat)
    requires c <= |components| && (i == 0 || (c < |components| && i <= |components[c]|))
  {
    && (forall b {:trigger TarjanScc.EmittedIn(components, c - 1, b)} ::
          TarjanScc.EmittedIn(components, c - 1, b) ==> b in componentOf)
    && (c < |components| ==> forall j :: 0 <= j < i ==> components[c][j] in componentOf)
    && (forall b {:trigger componentOf[b]} :: b in componentOf ==> ListedAt(components, componentOf, c, i, b))
  }

  ghost predicate ListedAt(components: seq<seq<Block>>, componentOf: map<Block, SccComponent>, c: nat, i: nat, b: Block)
    requires b in componentOf && (i == 0 || (c < |components| && i <= |components[c]|))
  {
    && componentOf[b] < |components| && b in components[componentOf[b]]
    && (componentOf[b] < c || (componentOf[b] == c && b in components[c][..i]))
  }

  /** Components are disjoint and list each member once, so no block is recorded twice. */
  lemma NotListed(g: Graph, components: seq<seq<Block>>, componentOf: map<Block, SccComponent>, c: nat, i: nat)
    requires TarjanScc.ComponentsOk(g, Vertices(g), components)
    requires c < |components| && i < |components[c]| && Listed(components, componentOf, c, i)
    ensures components[c][i] !in componentOf
  {
    var b := components[c][i];
    if b in componentOf {
      assert ListedAt(components, componentOf, c, i, b);
      assert b in components[componentOf[b]] && b in components[c];
      var j :| 0 <= j < i && components[c][..i][j] == b;
      DistinctAt(components[c], j, i);
    }
  }

  lemma ListNext(components: seq<seq<Block>>, componentOf: map<Block, SccComponent>, c: nat, i: nat)
    requires c < |components| && i < |components[c]| && Listed(components, componentOf, c, i)
    requires components[c][i] !in componentOf
    ensures Listed(components, componentOf[components[c][i] := c], c, i + 1)
  {
  }

  lemma ListComponent(components: seq<seq<Block>>, componentOf: map<Block, SccComponent>, c: nat)
    requires c < |components| && Listed(components, componentOf, c, |components[c]|)
    ensures Listed(components, componentOf, c + 1, 0)
  {
    forall b {:trigger TarjanScc.EmittedIn(components, c, b)} | TarjanScc.EmittedIn(components, c, b)
      ensures b in componentOf
    {
      var d :| 0 <= d <= c && b in components[d];
      if d < c {
        assert TarjanScc.EmittedIn(components, c - 1, b);
      }
    }
    forall b {:trigger componentOf[b]} | b in componentOf ensures ListedAt(components, componentOf, c + 1, 0, b) {
      assert ListedAt(components, componentOf, c, |components[c]|, b);
    }
  }

  lemma AllListed(g: Graph, components: seq<seq<Block>>, componentOf: map<Block, SccComponent>)
    requires TarjanScc.ComponentsOk(g, Vertices(g), components)
    requires forall x :: x in Vertices(g) <==> TarjanScc.Emitted(components, x)
    requires Listed(components, componentOf, |components|, 0)
    ensures ComponentOfOk(g, components, componentOf)
  {
    forall b: Block ensures b < |g.succ| <==> b in componentOf {
      assert b in Vertices(g) <==> b < |g.succ|;
      if b in componentOf {
        assert ListedAt(components, componentOf, |components|, 0, b);
        assert TarjanScc.Emitted(components, b);
      }
      if b in Vertices(g) {
        assert TarjanScc.EmittedIn(components, |components| - 1, b);
      }
    }
    forall b | b in componentOf ensures componentOf[b] < |components| && b in components[componentOf[b]] {
      assert ListedAt(components, componentOf, |components|, 0, b);
    }
    forall c, b | 0 <= c < |components| && b in components[c] ensures b in componentOf && componentOf[b] == c {
      assert TarjanScc.EmittedIn(components, |components| - 1, b);
      assert ListedAt(components, componentOf, |components|, 0, b);
      assert b in components[componentOf[b]];
    }
  }

  /** Maps every block to its component. */
  method ComponentOf(g: Graph, components: seq<seq<Block>>) returns (componentOf: map<Block, SccComponent>)
    requires TarjanScc.ComponentsOk(g, Vertices(g), components)
    requires forall x :: x in Vertices(g) <==> TarjanScc.Emitted(components, x)
    ensures ComponentOfOk(g, components, componentOf)
  {
    componentOf := map[];
    var c := 0;
    while c < |components|
      invariant 0 <= c <= |components|
      invariant Listed(components, componentOf, c, 0)
    {
      var i := 0;
      while i < |components[c]|
        invariant 0 <= i <= |components[c]|
        invariant Listed(components, componentOf, c, i)
      {
        var block := components[c][i];
        NotListed(g, components, componentOf, c, i);
        ListNext(components, componentOf, c, i);
        componentOf := componentOf[block := c];
        i := i + 1;
      }
      ListComponent(components, componentOf, c);
      c := c + 1;
    }
    AllListed(g, components, componentOf);
  }

  /** Tarjan emits a component only after everything it leads to. */
  lemma CondensationDescends(g: Graph, components: seq<seq<Block>>, componentOf: map<Block, SccComponent>,
                             edges: seq<set<SccComponent>>)
    requires WellFormed(g)
    requires TarjanScc.ComponentsOk(g, Vertices(g), components) && ComponentOfOk(g, components, componentOf)
    requires |edges| == |components| && EdgesOk(g, componentOf, edges, |g.succ|, 0)
    ensures EdgesDescend(edges)
  {
  }

  lemma OrderIsForward(g: Graph, sg: SccGraph, edges: seq<set<SccComponent>>)
    requires WellFormed(g) && ComponentOfOk(g, sg.components, sg.componentOf)
    requires |edges| == |sg.components| && EdgesOk(g, sg.componentOf, edges, |g.succ|, 0)
    requires InOrder(edges, sg.topoOrder) && Distinct(sg.topoOrder)
    requires |sg.topoOrder| == |edges| && forall c :: 0 <= c < |edges| <==> c in sg.topoOrder
    ensures TopologicallySorted(g, sg)
  {
    forall i: nat, a: Block, b: Block {:trigger ComesBefore(g, sg, i, a, b)} |
      0 <= i < |sg.topoOrder| && b in sg.componentOf && sg.componentOf[b] == sg.topoOrder[i]
      ensures ComesBefore(g, sg, i, a, b)
    {
      if Edge(g, a, b) && a in sg.componentOf && sg.componentOf[a] != sg.componentOf[b] {
        var k :| 0 <= k < |g.succ[a]| && g.succ[a][k] == b;
        assert Crosses(sg.componentOf, edges, a, g.succ[a][k]);
        assert sg.componentOf[a] in Preds(edges, sg.topoOrder[i]);
        assert PredsBefore(edges, sg.topoOrder, i);
      }
    }
  }

  /** Collects the cyclic components into a bit set made without capacity. */
  method CollectCyclic(g: Graph, components: seq<seq<Block>>) returns (isCyclic: set<SccComponent>, overflow: bool)
    ensures forall c :: c in isCyclic <==> 0 <= c < |components| && ComponentIsCyclic(g, components[c])
    ensures overflow <==> !Fits(isCyclic)
  {
    isCyclic := {};
    var room := NEW_ROOM;
    for c := 0 to |components|
      invariant forall d :: d in isCyclic <==> 0 <= d < c && ComponentIsCyclic(g, components[d])
      invariant RoomFor(room, isCyclic)
    {
      if ComponentIsCyclic(g, components[c]) {
        InsertKeepsRoom(room, isCyclic, c);
        room := Inserted(room, c);
        isCyclic := isCyclic + {c};
      }
    }
    overflow := room.overflowed;
  }

  /** There are no more components than blocks. */
  lemma FewComponents(g: Graph, components: seq<seq<Block>>)
    requires TarjanScc.ComponentsOk(g, Vertices(g), components)
    ensures |components| <= |g.succ|
  {
    var heads := seq(|components|, c requires 0 <= c < |components| =>
      assert TarjanScc.IsScc(g, Vertices(g), components[c]); components[c][0]);
    forall i, j | 0 <= i < j < |heads| ensures Differ(heads[i], heads[j]) {
      assert heads[i] in components[i] && heads[j] in components[j];
    }
    forall b | b in heads ensures b < |g.succ| {
      var c :| 0 <= c < |heads| && heads[c] == b;
      assert TarjanScc.IsScc(g, Vertices(g), components[c]);
      assert b in components[c] && b in Vertices(g);
    }
    Bounded(heads, |g.succ|);
  }

  /** All blocks fit exactly when there are at most as many as a word has bits. */
  lemma BlocksFit(g: Graph)
    ensures Fits(Vertices(g)) <==> |g.succ| <= BITS
  {
    if |g.succ| > BITS {
      assert BITS in Vertices(g);
    }
  }

  /** With at most 64 blocks no bit set of the condensation overflows. */
  lemma NumbersFit(g: Graph, components: seq<seq<Block>>, componentOf: map<Block, SccComponent>,
                   edges: seq<set<SccComponent>>, isCyclic: set<SccComponent>)
    requires TarjanScc.ComponentsOk(g, Vertices(g), components) && ComponentOfOk(g, components, componentOf)
    requires |edges| == |components| && EdgesOk(g, componentOf, edges, |g.succ|, 0)
    requires forall c :: c in isCyclic ==> c < |components|
    ensures |g.succ| <= BITS ==> !EdgesOverflow(edges) && Fits(isCyclic)
  {
    FewComponents(g, components);
  }

  /**
   Builds the condensation, or returns `None` where the source panics on a
   safepoint-free cycle.  The source returns exactly when there is a result
   and no bit set overflowed, that is, for at most 64 blocks.
   */
  method NewSccGraph(ir: Ir) returns (result: Option<SccGraph>, overflow: bool)
    requires WellFormedIr(ir)
    ensures result.Some? <==> CyclesHaveSafepoints(ir)
    ensures result.Some? ==> SccGraphOk(Cfg(ir), result.value)
    ensures result.Some? && !overflow <==> CyclesHaveSafepoints(ir) && |ir.blocks| <= BITS
  {
    var ok, checking := AssertCyclesHaveSafepoints(ir);
    if !ok {
      return None, checking;
    }
    var g := Cfg(ir);
    CfgWellFormed(ir);
    var components, visiting := StronglyConnectedComponents(g, None);
    var componentOf := ComponentOf(g, components);
    var edges, indegree, joining := CondensationEdges(g, |components|, componentOf);
    CondensationDescends(g, components, componentOf, edges);
    var topoOrder := TopologicalOrder(edges, indegree);
    var isCyclic, collecting := CollectCyclic(g, components);
    var sg := SccGraph(components, componentOf, topoOrder, isCyclic);
    OrderIsForward(g, sg, edges);
    BlocksFit(g);
    NumbersFit(g, components, componentOf, edges, isCyclic);
    assert FreeBlocks(ir) <= Vertices(g);
    return Some(sg), checking || visiting || joining || collecting;
  }
}
