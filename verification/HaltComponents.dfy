/**
 One round of the halt-check pass: it merges the states waiting on the edges into
 the next component, rewrites its blocks, and stores the states at their ends.
 */
module HaltComponents {
  import opened Wrappers
  import opened Graphs
  import opened ExecIr
  import opened Traces
  import opened BlockSplitting
  import opened HaltStateMaps
  import opened PassInvariant
  import opened HaltCheckInserters
  import opened HaltStates
  import opened HaltStateMerge
  import opened BlockProcessing
  import opened SccGraphs
  import TarjanScc

  ghost function Elems(s: seq<Block>): set<Block> {
    set b | b in s
  }

  function Start(cyclic: bool, stateIn: HaltState): HalterState {
    if cyclic then Cyclic(None, stateIn.remaining) else ACyclic(stateIn)
  }

  /** The state after a block of a component entered with `stateIn`. */
  ghost function OutState(cyclic: bool, stateIn: HaltState, every: nat, sps: seq<Stmt>): HaltState
    requires 0 < stateIn.remaining <= every
  {
    HalterTake(HalterRun(Start(cyclic, stateIn), every, sps))
  }

  ghost function OutChecks(cyclic: bool, stateIn: HaltState, every: nat, sps: seq<Stmt>): set<Stmt>
    requires 0 < stateIn.remaining <= every
  {
    HalterChecks(Start(cyclic, stateIn), every, sps)
  }

  /** The safepoints checked while processing the blocks in `component`. */
  ghost function ComponentChecks(cyclic: bool, stateIn: HaltState, every: nat, sps: seq<seq<Stmt>>,
                                 component: seq<Block>): set<Stmt>
    requires 0 < stateIn.remaining <= every
  {
    if component == [] then {}
    else
      ComponentChecks(cyclic, stateIn, every, sps, component[..|component| - 1])
      + OutChecks(cyclic, stateIn, every, SafepointsAt(sps, component[|component| - 1]))
  }

  lemma {:induction false} ComponentChecksOf(cyclic: bool, stateIn: HaltState, every: nat, sps: seq<seq<Stmt>>,
                                             component: seq<Block>)
    requires 0 < stateIn.remaining <= every
    ensures forall b :: b in component ==>
      OutChecks(cyclic, stateIn, every, SafepointsAt(sps, b))
        <= ComponentChecks(cyclic, stateIn, every, sps, component)
    ensures forall s :: s in ComponentChecks(cyclic, stateIn, every, sps, component) ==>
      exists b :: b in component && s in SafepointsAt(sps, b)
  {
    if component != [] {
      var init, b := component[..|component| - 1], component[|component| - 1];
      ComponentChecksOf(cyclic, stateIn, every, sps, init);
      HalterChecksAmong(Start(cyclic, stateIn), every, SafepointsAt(sps, b));
      assert component == init + [b];
    }
  }

  lemma {:induction false} HalterChecksAmong(h: HalterState, every: nat, sps: seq<Stmt>)
    requires HalterOk(h, every)
    ensures forall s :: s in HalterChecks(h, every, sps) ==> s in sps
  {
    if sps != [] {
      HalterChecksAmong(h, every, sps[..|sps| - 1]);
    }
  }

  // ---------------------------------------------------------------------
  // Between components

  /** Blocks that are not done have not been split. */
  ghost predicate Unsplit(last: seq<Block>, done: set<Block>) {
    forall b: Block {:trigger last[b]} :: b < |last| && b !in done ==> last[b] == b
  }

  ghost predicate PendingStatesOk(pending: Edges, every: nat, checked: set<Stmt>, resets: set<Stmt>, known: set<Stmt>) {
    forall e {:trigger pending[e]} :: e in pending ==> StateOk(pending[e], every, checked, resets, known)
  }

  datatype Snapshot = Snapshot(last: seq<Block>, checked: set<Stmt>, pending: Edges)

  ghost function SnapshotOf(inserter: HaltCheckInserter): Snapshot
    reads inserter
  {
    Snapshot(inserter.last, inserter.checked, inserter.pending)
  }

  /** The invariant of the pass once the blocks in `done` are processed. */
  ghost predicate PassOk(o: Ir, every: nat, done: set<Block>, now: Snapshot, resets: set<Stmt>) {
    && WellFormedIr(o) && every > 0
    && PassInv(Cfg(o), Sps(o), every, done, now.pending, now.checked)
    && Unsplit(now.last, done)
    && PendingStatesOk(now.pending, every, now.checked, resets, KnownSet(o, done))
  }

  /** The blocks of the first `i` components of the topological order. */
  ghost function DoneBlocks(sg: SccGraph, i: nat): (done: set<Block>)
    requires i <= |sg.topoOrder|
  {
    set b | b in sg.componentOf && sg.componentOf[b] in sg.topoOrder[..i]
  }

  /** What the topological order gives the pass: predecessors first, and acyclic components are single blocks. */
  lemma NextComponent(g: Graph, sg: SccGraph, i: nat)
    requires WellFormed(g) && SccGraphOk(g, sg) && i < |sg.topoOrder|
    requires PredClosed(g, DoneBlocks(sg, i))
    ensures sg.topoOrder[i] < |sg.components|
    ensures var c := sg.topoOrder[i];
      NextOk(g, DoneBlocks(sg, i), sg.components[c], c in sg.isCyclic)
      && DoneBlocks(sg, i + 1) == DoneBlocks(sg, i) + Elems(sg.components[c])
      && forall b :: b in sg.componentOf ==> (sg.componentOf[b] == c <==> b in sg.components[c])
  {
    var c := sg.topoOrder[i];
    assert c in sg.topoOrder;
    var done, comp := DoneBlocks(sg, i), Elems(sg.components[c]);
    assert c !in sg.topoOrder[..i] by {
      forall k | 0 <= k < i ensures sg.topoOrder[k] != c {
        DistinctAt(sg.topoOrder, k, i);
      }
    }
    assert sg.topoOrder[..i + 1] == sg.topoOrder[..i] + [c];
    forall a: Block, b: Block {:trigger Edge(g, a, b)} | Edge(g, a, b) && b in comp ensures a in done + comp {
      assert ComesBefore(g, sg, i, a, b);
      assert a in sg.componentOf;
    }
    assert TarjanScc.IsScc(g, Vertices(g), sg.components[c]);
    assert c in sg.isCyclic <==> ComponentIsCyclic(g, sg.components[c]);
  }

  /** `component` is what the pass may process next. */
  ghost predicate NextOk(g: Graph, done: set<Block>, component: seq<Block>, cyclic: bool) {
    && Distinct(component) && component != []
    && (forall b :: b in component ==> b < |g.succ| && b !in done)
    && PredClosed(g, done) && PredClosed(g, done + Elems(component))
    && (!cyclic ==> |component| == 1 && !Edge(g, component[0], component[0]))
  }

  // ---------------------------------------------------------------------
  // Inside a component

  /** Takes the states waiting on all edges into the component. */
  method CollectIncoming(inserter: HaltCheckInserter, component: seq<Block>) returns (incoming: seq<HaltState>)
    requires inserter.Valid()
    modifies inserter`pending, inserter.edges
    ensures inserter.Valid() && inserter.pending == Without(old(inserter.pending), Elems(component))
    ensures Collected(old(inserter.pending), Elems(component), incoming)
  {
    incoming := [];
    assert OneEach(inserter.pending, Elems(component[..0]), [], []);
    for i := 0 to |component|
      invariant inserter.Valid()
      invariant inserter.pending == Without(old(inserter.pending), Elems(component[..i]))
      invariant Collected(old(inserter.pending), Elems(component[..i]), incoming)
    {
      ghost var now := inserter.pending;
      var states := inserter.DrainIncoming(component[i]);
      CollectMore(old(inserter.pending), Elems(component[..i]), component[i], incoming, states);
      assert Elems(component[..i + 1]) == Elems(component[..i]) + {component[i]};
      incoming := incoming + states;
    }
    assert component[..|component|] == component;
  }

  lemma CollectMore(pending: Edges, towards: set<Block>, block: Block, a: seq<HaltState>, b: seq<HaltState>)
    requires Collected(pending, towards, a) && Collected(Without(pending, towards), {block}, b)
    ensures Collected(pending, towards + {block}, a + b)
    ensures Without(Without(pending, towards), {block}) == Without(pending, towards + {block})
  {
    var first :| OneEach(pending, towards, first, a);
    var second :| OneEach(Without(pending, towards), {block}, second, b);
    ListMore(pending, towards, block, first, a, second, b);
  }

  lemma ListMore(pending: Edges, towards: set<Block>, block: Block, first: seq<(Block, Block)>, a: seq<HaltState>,
                 second: seq<(Block, Block)>, b: seq<HaltState>)
    requires OneEach(pending, towards, first, a) && OneEach(Without(pending, towards), {block}, second, b)
    ensures OneEach(pending, towards + {block}, first + second, a + b)
  {
    var all, states := first + second, a + b;
    forall i {:trigger states[i]} {:trigger all[i]} | 0 <= i < |states|
      ensures all[i] in pending && all[i].1 in towards + {block} && states[i] == pending[all[i]]
    {
      if i < |a| {
        assert states[i] == a[i] && all[i] == first[i];
      } else {
        assert states[i] == b[i - |a|] && all[i] == second[i - |a|];
      }
    }
    NoneTwice(pending, towards, block, first, a, second, b);
    forall e {:trigger pending[e]} | e in pending && e.1 in towards + {block} ensures e in all {
      if e.1 !in towards {
        assert Without(pending, towards)[e] == pending[e];
        assert e in second;
      }
    }
  }

  lemma NoneTwice(pending: Edges, towards: set<Block>, block: Block, first: seq<(Block, Block)>, a: seq<HaltState>,
                  second: seq<(Block, Block)>, b: seq<HaltState>)
    requires OneEach(pending, towards, first, a) && OneEach(Without(pending, towards), {block}, second, b)
    ensures forall i, j :: 0 <= i < j < |first + second| ==> (first + second)[i] != (first + second)[j]
  {
    forall i, j | 0 <= i < j < |first + second| ensures (first + second)[i] != (first + second)[j] {
      if i < |first| <= j {
        assert first[i].1 in towards;
        assert second[j - |first|] in Without(pending, towards);
      }
    }
  }

  /** `pending` is `base` plus the states of the edges that leave the component from the blocks in `ready`. */
  ghost predicate Extended(g: Graph, base: Edges, component: set<Block>, ready: set<Block>, pending: Edges,
                           out: map<Block, HaltState>)
    requires ready <= out.Keys
  {
    && (forall a, b {:trigger (a, b) in pending} ::
          (a, b) in pending <==> (a, b) in base || (a in ready && Edge(g, a, b) && b !in component))
    && (forall a, b {:trigger pending[(a, b)]} :: (a, b) in pending ==>
          pending[(a, b)] == if a in ready then out[a] else if (a, b) in base then base[(a, b)] else pending[(a, b)])
  }

  /** Stores the state at the end of `block` on its edges that leave the component. */
  method Propagate(inserter: HaltCheckInserter, sg: SccGraph, componentId: SccComponent, isCyclic: bool, block: Block,
                   lastBlock: Block, stateOut: HaltState)
    requires inserter.Valid() && block < |inserter.last| && inserter.last[block] == lastBlock
    requires SccGraphOk(Cfg(inserter.o), sg) && componentId < |sg.components|
    requires forall b: Block :: (block, b) !in inserter.pending
    requires forall b: Block :: Edge(Cfg(inserter.o), block, b) && !isCyclic ==> b !in sg.components[componentId]
    modifies inserter`pending, inserter.edges
    ensures inserter.Valid()
    ensures Extended(Cfg(inserter.o), old(inserter.pending), Elems(sg.components[componentId]), {block},
                     inserter.pending, map[block := stateOut])
  {
    ghost var g := Cfg(inserter.o);
    LastTerminator(inserter.o, inserter.View(), block);
    CfgWellFormed(inserter.o);
    var successors := BlockTargets(inserter.ir.blocks[lastBlock].terminator);
    for i := 0 to |successors|
      invariant inserter.Valid() && successors == g.succ[block]
      invariant Stored(old(inserter.pending), Elems(sg.components[componentId]), block, successors[..i],
                       inserter.pending, stateOut)
    {
      var successor := successors[i];
      ghost var before := inserter.pending;
      assert Edge(g, block, successor);
      StoredNext(old(inserter.pending), Elems(sg.components[componentId]), block, successors, i, before, stateOut);
      if isCyclic && sg.componentOf[successor] == componentId {
        continue;
      }
      var previous := inserter.AddEdge(lastBlock, successor, stateOut, block);
      assert previous.None?;
    }
    assert successors[..|successors|] == successors;
  }

  ghost predicate Stored(base: Edges, component: set<Block>, block: Block, targets: seq<Block>, pending: Edges,
                         out: HaltState)
  {
    && (forall a, b {:trigger (a, b) in pending} ::
          (a, b) in pending <==> (a, b) in base || (a == block && b in targets && b !in component))
    && (forall a, b {:trigger pending[(a, b)]} :: (a, b) in pending ==>
          pending[(a, b)] == if a == block then out else if (a, b) in base then base[(a, b)] else pending[(a, b)])
  }

  lemma StoredNext(base: Edges, component: set<Block>, block: Block, targets: seq<Block>, i: nat, pending: Edges,
                   out: HaltState)
    requires i < |targets| <= 2 && (|targets| == 2 ==> targets[0] != targets[1])
    requires forall b: Block :: (block, b) !in base
    requires Stored(base, component, block, targets[..i], pending, out)
    ensures (block, targets[i]) !in pending
    ensures if targets[i] in component then Stored(base, component, block, targets[..i + 1], pending, out)
            else Stored(base, component, block, targets[..i + 1], pending[(block, targets[i]) := out], out)
  {
  }

  /** The last piece keeps the terminator of the original block. */
  lemma LastTerminator(o: Ir, k: Book, b: Block)
    requires BookOk(o, k) && b < |k.last|
    ensures k.last[b] < |k.c.blocks| && k.c.blocks[k.last[b]].terminator == o.blocks[b].terminator
  {
    LastPieces(o, k, b);
    assert OriginOk(o, k.c, k.origin, k.last, k.last[b]);
  }

  /** The states at the end of the blocks in `ready`. */
  ghost function OutStates(cyclic: bool, stateIn: HaltState, every: nat, sps: seq<seq<Stmt>>, ready: set<Block>):
    map<Block, HaltState>
    requires 0 < stateIn.remaining <= every
  {
    map b | b in ready :: OutState(cyclic, stateIn, every, SafepointsAt(sps, b))
  }

  lemma ExtendedNext(g: Graph, base: Edges, component: set<Block>, ready: set<Block>, block: Block, before: Edges,
                     after: Edges, cyclic: bool, stateIn: HaltState, every: nat, sps: seq<seq<Stmt>>)
    requires 0 < stateIn.remaining <= every && block !in ready
    requires Extended(g, base, component, ready, before, OutStates(cyclic, stateIn, every, sps, ready))
    requires Extended(g, before, component, {block}, after,
                      map[block := OutState(cyclic, stateIn, every, SafepointsAt(sps, block))])
    ensures Extended(g, base, component, ready + {block}, after,
                     OutStates(cyclic, stateIn, every, sps, ready + {block}))
  {
  }

  /** The blocks in `component[..i]` are processed. */
  ghost predicate BlocksDone(g: Graph, sps: seq<seq<Stmt>>, done: set<Block>, component: seq<Block>, i: nat,
                             isCyclic: bool, stateIn: HaltState, every: nat, was: Snapshot, now: Snapshot)
  {
    && i <= |component| && 0 < stateIn.remaining <= every
    && now.checked == was.checked + ComponentChecks(isCyclic, stateIn, every, sps, component[..i])
    && Unsplit(now.last, done + Elems(component[..i]))
    && Extended(g, was.pending, Elems(component), Elems(component[..i]), now.pending,
                OutStates(isCyclic, stateIn, every, sps, Elems(component[..i])))
  }

  /** One block was rewritten and its final state stored. */
  lemma BlocksNext(g: Graph, sps: seq<seq<Stmt>>, done: set<Block>, component: seq<Block>, i: nat,
                   isCyclic: bool, stateIn: HaltState, every: nat, was: Snapshot, before: Snapshot, now: Snapshot)
    requires BlocksDone(g, sps, done, component, i, isCyclic, stateIn, every, was, before)
    requires i < |component| && Distinct(component)
    requires OtherLastsSame(before.last, now.last, component[i])
    requires now.checked == before.checked + OutChecks(isCyclic, stateIn, every, SafepointsAt(sps, component[i]))
    requires Extended(g, before.pending, Elems(component), {component[i]}, now.pending,
                      map[component[i] := OutState(isCyclic, stateIn, every, SafepointsAt(sps, component[i]))])
    ensures BlocksDone(g, sps, done, component, i + 1, isCyclic, stateIn, every, was, now)
  {
    NotBefore(component, i);
    ReadyNext(component, i);
    ExtendedNext(g, was.pending, Elems(component), Elems(component[..i]), component[i], before.pending, now.pending,
                 isCyclic, stateIn, every, sps);
  }

  /** A block that comes next has no stored states yet and is not split. */
  lemma BlockReady(g: Graph, sps: seq<seq<Stmt>>, done: set<Block>, component: seq<Block>, i: nat,
                   isCyclic: bool, stateIn: HaltState, every: nat, was: Snapshot, now: Snapshot)
    requires BlocksDone(g, sps, done, component, i, isCyclic, stateIn, every, was, now)
    requires i < |component| && NextOk(g, done, component, isCyclic) && |now.last| == |g.succ|
    requires forall a, b {:trigger (a, b) in was.pending} :: (a, b) in was.pending ==> a in done
    ensures component[i] < |now.last| && now.last[component[i]] == component[i]
    ensures forall b: Block :: (component[i], b) !in now.pending
    ensures !isCyclic ==> i == 0 && forall b: Block :: Edge(g, component[i], b) ==> b !in component
  {
    NotBefore(component, i);
    assert component[i] in component;
    if !isCyclic {
      assert |component| == 1;
    }
  }

  /** Processes the blocks of a component, all of them entered with `stateIn`. */
  method ProcessBlocks(inserter: HaltCheckInserter, every: nat, sg: SccGraph, componentId: SccComponent,
                       isCyclic: bool, stateIn: HaltState, ghost done: set<Block>)
    requires inserter.Valid() && SccGraphOk(Cfg(inserter.o), sg) && componentId < |sg.components|
    requires NextOk(Cfg(inserter.o), done, sg.components[componentId], isCyclic)
    requires 0 < stateIn.remaining <= every && Unsplit(inserter.last, done)
    requires forall a, b {:trigger (a, b) in inserter.pending} :: (a, b) in inserter.pending ==> a in done
    modifies inserter`safepointLoc, inserter`origin, inserter`last, inserter`checked, inserter`pending
    modifies inserter.ir, inserter.edges
    ensures inserter.Valid()
    ensures BlocksDone(Cfg(inserter.o), Sps(inserter.o), done, sg.components[componentId],
                       |sg.components[componentId]|, isCyclic, stateIn, every, old(SnapshotOf(inserter)),
                       SnapshotOf(inserter))
  {
    ghost var was := SnapshotOf(inserter);
    var component := sg.components[componentId];
    var halter := new BlockHalter(isCyclic, stateIn);
    for i := 0 to |component|
      invariant inserter.Valid()
      invariant BlocksDone(Cfg(inserter.o), Sps(inserter.o), done, component, i, isCyclic, stateIn, every, was,
                           SnapshotOf(inserter))
      invariant isCyclic || i == 0 ==> halter.View() == Start(isCyclic, stateIn)
    {
      ProcessNext(halter, inserter, every, sg, componentId, isCyclic, stateIn, done, i, was);
    }
  }

  method ProcessNext(halter: BlockHalter, inserter: HaltCheckInserter, every: nat, sg: SccGraph,
                     componentId: SccComponent, isCyclic: bool, ghost stateIn: HaltState, ghost done: set<Block>,
                     i: nat, ghost was: Snapshot)
    requires inserter.Valid() && SccGraphOk(Cfg(inserter.o), sg)
    requires componentId < |sg.components| && i < |sg.components[componentId]|
    requires NextOk(Cfg(inserter.o), done, sg.components[componentId], isCyclic)
    requires forall a, b {:trigger (a, b) in was.pending} :: (a, b) in was.pending ==> a in done
    requires BlocksDone(Cfg(inserter.o), Sps(inserter.o), done, sg.components[componentId], i, isCyclic, stateIn,
                        every, was, SnapshotOf(inserter))
    requires isCyclic || i == 0 ==> halter.View() == Start(isCyclic, stateIn)
    modifies halter, inserter`safepointLoc, inserter`origin, inserter`last, inserter`checked, inserter`pending
    modifies inserter.ir, inserter.edges
    ensures inserter.Valid()
    ensures BlocksDone(Cfg(inserter.o), Sps(inserter.o), done, sg.components[componentId], i + 1, isCyclic, stateIn,
                       every, was, SnapshotOf(inserter))
    ensures isCyclic ==> halter.View() == Start(isCyclic, stateIn)
  {
    ghost var g, sps, before := Cfg(inserter.o), Sps(inserter.o), SnapshotOf(inserter);
    var component := sg.components[componentId];
    var block := component[i];
    BlockReady(g, sps, done, component, i, isCyclic, stateIn, every, was, before);
    var lastBlock, stateOut := ProcessBlock(halter, inserter, every, block);
    Propagate(inserter, sg, componentId, isCyclic, block, lastBlock, stateOut);
    BlocksNext(g, sps, done, component, i, isCyclic, stateIn, every, was, before, SnapshotOf(inserter));
  }

  lemma NotBefore(s: seq<Block>, i: nat)
    requires Distinct(s) && i < |s|
    ensures s[i] !in s[..i]
  {
    forall k | 0 <= k < i ensures s[k] != s[i] {
      DistinctAt(s, k, i);
    }
  }

  lemma ReadyNext(s: seq<Block>, i: nat)
    requires i < |s|
    ensures s[..i + 1][..i] == s[..i] && Elems(s[..i + 1]) == Elems(s[..i]) + {s[i]}
  {
    assert s[..i + 1] == s[..i] + [s[i]];
  }

  // ---------------------------------------------------------------------
  // What one component does to the invariant

  /** Where the state of an edge is among the collected ones. */
  lemma StateOf(pending: Edges, component: set<Block>, incoming: seq<HaltState>, e: (Block, Block)) returns (i: nat)
    requires Collected(pending, component, incoming) && e in pending && e.1 in component
    ensures i < |incoming| && incoming[i] == pending[e]
  {
    var sources: seq<(Block, Block)> :| OneEach(pending, component, sources, incoming);
    assert pending[e] == pending[e] && e in sources;
    i :| 0 <= i < |sources| && sources[i] == e;
  }

  /** Every walk into the component is covered by the merged state. */
  lemma ArrivalsHold(g: Graph, sps: seq<seq<Stmt>>, every: nat, done: set<Block>, component: set<Block>,
                     pending: Edges, checked0: set<Stmt>, incoming: seq<HaltState>, stateIn: HaltState,
                     checked1: set<Stmt>, checked2: set<Stmt>)
    requires PassInv(g, sps, every, done, pending, checked0) && component !! done
    requires Collected(pending, component, incoming) && MergedFrom(incoming, checked0, stateIn, checked1, every)
    requires checked1 <= checked2
    ensures Arrivals(g, sps, every, done, component, stateIn, checked2)
  {
    forall p, b {:trigger Edge(g, Last(p), b), IsPath(g, done, p)} |
      IsPath(g, done, p) && b in component && Edge(g, Last(p), b)
      ensures WalkCovered(sps, every, checked2, p, stateIn)
    {
      assert Last(p) in done && b !in done;
      assert (Last(p), b) in pending;
      var st := pending[(Last(p), b)];
      assert WalkCovered(sps, every, checked0, p, st);
      var i := StateOf(pending, component, incoming, (Last(p), b));
      assert Covers(stateIn, every, checked1, Trace(sps, p));
      MoreChecks(stateIn, every, checked1, checked2);
    }
  }

  /** The states at the end of the component cover every walk that ends in it. */
  lemma OutCovered(g: Graph, sps: seq<seq<Stmt>>, every: nat, done: set<Block>, component: seq<Block>, isCyclic: bool,
                   stateIn: HaltState, checked: set<Stmt>)
    requires NextOk(g, done, component, isCyclic) && WalksBounded(g, sps, every, done, checked)
    requires 0 < stateIn.remaining <= every && |stateIn.suffix| + stateIn.remaining <= every
    requires Arrivals(g, sps, every, done, Elems(component), stateIn, checked)
    requires ComponentChecks(isCyclic, stateIn, every, sps, component) <= checked
    ensures ComponentCovered(g, sps, every, done, Elems(component), checked,
                             OutStates(isCyclic, stateIn, every, sps, Elems(component)))
  {
    ComponentChecksOf(isCyclic, stateIn, every, sps, component);
    var out := OutStates(isCyclic, stateIn, every, sps, Elems(component));
    if isCyclic {
      forall b | b in component
        ensures out[b] == CyclicOut(stateIn, every, SafepointsAt(sps, b))
        ensures forall s :: s in SafepointsAt(sps, b) ==> s in checked
      {
        CyclicRun(stateIn, every, SafepointsAt(sps, b));
      }
      CyclicCovered(g, sps, every, done, Elems(component), stateIn, checked, out);
    } else {
      var block := component[0];
      assert Elems(component) == {block};
      ACyclicRun(stateIn, every, SafepointsAt(sps, block));
      assert out == map[block := RunDown(stateIn, every, SafepointsAt(sps, block))];
      AcyclicCovered(g, sps, every, done, block, stateIn, checked);
    }
  }

  lemma ExtendedAdvances(g: Graph, done: set<Block>, component: set<Block>, pending: Edges, next: Edges,
                         out: map<Block, HaltState>)
    requires PendingDomain(g, done, pending) && component !! done && component <= out.Keys
    requires PredClosed(g, done) && Extended(g, Without(pending, component), component, component, next, out)
    ensures Advanced(g, done, component, pending, next, out)
  {
  }

  /** The invariant of the walks moves on to the component just processed. */
  lemma ComponentDone(g: Graph, sps: seq<seq<Stmt>>, every: nat, done: set<Block>, component: seq<Block>,
                      isCyclic: bool, pending: Edges, checked0: set<Stmt>, incoming: seq<HaltState>,
                      stateIn: HaltState, was: Snapshot, now: Snapshot)
    requires PassInv(g, sps, every, done, pending, checked0) && NextOk(g, done, component, isCyclic)
    requires Collected(pending, Elems(component), incoming)
    requires MergedFrom(incoming, checked0, stateIn, was.checked, every) && checked0 <= was.checked
    requires was.pending == Without(pending, Elems(component)) && |stateIn.suffix| + stateIn.remaining <= every
    requires BlocksDone(g, sps, done, component, |component|, isCyclic, stateIn, every, was, now)
    ensures PassInv(g, sps, every, done + Elems(component), now.pending, now.checked)
  {
    var out := OutStates(isCyclic, stateIn, every, sps, Elems(component));
    assert component[..|component|] == component;
    InvMono(g, sps, every, done, pending, checked0, now.checked);
    ArrivalsHold(g, sps, every, done, Elems(component), pending, checked0, incoming, stateIn, was.checked, now.checked);
    OutCovered(g, sps, every, done, component, isCyclic, stateIn, now.checked);
    ExtendedAdvances(g, done, Elems(component), pending, now.pending, out);
    AdvanceInv(g, sps, every, done, Elems(component), pending, now.pending, now.checked, out);
  }

  // ---------------------------------------------------------------------
  // The states themselves

  lemma {:induction false} SafepointsDistinct(ir: Ir, stmts: seq<Stmt>)
    requires forall i, j :: 0 <= i < j < |stmts| ==> stmts[i] != stmts[j]
    ensures Distinct(SafepointsOf(ir, stmts))
  {
    if stmts != [] {
      var init := stmts[..|stmts| - 1];
      SafepointsDistinct(ir, init);
      SafepointsAreSafepoints(ir, init);
      AppendDistinct(SafepointsOf(ir, init), stmts[|stmts| - 1]);
    }
  }

  /** Counting down over fresh safepoints keeps a state sane. */
  lemma {:induction false} RunDownOk(st: HaltState, every: nat, checked: set<Stmt>, resets: set<Stmt>,
                                     known: set<Stmt>, sps: seq<Stmt>)
    requires StateOk(st, every, checked, resets, known) && Distinct(sps)
    requires forall s :: s in sps ==> s in known && s !in checked
    ensures StateOk(RunDown(st, every, sps), every, checked + RunChecks(st, every, sps), resets, known)
    ensures RunChecks(st, every, sps) <= set s | s in sps
  {
    if sps != [] {
      var init, s := sps[..|sps| - 1], sps[|sps| - 1];
      assert forall t :: t in init ==> t in sps;
      DistinctPrefix(sps, |sps| - 1);
      RunDownOk(st, every, checked, resets, known, init);
      NotBefore(sps, |sps| - 1);
      assert s in sps;
      CountDownOk(RunDown(st, every, init), every, checked + RunChecks(st, every, init), resets, known, s);
    }
  }

  lemma DistinctPrefix(s: seq<Stmt>, n: nat)
    requires Distinct(s) && n <= |s|
    ensures Distinct(s[..n])
  {
  }

  /** A block that was never split is the only piece of itself. */
  lemma {:induction false} UnsplitBlock(o: Ir, k: Book, b: Block, x: Block)
    requires BookOk(o, k) && b < |k.last| && k.last[b] == b
    requires x < |k.origin| && k.origin[x].Piece? && k.origin[x].block == b && k.origin[x].off <= |o.blocks[b].stmts|
    ensures x == b
    decreases |o.blocks[b].stmts| - k.origin[x].off
  {
    if x != b {
      assert OriginOk(o, k.c, k.origin, k.last, x);
      UnsplitBlock(o, k, b, k.c.blocks[x].terminator.zero.target);
    }
  }

  /** So none of its safepoints has a halt check. */
  lemma UnsplitUnchecked(o: Ir, k: Book, b: Block, s: Stmt)
    requires BookOk(o, k) && b < |k.last| && k.last[b] == b && s in SafepointsOf(o, o.blocks[b].stmts)
    ensures s !in k.checked
  {
    SafepointsAreSafepoints(o, o.blocks[b].stmts);
    if CheckedAfter(k.c, k.origin, k.last, s) {
      var x: Block :| EndsChecked(k.c, k.origin, k.last, x) && k.c.blocks[x].stmts[|k.c.blocks[x].stmts| - 2] == s;
      assert OriginOk(o, k.c, k.origin, k.last, x);
      var a, n := k.origin[x].block, |k.c.blocks[x].stmts| - 1;
      assert k.c.blocks[x].stmts[..n][n - 1] == o.blocks[a].stmts[k.origin[x].off + n - 1];
      assert At(o.blocks, a, k.origin[x].off + n - 1, s);
      var j :| 0 <= j < |o.blocks[b].stmts| && o.blocks[b].stmts[j] == s;
      assert At(o.blocks, b, j, s);
      UnsplitBlock(o, k, b, x);
    }
  }

  lemma KnownGrows(o: Ir, done: set<Block>, more: set<Block>)
    requires done <= more
    ensures KnownSet(o, done) <= KnownSet(o, more)
  {
  }

  lemma BlockSafepointsKnown(o: Ir, done: set<Block>, b: Block)
    requires b < |o.blocks| && b in done
    ensures forall s :: s in SafepointsOf(o, o.blocks[b].stmts) ==> s in KnownSet(o, done)
  {
    SafepointsAreSafepoints(o, o.blocks[b].stmts);
    forall s | s in SafepointsOf(o, o.blocks[b].stmts) ensures s in KnownSet(o, done) {
      var j :| 0 <= j < |o.blocks[b].stmts| && o.blocks[b].stmts[j] == s;
      assert At(o.blocks, b, j, s);
      assert Known(o, done, s);
    }
  }

  lemma BlockSafepointsDistinct(o: Ir, b: Block)
    requires WellFormedIr(o) && b < |o.blocks|
    ensures Distinct(SafepointsOf(o, o.blocks[b].stmts))
  {
    var stmts := o.blocks[b].stmts;
    forall i, j | 0 <= i < j < |stmts| ensures stmts[i] != stmts[j] {
      assert At(o.blocks, b, i, stmts[i]) && At(o.blocks, b, j, stmts[j]);
    }
    SafepointsDistinct(o, stmts);
  }

  /** The state at the end of a block of the component just processed is sane. */
  lemma OutStateOk(o: Ir, every: nat, done: set<Block>, component: seq<Block>, isCyclic: bool, stateIn: HaltState,
                   checked: set<Stmt>, resets: set<Stmt>, b: Block)
    requires WellFormedIr(o) && NextOk(Cfg(o), done, component, isCyclic) && b in component
    requires StateOk(stateIn, every, checked, resets, KnownSet(o, done))
    requires !isCyclic ==> forall s :: s in SafepointsAt(Sps(o), b) ==> s !in checked
    ensures StateOk(OutState(isCyclic, stateIn, every, SafepointsAt(Sps(o), b)), every,
                    checked + ComponentChecks(isCyclic, stateIn, every, Sps(o), component), resets,
                    KnownSet(o, done + Elems(component)))
  {
    var sps, all := SafepointsAt(Sps(o), b), KnownSet(o, done + Elems(component));
    KnownGrows(o, done, done + Elems(component));
    BlockSafepointsKnown(o, done + Elems(component), b);
    if isCyclic {
      CyclicRun(stateIn, every, sps);
    } else {
      assert component == [b] && component[..0] == [];
      assert ComponentChecks(isCyclic, stateIn, every, Sps(o), component) == OutChecks(isCyclic, stateIn, every, sps);
      ACyclicRun(stateIn, every, sps);
      BlockSafepointsDistinct(o, b);
      RunDownOk(stateIn, every, checked, resets, all, sps);
    }
  }

  /** States from earlier blocks do not see the checks of later components. */
  lemma OldStateOk(o: Ir, every: nat, done: set<Block>, component: seq<Block>, isCyclic: bool, stateIn: HaltState,
                   checked: set<Stmt>, resets: set<Stmt>, st: HaltState)
    requires WellFormedIr(o) && NextOk(Cfg(o), done, component, isCyclic) && 0 < stateIn.remaining <= every
    requires StateOk(st, every, checked, resets, KnownSet(o, done))
    ensures StateOk(st, every, checked + ComponentChecks(isCyclic, stateIn, every, Sps(o), component), resets,
                    KnownSet(o, done + Elems(component)))
  {
    KnownGrows(o, done, done + Elems(component));
    ComponentChecksOf(isCyclic, stateIn, every, Sps(o), component);
    forall s | s in st.suffix ensures s !in ComponentChecks(isCyclic, stateIn, every, Sps(o), component) {
      if s in ComponentChecks(isCyclic, stateIn, every, Sps(o), component) {
        var b :| b in component && s in SafepointsAt(Sps(o), b);
        SafepointsAreSafepoints(o, o.blocks[b].stmts);
        OnlyPlacedInDone(o, done, s, b);
      }
    }
  }

  lemma StatesDone(o: Ir, every: nat, done: set<Block>, component: seq<Block>, isCyclic: bool, pending: Edges,
                   checked0: set<Stmt>, resets0: set<Stmt>, resets: set<Stmt>, stateIn: HaltState, was: Snapshot,
                   now: Snapshot)
    requires WellFormedIr(o) && NextOk(Cfg(o), done, component, isCyclic)
    requires PendingStatesOk(pending, every, checked0, resets0, KnownSet(o, done))
    requires Grew(checked0, resets0, was.checked, resets)
    requires StateOk(stateIn, every, was.checked, resets, KnownSet(o, done))
    requires !isCyclic ==> forall s :: s in SafepointsAt(Sps(o), component[0]) ==> s !in was.checked
    requires was.pending == Without(pending, Elems(component))
    requires BlocksDone(Cfg(o), Sps(o), done, component, |component|, isCyclic, stateIn, every, was, now)
    ensures PendingStatesOk(now.pending, every, now.checked, resets, KnownSet(o, done + Elems(component)))
  {
    assert component[..|component|] == component;
    forall e {:trigger now.pending[e]} | e in now.pending
      ensures StateOk(now.pending[e], every, now.checked, resets, KnownSet(o, done + Elems(component)))
    {
      assert (e.0, e.1) in now.pending;
      if e.0 in component {
        OutStateOk(o, every, done, component, isCyclic, stateIn, was.checked, resets, e.0);
      } else {
        StateStaysOk(pending[e], every, checked0, resets0, KnownSet(o, done), was.checked, resets);
        OldStateOk(o, every, done, component, isCyclic, stateIn, was.checked, resets, pending[e]);
      }
    }
  }

  lemma IncomingOk(pending: Edges, towards: set<Block>, incoming: seq<HaltState>, every: nat, checked: set<Stmt>,
                   resets: set<Stmt>, known: set<Stmt>)
    requires Collected(pending, towards, incoming) && PendingStatesOk(pending, every, checked, resets, known)
    ensures AllOk(incoming, every, checked, resets, known)
  {
  }

  /** `incoming` are the states on the edges into the component, and `stateIn` is what the merge rule makes of them. */
  ghost predicate MergedBy(every: nat, component: seq<Block>, start: Snapshot, resets0: set<Stmt>,
                           incoming: seq<HaltState>, stateIn: HaltState, was: Snapshot, resets: set<Stmt>) {
    && Collected(start.pending, Elems(component), incoming)
    && MergeRule(incoming, every, resets0, stateIn, resets) && was.checked == start.checked + resets
    && MergedFrom(incoming, start.checked, stateIn, was.checked, every)
  }

  /** What is known once the states into `component` are merged into `stateIn`. */
  ghost predicate MergedInto(o: Ir, every: nat, done: set<Block>, component: seq<Block>, isCyclic: bool,
                             start: Snapshot, resets0: set<Stmt>, stateIn: HaltState, was: Snapshot,
                             resets: set<Stmt>)
  {
    && NextOk(Cfg(o), done, component, isCyclic)
    && Grew(start.checked, resets0, was.checked, resets)
    && StateOk(stateIn, every, was.checked, resets, KnownSet(o, done))
    && was.pending == Without(start.pending, Elems(component))
    && (exists incoming :: MergedBy(every, component, start, resets0, incoming, stateIn, was, resets))
    && (!isCyclic ==> forall s :: s in SafepointsAt(Sps(o), component[0]) ==> s !in was.checked)
  }

  /** The component was processed in its own mode: its blocks got exactly the checks their halter asks for. */
  ghost predicate Processed(o: Ir, every: nat, done: set<Block>, component: seq<Block>, isCyclic: bool,
                            start: Snapshot, resets0: set<Stmt>, now: Snapshot, resets: set<Stmt>)
  {
    exists stateIn, was ::
      && MergedInto(o, every, done, component, isCyclic, start, resets0, stateIn, was, resets)
      && BlocksDone(Cfg(o), Sps(o), done, component, |component|, isCyclic, stateIn, every, was, now)
  }

  lemma PassAdvances(o: Ir, every: nat, done: set<Block>, component: seq<Block>, isCyclic: bool, start: Snapshot,
                     resets0: set<Stmt>, now: Snapshot, resets: set<Stmt>)
    requires PassOk(o, every, done, start, resets0)
    requires Processed(o, every, done, component, isCyclic, start, resets0, now, resets)
    ensures PassOk(o, every, done + Elems(component), now, resets)
  {
    var stateIn, was :| MergedInto(o, every, done, component, isCyclic, start, resets0, stateIn, was, resets)
      && BlocksDone(Cfg(o), Sps(o), done, component, |component|, isCyclic, stateIn, every, was, now);
    var incoming :| MergedBy(every, component, start, resets0, incoming, stateIn, was, resets);
    ComponentDone(Cfg(o), Sps(o), every, done, component, isCyclic, start.pending, start.checked, incoming, stateIn,
                  was, now);
    StatesDone(o, every, done, component, isCyclic, start.pending, start.checked, resets0, resets, stateIn, was, now);
    assert component[..|component|] == component;
  }

  /** Merges the states waiting on the edges into the component. */
  method MergeIncoming(inserter: HaltCheckInserter, every: nat, component: seq<Block>, ghost isCyclic: bool,
                       ghost done: set<Block>)
    returns (stateIn: HaltState)
    requires inserter.Valid()
    requires PassOk(inserter.o, every, done, SnapshotOf(inserter), inserter.semanticResetAfter)
    requires NextOk(Cfg(inserter.o), done, component, isCyclic)
    modifies inserter, inserter.ir, inserter.edges
    ensures inserter.Valid() && Unsplit(inserter.last, done)
    ensures MergedInto(inserter.o, every, done, component, isCyclic, old(SnapshotOf(inserter)),
                       old(inserter.semanticResetAfter), stateIn, SnapshotOf(inserter), inserter.semanticResetAfter)
  {
    ghost var o, known := inserter.o, KnownSet(inserter.o, done);
    ghost var start, resets0 := SnapshotOf(inserter), inserter.semanticResetAfter;
    var incoming := CollectIncoming(inserter, component);
    IncomingOk(start.pending, Elems(component), incoming, every, start.checked, resets0, known);
    stateIn := MergeHaltStates(inserter, every, incoming, done, known);
    assert MergedBy(every, component, start, resets0, incoming, stateIn, SnapshotOf(inserter),
                    inserter.semanticResetAfter);
    if !isCyclic {
      assert component[0] in component;
      forall s | s in SafepointsAt(Sps(o), component[0]) ensures s !in inserter.checked {
        UnsplitUnchecked(o, inserter.View(), component[0], s);
      }
    }
  }

  /** Merges the states into the next component and rewrites its blocks. */
  method ProcessComponent(inserter: HaltCheckInserter, every: nat, sg: SccGraph, i: nat)
    requires inserter.Valid() && SccGraphOk(Cfg(inserter.o), sg) && i < |sg.topoOrder|
    requires PassOk(inserter.o, every, DoneBlocks(sg, i), SnapshotOf(inserter), inserter.semanticResetAfter)
    modifies inserter, inserter.ir, inserter.edges
    ensures inserter.Valid()
    ensures PassOk(inserter.o, every, DoneBlocks(sg, i + 1), SnapshotOf(inserter), inserter.semanticResetAfter)
    ensures var c := sg.topoOrder[i];
      c < |sg.components|
      && Processed(inserter.o, every, DoneBlocks(sg, i), sg.components[c], c in sg.isCyclic, old(SnapshotOf(inserter)),
                   old(inserter.semanticResetAfter), SnapshotOf(inserter), inserter.semanticResetAfter)
  {
    ghost var o, done := inserter.o, DoneBlocks(sg, i);
    ghost var start, resets0 := SnapshotOf(inserter), inserter.semanticResetAfter;
    CfgWellFormed(o);
    NextComponent(Cfg(o), sg, i);
    var componentId := sg.topoOrder[i];
    var component := sg.components[componentId];
    var isCyclic := componentId in sg.isCyclic;
    var stateIn := MergeIncoming(inserter, every, component, isCyclic, done);
    ghost var was := SnapshotOf(inserter);
    NoOutgoing(o, every, done, component, isCyclic, start, was);
    ProcessBlocks(inserter, every, sg, componentId, isCyclic, stateIn, done);
    assert Processed(o, every, done, component, isCyclic, start, resets0, SnapshotOf(inserter),
                     inserter.semanticResetAfter);
    PassAdvances(o, every, done, component, isCyclic, start, resets0, SnapshotOf(inserter),
                 inserter.semanticResetAfter);
  }

  lemma NoOutgoing(o: Ir, every: nat, done: set<Block>, component: seq<Block>, isCyclic: bool, start: Snapshot,
                   was: Snapshot)
    requires PendingDomain(Cfg(o), done, start.pending) && was.pending == Without(start.pending, Elems(component))
    ensures forall a, b {:trigger (a, b) in was.pending} :: (a, b) in was.pending ==> a in done
  {
  }

  lemma NoWalk(g: Graph, done: set<Block>, p: seq<Block>)
    requires done == {}
    ensures !IsPath(g, done, p)
  {
    if p != [] {
      assert p[0] !in done;
    }
  }

  lemma PassStarts(o: Ir, every: nat)
    requires WellFormedIr(o) && every > 0
    ensures PassOk(o, every, {}, Snapshot(IdentityLast(o), {}, map[]), {})
  {
    forall p ensures !IsPath(Cfg(o), {}, p) {
      NoWalk(Cfg(o), {}, p);
    }
  }

  lemma AllDone(g: Graph, sg: SccGraph)
    requires SccGraphOk(g, sg)
    ensures DoneBlocks(sg, |sg.topoOrder|) == Vertices(g)
  {
    assert sg.topoOrder[..|sg.topoOrder|] == sg.topoOrder;
    forall b: Block ensures b in DoneBlocks(sg, |sg.topoOrder|) <==> b in Vertices(g) {
      assert b in sg.componentOf <==> b < |g.succ|;
    }
  }

  /** The components of a run of the pass, and what it had done before each of them and at the end. */
  datatype PassRun = PassRun(sg: SccGraph, snapshots: seq<Snapshot>, resets: seq<set<Stmt>>)

  ghost predicate RoundOk(o: Ir, every: nat, run: PassRun, i: nat)
    requires i + 1 < |run.snapshots| == |run.resets| && i < |run.sg.topoOrder|
  {
    var c := run.sg.topoOrder[i];
    && c < |run.sg.components|
    && Processed(o, every, DoneBlocks(run.sg, i), run.sg.components[c], c in run.sg.isCyclic, run.snapshots[i],
                 run.resets[i], run.snapshots[i + 1], run.resets[i + 1])
  }

  /** The pass started from nothing and processed its first `n` components one by one. */
  ghost predicate RoundsOk(o: Ir, every: nat, run: PassRun, n: nat) {
    && SccGraphOk(Cfg(o), run.sg) && n <= |run.sg.topoOrder| && |run.snapshots| == |run.resets| == n + 1
    && run.snapshots[0] == Snapshot(IdentityLast(o), {}, map[]) && run.resets[0] == {}
    && forall i: nat {:trigger RoundOk(o, every, run, i)} :: i < n ==> RoundOk(o, every, run, i)
  }

  /** The pass processed every component, and ended with the checks in `checked`. */
  ghost predicate PassRunOk(o: Ir, every: nat, run: PassRun, checked: set<Stmt>) {
    RoundsOk(o, every, run, |run.sg.topoOrder|) && run.snapshots[|run.sg.topoOrder|].checked == checked
  }

  lemma OneMoreRound(o: Ir, every: nat, run: PassRun, n: nat, now: Snapshot, resets: set<Stmt>)
    requires RoundsOk(o, every, run, n) && n < |run.sg.topoOrder| && run.sg.topoOrder[n] < |run.sg.components|
    requires var c := run.sg.topoOrder[n];
      Processed(o, every, DoneBlocks(run.sg, n), run.sg.components[c], c in run.sg.isCyclic, run.snapshots[n],
                run.resets[n], now, resets)
    ensures RoundsOk(o, every, PassRun(run.sg, run.snapshots + [now], run.resets + [resets]), n + 1)
  {
    var longer := PassRun(run.sg, run.snapshots + [now], run.resets + [resets]);
    forall i: nat {:trigger RoundOk(o, every, longer, i)} | i < n + 1 ensures RoundOk(o, every, longer, i) {
      if i < n {
        assert RoundOk(o, every, run, i);
        SameRound(o, every, run, longer, i);
      }
    }
  }

  /** A round only depends on what was before and after it. */
  lemma SameRound(o: Ir, every: nat, run: PassRun, longer: PassRun, i: nat)
    requires i + 1 < |run.snapshots| == |run.resets| && i < |run.sg.topoOrder| && longer.sg == run.sg
    requires run.snapshots <= longer.snapshots && run.resets <= longer.resets
    requires |longer.snapshots| == |longer.resets| && RoundOk(o, every, run, i)
    ensures RoundOk(o, every, longer, i)
  {
    assert longer.snapshots[i] == run.snapshots[i] && longer.snapshots[i + 1] == run.snapshots[i + 1];
  }
}
