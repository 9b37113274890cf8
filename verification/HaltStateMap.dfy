/**
 The states waiting on control-flow edges, indexed both by source and by
 target, as the halt-check pass keeps them while it walks the components.
 */
module HaltStateMaps {
  import opened Wrappers
  import opened ExecIr
  import opened Traces

  /** The state stored on the edge `from -> to`, if any. */
  ghost function StateAt(outgoing: map<Block, map<Block, HaltState>>, from: Block, to: Block): Option<HaltState> {
    if from in outgoing && to in outgoing[from] then Some(outgoing[from][to]) else None
  }

  ghost predicate Updated(before: map<Block, map<Block, HaltState>>, after: map<Block, map<Block, HaltState>>,
                          from: Block, to: Block, state: HaltState) {
    forall x: Block, y: Block {:trigger StateAt(after, x, y)} ::
      StateAt(after, x, y) == if x == from && y == to then Some(state) else StateAt(before, x, y)
  }

  ghost predicate Drained(before: map<Block, map<Block, HaltState>>, after: map<Block, map<Block, HaltState>>,
                          towards: Block) {
    forall x: Block, y: Block {:trigger StateAt(after, x, y)} ::
      StateAt(after, x, y) == if y == towards then None else StateAt(before, x, y)
  }

  ghost predicate Moved(before: map<Block, map<Block, HaltState>>, after: map<Block, map<Block, HaltState>>,
                        block: Block, continuation: Block) {
    forall x: Block, y: Block {:trigger StateAt(after, x, y)} ::
      StateAt(after, x, y) ==
        if x == block then None else if x == continuation then StateAt(before, block, y) else StateAt(before, x, y)
  }

  lemma RemoveState(outgoing: map<Block, map<Block, HaltState>>, from: Block, to: Block)
    requires from in outgoing
    ensures forall x: Block, y: Block {:trigger StateAt(outgoing[from := outgoing[from] - {to}], x, y)} ::
      StateAt(outgoing[from := outgoing[from] - {to}], x, y)
        == if x == from && y == to then None else StateAt(outgoing, x, y)
  {
  }

  lemma MoveStates(outgoing: map<Block, map<Block, HaltState>>, from: Block, to: Block)
    requires from in outgoing && to !in outgoing
    ensures forall x: Block, y: Block {:trigger StateAt((outgoing - {from})[to := outgoing[from]], x, y)} ::
      StateAt((outgoing - {from})[to := outgoing[from]], x, y)
        == if x == from then None else if x == to then StateAt(outgoing, from, y) else StateAt(outgoing, x, y)
  {
  }

  /** `drained` are the states of the edges into `towards`, each once. */
  ghost predicate HandsOut(outgoing: map<Block, map<Block, HaltState>>, towards: Block,
                           drained: seq<(Block, HaltState)>) {
    && (forall i :: 0 <= i < |drained| ==> StateAt(outgoing, drained[i].0, towards) == Some(drained[i].1))
    && (forall x: Block :: StateAt(outgoing, x, towards).Some? ==>
          (x, StateAt(outgoing, x, towards).value) in drained)
    && (forall i, j :: 0 <= i < j < |drained| ==> drained[i].0 != drained[j].0)
  }

  class HaltStateMap {
    var outgoingEdges: map<Block, map<Block, HaltState>>
    var incomingEdges: map<Block, set<Block>>

    /** The two indexes are inverse to each other. */
    ghost predicate Valid()
      reads this
    {
      forall from: Block, to: Block {:trigger StateAt(outgoingEdges, from, to)} ::
        StateAt(outgoingEdges, from, to).Some? <==> to in incomingEdges && from in incomingEdges[to]
    }

    constructor ()
      ensures Valid() && forall from: Block, to: Block :: StateAt(outgoingEdges, from, to) == None
      ensures outgoingEdges == map[]
    {
      outgoingEdges, incomingEdges := map[], map[];
    }

    /** Stores `state` on an edge and returns what was there before. */
    method AddEdge(from: Block, to: Block, state: HaltState) returns (previous: Option<HaltState>)
      requires Valid()
      modifies this
      ensures Valid() && previous == StateAt(old(outgoingEdges), from, to)
      ensures Updated(old(outgoingEdges), outgoingEdges, from, to, state)
      ensures outgoingEdges.Keys == old(outgoingEdges.Keys) + {from}
    {
      var edges: map<Block, HaltState> := if from in outgoingEdges then outgoingEdges[from] else map[];
      var backward: set<Block> := if to in incomingEdges then incomingEdges[to] else {};
      incomingEdges := incomingEdges[to := backward + {from}];
      previous := if to in edges then Some(edges[to]) else None;
      outgoingEdges := outgoingEdges[from := edges[to := state]];
      forall x: Block, y: Block {:trigger StateAt(outgoingEdges, x, y)}
        ensures StateAt(outgoingEdges, x, y) ==
          if x == from && y == to then Some(state) else StateAt(old(outgoingEdges), x, y)
        ensures StateAt(outgoingEdges, x, y).Some? <==> y in incomingEdges && x in incomingEdges[y]
      {
        assert StateAt(old(outgoingEdges), x, y).Some? <==> y in old(incomingEdges) && x in old(incomingEdges)[y];
      }
    }

    /** Removes every edge into `towards` and hands out the states, in no particular order. */
    method DrainIncoming(towards: Block) returns (drained: seq<(Block, HaltState)>)
      requires Valid()
      modifies this
      ensures Valid()
      ensures Drained(old(outgoingEdges), outgoingEdges, towards)
      ensures HandsOut(old(outgoingEdges), towards, drained)
      ensures outgoingEdges.Keys == old(outgoingEdges.Keys)
    {
      drained := [];
      if towards in incomingEdges {
        var waiting := incomingEdges[towards];
        while waiting != {}
          invariant towards in incomingEdges && waiting <= incomingEdges[towards]
          invariant incomingEdges == old(incomingEdges)
          invariant outgoingEdges.Keys == old(outgoingEdges.Keys)
          invariant forall x: Block, y: Block {:trigger StateAt(outgoingEdges, x, y)} ::
            StateAt(outgoingEdges, x, y) ==
              if y == towards && x !in waiting then None else StateAt(old(outgoingEdges), x, y)
          invariant forall i :: 0 <= i < |drained| ==>
            drained[i].0 !in waiting && StateAt(old(outgoingEdges), drained[i].0, towards) == Some(drained[i].1)
          invariant forall x: Block :: x in incomingEdges[towards] && x !in waiting ==>
            StateAt(old(outgoingEdges), x, towards).Some?
                && (x, StateAt(old(outgoingEdges), x, towards).value) in drained
          invariant forall i, j :: 0 <= i < j < |drained| ==> drained[i].0 != drained[j].0
          decreases waiting
        {
          var from: Block :| from in waiting;
          waiting := waiting - {from};
          assert StateAt(outgoingEdges, from, towards) == StateAt(old(outgoingEdges), from, towards);
          assert StateAt(old(outgoingEdges), from, towards).Some?;
          ghost var before := drained;
          drained := drained + [(from, outgoingEdges[from][towards])];
          assert drained[|before|] == (from, StateAt(old(outgoingEdges), from, towards).value);
          assert forall d :: d in before ==> d in drained;
          RemoveState(outgoingEdges, from, towards);
          outgoingEdges := outgoingEdges[from := outgoingEdges[from] - {towards}];
        }
        incomingEdges := incomingEdges[towards := {}];
      } else {
        assert forall x: Block :: StateAt(old(outgoingEdges), x, towards).None?;
      }
      assert Drained(old(outgoingEdges), outgoingEdges, towards);
    }

    /** Splitting `block` moves all its outgoing edges to the continuation. */
    method MoveSource(block: Block, continuation: Block)
      requires Valid() && block != continuation
      requires continuation !in outgoingEdges
      modifies this
      ensures Valid()
      ensures Moved(old(outgoingEdges), outgoingEdges, block, continuation)
      ensures outgoingEdges.Keys <= old(outgoingEdges.Keys) - {block} + {continuation}
      ensures block !in old(outgoingEdges) ==> outgoingEdges == old(outgoingEdges)
    {
      ghost var moved: map<Block, HaltState> := if block in outgoingEdges then outgoingEdges[block] else map[];
      if block in outgoingEdges {
        MoveStates(outgoingEdges, block, continuation);
        var edges := outgoingEdges[block];
        outgoingEdges := outgoingEdges - {block};
        var targets := edges.Keys;
        while targets != {}
          invariant targets <= edges.Keys && outgoingEdges == old(outgoingEdges) - {block}
          invariant forall y: Block :: y in old(incomingEdges) <==> y in incomingEdges
          invariant forall y: Block :: y in incomingEdges && (y !in edges || y in targets) ==>
            incomingEdges[y] == old(incomingEdges)[y]
          invariant forall y: Block :: y in incomingEdges && y in edges && y !in targets ==>
            incomingEdges[y] == old(incomingEdges)[y] - {block} + {continuation}
          decreases targets
        {
          var to: Block :| to in targets;
          targets := targets - {to};
          assert StateAt(old(outgoingEdges), block, to).Some?;
          incomingEdges := incomingEdges[to := incomingEdges[to] - {block} + {continuation}];
        }
        outgoingEdges := outgoingEdges[continuation := edges];
      }
      forall x: Block, y: Block {:trigger StateAt(outgoingEdges, x, y)}
        ensures StateAt(outgoingEdges, x, y) ==
          if x == block then None
          else if x == continuation then StateAt(old(outgoingEdges), block, y)
          else StateAt(old(outgoingEdges), x, y)
        ensures StateAt(outgoingEdges, x, y).Some? <==> y in incomingEdges && x in incomingEdges[y]
      {
        assert StateAt(old(outgoingEdges), x, y).Some? <==> y in old(incomingEdges) && x in old(incomingEdges)[y];
        assert StateAt(old(outgoingEdges), block, y).Some?
          <==> y in old(incomingEdges) && block in old(incomingEdges)[y];
        assert StateAt(old(outgoingEdges), continuation, y).None?;
        assert y in moved <==> StateAt(old(outgoingEdges), block, y).Some?;
      }
    }
  }
}
