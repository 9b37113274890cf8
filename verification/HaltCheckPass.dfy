/**
 The halt-check pass: walks the components of the control-flow graph in
 topological order, merges the states waiting on their incoming edges, and
 inserts halt checks so that no `haltCheckEvery` safepoints in a row go unchecked.
 */
module HaltCheckPass {
  import opened Wrappers
  import opened Graphs
  import opened ExecIr
  import opened BlockSplitting
  import opened PassInvariant
  import opened HaltCheckInserters
  import opened BlockProcessing
  import opened SccGraphs
  import opened HaltComponents
  import opened HaltPlacement
  import ArenaSets

  /** Every window of `every` consecutive safepoints on any walk of `o` holds one in `checked`. */
  ghost predicate EveryWindowHasCheck(o: Ir, every: nat, checked: set<Stmt>) {
    forall p, i: nat {:trigger WindowChecked(o, every, checked, p, i)} ::
      IsPath(Cfg(o), Vertices(Cfg(o)), p) && i + every <= |Trace(Sps(o), p)| ==> WindowChecked(o, every, checked, p, i)
  }

  ghost predicate WindowChecked(o: Ir, every: nat, checked: set<Stmt>, p: seq<Block>, i: nat)
    requires i + every <= |Trace(Sps(o), p)|
  {
    exists j :: i <= j < i + every && Trace(Sps(o), p)[j] in checked
  }

  /**
   The pass.  It refuses a program with a safepoint-free cycle and otherwise
   returns with every long enough stretch of every walk holding a halt check.
   The source returns exactly when the pass is `ok` and no bit set overflows.
   */
  method InsertHaltChecks(ir: ExecIrBuilder) returns (ok: bool, overflow: bool, ghost book: Book, ghost run: PassRun)
    requires ir.Valid() && ir.leaveAndTakeHalt.None?
    modifies ir
    ensures ok <==> CyclesHaveSafepoints(old(ir.View()))
    ensures ok && !overflow <==> CyclesHaveSafepoints(old(ir.View())) && |old(ir.blocks)| <= ArenaSets.BITS
    ensures !ok ==> ir.View() == old(ir.View())
    ensures ok ==> book.c == ir.View() && BookOk(old(ir.View()), book) && SizeOk(old(ir.View()), book)
    ensures ok ==> PassRunOk(old(ir.View()), ir.haltCheckEvery, run, book.checked)
    ensures ok ==> EveryWindowHasCheck(old(ir.View()), ir.haltCheckEvery, book.checked)
    ensures ok && IsForest(Cfg(old(ir.View()))) ==> ChecksEveryNth(old(ir.View()), ir.haltCheckEvery, book.checked)
    ensures ok && IsForest(Cfg(old(ir.View()))) && FewSafepoints(old(ir.View()), ir.haltCheckEvery) ==>
      ir.View() == old(ir.View())
  {
    var haltCheckEvery := ir.haltCheckEvery;
    var o := ir.View();
    book := Book(o, IdentityOrigin(o), IdentityLast(o), {});
    var sccGraph;
    sccGraph, overflow := NewSccGraph(o);
    run := PassRun(SccGraph([], map[], [], {}), [], []);
    if sccGraph.None? {
      return false, overflow, book, run;
    }
    var sg := sccGraph.value;
    var inserter := new HaltCheckInserter(ir);
    run := ProcessComponents(inserter, haltCheckEvery, sg);
    book := inserter.View();
    WindowsChecked(o, haltCheckEvery, inserter.pending, book.checked);
    if IsForest(Cfg(o)) {
      ForestPlacement(o, haltCheckEvery, run, book.checked);
      if FewSafepoints(o, haltCheckEvery) {
        ShortForestIsLeftAlone(o, haltCheckEvery, run, book);
      }
    }
    return true, overflow, book, run;
  }

  /** The main loop: every component in topological order. */
  method ProcessComponents(inserter: HaltCheckInserter, every: nat, sg: SccGraph) returns (ghost run: PassRun)
    requires inserter.Valid() && SccGraphOk(Cfg(inserter.o), sg) && every > 0
    requires SnapshotOf(inserter) == Snapshot(IdentityLast(inserter.o), {}, map[]) && inserter.semanticResetAfter == {}
    modifies inserter, inserter.ir, inserter.edges
    ensures inserter.Valid() && PassRunOk(inserter.o, every, run, inserter.checked)
    ensures PassInv(Cfg(inserter.o), Sps(inserter.o), every, Vertices(Cfg(inserter.o)), inserter.pending,
                    inserter.checked)
  {
    run := PassRun(sg, [SnapshotOf(inserter)], [inserter.semanticResetAfter]);
    NoRounds(inserter.o, every, sg);
    for i := 0 to |sg.topoOrder|
      invariant inserter.Valid()
      invariant PassOk(inserter.o, every, DoneBlocks(sg, i), SnapshotOf(inserter), inserter.semanticResetAfter)
      invariant run.sg == sg && EndsAs(inserter.o, every, run, i, SnapshotOf(inserter), inserter.semanticResetAfter)
    {
      ProcessComponent(inserter, every, sg, i);
      OneMoreRound(inserter.o, every, run, i, SnapshotOf(inserter), inserter.semanticResetAfter);
      run := PassRun(sg, run.snapshots + [SnapshotOf(inserter)], run.resets + [inserter.semanticResetAfter]);
    }
    AllDone(Cfg(inserter.o), sg);
  }

  /** The run so far is one of `n` rounds that has come to `now`. */
  ghost predicate EndsAs(o: Ir, every: nat, run: PassRun, n: nat, now: Snapshot, resets: set<Stmt>) {
    RoundsOk(o, every, run, n) && run.snapshots[n] == now && run.resets[n] == resets
  }

  lemma NoRounds(o: Ir, every: nat, sg: SccGraph)
    requires WellFormedIr(o) && every > 0 && SccGraphOk(Cfg(o), sg)
    ensures var start := Snapshot(IdentityLast(o), {}, map[]);
      PassOk(o, every, DoneBlocks(sg, 0), start, {}) && EndsAs(o, every, PassRun(sg, [start], [{}]), 0, start, {})
  {
    PassStarts(o, every);
    assert DoneBlocks(sg, 0) == {};
  }

  lemma WindowsChecked(o: Ir, every: nat, pending: Edges, checked: set<Stmt>)
    requires PassInv(Cfg(o), Sps(o), every, Vertices(Cfg(o)), pending, checked) && every > 0
    ensures EveryWindowHasCheck(o, every, checked)
  {
    forall p, i: nat {:trigger WindowChecked(o, every, checked, p, i)} |
      IsPath(Cfg(o), Vertices(Cfg(o)), p) && i + every <= |Trace(Sps(o), p)|
      ensures WindowChecked(o, every, checked, p, i)
    {
      EveryWindowChecked(Cfg(o), Sps(o), every, pending, checked, p, i);
    }
  }
}
