/**
 Finishing a program: the halt-check pass, then the compile order.
 */
module Builds {
  import opened Wrappers
  import opened ExecIr
  import opened BlockSplitting
  import opened HaltCheckInserters
  import opened SccGraphs
  import opened HaltPlacement
  import opened HaltCheckPass
  import opened OutputPaths
  import opened SplitSemantics
  import opened HaltLatency
  import opened CompileOrders
  import ArenaSets

  /**
   Returns the compile order, or `None` where the source panics because a cycle
   has no safepoint.  It panics on `overflow` as well, and otherwise returns.
   */
  method Build(ir: ExecIrBuilder) returns (order: Option<seq<Block>>, overflow: bool, ghost book: Book)
    requires ir.Valid() && ir.leaveAndTakeHalt.None?
    modifies ir
    ensures order.Some? <==> CyclesHaveSafepoints(old(ir.View()))
    ensures order.Some? && !overflow
      <==> CyclesHaveSafepoints(old(ir.View())) && |old(ir.blocks)| <= ArenaSets.BITS
    ensures order.None? ==> ir.View() == old(ir.View())
    ensures order.Some? ==> book.c == ir.View() && BookOk(old(ir.View()), book) && SizeOk(old(ir.View()), book)
    ensures order.Some? ==> HaltBounded(ir.View(), ir.haltCheckEvery)
    ensures order.Some? ==> CompileOrder(Cfg(ir.View()), order.value)
    ensures order.Some? && IsForest(Cfg(old(ir.View()))) ==>
      ChecksEveryNth(old(ir.View()), ir.haltCheckEvery, book.checked)
    ensures order.Some? && IsForest(Cfg(old(ir.View()))) && FewSafepoints(old(ir.View()), ir.haltCheckEvery) ==>
      ir.View() == old(ir.View())
    ensures order.Some? && DefsReachUses(old(ir.View())) ==> DefsReachUses(ir.View())
    ensures order.Some? && NoHaltAccess(old(ir.View())) ==> OnlyChecksAccess(ir.View())
  {
    ghost var o := ir.View();
    var every := ir.haltCheckEvery;
    var ok;
    ghost var run;
    ok, overflow, book, run := InsertHaltChecks(ir);
    if !ok {
      return None, overflow, book;
    }
    OutputIsHaltBounded(o, book, every);
    if DefsReachUses(o) {
      DefsStillReachUses(o, book);
    }
    if NoHaltAccess(o) {
      RewrittenAccesses(o, book);
    }
    var sorted, sorting := Sort(ir.View());
    return Some(sorted), overflow || sorting, book;
  }
}
