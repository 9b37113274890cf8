/**
 Rewriting one block: a halter walks over its safepoints, and the block is split
 after every safepoint that needs a halt check.
 */
module BlockProcessing {
  import opened Wrappers
  import opened ExecIr
  import opened Traces
  import opened BlockSplitting
  import opened HaltStateMaps
  import opened HaltCheckInserters
  import opened HaltStates

  /** The safepoints of each original block. */
  function Sps(o: Ir): (sps: seq<seq<Stmt>>)
    ensures |sps| == |o.blocks|
    ensures forall b :: 0 <= b < |sps| ==> sps[b] == SafepointsOf(o, o.blocks[b].stmts)
  {
    seq(|o.blocks|, (b: nat) requires b < |o.blocks| => SafepointsOf(o, o.blocks[b].stmts))
  }

  // ---------------------------------------------------------------------
  // One block

  /** Scans piece `x` for the next safepoint that needs a halt check. */
  method ScanForSplit(halter: BlockHalter, ir: ExecIrBuilder, every: nat, x: Block) returns (split: Option<nat>)
    requires ir.Valid() && x < |ir.blocks| && HalterOk(halter.View(), every)
    modifies halter
    ensures halter.cyclic ==> halter.View().Cyclic?
    ensures split.None? ==>
      Halted(old(halter.View()), every, SafepointsOf(ir.View(), ir.blocks[x].stmts), halter.View(), {}, {})
    ensures split.Some? ==>
      && split.value < |ir.blocks[x].stmts| && IsSafepoint(ir.View(), ir.blocks[x].stmts[split.value])
      && Halted(old(halter.View()), every, SafepointsOf(ir.View(), ir.blocks[x].stmts[..split.value + 1]),
                halter.View(), {}, {ir.blocks[x].stmts[split.value]})
  {
    ghost var h, c := halter.View(), ir.View();
    var stmts := ir.blocks[x].stmts;
    assert BlockOk(ir.blocks[x], |ir.blocks|, |ir.stmts|, ir.ssaValues);
    var i := 0;
    while i < |stmts|
      invariant 0 <= i <= |stmts|
      invariant halter.View() == HalterRun(h, every, SafepointsOf(c, stmts[..i]))
      invariant HalterChecks(h, every, SafepointsOf(c, stmts[..i])) == {}
    {
      var stmt := stmts[i];
      assert stmt in stmts;
      ScanNext(h, every, c, stmts, i);
      if ir.stmts[stmt].rvalue.Safepoint? {
        var shouldHalt := halter.ProcessSafepoint(every, stmt);
        if shouldHalt {
          return Some(i);
        }
      }
      i := i + 1;
    }
    assert stmts[..i] == stmts;
    return None;
  }

  /** Scanning one more statement runs the halter on it exactly when it is a safepoint. */
  lemma ScanNext(h: HalterState, every: nat, c: Ir, stmts: seq<Stmt>, i: nat)
    requires HalterOk(h, every) && i < |stmts|
    ensures var sofar, next := SafepointsOf(c, stmts[..i]), SafepointsOf(c, stmts[..i + 1]);
      if IsSafepoint(c, stmts[i]) then
        var step := HalterStep(HalterRun(h, every, sofar), every, stmts[i]);
        && HalterRun(h, every, next) == step.0
        && HalterChecks(h, every, next) == HalterChecks(h, every, sofar) + (if step.1 then {stmts[i]} else {})
      else next == sofar
  {
    var sofar := SafepointsOf(c, stmts[..i]);
    assert stmts[..i + 1][..i] == stmts[..i];
    if IsSafepoint(c, stmts[i]) {
      assert SafepointsOf(c, stmts[..i + 1]) == sofar + [stmts[i]];
      assert (sofar + [stmts[i]])[..|sofar|] == sofar;
    }
  }

  lemma {:induction false} HalterConcat(h: HalterState, every: nat, a: seq<Stmt>, b: seq<Stmt>)
    requires HalterOk(h, every)
    ensures HalterRun(h, every, a + b) == HalterRun(HalterRun(h, every, a), every, b)
    ensures HalterChecks(h, every, a + b) == HalterChecks(h, every, a) + HalterChecks(HalterRun(h, every, a), every, b)
  {
    if b == [] {
      assert a + b == a;
    } else {
      assert (a + b)[..|a + b| - 1] == a + b[..|b| - 1];
      HalterConcat(h, every, a, b[..|b| - 1]);
    }
  }

  ghost predicate OtherLastsSame(before: seq<Block>, after: seq<Block>, b: Block) {
    |after| == |before| && forall a: Block {:trigger after[a]} :: a < |after| && a != b ==> after[a] == before[a]
  }

  /** `x` is the last piece of block `b` and starts at `off`; `b` alone has been split since `was`. */
  ghost predicate AtPiece(o: Ir, k: Book, b: Block, x: Block, off: nat, was: Book) {
    && b < |o.blocks| && b < |k.last| && off <= |o.blocks[b].stmts|
    && x < |k.origin| && k.last[b] == x && k.origin[x] == Piece(b, off)
    && OtherLastsSame(was.last, k.last, b)
  }

  /** The halter has run over `sps`; the safepoints it picked were added to the checked ones. */
  ghost predicate Halted(h: HalterState, every: nat, sps: seq<Stmt>, now: HalterState, was: set<Stmt>,
                         checked: set<Stmt>)
  {
    HalterOk(h, every) && now == HalterRun(h, every, sps) && checked == was + HalterChecks(h, every, sps)
  }

  /** How far into block `b` the halter has come, and what it has asked for. */
  ghost predicate Progress(o: Ir, k: Book, b: Block, x: Block, off: nat, h: HalterState, every: nat, now: HalterState,
                           was: Book)
  {
    && AtPiece(o, k, b, x, off, was)
    && Halted(h, every, SafepointsOf(o, o.blocks[b].stmts[..off]), now, was.checked, k.checked)
  }

  /** Safepoints up to position `n` of the last piece, as seen in the original block. */
  lemma PieceSafepoints(o: Ir, k: Book, b: Block, x: Block, off: nat, n: nat, was: Book)
    requires BookOk(o, k) && AtPiece(o, k, b, x, off, was)
    requires n <= |k.c.blocks[x].stmts|
    ensures off + n <= |o.blocks[b].stmts| && k.c.blocks[x].stmts == o.blocks[b].stmts[off..]
    ensures SafepointsOf(o, o.blocks[b].stmts[..off + n])
            == SafepointsOf(o, o.blocks[b].stmts[..off]) + SafepointsOf(k.c, k.c.blocks[x].stmts[..n])
  {
    assert OriginOk(o, k.c, k.origin, k.last, x);
    var ob := o.blocks[b];
    var part := k.c.blocks[x].stmts[..n];
    assert ob.stmts[..off + n] == ob.stmts[..off] + part;
    SafepointsConcat(o, ob.stmts[..off], part);
    assert BlockOk(ob, |o.blocks|, |o.stmts|, o.ssaValues);
    forall s | s in part ensures s < |o.stmts| {
      assert s in ob.stmts;
    }
    SameSafepointsOf(o, k.c, part);
  }

  lemma ProgressStart(o: Ir, k: Book, b: Block, h: HalterState, every: nat)
    requires BookOk(o, k) && b < |o.blocks| && k.last[b] == b && HalterOk(h, every)
    ensures Progress(o, k, b, b, 0, h, every, h, k)
  {
    assert HeadOk(o, k.c, k.origin, k.last, b);
    assert o.blocks[b].stmts[..0] == [];
  }

  lemma HaltedConcat(h: HalterState, every: nat, a: seq<Stmt>, b: seq<Stmt>, before: HalterState, now: HalterState,
                     was: set<Stmt>, checked: set<Stmt>, more: set<Stmt>)
    requires Halted(h, every, a, before, was, checked) && Halted(before, every, b, now, {}, more)
    ensures Halted(h, every, a + b, now, was, checked + more)
  {
    HalterConcat(h, every, a, b);
  }

  /** After the split the continuation is the new last piece. */
  lemma SplitAtPiece(o: Ir, k: Book, b: Block, x: Block, off: nat, was: Book, at: nat, n: Book)
    requires BookOk(o, k) && AtPiece(o, k, b, x, off, was)
    requires CanSplit(k, x, at) && n == SplitBook(k, x, at)
    ensures AtPiece(o, n, b, |k.c.blocks|, off + at, was)
  {
    PieceSafepoints(o, k, b, x, off, at, was);
  }

  /** `b` has been scanned up to `end`, and is split after every safepoint found so far. */
  ghost predicate ScannedTo(o: Ir, k: Book, b: Block, x: Block, end: nat, h: HalterState, every: nat, now: HalterState,
                            was: Book)
  {
    && b < |o.blocks| && end <= |o.blocks[b].stmts|
    && Halted(h, every, SafepointsOf(o, o.blocks[b].stmts[..end]), now, was.checked, k.checked)
    && OtherLastsSame(was.last, k.last, b) && b < |k.last| && k.last[b] == x
  }

  lemma ScanEnded(o: Ir, k: Book, b: Block, x: Block, off: nat, h: HalterState, every: nat, before: HalterState,
                  now: HalterState, was: Book)
    requires BookOk(o, k) && Progress(o, k, b, x, off, h, every, before, was)
    requires x < |k.c.blocks| && Halted(before, every, SafepointsOf(k.c, k.c.blocks[x].stmts), now, {}, {})
    ensures ScannedTo(o, k, b, x, |o.blocks[b].stmts|, h, every, now, was)
  {
    var all := k.c.blocks[x].stmts;
    PieceSafepoints(o, k, b, x, off, |all|, was);
    assert all[..|all|] == all;
    HaltedConcat(h, every, SafepointsOf(o, o.blocks[b].stmts[..off]), SafepointsOf(k.c, all), before, now,
                 was.checked, k.checked, {});
  }

  lemma ScanSplit(o: Ir, k: Book, b: Block, x: Block, off: nat, h: HalterState, every: nat, before: HalterState,
                  now: HalterState, was: Book, i: nat)
    requires BookOk(o, k) && Progress(o, k, b, x, off, h, every, before, was)
    requires x < |k.c.blocks| && i < |k.c.blocks[x].stmts| && IsSafepoint(k.c, k.c.blocks[x].stmts[i])
    requires Halted(before, every, SafepointsOf(k.c, k.c.blocks[x].stmts[..i + 1]), now, {}, {k.c.blocks[x].stmts[i]})
    ensures CanSplit(k, x, i + 1)
    ensures Progress(o, SplitBook(k, x, i + 1), b, |k.c.blocks|, off + i + 1, h, every, now, was)
  {
    PieceSafepoints(o, k, b, x, off, i + 1, was);
    HaltedConcat(h, every, SafepointsOf(o, o.blocks[b].stmts[..off]), SafepointsOf(k.c, k.c.blocks[x].stmts[..i + 1]),
                 before, now, was.checked, k.checked, {k.c.blocks[x].stmts[i]});
    assert CanSplit(k, x, i + 1);
    SplitAtPiece(o, k, b, x, off, was, i + 1, SplitBook(k, x, i + 1));
  }

  /** Splits piece `x` after the next safepoint the halter picks, or finds that there is none. */
  method ProcessPiece(halter: BlockHalter, inserter: HaltCheckInserter, every: nat, x: Block, ghost b: Block,
                      ghost off: nat, ghost h: HalterState, ghost was: Book)
    returns (next: Option<Block>, ghost end: nat)
    requires inserter.Valid() && Progress(inserter.o, inserter.View(), b, x, off, h, every, halter.View(), was)
    modifies halter, inserter`safepointLoc, inserter`origin, inserter`last, inserter`checked
    modifies inserter.ir, inserter.edges
    ensures inserter.Valid() && inserter.safepointLoc.Keys == old(inserter.safepointLoc.Keys)
    ensures match next
      case None =>
        end == |inserter.o.blocks[b].stmts|
        && ScannedTo(inserter.o, inserter.View(), b, x, end, h, every, halter.View(), was)
      case Some(y) => off < end && Progress(inserter.o, inserter.View(), b, y, end, h, every, halter.View(), was)
  {
    ghost var k, before := inserter.View(), halter.View();
    var split := ScanForSplit(halter, inserter.ir, every, x);
    if split.None? {
      ScanEnded(inserter.o, k, b, x, off, h, every, before, halter.View(), was);
      return None, |inserter.o.blocks[b].stmts|;
    }
    ghost var now := halter.View();
    end := off + split.value + 1;
    var continuation := SplitPiece(inserter, every, x, split.value, b, off, end, h, before, now, was);
    return Some(continuation), end;
  }

  /** Splits piece `x` after the safepoint at `i`, up to which the halter has just scanned. */
  method SplitPiece(inserter: HaltCheckInserter, every: nat, x: Block, i: nat, ghost b: Block, ghost off: nat,
                    ghost end: nat, ghost h: HalterState, ghost before: HalterState, ghost now: HalterState,
                    ghost was: Book)
    returns (continuation: Block)
    requires inserter.Valid() && Progress(inserter.o, inserter.View(), b, x, off, h, every, before, was)
    requires x < |inserter.ir.blocks| && i < |inserter.ir.blocks[x].stmts| && end == off + i + 1
    requires IsSafepoint(inserter.ir.View(), inserter.ir.blocks[x].stmts[i])
    requires Halted(before, every, SafepointsOf(inserter.ir.View(), inserter.ir.blocks[x].stmts[..i + 1]), now, {},
                    {inserter.ir.blocks[x].stmts[i]})
    modifies inserter`safepointLoc, inserter`origin, inserter`last, inserter`checked
    modifies inserter.ir, inserter.edges
    ensures inserter.Valid() && inserter.safepointLoc.Keys == old(inserter.safepointLoc.Keys)
    ensures Progress(inserter.o, inserter.View(), b, continuation, end, h, every, now, was)
  {
    ghost var k := inserter.View();
    ScanSplit(inserter.o, k, b, x, off, h, every, before, now, was, i);
    continuation := inserter.InsertHaltCheckAfterSafepointIndexed(x, i);
  }

  /** Splits `block` after every safepoint the halter picks; returns its last piece and the state there. */
  method ProcessBlock(halter: BlockHalter, inserter: HaltCheckInserter, every: nat, block: Block)
    returns (lastBlock: Block, stateOut: HaltState)
    requires inserter.Valid() && block < |inserter.o.blocks| && inserter.last[block] == block
    requires HalterOk(halter.View(), every)
    modifies halter, inserter`safepointLoc, inserter`origin, inserter`last, inserter`checked
    modifies inserter.ir, inserter.edges
    ensures inserter.Valid() && inserter.safepointLoc.Keys == old(inserter.safepointLoc.Keys)
    ensures OtherLastsSame(old(inserter.last), inserter.last, block)
    ensures block < |inserter.last| && lastBlock == inserter.last[block]
    ensures var sps := SafepointsOf(inserter.o, inserter.o.blocks[block].stmts);
      && stateOut == HalterTake(HalterRun(old(halter.View()), every, sps))
      && inserter.checked == old(inserter.checked) + HalterChecks(old(halter.View()), every, sps)
    ensures old(halter.View()).Cyclic? ==> halter.View() == old(halter.View()).(seen := None)
  {
    ghost var h, was := halter.View(), inserter.View();
    ghost var off := 0;
    var x := block;
    ProgressStart(inserter.o, was, block, h, every);
    while true
      invariant inserter.Valid() && inserter.safepointLoc.Keys == old(inserter.safepointLoc.Keys)
      invariant Progress(inserter.o, inserter.View(), block, x, off, h, every, halter.View(), was)
      decreases |inserter.o.blocks[block].stmts| - off
    {
      var next;
      next, off := ProcessPiece(halter, inserter, every, x, block, off, h, was);
      if next.None? {
        break;
      }
      x := next.value;
    }
    assert inserter.o.blocks[block].stmts[..off] == inserter.o.blocks[block].stmts;
    stateOut := halter.TakeCurrentState();
    lastBlock := x;
  }
}
