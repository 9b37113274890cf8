/**
 What the halt-check pass guarantees about the program it returns: walks of the
 rewritten control-flow graph follow walks of the original one, so long
 stretches of safepoints are interrupted and every use still has its definition.
 */
module OutputPaths {
  import opened Graphs
  import opened ExecIr
  import opened BlockSplitting
  import opened PassInvariant
  import opened HaltCheckInserters
  import opened HaltStates
  import opened BlockProcessing
  import opened HaltCheckPass

  /** `x` is a piece of an original block. */
  ghost predicate InPiece(o: Ir, k: Book, x: Block) {
    x < |k.origin| == |k.c.blocks| && k.origin[x].Piece? && k.origin[x].block < |k.last| == |o.blocks|
  }

  lemma PieceOrExit(o: Ir, k: Book, x: Block)
    requires BookOk(o, k) && x < |k.c.blocks|
    ensures InPiece(o, k, x) || (x < |k.origin| && k.origin[x].Leave? && LeaveOk(o, k.c, k.c.blocks[x]))
  {
    assert OriginOk(o, k.c, k.origin, k.last, x);
  }

  /** How many statements of piece `x` are original ones. */
  ghost function PieceLength(o: Ir, k: Book, x: Block): (n: nat)
    requires InPiece(o, k, x)
    ensures n <= |k.c.blocks[x].stmts|
  {
    var n := |k.c.blocks[x].stmts|;
    if x == k.last[k.origin[x].block] || n == 0 then n else n - 1
  }

  /** The position in the original block where piece `x` ends. */
  ghost function PieceEnd(o: Ir, k: Book, x: Block): nat
    requires InPiece(o, k, x)
  {
    k.origin[x].off + PieceLength(o, k, x)
  }

  /** The first `i` statements of block `b`. */
  function StmtsTo(ir: Ir, b: Block, i: nat): seq<Stmt> {
    if b >= |ir.blocks| then [] else if i <= |ir.blocks[b].stmts| then ir.blocks[b].stmts[..i] else ir.blocks[b].stmts
  }

  function SafepointsTo(ir: Ir, b: Block, i: nat): seq<Stmt> {
    SafepointsOf(ir, StmtsTo(ir, b, i))
  }

  /** The original statements of a piece, and where they come from. */
  lemma PieceContents(o: Ir, k: Book, x: Block)
    requires BookOk(o, k) && InPiece(o, k, x)
    ensures var b, off, n := k.origin[x].block, k.origin[x].off, PieceLength(o, k, x);
      && off + n <= |o.blocks[b].stmts|
      && k.c.blocks[x].stmts[..n] == o.blocks[b].stmts[off..off + n]
      && (forall i :: 0 <= i < n ==> k.c.blocks[x].stmts[i] < |o.stmts|)
      && if x == k.last[b] then off + n == |o.blocks[b].stmts| && n == |k.c.blocks[x].stmts|
         else CheckedOk(o, k.c, k.origin, o.blocks[b], k.c.blocks[x], b, off) && n == |k.c.blocks[x].stmts| - 1
  {
    assert OriginOk(o, k.c, k.origin, k.last, x);
    PieceStmts(o, k.c, k.origin, k.last, x, PieceLength(o, k, x));
  }

  /** `i` statements into a piece is `off + i` statements into the original block. */
  lemma PieceStmtsTo(o: Ir, k: Book, x: Block, i: nat)
    requires BookOk(o, k) && InPiece(o, k, x) && i <= PieceLength(o, k, x)
    ensures var b, off := k.origin[x].block, k.origin[x].off;
      StmtsTo(o, b, off + i) == StmtsTo(o, b, off) + StmtsTo(k.c, x, i)
    ensures forall s :: s in StmtsTo(k.c, x, i) ==> s < |o.stmts|
  {
    PieceContents(o, k, x);
    var b, off, n := k.origin[x].block, k.origin[x].off, PieceLength(o, k, x);
    var part := k.c.blocks[x].stmts[..i];
    assert part == k.c.blocks[x].stmts[..n][..i] == o.blocks[b].stmts[off..off + n][..i];
    assert o.blocks[b].stmts[..off + i] == o.blocks[b].stmts[..off] + part;
  }

  /** The safepoints of a piece are those of its stretch of the original block. */
  lemma PieceTrace(o: Ir, k: Book, x: Block)
    requires BookOk(o, k) && InPiece(o, k, x)
    ensures var b, off := k.origin[x].block, k.origin[x].off;
      SafepointsTo(o, b, PieceEnd(o, k, x)) == SafepointsTo(o, b, off) + SafepointsAt(Sps(k.c), x)
  {
    PieceStmtsTo(o, k, x, PieceLength(o, k, x));
    var b, off, n := k.origin[x].block, k.origin[x].off, PieceLength(o, k, x);
    SafepointsConcat(o, StmtsTo(o, b, off), StmtsTo(k.c, x, n));
    SameSafepointsOf(o, k.c, StmtsTo(k.c, x, n));
    CheckIsNoSafepoint(o, k, x);
  }

  /** The load that ends a checked piece is no safepoint. */
  lemma CheckIsNoSafepoint(o: Ir, k: Book, x: Block)
    requires BookOk(o, k) && InPiece(o, k, x)
    ensures SafepointsOf(k.c, StmtsTo(k.c, x, PieceLength(o, k, x))) == SafepointsAt(Sps(k.c), x)
  {
    PieceContents(o, k, x);
    var all := k.c.blocks[x].stmts;
    if x == k.last[k.origin[x].block] {
      assert StmtsTo(k.c, x, |all|) == all;
    } else {
      assert StmtsTo(k.c, x, |all| - 1) == all[..|all| - 1];
    }
  }

  // ---------------------------------------------------------------------
  // Values defined along a walk

  function Outputs(ir: Ir, stmts: seq<Stmt>): set<Value> {
    set s, v | s in stmts && s < |ir.stmts| && v in ir.stmts[s].outputs :: v
  }

  /** The parameters of block `b` and the outputs of its first `i` statements. */
  function BlockDefs(ir: Ir, b: Block, i: nat): set<Value> {
    (if b < |ir.blocks| then set v | v in ir.blocks[b].parameters else {}) + Outputs(ir, StmtsTo(ir, b, i))
  }

  function BlockLength(ir: Ir, b: Block): nat {
    if b < |ir.blocks| then |ir.blocks[b].stmts| else 0
  }

  function WalkDefs(ir: Ir, p: seq<Block>): set<Value> {
    if p == [] then {} else WalkDefs(ir, p[..|p| - 1]) + BlockDefs(ir, p[|p| - 1], BlockLength(ir, p[|p| - 1]))
  }

  ghost predicate IsWalk(ir: Ir, p: seq<Block>) {
    IsPath(Cfg(ir), Vertices(Cfg(ir)), p)
  }

  lemma WalkEnd(ir: Ir, p: seq<Block>)
    requires IsWalk(ir, p)
    ensures Last(p) < |ir.blocks| && p[0] < |ir.blocks|
  {
    assert p[|p| - 1] in Vertices(Cfg(ir)) && p[0] in Vertices(Cfg(ir));
  }

  /** The values defined when the walk `p` has come to statement `i` of its last block. */
  function Available(ir: Ir, p: seq<Block>, i: nat): set<Value>
    requires p != []
  {
    WalkDefs(ir, p[..|p| - 1]) + BlockDefs(ir, Last(p), i)
  }

  /** The values read by statement `i` of block `b`, or by its terminator. */
  function UsesAt(ir: Ir, b: Block, i: nat): set<Value>
    requires b < |ir.blocks| && i <= |ir.blocks[b].stmts|
  {
    if i < |ir.blocks[b].stmts| then
      var s := ir.blocks[b].stmts[i];
      if s < |ir.stmts| then (set v | v in ir.stmts[s].inputs) else {}
    else TerminatorUses(ir.blocks[b].terminator)
  }

  function TerminatorUses(t: Terminator): set<Value> {
    match t
    case Return => {}
    case ReturnCode(v) => {v}
    case Br(j) => set v | v in j.parameters
    case BrZ(c, z, n) => {c} + (set v | v in z.parameters) + (set v | v in n.parameters)
  }

  /** On every walk from the entry point, every value is defined before it is read. */
  ghost predicate DefsReachUses(ir: Ir) {
    forall p, i: nat {:trigger DefinedAt(ir, p, i)} ::
      IsWalk(ir, p) && p[0] == ENTRYPOINT && i <= BlockLength(ir, Last(p)) ==> DefinedAt(ir, p, i)
  }

  ghost predicate DefinedAt(ir: Ir, p: seq<Block>, i: nat)
    requires p != []
  {
    Last(p) < |ir.blocks| && i <= |ir.blocks[Last(p)].stmts| && UsesAt(ir, Last(p), i) <= Available(ir, p, i)
  }

  lemma OutputsConcat(ir: Ir, a: seq<Stmt>, b: seq<Stmt>)
    ensures Outputs(ir, a + b) == Outputs(ir, a) + Outputs(ir, b)
  {
  }

  lemma SameOutputs(o: Ir, c: Ir, stmts: seq<Stmt>)
    requires o.stmts <= c.stmts && forall s :: s in stmts ==> s < |o.stmts|
    ensures Outputs(o, stmts) == Outputs(c, stmts)
  {
    assert forall s :: s in stmts ==> o.stmts[s] == c.stmts[s];
  }

  /** Going `i` statements into a piece defines what going as far into the original block defines. */
  lemma PieceDefs(o: Ir, k: Book, x: Block, i: nat)
    requires BookOk(o, k) && InPiece(o, k, x) && i <= PieceLength(o, k, x)
    ensures var b, off := k.origin[x].block, k.origin[x].off;
      BlockDefs(o, b, off + i) <= BlockDefs(o, b, off) + BlockDefs(k.c, x, i)
  {
    var b, off := k.origin[x].block, k.origin[x].off;
    PieceStmtsTo(o, k, x, i);
    OutputsConcat(o, StmtsTo(o, b, off), StmtsTo(k.c, x, i));
    SameOutputs(o, k.c, StmtsTo(k.c, x, i));
  }

  lemma DefsGrow(ir: Ir, b: Block, i: nat, j: nat)
    requires i <= j
    ensures BlockDefs(ir, b, i) <= BlockDefs(ir, b, j)
  {
    assert forall s :: s in StmtsTo(ir, b, i) ==> s in StmtsTo(ir, b, j);
  }

  // ---------------------------------------------------------------------
  // Projection of walks

  /** `p` is the original walk that the rewritten walk `q` follows; `before` are the safepoints it starts after. */
  ghost predicate Projects(o: Ir, k: Book, q: seq<Block>, p: seq<Block>, before: seq<Stmt>)
    requires q != [] && InPiece(o, k, Last(q))
  {
    && IsWalk(o, p) && Last(p) == k.origin[Last(q)].block
    && Trace(Sps(o), p[..|p| - 1]) + SafepointsTo(o, Last(p), PieceEnd(o, k, Last(q)))
       == before + Trace(Sps(k.c), q)
  }

  /** Nothing that is defined along the original walk is missing along the rewritten one. */
  ghost predicate KeepsDefs(o: Ir, k: Book, q: seq<Block>, p: seq<Block>)
    requires q != [] && p != [] && InPiece(o, k, Last(q))
  {
    p[0] == q[0] && Available(o, p, k.origin[Last(q)].off) <= Available(k.c, q, 0)
  }

  lemma WalkStep(g: Graph, p: seq<Block>, b: Block)
    requires IsPath(g, Vertices(g), p) && Edge(g, Last(p), b) && b < |g.succ|
    ensures IsPath(g, Vertices(g), p + [b])
  {
    var r := p + [b];
    forall i | 0 <= i < |r| - 1 ensures Edge(g, r[i], r[i + 1]) {
      if i < |p| - 1 {
        EdgeAt(g, Vertices(g), p, i);
      }
    }
    forall i | 0 <= i < |r| ensures r[i] in Vertices(g) {
      if i < |p| {
        assert p[i] in Vertices(g);
      }
    }
  }

  /** `y` continues piece `x`, in the same block or at the start of a successor. */
  ghost predicate Continues(o: Ir, k: Book, x: Block, y: Block)
    requires InPiece(o, k, x) && InPiece(o, k, y)
  {
    var b := k.origin[x].block;
    if x == k.last[b] then Edge(Cfg(o), b, y) && y < |o.blocks| && k.origin[y] == Piece(y, 0)
    else k.origin[y] == Piece(b, PieceEnd(o, k, x))
  }

  /** Where a step of the rewritten walk goes. */
  lemma StepTarget(o: Ir, k: Book, x: Block, y: Block)
    requires BookOk(o, k) && x < |k.c.blocks| && Edge(Cfg(k.c), x, y)
    ensures InPiece(o, k, x) && y < |k.origin|
    ensures k.origin[y].Leave? || (InPiece(o, k, y) && Continues(o, k, x, y))
  {
    PieceOrExit(o, k, x);
    assert OriginOk(o, k.c, k.origin, k.last, x);
    PieceContents(o, k, x);
    CfgWellFormed(k.c);
    PieceOrExit(o, k, y);
    if x == k.last[k.origin[x].block] {
      CfgWellFormed(o);
      assert Edge(Cfg(o), k.origin[x].block, y);
      assert HeadOk(o, k.c, k.origin, k.last, y);
    }
  }

  lemma PrefixTrace(ir: Ir, q: seq<Block>)
    requires IsWalk(ir, q)
    ensures Trace(Sps(ir), q) == Trace(Sps(ir), q[..|q| - 1]) + SafepointsAt(Sps(ir), Last(q))
    ensures |q| > 1 ==> IsWalk(ir, q[..|q| - 1]) && Edge(Cfg(ir), Last(q[..|q| - 1]), Last(q))
  {
    if |q| > 1 {
      WalkPrefix(Cfg(ir), Vertices(Cfg(ir)), q);
    }
  }

  /** A walk that starts in a piece. */
  lemma ProjectStart(o: Ir, k: Book, x: Block)
    requires BookOk(o, k) && InPiece(o, k, x)
    ensures Projects(o, k, [x], [k.origin[x].block], SafepointsTo(o, k.origin[x].block, k.origin[x].off))
    ensures x < |o.blocks| ==> KeepsDefs(o, k, [x], [k.origin[x].block])
  {
    PieceTrace(o, k, x);
    var b := k.origin[x].block;
    assert IsWalk(o, [b]);
    assert [b][..0] == [] && [x][..0] == [];
    assert Trace(Sps(k.c), [x]) == SafepointsAt(Sps(k.c), x);
    if x < |o.blocks| {
      assert HeadOk(o, k.c, k.origin, k.last, x);
      assert StmtsTo(o, x, 0) == [];
    }
  }

  lemma ExtendBoth(a: seq<Stmt>, b: seq<Stmt>, before: seq<Stmt>, t: seq<Stmt>, more: seq<Stmt>)
    requires a + b == before + t
    ensures a + (b + more) == before + (t + more)
  {
    assert a + (b + more) == (a + b) + more;
    assert before + (t + more) == (before + t) + more;
  }

  /** A step within an original block. */
  lemma StepInside(o: Ir, k: Book, q: seq<Block>, y: Block, p: seq<Block>, before: seq<Stmt>)
    requires BookOk(o, k) && q != [] && InPiece(o, k, Last(q)) && InPiece(o, k, y)
    requires Projects(o, k, q, p, before) && Continues(o, k, Last(q), y)
    requires Last(q) != k.last[k.origin[Last(q)].block]
    ensures Projects(o, k, q + [y], p, before)
  {
    PieceTrace(o, k, y);
    assert (q + [y])[..|q|] == q;
    ExtendBoth(Trace(Sps(o), p[..|p| - 1]), SafepointsTo(o, Last(p), PieceEnd(o, k, Last(q))), before,
               Trace(Sps(k.c), q), SafepointsAt(Sps(k.c), y));
  }

  /** At the last piece of a block the whole block has been walked. */
  lemma WholeTrace(o: Ir, k: Book, q: seq<Block>, p: seq<Block>, before: seq<Stmt>)
    requires BookOk(o, k) && q != [] && InPiece(o, k, Last(q)) && Projects(o, k, q, p, before)
    requires Last(q) == k.last[k.origin[Last(q)].block]
    ensures Trace(Sps(o), p) == before + Trace(Sps(k.c), q)
  {
    PieceContents(o, k, Last(q));
    assert StmtsTo(o, Last(p), PieceEnd(o, k, Last(q))) == o.blocks[Last(p)].stmts;
    PrefixTrace(o, p);
  }

  lemma FirstPieceTrace(o: Ir, k: Book, y: Block)
    requires BookOk(o, k) && InPiece(o, k, y) && k.origin[y] == Piece(y, 0)
    ensures SafepointsTo(o, y, PieceEnd(o, k, y)) == SafepointsAt(Sps(k.c), y)
  {
    PieceTrace(o, k, y);
    assert StmtsTo(o, y, 0) == [] && SafepointsTo(o, y, 0) == [];
  }

  lemma TraceAppend(sps: seq<seq<Stmt>>, q: seq<Block>, y: Block)
    ensures Trace(sps, q + [y]) == Trace(sps, q) + SafepointsAt(sps, y) && (q + [y])[..|q + [y]| - 1] == q
  {
    assert (q + [y])[..|q|] == q;
  }

  /** A step from the last piece of an original block to a successor. */
  lemma StepAcross(o: Ir, k: Book, q: seq<Block>, y: Block, p: seq<Block>, before: seq<Stmt>)
    requires BookOk(o, k) && q != [] && InPiece(o, k, Last(q)) && InPiece(o, k, y)
    requires Projects(o, k, q, p, before) && Continues(o, k, Last(q), y)
    requires Last(q) == k.last[k.origin[Last(q)].block]
    ensures Projects(o, k, q + [y], p + [y], before)
  {
    WholeTrace(o, k, q, p, before);
    FirstPieceTrace(o, k, y);
    WalkStep(Cfg(o), p, y);
    TraceAppend(Sps(k.c), q, y);
    TraceAppend(Sps(o), p, y);
    AppendTraces(Trace(Sps(o), p), SafepointsTo(o, y, PieceEnd(o, k, y)), before, Trace(Sps(k.c), q),
                 Trace(Sps(k.c), q + [y]));
  }

  lemma AppendTraces(a: seq<Stmt>, more: seq<Stmt>, before: seq<Stmt>, t: seq<Stmt>, longer: seq<Stmt>)
    requires a == before + t && longer == t + more
    ensures a + more == before + longer
  {
    assert (before + t) + more == before + (t + more);
  }

  lemma DefsThroughPiece(o: Ir, k: Book, q: seq<Block>, p: seq<Block>)
    requires BookOk(o, k) && q != [] && p != [] && InPiece(o, k, Last(q)) && KeepsDefs(o, k, q, p)
    requires Last(p) == k.origin[Last(q)].block
    ensures Available(o, p, PieceEnd(o, k, Last(q))) <= WalkDefs(k.c, q)
  {
    var x := Last(q);
    var n := PieceLength(o, k, x);
    PieceDefs(o, k, x, n);
    DefsGrow(k.c, x, 0, BlockLength(k.c, x));
    DefsGrow(k.c, x, n, BlockLength(k.c, x));
    CombineDefs(WalkDefs(o, p[..|p| - 1]), BlockDefs(o, Last(p), PieceEnd(o, k, x)),
                BlockDefs(o, Last(p), k.origin[x].off), BlockDefs(k.c, x, n), WalkDefs(k.c, q[..|q| - 1]),
                BlockDefs(k.c, x, 0), BlockDefs(k.c, x, BlockLength(k.c, x)));
  }

  lemma CombineDefs(a: set<Value>, b: set<Value>, b0: set<Value>, piece: set<Value>, c: set<Value>, c0: set<Value>,
                    d: set<Value>)
    requires b <= b0 + piece && a + b0 <= c + c0 && c0 <= d && piece <= d
    ensures a + b <= c + d
  {
  }

  lemma StepKeepsDefs(o: Ir, k: Book, q: seq<Block>, y: Block, p: seq<Block>, r: seq<Block>)
    requires BookOk(o, k) && q != [] && p != [] && InPiece(o, k, Last(q)) && InPiece(o, k, y)
    requires KeepsDefs(o, k, q, p) && Continues(o, k, Last(q), y) && Last(p) == k.origin[Last(q)].block
    requires r == if Last(q) == k.last[k.origin[Last(q)].block] then p + [y] else p
    ensures KeepsDefs(o, k, q + [y], r)
  {
    DefsThroughPiece(o, k, q, p);
    assert (q + [y])[..|q|] == q;
    if Last(q) == k.last[Last(p)] {
      PieceContents(o, k, Last(q));
      assert (p + [y])[..|p|] == p;
      assert HeadOk(o, k.c, k.origin, k.last, y);
      assert StmtsTo(o, y, 0) == [];
    }
  }

  /** Every walk of the rewritten program that is not yet in the exit block follows an original walk. */
  lemma {:induction false} Project(o: Ir, k: Book, q: seq<Block>) returns (p: seq<Block>, before: seq<Stmt>)
    requires BookOk(o, k) && IsWalk(k.c, q) && InPiece(o, k, Last(q))
    ensures Projects(o, k, q, p, before)
    ensures q[0] < |o.blocks| ==> KeepsDefs(o, k, q, p)
  {
    if |q| == 1 {
      var x := q[0];
      assert q == [x];
      ProjectStart(o, k, x);
      p, before := [k.origin[x].block], SafepointsTo(o, k.origin[x].block, k.origin[x].off);
    } else {
      var init, y := q[..|q| - 1], Last(q);
      assert q == init + [y];
      WalkInit(k.c, init, y);
      StepTarget(o, k, Last(init), y);
      p, before := Project(o, k, init);
      p := ProjectStep(o, k, init, y, p, before);
    }
  }

  lemma WalkInit(ir: Ir, q: seq<Block>, y: Block)
    requires IsWalk(ir, q + [y]) && q != []
    ensures IsWalk(ir, q) && Edge(Cfg(ir), Last(q), y) && Last(q) < |ir.blocks|
  {
    PrefixTrace(ir, q + [y]);
    assert (q + [y])[..|q|] == q;
    WalkEnd(ir, q);
  }

  lemma ProjectStep(o: Ir, k: Book, q: seq<Block>, y: Block, p: seq<Block>, before: seq<Stmt>) returns (r: seq<Block>)
    requires BookOk(o, k) && q != [] && InPiece(o, k, Last(q)) && InPiece(o, k, y) && Continues(o, k, Last(q), y)
    requires Projects(o, k, q, p, before) && (q[0] < |o.blocks| ==> KeepsDefs(o, k, q, p))
    ensures Projects(o, k, q + [y], r, before) && (q[0] < |o.blocks| ==> KeepsDefs(o, k, q + [y], r))
  {
    r := if Last(q) == k.last[k.origin[Last(q)].block] then p + [y] else p;
    if Last(q) == k.last[k.origin[Last(q)].block] {
      StepAcross(o, k, q, y, p, before);
    } else {
      StepInside(o, k, q, y, p, before);
    }
    if q[0] < |o.blocks| {
      StepKeepsDefs(o, k, q, y, p, r);
    }
  }

  // ---------------------------------------------------------------------
  // The guarantees about the rewritten program

  /** Statement `i` of block `x` is a safepoint, and right after it the halt word is tested. */
  ghost predicate HaltCheckAfter(c: Ir, x: Block, i: nat) {
    && x < |c.blocks| && i + 2 == |c.blocks[x].stmts|
    && IsSafepoint(c, c.blocks[x].stmts[i])
    && c.blocks[x].stmts[i + 1] < |c.stmts|
    && var load, t := c.stmts[c.blocks[x].stmts[i + 1]], c.blocks[x].terminator;
       && load.rvalue == LoadHaltReason && |load.outputs| == 1
       && t.BrZ? && t.cond == load.outputs[0]
       && TakesHalt(c, t.nonZero.target)
  }

  /** The block takes the halt word and returns it. */
  ghost predicate TakesHalt(c: Ir, x: Block) {
    && x < |c.blocks| && |c.blocks[x].stmts| == 1 && c.blocks[x].stmts[0] < |c.stmts|
    && var take := c.stmts[c.blocks[x].stmts[0]];
       take.rvalue == TakeHaltReason && |take.outputs| == 1
       && c.blocks[x].terminator == ReturnCode(take.outputs[0])
  }

  ghost predicate IsChecked(c: Ir, s: Stmt) {
    exists x: Block, i: nat {:trigger HaltCheckAfter(c, x, i)} :: HaltCheckAfter(c, x, i) && At(c.blocks, x, i, s)
  }

  lemma CheckedIsChecked(o: Ir, k: Book, s: Stmt)
    requires BookOk(o, k) && s in k.checked
    ensures IsChecked(k.c, s)
  {
    assert CheckedAfter(k.c, k.origin, k.last, s);
    var x: Block :| EndsChecked(k.c, k.origin, k.last, x) && k.c.blocks[x].stmts[|k.c.blocks[x].stmts| - 2] == s;
    assert OriginOk(o, k.c, k.origin, k.last, x);
    var i := |k.c.blocks[x].stmts| - 2;
    assert OriginOk(o, k.c, k.origin, k.last, k.c.leave.value);
    assert o.stmts[s] == k.c.stmts[s];
    assert HaltCheckAfter(k.c, x, i) && At(k.c.blocks, x, i, s);
  }

  /** Safepoints `i` to `i + every` met along the walk `q` include one that is followed by a halt check. */
  ghost predicate HaltCheckWithin(c: Ir, every: nat, q: seq<Block>, i: nat)
    requires i + every <= |Trace(Sps(c), q)|
  {
    exists j :: i <= j < i + every && IsChecked(c, Trace(Sps(c), q)[j])
  }

  /** On every walk, any `every` consecutive safepoints include one that is followed by a halt check. */
  ghost predicate HaltBounded(c: Ir, every: nat) {
    forall q, i: nat {:trigger HaltCheckWithin(c, every, q, i)} ::
      IsWalk(c, q) && i + every <= |Trace(Sps(c), q)| ==> HaltCheckWithin(c, every, q, i)
  }

  lemma RestOfBlock(o: Ir, k: Book, x: Block) returns (after: seq<Stmt>)
    requires BookOk(o, k) && InPiece(o, k, x)
    ensures SafepointsAt(Sps(o), k.origin[x].block) == SafepointsTo(o, k.origin[x].block, PieceEnd(o, k, x)) + after
  {
    PieceContents(o, k, x);
    var stmts, e := o.blocks[k.origin[x].block].stmts, PieceEnd(o, k, x);
    assert stmts == stmts[..e] + stmts[e..] && StmtsTo(o, k.origin[x].block, e) == stmts[..e];
    SafepointsConcat(o, stmts[..e], stmts[e..]);
    after := SafepointsOf(o, stmts[e..]);
  }

  /** The safepoints of a rewritten walk are a stretch of those of the original walk it follows. */
  lemma ProjectedTrace(o: Ir, k: Book, q: seq<Block>) returns (p: seq<Block>, before: seq<Stmt>, after: seq<Stmt>)
    requires BookOk(o, k) && IsWalk(k.c, q) && InPiece(o, k, Last(q))
    ensures IsWalk(o, p) && Trace(Sps(o), p) == before + (Trace(Sps(k.c), q) + after)
  {
    p, before := Project(o, k, q);
    var e := PieceEnd(o, k, Last(q));
    after := RestOfBlock(o, k, Last(q));
    PrefixTrace(o, p);
    ExtendBoth(Trace(Sps(o), p[..|p| - 1]), SafepointsTo(o, Last(p), e), before, Trace(Sps(k.c), q), after);
  }

  lemma WindowInOutput(o: Ir, k: Book, every: nat, q: seq<Block>, i: nat)
    requires BookOk(o, k) && EveryWindowHasCheck(o, every, k.checked)
    requires IsWalk(k.c, q) && InPiece(o, k, Last(q)) && i + every <= |Trace(Sps(k.c), q)|
    ensures HaltCheckWithin(k.c, every, q, i)
  {
    var p, before, after := ProjectedTrace(o, k, q);
    assert WindowChecked(o, every, k.checked, p, |before| + i);
    var j := ShiftWindow(Trace(Sps(o), p), before, Trace(Sps(k.c), q), after, k.checked, i, every);
    CheckedIsChecked(o, k, Trace(Sps(k.c), q)[j]);
  }

  lemma ShiftWindow(whole: seq<Stmt>, before: seq<Stmt>, out: seq<Stmt>, after: seq<Stmt>, checked: set<Stmt>, i: nat,
                    every: nat)
    returns (j: nat)
    requires whole == before + (out + after) && i + every <= |out|
    requires exists m :: |before| + i <= m < |before| + i + every && whole[m] in checked
    ensures i <= j < i + every && out[j] in checked
  {
    var m :| |before| + i <= m < |before| + i + every && whole[m] in checked;
    j := m - |before|;
  }

  /** The bound the pass establishes on original walks holds on the walks of its output. */
  lemma OutputIsHaltBounded(o: Ir, k: Book, every: nat)
    requires BookOk(o, k) && EveryWindowHasCheck(o, every, k.checked) && every > 0
    ensures HaltBounded(k.c, every)
  {
    forall q, i: nat {:trigger HaltCheckWithin(k.c, every, q, i)} |
      IsWalk(k.c, q) && i + every <= |Trace(Sps(k.c), q)|
      ensures HaltCheckWithin(k.c, every, q, i)
    {
      WalkEnd(k.c, q);
      PieceOrExit(o, k, Last(q));
      if InPiece(o, k, Last(q)) {
        WindowInOutput(o, k, every, q, i);
      } else {
        WindowBeforeExit(o, k, every, q, i);
      }
    }
  }

  /** The exit block adds no safepoint. */
  lemma WindowBeforeExit(o: Ir, k: Book, every: nat, q: seq<Block>, i: nat)
    requires BookOk(o, k) && EveryWindowHasCheck(o, every, k.checked) && every > 0
    requires IsWalk(k.c, q) && Last(q) < |k.c.blocks| && LeaveOk(o, k.c, k.c.blocks[Last(q)])
    requires i + every <= |Trace(Sps(k.c), q)|
    ensures HaltCheckWithin(k.c, every, q, i)
  {
    var init := q[..|q| - 1];
    PrefixTrace(k.c, q);
    ExitTrace(o, k.c, Last(q));
    assert |q| > 1;
    WalkEnd(k.c, init);
    StepTarget(o, k, Last(init), Last(q));
    WindowInOutput(o, k, every, init, i);
    assert Trace(Sps(k.c), q) == Trace(Sps(k.c), init);
    var j :| i <= j < i + every && IsChecked(k.c, Trace(Sps(k.c), init)[j]);
    assert IsChecked(k.c, Trace(Sps(k.c), q)[j]);
  }

  lemma ExitTrace(o: Ir, c: Ir, x: Block)
    requires x < |c.blocks| && LeaveOk(o, c, c.blocks[x])
    ensures SafepointsAt(Sps(c), x) == []
  {
    var stmts := c.blocks[x].stmts;
    assert stmts[..|stmts| - 1] == [] && SafepointsOf(c, []) == [];
  }

  /** Splitting blocks keeps every definition before its uses. */
  lemma DefsStillReachUses(o: Ir, k: Book)
    requires BookOk(o, k) && DefsReachUses(o)
    ensures DefsReachUses(k.c)
  {
    forall q, i: nat {:trigger DefinedAt(k.c, q, i)} |
      IsWalk(k.c, q) && q[0] == ENTRYPOINT && i <= BlockLength(k.c, Last(q))
      ensures DefinedAt(k.c, q, i)
    {
      WalkEnd(k.c, q);
      PieceOrExit(o, k, Last(q));
      if InPiece(o, k, Last(q)) {
        DefinedInPiece(o, k, q, i);
      } else {
        LastStmtDefined(k.c, Last(q), i);
      }
    }
  }

  /** A terminator that reads the output of the last statement. */
  lemma LastStmtDefined(c: Ir, x: Block, i: nat)
    requires x < |c.blocks| && 1 <= |c.blocks[x].stmts| && i <= |c.blocks[x].stmts|
    requires |c.blocks[x].stmts| - 1 <= i
    requires var s := c.blocks[x].stmts[|c.blocks[x].stmts| - 1];
      s < |c.stmts| && c.stmts[s].inputs == []
      && TerminatorUses(c.blocks[x].terminator) <= set v | v in c.stmts[s].outputs
    ensures UsesAt(c, x, i) <= BlockDefs(c, x, i)
  {
    var stmts := c.blocks[x].stmts;
    if i == |stmts| {
      assert StmtsTo(c, x, i) == stmts && stmts[|stmts| - 1] in stmts;
    }
  }

  lemma DefinedInPiece(o: Ir, k: Book, q: seq<Block>, i: nat)
    requires BookOk(o, k) && DefsReachUses(o)
    requires IsWalk(k.c, q) && q[0] == ENTRYPOINT && InPiece(o, k, Last(q)) && i <= |k.c.blocks[Last(q)].stmts|
    ensures DefinedAt(k.c, q, i)
  {
    var x := Last(q);
    PieceContents(o, k, x);
    if i <= PieceLength(o, k, x) && (i < PieceLength(o, k, x) || x == k.last[k.origin[x].block]) {
      var p, _ := Project(o, k, q);
      assert DefinedAt(o, p, k.origin[x].off + i);
      SameUses(o, k, x, i);
      PieceDefs(o, k, x, i);
      DefsGrow(k.c, x, 0, i);
      CombineDefs(WalkDefs(o, p[..|p| - 1]), BlockDefs(o, Last(p), k.origin[x].off + i),
                  BlockDefs(o, Last(p), k.origin[x].off), BlockDefs(k.c, x, i), WalkDefs(k.c, q[..|q| - 1]),
                  BlockDefs(k.c, x, 0), BlockDefs(k.c, x, i));
    } else {
      LastStmtDefined(k.c, x, i);
    }
  }

  lemma SameUses(o: Ir, k: Book, x: Block, i: nat)
    requires BookOk(o, k) && InPiece(o, k, x) && i <= PieceLength(o, k, x)
    requires i < PieceLength(o, k, x) || x == k.last[k.origin[x].block]
    ensures var b, off := k.origin[x].block, k.origin[x].off;
      off + i <= |o.blocks[b].stmts| && UsesAt(k.c, x, i) == UsesAt(o, b, off + i)
  {
    PieceContents(o, k, x);
    var b, off, n := k.origin[x].block, k.origin[x].off, PieceLength(o, k, x);
    assert OriginOk(o, k.c, k.origin, k.last, x);
    if i < n {
      assert k.c.blocks[x].stmts[i] == k.c.blocks[x].stmts[..n][i] == o.blocks[b].stmts[off + i];
    }
  }
}
