/**
 The part of the SSA intermediate representation that the halt-check pass and
 the block ordering touch: arenas of blocks and statements, terminators with
 their jumps, and the builder that rewrites them in place.
 */
module ExecIr {
  import opened Graphs
  import opened Wrappers

  type Block = Vertex
  type Stmt = nat
  type Value = nat

  /** `Op` stands for every statement that is neither a safepoint nor a halt-word access. */
  datatype StmtKind = Safepoint | LoadHaltReason | TakeHaltReason | Op(code: nat)

  datatype StmtData = StmtData(inputs: seq<Value>, outputs: seq<Value>, rvalue: StmtKind)

  datatype Jump = Jump(target: Block, parameters: seq<Value>)

  datatype Terminator =
    | Return
    | ReturnCode(haltReason: Value)
    | Br(jump: Jump)
    | BrZ(cond: Value, zero: Jump, nonZero: Jump)

  datatype BlockData = BlockData(parameters: seq<Value>, stmts: seq<Stmt>, terminated: bool, terminator: Terminator)

  const ENTRYPOINT: Block := 0

  const EMPTY_BLOCK := BlockData([], [], false, Return)

  /** The distinct blocks a terminator can branch to. */
  function BlockTargets(t: Terminator): seq<Block> {
    match t
    case Return => []
    case ReturnCode(_) => []
    case Br(jump) => [jump.target]
    case BrZ(_, zero, nonZero) =>
      if zero.target != nonZero.target then [zero.target, nonZero.target] else [zero.target]
  }

  /** The arenas of a builder, as a value. */
  datatype Ir = Ir(blocks: seq<BlockData>, stmts: seq<StmtData>, ssaValues: nat, leave: Option<Block>)

  predicate IsSafepoint(ir: Ir, s: Stmt) {
    s < |ir.stmts| && ir.stmts[s].rvalue.Safepoint?
  }

  /** Statement `s` is the `i`-th statement of block `b`. */
  ghost predicate At(blocks: seq<BlockData>, b: Block, i: int, s: Stmt) {
    b < |blocks| && 0 <= i < |blocks[b].stmts| && blocks[b].stmts[i] == s
  }

  ghost predicate ValuesBelow(vs: seq<Value>, n: nat) {
    forall v :: v in vs ==> v < n
  }

  ghost predicate JumpOk(j: Jump, blocks: nat, values: nat) {
    0 < j.target < blocks && ValuesBelow(j.parameters, values)
  }

  /** Jump targets exist and are not the entry point; operands are defined values. */
  ghost predicate TerminatorOk(t: Terminator, blocks: nat, values: nat) {
    match t
    case Return => true
    case ReturnCode(v) => v < values
    case Br(j) => JumpOk(j, blocks, values)
    case BrZ(c, z, n) => c < values && JumpOk(z, blocks, values) && JumpOk(n, blocks, values)
  }

  ghost predicate BlockOk(d: BlockData, blocks: nat, stmts: nat, values: nat) {
    && TerminatorOk(d.terminator, blocks, values)
    && ValuesBelow(d.parameters, values)
    && forall s :: s in d.stmts ==> s < stmts
  }

  /** Operands and results are values; a safepoint has no result. */
  ghost predicate StmtOk(d: StmtData, values: nat) {
    ValuesBelow(d.inputs, values) && ValuesBelow(d.outputs, values) && (d.rvalue.Safepoint? ==> d.outputs == [])
  }

  /** Emitting creates a fresh statement, so no handle is placed twice. */
  ghost predicate PlacedOnce(blocks: seq<BlockData>) {
    forall b: Block, i, c: Block, j, s: Stmt {:trigger At(blocks, b, i, s), At(blocks, c, j, s)} ::
      At(blocks, b, i, s) && At(blocks, c, j, s) ==> b == c && i == j
  }

  /** What every builder method keeps: handles in range, no branch to the entry point. */
  ghost predicate WellFormedIr(ir: Ir) {
    && |ir.blocks| > 0
    && (forall b :: 0 <= b < |ir.blocks| ==> BlockOk(ir.blocks[b], |ir.blocks|, |ir.stmts|, ir.ssaValues))
    && (forall s :: 0 <= s < |ir.stmts| ==> StmtOk(ir.stmts[s], ir.ssaValues))
    && PlacedOnce(ir.blocks)
    && (ir.leave.Some? ==> 0 < ir.leave.value < |ir.blocks|)
  }

  /** The successor lists of the control-flow graph. */
  function Cfg(ir: Ir): (g: Graph)
    ensures |g.succ| == |ir.blocks|
    ensures forall b :: 0 <= b < |ir.blocks| ==> g.succ[b] == BlockTargets(ir.blocks[b].terminator)
  {
    Graph(seq(|ir.blocks|, (b: nat) requires b < |ir.blocks| => BlockTargets(ir.blocks[b].terminator)))
  }

  lemma CfgWellFormed(ir: Ir)
    requires WellFormedIr(ir)
    ensures WellFormed(Cfg(ir))
    ensures forall a: Block, b: Block :: Edge(Cfg(ir), a, b) ==> 0 < b < |ir.blocks|
  {
  }

  /** The `n` values an arena of `count` values hands out next. */
  function FreshValues(count: nat, n: nat): (vs: seq<Value>)
    ensures |vs| == n && forall i :: 0 <= i < n ==> vs[i] == count + i
  {
    seq(n, (i: nat) => count + i)
  }

  function Normal(t: Terminator): Terminator {
    if t.BrZ? && t.zero == t.nonZero then Br(t.zero) else t
  }

  /** `EmitStmtFull` on the arenas. */
  function Emitted(ir: Ir, block: Block, rvalue: StmtKind, inputs: seq<Value>, outputs: nat): Ir
    requires block < |ir.blocks|
  {
    var d := ir.blocks[block];
    Ir(ir.blocks[block := d.(stmts := d.stmts + [|ir.stmts|])],
       ir.stmts + [StmtData(inputs, FreshValues(ir.ssaValues, outputs), rvalue)],
       ir.ssaValues + outputs,
       ir.leave)
  }

  /** `block` keeps its first `at` statements; a new last block takes the rest and the terminator. */
  function CutAt(ir: Ir, block: Block, at: nat): Ir
    requires block < |ir.blocks| && at <= |ir.blocks[block].stmts|
  {
    var d := ir.blocks[block];
    ir.(blocks := ir.blocks[block := BlockData(d.parameters, d.stmts[..at], d.terminated, Return)]
                  + [BlockData([], d.stmts[at..], d.terminated, d.terminator)])
  }

  /** Stores the shared block that takes the halt word and returns it, unless it exists. */
  function WithLeave(ir: Ir): Ir {
    if ir.leave.Some? then ir
    else
      Ir(ir.blocks + [BlockData([], [|ir.stmts|], true, ReturnCode(ir.ssaValues))],
         ir.stmts + [StmtData([], [ir.ssaValues], TakeHaltReason)],
         ir.ssaValues + 1,
         Some(|ir.blocks|))
  }

  /** The result of inserting a halt check into `block` before statement position `at`. */
  function SplitAt(ir: Ir, block: Block, at: nat): Ir
    requires block < |ir.blocks| && at <= |ir.blocks[block].stmts|
  {
    var left := WithLeave(CutAt(ir, block, at));
    var head := BlockData(ir.blocks[block].parameters, ir.blocks[block].stmts[..at] + [|left.stmts|], true,
                          BrZ(left.ssaValues, Jump(|ir.blocks|, []), Jump(left.leave.value, [])));
    Ir(left.blocks[block := head], left.stmts + [StmtData([], [left.ssaValues], LoadHaltReason)],
       left.ssaValues + 1, left.leave)
  }

  lemma GrownOk(ir: Ir, d: BlockData)
    requires WellFormedIr(ir) && d.stmts == [] && BlockOk(d, |ir.blocks| + 1, |ir.stmts|, ir.ssaValues)
    ensures WellFormedIr(ir.(blocks := ir.blocks + [d]))
  {
    var t := ir.(blocks := ir.blocks + [d]);
    forall b: Block, i, s: Stmt | At(t.blocks, b, i, s) ensures At(ir.blocks, b, i, s) {
    }
    forall b: Block, i, c: Block, j, s: Stmt | At(t.blocks, b, i, s) && At(t.blocks, c, j, s) ensures b == c && i == j {
      assert At(ir.blocks, b, i, s) && At(ir.blocks, c, j, s);
    }
  }

  lemma EmittedOk(ir: Ir, block: Block, rvalue: StmtKind, inputs: seq<Value>, outputs: nat)
    requires WellFormedIr(ir) && block < |ir.blocks| && ValuesBelow(inputs, ir.ssaValues)
    requires rvalue.Safepoint? ==> outputs == 0
    ensures WellFormedIr(Emitted(ir, block, rvalue, inputs, outputs))
  {
    var t := Emitted(ir, block, rvalue, inputs, outputs);
    forall b: Block, i, s: Stmt | At(t.blocks, b, i, s)
      ensures if i == |ir.blocks[b].stmts| then b == block && s == |ir.stmts|
              else At(ir.blocks, b, i, s) && s < |ir.stmts|
    {
      if i < |ir.blocks[b].stmts| {
        assert ir.blocks[b].stmts[i] in ir.blocks[b].stmts;
      }
    }
    forall b: Block, i, c: Block, j, s: Stmt | At(t.blocks, b, i, s) && At(t.blocks, c, j, s) ensures b == c && i == j {
      if s < |ir.stmts| {
        assert At(ir.blocks, b, i, s) && At(ir.blocks, c, j, s);
      }
    }
  }

  lemma TerminatedOk(ir: Ir, block: Block, d: BlockData)
    requires WellFormedIr(ir) && block < |ir.blocks|
    requires d.stmts == ir.blocks[block].stmts && BlockOk(d, |ir.blocks|, |ir.stmts|, ir.ssaValues)
    ensures WellFormedIr(ir.(blocks := ir.blocks[block := d]))
  {
    var t := ir.(blocks := ir.blocks[block := d]);
    forall b: Block, i, c: Block, j, s: Stmt | At(t.blocks, b, i, s) && At(t.blocks, c, j, s) ensures b == c && i == j {
      assert At(ir.blocks, b, i, s) && At(ir.blocks, c, j, s);
    }
  }

  lemma CutOk(ir: Ir, block: Block, at: nat)
    requires WellFormedIr(ir) && block < |ir.blocks| && at <= |ir.blocks[block].stmts|
    ensures WellFormedIr(CutAt(ir, block, at))
  {
    var t := CutAt(ir, block, at);
    var d := ir.blocks[block];
    forall s | s in d.stmts[..at] || s in d.stmts[at..] ensures s in d.stmts {
    }
    forall b: Block, i, s: Stmt | At(t.blocks, b, i, s)
      ensures if b == |ir.blocks| then At(ir.blocks, block, i + at, s) else At(ir.blocks, b, i, s)
    {
    }
    forall b: Block, i, c: Block, j, s: Stmt | At(t.blocks, b, i, s) && At(t.blocks, c, j, s) ensures b == c && i == j {
      var b0, i0 := if b == |ir.blocks| then block else b, if b == |ir.blocks| then i + at else i;
      var c0, j0 := if c == |ir.blocks| then block else c, if c == |ir.blocks| then j + at else j;
      assert At(ir.blocks, b0, i0, s) && At(ir.blocks, c0, j0, s);
    }
  }

  class ExecIrBuilder {
    var blocks: seq<BlockData>
    var stmts: seq<StmtData>
    var ssaValues: nat
    var leaveAndTakeHalt: Option<Block>
    var currentBlock: Block
    const haltCheckEvery: nat

    function View(): Ir
      reads this
    {
      Ir(blocks, stmts, ssaValues, leaveAndTakeHalt)
    }

    ghost predicate Valid()
      reads this
    {
      haltCheckEvery > 0 && WellFormedIr(View()) && currentBlock < |blocks|
    }

    /** `args` values are bound by the entry point before any statement runs. */
    constructor WithConfig(haltCheckEvery: nat, args: nat)
      requires haltCheckEvery > 0
      ensures Valid() && this.haltCheckEvery == haltCheckEvery
      ensures View() == Ir([EMPTY_BLOCK.(parameters := FreshValues(0, args))], [], args, None)
    {
      this.haltCheckEvery := haltCheckEvery;
      blocks := [EMPTY_BLOCK.(parameters := FreshValues(0, args))];
      stmts, ssaValues, leaveAndTakeHalt, currentBlock := [], args, None, ENTRYPOINT;
    }

    method CreateBlock() returns (block: Block)
      requires Valid()
      modifies this`blocks
      ensures Valid() && block == |old(blocks)| && blocks == old(blocks) + [EMPTY_BLOCK]
    {
      block := |blocks|;
      GrownOk(View(), EMPTY_BLOCK);
      blocks := blocks + [EMPTY_BLOCK];
    }

    method SwitchTo(block: Block)
      requires Valid() && block < |blocks|
      modifies this`currentBlock
      ensures Valid() && currentBlock == block
    {
      currentBlock := block;
    }

    /** Stores a fresh statement with as many fresh values as `rvalue` has and appends it to the current block. */
    method EmitStmtFull(rvalue: StmtKind, inputs: seq<Value>, outputs: nat) returns (out: seq<Value>)
      requires Valid() && ValuesBelow(inputs, ssaValues) && (rvalue.Safepoint? ==> outputs == 0)
      modifies this`blocks, this`stmts, this`ssaValues
      ensures Valid()
      ensures out == FreshValues(old(ssaValues), outputs) && ssaValues == old(ssaValues) + outputs
      ensures stmts == old(stmts) + [StmtData(inputs, out, rvalue)]
      ensures blocks[currentBlock] ==
        old(blocks[currentBlock]).(stmts := old(blocks[currentBlock].stmts) + [|old(stmts)|])
      ensures |blocks| == |old(blocks)|
      ensures forall b :: 0 <= b < |blocks| && b != currentBlock ==> blocks[b] == old(blocks)[b]
      ensures View() == Emitted(old(View()), currentBlock, rvalue, inputs, outputs)
    {
      ghost var was := View();
      out := FreshValues(ssaValues, outputs);
      ssaValues := ssaValues + outputs;
      var stmt := |stmts|;
      stmts := stmts + [StmtData(inputs, out, rvalue)];
      var d := blocks[currentBlock];
      blocks := blocks[currentBlock := d.(stmts := d.stmts + [stmt])];
      EmittedOk(was, currentBlock, rvalue, inputs, outputs);
    }

    /** Ends `block`; a conditional branch with two equal jumps becomes unconditional. */
    method TerminateBlock(block: Block, terminator: Terminator)
      requires Valid() && block < |blocks| && !blocks[block].terminated
      requires TerminatorOk(terminator, |blocks|, ssaValues)
      modifies this`blocks
      ensures Valid()
      ensures blocks == old(blocks)[block := old(blocks[block]).(terminator := Normal(terminator), terminated := true)]
    {
      var t := terminator;
      if t.BrZ? && t.zero.target == t.nonZero.target && t.zero.parameters == t.nonZero.parameters {
        t := Br(t.zero);
      }
      var d := blocks[block].(terminator := t, terminated := true);
      TerminatedOk(View(), block, d);
      blocks := blocks[block := d];
    }

    /** The shared exit block, created on first use. */
    method GetLeaveAndTakeHalt() returns (leave: Block)
      requires Valid()
      modifies this`blocks, this`stmts, this`ssaValues, this`currentBlock, this`leaveAndTakeHalt
      ensures Valid() && currentBlock == old(currentBlock)
      ensures View() == WithLeave(old(View())) && leaveAndTakeHalt == Some(leave)
    {
      if leaveAndTakeHalt.None? {
        ghost var was := View();
        var fail := CreateBlock();
        var originalBlock := currentBlock;
        SwitchTo(fail);
        var out := EmitStmtFull(TakeHaltReason, [], 1);
        TerminateBlock(fail, ReturnCode(out[0]));
        SwitchTo(originalBlock);
        leaveAndTakeHalt := Some(fail);
        assert FreshValues(was.ssaValues, 1) == [was.ssaValues];
        assert blocks[fail].stmts == [|was.stmts|];
        assert blocks == WithLeave(was).blocks;
        assert stmts == WithLeave(was).stmts;
      }
      leave := leaveAndTakeHalt.value;
    }

    /** Inserts a halt check after the safepoint at `insertAt - 1`; returns the continuation block. */
    method InsertHaltCheckAt(block: Block, insertAt: nat) returns (continuation: Block)
      requires Valid() && block < |blocks|
      requires 0 < insertAt <= |blocks[block].stmts| && IsSafepoint(View(), blocks[block].stmts[insertAt - 1])
      modifies this`blocks, this`stmts, this`ssaValues, this`currentBlock, this`leaveAndTakeHalt
      ensures Valid() && currentBlock == old(currentBlock)
      ensures View() == SplitAt(old(View()), block, insertAt)
      ensures continuation == |old(blocks)|
    {
      ghost var was := View();
      CutOk(was, block, insertAt);
      var d := blocks[block];
      blocks := blocks[block := BlockData(d.parameters, d.stmts[..insertAt], d.terminated, Return)];
      continuation := |blocks|;
      blocks := blocks + [BlockData([], d.stmts[insertAt..], d.terminated, d.terminator)];
      assert View() == CutAt(was, block, insertAt);

      var leave := GetLeaveAndTakeHalt();
      var originalBlock := currentBlock;
      SwitchTo(block);
      var out := EmitStmtFull(LoadHaltReason, [], 1);
      SwitchTo(originalBlock);
      assert FreshValues(WithLeave(CutAt(was, block, insertAt)).ssaValues, 1) == [out[0]];

      TerminatedOk(View(), block, blocks[block].(terminated := false));
      blocks := blocks[block := blocks[block].(terminated := false)];
      TerminateBlock(block, BrZ(out[0], Jump(continuation, []), Jump(leave, [])));
      assert blocks == SplitAt(was, block, insertAt).blocks;
    }
  }
}
