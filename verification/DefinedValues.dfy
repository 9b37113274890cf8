/**
 What it means that definitions reach uses: a running program never reads a value
 that has not been defined, neither before nor after the halt-check pass.
 */
module DefinedValues {
  import opened Graphs
  import opened ExecIr
  import opened PassInvariant
  import opened HaltCheckInserters
  import opened OutputPaths
  import opened SplitSemantics
  import opened HaltLatency

  /** Everything defined on the walk so far has a value. */
  ghost predicate HasValues<W>(r: Run<W>, n: nat) {
    var q, st := Visited(r, n), After(r, n);
    st.Running? ==> OnWalk(r, n) && Available(r.ir, q, st.pc) <= st.env.Keys
  }

  lemma {:induction false} BindKeys(env: Env, vs: seq<Value>, ws: seq<Word>)
    ensures Bind(env, vs, ws).Keys == env.Keys + (set v | v in vs)
  {
    if vs != [] {
      BindKeys(env, vs[..|vs| - 1], ws);
      assert vs == vs[..|vs| - 1] + [vs[|vs| - 1]];
    }
  }

  /** One more statement defines its outputs. */
  lemma StmtDefines(ir: Ir, q: seq<Block>, i: nat)
    requires WellFormedIr(ir) && q != [] && Last(q) < |ir.blocks| && i < |ir.blocks[Last(q)].stmts|
    ensures ir.blocks[Last(q)].stmts[i] < |ir.stmts|
    ensures Available(ir, q, i + 1)
      == Available(ir, q, i) + (set v | v in ir.stmts[ir.blocks[Last(q)].stmts[i]].outputs)
  {
    var b := Last(q);
    var s := ir.blocks[b].stmts[i];
    assert BlockOk(ir.blocks[b], |ir.blocks|, |ir.stmts|, ir.ssaValues) && s in ir.blocks[b].stmts;
    assert StmtsTo(ir, b, i + 1) == StmtsTo(ir, b, i) + [s];
    OutputsConcat(ir, StmtsTo(ir, b, i), [s]);
    assert Outputs(ir, [s]) == set v | v in ir.stmts[s].outputs;
  }

  /** Entering a block defines its parameters. */
  lemma BlockDefines(ir: Ir, q: seq<Block>, b: Block)
    requires q != [] && Last(q) < |ir.blocks| && b < |ir.blocks|
    ensures Available(ir, q + [b], 0)
      == Available(ir, q, |ir.blocks[Last(q)].stmts|) + (set v | v in ir.blocks[b].parameters)
  {
    assert (q + [b])[..|q|] == q;
    assert StmtsTo(ir, b, 0) == [];
  }

  /** The operands of the next statement have values. */
  lemma InputsHaveValues(ir: Ir, q: seq<Block>, i: nat, env: Env)
    requires WellFormedIr(ir) && q != [] && Last(q) < |ir.blocks| && i < |ir.blocks[Last(q)].stmts|
    requires DefinedAt(ir, q, i) && Available(ir, q, i) <= env.Keys
    ensures var s := ir.blocks[Last(q)].stmts[i]; s < |ir.stmts| && ReadAll(env, ir.stmts[s].inputs).Some?
  {
    StmtDefines(ir, q, i);
    var s := ir.blocks[Last(q)].stmts[i];
    ReadAllReads(env, ir.stmts[s].inputs);
    forall k | 0 <= k < |ir.stmts[s].inputs| ensures ir.stmts[s].inputs[k] in env {
      assert ir.stmts[s].inputs[k] in UsesAt(ir, Last(q), i);
    }
  }

  /** Running a statement whose operands have values gives values to its outputs. */
  lemma StmtGivesValues<W>(ir: Ir, sem: Semantics<W>, halt: nat -> Word, st: State<W>, s: Stmt)
    requires WellFormedIr(ir) && st.Running? && s < |ir.stmts| && ReadAll(st.env, ir.stmts[s].inputs).Some?
    ensures var next := RunStmt(ir, sem, halt, st, s);
      && next.Running? && next.block == st.block && next.pc == st.pc + 1
      && next.env.Keys == st.env.Keys + (set v | v in ir.stmts[s].outputs)
  {
    var args := ReadAll(st.env, ir.stmts[s].inputs).value;
    match ir.stmts[s].rvalue
    case Safepoint => assert StmtOk(ir.stmts[s], ir.ssaValues);
    case Op(code) => BindKeys(st.env, ir.stmts[s].outputs, sem.op(code, args, st.world).0);
    case _ => BindKeys(st.env, ir.stmts[s].outputs, [halt(st.accesses)]);
  }

  lemma StmtKeepsValues<W>(ir: Ir, sem: Semantics<W>, halt: nat -> Word, q: seq<Block>, st: State<W>)
    requires WellFormedIr(ir) && st.Running? && q != [] && Last(q) == st.block < |ir.blocks|
    requires st.pc < |ir.blocks[st.block].stmts| && DefinedAt(ir, q, st.pc)
    requires Available(ir, q, st.pc) <= st.env.Keys
    ensures var next := Step(ir, sem, halt, st);
      && next.Running? && next.block == st.block && next.pc == st.pc + 1
      && Available(ir, q, st.pc + 1) <= next.env.Keys
  {
    StmtDefines(ir, q, st.pc);
    InputsHaveValues(ir, q, st.pc, st.env);
    StmtGivesValues(ir, sem, halt, st, ir.blocks[st.block].stmts[st.pc]);
  }

  lemma JumpKeepsValues<W>(ir: Ir, q: seq<Block>, st: State<W>, j: Jump)
    requires st.Running? && q != [] && Last(q) == st.block < |ir.blocks| && j.target < |ir.blocks|
    requires forall v :: v in j.parameters ==> v in st.env
    requires Available(ir, q, |ir.blocks[st.block].stmts|) <= st.env.Keys
    ensures var next := Enter(ir, st.env, st.world, st.accesses, j);
      && next.Running? && next.block == j.target && next.pc == 0
      && Available(ir, q + [j.target], 0) <= next.env.Keys
  {
    ReadAllReads(st.env, j.parameters);
    BlockDefines(ir, q, j.target);
    BindKeys(st.env, ir.blocks[j.target].parameters, ReadAll(st.env, j.parameters).value);
  }

  /** A terminator whose operands are defined takes the program on or ends it. */
  lemma TerminatorKeepsValues<W>(ir: Ir, sem: Semantics<W>, halt: nat -> Word, q: seq<Block>, st: State<W>)
    requires WellFormedIr(ir) && st.Running? && q != [] && Last(q) == st.block < |ir.blocks|
    requires st.pc == |ir.blocks[st.block].stmts| && DefinedAt(ir, q, st.pc)
    requires Available(ir, q, st.pc) <= st.env.Keys
    ensures var next := Step(ir, sem, halt, st);
      next.Done? || (next.Running? && next.pc == 0 && Available(ir, q + [next.block], 0) <= next.env.Keys)
  {
    var t := ir.blocks[st.block].terminator;
    assert BlockOk(ir.blocks[st.block], |ir.blocks|, |ir.stmts|, ir.ssaValues);
    assert TerminatorUses(t) <= st.env.Keys;
    match t
    case Return =>
    case ReturnCode(v) =>
    case Br(j) => JumpKeepsValues(ir, q, st, j);
    case BrZ(c, z, n) =>
      JumpKeepsValues(ir, q, st, z);
      JumpKeepsValues(ir, q, st, n);
  }

  ghost predicate EntryHasValues<W>(r: Run<W>) {
    |r.ir.blocks| > 0 && After(r, 0).Running?
    && forall v :: v in r.ir.blocks[ENTRYPOINT].parameters ==> v in After(r, 0).env
  }

  lemma {:induction false} StartsAtEntry<W>(r: Run<W>, n: nat)
    ensures Visited(r, n)[0] == ENTRYPOINT
  {
    if n > 0 {
      StartsAtEntry(r, n - 1);
    }
  }

  /** The step from a state on its walk is the one on the walk. */
  lemma NextKeepsValues<W>(ir: Ir, sem: Semantics<W>, halt: nat -> Word, q: seq<Block>, st: State<W>)
    requires WellFormedIr(ir) && st.Running? && q != [] && Last(q) == st.block < |ir.blocks|
    requires st.pc <= |ir.blocks[st.block].stmts| && DefinedAt(ir, q, st.pc)
    requires Available(ir, q, st.pc) <= st.env.Keys
    ensures var next := Step(ir, sem, halt, st);
      next != Stuck && (next.Running? ==>
        Available(ir, if AtTerminator(ir, st) then q + [next.block] else q, next.pc) <= next.env.Keys)
  {
    if AtTerminator(ir, st) {
      TerminatorKeepsValues(ir, sem, halt, q, st);
    } else {
      StmtKeepsValues(ir, sem, halt, q, st);
    }
  }

  lemma StepKeepsValues<W>(r: Run<W>, n: nat)
    requires RunOk(r) && DefsReachUses(r.ir) && HasValues(r, n) && After(r, n) != Stuck
    ensures HasValues(r, n + 1) && After(r, n + 1) != Stuck
  {
    var st := After(r, n);
    assert Next(r, n);
    RunsOnWalk(r, n + 1);
    if st.Running? {
      StartsAtEntry(r, n);
      assert DefinedAt(r.ir, Visited(r, n), st.pc);
      NextKeepsValues(r.ir, r.sem, r.halt, Visited(r, n), st);
    }
  }

  /** A program whose definitions reach their uses never reads an undefined value, on any machine. */
  lemma {:induction false} NeverStuck<W>(r: Run<W>, n: nat)
    requires RunOk(r) && DefsReachUses(r.ir) && EntryHasValues(r)
    ensures HasValues(r, n) && After(r, n) != Stuck
  {
    if n == 0 {
      RunsOnWalk(r, 0);
      assert StmtsTo(r.ir, ENTRYPOINT, 0) == [] && [ENTRYPOINT][..0] == [];
    } else {
      NeverStuck(r, n - 1);
      StepKeepsValues(r, n - 1);
    }
  }

  /** And neither does its rewriting: inserted checks read only the halt words they load. */
  lemma RewrittenNeverStuck<W>(o: Ir, k: Book, r: Run<W>, n: nat)
    requires BookOk(o, k) && DefsReachUses(o) && RunOk(r) && r.ir == k.c && EntryHasValues(r)
    ensures After(r, n) != Stuck
  {
    DefsStillReachUses(o, k);
    NeverStuck(r, n);
  }
}
