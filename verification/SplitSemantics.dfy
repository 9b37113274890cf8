/**
 What splitting means for running programs.  A run of the rewritten program does
 what the original program does, step by step, or it stops right after a
 safepoint because it saw a halt request and returns the halt word it took.
 */
module SplitSemantics {
  import opened Wrappers
  import opened ExecIr
  import opened BlockSplitting
  import opened HaltCheckInserters
  import opened OutputPaths

  type Word = int

  type Env = map<Value, Word>

  /** The meaning of ordinary statements: any function from operands and machine state to results. */
  datatype Semantics<!W> = Semantics(op: (nat, seq<Word>, W) -> (seq<Word>, W))

  /** `accesses` counts the accesses to the halt word so far. */
  datatype State<W> =
    | Running(block: Block, pc: nat, env: Env, world: W, accesses: nat)
    | Done(code: Option<Word>, world: W, accesses: nat)
    | Stuck

  /** The operands, unless one of them is not defined. */
  function ReadAll(env: Env, vs: seq<Value>): Option<seq<Word>> {
    if vs == [] then Some([])
    else
      var init := ReadAll(env, vs[..|vs| - 1]);
      var v := vs[|vs| - 1];
      if init.None? || v !in env then None else Some(init.value + [env[v]])
  }

  function Bind(env: Env, vs: seq<Value>, ws: seq<Word>): Env {
    if vs == [] then env
    else
      var n := |vs| - 1;
      Bind(env, vs[..n], ws)[vs[n] := if n < |ws| then ws[n] else 0]
  }

  /** What is bound is read back, and other values stay. */
  lemma {:induction false} BindThenRead(env: Env, vs: seq<Value>, ws: seq<Word>)
    requires |vs| <= |ws| && forall i, j :: 0 <= i < j < |vs| ==> vs[i] != vs[j]
    ensures forall i :: 0 <= i < |vs| ==> vs[i] in Bind(env, vs, ws) && Bind(env, vs, ws)[vs[i]] == ws[i]
    ensures forall v :: v !in vs ==> (v in Bind(env, vs, ws) <==> v in env)
    ensures forall v :: v in env && v !in vs ==> v in Bind(env, vs, ws) && Bind(env, vs, ws)[v] == env[v]
  {
    if vs != [] {
      var n := |vs| - 1;
      BindThenRead(env, vs[..n], ws);
      assert vs == vs[..n] + [vs[n]];
      assert forall i :: 0 <= i < n ==> vs[..n][i] == vs[i];
    }
  }

  lemma {:induction false} ReadAllReads(env: Env, vs: seq<Value>)
    ensures ReadAll(env, vs).Some? <==> forall i :: 0 <= i < |vs| ==> vs[i] in env
    ensures ReadAll(env, vs).Some? ==>
      |ReadAll(env, vs).value| == |vs| && forall i :: 0 <= i < |vs| ==> ReadAll(env, vs).value[i] == env[vs[i]]
  {
    if vs != [] {
      ReadAllReads(env, vs[..|vs| - 1]);
    }
  }

  function Enter<W>(ir: Ir, env: Env, world: W, accesses: nat, j: Jump): State<W> {
    var args := ReadAll(env, j.parameters);
    if args.None? || j.target >= |ir.blocks| then Stuck
    else Running(j.target, 0, Bind(env, ir.blocks[j.target].parameters, args.value), world, accesses)
  }

  /** A jump hands its arguments to the parameters of the target, which starts at its first statement. */
  lemma EnterBinds<W>(ir: Ir, env: Env, world: W, accesses: nat, j: Jump)
    requires j.target < |ir.blocks| && |ir.blocks[j.target].parameters| == |j.parameters|
    requires forall i, k :: 0 <= i < k < |j.parameters| ==>
      ir.blocks[j.target].parameters[i] != ir.blocks[j.target].parameters[k]
    requires forall v :: v in j.parameters ==> v in env
    ensures var st, params := Enter(ir, env, world, accesses, j), ir.blocks[j.target].parameters;
      && st.Running? && st.block == j.target && st.pc == 0 && st.world == world && st.accesses == accesses
      && forall i :: 0 <= i < |params| ==> params[i] in st.env && st.env[params[i]] == env[j.parameters[i]]
  {
    ReadAllReads(env, j.parameters);
    BindThenRead(env, ir.blocks[j.target].parameters, ReadAll(env, j.parameters).value);
  }

  function RunStmt<W>(ir: Ir, sem: Semantics<W>, halt: nat -> Word, st: State<W>, s: Stmt): State<W>
    requires st.Running?
  {
    if s >= |ir.stmts| then Stuck
    else
      var args := ReadAll(st.env, ir.stmts[s].inputs);
      if args.None? then Stuck
      else
        match ir.stmts[s].rvalue
        case Safepoint => st.(pc := st.pc + 1)
        case Op(code) =>
          var r := sem.op(code, args.value, st.world);
          st.(pc := st.pc + 1, env := Bind(st.env, ir.stmts[s].outputs, r.0), world := r.1)
        case _ =>
          st.(pc := st.pc + 1, env := Bind(st.env, ir.stmts[s].outputs, [halt(st.accesses)]),
              accesses := st.accesses + 1)
  }

  function RunTerminator<W>(ir: Ir, st: State<W>, t: Terminator): State<W>
    requires st.Running?
  {
    match t
    case Return => Done(None, st.world, st.accesses)
    case ReturnCode(v) => if v in st.env then Done(Some(st.env[v]), st.world, st.accesses) else Stuck
    case Br(j) => Enter(ir, st.env, st.world, st.accesses, j)
    case BrZ(c, z, n) =>
      if c !in st.env then Stuck else Enter(ir, st.env, st.world, st.accesses, if st.env[c] == 0 then z else n)
  }

  /** Collapsing a branch whose two jumps are equal does not change what it does. */
  lemma NormalKeepsMeaning<W>(ir: Ir, st: State<W>, t: Terminator)
    requires st.Running? && (t.BrZ? ==> t.cond in st.env)
    ensures RunTerminator(ir, st, Normal(t)) == RunTerminator(ir, st, t)
  {
  }

  /** One step.  The `i`-th access to the halt word sees `halt(i)`. */
  function Step<W>(ir: Ir, sem: Semantics<W>, halt: nat -> Word, st: State<W>): State<W> {
    if !st.Running? then st
    else if st.block >= |ir.blocks| then Stuck
    else
      var d := ir.blocks[st.block];
      if st.pc < |d.stmts| then RunStmt(ir, sem, halt, st, d.stmts[st.pc]) else RunTerminator(ir, st, d.terminator)
  }

  function Steps<W>(ir: Ir, sem: Semantics<W>, halt: nat -> Word, st: State<W>, n: nat): State<W> {
    if n == 0 then st else Step(ir, sem, halt, Steps(ir, sem, halt, st, n - 1))
  }

  function Initial<W>(env: Env, world: W): State<W> {
    Running(ENTRYPOINT, 0, env, world, 0)
  }

  /** A run: `states(n)` is the state after `n` steps. */
  datatype Run<!W> = Run(ir: Ir, sem: Semantics<W>, halt: nat -> Word, states: nat -> State<W>)

  function After<W>(r: Run<W>, n: nat): State<W> {
    r.states(n)
  }

  ghost predicate Next<W>(r: Run<W>, n: nat) {
    After(r, n + 1) == Step(r.ir, r.sem, r.halt, After(r, n))
  }

  /** The run starts at the entry point and follows the program. */
  ghost predicate RunOk<W>(r: Run<W>) {
    && WellFormedIr(r.ir)
    && After(r, 0).Running? && After(r, 0).block == ENTRYPOINT && After(r, 0).pc == 0
    && forall n: nat {:trigger Next(r, n)} :: Next(r, n)
  }

  function RunFrom<W>(ir: Ir, sem: Semantics<W>, halt: nat -> Word, env: Env, world: W): Run<W>
  {
    Run(ir, sem, halt, (n: nat) => Steps(ir, sem, halt, Initial(env, world), n))
  }

  lemma RunFromOk<W>(ir: Ir, sem: Semantics<W>, halt: nat -> Word, env: Env, world: W)
    requires WellFormedIr(ir)
    ensures RunOk(RunFrom(ir, sem, halt, env, world))
  {
  }

  /** The original program does not touch the halt word; only inserted checks do. */
  ghost predicate NoHaltAccess(o: Ir) {
    forall s {:trigger o.stmts[s]} :: 0 <= s < |o.stmts| ==>
        !o.stmts[s].rvalue.LoadHaltReason? && !o.stmts[s].rvalue.TakeHaltReason?
  }

  // ---------------------------------------------------------------------
  // How the two runs correspond

  /** The two environments agree on the values of the original program. */
  ghost predicate SameBelow(a: Env, b: Env, n: nat) {
    forall v: Value {:trigger v in a} {:trigger v in b} :: v < n ==> (v in a <==> v in b) && (v in a ==> a[v] == b[v])
  }

  ghost predicate SameData<W>(o: Ir, so: State<W>, sc: State<W>) {
    so.Running? && sc.Running? && SameBelow(so.env, sc.env, o.ssaValues) && so.world == sc.world
  }

  /** Both runs are at the same original statement or terminator, or the rewritten one is about to check. */
  ghost predicate InStep<W>(o: Ir, k: Book, so: State<W>, sc: State<W>) {
    && SameData(o, so, sc) && InPiece(o, k, sc.block) && sc.pc <= PieceLength(o, k, sc.block)
    && so.block == k.origin[sc.block].block && so.pc == k.origin[sc.block].off + sc.pc
  }

  /** The original run has just passed a safepoint. */
  ghost predicate AfterSafepoint<W>(o: Ir, so: State<W>) {
    && so.Running? && so.block < |o.blocks| && 0 < so.pc <= |o.blocks[so.block].stmts|
    && IsSafepoint(o, o.blocks[so.block].stmts[so.pc - 1])
  }

  /** The rewritten run has loaded the halt word and is about to branch on it. */
  ghost predicate Loaded<W>(o: Ir, k: Book, halt: nat -> Word, so: State<W>, sc: State<W>) {
    && SameData(o, so, sc) && InPiece(o, k, sc.block) && sc.block != k.last[k.origin[sc.block].block]
    && sc.pc == |k.c.blocks[sc.block].stmts| && so.block == k.origin[sc.block].block
    && so.pc == PieceEnd(o, k, sc.block)
    && k.c.blocks[sc.block].terminator.BrZ? && k.c.blocks[sc.block].terminator.cond in sc.env
    && sc.accesses > 0 && sc.env[k.c.blocks[sc.block].terminator.cond] == halt(sc.accesses - 1)
  }

  /** The rewritten run saw a halt request and is in the exit block. */
  ghost predicate Leaving<W>(o: Ir, k: Book, halt: nat -> Word, so: State<W>, sc: State<W>) {
    && AfterSafepoint(o, so) && sc.Running? && so.world == sc.world && k.c.leave == Some(sc.block)
    && sc.block < |k.c.blocks| && LeaveOk(o, k.c, k.c.blocks[sc.block])
    && sc.pc <= 1 && sc.accesses > sc.pc && halt(sc.accesses - 1 - sc.pc) != 0
    && (sc.pc == 1 ==>
          var v := k.c.stmts[k.c.blocks[sc.block].stmts[0]].outputs[0];
          v in sc.env && sc.env[v] == halt(sc.accesses - 1))
  }

  /** The rewritten run was cut right after a safepoint and returned the halt word it took. */
  ghost predicate CutAtSafepoint<W>(o: Ir, halt: nat -> Word, so: State<W>, sc: State<W>) {
    && AfterSafepoint(o, so) && sc.Done? && so.world == sc.world
    && sc.accesses >= 2 && halt(sc.accesses - 2) != 0 && sc.code == Some(halt(sc.accesses - 1))
  }

  /** Both runs have ended the same way. */
  ghost predicate SameEnd<W>(so: State<W>, sc: State<W>) {
    match so
    case Running(_, _, _, _, _) => false
    case Done(code, world, _) => sc.Done? && sc.code == code && sc.world == world
    case Stuck => sc.Stuck?
  }

  /** The two runs are at the same point, with no check in between. */
  ghost predicate Level<W>(o: Ir, k: Book, so: State<W>, sc: State<W>) {
    InStep(o, k, so, sc) || SameEnd(so, sc)
  }

  ghost predicate Follows<W>(o: Ir, k: Book, halt: nat -> Word, so: State<W>, sc: State<W>) {
    || InStep(o, k, so, sc)
    || SameEnd(so, sc)
    || Loaded(o, k, halt, so, sc)
    || Leaving(o, k, halt, so, sc)
    || CutAtSafepoint(o, halt, so, sc)
  }

  // ---------------------------------------------------------------------
  // Environments

  lemma {:induction false} ReadSame(a: Env, b: Env, n: nat, vs: seq<Value>)
    requires SameBelow(a, b, n) && ValuesBelow(vs, n)
    ensures ReadAll(a, vs) == ReadAll(b, vs)
  {
    if vs != [] {
      assert vs[|vs| - 1] in vs;
      var init := vs[..|vs| - 1];
      forall v | v in init ensures v < n {
        assert v in vs;
      }
      ReadSame(a, b, n, init);
      assert vs[|vs| - 1] in a <==> vs[|vs| - 1] in b;
    }
  }

  lemma {:induction false} BindSame(a: Env, b: Env, n: nat, vs: seq<Value>, ws: seq<Word>)
    requires SameBelow(a, b, n)
    ensures SameBelow(Bind(a, vs, ws), Bind(b, vs, ws), n)
  {
    if vs != [] {
      BindSame(a, b, n, vs[..|vs| - 1], ws);
    }
  }

  /** Jumps with the same arguments to blocks with the same parameters. */
  lemma EnterSame<W>(o: Ir, k: Book, so: State<W>, sc: State<W>, j: Jump)
    requires BookOk(o, k) && SameData(o, so, sc) && JumpOk(j, |o.blocks|, o.ssaValues)
    ensures var to := Enter(o, so.env, so.world, so.accesses, j);
      var tc := Enter(k.c, sc.env, sc.world, sc.accesses, j);
      InStep(o, k, to, tc) || SameEnd(to, tc)
  {
    ReadSame(so.env, sc.env, o.ssaValues, j.parameters);
    assert HeadOk(o, k.c, k.origin, k.last, j.target);
    PieceOrExit(o, k, j.target);
    var args := ReadAll(so.env, j.parameters);
    if args.Some? {
      BindSame(so.env, sc.env, o.ssaValues, o.blocks[j.target].parameters, args.value);
    }
  }

  lemma TerminatorSame<W>(o: Ir, k: Book, so: State<W>, sc: State<W>, t: Terminator)
    requires BookOk(o, k) && SameData(o, so, sc) && TerminatorOk(t, |o.blocks|, o.ssaValues)
    ensures var to := RunTerminator(o, so, t); var tc := RunTerminator(k.c, sc, t);
      InStep(o, k, to, tc) || SameEnd(to, tc)
  {
    match t
    case Return =>
    case ReturnCode(v) =>
      assert v in so.env <==> v in sc.env;
    case Br(j) =>
      EnterSame(o, k, so, sc, j);
    case BrZ(c, z, n) =>
      assert c in so.env <==> c in sc.env;
      EnterSame(o, k, so, sc, z);
      EnterSame(o, k, so, sc, n);
  }

  lemma StmtSame<W>(o: Ir, k: Book, sem: Semantics<W>, halt: nat -> Word, so: State<W>, sc: State<W>, s: Stmt)
    requires BookOk(o, k) && NoHaltAccess(o) && SameData(o, so, sc) && s < |o.stmts|
    ensures var to := RunStmt(o, sem, halt, so, s); var tc := RunStmt(k.c, sem, halt, sc, s);
      if to.Running? then SameData(o, to, tc) && to.block == so.block && tc.block == sc.block
                          && to.pc == so.pc + 1 && tc.pc == sc.pc + 1
      else SameEnd(to, tc)
  {
    assert o.stmts[s] == k.c.stmts[s] && StmtOk(o.stmts[s], o.ssaValues);
    ReadSame(so.env, sc.env, o.ssaValues, o.stmts[s].inputs);
    var args := ReadAll(so.env, o.stmts[s].inputs);
    if args.Some? && o.stmts[s].rvalue.Op? {
      var r := sem.op(o.stmts[s].rvalue.code, args.value, so.world);
      BindSame(so.env, sc.env, o.ssaValues, o.stmts[s].outputs, r.0);
    }
  }

  // ---------------------------------------------------------------------
  // One step

  /** A step at an original statement or terminator is the same step in both programs. */
  lemma OriginalStep<W>(o: Ir, k: Book, sem: Semantics<W>, halt: nat -> Word, so: State<W>, sc: State<W>)
    requires BookOk(o, k) && NoHaltAccess(o) && InStep(o, k, so, sc)
    requires sc.pc < PieceLength(o, k, sc.block) || sc.block == k.last[k.origin[sc.block].block]
    ensures var to := Step(o, sem, halt, so); var tc := Step(k.c, sem, halt, sc);
      InStep(o, k, to, tc) || SameEnd(to, tc)
  {
    var x := sc.block;
    var b, off, n := k.origin[x].block, k.origin[x].off, PieceLength(o, k, x);
    PieceContents(o, k, x);
    if sc.pc < n {
      assert k.c.blocks[x].stmts[sc.pc] == k.c.blocks[x].stmts[..n][sc.pc] == o.blocks[b].stmts[off + sc.pc];
      StmtSame(o, k, sem, halt, so, sc, o.blocks[b].stmts[so.pc]);
    } else {
      assert OriginOk(o, k.c, k.origin, k.last, x);
      assert BlockOk(o.blocks[b], |o.blocks|, |o.stmts|, o.ssaValues);
      TerminatorSame(o, k, so, sc, o.blocks[b].terminator);
    }
  }

  /** The load of the halt word leaves the original values alone. */
  lemma LoadStep<W>(o: Ir, k: Book, sem: Semantics<W>, halt: nat -> Word, so: State<W>, sc: State<W>)
    requires BookOk(o, k) && InStep(o, k, so, sc)
    requires sc.pc == PieceLength(o, k, sc.block) && sc.block != k.last[k.origin[sc.block].block]
    ensures Loaded(o, k, halt, so, Step(k.c, sem, halt, sc))
    ensures Step(k.c, sem, halt, sc).accesses == sc.accesses + 1
  {
    PieceContents(o, k, sc.block);
    var load := k.c.stmts[k.c.blocks[sc.block].stmts[sc.pc]];
    assert load.outputs == [load.outputs[0]] && load.outputs[..0] == [];
    assert Bind(sc.env, load.outputs, [halt(sc.accesses)]) == sc.env[load.outputs[0] := halt(sc.accesses)];
  }

  /** The branch goes on in the next piece, or leaves when a halt was requested. */
  lemma BranchStep<W>(o: Ir, k: Book, sem: Semantics<W>, halt: nat -> Word, so: State<W>, sc: State<W>)
    requires BookOk(o, k) && Loaded(o, k, halt, so, sc)
    ensures var tc := Step(k.c, sem, halt, sc);
      if halt(sc.accesses - 1) == 0 then InStep(o, k, so, tc) && tc.pc == 0 else Leaving(o, k, halt, so, tc)
  {
    var x := sc.block;
    PieceContents(o, k, x);
    var t := k.c.blocks[x].terminator;
    PieceOrExit(o, k, t.zero.target);
    assert OriginOk(o, k.c, k.origin, k.last, t.zero.target);
    assert OriginOk(o, k.c, k.origin, k.last, t.nonZero.target);
    var b, n := k.origin[x].block, PieceLength(o, k, x);
    assert k.c.blocks[x].stmts[..n][n - 1] == o.blocks[b].stmts[k.origin[x].off + n - 1];
    assert AfterSafepoint(o, so);
  }

  lemma LeavingStep<W>(o: Ir, k: Book, sem: Semantics<W>, halt: nat -> Word, so: State<W>, sc: State<W>)
    requires BookOk(o, k) && Leaving(o, k, halt, so, sc)
    ensures var tc := Step(k.c, sem, halt, sc);
      if sc.pc == 0 then Leaving(o, k, halt, so, tc) else CutAtSafepoint(o, halt, so, tc)
  {
  }

  /** One step of the rewritten program is one step or none of the original. */
  lemma StepFollows<W>(o: Ir, k: Book, sem: Semantics<W>, halt: nat -> Word, so: State<W>, sc: State<W>)
    requires BookOk(o, k) && NoHaltAccess(o) && Follows(o, k, halt, so, sc)
    ensures Follows(o, k, halt, so, Step(k.c, sem, halt, sc))
      || Follows(o, k, halt, Step(o, sem, halt, so), Step(k.c, sem, halt, sc))
  {
    if InStep(o, k, so, sc) {
      PieceContents(o, k, sc.block);
      if sc.pc < PieceLength(o, k, sc.block) || sc.block == k.last[k.origin[sc.block].block] {
        OriginalStep(o, k, sem, halt, so, sc);
      } else {
        LoadStep(o, k, sem, halt, so, sc);
      }
    } else if Loaded(o, k, halt, so, sc) {
      BranchStep(o, k, sem, halt, so, sc);
    } else if Leaving(o, k, halt, so, sc) {
      LeavingStep(o, k, sem, halt, so, sc);
    }
  }

  // ---------------------------------------------------------------------
  // Whole runs

  /** A run of the original and a run of the rewritten program, with the same start, machine and halt word. */
  ghost predicate TwinRuns<W>(o: Ir, k: Book, ro: Run<W>, rc: Run<W>) {
    && BookOk(o, k) && NoHaltAccess(o) && RunOk(ro) && RunOk(rc)
    && ro.ir == o && rc.ir == k.c && ro.sem == rc.sem && ro.halt == rc.halt && After(ro, 0) == After(rc, 0)
  }

  /** Every start, machine and halt-word schedule gives such a pair of runs. */
  lemma TwinRunsExist<W>(o: Ir, k: Book, sem: Semantics<W>, halt: nat -> Word, env: Env, world: W)
    requires BookOk(o, k) && NoHaltAccess(o)
    ensures TwinRuns(o, k, RunFrom(o, sem, halt, env, world), RunFrom(k.c, sem, halt, env, world))
  {
    RunFromOk(o, sem, halt, env, world);
    RunFromOk(k.c, sem, halt, env, world);
  }

  /** After `n` steps the rewritten run is where the original one is after `m` steps. */
  ghost predicate FollowsAt<W>(o: Ir, k: Book, ro: Run<W>, rc: Run<W>, m: nat, n: nat) {
    Follows(o, k, rc.halt, After(ro, m), After(rc, n))
  }

  ghost predicate LevelAt<W>(o: Ir, k: Book, ro: Run<W>, rc: Run<W>, m: nat, n: nat) {
    Level(o, k, After(ro, m), After(rc, n))
  }

  lemma StartLevel<W>(o: Ir, k: Book, ro: Run<W>, rc: Run<W>)
    requires TwinRuns(o, k, ro, rc)
    ensures LevelAt(o, k, ro, rc, 0, 0)
  {
    assert HeadOk(o, k.c, k.origin, k.last, ENTRYPOINT);
    PieceOrExit(o, k, ENTRYPOINT);
  }

  lemma StepFollowsAt<W>(o: Ir, k: Book, ro: Run<W>, rc: Run<W>, m: nat, n: nat) returns (next: nat)
    requires TwinRuns(o, k, ro, rc) && FollowsAt(o, k, ro, rc, m, n)
    ensures m <= next <= m + 1 && FollowsAt(o, k, ro, rc, next, n + 1)
  {
    assert Next(ro, m) && Next(rc, n);
    StepFollows(o, k, rc.sem, rc.halt, After(ro, m), After(rc, n));
    next := if FollowsAt(o, k, ro, rc, m, n + 1) then m else m + 1;
  }

  /** After any number of steps the rewritten run corresponds to some point of the original run. */
  lemma {:induction false} RunFollows<W>(o: Ir, k: Book, ro: Run<W>, rc: Run<W>, n: nat) returns (m: nat)
    requires TwinRuns(o, k, ro, rc)
    ensures m <= n && FollowsAt(o, k, ro, rc, m, n)
  {
    if n == 0 {
      m := 0;
      StartLevel(o, k, ro, rc);
    } else {
      m := RunFollows(o, k, ro, rc, n - 1);
      m := StepFollowsAt(o, k, ro, rc, m, n - 1);
    }
  }

  /**
   A finished rewritten run ended exactly as the original run ends, or was cut
   right after a safepoint, in the machine state the original run has there, and
   returned the halt word.  It is stuck only when the original run gets stuck.
   */
  lemma FinishedRun<W>(o: Ir, k: Book, ro: Run<W>, rc: Run<W>, n: nat) returns (m: nat)
    requires TwinRuns(o, k, ro, rc) && !After(rc, n).Running?
    ensures m <= n
    ensures SameEnd(After(ro, m), After(rc, n)) || CutAtSafepoint(o, rc.halt, After(ro, m), After(rc, n))
  {
    m := RunFollows(o, k, ro, rc, n);
  }

  /** The check takes two steps and the original run does not move. */
  lemma CheckPasses<W>(o: Ir, k: Book, ro: Run<W>, rc: Run<W>, m: nat, n: nat)
    requires TwinRuns(o, k, ro, rc) && (forall i :: rc.halt(i) == 0) && InStep(o, k, After(ro, m), After(rc, n))
    requires var sc := After(rc, n);
      sc.pc == PieceLength(o, k, sc.block) && sc.block != k.last[k.origin[sc.block].block]
    ensures InStep(o, k, After(ro, m), After(rc, n + 2)) && After(rc, n + 2).pc == 0
  {
    assert Next(rc, n) && Next(rc, n + 1);
    LoadStep(o, k, rc.sem, rc.halt, After(ro, m), After(rc, n));
    BranchStep(o, k, rc.sem, rc.halt, After(ro, m), After(rc, n + 1));
  }

  lemma LevelStep<W>(o: Ir, k: Book, ro: Run<W>, rc: Run<W>, m: nat, n: nat)
    requires TwinRuns(o, k, ro, rc) && LevelAt(o, k, ro, rc, m, n)
    requires var sc := After(rc, n);
      InStep(o, k, After(ro, m), sc) ==>
        sc.pc < PieceLength(o, k, sc.block) || sc.block == k.last[k.origin[sc.block].block]
    ensures LevelAt(o, k, ro, rc, m + 1, n + 1)
  {
    assert Next(ro, m) && Next(rc, n);
    if InStep(o, k, After(ro, m), After(rc, n)) {
      OriginalStep(o, k, rc.sem, rc.halt, After(ro, m), After(rc, n));
    }
  }

  /** Three steps of the rewritten program always cover one step of the original, unless a halt is requested. */
  lemma CatchUp<W>(o: Ir, k: Book, ro: Run<W>, rc: Run<W>, m: nat, n: nat) returns (next: nat)
    requires TwinRuns(o, k, ro, rc) && (forall i :: rc.halt(i) == 0) && LevelAt(o, k, ro, rc, m, n)
    ensures n + 1 <= next <= n + 3 && LevelAt(o, k, ro, rc, m + 1, next)
  {
    next := n;
    var sc := After(rc, n);
    if InStep(o, k, After(ro, m), sc) && sc.pc == PieceLength(o, k, sc.block)
       && sc.block != k.last[k.origin[sc.block].block]
    {
      CheckPasses(o, k, ro, rc, m, n);
      next := n + 2;
      PieceContents(o, k, After(rc, next).block);
    }
    LevelStep(o, k, ro, rc, m, next);
    next := next + 1;
  }

  /** Without halt requests the rewritten run reaches every point of the original run, at most three times later. */
  lemma {:induction false} AllCaughtUp<W>(o: Ir, k: Book, ro: Run<W>, rc: Run<W>, m: nat) returns (n: nat)
    requires TwinRuns(o, k, ro, rc) && forall i :: rc.halt(i) == 0
    ensures m <= n <= 3 * m && LevelAt(o, k, ro, rc, m, n)
  {
    if m == 0 {
      n := 0;
      StartLevel(o, k, ro, rc);
    } else {
      n := AllCaughtUp(o, k, ro, rc, m - 1);
      n := CatchUp(o, k, ro, rc, m - 1, n);
    }
  }

  ghost predicate Ends<W>(r: Run<W>, code: Option<Word>, end: W) {
    exists n: nat {:trigger After(r, n)} ::
      After(r, n).Done? && After(r, n).code == code && After(r, n).world == end
  }

  /** Without halt requests the two programs return the same results. */
  lemma SameResultsWithoutHalt<W>(o: Ir, k: Book, ro: Run<W>, rc: Run<W>, code: Option<Word>, end: W)
    requires TwinRuns(o, k, ro, rc) && forall i :: rc.halt(i) == 0
    ensures Ends(rc, code, end) <==> Ends(ro, code, end)
  {
    if Ends(rc, code, end) {
      var n: nat :| After(rc, n).Done? && After(rc, n).code == code && After(rc, n).world == end;
      var m := RunFollows(o, k, ro, rc, n);
      assert SameEnd(After(ro, m), After(rc, n));
    }
    if Ends(ro, code, end) {
      var m: nat :| After(ro, m).Done? && After(ro, m).code == code && After(ro, m).world == end;
      var n := AllCaughtUp(o, k, ro, rc, m);
      assert SameEnd(After(ro, m), After(rc, n));
    }
  }
}
