/**
 How soon a running program notices a halt request: once the halt word is set,
 at most `every` more safepoints are passed before the program leaves.
 */
module HaltLatency {
  import opened Wrappers
  import opened Graphs
  import opened ExecIr
  import opened BlockSplitting
  import opened PassInvariant
  import opened HaltCheckInserters
  import opened HaltStates
  import opened BlockProcessing
  import opened OutputPaths
  import opened SplitSemantics

  /** The blocks entered in the first `n` steps. */
  function Visited<W>(r: Run<W>, n: nat): (q: seq<Block>)
    ensures q != []
  {
    if n == 0 then [ENTRYPOINT]
    else
      var st, next := After(r, n - 1), After(r, n);
      if st.Running? && next.Running? && AtTerminator(r.ir, st) then Visited(r, n - 1) + [next.block]
      else Visited(r, n - 1)
  }

  predicate AtTerminator<W>(ir: Ir, st: State<W>) {
    st.Running? && st.block < |ir.blocks| && st.pc >= |ir.blocks[st.block].stmts|
  }

  /** What the next step adds to the passed safepoints. */
  function NewlyPassed<W>(ir: Ir, st: State<W>): seq<Stmt> {
    if st.Running? && st.block < |ir.blocks| && st.pc < |ir.blocks[st.block].stmts|
       && IsSafepoint(ir, ir.blocks[st.block].stmts[st.pc])
    then [ir.blocks[st.block].stmts[st.pc]] else []
  }

  /** The safepoints passed in the first `n` steps. */
  function Passed<W>(r: Run<W>, n: nat): seq<Stmt> {
    if n == 0 then [] else Passed(r, n - 1) + NewlyPassed(r.ir, After(r, n - 1))
  }

  /** A running program is at the end of the walk it has taken. */
  ghost predicate OnWalk<W>(r: Run<W>, n: nat) {
    var q, st := Visited(r, n), After(r, n);
    st.Running? ==> IsWalk(r.ir, q) && Last(q) == st.block && st.block < |r.ir.blocks|
                    && st.pc <= |r.ir.blocks[st.block].stmts|
  }

  lemma {:induction false} RunsOnWalk<W>(r: Run<W>, n: nat)
    requires RunOk(r)
    ensures OnWalk(r, n)
  {
    if n == 0 {
      assert 0 in Vertices(Cfg(r.ir));
    } else {
      RunsOnWalk(r, n - 1);
      assert Next(r, n - 1);
      var st := After(r, n - 1);
      if After(r, n).Running? && AtTerminator(r.ir, st) {
        JumpEdge(r, st);
        WalkStep(Cfg(r.ir), Visited(r, n - 1), After(r, n).block);
      }
    }
  }

  lemma JumpEdge<W>(r: Run<W>, st: State<W>)
    requires WellFormedIr(r.ir) && AtTerminator(r.ir, st) && Step(r.ir, r.sem, r.halt, st).Running?
    ensures var next := Step(r.ir, r.sem, r.halt, st);
      Edge(Cfg(r.ir), st.block, next.block) && next.block < |r.ir.blocks| && next.pc == 0
      && next.accesses == st.accesses
  {
  }

  lemma StmtKeepsWalk<W>(r: Run<W>, st: State<W>)
    requires st.Running? && st.block < |r.ir.blocks| && !AtTerminator(r.ir, st)
    requires Step(r.ir, r.sem, r.halt, st).Running?
    ensures var next := Step(r.ir, r.sem, r.halt, st); next.block == st.block && next.pc == st.pc + 1
  {
  }

  /** The safepoints met along the walk, up to where the run is. */
  ghost function Met<W>(ir: Ir, q: seq<Block>, st: State<W>): seq<Stmt>
    requires q != [] && st.Running?
  {
    Trace(Sps(ir), q[..|q| - 1]) + SafepointsTo(ir, st.block, st.pc)
  }

  lemma MetAcross<W>(ir: Ir, q: seq<Block>, st: State<W>, next: State<W>)
    requires st.Running? && next.Running? && IsWalk(ir, q) && Last(q) == st.block && AtTerminator(ir, st)
    requires st.pc == |ir.blocks[st.block].stmts| && next.pc == 0
    ensures Met(ir, q + [next.block], next) == Met(ir, q, st)
  {
    TraceAcross(ir, q, st.pc, next.block);
  }

  lemma MetStmt<W>(ir: Ir, q: seq<Block>, st: State<W>, next: State<W>)
    requires st.Running? && next.Running? && q != [] && st.block < |ir.blocks| && st.pc < |ir.blocks[st.block].stmts|
    requires next.block == st.block && next.pc == st.pc + 1
    ensures Met(ir, q, next) == Met(ir, q, st) + NewlyPassed(ir, st)
  {
    StmtPassed(ir, st.block, st.pc);
    Assoc(Trace(Sps(ir), q[..|q| - 1]), SafepointsTo(ir, st.block, st.pc), NewlyPassed(ir, st));
  }

  lemma MetNext<W>(r: Run<W>, q: seq<Block>, st: State<W>, next: State<W>, longer: seq<Block>)
    requires WellFormedIr(r.ir) && st.Running? && st.block < |r.ir.blocks| && st.pc <= |r.ir.blocks[st.block].stmts|
    requires IsWalk(r.ir, q) && Last(q) == st.block
    requires next == Step(r.ir, r.sem, r.halt, st) && next.Running?
    requires longer == if AtTerminator(r.ir, st) then q + [next.block] else q
    ensures Met(r.ir, longer, next) == Met(r.ir, q, st) + NewlyPassed(r.ir, st)
  {
    if AtTerminator(r.ir, st) {
      JumpEdge(r, st);
      MetAcross(r.ir, q, st, next);
      assert NewlyPassed(r.ir, st) == [];
      AppendNothing(Met(r.ir, q, st));
    } else {
      StmtKeepsWalk(r, st);
      MetStmt(r.ir, q, st, next);
    }
  }

  lemma AppendNothing(t: seq<Stmt>)
    ensures t + [] == t
  {
  }

  lemma Assoc(a: seq<Stmt>, b: seq<Stmt>, c: seq<Stmt>)
    ensures a + (b + c) == (a + b) + c
  {
  }

  /** The safepoints passed are those met along the walk. */
  lemma {:induction false} PassedOnWalk<W>(r: Run<W>, n: nat)
    requires RunOk(r) && After(r, n).Running?
    ensures Passed(r, n) == Met(r.ir, Visited(r, n), After(r, n))
  {
    if n == 0 {
      assert SafepointsTo(r.ir, ENTRYPOINT, 0) == [];
    } else {
      RunningBefore(r, n - 1);
      assert Next(r, n - 1);
      PassedOnWalk(r, n - 1);
      RunsOnWalk(r, n - 1);
      MetNext(r, Visited(r, n - 1), After(r, n - 1), After(r, n), Visited(r, n));
    }
  }

  lemma RunningBefore<W>(r: Run<W>, n: nat)
    requires RunOk(r) && After(r, n + 1).Running?
    ensures After(r, n).Running? && After(r, n).block < |r.ir.blocks|
  {
    assert Next(r, n);
  }

  /** Entering a block passes nothing. */
  lemma TraceAcross(ir: Ir, q: seq<Block>, i: nat, y: Block)
    requires IsWalk(ir, q) && Last(q) < |ir.blocks| && i == |ir.blocks[Last(q)].stmts|
    ensures var longer := q + [y];
      Trace(Sps(ir), longer[..|longer| - 1]) + SafepointsTo(ir, y, 0)
        == Trace(Sps(ir), q[..|q| - 1]) + SafepointsTo(ir, Last(q), i)
  {
    assert (q + [y])[..|q + [y]| - 1] == q;
    PrefixTrace(ir, q);
    assert StmtsTo(ir, y, 0) == [] && SafepointsTo(ir, y, 0) == [];
    assert StmtsTo(ir, Last(q), i) == ir.blocks[Last(q)].stmts;
  }

  lemma StmtPassed(ir: Ir, b: Block, i: nat)
    requires b < |ir.blocks| && i < |ir.blocks[b].stmts|
    ensures SafepointsTo(ir, b, i + 1)
            == SafepointsTo(ir, b, i) + (if IsSafepoint(ir, ir.blocks[b].stmts[i]) then [ir.blocks[b].stmts[i]] else [])
  {
    var next := StmtsTo(ir, b, i + 1);
    assert next[..|next| - 1] == StmtsTo(ir, b, i);
  }

  /** The passed safepoints only grow. */
  lemma {:induction false} PassedGrows<W>(r: Run<W>, m: nat, n: nat)
    requires RunOk(r) && m <= n && After(r, n).Running?
    ensures After(r, m).Running? && Passed(r, m) <= Passed(r, n)
  {
    if m < n {
      RunningBefore(r, n - 1);
      PassedGrows(r, m, n - 1);
    }
  }

  // ---------------------------------------------------------------------
  // Loads of the halt word

  ghost function Checks(c: Ir, t: seq<Stmt>): nat {
    if t == [] then 0 else Checks(c, t[..|t| - 1]) + (if IsChecked(c, t[|t| - 1]) then 1 else 0)
  }

  lemma {:induction false} ChecksInPrefix(c: Ir, a: seq<Stmt>, t: seq<Stmt>)
    requires a <= t
    ensures Checks(c, a) <= Checks(c, t)
    ensures (exists j :: |a| <= j < |t| && IsChecked(c, t[j])) ==> Checks(c, a) < Checks(c, t)
  {
    if |a| < |t| {
      ChecksInPrefix(c, a, t[..|t| - 1]);
    } else {
      assert a == t;
    }
  }

  /** The run has just passed a checked safepoint and has not loaded the halt word yet. */
  ghost predicate CheckDue<W>(c: Ir, st: State<W>) {
    st.Running? && st.pc > 0 && HaltCheckAfter(c, st.block, st.pc - 1)
  }

  /** A placed statement is checked exactly when the check follows it at its only place. */
  lemma CheckedAt(c: Ir, x: Block, i: nat)
    requires WellFormedIr(c) && x < |c.blocks| && i < |c.blocks[x].stmts|
    ensures IsChecked(c, c.blocks[x].stmts[i]) <==> HaltCheckAfter(c, x, i)
  {
    var s := c.blocks[x].stmts[i];
    assert ExecIr.At(c.blocks, x, i, s);
    if IsChecked(c, s) {
      var y: Block, j: nat :| HaltCheckAfter(c, y, j) && ExecIr.At(c.blocks, y, j, s);
    }
  }

  ghost function Due<W>(c: Ir, st: State<W>): nat {
    if CheckDue(c, st) then 1 else 0
  }

  ghost function Balance<W>(r: Run<W>, n: nat): int
    requires After(r, n).Running?
  {
    After(r, n).accesses + Due(r.ir, After(r, n)) - Checks(r.ir, Passed(r, n))
  }

  lemma ChecksAppend(c: Ir, t: seq<Stmt>, s: Stmt)
    ensures Checks(c, t + [s]) == Checks(c, t) + (if IsChecked(c, s) then 1 else 0)
  {
    assert (t + [s])[..|t|] == t;
  }

  /** A statement either passes a safepoint, after which a check may be due, or does the load that is due. */
  lemma DueAfterStmt<W>(r: Run<W>, st: State<W>)
    requires WellFormedIr(r.ir) && st.Running? && st.block < |r.ir.blocks| && !AtTerminator(r.ir, st)
    requires Step(r.ir, r.sem, r.halt, st).Running?
    ensures var next, newly := Step(r.ir, r.sem, r.halt, st), NewlyPassed(r.ir, st);
      && st.accesses <= next.accesses <= st.accesses + 1
      && st.accesses + Due(r.ir, st) + (if newly != [] && IsChecked(r.ir, newly[0]) then 1 else 0)
         <= next.accesses + Due(r.ir, next)
  {
    CheckedAt(r.ir, st.block, st.pc);
  }

  /** Every checked safepoint is answered by a load of the halt word. */
  lemma BalanceStep<W>(r: Run<W>, n: nat)
    requires RunOk(r) && After(r, n + 1).Running? && After(r, n).Running?
    ensures Balance(r, n) <= Balance(r, n + 1)
    ensures After(r, n).accesses <= After(r, n + 1).accesses <= After(r, n).accesses + 1
  {
    assert Next(r, n);
    RunningBefore(r, n);
    RunsOnWalk(r, n);
    var st := After(r, n);
    if AtTerminator(r.ir, st) {
      JumpEdge(r, st);
      assert Passed(r, n) + [] == Passed(r, n);
    } else {
      DueAfterStmt(r, st);
      if NewlyPassed(r.ir, st) != [] {
        ChecksAppend(r.ir, Passed(r, n), NewlyPassed(r.ir, st)[0]);
      }
    }
  }

  lemma {:induction false} BalanceGrows<W>(r: Run<W>, m: nat, n: nat)
    requires RunOk(r) && m <= n && After(r, n).Running?
    ensures After(r, m).Running? && Balance(r, m) <= Balance(r, n) && After(r, m).accesses <= After(r, n).accesses
  {
    if m < n {
      PassedGrows(r, n - 1, n);
      BalanceStep(r, n - 1);
      BalanceGrows(r, m, n - 1);
    }
  }

  /** A run that has passed `every` more safepoints and moved on has loaded the halt word in between. */
  lemma HaltWordLoaded<W>(r: Run<W>, every: nat, m: nat, n: nat)
    requires RunOk(r) && HaltBounded(r.ir, every) && m <= n
    requires After(r, n).Running? && !CheckDue(r.ir, After(r, n))
    requires |Passed(r, n)| >= |Passed(r, m)| + every
    ensures After(r, m).Running? && After(r, n).accesses > After(r, m).accesses
  {
    PassedGrows(r, m, n);
    BalanceGrows(r, m, n);
    RunsOnWalk(r, n);
    PassedOnWalk(r, n);
    var q, i := Visited(r, n), |Passed(r, m)|;
    PrefixTrace(r.ir, q);
    PassedIsPrefix(r.ir, Last(q), After(r, n).pc);
    var whole := Trace(Sps(r.ir), q);
    assert Passed(r, n) <= whole;
    assert HaltCheckWithin(r.ir, every, q, i);
    var j :| i <= j < i + every && IsChecked(r.ir, whole[j]);
    assert Passed(r, n)[j] == whole[j];
    ChecksInPrefix(r.ir, Passed(r, m), Passed(r, n));
  }

  lemma PassedIsPrefix(ir: Ir, b: Block, i: nat)
    requires b < |ir.blocks| && i <= |ir.blocks[b].stmts|
    ensures SafepointsTo(ir, b, i) <= SafepointsAt(Sps(ir), b)
  {
    var stmts := ir.blocks[b].stmts;
    assert stmts == stmts[..i] + stmts[i..];
    SafepointsConcat(ir, stmts[..i], stmts[i..]);
  }

  // ---------------------------------------------------------------------
  // After a halt request

  /** The halt word is only touched by halt checks and exit blocks. */
  ghost predicate OnlyChecksAccess(c: Ir) {
    forall x: Block, i: nat {:trigger AccessAt(c, x, i)} :: AccessAt(c, x, i) ==>
      TakesHalt(c, x) || (i >= 1 && HaltCheckAfter(c, x, i - 1))
  }

  predicate AccessAt(c: Ir, x: Block, i: nat) {
    && x < |c.blocks| && i < |c.blocks[x].stmts| && c.blocks[x].stmts[i] < |c.stmts|
    && var r := c.stmts[c.blocks[x].stmts[i]].rvalue; r.LoadHaltReason? || r.TakeHaltReason?
  }

  /** The run has seen a set halt word and is on its way out. */
  ghost predicate OnWayOut<W>(c: Ir, st: State<W>) {
    && st.Running? && st.block < |c.blocks|
    && (TakesHalt(c, st.block)
        || (st.pc == |c.blocks[st.block].stmts| >= 2 && HaltCheckAfter(c, st.block, st.pc - 2)
            && var v := c.blocks[st.block].terminator.cond; v in st.env && st.env[v] != 0))
  }

  lemma WayOutState<W>(r: Run<W>, st: State<W>)
    requires WellFormedIr(r.ir) && OnWayOut(r.ir, st) && Step(r.ir, r.sem, r.halt, st).Running?
    ensures OnWayOut(r.ir, Step(r.ir, r.sem, r.halt, st)) && NewlyPassed(r.ir, st) == []
  {
  }

  lemma WayOutStep<W>(r: Run<W>, n: nat)
    requires RunOk(r) && OnWayOut(r.ir, After(r, n)) && After(r, n + 1).Running?
    ensures OnWayOut(r.ir, After(r, n + 1)) && Passed(r, n + 1) == Passed(r, n)
  {
    assert Next(r, n);
    RunningBefore(r, n);
    WayOutState(r, After(r, n));
  }

  /** An access that sees a set halt word puts the run on its way out. */
  lemma AccessSeesHalt<W>(r: Run<W>, n: nat)
    requires RunOk(r) && OnlyChecksAccess(r.ir) && After(r, n + 1).Running? && After(r, n).Running?
    requires After(r, n + 1).accesses > After(r, n).accesses && r.halt(After(r, n).accesses) != 0
    ensures OnWayOut(r.ir, After(r, n + 1)) && Passed(r, n + 1) == Passed(r, n)
  {
    assert Next(r, n);
    RunningBefore(r, n);
    RunsOnWalk(r, n);
    var st := After(r, n);
    if AtTerminator(r.ir, st) {
      JumpEdge(r, st);
    } else {
      assert AccessAt(r.ir, st.block, st.pc);
      if !TakesHalt(r.ir, st.block) {
        var load := r.ir.stmts[r.ir.blocks[st.block].stmts[st.pc]];
        assert load.outputs == [load.outputs[0]] && load.outputs[..0] == [];
        assert Bind(st.env, load.outputs, [r.halt(st.accesses)]) == st.env[load.outputs[0] := r.halt(st.accesses)];
      }
    }
  }

  /** From step `m` on the halt word is set; by step `n` the run has stayed within the bound. */
  ghost predicate Noticed<W>(r: Run<W>, every: nat, m: nat, n: nat) {
    && |Passed(r, n)| <= |Passed(r, m)| + every
    && (After(r, n).Running? && After(r, m).Running? && After(r, n).accesses > After(r, m).accesses ==>
        OnWayOut(r.ir, After(r, n)))
  }

  lemma NoticedStep<W>(r: Run<W>, every: nat, m: nat, n: nat)
    requires RunOk(r) && HaltBounded(r.ir, every) && OnlyChecksAccess(r.ir)
    requires m <= n && After(r, m).Running? && After(r, n).Running? && After(r, n + 1).Running?
    requires After(r, n).accesses >= After(r, m).accesses
    requires forall i :: i >= After(r, m).accesses ==> r.halt(i) != 0
    requires Noticed(r, every, m, n)
    ensures Noticed(r, every, m, n + 1)
  {
    BalanceStep(r, n);
    if OnWayOut(r.ir, After(r, n)) {
      WayOutStep(r, n);
    } else if After(r, n + 1).accesses > After(r, n).accesses {
      AccessSeesHalt(r, n);
    } else {
      StillBounded(r, every, m, n);
    }
  }

  /** Once the halt word is set, at most `every` more safepoints are passed. */
  lemma {:induction false} HaltNoticed<W>(r: Run<W>, every: nat, m: nat, n: nat)
    requires RunOk(r) && HaltBounded(r.ir, every) && OnlyChecksAccess(r.ir)
    requires m <= n && After(r, m).Running? && After(r, n).Running?
    requires forall i :: i >= After(r, m).accesses ==> r.halt(i) != 0
    ensures Noticed(r, every, m, n)
  {
    if m < n {
      PassedGrows(r, n - 1, n);
      HaltNoticed(r, every, m, n - 1);
      BalanceGrows(r, m, n - 1);
      NoticedStep(r, every, m, n - 1);
    }
  }

  /** A due check comes before any further safepoint. */
  lemma DueStep<W>(r: Run<W>, n: nat)
    requires RunOk(r) && After(r, n + 1).Running? && CheckDue(r.ir, After(r, n))
    ensures Passed(r, n + 1) == Passed(r, n)
  {
    RunningBefore(r, n);
  }

  /** Nothing was loaded since step `m`, so fewer than `every` safepoints were passed before the last one. */
  lemma StillBounded<W>(r: Run<W>, every: nat, m: nat, n: nat)
    requires RunOk(r) && HaltBounded(r.ir, every) && m <= n && After(r, n + 1).Running? && After(r, m).Running?
    requires After(r, n).Running? && After(r, n).accesses == After(r, m).accesses
    requires |Passed(r, n)| <= |Passed(r, m)| + every
    ensures |Passed(r, n + 1)| <= |Passed(r, m)| + every
  {
    if CheckDue(r.ir, After(r, n)) {
      DueStep(r, n);
    } else {
      RunningBefore(r, n);
      if |Passed(r, n)| == |Passed(r, m)| + every {
        HaltWordLoaded(r, every, m, n);
      }
    }
  }

  lemma NoOriginalAccess(o: Ir, k: Book, x: Block, i: nat)
    requires BookOk(o, k) && NoHaltAccess(o) && InPiece(o, k, x) && i < PieceLength(o, k, x)
    ensures !AccessAt(k.c, x, i)
  {
    PieceContents(o, k, x);
    assert k.c.stmts[k.c.blocks[x].stmts[i]] == o.stmts[k.c.blocks[x].stmts[i]];
  }

  /** The rewritten program touches the halt word only in its checks and its exit block. */
  lemma RewrittenAccesses(o: Ir, k: Book)
    requires BookOk(o, k) && NoHaltAccess(o)
    ensures OnlyChecksAccess(k.c)
  {
    forall x: Block, i: nat {:trigger AccessAt(k.c, x, i)} | AccessAt(k.c, x, i)
      ensures TakesHalt(k.c, x) || (i >= 1 && HaltCheckAfter(k.c, x, i - 1))
    {
      PieceOrExit(o, k, x);
      if InPiece(o, k, x) {
        PieceContents(o, k, x);
        assert k.c.leave.Some? ==> OriginOk(o, k.c, k.origin, k.last, k.c.leave.value);
        if i < PieceLength(o, k, x) {
          NoOriginalAccess(o, k, x, i);
        }
      }
    }
  }
}
