/**
 The owner of the rewriting: it inserts halt checks, keeps the position of every
 safepoint up to date, and moves pending edge states to continuation blocks.
 */
module HaltCheckInserters {
  import opened Wrappers
  import opened ExecIr
  import opened Traces
  import opened BlockSplitting
  import opened HaltStateMaps
  import opened PassInvariant

  type Locations = map<Stmt, (Block, nat)>

  /** The rewritten arenas together with how they relate to the original ones. */
  datatype Book = Book(c: Ir, origin: seq<Origin>, last: seq<Block>, checked: set<Stmt>)

  ghost predicate BookOk(o: Ir, k: Book) {
    && WellFormedIr(o) && o.leave.None? && WellFormedIr(k.c)
    && Refines(o, k.c, k.origin, k.last)
    && (forall s {:trigger CheckedAfter(k.c, k.origin, k.last, s)} ::
          s in k.checked <==> CheckedAfter(k.c, k.origin, k.last, s))
  }

  /** A check adds one block and one statement, the exit block comes with the first; without checks nothing changes. */
  ghost predicate SizeOk(o: Ir, k: Book) {
    var leave := if k.checked == {} then 0 else 1;
    && (k.checked == {} ==> k.c == o) && (k.c.leave.Some? <==> k.checked != {})
    && |k.c.blocks| == |o.blocks| + |k.checked| + leave
    && |k.c.stmts| == |o.stmts| + |k.checked| + leave
    && k.c.ssaValues == o.ssaValues + |k.checked| + leave
  }

  /** Where a block can be split there is no check yet. */
  lemma NotYetChecked(o: Ir, k: Book, x: Block, at: nat)
    requires BookOk(o, k) && CanSplit(k, x, at)
    ensures k.c.blocks[x].stmts[at - 1] !in k.checked
  {
    var s := k.c.blocks[x].stmts[at - 1];
    if CheckedAfter(k.c, k.origin, k.last, s) {
      var y: Block :| EndsChecked(k.c, k.origin, k.last, y) && k.c.blocks[y].stmts[|k.c.blocks[y].stmts| - 2] == s;
      assert At(k.c.blocks, x, at - 1, s) && At(k.c.blocks, y, |k.c.blocks[y].stmts| - 2, s);
    }
  }

  ghost predicate CanSplit(k: Book, x: Block, at: nat) {
    Splittable(k.c, k.origin, k.last, x, at)
  }

  ghost function SplitBook(k: Book, x: Block, at: nat): Book
    requires CanSplit(k, x, at)
  {
    Book(SplitAt(k.c, x, at), SplitOrigin(k.c, k.origin, x, at), SplitLast(k.c, k.origin, k.last, x),
         k.checked + {k.c.blocks[x].stmts[at - 1]})
  }

  lemma SplitBookOk(o: Ir, k: Book, x: Block, at: nat)
    requires BookOk(o, k) && SizeOk(o, k) && CanSplit(k, x, at) && WellFormedIr(SplitAt(k.c, x, at))
    ensures BookOk(o, SplitBook(k, x, at)) && SizeOk(o, SplitBook(k, x, at))
  {
    SplitSizeOk(o, k, x, at);
    SplitRefines(o, k.c, k.origin, k.last, x, at);
    var n := SplitBook(k, x, at);
    forall s {:trigger CheckedAfter(n.c, n.origin, n.last, s)}
      ensures s in n.checked <==> CheckedAfter(n.c, n.origin, n.last, s)
    {
      SplitChecks(o, k.c, k.origin, k.last, x, at, s);
      assert CheckedAfterSplit(k.c, k.origin, k.last, x, at, s) <==> CheckedAfter(n.c, n.origin, n.last, s);
    }
  }

  lemma SplitSizeOk(o: Ir, k: Book, x: Block, at: nat)
    requires BookOk(o, k) && SizeOk(o, k) && CanSplit(k, x, at)
    ensures SizeOk(o, SplitBook(k, x, at))
  {
    NotYetChecked(o, k, x, at);
  }

  // ---------------------------------------------------------------------
  // Safepoint positions

  /** `loc` records the position of every placed safepoint, and nothing else. */
  ghost predicate LocOk(c: Ir, loc: Locations) {
    && (forall x: Block, i, s: Stmt {:trigger At(c.blocks, x, i, s)} ::
          At(c.blocks, x, i, s) && IsSafepoint(c, s) ==> s in loc && loc[s] == (x, i))
    && (forall s {:trigger loc[s]} :: s in loc ==> At(c.blocks, loc[s].0, loc[s].1, s) && IsSafepoint(c, s))
  }

  /** Every original safepoint has a recorded position. */
  ghost predicate AllRecorded(o: Ir, loc: Locations) {
    forall b: Block, i, s: Stmt {:trigger At(o.blocks, b, i, s)} ::
      At(o.blocks, b, i, s) && IsSafepoint(o, s) ==> s in loc
  }

  /** The first `n` statements of the continuation have been given their new position. */
  ghost predicate Relocated(before: Locations, after: Locations, x: Block, at: nat, n: nat, continuation: Block) {
    && after.Keys == before.Keys
    && forall s {:trigger after[s]} :: s in after ==> after[s] == NewLocation(before[s], x, at, n, continuation)
  }

  function NewLocation(l: (Block, nat), x: Block, at: nat, n: nat, continuation: Block): (Block, nat) {
    if l.0 == x && at <= l.1 < at + n then (continuation, l.1 - at) else l
  }

  /** Scanning statement `n` of the continuation: a recorded safepoint there gets its new position. */
  lemma RelocateNext(c: Ir, before: Locations, after: Locations, x: Block, at: nat, n: nat, continuation: Block,
                     stmt: Stmt)
    requires LocOk(c, before) && x < |c.blocks| && at + n < |c.blocks[x].stmts| && stmt == c.blocks[x].stmts[at + n]
    requires Relocated(before, after, x, at, n, continuation)
    ensures if IsSafepoint(c, stmt) then
              stmt in after && after[stmt] == (x, at + n)
              && Relocated(before, after[stmt := (continuation, n)], x, at, n + 1, continuation)
            else Relocated(before, after, x, at, n + 1, continuation)
  {
    assert At(c.blocks, x, at + n, stmt);
    forall s {:trigger before[s]} | s in before && before[s] == (x, at + n) ensures s == stmt && IsSafepoint(c, stmt) {
    }
  }

  /** The same, seen from the continuation of the split program `s`. */
  lemma RelocateStep(c: Ir, s: Ir, before: Locations, after: Locations, x: Block, at: nat, n: nat)
    requires WellFormedIr(c) && LocOk(c, before) && x < |c.blocks| && at + n < |c.blocks[x].stmts|
    requires IsSplit(c, x, at, s) && Relocated(before, after, x, at, n, |c.blocks|)
    ensures n < |s.blocks[|c.blocks|].stmts|
    ensures var stmt := s.blocks[|c.blocks|].stmts[n];
      && stmt < |s.stmts|
      && if s.stmts[stmt].rvalue.Safepoint? then
           stmt in after && after[stmt] == (x, at + n)
           && Relocated(before, after[stmt := (|c.blocks|, n)], x, at, n + 1, |c.blocks|)
         else Relocated(before, after, x, at, n + 1, |c.blocks|)
  {
    SameSafepoints(c, s, x, at, n);
    RelocateNext(c, before, after, x, at, n, |c.blocks|, c.blocks[x].stmts[at + n]);
  }

  lemma RelocatedOk(c: Ir, loc: Locations, x: Block, at: nat, after: Locations)
    requires WellFormedIr(c) && LocOk(c, loc) && x < |c.blocks| && at <= |c.blocks[x].stmts|
    requires Relocated(loc, after, x, at, |c.blocks[x].stmts| - at, |c.blocks|)
    ensures LocOk(SplitAt(c, x, at), after)
  {
    SplitAtIsSplit(c, x, at);
    AnyRelocatedOk(c, loc, x, at, after, SplitAt(c, x, at));
  }

  lemma LeaveHasNoSafepoint(o: Ir, c: Ir, y: Block, i: int, t: Stmt)
    requires y < |c.blocks| && LeaveOk(o, c, c.blocks[y]) && At(c.blocks, y, i, t)
    ensures !IsSafepoint(c, t)
  {
  }

  lemma OldSafepoint(c: Ir, x: Block, at: nat, s: Ir, y: Block, i: int, t: Stmt)
    requires WellFormedIr(c) && x < |c.blocks| && at <= |c.blocks[x].stmts| && IsSplit(c, x, at, s)
    requires At(s.blocks, y, i, t) && IsSafepoint(s, t)
    ensures IsSafepoint(c, t)
    ensures if y == |c.blocks| then At(c.blocks, x, i + at, t)
            else At(c.blocks, y, i, t) && (y == x ==> i < at)
  {
    if y == |c.blocks| {
      assert At(c.blocks, x, i + at, t);
    } else if y == x {
      assert i < at;
      assert s.blocks[x].stmts[i] == s.blocks[x].stmts[..at][i] == c.blocks[x].stmts[..at][i];
    } else if y > |c.blocks| {
      LeaveHasNoSafepoint(c, s, y, i, t);
    }
    var z := if y == |c.blocks| then x else y;
    assert BlockOk(c.blocks[z], |c.blocks|, |c.stmts|, c.ssaValues);
    assert t in c.blocks[z].stmts;
  }

  lemma AnyRelocatedOk(c: Ir, loc: Locations, x: Block, at: nat, after: Locations, s: Ir)
    requires WellFormedIr(c) && LocOk(c, loc) && x < |c.blocks| && at <= |c.blocks[x].stmts|
    requires IsSplit(c, x, at, s)
    requires Relocated(loc, after, x, at, |c.blocks[x].stmts| - at, |c.blocks|)
    ensures LocOk(s, after)
  {
    forall y: Block, i, t: Stmt {:trigger At(s.blocks, y, i, t)} | At(s.blocks, y, i, t) && IsSafepoint(s, t)
      ensures t in after && after[t] == (y, i)
    {
      OldSafepoint(c, x, at, s, y, i, t);
      if y == |c.blocks| {
        assert At(c.blocks, x, i + at, t);
      } else {
        assert At(c.blocks, y, i, t);
      }
    }
    forall t {:trigger after[t]} | t in after
      ensures At(s.blocks, after[t].0, after[t].1, t) && IsSafepoint(s, t)
    {
      assert At(c.blocks, loc[t].0, loc[t].1, t) && IsSafepoint(c, t);
      if loc[t].0 == x && loc[t].1 < at {
        assert s.blocks[x].stmts[loc[t].1] == s.blocks[x].stmts[..at][loc[t].1];
      }
    }
  }

  // ---------------------------------------------------------------------
  // Pending states

  /** `pending` lists the stored states by original source block. */
  ghost predicate PendingOk(k: Book, outgoing: map<Block, map<Block, HaltState>>, pending: Edges) {
    && (forall a: Block, b: Block {:trigger (a, b) in pending} ::
          (a, b) in pending <==> a < |k.last| && StateAt(outgoing, k.last[a], b).Some?)
    && (forall a: Block, b: Block {:trigger pending[(a, b)]} ::
          (a, b) in pending ==> a < |k.last| && StateAt(outgoing, k.last[a], b) == Some(pending[(a, b)]))
    && (forall x {:trigger x in outgoing} :: x in outgoing ==> SourceOk(k, x))
  }

  /** States are stored only under the last piece of a block. */
  ghost predicate SourceOk(k: Book, x: Block) {
    && x < |k.origin| && k.origin[x].Piece? && k.origin[x].block < |k.last|
    && k.last[k.origin[x].block] == x
  }

  lemma SplitPendingOk(o: Ir, k: Book, x: Block, at: nat, outgoing: map<Block, map<Block, HaltState>>,
                       after: map<Block, map<Block, HaltState>>, pending: Edges)
    requires BookOk(o, k) && CanSplit(k, x, at) && PendingOk(k, outgoing, pending)
    requires Moved(outgoing, after, x, |k.c.blocks|)
    requires after.Keys <= outgoing.Keys - {x} + {|k.c.blocks|}
    requires x !in outgoing ==> after == outgoing
    ensures PendingOk(SplitBook(k, x, at), after, pending)
  {
    var n := SplitBook(k, x, at);
    var here := k.origin[x].block;
    forall a: Block, b: Block | a < |k.last|
      ensures StateAt(after, n.last[a], b) == StateAt(outgoing, k.last[a], b)
    {
      LastPieces(o, k, a);
      if n.last[a] == |k.c.blocks| {
        assert a == here && k.last[a] == x;
      } else {
        assert n.last[a] == k.last[a];
      }
    }
    forall y {:trigger y in after} | y in after ensures SourceOk(n, y) {
      if y != |k.c.blocks| {
        assert y in outgoing && SourceOk(k, y);
      } else {
        assert y !in outgoing;
        assert SourceOk(k, x);
      }
    }
  }

  lemma LastPieces(o: Ir, k: Book, a: Block)
    requires BookOk(o, k) && a < |k.last|
    ensures k.last[a] < |k.origin| && k.origin[k.last[a]].Piece? && k.origin[k.last[a]].block == a
  {
    assert HeadOk(o, k.c, k.origin, k.last, a);
  }

  /** A statement of the continuation is a safepoint after the split exactly when it was one before. */
  lemma SameSafepoints(c: Ir, s: Ir, x: Block, at: nat, i: nat)
    requires WellFormedIr(c) && x < |c.blocks| && at + i < |c.blocks[x].stmts| && IsSplit(c, x, at, s)
    ensures var t := c.blocks[x].stmts[at + i];
      t < |s.stmts| && (s.stmts[t].rvalue.Safepoint? <==> IsSafepoint(c, t))
      && s.blocks[|c.blocks|].stmts[i] == t
  {
    assert BlockOk(c.blocks[x], |c.blocks|, |c.stmts|, c.ssaValues);
    assert c.blocks[x].stmts[at + i] in c.blocks[x].stmts;
  }

  /** An unchecked safepoint can always be given a check where it is recorded. */
  lemma LocateSafepoint(o: Ir, k: Book, loc: Locations, at: Stmt)
    requires BookOk(o, k) && LocOk(k.c, loc) && at in loc && at !in k.checked
    ensures var (x, i) := loc[at]; CanSplit(k, x, i + 1) && k.c.blocks[x].stmts[i] == at
  {
    var (x, i) := loc[at];
    assert At(k.c.blocks, x, i, at) && IsSafepoint(k.c, at);
    assert OriginOk(o, k.c, k.origin, k.last, x);
    if k.origin[x].Leave? {
      LeaveHasNoSafepoint(o, k.c, x, i, at);
      assert false;
    } else if x != k.last[k.origin[x].block] {
      assert EndsChecked(k.c, k.origin, k.last, x);
      assert !CheckedAfter(k.c, k.origin, k.last, at);
    }
  }

  /** Only blocks that contain `at` have a new last piece. */
  ghost predicate LastsSameBut(o: Ir, before: seq<Block>, after: seq<Block>, at: Stmt) {
    && |after| == |before| == |o.blocks|
    && forall a: Block {:trigger after[a]} :: a < |after| && at !in o.blocks[a].stmts ==> after[a] == before[a]
  }

  lemma SplitLastSameBut(o: Ir, k: Book, x: Block, at: nat)
    requires BookOk(o, k) && CanSplit(k, x, at)
    ensures LastsSameBut(o, k.last, SplitLast(k.c, k.origin, k.last, x), k.c.blocks[x].stmts[at - 1])
  {
    if x == k.last[k.origin[x].block] {
      PieceStmts(o, k.c, k.origin, k.last, x, at);
      var b, off := k.origin[x].block, k.origin[x].off;
      assert k.c.blocks[x].stmts[at - 1] == k.c.blocks[x].stmts[..at][at - 1] == o.blocks[b].stmts[off + at - 1];
    }
  }

  ghost function Without(pending: Edges, towards: set<Block>): Edges {
    map e | e in pending && e.1 !in towards :: pending[e]
  }

  /** `sources` are the pending edges into `towards`, each once, and `states` the states on them. */
  ghost predicate OneEach(pending: Edges, towards: set<Block>, sources: seq<(Block, Block)>, states: seq<HaltState>) {
    && |sources| == |states|
    && (forall i {:trigger states[i]} {:trigger sources[i]} :: 0 <= i < |states| ==>
          sources[i] in pending && sources[i].1 in towards && states[i] == pending[sources[i]])
    && (forall i, j :: 0 <= i < j < |sources| ==> sources[i] != sources[j])
    && (forall e {:trigger pending[e]} :: e in pending && e.1 in towards ==> e in sources)
  }

  /** `states` are the states of the edges into `towards`, one per edge. */
  ghost predicate Collected(pending: Edges, towards: set<Block>, states: seq<HaltState>) {
    exists sources :: OneEach(pending, towards, sources, states)
  }

  lemma DrainPendingOk(k: Book, outgoing: map<Block, map<Block, HaltState>>,
                       after: map<Block, map<Block, HaltState>>, pending: Edges, block: Block)
    requires PendingOk(k, outgoing, pending)
    requires Drained(outgoing, after, block) && after.Keys == outgoing.Keys
    ensures PendingOk(k, after, Without(pending, {block}))
  {
  }

  lemma AddPendingOk(o: Ir, k: Book, outgoing: map<Block, map<Block, HaltState>>,
                     after: map<Block, map<Block, HaltState>>, pending: Edges, a: Block, to: Block, state: HaltState)
    requires BookOk(o, k) && PendingOk(k, outgoing, pending) && a < |k.last|
    requires Updated(outgoing, after, k.last[a], to, state) && after.Keys == outgoing.Keys + {k.last[a]}
    ensures PendingOk(k, after, pending[(a, to) := state])
  {
    LastPieces(o, k, a);
    forall b: Block, y: Block | b < |k.last|
      ensures StateAt(after, k.last[b], y) == if b == a && y == to then Some(state) else StateAt(outgoing, k.last[b], y)
    {
      LastPieces(o, k, b);
    }
  }

  lemma DrainedAreCollected(o: Ir, k: Book, outgoing: map<Block, map<Block, HaltState>>, pending: Edges,
                            block: Block, drained: seq<(Block, HaltState)>, states: seq<HaltState>)
    requires BookOk(o, k) && PendingOk(k, outgoing, pending)
    requires HandsOut(outgoing, block, drained)
    requires |states| == |drained| && forall i :: 0 <= i < |states| ==> states[i] == drained[i].1
    ensures Collected(pending, {block}, states)
  {
    forall i | 0 <= i < |drained| ensures SourceOk(k, drained[i].0) {
    }
    var sources := seq(|drained|, i requires 0 <= i < |drained| => (k.origin[drained[i].0].block, block));
    forall e {:trigger pending[e]} | e in pending && e.1 in {block} ensures e in sources {
      assert StateAt(outgoing, k.last[e.0], block) == Some(pending[e]);
      var i :| 0 <= i < |drained| && drained[i] == (k.last[e.0], pending[e]);
      LastPieces(o, k, e.0);
      assert sources[i] == e;
    }
    forall i {:trigger states[i]} {:trigger sources[i]} | 0 <= i < |states|
      ensures sources[i] in pending && states[i] == pending[sources[i]]
    {
      assert (sources[i].0, block) in pending;
    }
    assert OneEach(pending, {block}, sources, states);
  }

  /** No state is stored under a block that does not exist yet. */
  lemma NewSource(k: Book, outgoing: map<Block, map<Block, HaltState>>, pending: Edges)
    requires PendingOk(k, outgoing, pending) && |k.origin| == |k.c.blocks|
    ensures |k.c.blocks| !in outgoing
  {
    assert |k.c.blocks| in outgoing ==> SourceOk(k, |k.c.blocks|);
  }

  /** Everything the inserter keeps track of, before and after a split. */
  lemma SplitKeepsBooks(o: Ir, k: Book, x: Block, at: nat, loc: Locations, newLoc: Locations,
                        outgoing: map<Block, map<Block, HaltState>>, after: map<Block, map<Block, HaltState>>,
                        pending: Edges)
    requires BookOk(o, k) && SizeOk(o, k) && CanSplit(k, x, at) && WellFormedIr(SplitAt(k.c, x, at))
    requires LocOk(k.c, loc) && AllRecorded(o, loc) && PendingOk(k, outgoing, pending)
    requires Relocated(loc, newLoc, x, at, |k.c.blocks[x].stmts| - at, |k.c.blocks|)
    requires Moved(outgoing, after, x, |k.c.blocks|) && after.Keys <= outgoing.Keys - {x} + {|k.c.blocks|}
    requires x !in outgoing ==> after == outgoing
    ensures BookOk(o, SplitBook(k, x, at)) && SizeOk(o, SplitBook(k, x, at))
    ensures LocOk(SplitAt(k.c, x, at), newLoc) && AllRecorded(o, newLoc)
    ensures PendingOk(SplitBook(k, x, at), after, pending)
  {
    SplitBookOk(o, k, x, at);
    RelocatedOk(k.c, loc, x, at, newLoc);
    SplitPendingOk(o, k, x, at, outgoing, after, pending);
  }

  class HaltCheckInserter {
    const ir: ExecIrBuilder
    const edges: HaltStateMap
    var safepointLoc: Locations
    var semanticResetAfter: set<Stmt>

    ghost const o: Ir
    ghost var origin: seq<Origin>
    ghost var last: seq<Block>
    ghost var checked: set<Stmt>
    ghost var pending: Edges

    ghost function View(): Book
      reads this, ir
    {
      Book(ir.View(), origin, last, checked)
    }

    ghost predicate Valid()
      reads this, ir, edges
    {
      && ir.Valid() && edges.Valid()
      && BookOk(o, View()) && SizeOk(o, View())
      && LocOk(ir.View(), safepointLoc)
      && AllRecorded(o, safepointLoc)
      && PendingOk(View(), edges.outgoingEdges, pending)
      && semanticResetAfter <= checked
    }

    constructor (ir: ExecIrBuilder)
      requires ir.Valid() && ir.leaveAndTakeHalt.None?
      ensures this.ir == ir && fresh(edges) && Valid()
      ensures o == ir.View() && origin == IdentityOrigin(o) && last == IdentityLast(o)
      ensures checked == {} && pending == map[] && semanticResetAfter == {}
    {
      this.ir := ir;
      edges := new HaltStateMap();
      o := ir.View();
      origin, last := IdentityOrigin(ir.View()), IdentityLast(ir.View());
      checked, pending, semanticResetAfter := {}, map[], {};
      safepointLoc := map[];
      new;
      RecordSafepoints();
      RefinesSelf(o);
    }

    /** Records where every safepoint sits; no safepoint is found twice. */
    method RecordSafepoints()
      requires ir.Valid() && safepointLoc == map[]
      modifies this`safepointLoc
      ensures LocOk(ir.View(), safepointLoc)
    {
      var block: nat := 0;
      while block < |ir.blocks|
        invariant block <= |ir.blocks|
        invariant RecordedUpTo(ir.View(), safepointLoc, block, 0)
      {
        var i := 0;
        while i < |ir.blocks[block].stmts|
          invariant 0 <= i <= |ir.blocks[block].stmts|
          invariant RecordedUpTo(ir.View(), safepointLoc, block, i)
        {
          var stmt := ir.blocks[block].stmts[i];
          assert At(ir.blocks, block, i, stmt);
          assert BlockOk(ir.blocks[block], |ir.blocks|, |ir.stmts|, ir.ssaValues) && stmt in ir.blocks[block].stmts;
          if ir.stmts[stmt].rvalue.Safepoint? {
            assert stmt !in safepointLoc;
            safepointLoc := safepointLoc[stmt := (block, i)];
          }
          i := i + 1;
        }
        block := block + 1;
      }
    }

    /** Inserts a halt check after the safepoint at `stmtIndex` and returns the continuation block. */
    method InsertHaltCheckAfterSafepointIndexed(block: Block, stmtIndex: nat) returns (continuation: Block)
      requires Valid() && CanSplit(View(), block, stmtIndex + 1)
      modifies this`safepointLoc, this`origin, this`last, this`checked, ir, edges
      ensures Valid() && View() == SplitBook(old(View()), block, stmtIndex + 1)
      ensures safepointLoc.Keys == old(safepointLoc.Keys)
      ensures continuation == |old(ir.blocks)|
    {
      ghost var n := SplitBook(View(), block, stmtIndex + 1);
      continuation := SplitAfter(block, stmtIndex + 1);
      origin, last, checked := n.origin, n.last, n.checked;
      assert View() == n;
    }

    /** The split itself: the program, the recorded positions, and the pending edges. */
    method SplitAfter(block: Block, at: nat) returns (continuation: Block)
      requires Valid() && CanSplit(View(), block, at)
      modifies this`safepointLoc, ir, edges
      ensures ir.Valid() && edges.Valid() && ir.View() == SplitAt(old(ir.View()), block, at)
      ensures BookOk(o, SplitBook(old(View()), block, at)) && SizeOk(o, SplitBook(old(View()), block, at))
      ensures LocOk(ir.View(), safepointLoc) && AllRecorded(o, safepointLoc)
      ensures PendingOk(SplitBook(old(View()), block, at), edges.outgoingEdges, pending)
      ensures safepointLoc.Keys == old(safepointLoc.Keys) && continuation == |old(ir.blocks)|
    {
      ghost var k, before := View(), safepointLoc;
      NewSource(k, edges.outgoingEdges, pending);
      continuation := ir.InsertHaltCheckAt(block, at);
      Relocate(block, at, continuation, k.c);
      edges.MoveSource(block, continuation);
      SplitKeepsBooks(o, k, block, at, before, safepointLoc, old(edges.outgoingEdges), edges.outgoingEdges, pending);
    }

    /** Inserts a halt check after an earlier safepoint; states that saw it are corrected lazily. */
    method InsertCompensatingHaltCheckAfterSafepoint(at: Stmt) returns (continuation: Block)
      requires Valid() && at in safepointLoc && at !in checked
      modifies this`safepointLoc, this`origin, this`last, this`checked, this`semanticResetAfter, ir, edges
      ensures Valid() && safepointLoc.Keys == old(safepointLoc.Keys)
      ensures checked == old(checked) + {at} && semanticResetAfter == old(semanticResetAfter) + {at}
      ensures LastsSameBut(o, old(last), last, at)
    {
      assert at !in semanticResetAfter;
      LocateSafepoint(o, View(), safepointLoc, at);
      var (block, stmtIndex) := safepointLoc[at];
      SplitLastSameBut(o, View(), block, stmtIndex + 1);
      continuation := InsertHaltCheckAfterSafepointIndexed(block, stmtIndex);
      semanticResetAfter := semanticResetAfter + {at};
    }

    /** Takes the states waiting on the edges into `block`. */
    method DrainIncoming(block: Block) returns (states: seq<HaltState>)
      requires Valid()
      modifies this`pending, edges
      ensures Valid() && pending == Without(old(pending), {block})
      ensures Collected(old(pending), {block}, states)
    {
      var drained := edges.DrainIncoming(block);
      states := seq(|drained|, i requires 0 <= i < |drained| => drained[i].1);
      DrainPendingOk(View(), old(edges.outgoingEdges), edges.outgoingEdges, pending, block);
      DrainedAreCollected(o, View(), old(edges.outgoingEdges), pending, block, drained, states);
      pending := Without(pending, {block});
    }

    /** Stores the state at the end of `a`, whose last piece is `from`, on the edge to `to`. */
    method AddEdge(from: Block, to: Block, state: HaltState, ghost a: Block) returns (previous: Option<HaltState>)
      requires Valid() && a < |last| && last[a] == from && (a, to) !in pending
      modifies this`pending, edges
      ensures Valid() && previous.None? && pending == old(pending)[(a, to) := state]
    {
      previous := edges.AddEdge(from, to, state);
      AddPendingOk(o, View(), old(edges.outgoingEdges), edges.outgoingEdges, pending, a, to, state);
      pending := pending[(a, to) := state];
    }

    /** Gives the safepoints moved to `continuation` their new position. */
    method Relocate(block: Block, at: nat, continuation: Block, ghost c: Ir)
      requires WellFormedIr(c) && LocOk(c, safepointLoc) && block < |c.blocks| && at <= |c.blocks[block].stmts|
      requires ir.Valid() && ir.View() == SplitAt(c, block, at) && continuation == |c.blocks|
      modifies this`safepointLoc
      ensures Relocated(old(safepointLoc), safepointLoc, block, at, |c.blocks[block].stmts| - at, continuation)
    {
      SplitAtIsSplit(c, block, at);
      var i := 0;
      while i < |ir.blocks[continuation].stmts|
        invariant 0 <= i <= |ir.blocks[continuation].stmts|
        invariant Relocated(old(safepointLoc), safepointLoc, block, at, i, continuation)
      {
        var stmt := ir.blocks[continuation].stmts[i];
        RelocateStep(c, ir.View(), old(safepointLoc), safepointLoc, block, at, i);
        if ir.stmts[stmt].rvalue.Safepoint? {
          assert safepointLoc[stmt] == (block, at + i);
          safepointLoc := safepointLoc[stmt := (continuation, i)];
        }
        i := i + 1;
      }
    }
  }

  /** Everything before position `i` of block `n` has been scanned. */
  ghost predicate RecordedUpTo(c: Ir, loc: Locations, n: nat, i: nat) {
    && (forall x: Block, j, s: Stmt {:trigger At(c.blocks, x, j, s)} ::
          At(c.blocks, x, j, s) && IsSafepoint(c, s) && (x < n || (x == n && j < i)) ==> s in loc && loc[s] == (x, j))
    && (forall s {:trigger loc[s]} :: s in loc ==>
          At(c.blocks, loc[s].0, loc[s].1, s) && IsSafepoint(c, s)
          && (loc[s].0 < n || (loc[s].0 == n && loc[s].1 < i)))
  }
}
