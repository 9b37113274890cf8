/**
 How the rewritten blocks relate to the original ones.  Inserting halt checks
 cuts an original block into pieces; every piece but the last ends in a checked
 safepoint, a load of the halt word and a branch to the next piece or to the
 shared exit block.
 */
module BlockSplitting {
  import opened Wrappers
  import opened ExecIr

  /** `Piece(b, off)`: holds the statements of original block `b` from `off` on. */
  datatype Origin = Piece(block: Block, off: nat) | Leave

  /** The last piece of a block: the remaining statements and the original terminator. */
  ghost predicate WholeOk(ob: BlockData, d: BlockData, off: nat) {
    && off <= |ob.stmts|
    && d.stmts == ob.stmts[off..]
    && d.terminator == ob.terminator
  }

  /** A piece ended by a halt check: original statements up to a safepoint, then the check. */
  ghost predicate CheckedOk(o: Ir, c: Ir, origin: seq<Origin>, ob: BlockData, d: BlockData, b: Block, off: nat) {
    var n := |d.stmts| - 1;
    && n >= 1 && off + n <= |ob.stmts|
    && d.stmts[..n] == ob.stmts[off..off + n]
    && IsSafepoint(o, d.stmts[n - 1])
    && d.stmts[n] < |c.stmts|
    && HaltCheck(o, c, origin, c.stmts[d.stmts[n]], d.terminator, Piece(b, off + n))
  }

  /** The load of the halt word into a fresh value and the branch on it. */
  ghost predicate HaltCheck(o: Ir, c: Ir, origin: seq<Origin>, load: StmtData, t: Terminator, rest: Origin) {
    && load.rvalue == LoadHaltReason && load.inputs == [] && |load.outputs| == 1
    && load.outputs[0] >= o.ssaValues
    && t.BrZ? && t.cond == load.outputs[0]
    && t.zero.parameters == [] && t.nonZero.parameters == []
    && |o.blocks| <= t.zero.target < |origin| && origin[t.zero.target] == rest
    && c.leave == Some(t.nonZero.target)
  }

  ghost predicate PieceOk(o: Ir, c: Ir, origin: seq<Origin>, last: seq<Block>, x: Block)
    requires x < |origin| == |c.blocks| && origin[x].Piece?
  {
    var b, off := origin[x].block, origin[x].off;
    && b < |o.blocks| && b < |last|
    && (if x == last[b] then WholeOk(o.blocks[b], c.blocks[x], off)
        else CheckedOk(o, c, origin, o.blocks[b], c.blocks[x], b, off))
  }

  /** The exit block takes the halt word and returns it. */
  ghost predicate LeaveOk(o: Ir, c: Ir, d: BlockData) {
    && |d.stmts| == 1 && |o.stmts| <= d.stmts[0] < |c.stmts|
    && var take := c.stmts[d.stmts[0]];
       && take.rvalue == TakeHaltReason && take.inputs == [] && |take.outputs| == 1
       && take.outputs[0] >= o.ssaValues
       && d.terminator == ReturnCode(take.outputs[0])
  }

  ghost predicate OriginOk(o: Ir, c: Ir, origin: seq<Origin>, last: seq<Block>, x: Block)
    requires x < |origin| == |c.blocks|
  {
    match origin[x]
    case Piece(_, _) => PieceOk(o, c, origin, last, x) && (x >= |o.blocks| ==> c.blocks[x].parameters == [])
    case Leave => c.leave == Some(x) && LeaveOk(o, c, c.blocks[x]) && c.blocks[x].parameters == []
  }

  /** The first piece of an original block keeps its handle and parameters; `last` names the last piece. */
  ghost predicate HeadOk(o: Ir, c: Ir, origin: seq<Origin>, last: seq<Block>, b: Block)
    requires b < |o.blocks| <= |c.blocks| && |origin| == |c.blocks| && |last| == |o.blocks|
  {
    && origin[b] == Piece(b, 0)
    && c.blocks[b].parameters == o.blocks[b].parameters
    && last[b] < |origin| && origin[last[b]].Piece? && origin[last[b]].block == b
  }

  ghost predicate Refines(o: Ir, c: Ir, origin: seq<Origin>, last: seq<Block>) {
    && |origin| == |c.blocks| && |o.blocks| <= |c.blocks| && |last| == |o.blocks|
    && o.stmts <= c.stmts && o.ssaValues <= c.ssaValues
    && (c.leave.Some? ==> c.leave.value < |origin| && origin[c.leave.value].Leave?)
    && (forall b: Block {:trigger HeadOk(o, c, origin, last, b)} :: b < |o.blocks| ==> HeadOk(o, c, origin, last, b))
    && (forall x: Block {:trigger OriginOk(o, c, origin, last, x)} :: x < |origin| ==> OriginOk(o, c, origin, last, x))
  }

  /** Nothing has been split yet. */
  function IdentityOrigin(o: Ir): (origin: seq<Origin>)
    ensures |origin| == |o.blocks| && forall b :: 0 <= b < |origin| ==> origin[b] == Piece(b, 0)
  {
    seq(|o.blocks|, (b: nat) => Piece(b, 0))
  }

  function IdentityLast(o: Ir): (last: seq<Block>)
    ensures |last| == |o.blocks| && forall b :: 0 <= b < |last| ==> last[b] == b
  {
    seq(|o.blocks|, (b: nat) => b)
  }

  lemma RefinesSelf(o: Ir)
    requires o.leave.None?
    ensures Refines(o, o, IdentityOrigin(o), IdentityLast(o))
  {
    forall x: Block {:trigger OriginOk(o, o, IdentityOrigin(o), IdentityLast(o), x)} | x < |o.blocks|
      ensures OriginOk(o, o, IdentityOrigin(o), IdentityLast(o), x)
    {
      assert o.blocks[x].stmts[0..] == o.blocks[x].stmts;
    }
  }

  /** A piece whose halt check follows the safepoint at the end of its original statements. */
  predicate EndsChecked(c: Ir, origin: seq<Origin>, last: seq<Block>, x: Block) {
    && x < |origin| && x < |c.blocks|
    && origin[x].Piece? && origin[x].block < |last| && x != last[origin[x].block]
    && |c.blocks[x].stmts| >= 2
  }

  /** Safepoint `s` is immediately followed by a halt check. */
  ghost predicate CheckedAfter(c: Ir, origin: seq<Origin>, last: seq<Block>, s: Stmt) {
    exists x: Block :: EndsChecked(c, origin, last, x) && c.blocks[x].stmts[|c.blocks[x].stmts| - 2] == s
  }

  // ---------------------------------------------------------------------
  // One more halt check

  function SplitOrigin(c: Ir, origin: seq<Origin>, x: Block, at: nat): seq<Origin>
    requires x < |origin| && origin[x].Piece?
  {
    origin + [Piece(origin[x].block, origin[x].off + at)] + (if c.leave.None? then [Leave] else [])
  }

  function SplitLast(c: Ir, origin: seq<Origin>, last: seq<Block>, x: Block): seq<Block>
    requires x < |origin| && origin[x].Piece? && origin[x].block < |last|
  {
    var b := origin[x].block;
    if x == last[b] then last[b := |c.blocks|] else last
  }

  /** The safepoint before position `at` of piece `x` exists and has no halt check yet. */
  ghost predicate Splittable(c: Ir, origin: seq<Origin>, last: seq<Block>, x: Block, at: nat) {
    && x < |origin| == |c.blocks| && origin[x].Piece? && origin[x].block < |last|
    && 0 < at <= |c.blocks[x].stmts| && IsSafepoint(c, c.blocks[x].stmts[at - 1])
    && (x != last[origin[x].block] ==> at + 1 < |c.blocks[x].stmts|)
  }

  /** `s` is `c` with piece `x` cut at `at`: everything the proofs need to know about `SplitAt`. */
  ghost predicate IsSplit(c: Ir, x: Block, at: nat, s: Ir)
    requires x < |c.blocks| && at <= |c.blocks[x].stmts|
  {
    && |s.blocks| == |c.blocks| + (if c.leave.None? then 2 else 1)
    && s.leave == (if c.leave.None? then Some(|c.blocks| + 1) else c.leave)
    && c.stmts <= s.stmts && c.ssaValues <= s.ssaValues
    && (forall y: Block :: y < |c.blocks| && y != x ==> s.blocks[y] == c.blocks[y])
    && IsRest(c.blocks[x], at, s.blocks[|c.blocks|])
    && IsHead(c, c.blocks[x], at, s, s.blocks[x])
    && (c.leave.None? ==> LeaveOk(c, s, s.blocks[|c.blocks| + 1]) && s.blocks[|c.blocks| + 1].parameters == [])
  }

  ghost predicate IsRest(d: BlockData, at: nat, rest: BlockData)
    requires at <= |d.stmts|
  {
    rest.stmts == d.stmts[at..] && rest.terminator == d.terminator && rest.parameters == []
  }

  ghost predicate IsHead(c: Ir, d: BlockData, at: nat, s: Ir, head: BlockData)
    requires at <= |d.stmts|
  {
    && head.parameters == d.parameters
    && |head.stmts| == at + 1 && head.stmts[..at] == d.stmts[..at]
    && |c.stmts| <= head.stmts[at] < |s.stmts| && s.leave.Some?
    && var load := s.stmts[head.stmts[at]];
       && load.rvalue == LoadHaltReason && load.inputs == [] && |load.outputs| == 1
       && c.ssaValues <= load.outputs[0]
       && head.terminator == BrZ(load.outputs[0], Jump(|c.blocks|, []), Jump(s.leave.value, []))
  }

  lemma SplitAtIsSplit(c: Ir, x: Block, at: nat)
    requires WellFormedIr(c) && x < |c.blocks| && at <= |c.blocks[x].stmts|
    ensures IsSplit(c, x, at, SplitAt(c, x, at))
  {
    var left := WithLeave(CutAt(c, x, at));
    var s := SplitAt(c, x, at);
    assert s.stmts[|left.stmts|] == StmtData([], [left.ssaValues], LoadHaltReason);
    if c.leave.None? {
      assert s.blocks[|c.blocks| + 1] == left.blocks[|c.blocks| + 1];
    }
  }

  /** The head and the exit block are terminated, and the rest is if the block was. */
  lemma SplitTerminates(c: Ir, x: Block, at: nat)
    requires x < |c.blocks| && at <= |c.blocks[x].stmts|
    ensures var s := SplitAt(c, x, at);
      && s.blocks[x].terminated && s.blocks[|c.blocks|].terminated == c.blocks[x].terminated
      && (c.leave.None? ==> s.blocks[|c.blocks| + 1].terminated)
  {
  }

  /** A piece that is not being split stays what it was. */
  lemma SplitKeepsPiece(o: Ir, c: Ir, origin: seq<Origin>, last: seq<Block>, x: Block, at: nat, s: Ir, y: Block)
    requires Refines(o, c, origin, last) && Splittable(c, origin, last, x, at) && IsSplit(c, x, at, s)
    requires y < |origin| && y != x
    ensures |SplitOrigin(c, origin, x, at)| == |s.blocks|
      && OriginOk(o, s, SplitOrigin(c, origin, x, at), SplitLast(c, origin, last, x), y)
  {
    assert OriginOk(o, c, origin, last, y) && OriginOk(o, c, origin, last, x);
    if origin[y].Piece? && y != last[origin[y].block] {
      var n := |c.blocks[y].stmts| - 1;
      assert CheckedOk(o, c, origin, o.blocks[origin[y].block], c.blocks[y], origin[y].block, origin[y].off);
      var k := c.blocks[y].stmts[n];
      assert k < |c.stmts| <= |s.stmts| && s.stmts[k] == c.stmts[k];
    }
  }

  lemma SplitHeadPiece(o: Ir, c: Ir, origin: seq<Origin>, last: seq<Block>, x: Block, at: nat, s: Ir)
    requires Refines(o, c, origin, last) && Splittable(c, origin, last, x, at) && IsSplit(c, x, at, s)
    requires OriginalStmts(o, c, origin, last, x, at)
    ensures |SplitOrigin(c, origin, x, at)| == |s.blocks|
      && OriginOk(o, s, SplitOrigin(c, origin, x, at), SplitLast(c, origin, last, x), x)
  {
    assert OriginOk(o, c, origin, last, x);
    assert s.blocks[x].stmts[at - 1] == c.blocks[x].stmts[..at][at - 1];
  }

  /** The first `at` statements of a piece are original statements. */
  ghost predicate OriginalStmts(o: Ir, c: Ir, origin: seq<Origin>, last: seq<Block>, x: Block, at: nat)
    requires x < |origin| == |c.blocks| && origin[x].Piece?
  {
    var b, off := origin[x].block, origin[x].off;
    && b < |o.blocks| && off + at <= |o.blocks[b].stmts| && at <= |c.blocks[x].stmts|
    && c.blocks[x].stmts[..at] == o.blocks[b].stmts[off..off + at]
    && forall i :: 0 <= i < at ==> c.blocks[x].stmts[i] < |o.stmts|
  }

  lemma PieceStmts(o: Ir, c: Ir, origin: seq<Origin>, last: seq<Block>, x: Block, at: nat)
    requires WellFormedIr(o) && Refines(o, c, origin, last)
    requires x < |origin| && origin[x].Piece? && origin[x].block < |last|
    requires at <= |c.blocks[x].stmts| && (x != last[origin[x].block] ==> at < |c.blocks[x].stmts|)
    ensures OriginalStmts(o, c, origin, last, x, at)
  {
    assert OriginOk(o, c, origin, last, x);
    var b, off := origin[x].block, origin[x].off;
    var ob, d := o.blocks[b], c.blocks[x];
    assert BlockOk(ob, |o.blocks|, |o.stmts|, o.ssaValues);
    if x != last[b] {
      var n := |d.stmts| - 1;
      assert d.stmts[..at] == d.stmts[..n][..at];
      assert ob.stmts[off..off + n][..at] == ob.stmts[off..off + at];
    } else {
      assert ob.stmts[off..][..at] == ob.stmts[off..off + at];
    }
    forall i | 0 <= i < at ensures d.stmts[i] < |o.stmts| {
      assert d.stmts[i] == d.stmts[..at][i] == ob.stmts[off + i];
      assert ob.stmts[off + i] in ob.stmts;
    }
  }

  lemma SplitRestPiece(o: Ir, c: Ir, origin: seq<Origin>, last: seq<Block>, x: Block, at: nat, s: Ir)
    requires Refines(o, c, origin, last) && Splittable(c, origin, last, x, at) && IsSplit(c, x, at, s)
    ensures |SplitOrigin(c, origin, x, at)| == |s.blocks|
      && OriginOk(o, s, SplitOrigin(c, origin, x, at), SplitLast(c, origin, last, x), |c.blocks|)
  {
    assert OriginOk(o, c, origin, last, x);
    var b, off := origin[x].block, origin[x].off;
    var d, rest := c.blocks[x], s.blocks[|c.blocks|];
    if x == last[b] {
      assert d.stmts[at..] == o.blocks[b].stmts[off + at..];
    } else {
      var n := |d.stmts| - 1;
      var m := n - at;
      assert rest.stmts[m] == d.stmts[n] && rest.stmts[m - 1] == d.stmts[n - 1];
      assert rest.stmts[..m] == d.stmts[..n][at..];
      assert o.blocks[b].stmts[off..off + n][at..] == o.blocks[b].stmts[off + at..off + at + m];
      assert s.stmts[d.stmts[n]] == c.stmts[d.stmts[n]];
      assert HeadOk(o, c, origin, last, b);
      assert last[b] != |c.blocks|;
    }
  }

  /** Inserting a halt check after an unchecked safepoint keeps the refinement. */
  lemma SplitRefines(o: Ir, c: Ir, origin: seq<Origin>, last: seq<Block>, x: Block, at: nat)
    requires WellFormedIr(o) && WellFormedIr(c) && Refines(o, c, origin, last) && Splittable(c, origin, last, x, at)
    ensures Refines(o, SplitAt(c, x, at), SplitOrigin(c, origin, x, at), SplitLast(c, origin, last, x))
  {
    SplitAtIsSplit(c, x, at);
    AnySplitRefines(o, c, origin, last, x, at, SplitAt(c, x, at));
  }

  lemma AnySplitRefines(o: Ir, c: Ir, origin: seq<Origin>, last: seq<Block>, x: Block, at: nat, s: Ir)
    requires WellFormedIr(o) && Refines(o, c, origin, last) && Splittable(c, origin, last, x, at)
    requires IsSplit(c, x, at, s)
    ensures Refines(o, s, SplitOrigin(c, origin, x, at), SplitLast(c, origin, last, x))
  {
    var origin', last' := SplitOrigin(c, origin, x, at), SplitLast(c, origin, last, x);
    PieceStmts(o, c, origin, last, x, at);
    forall b: Block {:trigger HeadOk(o, s, origin', last', b)} | b < |o.blocks|
      ensures HeadOk(o, s, origin', last', b)
    {
      assert HeadOk(o, c, origin, last, b);
      assert OriginOk(o, c, origin, last, x);
    }
    forall y: Block {:trigger OriginOk(o, s, origin', last', y)} | y < |origin'|
      ensures OriginOk(o, s, origin', last', y)
    {
      if y == x {
        SplitHeadPiece(o, c, origin, last, x, at, s);
      } else if y < |origin| {
        SplitKeepsPiece(o, c, origin, last, x, at, s, y);
      } else if y == |origin| {
        SplitRestPiece(o, c, origin, last, x, at, s);
      }
    }
  }

  lemma SplitAddsCheck(o: Ir, c: Ir, origin: seq<Origin>, last: seq<Block>, x: Block, at: nat, s: Ir, t: Stmt)
    requires Refines(o, c, origin, last) && Splittable(c, origin, last, x, at) && IsSplit(c, x, at, s)
    requires CheckedAfter(c, origin, last, t) || t == c.blocks[x].stmts[at - 1]
    ensures CheckedAfter(s, SplitOrigin(c, origin, x, at), SplitLast(c, origin, last, x), t)
  {
    var origin', last' := SplitOrigin(c, origin, x, at), SplitLast(c, origin, last, x);
    assert OriginOk(o, c, origin, last, x);
    assert HeadOk(o, c, origin, last, origin[x].block);
    if t == c.blocks[x].stmts[at - 1] {
      assert s.blocks[x].stmts[at - 1] == c.blocks[x].stmts[..at][at - 1];
      assert EndsChecked(s, origin', last', x);
    } else {
      var y: Block :| EndsChecked(c, origin, last, y) && c.blocks[y].stmts[|c.blocks[y].stmts| - 2] == t;
      assert OriginOk(o, c, origin, last, y);
      assert EndsChecked(s, origin', last', if y == x then |c.blocks| else y);
    }
  }

  lemma SplitAddsOneCheck(o: Ir, c: Ir, origin: seq<Origin>, last: seq<Block>, x: Block, at: nat, s: Ir, t: Stmt)
    requires Refines(o, c, origin, last) && Splittable(c, origin, last, x, at) && IsSplit(c, x, at, s)
    requires CheckedAfter(s, SplitOrigin(c, origin, x, at), SplitLast(c, origin, last, x), t)
    ensures CheckedAfter(c, origin, last, t) || t == c.blocks[x].stmts[at - 1]
  {
    var origin', last' := SplitOrigin(c, origin, x, at), SplitLast(c, origin, last, x);
    assert OriginOk(o, c, origin, last, x);
    assert HeadOk(o, c, origin, last, origin[x].block);
    var y: Block :| EndsChecked(s, origin', last', y) && s.blocks[y].stmts[|s.blocks[y].stmts| - 2] == t;
    if y == x {
      assert s.blocks[x].stmts[at - 1] == c.blocks[x].stmts[..at][at - 1];
    } else if y < |c.blocks| {
      assert OriginOk(o, c, origin, last, y);
      assert EndsChecked(c, origin, last, y);
    } else {
      assert y == |c.blocks|;
      assert EndsChecked(c, origin, last, x);
    }
  }

  ghost predicate CheckedAfterSplit(c: Ir, origin: seq<Origin>, last: seq<Block>, x: Block, at: nat, t: Stmt)
    requires Splittable(c, origin, last, x, at)
  {
    CheckedAfter(SplitAt(c, x, at), SplitOrigin(c, origin, x, at), SplitLast(c, origin, last, x), t)
  }

  /** Exactly one safepoint becomes checked. */
  lemma SplitChecks(o: Ir, c: Ir, origin: seq<Origin>, last: seq<Block>, x: Block, at: nat, t: Stmt)
    requires WellFormedIr(c) && Refines(o, c, origin, last) && Splittable(c, origin, last, x, at)
    ensures CheckedAfterSplit(c, origin, last, x, at, t)
      <==> CheckedAfter(c, origin, last, t) || t == c.blocks[x].stmts[at - 1]
  {
    var s := SplitAt(c, x, at);
    SplitAtIsSplit(c, x, at);
    if CheckedAfter(c, origin, last, t) || t == c.blocks[x].stmts[at - 1] {
      SplitAddsCheck(o, c, origin, last, x, at, s, t);
    }
    if CheckedAfterSplit(c, origin, last, x, at, t) {
      SplitAddsOneCheck(o, c, origin, last, x, at, s, t);
    }
  }
}
