/**
 The sharded address locks: which shards an access takes and in which order, and
 what any number of threads can and cannot do to each other with them.
 */
module ShardLocks {

  const SHARDED_LOCK_COUNT: nat := 127
  const CACHE_LINE_SIZE: nat := 64

  type Shard = nat

  /** The shards of the cache lines that the `n` bytes at `a` touch. */
  ghost predicate Touches(a: nat, n: nat, s: Shard) {
    exists line: nat {:trigger line % SHARDED_LOCK_COUNT} ::
      a / CACHE_LINE_SIZE <= line < (a + n + CACHE_LINE_SIZE - 1) / CACHE_LINE_SIZE && n > 0
      && line % SHARDED_LOCK_COUNT == s
  }

  ghost predicate Ascending(plan: seq<Shard>) {
    forall i, j :: 0 <= i < j < |plan| ==> plan[i] < plan[j]
  }

  /** The shards of an access of at most one cache line's width: one, or two in ascending order. */
  function ScalarPlan(a: nat, size: nat): seq<Shard>
    requires 1 <= size <= CACHE_LINE_SIZE
  {
    var iLine, jLine := a / CACHE_LINE_SIZE, (a + size - 1) / CACHE_LINE_SIZE;
    if iLine == jLine then [iLine % SHARDED_LOCK_COUNT]
    else
      var i, j := iLine % SHARDED_LOCK_COUNT, jLine % SHARDED_LOCK_COUNT;
      if i < j then [i, j] else [j, i]
  }

  function Interval(from: Shard, to: Shard): (r: seq<Shard>)
    requires from <= to
    ensures |r| == to - from && forall i :: 0 <= i < |r| ==> r[i] == from + i
  {
    seq(to - from, (i: nat) => from + i)
  }

  /** The shards of a bulk copy, as one or two ascending runs. */
  function BulkPlan(a: nat, count: nat): seq<Shard> {
    if count == 0 then []
    else
      var start, end := a / CACHE_LINE_SIZE, (a + count - 1) / CACHE_LINE_SIZE;
      var lines := end - start + 1;
      if lines >= SHARDED_LOCK_COUNT then Interval(0, SHARDED_LOCK_COUNT)
      else
        var first, last := start % SHARDED_LOCK_COUNT, end % SHARDED_LOCK_COUNT;
        if first <= last then Interval(first, last + 1)
        else Interval(0, last + 1) + Interval(first, SHARDED_LOCK_COUNT)
  }

  lemma LastLine(a: nat, n: nat)
    requires n > 0
    ensures (a + n + CACHE_LINE_SIZE - 1) / CACHE_LINE_SIZE == (a + n - 1) / CACHE_LINE_SIZE + 1
  {
  }

  /** A line gives its shard to the access exactly when it is one of the lines touched. */
  lemma TouchedLine(a: nat, n: nat, line: nat)
    requires n > 0 && a / CACHE_LINE_SIZE <= line <= (a + n - 1) / CACHE_LINE_SIZE
    ensures Touches(a, n, line % SHARDED_LOCK_COUNT)
  {
    LastLine(a, n);
  }

  lemma Shards(line: nat, start: nat)
    requires start <= line < start + SHARDED_LOCK_COUNT
    ensures var f := start % SHARDED_LOCK_COUNT;
      line % SHARDED_LOCK_COUNT
      == if f + (line - start) < SHARDED_LOCK_COUNT then f + (line - start) else f + (line - start) - SHARDED_LOCK_COUNT
  {
  }

  /** The scalar plan lists exactly the touched shards, each once, smallest first. */
  lemma ScalarPlanOk(a: nat, size: nat)
    requires 1 <= size <= CACHE_LINE_SIZE
    ensures Ascending(ScalarPlan(a, size))
    ensures forall s {:trigger Touches(a, size, s)} :: s in ScalarPlan(a, size) <==> Touches(a, size, s)
  {
    var i, j := a / CACHE_LINE_SIZE, (a + size - 1) / CACHE_LINE_SIZE;
    assert i <= j <= i + 1;
    Shards(j, i);
    TouchedLine(a, size, i);
    TouchedLine(a, size, j);
    forall s {:trigger Touches(a, size, s)} ensures s in ScalarPlan(a, size) <==> Touches(a, size, s) {
      if Touches(a, size, s) {
        var line: nat :| a / CACHE_LINE_SIZE <= line < (a + size + CACHE_LINE_SIZE - 1) / CACHE_LINE_SIZE
                         && line % SHARDED_LOCK_COUNT == s;
        LastLine(a, size);
        assert line == i || line == j;
      }
    }
  }

  /** Some line of a run of `lines` lines has shard `s`. */
  lemma LineOf(start: nat, lines: nat, s: Shard) returns (line: nat)
    requires s < SHARDED_LOCK_COUNT
    requires var f := start % SHARDED_LOCK_COUNT;
      if s >= f then s - f < lines else s + SHARDED_LOCK_COUNT - f < lines
    ensures start <= line < start + lines && line % SHARDED_LOCK_COUNT == s
  {
    var f := start % SHARDED_LOCK_COUNT;
    line := if s >= f then start + (s - f) else start + (s + SHARDED_LOCK_COUNT - f);
    Shards(line, start);
  }

  /** The bulk plan lists exactly the touched shards, each once, in ascending order, saturated or wrapped. */
  lemma BulkPlanOk(a: nat, count: nat)
    ensures Ascending(BulkPlan(a, count))
    ensures forall s {:trigger Touches(a, count, s)} :: s in BulkPlan(a, count) <==> Touches(a, count, s)
  {
    forall s {:trigger Touches(a, count, s)} ensures s in BulkPlan(a, count) <==> Touches(a, count, s) {
      if count > 0 {
        BulkPlanShard(a, count, s);
      }
    }
  }

  lemma BulkPlanShard(a: nat, count: nat, s: Shard)
    requires count > 0
    ensures s in BulkPlan(a, count) <==> Touches(a, count, s)
  {
    var start, end := a / CACHE_LINE_SIZE, (a + count - 1) / CACHE_LINE_SIZE;
    var lines := end - start + 1;
    InBulkPlan(a, count, s);
    if s in BulkPlan(a, count) {
      Shards(end, if lines >= SHARDED_LOCK_COUNT then end else start);
      var line := LineOf(start, lines, s);
      TouchedLine(a, count, line);
    }
    if Touches(a, count, s) {
      LastLine(a, count);
      var line: nat :| start <= line <= end && line % SHARDED_LOCK_COUNT == s;
      if lines < SHARDED_LOCK_COUNT {
        Shards(line, start);
        Shards(end, start);
      }
    }
  }

  lemma InBulkPlan(a: nat, count: nat, s: Shard)
    requires count > 0
    ensures var start, end := a / CACHE_LINE_SIZE, (a + count - 1) / CACHE_LINE_SIZE;
      var first, last := start % SHARDED_LOCK_COUNT, end % SHARDED_LOCK_COUNT;
      s in BulkPlan(a, count) <==>
        s < SHARDED_LOCK_COUNT
        && (end - start + 1 >= SHARDED_LOCK_COUNT
            || (if first <= last then first <= s <= last else s <= last || s >= first))
  {
    var start, end := a / CACHE_LINE_SIZE, (a + count - 1) / CACHE_LINE_SIZE;
    var first, last := start % SHARDED_LOCK_COUNT, end % SHARDED_LOCK_COUNT;
    if end - start + 1 >= SHARDED_LOCK_COUNT {
      InInterval(0, SHARDED_LOCK_COUNT, s);
    } else if first <= last {
      InInterval(first, last + 1, s);
    } else {
      InInterval(0, last + 1, s);
      InInterval(first, SHARDED_LOCK_COUNT, s);
    }
  }

  lemma InInterval(from: Shard, to: Shard, s: Shard)
    requires from <= to
    ensures s in Interval(from, to) <==> from <= s < to
  {
    if from <= s < to {
      assert Interval(from, to)[s - from] == s;
    }
  }

  // ---------------------------------------------------------------------
  // Threads

  datatype Access = Scalar(addr: nat, size: nat, write: bool) | Bulk(addr: nat, size: nat, write: bool)

  predicate AccessOk(x: Access) {
    x.Scalar? ==> 1 <= x.size <= CACHE_LINE_SIZE
  }

  function Plan(x: Access): seq<Shard>
    requires AccessOk(x)
  {
    match x
    case Scalar(a, size, _) => ScalarPlan(a, size)
    case Bulk(a, size, _) => BulkPlan(a, size)
  }

  lemma PlanOk(x: Access)
    requires AccessOk(x)
    ensures Ascending(Plan(x))
    ensures forall s {:trigger Touches(x.addr, x.size, s)} :: s in Plan(x) <==> Touches(x.addr, x.size, s)
  {
    match x
    case Scalar(a, size, _) => ScalarPlanOk(a, size);
    case Bulk(a, size, _) => BulkPlanOk(a, size);
  }

  /** `Acquiring(next, queued)`: holds the first `next` shards and may be parked on the next one. */
  datatype Phase = Idle | Acquiring(next: nat, queued: bool) | Working | Releasing(rest: set<Shard>)

  /** `todo[0]` is the current access. */
  datatype Thread = Thread(todo: seq<Access>, phase: Phase)

  predicate ThreadOk(th: Thread) {
    && (forall i :: 0 <= i < |th.todo| ==> AccessOk(th.todo[i]))
    && (th.phase.Idle? || th.todo != [])
    && (th.phase.Acquiring? ==> th.phase.next < |Plan(th.todo[0])|)
    && (th.phase.Working? ==> Plan(th.todo[0]) != [])
    && (th.phase.Releasing? ==> th.phase.rest != {} && forall s :: s in th.phase.rest ==> s in Plan(th.todo[0]))
  }

  predicate Holds(th: Thread, s: Shard)
    requires ThreadOk(th)
  {
    match th.phase
    case Idle => false
    case Acquiring(next, _) => s in Plan(th.todo[0])[..next]
    case Working => s in Plan(th.todo[0])
    case Releasing(rest) => s in rest
  }

  predicate WaitsFor(th: Thread, s: Shard)
    requires ThreadOk(th)
  {
    th.phase.Acquiring? && Plan(th.todo[0])[th.phase.next] == s
  }

  ghost predicate AllOk(threads: seq<Thread>) {
    forall t {:trigger threads[t]} :: 0 <= t < |threads| ==> ThreadOk(threads[t])
  }

  /** Two different threads hold the same shard only if both read. */
  ghost predicate Shared(threads: seq<Thread>, t: nat, u: nat, s: Shard)
    requires AllOk(threads) && t < |threads| && u < |threads|
  {
    t != u && Holds(threads[t], s) && Holds(threads[u], s) ==>
      !threads[t].todo[0].write && !threads[u].todo[0].write
  }

  ghost predicate Exclusion(threads: seq<Thread>)
    requires AllOk(threads)
  {
    forall t: nat, u: nat, s: Shard {:trigger Shared(threads, t, u, s)} ::
      t < |threads| && u < |threads| ==> Shared(threads, t, u, s)
  }

  /** A writer needs the shard to itself; a reader yields to writers that hold it or are parked on it. */
  ghost predicate CanGrant(threads: seq<Thread>, t: nat)
    requires AllOk(threads) && t < |threads| && threads[t].phase.Acquiring?
  {
    var s := Plan(threads[t].todo[0])[threads[t].phase.next];
    forall u {:trigger threads[u]} :: 0 <= u < |threads| && u != t ==>
      if threads[t].todo[0].write then !Holds(threads[u], s)
      else !(Holds(threads[u], s) && threads[u].todo[0].write)
           && !(WaitsFor(threads[u], s) && threads[u].todo[0].write && threads[u].phase.queued)
  }

  datatype Event = Start(t: nat) | Queue(t: nat) | Acquire(t: nat) | Finish(t: nat) | Release(t: nat, s: Shard)

  function Began(th: Thread): Thread
    requires ThreadOk(th) && th.todo != []
  {
    if Plan(th.todo[0]) == [] then Thread(th.todo[1..], Idle) else th.(phase := Acquiring(0, false))
  }

  function Acquired(th: Thread): Thread
    requires ThreadOk(th) && th.phase.Acquiring?
  {
    if th.phase.next + 1 == |Plan(th.todo[0])| then th.(phase := Working)
    else th.(phase := Acquiring(th.phase.next + 1, false))
  }

  function Released(th: Thread, s: Shard): Thread
    requires ThreadOk(th) && th.phase.Releasing?
  {
    if th.phase.rest - {s} == {} then Thread(th.todo[1..], Idle) else th.(phase := Releasing(th.phase.rest - {s}))
  }

  function Elements(plan: seq<Shard>): set<Shard> {
    set s | s in plan
  }

  function AllDone(th: Thread): Thread
    requires ThreadOk(th) && th.phase.Working?
  {
    th.(phase := Releasing(Elements(Plan(th.todo[0]))))
  }

  /** One step of one thread. */
  ghost predicate Step(threads: seq<Thread>, e: Event, next: seq<Thread>)
    requires AllOk(threads)
  {
    && e.t < |threads|
    && var th := threads[e.t];
       match e
       case Start(t) => th.phase.Idle? && th.todo != [] && next == threads[t := Began(th)]
       case Queue(t) =>
         th.phase.Acquiring? && !CanGrant(threads, t) && next == threads[t := th.(phase := th.phase.(queued := true))]
       case Acquire(t) => th.phase.Acquiring? && CanGrant(threads, t) && next == threads[t := Acquired(th)]
       case Finish(t) =>
         th.phase.Working? && next == threads[t := AllDone(th)]
       case Release(t, s) =>
         th.phase.Releasing? && s in th.phase.rest && next == threads[t := Released(th, s)]
  }

  /** A thread only comes to hold the shard it was granted. */
  ghost predicate Grows(before: Thread, after: Thread, granted: bool)
    requires ThreadOk(before) && ThreadOk(after)
  {
    && (after.phase.Idle? || after.todo == before.todo)
    && forall s: Shard {:trigger Holds(after, s)} :: Holds(after, s) ==>
         Holds(before, s) || (granted && WaitsFor(before, s))
  }

  lemma BeganOk(th: Thread)
    requires ThreadOk(th) && th.phase.Idle? && th.todo != []
    ensures ThreadOk(Began(th)) && Grows(th, Began(th), false)
  {
  }

  lemma AcquiredOk(th: Thread)
    requires ThreadOk(th) && th.phase.Acquiring?
    ensures ThreadOk(Acquired(th)) && Grows(th, Acquired(th), true)
  {
  }

  lemma FinishedOk(th: Thread)
    requires ThreadOk(th) && th.phase.Working?
    ensures ThreadOk(AllDone(th)) && Grows(th, AllDone(th), false)
  {
    assert Plan(th.todo[0])[0] in AllDone(th).phase.rest;
  }

  lemma ReleasedOk(th: Thread, s: Shard)
    requires ThreadOk(th) && th.phase.Releasing?
    ensures ThreadOk(Released(th, s)) && Grows(th, Released(th, s), false)
  {
  }

  lemma StepKeepsThreads(threads: seq<Thread>, e: Event, next: seq<Thread>)
    requires AllOk(threads) && Step(threads, e, next)
    ensures AllOk(next) && Grows(threads[e.t], next[e.t], e.Acquire?)
  {
    var th := threads[e.t];
    match e
    case Start(t) => BeganOk(th);
    case Queue(t) =>
    case Acquire(t) => AcquiredOk(th);
    case Finish(t) => FinishedOk(th);
    case Release(t, s) => ReleasedOk(th, s);
  }

  lemma StepKeepsExclusion(threads: seq<Thread>, e: Event, next: seq<Thread>)
    requires AllOk(threads) && Exclusion(threads) && Step(threads, e, next)
    ensures AllOk(next) && Exclusion(next)
  {
    StepKeepsThreads(threads, e, next);
    forall t: nat, u: nat, s: Shard {:trigger Shared(next, t, u, s)} | t < |next| && u < |next|
      ensures Shared(next, t, u, s)
    {
      assert Shared(threads, t, u, s);
    }
  }

  ghost predicate IsStart(threads: seq<Thread>) {
    forall t {:trigger threads[t]} :: 0 <= t < |threads| ==>
      threads[t].phase.Idle? && forall i :: 0 <= i < |threads[t].todo| ==> AccessOk(threads[t].todo[i])
  }

  ghost predicate IsRun(states: seq<seq<Thread>>, events: seq<Event>) {
    && |states| == |events| + 1 && IsStart(states[0])
    && forall i {:trigger events[i]} :: 0 <= i < |events| ==>
         AllOk(states[i]) && Step(states[i], events[i], states[i + 1])
  }

  lemma {:induction false} RunsExclude(states: seq<seq<Thread>>, events: seq<Event>, i: nat)
    requires IsRun(states, events) && i < |states|
    ensures AllOk(states[i]) && Exclusion(states[i])
  {
    if i == 0 {
      StartExcludes(states[0]);
    } else {
      RunsExclude(states, events, i - 1);
      assert Step(states[i - 1], events[i - 1], states[i]);
      StepKeepsExclusion(states[i - 1], events[i - 1], states[i]);
    }
  }

  lemma StartExcludes(threads: seq<Thread>)
    requires IsStart(threads)
    ensures AllOk(threads) && Exclusion(threads)
  {
  }

  /** The byte at `b` is one of the bytes of the access. */
  predicate Accesses(x: Access, b: nat) {
    x.addr <= b < x.addr + x.size
  }

  /** Two accesses that are under way at the same time and share a byte both read. */
  lemma NoDataRace(states: seq<seq<Thread>>, events: seq<Event>, i: nat, t: nat, u: nat, b: nat)
    requires IsRun(states, events) && i < |states| && t < |states[i]| && u < |states[i]| && t != u
    requires states[i][t].phase.Working? && states[i][u].phase.Working?
    requires states[i][t].todo != [] && states[i][u].todo != []
    requires Accesses(states[i][t].todo[0], b) && Accesses(states[i][u].todo[0], b)
    ensures !states[i][t].todo[0].write && !states[i][u].todo[0].write
  {
    RunsExclude(states, events, i);
    var threads := states[i];
    var s := b / CACHE_LINE_SIZE % SHARDED_LOCK_COUNT;
    ByteIsLocked(threads[t], b);
    ByteIsLocked(threads[u], b);
    assert Shared(threads, t, u, s);
  }

  lemma ByteIsLocked(th: Thread, b: nat)
    requires ThreadOk(th) && th.phase.Working? && Accesses(th.todo[0], b)
    ensures Holds(th, b / CACHE_LINE_SIZE % SHARDED_LOCK_COUNT)
  {
    var x := th.todo[0];
    PlanOk(x);
    LinesAscend(x.addr, b, x.addr + x.size - 1);
    TouchedLine(x.addr, x.size, b / CACHE_LINE_SIZE);
  }

  lemma LinesAscend(a: nat, b: nat, c: nat)
    requires a <= b <= c
    ensures a / CACHE_LINE_SIZE <= b / CACHE_LINE_SIZE <= c / CACHE_LINE_SIZE
  {
  }

  // ---------------------------------------------------------------------
  // Deadlock freedom

  predicate Finished(th: Thread) {
    th.phase.Idle? && th.todo == []
  }

  function Target(th: Thread): Shard
    requires ThreadOk(th) && th.phase.Acquiring?
  {
    Plan(th.todo[0])[th.phase.next]
  }

  /** What a thread holds while acquiring is below what it waits for. */
  lemma HeldBelowTarget(th: Thread, s: Shard)
    requires ThreadOk(th) && th.phase.Acquiring? && Holds(th, s)
    ensures s < Target(th)
  {
    PlanOk(th.todo[0]);
  }

  lemma {:induction false} LargestIndex(ranks: seq<int>) returns (t: nat)
    requires ranks != []
    ensures t < |ranks| && forall u :: 0 <= u < |ranks| ==> ranks[u] <= ranks[t]
  {
    if |ranks| == 1 {
      t := 0;
    } else {
      t := LargestIndex(ranks[..|ranks| - 1]);
      if ranks[|ranks| - 1] > ranks[t] {
        t := |ranks| - 1;
      }
    }
  }

  function Rank(th: Thread): int
    requires ThreadOk(th)
  {
    if th.phase.Acquiring? then Target(th) else -1
  }

  /** The acquiring thread that waits for the largest shard. */
  lemma LargestTarget(threads: seq<Thread>) returns (t: nat)
    requires AllOk(threads) && exists u :: 0 <= u < |threads| && threads[u].phase.Acquiring?
    ensures t < |threads| && threads[t].phase.Acquiring?
    ensures forall u :: 0 <= u < |threads| && threads[u].phase.Acquiring? ==> Target(threads[u]) <= Target(threads[t])
  {
    var ranks := seq(|threads|, u requires 0 <= u < |threads| => Rank(threads[u]));
    t := LargestIndex(ranks);
    forall u | 0 <= u < |threads| && threads[u].phase.Acquiring? ensures Target(threads[u]) <= ranks[t] {
      assert ranks[u] == Target(threads[u]);
    }
    var u :| 0 <= u < |threads| && threads[u].phase.Acquiring?;
    assert ranks[u] <= ranks[t];
  }

  /** Nobody holds the largest shard that is waited for, so a thread waiting for it can have it. */
  lemma LargestIsGranted(threads: seq<Thread>) returns (t: nat)
    requires AllOk(threads)
    requires forall u :: 0 <= u < |threads| ==> threads[u].phase.Acquiring? || Finished(threads[u])
    requires exists u :: 0 <= u < |threads| && threads[u].phase.Acquiring?
    ensures t < |threads| && threads[t].phase.Acquiring? && CanGrant(threads, t)
  {
    t := LargestTarget(threads);
    var s := Target(threads[t]);
    forall u: nat | u < |threads| ensures !Holds(threads[u], s) {
      if threads[u].phase.Acquiring? && Holds(threads[u], s) {
        HeldBelowTarget(threads[u], s);
      }
    }
    if exists u: nat :: u < |threads| && WaitsFor(threads[u], s) && threads[u].todo[0].write {
      t :| t < |threads| && WaitsFor(threads[t], s) && threads[t].todo[0].write;
    }
  }

  /** In every reachable state some unfinished thread can move on. */
  lemma NoDeadlock(states: seq<seq<Thread>>, events: seq<Event>, i: nat)
    requires IsRun(states, events) && i < |states|
    requires exists t :: 0 <= t < |states[i]| && !Finished(states[i][t])
    ensures AllOk(states[i]) && exists e: Event, next :: !e.Queue? && Step(states[i], e, next)
  {
    RunsExclude(states, events, i);
    var threads := states[i];
    if t: nat :| t < |threads| && !Finished(threads[t]) && !threads[t].phase.Acquiring? {
      var th := threads[t];
      match th.phase
      case Idle => assert Step(threads, Start(t), threads[t := Began(th)]);
      case Working => assert Step(threads, Finish(t), threads[t := AllDone(th)]);
      case Releasing(rest) =>
        var s :| s in rest;
        assert Step(threads, Release(t, s), threads[t := Released(th, s)]);
    } else {
      var t := LargestIsGranted(threads);
      assert Step(threads, Acquire(t), threads[t := Acquired(threads[t])]);
    }
  }

  // ---------------------------------------------------------------------
  // Everybody finishes

  /** The moves an access takes: to begin, to acquire each shard, to finish, and to release each shard. */
  function AccessWork(x: Access): nat
    requires AccessOk(x)
  {
    if Plan(x) == [] then 1 else 2 + 2 * |Plan(x)|
  }

  function TodoWork(todo: seq<Access>): nat
    requires forall i :: 0 <= i < |todo| ==> AccessOk(todo[i])
  {
    if todo == [] then 0 else AccessWork(todo[0]) + TodoWork(todo[1..])
  }

  /** The moves a thread has left. */
  function ThreadWork(th: Thread): nat
    requires ThreadOk(th)
  {
    match th.phase
    case Idle => TodoWork(th.todo)
    case Acquiring(next, _) => 2 * |Plan(th.todo[0])| - next + 1 + TodoWork(th.todo[1..])
    case Working => |Plan(th.todo[0])| + 1 + TodoWork(th.todo[1..])
    case Releasing(rest) => |rest| + TodoWork(th.todo[1..])
  }

  function Works(threads: seq<Thread>): (works: seq<nat>)
    requires AllOk(threads)
    ensures |works| == |threads| && forall t :: 0 <= t < |works| ==> works[t] == ThreadWork(threads[t])
  {
    seq(|threads|, t requires 0 <= t < |threads| => ThreadWork(threads[t]))
  }

  function Sum(works: seq<nat>): nat {
    if works == [] then 0 else Sum(works[..|works| - 1]) + works[|works| - 1]
  }

  function TotalWork(threads: seq<Thread>): nat
    requires AllOk(threads)
  {
    Sum(Works(threads))
  }

  lemma {:induction false} SizeOfPlan(plan: seq<Shard>)
    requires Ascending(plan)
    ensures |Elements(plan)| == |plan|
  {
    if plan != [] {
      var init, last := plan[..|plan| - 1], plan[|plan| - 1];
      AscendingInit(plan);
      SizeOfPlan(init);
      ElementsAppend(init, last);
      assert plan == init + [last];
    }
  }

  lemma AscendingInit(plan: seq<Shard>)
    requires Ascending(plan) && plan != []
    ensures Ascending(plan[..|plan| - 1]) && plan[|plan| - 1] !in Elements(plan[..|plan| - 1])
  {
  }

  lemma ElementsAppend(init: seq<Shard>, last: Shard)
    ensures Elements(init + [last]) == Elements(init) + {last}
  {
  }

  /** Every move of a thread, other than to park, brings it one move closer to being finished. */
  lemma MoveWork(threads: seq<Thread>, e: Event, next: seq<Thread>)
    requires AllOk(threads) && Step(threads, e, next)
    ensures AllOk(next)
    ensures ThreadWork(threads[e.t]) == ThreadWork(next[e.t]) + (if e.Queue? then 0 else 1)
  {
    StepKeepsThreads(threads, e, next);
    var th := threads[e.t];
    if e.Finish? {
      PlanOk(th.todo[0]);
      SizeOfPlan(Plan(th.todo[0]));
    } else if e.Release? {
      assert |th.phase.rest - {e.s}| == |th.phase.rest| - 1;
    }
  }

  lemma {:induction false} SumChange(works: seq<nat>, t: nat, work: nat)
    requires t < |works|
    ensures Sum(works[t := work]) + works[t] == Sum(works) + work
  {
    var n := |works| - 1;
    if t < n {
      SumChange(works[..n], t, work);
      assert works[t := work][..n] == works[..n][t := work];
    } else {
      assert works[t := work][..n] == works[..n];
    }
  }

  lemma OneMoved(threads: seq<Thread>, t: nat, th: Thread)
    requires AllOk(threads) && t < |threads| && ThreadOk(th)
    ensures AllOk(threads[t := th])
    ensures TotalWork(threads[t := th]) + ThreadWork(threads[t]) == TotalWork(threads) + ThreadWork(th)
  {
    SumChange(Works(threads), t, ThreadWork(th));
    assert Works(threads[t := th]) == Works(threads)[t := ThreadWork(th)];
  }

  /** The number of moves among the events. */
  function Moves(events: seq<Event>): nat {
    if events == [] then 0
    else Moves(events[..|events| - 1]) + (if events[|events| - 1].Queue? then 0 else 1)
  }

  /** Moves made and moves left add up: no access is skipped and none is done twice. */
  lemma {:induction false} MovesAddUp(states: seq<seq<Thread>>, events: seq<Event>, i: nat)
    requires IsRun(states, events) && i < |states|
    ensures AllOk(states[0]) && AllOk(states[i])
    ensures Moves(events[..i]) + TotalWork(states[i]) == TotalWork(states[0])
  {
    RunsExclude(states, events, 0);
    RunsExclude(states, events, i);
    if i > 0 {
      MovesAddUp(states, events, i - 1);
      var e := events[i - 1];
      assert Step(states[i - 1], e, states[i]);
      MoveWork(states[i - 1], e, states[i]);
      OneMoved(states[i - 1], e.t, states[i][e.t]);
      assert states[i] == states[i - 1][e.t := states[i][e.t]];
      assert events[..i][..i - 1] == events[..i - 1];
    }
  }

  lemma {:induction false} SumIsZero(works: seq<nat>)
    ensures Sum(works) == 0 <==> forall t :: 0 <= t < |works| ==> works[t] == 0
  {
    if works != [] {
      SumIsZero(works[..|works| - 1]);
    }
  }

  lemma NoWorkMeansFinished(th: Thread)
    requires ThreadOk(th)
    ensures ThreadWork(th) == 0 <==> Finished(th)
  {
    if th.phase.Idle? && th.todo != [] {
      assert AccessWork(th.todo[0]) > 0;
    }
  }

  /** Every access of every thread is done after exactly the moves the accesses take, in whatever order they come. */
  lemma EverybodyFinishes(states: seq<seq<Thread>>, events: seq<Event>, i: nat)
    requires IsRun(states, events) && i < |states|
    ensures AllOk(states[0]) && Moves(events[..i]) <= TotalWork(states[0])
    ensures Moves(events[..i]) == TotalWork(states[0]) <==> forall t :: 0 <= t < |states[i]| ==> Finished(states[i][t])
  {
    MovesAddUp(states, events, i);
    SumIsZero(Works(states[i]));
    forall t | 0 <= t < |states[i]| ensures Works(states[i])[t] == 0 <==> Finished(states[i][t]) {
      NoWorkMeansFinished(states[i][t]);
    }
  }
}
