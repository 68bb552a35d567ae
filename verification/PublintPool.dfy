/** The worker pool of `scripts/publint-all.ts`, over every interleaving of its workers. */
module PublintPool {
  import opened Wrappers

  /** A worker between two awaits: about to take an index, waiting for a lint, or returned. */
  datatype Worker = Ready | Linting(index: nat) | Finished

  /** The shared counter, the workers, the lints begun in order, and the stored results. */
  datatype Pool<R> = Pool(next: nat, workers: seq<Worker>, begun: seq<nat>, results: map<nat, R>)

  /** `DSH_PUBLINT_CONCURRENCY`, parsed. */
  datatype Setting = Unset | NotAPositiveInteger | PositiveInteger(n: nat)

  /** `publintConcurrency`. */
  function PublintConcurrency(total: nat, setting: Setting, available: nat): Option<nat> {
    if total == 0 then Some(0)
    else match setting
      case Unset => Some(if total < available then total else available)
      case NotAPositiveInteger => None
      case PositiveInteger(n) => if n == 0 then None else Some(if total < n then total else n)
  }

  function Initial<R>(concurrency: nat): Pool<R> {
    Pool(0, seq(concurrency, _ => Ready), [], map[])
  }

  /** A worker takes the next index; past the last target it returns. */
  function Take<R>(s: Pool<R>, k: nat, total: nat): Pool<R>
    requires k < |s.workers|
  {
    if s.next < total
    then Pool(s.next + 1, s.workers[k := Linting(s.next)], s.begun + [s.next], s.results)
    else Pool(s.next + 1, s.workers[k := Finished], s.begun, s.results)
  }

  /** A worker's lint settles and is stored at its own index. */
  function Store<R>(s: Pool<R>, k: nat, lint: nat -> R): Pool<R>
    requires k < |s.workers| && s.workers[k].Linting?
  {
    Pool(s.next, s.workers[k := Ready], s.begun, s.results[s.workers[k].index := lint(s.workers[k].index)])
  }

  ghost predicate Step<R>(s: Pool<R>, s': Pool<R>, total: nat, lint: nat -> R) {
    exists k: nat :: Moves(s, k, s', total, lint)
  }

  /** Worker `k` runs to its next await. */
  ghost predicate Moves<R>(s: Pool<R>, k: nat, s': Pool<R>, total: nat, lint: nat -> R) {
    && k < |s.workers| && !s.workers[k].Finished?
    && s' == if s.workers[k].Ready? then Take(s, k, total) else Store(s, k, lint)
  }

  ghost predicate IsRun<R>(run: seq<Pool<R>>, concurrency: nat, total: nat, lint: nat -> R) {
    && run != [] && run[0] == Initial(concurrency)
    && forall i {:trigger run[i]} :: 0 <= i < |run| - 1 ==> Step(run[i], run[i + 1], total, lint)
  }

  predicate AllFinished<R>(s: Pool<R>) {
    forall k | 0 <= k < |s.workers| :: s.workers[k].Finished?
  }

  // ---------- What every interleaving keeps ----------

  function Min(a: nat, b: nat): nat {
    if a < b then a else b
  }

  ghost predicate InFlight<R>(s: Pool<R>, i: nat) {
    exists k :: 0 <= k < |s.workers| && s.workers[k] == Linting(i)
  }

  ghost predicate Inv<R>(s: Pool<R>, concurrency: nat, total: nat, lint: nat -> R) {
    && |s.workers| == concurrency
    && |s.begun| == Min(s.next, total) && (forall i :: 0 <= i < |s.begun| ==> s.begun[i] == i)
    && (forall k :: 0 <= k < |s.workers| && s.workers[k].Linting? ==> s.workers[k].index < |s.begun|)
    && (forall k, m :: 0 <= k < m < |s.workers| && s.workers[k].Linting? ==> s.workers[k] != s.workers[m])
    && (forall i :: i in s.results ==> i < |s.begun| && !InFlight(s, i) && s.results[i] == lint(i))
    && (forall i: nat :: i < |s.begun| && !InFlight(s, i) ==> i in s.results)
    && (forall k :: 0 <= k < |s.workers| && s.workers[k].Finished? ==> s.next >= total)
    && (concurrency == 0 ==> s.next == 0)
  }

  lemma InitialInv<R>(concurrency: nat, total: nat, lint: nat -> R)
    ensures Inv(Initial(concurrency), concurrency, total, lint)
    ensures Work(Initial<R>(concurrency), total) == 2 * total + concurrency
  {
    InitialWork(concurrency);
  }

  lemma TakeKeepsInv<R>(s: Pool<R>, k: nat, concurrency: nat, total: nat, lint: nat -> R)
    requires Inv(s, concurrency, total, lint) && k < |s.workers| && s.workers[k].Ready?
    ensures Inv(Take(s, k, total), concurrency, total, lint)
  {
    var s' := Take(s, k, total);
    forall i ensures InFlight(s', i) <==> InFlight(s, i) || (s.next < total && i == s.next) {
      if InFlight(s, i) {
        var m :| 0 <= m < |s.workers| && s.workers[m] == Linting(i);
        assert s'.workers[m] == Linting(i);
      }
      if s.next < total { assert s'.workers[k] == Linting(s.next); }
    }
  }

  lemma StoreKeepsInv<R>(s: Pool<R>, k: nat, concurrency: nat, total: nat, lint: nat -> R)
    requires Inv(s, concurrency, total, lint) && k < |s.workers| && s.workers[k].Linting?
    ensures Inv(Store(s, k, lint), concurrency, total, lint)
  {
    var s', j := Store(s, k, lint), s.workers[k].index;
    forall i ensures InFlight(s', i) <==> InFlight(s, i) && i != j {
      if InFlight(s, i) && i != j {
        var m :| 0 <= m < |s.workers| && s.workers[m] == Linting(i);
        assert s'.workers[m] == Linting(i);
      }
      if InFlight(s', i) {
        var m :| 0 <= m < |s'.workers| && s'.workers[m] == Linting(i);
        assert s.workers[m] == Linting(i) && m != k;
        assert if m < k then s.workers[m] != s.workers[k] else s.workers[k] != s.workers[m];
      }
    }
  }

  /** Steps left, at most: two per untaken target, two per lint under way, one per ready worker. */
  function Work<R>(s: Pool<R>, total: nat): nat {
    2 * (total - Min(s.next, total)) + WorkersWork(s.workers)
  }

  function WorkersWork(ws: seq<Worker>): nat {
    if ws == [] then 0
    else WorkersWork(ws[1..]) + match ws[0] case Ready => 1 case Linting(_) => 2 case Finished => 0
  }

  lemma {:induction false} WorkersWorkUpdate(ws: seq<Worker>, k: nat, w: Worker)
    requires k < |ws|
    ensures WorkersWork(ws[k := w]) + WorkersWork([ws[k]]) == WorkersWork(ws) + WorkersWork([w])
  {
    if k > 0 {
      assert ws[k := w][1..] == ws[1..][k - 1 := w];
      WorkersWorkUpdate(ws[1..], k - 1, w);
    } else {
      assert ws[k := w][1..] == ws[1..];
    }
  }

  lemma {:induction false} InitialWork(concurrency: nat)
    ensures WorkersWork(seq(concurrency, _ => Ready)) == concurrency
  {
    if concurrency > 0 {
      assert seq(concurrency, _ => Ready)[1..] == seq(concurrency - 1, _ => Ready);
      InitialWork(concurrency - 1);
    }
  }

  lemma StepKeepsInv<R>(s: Pool<R>, s': Pool<R>, concurrency: nat, total: nat, lint: nat -> R)
    requires Inv(s, concurrency, total, lint) && Step(s, s', total, lint)
    ensures Inv(s', concurrency, total, lint) && Work(s', total) < Work(s, total)
  {
    var k: nat :| Moves(s, k, s', total, lint);
    WorkersWorkUpdate(s.workers, k, s'.workers[k]);
    if s.workers[k].Ready? {
      TakeKeepsInv(s, k, concurrency, total, lint);
    } else {
      StoreKeepsInv(s, k, concurrency, total, lint);
    }
  }

  /** Whatever the interleaving, a run ends in a sound state after boundedly many steps. */
  lemma {:induction false} EveryRun<R>(run: seq<Pool<R>>, concurrency: nat, total: nat, lint: nat -> R)
    requires IsRun(run, concurrency, total, lint)
    ensures Inv(run[|run| - 1], concurrency, total, lint)
    ensures |run| + Work(run[|run| - 1], total) <= 2 * total + concurrency + 1
    decreases |run|
  {
    if |run| == 1 {
      InitialInv(concurrency, total, lint);
    } else {
      var init, s, s' := run[..|run| - 1], run[|run| - 2], run[|run| - 1];
      assert Step(s, s', total, lint);
      RunInit(run, concurrency, total, lint);
      EveryRun(init, concurrency, total, lint);
      assert init[|init| - 1] == s;
      StepKeepsInv(s, s', concurrency, total, lint);
    }
  }

  lemma RunInit<R>(run: seq<Pool<R>>, concurrency: nat, total: nat, lint: nat -> R)
    requires IsRun(run, concurrency, total, lint) && |run| > 1
    ensures IsRun(run[..|run| - 1], concurrency, total, lint)
  {
  }

  /** No deadlock: a worker that has not returned can move. */
  lemma NoDeadlock<R>(s: Pool<R>, total: nat, lint: nat -> R) returns (s': Pool<R>)
    requires !AllFinished(s)
    ensures Step(s, s', total, lint)
  {
    var k: nat :| k < |s.workers| && !s.workers[k].Finished?;
    s' := if s.workers[k].Ready? then Take(s, k, total) else Store(s, k, lint);
    assert Moves(s, k, s', total, lint);
  }

  /**
   * Exactness: when all workers have returned, every target was linted exactly once,
   * in order, and its result stored at its own index, unless there was no worker.
   */
  lemma FinishedPool<R>(s: Pool<R>, concurrency: nat, total: nat, lint: nat -> R)
    requires Inv(s, concurrency, total, lint) && AllFinished(s)
    ensures concurrency > 0 || total == 0 ==>
              && s.begun == seq(total, i => i)
              && s.results == map i: nat | 0 <= i < total :: lint(i)
    ensures concurrency == 0 ==> s.results == map[] && s.begun == []
  {
    assert forall i :: !InFlight(s, i);
    if concurrency > 0 {
      assert s.workers[0].Finished?;
    }
  }

  datatype MissingResult = MissingResult(index: nat)

  /**
   * `runAll`.  The workers move in any order until all have returned; then the answer
   * is each target's lint in target order, and the missing-result throw is reached
   * exactly when there are targets but no worker.
   */
  method RunAll<R>(total: nat, concurrency: nat, lint: nat -> R)
    returns (r: Result<seq<R>, MissingResult>, ghost run: seq<Pool<R>>)
    ensures IsRun(run, concurrency, total, lint) && AllFinished(run[|run| - 1])
    ensures r.Failure? <==> concurrency == 0 && total > 0
    ensures r.Success? ==> |r.value| == total && forall i: nat :: i < total ==> r.value[i] == lint(i)
  {
    var s: Pool<R> := Initial(concurrency);
    run := [s];
    while !AllFinished(s)
      invariant IsRun(run, concurrency, total, lint) && run[|run| - 1] == s
      decreases Work(s, total)
    {
      var k: nat :| k < |s.workers| && !s.workers[k].Finished?;
      var s' := if s.workers[k].Ready? then Take(s, k, total) else Store(s, k, lint);
      assert Moves(s, k, s', total, lint);
      StepDoesWork(run, s', concurrency, total, lint);
      RunSnoc(run, s', concurrency, total, lint);
      s, run := s', run + [s'];
    }
    Collected(run, s, concurrency, total, lint);
    if i: nat :| i < total && i !in s.results {
      return Failure(MissingResult(i)), run;
    }
    return Success(seq(total, i requires 0 <= i < total && i in s.results => s.results[i])), run;
  }

  lemma StepDoesWork<R>(run: seq<Pool<R>>, s': Pool<R>, concurrency: nat, total: nat, lint: nat -> R)
    requires IsRun(run, concurrency, total, lint) && Step(run[|run| - 1], s', total, lint)
    ensures Work(s', total) < Work(run[|run| - 1], total)
  {
    EveryRun(run, concurrency, total, lint);
    StepKeepsInv(run[|run| - 1], s', concurrency, total, lint);
  }

  lemma Collected<R>(run: seq<Pool<R>>, s: Pool<R>, concurrency: nat, total: nat, lint: nat -> R)
    requires IsRun(run, concurrency, total, lint) && s == run[|run| - 1] && AllFinished(s)
    ensures concurrency == 0 && total > 0 ==> 0 !in s.results
    ensures concurrency > 0 || total == 0 ==> forall i: nat :: i < total ==> i in s.results
    ensures forall i :: i in s.results ==> i < total && s.results[i] == lint(i)
  {
    EveryRun(run, concurrency, total, lint);
    FinishedPool(s, concurrency, total, lint);
  }

  lemma RunSnoc<R>(run: seq<Pool<R>>, s': Pool<R>, concurrency: nat, total: nat, lint: nat -> R)
    requires IsRun(run, concurrency, total, lint) && Step(run[|run| - 1], s', total, lint)
    ensures IsRun(run + [s'], concurrency, total, lint)
  {
  }

  /**
   * The concurrency is the lesser of the number of targets and the setting, or the available
   * parallelism without one; it throws exactly on a setting that is no positive integer, if
   * there are targets.
   */
  lemma ConcurrencyExactly(total: nat, setting: Setting, available: nat)
    ensures PublintConcurrency(total, setting, available).None?
            <==> total > 0 && (setting == NotAPositiveInteger || setting == PositiveInteger(0))
    ensures forall n: nat :: (setting == PositiveInteger(n) && n > 0) || (setting == Unset && n == available) ==>
              var c := PublintConcurrency(total, setting, available);
              c.Some? && c.value <= total && c.value <= n && (c.value == total || c.value == n)
  {
  }

  /** With a concurrency the script computes, the missing-result throw is unreachable. */
  lemma ComputedConcurrencySuffices(total: nat, setting: Setting, available: nat)
    requires available >= 1 && PublintConcurrency(total, setting, available).Some?
    ensures var c := PublintConcurrency(total, setting, available).value;
            !(c == 0 && total > 0) && c <= total
  {
  }
}
