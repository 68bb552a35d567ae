/** Whole runs of the gate scheduler, and `runGates` itself. */
module GateRun {
  import opened Wrappers
  import opened Digraph
  import opened GateGraph
  import opened GateMachine

  // ---------- Every reachable state ----------

  ghost predicate NeedsPassed(job: Job, s: Sched, id: string) {
    forall d :: Edge(ById(job.gates), id, d) ==> StateIs(s.states, d, Settled(Passed))
  }

  /** A gate is started only after all its needs passed. */
  ghost predicate StartedAfterNeeds(job: Job, s: Sched) {
    forall id :: id in s.started ==> NeedsPassed(job, s, id)
  }

  lemma StepKeepsStartedAfterNeeds(job: Job, s: Sched, s': Sched)
    requires Runnable(job) && Inv(job, s) && Step(job, s, s') && StartedAfterNeeds(job, s)
    ensures StartedAfterNeeds(job, s')
  {
    StepMovesForward(job, s, s');
    forall id | id in s'.started ensures NeedsPassed(job, s', id) {
      if id in s.started {
        assert NeedsPassed(job, s, id);
      } else {
        var i := FirstReady(job.gates, s.states).value;
        ByIdNeeds(job.gates, i);
        assert StartStep(job, s, s');
      }
    }
  }

  /** Pending, running, settled. */
  function Stage(state: GateState): nat {
    match state
    case Pending => 0
    case Running => 1
    case Settled(_) => 2
  }

  /** No gate goes back, and a settled one stays as it is. */
  ghost predicate Forward(s: Sched, s': Sched) {
    && s'.states.Keys == s.states.Keys
    && forall d :: d in s.states ==>
         && Stage(s.states[d]) <= Stage(s'.states[d])
         && (s.states[d].Settled? ==> s'.states[d] == s.states[d])
  }

  ghost predicate StartsPending(s: Sched, s': Sched, id: string) {
    s'.started == s.started + [id] && StateIs(s.states, id, Pending) && StateIs(s'.states, id, Running)
  }

  lemma UpdateForward(s: Sched, s': Sched, id: string, state: GateState)
    requires id in s.states && s'.states == s.states[id := state]
    requires Stage(s.states[id]) < Stage(state)
    ensures Forward(s, s')
  {
  }

  /** Every step moves forward, and only a start step adds a start, of a gate that was pending. */
  lemma StepMovesForward(job: Job, s: Sched, s': Sched)
    requires Runnable(job) && Inv(job, s) && Step(job, s, s')
    ensures Forward(s, s')
    ensures s'.started == s.started || (StartStep(job, s, s') && exists d :: StartsPending(s, s', d))
  {
    if StartStep(job, s, s') {
      var id := job.gates[FirstReady(job.gates, s.states).value].id;
      UpdateForward(s, s', id, Running);
      assert StartsPending(s, s', id);
    } else if SkipStep(job, s, s') {
      UpdateForward(s, s', job.gates[FirstBlocked(job.gates, s.states).value].id, Settled(Skipped));
    } else if k: nat :| SettleStep(job, s, k, s') {
      assert s.running[k] in s.running;
      UpdateForward(s, s', s.running[k], Settled(job.execute(s.running[k]).status));
    }
  }

  /** Unfinished work: two per pending gate, one per running gate. */
  function Work(gates: seq<Gate>, states: map<string, GateState>): nat {
    if gates == [] then 0
    else Weight(states, gates[0].id) + Work(gates[1..], states)
  }

  function Weight(states: map<string, GateState>, id: string): nat {
    if StateIs(states, id, Pending) then 2 else if StateIs(states, id, Running) then 1 else 0
  }

  lemma {:induction false} WorkUpdate(gates: seq<Gate>, states: map<string, GateState>, id: string, state: GateState)
    requires UniqueIds(gates)
    ensures !HasId(gates, id) ==> Work(gates, states[id := state]) == Work(gates, states)
    ensures HasId(gates, id) ==>
              Work(gates, states[id := state]) + Weight(states, id)
              == Work(gates, states) + Weight(states[id := state], id)
  {
    if gates != [] {
      var rest := gates[1..];
      assert UniqueIds(rest);
      WorkUpdate(rest, states, id, state);
      if HasId(rest, id) {
        var k :| 0 <= k < |rest| && rest[k].id == id;
        assert gates[k + 1].id == id && gates[0].id != id;
      }
      if HasId(gates, id) && gates[0].id != id {
        var k :| 0 <= k < |gates| && gates[k].id == id;
        assert rest[k - 1].id == id;
      }
    }
  }

  lemma {:induction false} InitialWork(gates: seq<Gate>, states: map<string, GateState>)
    requires forall i :: 0 <= i < |gates| ==> StateIs(states, gates[i].id, Pending)
    ensures Work(gates, states) == 2 * |gates|
  {
    if gates != [] {
      forall i | 0 <= i < |gates[1..]| ensures StateIs(states, gates[1..][i].id, Pending) {
        assert StateIs(states, gates[i + 1].id, Pending);
      }
      InitialWork(gates[1..], states);
    }
  }

  /** Every step finishes one unit of work, except the one that aborts the run. */
  lemma StepDoesWork(job: Job, s: Sched, s': Sched)
    requires Runnable(job) && Inv(job, s) && Step(job, s, s')
    ensures s'.rejected.None? ==> Work(job.gates, s'.states) < Work(job.gates, s.states)
    ensures s'.rejected.Some? ==> s'.states == s.states
  {
    if StartStep(job, s, s') {
      StartDoesWork(job, s, s');
    } else if SkipStep(job, s, s') {
      SkipDoesWork(job, s, s');
    } else if k: nat :| SettleStep(job, s, k, s') {
      SettleDoesWork(job, s, k, s');
    }
  }

  lemma StartDoesWork(job: Job, s: Sched, s': Sched)
    requires Runnable(job) && Inv(job, s) && s.rejected.None? && StartStep(job, s, s')
    ensures s'.rejected.None? && Work(job.gates, s'.states) < Work(job.gates, s.states)
  {
    StepWork(job, s, job.gates[FirstReady(job.gates, s.states).value].id, Running);
  }

  lemma SkipDoesWork(job: Job, s: Sched, s': Sched)
    requires Runnable(job) && Inv(job, s) && s.rejected.None? && SkipStep(job, s, s')
    ensures s'.rejected.None? && Work(job.gates, s'.states) < Work(job.gates, s.states)
  {
    StepWork(job, s, job.gates[FirstBlocked(job.gates, s.states).value].id, Settled(Skipped));
  }

  lemma SettleDoesWork(job: Job, s: Sched, k: nat, s': Sched)
    requires Runnable(job) && Inv(job, s) && s.rejected.None? && SettleStep(job, s, k, s')
    ensures s'.rejected.None? && Work(job.gates, s'.states) < Work(job.gates, s.states)
  {
    assert s.running[k] in s.running;
    StepWork(job, s, s.running[k], Settled(job.execute(s.running[k]).status));
  }

  lemma StepWork(job: Job, s: Sched, id: string, state: GateState)
    requires Runnable(job) && Inv(job, s) && id in s.states
    requires Weight(map[id := state], id) < Weight(s.states, id)
    ensures Work(job.gates, s.states[id := state]) < Work(job.gates, s.states)
  {
    ByIdNodes(job.gates, id);
    WorkUpdate(job.gates, s.states, id, state);
  }

  /** Facts of every state of every run, whatever settles when. */
  ghost predicate Reached(job: Job, s: Sched) {
    Inv(job, s) && StartedAfterNeeds(job, s) && SkipOk(job, s)
  }

  lemma StepKeepsReached(job: Job, s: Sched, s': Sched)
    requires Runnable(job) && Reached(job, s) && Step(job, s, s')
    ensures Reached(job, s')
  {
    StepKeepsInv(job, s, s');
    StepKeepsStartedAfterNeeds(job, s, s');
    StepKeepsSkipOk(job, s, s');
  }

  lemma InitialReached(job: Job)
    requires Runnable(job)
    ensures Reached(job, Initial(job.gates))
    ensures Work(job.gates, Initial(job.gates).states) == 2 * |job.gates|
  {
    InitialInv(job);
    InitialSkipOk(job);
    forall i | 0 <= i < |job.gates| ensures StateIs(InitialStates(job.gates), job.gates[i].id, Pending) {
      ByIdNeeds(job.gates, i);
    }
    InitialWork(job.gates, InitialStates(job.gates));
  }

  lemma RunPrefix(job: Job, run: seq<Sched>, k: nat)
    requires IsRun(job, run) && 0 < k <= |run|
    ensures IsRun(job, run[..k])
  {
    forall i | 0 <= i < k - 1 ensures Step(job, run[..k][i], run[..k][i + 1]) {
      assert Step(job, run[i], run[i + 1]);
    }
  }

  /** The last state of a run of this length has no more work left than this. */
  ghost predicate WithinBound(job: Job, s: Sched, length: nat) {
    length + Work(job.gates, s.states) <= 2 * |job.gates| + (if s.rejected.Some? then 2 else 1)
  }

  lemma NextReached(job: Job, s: Sched, s': Sched, length: nat)
    requires Runnable(job) && Reached(job, s) && Step(job, s, s') && WithinBound(job, s, length)
    ensures Reached(job, s') && WithinBound(job, s', length + 1)
  {
    StepKeepsReached(job, s, s');
    StepDoesWork(job, s, s');
  }

  /** The state a run has come to is sound, and the longer the run, the less work it leaves. */
  lemma {:induction false} EndIsReached(job: Job, run: seq<Sched>)
    requires Runnable(job) && IsRun(job, run)
    ensures Reached(job, run[|run| - 1]) && WithinBound(job, run[|run| - 1], |run|)
    decreases |run|
  {
    InitialReached(job);
    var n := |run| - 1;
    if n > 0 {
      RunPrefix(job, run, n);
      EndIsReached(job, run[..n]);
      assert Step(job, run[n - 1], run[n - 1 + 1]);
      NextReached(job, run[n - 1], run[n], n);
    }
  }

  /**
   * Safety and termination of every run: each state is sound, and a run of n
   * gates has at most 2n + 2 states.
   */
  lemma EveryRun(job: Job, run: seq<Sched>)
    requires Runnable(job) && IsRun(job, run)
    ensures forall i :: 0 <= i < |run| ==> Reached(job, run[i])
    ensures |run| <= 2 * |job.gates| + (if run[|run| - 1].rejected.Some? then 2 else 1)
    ensures forall i {:trigger run[i]} :: 0 <= i < |run| - 1 && StopsRunning(run[i], run[i + 1]) ==>
              || |run[i].running| == job.maxActive
              || forall gate :: gate in job.gates && StateIs(run[i].states, gate.id, Pending) ==>
                   exists d :: d in gate.needs && !StateIs(run[i].states, d, Settled(Passed))
  {
    EndIsReached(job, run);
    forall i | 0 <= i < |run| ensures Reached(job, run[i]) { EachIsReached(job, run, i); }
    forall i | 0 <= i < |run| - 1 && StopsRunning(run[i], run[i + 1])
      ensures |run[i].running| == job.maxActive || NoneReady(job, run[i])
    {
      assert Step(job, run[i], run[i + 1]);
      WaitsOnlyWhenBusy(job, run[i], run[i + 1]);
    }
  }

  /** A running gate settles, or its promise rejects. */
  ghost predicate StopsRunning(s: Sched, s': Sched) {
    s'.rejected != s.rejected || exists id :: id in s.running && id !in s'.running
  }

  ghost predicate NoneReady(job: Job, s: Sched) {
    forall gate :: gate in job.gates && StateIs(s.states, gate.id, Pending) ==>
      exists d :: d in gate.needs && !StateIs(s.states, d, Settled(Passed))
  }

  lemma NoneReadyHere(job: Job, s: Sched)
    requires FirstReady(job.gates, s.states).None?
    ensures NoneReady(job, s)
  {
    forall gate | gate in job.gates && StateIs(s.states, gate.id, Pending)
      ensures exists d :: d in gate.needs && !StateIs(s.states, d, Settled(Passed))
    {
      var i :| 0 <= i < |job.gates| && job.gates[i] == gate;
      assert !Ready(job.gates[i], s.states);
    }
  }

  /** Work is conserved: the scheduler waits only when the pool is full or no pending gate has all its needs passed. */
  lemma WaitsOnlyWhenBusy(job: Job, s: Sched, s': Sched)
    requires Reached(job, s) && Step(job, s, s') && StopsRunning(s, s')
    ensures |s.running| == job.maxActive || NoneReady(job, s)
  {
    assert !StartStep(job, s, s');
    if |s.running| < job.maxActive { NoneReadyHere(job, s); }
  }

  /** A start takes a free place, for the first gate of the list that is pending with all its needs passed. */
  lemma StartsInOrder(job: Job, s: Sched, s': Sched)
    requires Runnable(job) && Reached(job, s) && Step(job, s, s') && s'.started != s.started
    ensures |s.running| < job.maxActive && exists i :: StartsAt(job, s, s', i)
  {
    assert StartStep(job, s, s');
    var i := FirstReady(job.gates, s.states).value;
    var gate := job.gates[i];
    forall j | 0 <= j < i && StateIs(s.states, job.gates[j].id, Pending)
      ensures exists d :: d in job.gates[j].needs && !StateIs(s.states, d, Settled(Passed))
    {
      assert !Ready(job.gates[j], s.states);
    }
    assert StartsAt(job, s, s', i);
  }

  ghost predicate StartsAt(job: Job, s: Sched, s': Sched, i: int) {
    && 0 <= i < |job.gates|
    && s'.started == s.started + [job.gates[i].id] && s'.running == s.running + [job.gates[i].id]
    && StateIs(s.states, job.gates[i].id, Pending)
    && (forall d :: d in job.gates[i].needs ==> StateIs(s.states, d, Settled(Passed)))
    && forall j :: 0 <= j < i && StateIs(s.states, job.gates[j].id, Pending) ==>
         exists d :: d in job.gates[j].needs && !StateIs(s.states, d, Settled(Passed))
  }

  /** Settling or skipping a gate records one result and shows it to the observer, after those it was shown before. */
  ghost predicate Observes(s: Sched, s': Sched, result: GateResult) {
    && result.id !in s.results && s'.results == s.results[result.id := result]
    && s'.observed == s.observed + [result] && StateIs(s'.states, result.id, Settled(result.Verdict()))
  }

  lemma ObservesInOrder(job: Job, s: Sched, s': Sched)
    requires Runnable(job) && Reached(job, s) && Step(job, s, s')
    ensures (s'.results == s.results && s'.observed == s.observed) || exists result :: Observes(s, s', result)
  {
    if SkipStep(job, s, s') {
      SkipObserves(job, s, FirstBlocked(job.gates, s.states).value);
    } else if k: nat :| SettleStep(job, s, k, s') {
      SettleObserves(job, s, k, job.execute(s.running[k]).status);
    }
  }

  lemma SkipObserves(job: Job, s: Sched, i: nat)
    requires Runnable(job) && Inv(job, s) && i < |job.gates| && Blocked(job.gates[i], s.states)
    ensures Observes(s, Settle(s, SkipResult(job.gates[i], s.states)), SkipResult(job.gates[i], s.states))
  {
    assert GateOk(job, s, job.gates[i].id);
  }

  lemma SettleObserves(job: Job, s: Sched, k: nat, status: Status)
    requires Runnable(job) && Inv(job, s) && k < |s.running|
    ensures Observes(s, AfterSettle(s, k, status), Executed(s.running[k], status))
  {
    assert s.running[k] in s.running && GateOk(job, s, s.running[k]);
  }

  lemma EachIsReached(job: Job, run: seq<Sched>, i: nat)
    requires Runnable(job) && IsRun(job, run) && i < |run|
    ensures Reached(job, run[i])
  {
    var init := run[..i + 1];
    RunPrefix(job, run, i + 1);
    EndIsReached(job, init);
    assert init[|init| - 1] == run[i];
  }

  // ---------- No stall ----------

  /** With nothing running and nothing ready, some pending gate has a failed or skipped need. */
  lemma PendingIsBlocked(job: Job, s: Sched)
    requires Runnable(job) && Inv(job, s) && s.running == []
    requires FirstReady(job.gates, s.states).None?
    requires exists id :: StateIs(s.states, id, Pending)
    ensures FirstBlocked(job.gates, s.states).Some?
  {
    if FirstBlocked(job.gates, s.states).None? {
      var pending := set id | id in s.states && s.states[id] == Pending;
      forall id | id in pending ensures HasSuccessorIn(ById(job.gates), pending, id) {
        var d := UnpassedNeed(job, s, id);
        assert GateOk(job, s, d);
        assert !Blocking(s.states, d);
        assert d in pending;
      }
      var id :| StateIs(s.states, id, Pending);
      assert id in pending;
      ClosedSetHasCycle(ById(job.gates), pending);
    }
  }

  /** A pending gate that is not ready has a listed need that did not pass. */
  lemma UnpassedNeed(job: Job, s: Sched, id: string) returns (d: string)
    requires Runnable(job) && Inv(job, s) && FirstReady(job.gates, s.states).None?
    requires StateIs(s.states, id, Pending)
    ensures Edge(ById(job.gates), id, d) && !StateIs(s.states, d, Settled(Passed))
    ensures FirstBlocked(job.gates, s.states).None? ==> !Blocking(s.states, d)
  {
    ByIdNodes(job.gates, id);
    var i :| 0 <= i < |job.gates| && job.gates[i].id == id;
    ByIdNeeds(job.gates, i);
    var gate := job.gates[i];
    assert !Ready(gate, s.states);
    d :| d in gate.needs && !StateIs(s.states, d, Settled(Passed));
    assert HasId(job.gates, d);
    ByIdNodes(job.gates, d);
    assert FirstBlocked(job.gates, s.states).None? ==> !Blocked(gate, s.states);
  }

  /** Deadlock freedom: the scheduler can always move until the run is over. */
  lemma NoStall(job: Job, s: Sched)
    requires Runnable(job) && Inv(job, s) && !Terminal(s)
    ensures exists s' :: Step(job, s, s')
  {
    if CanStart(job, s) {
      var s' := AfterStart(s, job.gates[FirstReady(job.gates, s.states).value].id);
      assert StartStep(job, s, s') && Step(job, s, s');
    } else if s.running != [] {
      match job.execute(s.running[0])
      case Resolves(status) =>
        var s' := AfterSettle(s, 0, status);
        assert SettleStep(job, s, 0, s') && Step(job, s, s');
      case Rejects =>
        var s' := s.(rejected := Some(s.running[0]));
        assert RejectStep(job, s, 0, s') && Step(job, s, s');
    } else {
      var id :| id in s.states && s.states[id] == Pending;
      assert StateIs(s.states, id, Pending);
      PendingIsBlocked(job, s);
      var s' := Settle(s, SkipResult(job.gates[FirstBlocked(job.gates, s.states).value], s.states));
      assert SkipStep(job, s, s') && Step(job, s, s');
    }
  }

  // ---------- Skips do not depend on the schedule either ----------

  /** The skip phase: the first blocked gate is skipped until none is left. */
  function SkipAll(gates: seq<Gate>, states: map<string, GateState>, results: map<string, GateResult>)
    : map<string, GateResult>
    requires UniqueIds(gates)
    decreases Work(gates, states)
  {
    match FirstBlocked(gates, states)
    case None => results
    case Some(i) =>
      var result := SkipResult(gates[i], states);
      WorkUpdate(gates, states, result.id, Settled(Skipped));
      assert HasId(gates, result.id);
      SkipAll(gates, states[result.id := Settled(Skipped)], results[result.id := result])
  }

  ghost predicate Completes(job: Job, id: string) {
    Runs(job, id) && job.execute(id).Resolves?
  }

  /** The states in which every gate that runs has settled and no gate is skipped yet. */
  ghost function RanStates(job: Job): map<string, GateState> {
    map id | id in ById(job.gates) :: if Completes(job, id) then Settled(job.execute(id).status) else Pending
  }

  ghost function RanResults(job: Job): map<string, GateResult> {
    map id | id in ById(job.gates) && Completes(job, id) :: Executed(id, job.execute(id).status)
  }

  /** The results of the job: a function of the graph and the outcomes alone. */
  ghost function JobResults(job: Job): map<string, GateResult>
    requires ValidGraph(job.gates)
  {
    SkipAll(job.gates, RanStates(job), RanResults(job))
  }

  ghost predicate NoSkipYet(s: Sched) {
    forall id :: id in s.results ==> s.results[id].Executed?
  }

  ghost predicate Quiet(job: Job, s: Sched) {
    s.running == [] && FirstReady(job.gates, s.states).None?
  }

  ghost predicate SkipOk(job: Job, s: Sched) {
    && (NoSkipYet(s) || Quiet(job, s))
    && (ValidGraph(job.gates) && Quiet(job, s) && s.rejected.None? ==>
          SkipAll(job.gates, s.states, s.results) == JobResults(job))
  }

  /** When the skip phase begins every gate that runs has settled. */
  lemma PendingDoesNotRun(job: Job, s: Sched, id: string)
    requires Runnable(job) && Inv(job, s) && NoSkipYet(s) && Quiet(job, s)
    requires StateIs(s.states, id, Pending)
    ensures !Runs(job, id)
  {
    var late := set x | x in s.states && s.states[x] == Pending && Runs(job, x);
    if id in late {
      forall x | x in late ensures HasSuccessorIn(ById(job.gates), late, x) {
        var d := UnpassedNeed(job, s, x);
        NeedsOfRunner(job, x, d);
        assert GateOk(job, s, d);
        assert d in late;
      }
      ClosedSetHasCycle(ById(job.gates), late);
    }
  }

  lemma SkipPhaseEntry(job: Job, s: Sched)
    requires Runnable(job) && Inv(job, s) && NoSkipYet(s) && Quiet(job, s)
    ensures s.states == RanStates(job) && s.results == RanResults(job)
  {
    forall id | id in s.states
      ensures s.states[id] == RanStates(job)[id]
      ensures id in s.results <==> id in RanResults(job)
      ensures id in s.results ==> s.results[id] == RanResults(job)[id]
    {
      assert GateOk(job, s, id);
      if s.states[id] == Pending { PendingDoesNotRun(job, s, id); }
    }
  }

  lemma InitialSkipOk(job: Job)
    requires Runnable(job)
    ensures SkipOk(job, Initial(job.gates))
  {
    var s := Initial(job.gates);
    InitialInv(job);
    if Quiet(job, s) {
      SkipPhaseEntry(job, s);
    }
  }

  /** One skip is one unfolding of the skip phase. */
  lemma SkipStepKeepsSkipOk(job: Job, s: Sched, s': Sched)
    requires Runnable(job) && Inv(job, s) && SkipOk(job, s) && s.rejected.None? && SkipStep(job, s, s')
    ensures SkipOk(job, s')
  {
  }

  lemma SkipMakesNothingReady(gates: seq<Gate>, states: map<string, GateState>, id: string)
    requires FirstReady(gates, states).None?
    ensures FirstReady(gates, states[id := Settled(Skipped)]).None?
  {
  }

  lemma OtherStepsSkipNothing(job: Job, s: Sched, s': Sched)
    requires SkipOk(job, s) && Step(job, s, s') && !SkipStep(job, s, s')
    ensures NoSkipYet(s')
  {
    assert NoSkipYet(s);
    assert forall id :: id in s'.results && id !in s.results ==> s'.results[id].Executed?;
  }

  lemma StepKeepsSkipOk(job: Job, s: Sched, s': Sched)
    requires Runnable(job) && Inv(job, s) && SkipOk(job, s) && Step(job, s, s')
    ensures SkipOk(job, s')
  {
    if SkipStep(job, s, s') {
      SkipStepKeepsSkipOk(job, s, s');
    } else {
      OtherStepsSkipNothing(job, s, s');
      if Quiet(job, s') && s'.rejected.None? {
        StepKeepsInv(job, s, s');
        SkipPhaseEntry(job, s');
      }
    }
  }

  // ---------- Schedule independence ----------

  /** What a finished, unrejected run recorded for each gate. */
  lemma CompletedVerdict(job: Job, s: Sched, id: string)
    requires Runnable(job) && Inv(job, s) && Terminal(s) && s.rejected.None? && id in ById(job.gates)
    ensures id in s.results
    ensures Runs(job, id) ==> job.execute(id).Resolves? && s.results[id] == Executed(id, job.execute(id).status)
    ensures !Runs(job, id) ==> s.results[id].SkippedFor?
  {
  }

  /** A skipped gate names at least one need, and only needs that failed or were skipped. */
  lemma SkippedNamesNeeds(job: Job, s: Sched, id: string)
    requires Runnable(job) && Inv(job, s) && id in s.results && s.results[id].SkippedFor?
    ensures s.results[id].id == id && s.results[id].failedNeeds != []
    ensures forall d :: d in s.results[id].failedNeeds ==>
              Edge(ById(job.gates), id, d) && d in s.results && Unsuccessful(s.results[d])
  {
  }

  /** The places of the needs that are failed or skipped, in the order of the list. */
  ghost predicate BlockingPlaces(needs: seq<string>, states: map<string, GateState>, places: seq<nat>) {
    && (forall k :: 0 <= k < |places| ==> places[k] < |needs|)
    && (forall k, l :: 0 <= k < l < |places| ==> places[k] < places[l])
    && forall i: nat :: i < |needs| ==>
         (i in places <==> StateIs(states, needs[i], Settled(Failed)) || StateIs(states, needs[i], Settled(Skipped)))
  }

  lemma {:induction false} FailedNeedsExactly(needs: seq<string>, states: map<string, GateState>)
    returns (places: seq<nat>)
    ensures BlockingPlaces(needs, states, places) && |places| == |FailedNeeds(needs, states)|
    ensures forall k :: 0 <= k < |places| ==> FailedNeeds(needs, states)[k] == needs[places[k]]
  {
    if needs == [] {
      places := [];
    } else {
      var rest := FailedNeedsExactly(needs[1..], states);
      var later: seq<nat> := seq(|rest|, k requires 0 <= k < |rest| => rest[k] + 1);
      var tail := FailedNeeds(needs[1..], states);
      assert forall k :: 0 <= k < |later| ==> tail[k] == needs[later[k]];
      places := if Blocking(states, needs[0]) then [0] + later else later;
      FirstPlaces(needs, states, rest, later, places);
      if Blocking(states, needs[0]) { FirstReport(needs, tail, later); }
    }
  }

  lemma FirstReport(needs: seq<string>, tail: seq<string>, later: seq<nat>)
    requires needs != [] && |tail| == |later|
    requires forall k :: 0 <= k < |later| ==> later[k] < |needs| && tail[k] == needs[later[k]]
    ensures forall k :: 0 <= k <= |later| ==> ([0] + later)[k] < |needs|
    ensures forall k :: 0 <= k <= |later| ==> ([needs[0]] + tail)[k] == needs[([0] + later)[k]]
  {
  }

  lemma FirstPlaces(needs: seq<string>, states: map<string, GateState>, rest: seq<nat>, later: seq<nat>,
                    places: seq<nat>)
    requires needs != [] && BlockingPlaces(needs[1..], states, rest)
    requires |later| == |rest| && forall k :: 0 <= k < |rest| ==> later[k] == rest[k] + 1
    requires places == if Blocking(states, needs[0]) then [0] + later else later
    ensures BlockingPlaces(needs, states, places)
  {
    forall i: nat | i < |needs| ensures i in places <==> Blocking(states, needs[i]) {
      if i > 0 { LaterPlace(needs, states, rest, later, places, i); }
    }
  }

  lemma LaterPlace(needs: seq<string>, states: map<string, GateState>, rest: seq<nat>, later: seq<nat>,
                   places: seq<nat>, i: nat)
    requires 0 < i < |needs| && BlockingPlaces(needs[1..], states, rest)
    requires |later| == |rest| && forall k :: 0 <= k < |rest| ==> later[k] == rest[k] + 1
    requires places == later || places == [0] + later
    ensures i in places <==> Blocking(states, needs[i])
  {
    assert needs[1..][i - 1] == needs[i];
    if i - 1 in rest {
      var k :| 0 <= k < |rest| && rest[k] == i - 1;
      assert later[k] in later;
    }
    if i in places {
      var k :| 0 <= k < |later| && later[k] == i;
      assert rest[k] in rest;
    }
  }

  /** A skip, in a state where nothing runs or can start, reports the failed or skipped needs, all and in order. */
  lemma SkipReports(job: Job, s: Sched, s': Sched, id: string)
    requires Runnable(job) && Reached(job, s) && Step(job, s, s')
    requires id in s'.results && id !in s.results && s'.results[id].SkippedFor?
    ensures s.running == [] && NoneReady(job, s) && id in ById(job.gates)
    ensures exists places :: BlockingPlaces(ById(job.gates)[id], s.states, places)
              && |s'.results[id].failedNeeds| == |places| > 0
              && forall k :: 0 <= k < |places| ==> s'.results[id].failedNeeds[k] == ById(job.gates)[id][places[k]]
  {
    assert SkipStep(job, s, s');
    var i := FirstBlocked(job.gates, s.states).value;
    ByIdNeeds(job.gates, i);
    var places := FailedNeedsExactly(job.gates[i].needs, s.states);
    NoneReadyHere(job, s);
    BlockedDoesNotRun(job, s, i);
  }

  /** A walk from a gate to one that is executed and does not pass. */
  ghost predicate Blames(job: Job, id: string, w: seq<string>) {
    Walk(ById(job.gates), w) && |w| >= 2 && w[0] == id && Runs(job, w[|w| - 1]) && !Passes(job, w[|w| - 1])
  }

  /** A gate is skipped exactly when it transitively needs one that was executed and did not pass. */
  lemma SkippedExactlyWhen(job: Job, id: string)
    requires ValidGraph(job.gates) && id in ById(job.gates)
    ensures !Runs(job, id) <==> exists w :: Blames(job, id, w)
  {
    var g := ById(job.gates);
    var blameless := set x | x in g && !Runs(job, x) && forall w :: !Blames(job, x, w);
    if id in blameless {
      forall x | x in blameless ensures HasSuccessorIn(g, blameless, x) {
        var d := BlamelessNeed(job, x);
        assert d in blameless;
      }
      ClosedSetHasCycle(g, blameless);
    }
  }

  lemma BlamelessNeed(job: Job, x: string) returns (d: string)
    requires x in ById(job.gates) && !Runs(job, x) && forall w :: !Blames(job, x, w)
    ensures Edge(ById(job.gates), x, d) && !Runs(job, d) && forall w :: !Blames(job, d, w)
  {
    var g := ById(job.gates);
    if forall y :: Edge(g, x, y) ==> Runs(job, y) && Passes(job, y) {
      RunnerFromNeeds(job, x);
    }
    d :| Edge(g, x, d) && !(Runs(job, d) && Passes(job, d));
    assert !Blames(job, x, [x, d]);
    forall w ensures !Blames(job, d, w) {
      if Blames(job, d, w) { BlamesCons(job, x, d, w); }
    }
  }

  lemma BlamesCons(job: Job, x: string, d: string, w: seq<string>)
    requires Edge(ById(job.gates), x, d) && Blames(job, d, w)
    ensures Blames(job, x, [x] + w)
  {
    WalkCons(ById(job.gates), x, w);
  }

  /**
   * All schedules agree: a completed run's results are the job's own, so the
   * status and even the reported failed needs of each gate are independent of
   * the concurrency bound and of the order in which gates settle.
   */
  lemma ScheduleIndependence(job: Job, run: seq<Sched>)
    requires Runnable(job) && IsRun(job, run)
    requires Terminal(run[|run| - 1]) && run[|run| - 1].rejected.None?
    ensures run[|run| - 1].results == JobResults(job)
    ensures forall id :: id in ById(job.gates) ==>
              && id in JobResults(job)
              && (if Runs(job, id)
                  then job.execute(id).Resolves? && JobResults(job)[id] == Executed(id, job.execute(id).status)
                  else JobResults(job)[id].SkippedFor?)
  {
    EndIsReached(job, run);
    var last := run[|run| - 1];
    assert FirstReady(job.gates, last.states).None? && FirstBlocked(job.gates, last.states).None?;
    forall id | id in ById(job.gates)
      ensures id in last.results
      ensures if Runs(job, id)
              then job.execute(id).Resolves? && last.results[id] == Executed(id, job.execute(id).status)
              else last.results[id].SkippedFor?
    {
      CompletedVerdict(job, last, id);
    }
  }

  /** The bound has no part in what the results are. */
  lemma BoundIsNoInput(job: Job, m: int)
    requires ValidGraph(job.gates)
    ensures JobResults(job.(maxActive := m)) == JobResults(job)
  {
    var other := job.(maxActive := m);
    assert forall id :: Runs(other, id) <==> Runs(job, id);
    assert RanStates(other) == RanStates(job) && RanResults(other) == RanResults(job);
  }

  /** Any two completed runs, under any two bounds, leave the same results. */
  lemma TwoRunsAgree(job: Job, m: int, run: seq<Sched>, run': seq<Sched>)
    requires Runnable(job) && Runnable(job.(maxActive := m)) && IsRun(job, run) && IsRun(job.(maxActive := m), run')
    requires Terminal(run[|run| - 1]) && run[|run| - 1].rejected.None?
    requires Terminal(run'[|run'| - 1]) && run'[|run'| - 1].rejected.None?
    ensures run[|run| - 1].results == run'[|run'| - 1].results
  {
    BoundIsNoInput(job, m);
    ScheduleIndependence(job, run);
    ScheduleIndependence(job.(maxActive := m), run');
  }

  /** How a run ends, by exception or normally, is the same for every schedule. */
  lemma EndingIsScheduleIndependent(job: Job, run: seq<Sched>)
    requires Runnable(job) && IsRun(job, run) && Terminal(run[|run| - 1])
    ensures run[|run| - 1].rejected.Some?
            <==> exists id :: id in ById(job.gates) && Runs(job, id) && job.execute(id).Rejects?
  {
    EndIsReached(job, run);
    var last := run[|run| - 1];
    if last.rejected.Some? {
      assert GateOk(job, last, last.rejected.value);
    } else {
      forall id | id in ById(job.gates) && Runs(job, id) ensures job.execute(id).Resolves? {
        CompletedVerdict(job, last, id);
      }
    }
  }

  /** By the end of a completed run every gate has been observed exactly once. */
  lemma ObservedExactlyOnce(job: Job, run: seq<Sched>, id: string)
    requires Runnable(job) && IsRun(job, run) && id in ById(job.gates)
    requires Terminal(run[|run| - 1]) && run[|run| - 1].rejected.None?
    ensures var log := run[|run| - 1].observed;
            exists i :: 0 <= i < |log| && log[i].id == id && forall j :: 0 <= j < |log| && j != i ==> log[j].id != id
  {
    EndIsReached(job, run);
    var last := run[|run| - 1];
    CompletedVerdict(job, last, id);
    assert GateOk(job, last, id);
    var i :| 0 <= i < |last.observed| && last.observed[i] == last.results[id];
  }

  // ---------- runGates ----------

  const MAX_SAFE_INTEGER: int := 0x1F_FFFF_FFFF_FFFF

  datatype RunError =
    | InvalidGraph(error: GraphError)
    | InvalidConcurrency
    | ExecutorRejected(id: string)

  lemma RunSnoc(job: Job, run: seq<Sched>, s': Sched)
    requires IsRun(job, run) && Step(job, run[|run| - 1], s')
    ensures IsRun(job, run + [s'])
  {
  }

  /** The scheduler's loop variables stand at the end of a run. */
  ghost predicate At(job: Job, run: seq<Sched>, s: Sched) {
    IsRun(job, run) && run[|run| - 1] == s && Reached(job, s)
  }

  /** Every assignment of the scheduler's loop is a step of the machine. */
  lemma Advance(job: Job, run: seq<Sched>, s: Sched, s': Sched)
    requires Runnable(job) && At(job, run, s) && Step(job, s, s')
    ensures At(job, run + [s'], s')
    ensures s'.rejected.None? ==> Work(job.gates, s'.states) < Work(job.gates, s.states)
  {
    RunSnoc(job, run, s');
    StepKeepsReached(job, s, s');
    StepDoesWork(job, s, s');
  }

  predicate AnyPending(gates: seq<Gate>, states: map<string, GateState>) {
    exists i :: 0 <= i < |gates| && StateIs(states, gates[i].id, Pending)
  }

  /** The start loop: fill the pool in gate order. */
  method StartReady(job: Job, s0: Sched, ghost run0: seq<Sched>)
    returns (s: Sched, madeProgress: bool, ghost run: seq<Sched>)
    requires Runnable(job) && At(job, run0, s0) && s0.rejected.None?
    ensures At(job, run, s) && s.rejected.None? && !CanStart(job, s)
    ensures if madeProgress then Work(job.gates, s.states) < Work(job.gates, s0.states) else s == s0
  {
    s, run, madeProgress := s0, run0, false;
    while |s.running| < job.maxActive
      invariant At(job, run, s) && s.rejected.None?
      invariant if madeProgress then Work(job.gates, s.states) < Work(job.gates, s0.states) else s == s0
      decreases Work(job.gates, s.states)
    {
      var ready := FirstReady(job.gates, s.states);
      if ready.None? {
        break;
      }
      var s' := AfterStart(s, job.gates[ready.value].id);
      assert StartStep(job, s, s');
      Advance(job, run, s, s');
      s, run, madeProgress := s', run + [s'], true;
    }
  }

  /** The skip loop: with nothing running, every gate still pending is skipped; it never stalls. */
  method SkipPending(job: Job, s0: Sched, ghost run0: seq<Sched>) returns (s: Sched, ghost run: seq<Sched>)
    requires Runnable(job) && At(job, run0, s0) && s0.rejected.None? && !CanStart(job, s0) && s0.running == []
    ensures At(job, run, s) && s.rejected.None? && Terminal(s)
  {
    s, run := s0, run0;
    while AnyPending(job.gates, s.states)
      invariant At(job, run, s) && s.rejected.None? && !CanStart(job, s) && s.running == []
      decreases Work(job.gates, s.states)
    {
      PendingIsBlocked(job, s);
      var i := FirstBlocked(job.gates, s.states).value;
      var s' := Settle(s, SkipResult(job.gates[i], s.states));
      assert SkipStep(job, s, s');
      Advance(job, run, s, s');
      SkipMakesNothingReady(job.gates, s.states, job.gates[i].id);
      s, run := s', run + [s'];
    }
    forall id | id in s.states ensures s.states[id] != Pending {
      ByIdNodes(job.gates, id);
    }
  }

  /** A rejected executor promise ends the run. */
  lemma Abort(job: Job, run0: seq<Sched>, s: Sched, k: nat) returns (run: seq<Sched>)
    requires Runnable(job) && At(job, run0, s) && s.rejected.None? && !CanStart(job, s)
    requires k < |s.running| && job.execute(s.running[k]).Rejects?
    ensures IsRun(job, run) && Terminal(run[|run| - 1]) && run[|run| - 1].observed == s.observed
    ensures s.running[k] in ById(job.gates) && Runs(job, s.running[k])
  {
    var s' := s.(rejected := Some(s.running[k]));
    assert RejectStep(job, s, k, s');
    Advance(job, run0, s, s');
    run := run0 + [s'];
    assert s.running[k] in s.running;
    assert GateOk(job, s, s.running[k]);
  }

  /** The answer: the recorded results in gate order. */
  function InGateOrder(gates: seq<Gate>, results: map<string, GateResult>): (r: seq<GateResult>)
    requires forall i :: 0 <= i < |gates| ==> gates[i].id in results
    ensures |r| == |gates| && forall i :: 0 <= i < |gates| ==> r[i] == results[gates[i].id]
  {
    seq(|gates|, i requires 0 <= i < |gates| => results[gates[i].id])
  }

  /** A completed run has a result for every gate, and no gate that runs rejects. */
  lemma Conclude(job: Job, run: seq<Sched>, s: Sched)
    requires Runnable(job) && At(job, run, s) && Terminal(s) && s.rejected.None?
    ensures s.results == JobResults(job)
    ensures forall i :: 0 <= i < |job.gates| ==> job.gates[i].id in s.results
    ensures forall id :: id in ById(job.gates) && Runs(job, id) ==> job.execute(id).Resolves?
  {
    ScheduleIndependence(job, run);
    forall i | 0 <= i < |job.gates| ensures job.gates[i].id in s.results {
      ByIdNeeds(job.gates, i);
    }
  }

  /**
   * `runGates`.  Nothing starts unless the graph is valid and the bound a positive
   * safe integer.  It then performs a run of the machine to its end: it throws
   * exactly when some gate that runs has a rejecting executor, and otherwise
   * answers the job's results in gate order.
   */
  method RunGates(job: Job)
    returns (r: Result<seq<GateResult>, RunError>, observed: seq<GateResult>, ghost run: seq<Sched>)
    ensures !ValidGraph(job.gates) <==> r.Failure? && r.error.InvalidGraph?
    ensures ValidGraph(job.gates) && !(1 <= job.maxActive <= MAX_SAFE_INTEGER)
            <==> r == Failure(InvalidConcurrency)
    ensures r.Failure? && !r.error.ExecutorRejected? ==> observed == [] && run == []
    ensures ValidGraph(job.gates) && 1 <= job.maxActive <= MAX_SAFE_INTEGER ==>
              IsRun(job, run) && Terminal(run[|run| - 1]) && observed == run[|run| - 1].observed
    ensures ValidGraph(job.gates) && 1 <= job.maxActive <= MAX_SAFE_INTEGER ==>
              (r.Success? <==> forall id :: id in ById(job.gates) && Runs(job, id) ==> job.execute(id).Resolves?)
    ensures r.Success? ==> |r.value| == |job.gates|
    ensures r.Success? ==> forall i :: 0 <= i < |job.gates| ==>
              job.gates[i].id in JobResults(job) && r.value[i] == JobResults(job)[job.gates[i].id]
    ensures r.Failure? && r.error.ExecutorRejected? ==>
              r.error.id in ById(job.gates) && Runs(job, r.error.id) && job.execute(r.error.id).Rejects?
  {
    observed, run := [], [];
    var invalid := ValidateGateGraph(job.gates);
    if invalid.Some? {
      return Failure(InvalidGraph(invalid.value)), observed, run;
    }
    if job.maxActive < 1 || job.maxActive > MAX_SAFE_INTEGER {
      return Failure(InvalidConcurrency), observed, run;
    }
    var s := Initial(job.gates);
    InitialReached(job);
    run := [s];
    while true
      invariant At(job, run, s) && s.rejected.None?
      decreases Work(job.gates, s.states)
    {
      var madeProgress;
      s, madeProgress, run := StartReady(job, s, run);
      if |s.running| == 0 {
        s, run := SkipPending(job, s, run);
        break;
      }
      if !madeProgress {
        var k :| 0 <= k < |s.running|;
        match job.execute(s.running[k])
        case Rejects =>
          run := Abort(job, run, s, k);
          return Failure(ExecutorRejected(s.running[k])), s.observed, run;
        case Resolves(status) =>
          var s' := AfterSettle(s, k, status);
          assert SettleStep(job, s, k, s');
          Advance(job, run, s, s');
          s, run := s', run + [s'];
      }
    }
    Conclude(job, run, s);
    return Success(InGateOrder(job.gates, s.results)), s.observed, run;
  }

  // ---------- The exit code ----------

  predicate Unsuccessful(result: GateResult) {
    result.Verdict() == Failed || result.Verdict() == Skipped
  }

  /** The exit code rule of `main`. */
  function ExitCode(gates: seq<Gate>, results: seq<GateResult>): int
    requires |gates| == |results|
  {
    if exists i | 0 <= i < |gates| :: !gates[i].allowFailure && Unsuccessful(results[i]) then 1 else 0
  }

  /** Any completed run exits 0 exactly when every gate not allowed to fail runs and passes. */
  lemma ExitCodeMeaning(job: Job, run: seq<Sched>)
    requires Runnable(job) && IsRun(job, run)
    requires Terminal(run[|run| - 1]) && run[|run| - 1].rejected.None?
    ensures forall i :: 0 <= i < |job.gates| ==> job.gates[i].id in run[|run| - 1].results
    ensures ExitCode(job.gates, InGateOrder(job.gates, run[|run| - 1].results)) == 0 <==>
            forall i :: 0 <= i < |job.gates| && !job.gates[i].allowFailure ==>
                          Runs(job, job.gates[i].id) && Passes(job, job.gates[i].id)
  {
    EndIsReached(job, run);
    var last := run[|run| - 1];
    forall i | 0 <= i < |job.gates|
      ensures job.gates[i].id in last.results
      ensures Unsuccessful(last.results[job.gates[i].id])
              <==> !(Runs(job, job.gates[i].id) && Passes(job, job.gates[i].id))
    {
      UnsuccessfulMeaning(job, last, i);
    }
  }

  lemma UnsuccessfulMeaning(job: Job, s: Sched, i: nat)
    requires Runnable(job) && Inv(job, s) && Terminal(s) && s.rejected.None? && i < |job.gates|
    ensures job.gates[i].id in s.results
    ensures Unsuccessful(s.results[job.gates[i].id])
            <==> !(Runs(job, job.gates[i].id) && Passes(job, job.gates[i].id))
  {
    ByIdNeeds(job.gates, i);
    CompletedVerdict(job, s, job.gates[i].id);
  }
}
