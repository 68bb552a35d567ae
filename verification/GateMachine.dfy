/**
 * The bounded-concurrency scheduler of `scripts/run-gates.ts` as a step machine.
 * One step starts a gate, settles any one running gate, or skips a gate; which
 * running gate settles is left open, because `Promise.race` may answer any.
 */
module GateMachine {
  import opened Wrappers
  import opened Digraph
  import opened GateGraph

  datatype Status = Passed | Failed | Skipped

  datatype GateState = Pending | Running | Settled(status: Status)

  /** What the injected executor's promise does for one gate. */
  datatype Outcome = Resolves(status: Status) | Rejects

  datatype GateResult =
    | Executed(id: string, status: Status)
    | SkippedFor(id: string, failedNeeds: seq<string>)
  {
    function Verdict(): Status {
      if Executed? then status else Skipped
    }
  }

  datatype Job = Job(gates: seq<Gate>, maxActive: int, execute: string -> Outcome)

  /**
   * The scheduler's variables.  `started` lists the executor calls and `observed`
   * the observer calls, both in order; `rejected` is the promise that threw.
   */
  datatype Sched = Sched(
    states: map<string, GateState>,
    running: seq<string>,
    started: seq<string>,
    results: map<string, GateResult>,
    observed: seq<GateResult>,
    rejected: Option<string>)

  // ---------- The choices the scheduler makes ----------

  predicate StateIs(states: map<string, GateState>, id: string, state: GateState) {
    id in states && states[id] == state
  }

  predicate DependenciesPassed(gate: Gate, states: map<string, GateState>) {
    forall d | d in gate.needs :: StateIs(states, d, Settled(Passed))
  }

  predicate Ready(gate: Gate, states: map<string, GateState>) {
    StateIs(states, gate.id, Pending) && DependenciesPassed(gate, states)
  }

  predicate Blocking(states: map<string, GateState>, id: string) {
    StateIs(states, id, Settled(Failed)) || StateIs(states, id, Settled(Skipped))
  }

  predicate Blocked(gate: Gate, states: map<string, GateState>) {
    StateIs(states, gate.id, Pending) && exists d | d in gate.needs :: Blocking(states, d)
  }

  /** The needs a skipped gate reports. */
  function FailedNeeds(needs: seq<string>, states: map<string, GateState>): (r: seq<string>)
    ensures forall d :: d in r <==> d in needs && Blocking(states, d)
  {
    if needs == [] then []
    else (if Blocking(states, needs[0]) then [needs[0]] else []) + FailedNeeds(needs[1..], states)
  }

  /** `gates.find` for a ready gate. */
  function FirstReady(gates: seq<Gate>, states: map<string, GateState>, from: nat := 0): (r: Option<nat>)
    requires from <= |gates|
    ensures r.None? ==> forall i :: from <= i < |gates| ==> !Ready(gates[i], states)
    ensures r.Some? ==> from <= r.value < |gates| && Ready(gates[r.value], states)
    ensures r.Some? ==> forall i :: from <= i < r.value ==> !Ready(gates[i], states)
    decreases |gates| - from
  {
    if from == |gates| then None
    else if Ready(gates[from], states) then Some(from)
    else FirstReady(gates, states, from + 1)
  }

  /** `pending.find` for a gate with a failed or skipped need. */
  function FirstBlocked(gates: seq<Gate>, states: map<string, GateState>, from: nat := 0): (r: Option<nat>)
    requires from <= |gates|
    ensures r.None? ==> forall i :: from <= i < |gates| ==> !Blocked(gates[i], states)
    ensures r.Some? ==> from <= r.value < |gates| && Blocked(gates[r.value], states)
    ensures r.Some? ==> forall i :: from <= i < r.value ==> !Blocked(gates[i], states)
    decreases |gates| - from
  {
    if from == |gates| then None
    else if Blocked(gates[from], states) then Some(from)
    else FirstBlocked(gates, states, from + 1)
  }

  // ---------- Steps and runs ----------

  function InitialStates(gates: seq<Gate>): map<string, GateState> {
    map id | id in ById(gates) :: Pending
  }

  function Initial(gates: seq<Gate>): Sched {
    Sched(InitialStates(gates), [], [], map[], [], None)
  }

  predicate CanStart(job: Job, s: Sched) {
    |s.running| < job.maxActive && FirstReady(job.gates, s.states).Some?
  }

  function AfterStart(s: Sched, id: string): Sched {
    s.(states := s.states[id := Running], running := s.running + [id], started := s.started + [id])
  }

  function Settle(s: Sched, result: GateResult): Sched {
    s.(states := s.states[result.id := Settled(result.Verdict())],
       results := s.results[result.id := result],
       observed := s.observed + [result])
  }

  function AfterSettle(s: Sched, k: nat, status: Status): Sched
    requires k < |s.running|
  {
    Settle(s.(running := s.running[..k] + s.running[k + 1..]), Executed(s.running[k], status))
  }

  function SkipResult(gate: Gate, states: map<string, GateState>): GateResult {
    SkippedFor(gate.id, FailedNeeds(gate.needs, states))
  }

  ghost predicate StartStep(job: Job, s: Sched, s': Sched) {
    && CanStart(job, s)
    && s' == AfterStart(s, job.gates[FirstReady(job.gates, s.states).value].id)
  }

  /** Waiting happens only when no gate can start. */
  ghost predicate SettleStep(job: Job, s: Sched, k: nat, s': Sched) {
    && !CanStart(job, s) && k < |s.running|
    && job.execute(s.running[k]).Resolves?
    && s' == AfterSettle(s, k, job.execute(s.running[k]).status)
  }

  ghost predicate RejectStep(job: Job, s: Sched, k: nat, s': Sched) {
    && !CanStart(job, s) && k < |s.running|
    && job.execute(s.running[k]).Rejects?
    && s' == s.(rejected := Some(s.running[k]))
  }

  ghost predicate SkipStep(job: Job, s: Sched, s': Sched) {
    && !CanStart(job, s) && s.running == []
    && FirstBlocked(job.gates, s.states).Some?
    && s' == Settle(s, SkipResult(job.gates[FirstBlocked(job.gates, s.states).value], s.states))
  }

  ghost predicate Step(job: Job, s: Sched, s': Sched) {
    && s.rejected.None?
    && (|| StartStep(job, s, s')
        || (exists k: nat :: SettleStep(job, s, k, s'))
        || (exists k: nat :: RejectStep(job, s, k, s'))
        || SkipStep(job, s, s'))
  }

  ghost predicate Terminal(s: Sched) {
    s.rejected.Some? || (s.running == [] && forall id :: id in s.states ==> s.states[id] != Pending)
  }

  ghost predicate Steps(job: Job, run: seq<Sched>) {
    forall i {:trigger run[i]} :: 0 <= i < |run| - 1 ==> Step(job, run[i], run[i + 1])
  }

  ghost predicate IsRun(job: Job, run: seq<Sched>) {
    run != [] && run[0] == Initial(job.gates) && Steps(job, run)
  }

  ghost predicate Runnable(job: Job) {
    ValidGraph(job.gates) && job.maxActive >= 1
  }

  // ---------- The recursive meaning of a gate list ----------

  ghost predicate Passes(job: Job, id: string) {
    job.execute(id) == Resolves(Passed)
  }

  /** A gate runs iff everything it transitively needs passes. */
  ghost predicate Runs(job: Job, id: string) {
    forall w {:trigger Walk(ById(job.gates), w)} ::
      Walk(ById(job.gates), w) && |w| >= 2 && w[0] == id ==> Passes(job, w[|w| - 1])
  }

  /** If a gate runs then its needs run and pass. */
  lemma NeedsOfRunner(job: Job, id: string, d: string)
    requires Runs(job, id) && Edge(ById(job.gates), id, d)
    ensures Runs(job, d) && Passes(job, d)
  {
    var g := ById(job.gates);
    assert Walk(g, [id, d]);
    forall w | Walk(g, w) && |w| >= 2 && w[0] == d ensures Passes(job, w[|w| - 1]) {
      WalkCons(g, id, w);
    }
  }

  /** If every need of a gate runs and passes then the gate runs. */
  lemma RunnerFromNeeds(job: Job, id: string)
    requires forall d :: Edge(ById(job.gates), id, d) ==> Runs(job, d) && Passes(job, d)
    ensures Runs(job, id)
  {
    var g := ById(job.gates);
    forall w | Walk(g, w) && |w| >= 2 && w[0] == id ensures Passes(job, w[|w| - 1]) {
      WalkTail(g, w);
      if |w| > 2 {
        assert Runs(job, w[1]);
        assert Walk(g, w[1..]);
      }
    }
  }

  // ---------- What every step keeps ----------

  ghost predicate ResultOk(job: Job, s: Sched, id: string)
    requires id in s.results
  {
    match s.results[id]
    case Executed(x, status) =>
      x == id && Runs(job, id) && job.execute(id) == Resolves(status) && id in s.started
    case SkippedFor(x, failed) =>
      && x == id && !Runs(job, id) && id !in s.started && failed != []
      && forall d :: d in failed ==> Edge(ById(job.gates), id, d) && Blocking(s.states, d)
  }

  ghost predicate GateOk(job: Job, s: Sched, id: string)
    requires id in s.states
  {
    match s.states[id]
    case Pending => id !in s.started && id !in s.running && id !in s.results
    case Running => id in s.started && id in s.running && id !in s.results && Runs(job, id)
    case Settled(status) =>
      && id !in s.running
      && id in s.results && s.results[id].Verdict() == status && ResultOk(job, s, id)
  }

  /** Observer calls and recorded results are the same thing, once per gate. */
  ghost predicate ObservedOk(s: Sched) {
    && (forall i :: 0 <= i < |s.observed| ==>
          s.observed[i].id in s.results && s.results[s.observed[i].id] == s.observed[i])
    && (forall id :: id in s.results ==> s.results[id] in s.observed)
    && (forall i, j :: 0 <= i < j < |s.observed| ==> s.observed[i].id != s.observed[j].id)
  }

  ghost predicate Inv(job: Job, s: Sched) {
    && s.states.Keys == ById(job.gates).Keys
    && s.results.Keys <= s.states.Keys
    && (forall id :: id in s.states ==> GateOk(job, s, id))
    && Distinct(s.running) && (forall id :: id in s.running ==> StateIs(s.states, id, Running))
    && Distinct(s.started) && (forall id :: id in s.started ==> id in s.states)
    && |s.running| <= job.maxActive
    && ObservedOk(s)
    && (s.rejected.Some? ==> s.rejected.value in s.running && job.execute(s.rejected.value).Rejects?)
  }

  lemma InitialInv(job: Job)
    requires Runnable(job)
    ensures Inv(job, Initial(job.gates))
  {
  }

  /** Needs that have passed justify running the gate. */
  lemma ReadyRuns(job: Job, s: Sched, i: nat)
    requires Runnable(job) && Inv(job, s) && i < |job.gates| && Ready(job.gates[i], s.states)
    ensures Runs(job, job.gates[i].id)
  {
    var gate := job.gates[i];
    ByIdNeeds(job.gates, i);
    forall d | Edge(ById(job.gates), gate.id, d) ensures Runs(job, d) && Passes(job, d) {
      assert GateOk(job, s, d);
    }
    RunnerFromNeeds(job, gate.id);
  }

  /** A failed or skipped need forbids running the gate. */
  lemma BlockedDoesNotRun(job: Job, s: Sched, i: nat)
    requires Runnable(job) && Inv(job, s) && i < |job.gates| && Blocked(job.gates[i], s.states)
    ensures !Runs(job, job.gates[i].id)
    ensures FailedNeeds(job.gates[i].needs, s.states) != []
    ensures forall d :: d in FailedNeeds(job.gates[i].needs, s.states) ==> Edge(ById(job.gates), job.gates[i].id, d)
  {
    var gate := job.gates[i];
    ByIdNeeds(job.gates, i);
    var d :| d in gate.needs && Blocking(s.states, d);
    assert d in FailedNeeds(gate.needs, s.states);
    assert GateOk(job, s, d);
    if Runs(job, gate.id) {
      NeedsOfRunner(job, gate.id, d);
    }
  }

  lemma StartKeepsInv(job: Job, s: Sched, s': Sched)
    requires Runnable(job) && Inv(job, s) && s.rejected.None? && StartStep(job, s, s')
    ensures Inv(job, s')
  {
    var i := FirstReady(job.gates, s.states).value;
    var id := job.gates[i].id;
    ReadyRuns(job, s, i);
    assert GateOk(job, s, id);
    forall x | x in s'.states ensures GateOk(job, s', x) {
      assert GateOk(job, s, x);
    }
  }

  /** Recording a first result keeps the observer log in step. */
  lemma ObserveKeepsLog(s: Sched, result: GateResult)
    requires ObservedOk(s) && result.id !in s.results
    ensures ObservedOk(Settle(s, result))
  {
  }

  /** Splicing out one entry of a repetition-free list removes exactly that entry. */
  lemma SpliceOut<T>(s: seq<T>, k: nat, x: T)
    requires k < |s| && Distinct(s)
    ensures x in s[..k] + s[k + 1..] <==> x in s && x != s[k]
  {
  }

  lemma SettleKeepsGates(job: Job, s: Sched, k: nat, s': Sched)
    requires Runnable(job) && Inv(job, s) && SettleStep(job, s, k, s')
    ensures forall x :: x in s'.states ==> GateOk(job, s', x)
  {
    var id := s.running[k];
    assert id in s.running && GateOk(job, s, id);
    forall x | x in s'.states ensures GateOk(job, s', x) {
      assert GateOk(job, s, x);
      SpliceOut(s.running, k, x);
    }
  }

  lemma SettleKeepsInv(job: Job, s: Sched, k: nat, s': Sched)
    requires Runnable(job) && Inv(job, s) && s.rejected.None? && SettleStep(job, s, k, s')
    ensures Inv(job, s')
  {
    SettleKeepsGates(job, s, k, s');
    assert s.running[k] in s.running && GateOk(job, s, s.running[k]);
    ObserveKeepsLog(s.(running := s'.running), Executed(s.running[k], job.execute(s.running[k]).status));
    forall id | id in s'.running ensures StateIs(s'.states, id, Running) {
      SpliceOut(s.running, k, id);
    }
  }

  lemma SkipKeepsGates(job: Job, s: Sched, i: nat)
    requires Runnable(job) && Inv(job, s) && i < |job.gates| && Blocked(job.gates[i], s.states)
    ensures var s' := Settle(s, SkipResult(job.gates[i], s.states));
            forall x :: x in s'.states ==> GateOk(job, s', x)
  {
    var r := SkipResult(job.gates[i], s.states);
    assert GateOk(job, s, r.id);
    forall x | x in Settle(s, r).states ensures GateOk(job, Settle(s, r), x) {
      assert GateOk(job, s, x);
      if x == r.id { SkippedIsOk(job, s, i); } else { OthersStayOk(job, s, r, x); }
    }
  }

  /** Settling one gate leaves the account of the others as it was. */
  lemma OthersStayOk(job: Job, s: Sched, r: GateResult, x: string)
    requires x in s.states && x != r.id && GateOk(job, s, x) && StateIs(s.states, r.id, Pending)
    ensures GateOk(job, Settle(s, r), x)
  {
  }

  /** A skipped gate is accounted for. */
  lemma SkippedIsOk(job: Job, s: Sched, i: nat)
    requires Runnable(job) && Inv(job, s) && i < |job.gates| && Blocked(job.gates[i], s.states)
    ensures GateOk(job, Settle(s, SkipResult(job.gates[i], s.states)), job.gates[i].id)
  {
    BlockedDoesNotRun(job, s, i);
    assert GateOk(job, s, job.gates[i].id);
  }

  lemma SkipKeepsInv(job: Job, s: Sched, s': Sched)
    requires Runnable(job) && Inv(job, s) && s.rejected.None? && SkipStep(job, s, s')
    ensures Inv(job, s')
  {
    var i := FirstBlocked(job.gates, s.states).value;
    SkipKeepsGates(job, s, i);
    assert GateOk(job, s, job.gates[i].id);
    ObserveKeepsLog(s, SkipResult(job.gates[i], s.states));
  }

  /** The step invariant: every step of every schedule keeps it. */
  lemma StepKeepsInv(job: Job, s: Sched, s': Sched)
    requires Runnable(job) && Inv(job, s) && Step(job, s, s')
    ensures Inv(job, s')
  {
    if StartStep(job, s, s') {
      StartKeepsInv(job, s, s');
    } else if SkipStep(job, s, s') {
      SkipKeepsInv(job, s, s');
    } else if k: nat :| SettleStep(job, s, k, s') {
      SettleKeepsInv(job, s, k, s');
    } else {
      var k: nat :| RejectStep(job, s, k, s');
      assert s.running[k] in s.running;
      forall x | x in s'.states ensures GateOk(job, s', x) {
        assert GateOk(job, s, x);
      }
    }
  }
}
