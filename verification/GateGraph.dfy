/** Gate graph validation of `scripts/run-gates.ts`. */
module GateGraph {
  import opened Wrappers
  import opened Digraph

  /** The dependency metadata of a gate; the command it runs plays no part here. */
  datatype Gate = Gate(id: string, needs: seq<string>, allowFailure: bool)

  datatype GraphError =
    | NoGates
    | DuplicateId(id: string)
    | UnknownNeed(gate: string, need: string)
    | DependencyCycle(cycle: seq<string>)

  /** The `byId` map: a later gate replaces an earlier one of the same id. */
  function ById(gates: seq<Gate>): Graph {
    if gates == [] then map[]
    else
      var last := gates[|gates| - 1];
      ById(gates[..|gates| - 1])[last.id := last.needs]
  }

  ghost predicate UniqueIds(gates: seq<Gate>) {
    forall i, j :: 0 <= i < j < |gates| ==> gates[i].id != gates[j].id
  }

  predicate HasId(gates: seq<Gate>, id: string) {
    exists i :: 0 <= i < |gates| && gates[i].id == id
  }

  ghost predicate KnownNeeds(gates: seq<Gate>) {
    forall i, d :: 0 <= i < |gates| && d in gates[i].needs ==> HasId(gates, d)
  }

  ghost predicate ValidGraph(gates: seq<Gate>) {
    && gates != []
    && UniqueIds(gates)
    && KnownNeeds(gates)
    && Acyclic(ById(gates))
  }

  /** The nodes of the graph are the ids of the gates. */
  lemma {:induction false} ByIdNodes(gates: seq<Gate>, id: string)
    ensures id in ById(gates) <==> HasId(gates, id)
  {
    if gates != [] {
      var init, n := gates[..|gates| - 1], |gates| - 1;
      ByIdNodes(init, id);
      if HasId(init, id) {
        var i :| 0 <= i < n && init[i].id == id;
        assert gates[i].id == id;
      }
      if HasId(gates, id) && gates[n].id != id {
        var i :| 0 <= i < |gates| && gates[i].id == id;
        assert init[i].id == id;
      }
    }
  }

  /** With unique ids the graph holds exactly the declared needs of each gate. */
  lemma {:induction false} ByIdNeeds(gates: seq<Gate>, i: nat)
    requires UniqueIds(gates) && i < |gates|
    ensures gates[i].id in ById(gates) && ById(gates)[gates[i].id] == gates[i].needs
  {
    var n := |gates| - 1;
    if i < n {
      assert UniqueIds(gates[..n]);
      ByIdNeeds(gates[..n], i);
      assert gates[..n][i] == gates[i];
    }
  }

  /**
   * The variables `findDependencyCycle` closes over.  `path` is the stack of open
   * visits, `active` its index, `complete` the ids known to reach no cycle.
   */
  class CycleFinder {
    const byId: Graph
    var complete: set<string>
    var active: map<string, nat>
    var path: seq<string>
    /** Completed ids in completion order. */
    ghost var order: seq<string>

    constructor (byId: Graph)
      ensures Valid() && this.byId == byId
      ensures path == [] && complete == {} && active == map[]
    {
      this.byId := byId;
      complete, active, path, order := {}, map[], [], [];
    }

    ghost predicate Valid()
      reads this
    {
      OpenStack(byId, path, active) && Completed(byId, order, complete, active)
    }

    /**
     * Visits one id.  Without a cycle the stack is left as it was found and the
     * id, if listed, is complete; otherwise the result is a cycle of the graph.
     */
    method Visit(id: string) returns (cycle: Option<seq<string>>)
      requires Valid()
      requires path != [] && id in byId ==> Edge(byId, path[|path| - 1], id)
      modifies this
      ensures cycle.None? ==> Valid() && path == old(path) && active == old(active)
      ensures cycle.None? ==> old(complete) <= complete && (id in byId ==> id in complete)
      ensures cycle.Some? ==> SimpleCycle(byId, cycle.value)
      decreases byId.Keys - active.Keys
    {
      if id in complete {
        return None;
      }
      if id in active {
        StackCycle(byId, path, active, id);
        return Some(path[active[id]..] + [id]);
      }
      if id !in byId {
        return None;
      }
      ghost var path0, active0, complete0 := path, active, complete;
      Open(byId, path, active, order, complete, id);
      active := active[id := |path|];
      path := path + [id];
      var needs := byId[id];
      for k := 0 to |needs|
        invariant Valid()
        invariant path == path0 + [id]
        invariant active == active0[id := |path0|]
        invariant complete0 <= complete
        invariant forall m :: 0 <= m < k && needs[m] in byId ==> needs[m] in complete
      {
        var inner := Visit(needs[k]);
        if inner.Some? {
          return inner;
        }
      }
      CompleteNext(byId, order, complete, active, id);
      path := path[..|path| - 1];
      active := active - {id};
      assert path == path0;
      complete := complete + {id};
      order := order + [id];
      return None;
    }
  }

  /** The stack is a walk of listed, distinct ids, and `active` is its index. */
  ghost predicate OpenStack(g: Graph, path: seq<string>, active: map<string, nat>) {
    && (path != [] ==> Walk(g, path))
    && (forall i {:trigger path[i]} :: 0 <= i < |path| ==> path[i] in g && path[i] in active && active[path[i]] == i)
    && (forall x :: x in active ==> active[x] < |path| && path[active[x]] == x)
  }

  /** The completed ids, in an order in which needs come first; none of them is open. */
  ghost predicate Completed(g: Graph, order: seq<string>, complete: set<string>, active: map<string, nat>) {
    && (forall x :: x in complete <==> x in order)
    && (forall x :: x in complete ==> x !in active)
    && DependenciesFirst(g, order)
  }

  lemma StackPush(g: Graph, path: seq<string>, active: map<string, nat>, id: string)
    requires OpenStack(g, path, active) && id in g && id !in active
    requires path != [] ==> Edge(g, path[|path| - 1], id)
    ensures OpenStack(g, path + [id], active[id := |path|])
  {
  }

  /** Opening a visit keeps the state of the search. */
  lemma Open(
    g: Graph, path: seq<string>, active: map<string, nat>, order: seq<string>, complete: set<string>, id: string
  )
    requires OpenStack(g, path, active) && Completed(g, order, complete, active)
    requires id in g && id !in active && id !in complete && (path != [] ==> Edge(g, path[|path| - 1], id))
    ensures OpenStack(g, path + [id], active[id := |path|]) && Completed(g, order, complete, active[id := |path|])
    ensures (path + [id])[..|path|] == path && active[id := |path|] - {id} == active
    ensures g.Keys - active[id := |path|].Keys < g.Keys - active.Keys
  {
    StackPush(g, path, active, id);
    PushThenPop(g, path, active, id);
  }

  /** Popping undoes pushing, and an open visit leaves fewer ids to open. */
  lemma PushThenPop(g: Graph, path: seq<string>, active: map<string, nat>, id: string)
    requires id in g && id !in active
    ensures (path + [id])[..|path|] == path
    ensures active[id := |path|] - {id} == active
    ensures g.Keys - active[id := |path|].Keys < g.Keys - active.Keys
  {
    assert id in g.Keys - active.Keys;
    assert id !in g.Keys - active[id := |path|].Keys;
  }

  /** Reaching an open id closes a cycle that repeats no other id. */
  lemma StackCycle(g: Graph, path: seq<string>, active: map<string, nat>, id: string)
    requires OpenStack(g, path, active) && id in active
    requires id in g ==> Edge(g, path[|path| - 1], id)
    ensures SimpleCycle(g, path[active[id]..] + [id])
  {
    var start := active[id];
    WalkDrop(g, path, start);
    StackDistinct(g, path, active, start);
    CloseCycle(g, path[start..], id);
  }

  lemma CloseCycle(g: Graph, w: seq<string>, id: string)
    requires Walk(g, w) && Distinct(w) && w[0] == id && Edge(g, w[|w| - 1], id)
    ensures SimpleCycle(g, w + [id])
  {
    WalkSnoc(g, w, id);
    assert (w + [id])[..|w|] == w;
  }

  lemma StackDistinct(g: Graph, path: seq<string>, active: map<string, nat>, start: nat)
    requires OpenStack(g, path, active) && start <= |path|
    ensures Distinct(path[start..])
  {
  }

  /** An id all of whose listed needs are complete may complete next. */
  lemma OrderSnoc(g: Graph, order: seq<string>, id: string)
    requires DependenciesFirst(g, order)
    requires forall d :: Edge(g, id, d) ==> d in order
    ensures DependenciesFirst(g, order + [id])
  {
    var next := order + [id];
    forall i, d | 0 <= i < |next| && Edge(g, next[i], d) ensures d in next[..i] {
      if i < |order| {
        assert next[..i] == order[..i];
      } else {
        assert next[..i] == order;
      }
    }
  }

  /** Once its needs are complete, a visit completes its own id and is no longer open. */
  lemma CompleteNext(g: Graph, order: seq<string>, complete: set<string>, active: map<string, nat>, id: string)
    requires Completed(g, order, complete, active)
    requires id in g && forall m :: 0 <= m < |g[id]| && g[id][m] in g ==> g[id][m] in complete
    ensures Completed(g, order + [id], complete + {id}, active - {id})
  {
    forall d | Edge(g, id, d) ensures d in order {
      var m :| 0 <= m < |g[id]| && g[id][m] == d;
    }
    OrderSnoc(g, order, id);
  }

  /**
   * The detector is exact on every gate list: it answers nothing exactly when the
   * needs between listed gates have no cycle, and otherwise a repetition-free one.
   */
  method FindDependencyCycle(gates: seq<Gate>) returns (cycle: Option<seq<string>>)
    ensures cycle.None? <==> Acyclic(ById(gates))
    ensures cycle.Some? ==> SimpleCycle(ById(gates), cycle.value)
  {
    var finder := new CycleFinder(ById(gates));
    for i := 0 to |gates|
      invariant fresh(finder)
      invariant finder.Valid() && finder.byId == ById(gates) && finder.path == []
      invariant forall j :: 0 <= j < i ==> gates[j].id in finder.complete
    {
      ByIdNodes(gates, gates[i].id);
      assert HasId(gates, gates[i].id);
      cycle := finder.Visit(gates[i].id);
      if cycle.Some? {
        return;
      }
    }
    forall x | x in ById(gates) ensures x in finder.order {
      ByIdNodes(gates, x);
    }
    OrderedGraphIsAcyclic(finder.byId, finder.order);
    return None;
  }

  /** The first offence in the order the source looks for them. */
  ghost predicate Explains(gates: seq<Gate>, error: GraphError) {
    match error
    case NoGates => gates == []
    case DuplicateId(id) =>
      exists j :: 0 <= j < |gates| && gates[j].id == id && UniqueIds(gates[..j]) && HasId(gates[..j], id)
    case UnknownNeed(gate, need) =>
      && UniqueIds(gates)
      && !HasId(gates, need)
      && (exists i: nat, k: nat :: FirstUnknown(gates, i, k) && gates[i].id == gate && gates[i].needs[k] == need)
    case DependencyCycle(cycle) =>
      UniqueIds(gates) && KnownNeeds(gates) && SimpleCycle(ById(gates), cycle)
  }

  /** The first unknown need of the first gate that has one. */
  ghost predicate FirstUnknown(gates: seq<Gate>, i: nat, k: nat) {
    && i < |gates| && k < |gates[i].needs| && KnownUpTo(gates, i) && !HasId(gates, gates[i].needs[k])
    && forall m :: 0 <= m < k ==> HasId(gates, gates[i].needs[m])
  }

  ghost predicate KnownUpTo(gates: seq<Gate>, n: nat)
    requires n <= |gates|
  {
    forall i, d :: 0 <= i < n && d in gates[i].needs ==> HasId(gates, d)
  }

  lemma IdsSnoc(gates: seq<Gate>, gate: Gate)
    requires UniqueIds(gates)
    ensures forall x :: HasId(gates + [gate], x) <==> HasId(gates, x) || x == gate.id
    ensures !HasId(gates, gate.id) ==> UniqueIds(gates + [gate])
  {
    var next := gates + [gate];
    forall x ensures HasId(next, x) <==> HasId(gates, x) || x == gate.id {
      if HasId(gates, x) {
        var k :| 0 <= k < |gates| && gates[k].id == x;
        assert next[k].id == x;
      }
      assert next[|gates|].id == gate.id;
    }
  }

  /** Validation accepts exactly the valid graphs and names the first offence otherwise. */
  method ValidateGateGraph(gates: seq<Gate>) returns (error: Option<GraphError>)
    ensures error.None? <==> ValidGraph(gates)
    ensures error.Some? ==> Explains(gates, error.value)
  {
    if |gates| == 0 {
      return Some(NoGates);
    }
    var ids: set<string> := {};
    for i := 0 to |gates|
      invariant UniqueIds(gates[..i])
      invariant forall x :: x in ids <==> HasId(gates[..i], x)
    {
      if gates[i].id in ids {
        return Some(DuplicateId(gates[i].id));
      }
      IdsSnoc(gates[..i], gates[i]);
      assert gates[..i + 1] == gates[..i] + [gates[i]];
      ids := ids + {gates[i].id};
    }
    assert gates[..|gates|] == gates;
    for i := 0 to |gates|
      invariant KnownUpTo(gates, i)
    {
      for k := 0 to |gates[i].needs|
        invariant forall m :: 0 <= m < k ==> HasId(gates, gates[i].needs[m])
      {
        if gates[i].needs[k] !in ids {
          assert FirstUnknown(gates, i, k);
          return Some(UnknownNeed(gates[i].id, gates[i].needs[k]));
        }
      }
    }
    var cycle := FindDependencyCycle(gates);
    if cycle.Some? {
      return Some(DependencyCycle(cycle.value));
    }
    return None;
  }
}
