/**
 * Dependency graphs, their walks and their cycles.  A graph maps each listed
 * node to the nodes it needs; an entry that names no listed node is no edge.
 */
module Digraph {

  type Graph = map<string, seq<string>>

  predicate Edge(g: Graph, a: string, b: string) {
    a in g && b in g && b in g[a]
  }

  ghost predicate Walk(g: Graph, w: seq<string>) {
    && |w| > 0
    && forall i {:trigger w[i]} :: 0 <= i < |w| - 1 ==> Edge(g, w[i], w[i + 1])
  }

  ghost predicate Cycle(g: Graph, w: seq<string>) {
    Walk(g, w) && |w| >= 2 && w[0] == w[|w| - 1]
  }

  ghost predicate OnCycle(g: Graph, x: string) {
    exists w :: Cycle(g, w) && w[0] == x
  }

  ghost predicate Distinct<T>(s: seq<T>) {
    forall i, j :: 0 <= i < j < |s| ==> s[i] != s[j]
  }

  /** A cycle that repeats no node but its first and last. */
  ghost predicate SimpleCycle(g: Graph, w: seq<string>) {
    Cycle(g, w) && Distinct(w[..|w| - 1])
  }

  ghost predicate Acyclic(g: Graph) {
    forall w :: !Cycle(g, w)
  }

  /** Every node of the order comes after all the nodes it needs. */
  ghost predicate DependenciesFirst(g: Graph, order: seq<string>) {
    forall i, d :: 0 <= i < |order| && Edge(g, order[i], d) ==> d in order[..i]
  }

  /** In a dependencies-first order a walk only ever moves towards the front. */
  lemma {:induction false} WalkMovesForward(g: Graph, order: seq<string>, w: seq<string>, p: nat)
    requires DependenciesFirst(g, order) && Walk(g, w)
    requires p < |order| && order[p] == w[0]
    ensures |w| == 1 || w[|w| - 1] in order[..p]
    decreases |w|
  {
    if |w| > 1 {
      assert Edge(g, w[0], w[1]);
      var q :| 0 <= q < p && order[q] == w[1];
      assert Walk(g, w[1..]) by {
        forall i | 0 <= i < |w[1..]| - 1 ensures Edge(g, w[1..][i], w[1..][i + 1]) {
          assert Edge(g, w[i + 1], w[i + 2]);
        }
      }
      WalkMovesForward(g, order, w[1..], q);
      assert w[|w| - 1] == w[1..][|w[1..]| - 1];
    }
  }

  /** A dependencies-first order of all nodes, without repetition, excludes cycles. */
  lemma OrderedGraphIsAcyclic(g: Graph, order: seq<string>)
    requires DependenciesFirst(g, order)
    requires forall x :: x in g ==> x in order
    ensures Acyclic(g)
  {
    forall w | Cycle(g, w) ensures false {
      assert Edge(g, w[0], w[1]);
      CycleLeavesOrder(g, order, w, |order|);
    }
  }

  /** No prefix of a dependencies-first order contains the start of a cycle. */
  lemma {:induction false} CycleLeavesOrder(g: Graph, order: seq<string>, w: seq<string>, n: nat)
    requires DependenciesFirst(g, order) && Cycle(g, w) && n <= |order|
    ensures w[0] !in order[..n]
    decreases n
  {
    if w[0] in order[..n] {
      var p :| 0 <= p < n && order[p] == w[0];
      WalkMovesForward(g, order, w, p);
      CycleLeavesOrder(g, order, w, p);
    }
  }

  /** Putting an edge in front of a walk gives a walk. */
  lemma WalkCons(g: Graph, a: string, w: seq<string>)
    requires Walk(g, w) && Edge(g, a, w[0])
    ensures Walk(g, [a] + w)
    ensures ([a] + w)[|w|] == w[|w| - 1]
  {
  }

  /** Putting an edge behind a walk gives a walk. */
  lemma WalkSnoc(g: Graph, w: seq<string>, b: string)
    requires Walk(g, w) && Edge(g, w[|w| - 1], b)
    ensures Walk(g, w + [b])
  {
  }

  /** A non-empty suffix of a walk is a walk. */
  lemma WalkDrop(g: Graph, w: seq<string>, k: nat)
    requires Walk(g, w) && k < |w|
    ensures Walk(g, w[k..])
  {
  }

  /** Dropping the first node of a longer walk gives a walk. */
  lemma WalkTail(g: Graph, w: seq<string>)
    requires Walk(g, w) && |w| > 1
    ensures Walk(g, w[1..]) && Edge(g, w[0], w[1])
    ensures w[1..][|w| - 2] == w[|w| - 1]
  {
  }

  ghost predicate HasSuccessorIn(g: Graph, s: set<string>, x: string) {
    exists y :: y in s && Edge(g, x, y)
  }

  ghost predicate EachHasSuccessorIn(g: Graph, s: set<string>) {
    forall x :: x in s ==> HasSuccessorIn(g, s, x)
  }

  /**
   * If every member of a non-empty finite set has an edge into the set, a member
   * lies on a cycle: extend a repetition-free walk until it has to meet itself.
   */
  lemma ClosedSetHasCycle(g: Graph, s: set<string>)
    requires s != {}
    requires EachHasSuccessorIn(g, s)
    ensures exists x :: x in s && OnCycle(g, x)
    ensures !Acyclic(g)
  {
    var x :| x in s;
    ExtendToCycle(g, s, [x], s - {x});
  }

  /** Returning to a node of a walk closes a cycle. */
  lemma RevisitClosesCycle(g: Graph, w: seq<string>, y: string)
    requires Walk(g, w) && Edge(g, w[|w| - 1], y) && y in w
    ensures OnCycle(g, y)
  {
    WalkSnoc(g, w, y);
    var v := w + [y];
    var k :| 0 <= k < |w| && w[k] == y;
    WalkDrop(g, v, k);
    assert Cycle(g, v[k..]) && v[k..][0] == y;
  }

  lemma {:induction false} ExtendToCycle(g: Graph, s: set<string>, w: seq<string>, unvisited: set<string>)
    requires Walk(g, w) && forall x :: x in w ==> x in s
    requires forall x :: x in s ==> x in w || x in unvisited
    requires EachHasSuccessorIn(g, s)
    ensures exists x :: x in s && OnCycle(g, x)
    decreases unvisited
  {
    var last := w[|w| - 1];
    assert last in w;
    assert HasSuccessorIn(g, s, last);
    var y :| y in s && Edge(g, last, y);
    WalkSnoc(g, w, y);
    var v := w + [y];
    if y in w {
      RevisitClosesCycle(g, w, y);
    } else {
      assert y in unvisited;
      ExtendToCycle(g, s, v, unvisited - {y});
    }
  }
}
