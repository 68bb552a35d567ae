/** Dependency-safe package ordering of `scripts/package-graph.ts`. */
module PackageGraph {
  import opened Wrappers
  import opened Digraph

  datatype Package = Package(short: string, group: string, deps: seq<string>)

  /** The caller's group priority and the host's `localeCompare`. */
  datatype Ordering = Ordering(groupOrder: seq<string>, collate: (string, string) -> int)

  const MAX_SAFE_INTEGER: int := 0x1F_FFFF_FFFF_FFFF

  /** `localeCompare` as a strict total order on strings. */
  ghost predicate IsCollation(c: (string, string) -> int) {
    && (forall a, b :: c(a, b) == 0 <==> a == b)
    && (forall a, b :: c(a, b) < 0 <==> c(b, a) > 0)
    && (forall a, b, d :: c(a, b) < 0 && c(b, d) < 0 ==> c(a, d) < 0)
  }

  function IndexOf(s: seq<string>, x: string): (i: int)
    ensures i == -1 <==> x !in s
    ensures i != -1 ==> 0 <= i < |s| && s[i] == x && x !in s[..i]
  {
    if s == [] then -1
    else if s[0] == x then 0
    else
      var rest := IndexOf(s[1..], x);
      if rest == -1 then -1 else rest + 1
  }

  function GroupRank(o: Ordering, group: string): int {
    var i := IndexOf(o.groupOrder, group);
    if i == -1 then MAX_SAFE_INTEGER else i
  }

  /** Group rank first, then group name, then package name. */
  function ComparePackages(a: Package, b: Package, o: Ordering): int {
    var rank := GroupRank(o, a.group) - GroupRank(o, b.group);
    if rank != 0 then rank
    else if o.collate(a.group, b.group) != 0 then o.collate(a.group, b.group)
    else o.collate(a.short, b.short)
  }

  /** The comparator is a strict total order of group and package name. */
  lemma ComparatorIsTotal(o: Ordering, a: Package, b: Package, c: Package)
    requires IsCollation(o.collate)
    ensures ComparePackages(a, b, o) == 0 <==> a.group == b.group && a.short == b.short
    ensures ComparePackages(a, b, o) < 0 <==> ComparePackages(b, a, o) > 0
    ensures ComparePackages(a, b, o) < 0 && ComparePackages(b, c, o) < 0 ==> ComparePackages(a, c, o) < 0
  {
  }

  /** The group is listed, and the other one not before it. */
  predicate ListedBefore(order: seq<string>, a: string, b: string) {
    exists i | 0 <= i < |order| :: order[i] == a && b !in order[..i + 1]
  }

  /**
   * Packages of a group listed earlier come first, those of any listed group before those
   * of unlisted ones; groups that are not listed, and packages of one group, go by name.
   */
  lemma GroupsInOrder(o: Ordering, a: Package, b: Package)
    requires IsCollation(o.collate) && |o.groupOrder| <= MAX_SAFE_INTEGER
    ensures ListedBefore(o.groupOrder, a.group, b.group) ==> ComparePackages(a, b, o) < 0
    ensures a.group !in o.groupOrder && b.group !in o.groupOrder && o.collate(a.group, b.group) < 0
            ==> ComparePackages(a, b, o) < 0
    ensures a.group == b.group ==> (ComparePackages(a, b, o) < 0 <==> o.collate(a.short, b.short) < 0)
    ensures a.group == b.group || ListedBefore(o.groupOrder, a.group, b.group)
            || ListedBefore(o.groupOrder, b.group, a.group)
            || (a.group !in o.groupOrder && b.group !in o.groupOrder)
  {
    var i, j := IndexOf(o.groupOrder, a.group), IndexOf(o.groupOrder, b.group);
    ListedFirst(o.groupOrder, a.group, b.group);
    ListedFirst(o.groupOrder, b.group, a.group);
    assert i == -1 <==> a.group !in o.groupOrder;
    assert j == -1 <==> b.group !in o.groupOrder;
  }

  lemma ListedFirst(order: seq<string>, a: string, b: string)
    ensures ListedBefore(order, a, b) <==> a != b && IndexOf(order, a) != -1
                                           && (IndexOf(order, b) == -1 || IndexOf(order, a) < IndexOf(order, b))
  {
    var i, j := IndexOf(order, a), IndexOf(order, b);
    if k :| 0 <= k < |order| && order[k] == a && b !in order[..k + 1] { FirstPlace(order, a, k); }
    if a != b && i != -1 && (j == -1 || i < j) { assert b !in order[..i + 1]; }
  }

  lemma FirstPlace(order: seq<string>, x: string, k: nat)
    requires k < |order| && order[k] == x
    ensures 0 <= IndexOf(order, x) <= k
  {
  }

  // ---------- The maps and lists of topoSort ----------

  /** `new Map(packages.map(...))`: a later package takes over the place of its namesake. */
  function Put(values: seq<Package>, p: Package): seq<Package> {
    if values == [] then [p]
    else if values[0].short == p.short then [p] + values[1..]
    else [values[0]] + Put(values[1..], p)
  }

  /** Nothing else moves, and a new name goes to the end. */
  lemma {:induction false} PutKeepsPlaces(values: seq<Package>, p: Package)
    requires UniqueNames(values)
    ensures if exists k :: 0 <= k < |values| && values[k].short == p.short
            then |Put(values, p)| == |values| && forall k :: 0 <= k < |values| ==>
                   Put(values, p)[k] == if values[k].short == p.short then p else values[k]
            else Put(values, p) == values + [p]
  {
    if values != [] && values[0].short != p.short {
      PutKeepsPlaces(values[1..], p);
    }
  }

  function MapValues(packages: seq<Package>): seq<Package> {
    if packages == [] then []
    else Put(MapValues(packages[..|packages| - 1]), packages[|packages| - 1])
  }

  ghost predicate UniqueNames(ps: seq<Package>) {
    forall i, j :: 0 <= i < j < |ps| ==> ps[i].short != ps[j].short
  }

  lemma {:induction false} PutKeepsUnique(values: seq<Package>, p: Package)
    requires UniqueNames(values)
    ensures UniqueNames(Put(values, p))
    ensures forall q :: q in Put(values, p) <==> q == p || (q in values && q.short != p.short)
  {
    if values != [] && values[0].short != p.short {
      var rest := Put(values[1..], p);
      PutKeepsUnique(values[1..], p);
      assert forall j :: 0 <= j < |rest| ==> rest[j] in rest;
    }
  }

  ghost predicate LastNamed(packages: seq<Package>, q: Package) {
    exists i :: 0 <= i < |packages| && packages[i] == q &&
      forall j :: i < j < |packages| ==> packages[j].short != q.short
  }

  lemma LastNamedSnoc(packages: seq<Package>, last: Package, q: Package)
    ensures LastNamed(packages + [last], q) <==> q == last || (LastNamed(packages, q) && q.short != last.short)
  {
    var all, n := packages + [last], |packages|;
    if q == last { assert all[n] == q; }
    if LastNamed(packages, q) && q.short != last.short {
      var i :| 0 <= i < n && packages[i] == q && forall j :: i < j < n ==> packages[j].short != q.short;
      assert all[i] == q;
    }
    if LastNamed(all, q) && q != last {
      var i :| 0 <= i <= n && all[i] == q && forall j :: i < j <= n ==> all[j].short != q.short;
      assert all[n].short != q.short;
      assert packages[i] == q && forall j :: i < j < n ==> packages[j].short == all[j].short;
    }
  }

  /** The map holds, for each name, the last package of that name. */
  lemma {:induction false} MapValuesMeaning(packages: seq<Package>)
    ensures UniqueNames(MapValues(packages))
    ensures forall q :: q in MapValues(packages) <==> LastNamed(packages, q)
  {
    if packages != [] {
      var n := |packages| - 1;
      var init, last := packages[..n], packages[n];
      MapValuesMeaning(init);
      PutKeepsUnique(MapValues(init), last);
      assert packages == init + [last];
      forall q ensures q in MapValues(packages) <==> LastNamed(packages, q) {
        LastNamedSnoc(init, last, q);
      }
    }
  }

  /** The dependency graph over package names. */
  function Needs(ps: seq<Package>): Graph {
    if ps == [] then map[] else Needs(ps[1..])[ps[0].short := ps[0].deps]
  }

  lemma NeedsMeaning(ps: seq<Package>)
    requires UniqueNames(ps)
    ensures forall p :: p in ps ==> p.short in Needs(ps) && Needs(ps)[p.short] == p.deps
    ensures forall x :: x in Needs(ps) ==> exists p :: p in ps && p.short == x
  {
    forall p | p in ps ensures p.short in Needs(ps) && Needs(ps)[p.short] == p.deps {
      var i :| 0 <= i < |ps| && ps[i] == p;
      NeedsAt(ps, i);
    }
    forall x | x in Needs(ps) ensures exists p :: p in ps && p.short == x {
      var p := NeedsFrom(ps, x);
    }
  }

  lemma {:induction false} NeedsAt(ps: seq<Package>, i: nat)
    requires UniqueNames(ps) && i < |ps|
    ensures ps[i].short in Needs(ps) && Needs(ps)[ps[i].short] == ps[i].deps
  {
    if i > 0 { NeedsAt(ps[1..], i - 1); }
  }

  lemma {:induction false} NeedsFrom(ps: seq<Package>, x: string) returns (p: Package)
    requires x in Needs(ps)
    ensures p in ps && p.short == x
  {
    if x == ps[0].short {
      p := ps[0];
    } else {
      p := NeedsFrom(ps[1..], x);
    }
  }

  /** `[...remaining.values()].filter(...)`. */
  function ReadyPackages(remaining: seq<Package>, placed: set<string>): (r: seq<Package>)
    ensures forall p :: p in r <==> p in remaining && AllPlaced(p, placed)
    ensures UniqueNames(remaining) ==> UniqueNames(r)
  {
    if remaining == [] then []
    else
      var rest := ReadyPackages(remaining[1..], placed);
      assert forall j :: 0 <= j < |rest| ==> rest[j] in rest;
      if AllPlaced(remaining[0], placed) then [remaining[0]] + rest else rest
  }

  predicate AllPlaced(p: Package, placed: set<string>) {
    forall d | d in p.deps :: d in placed
  }

  function Without(remaining: seq<Package>, short: string): (r: seq<Package>)
    ensures forall p :: p in r <==> p in remaining && p.short != short
    ensures UniqueNames(remaining) ==> UniqueNames(r)
    ensures |r| <= |remaining| && ((exists p :: p in remaining && p.short == short) ==> |r| < |remaining|)
  {
    if remaining == [] then []
    else if remaining[0].short == short then Without(remaining[1..], short)
    else [remaining[0]] + Without(remaining[1..], short)
  }

  // ---------- Sorting one layer ----------

  ghost predicate StrictlySorted(ps: seq<Package>, o: Ordering) {
    forall i, j :: 0 <= i < j < |ps| ==> ComparePackages(ps[i], ps[j], o) < 0
  }

  /** `Array.sort`: a stable insertion. */
  function Insert(p: Package, sorted: seq<Package>, o: Ordering): (r: seq<Package>)
    ensures forall q :: q in r <==> q == p || q in sorted
  {
    if sorted == [] then [p]
    else if ComparePackages(p, sorted[0], o) <= 0 then [p] + sorted
    else [sorted[0]] + Insert(p, sorted[1..], o)
  }

  function SortPackages(ps: seq<Package>, o: Ordering): (r: seq<Package>)
    ensures forall q :: q in r <==> q in ps
  {
    if ps == [] then [] else Insert(ps[0], SortPackages(ps[1..], o), o)
  }

  lemma {:induction false} InsertSorted(p: Package, sorted: seq<Package>, o: Ordering)
    requires IsCollation(o.collate) && StrictlySorted(sorted, o)
    requires forall q :: q in sorted ==> q.short != p.short
    ensures StrictlySorted(Insert(p, sorted, o), o)
  {
    if sorted != [] {
      var h := sorted[0];
      ComparatorIsTotal(o, p, h, h);
      if ComparePackages(p, h, o) <= 0 {
        forall q | q in sorted ensures ComparePackages(p, q, o) < 0 {
          HeadIsLeast(sorted, q, o);
          ComparatorIsTotal(o, p, h, q);
        }
        SortedCons(p, sorted, o);
      } else {
        InsertSorted(p, sorted[1..], o);
        var rest := Insert(p, sorted[1..], o);
        forall q | q in rest ensures ComparePackages(h, q, o) < 0 {
          if q in sorted[1..] { HeadIsLeast(sorted, q, o); }
        }
        SortedCons(h, rest, o);
      }
    }
  }

  lemma HeadIsLeast(sorted: seq<Package>, q: Package, o: Ordering)
    requires StrictlySorted(sorted, o) && q in sorted
    ensures q == sorted[0] || ComparePackages(sorted[0], q, o) < 0
    ensures q in sorted[1..] ==> ComparePackages(sorted[0], q, o) < 0
  {
  }

  lemma SortedCons(h: Package, rest: seq<Package>, o: Ordering)
    requires StrictlySorted(rest, o) && forall q :: q in rest ==> ComparePackages(h, q, o) < 0
    ensures StrictlySorted([h] + rest, o)
  {
  }

  /** Sorting uniquely named packages leaves no ties. */
  lemma {:induction false} SortPackagesSorted(ps: seq<Package>, o: Ordering)
    requires IsCollation(o.collate) && UniqueNames(ps)
    ensures StrictlySorted(SortPackages(ps, o), o)
  {
    if ps != [] {
      SortPackagesSorted(ps[1..], o);
      forall q | q in SortPackages(ps[1..], o) ensures q.short != ps[0].short {
        var k :| 0 <= k < |ps[1..]| && ps[1..][k] == q;
        assert ps[k + 1] == q;
      }
      InsertSorted(ps[0], SortPackages(ps[1..], o), o);
    }
  }

  // ---------- Depth ----------

  ghost predicate HasChain(g: Graph, x: string, n: nat) {
    exists w :: Walk(g, w) && w[0] == x && |w| == n
  }

  ghost predicate ChainsAtMost(g: Graph, x: string, n: nat) {
    forall w :: Walk(g, w) && w[0] == x ==> |w| <= n
  }

  /** The longest dependency chain that starts at `x` has `k` edges. */
  ghost predicate IsDepth(g: Graph, x: string, k: nat) {
    HasChain(g, x, k + 1) && ChainsAtMost(g, x, k + 1)
  }

  ghost predicate ShallowerThan(g: Graph, x: string, k: nat) {
    exists m: nat :: m < k && IsDepth(g, x, m)
  }

  lemma ChainCons(g: Graph, x: string, d: string, n: nat)
    requires Edge(g, x, d) && HasChain(g, d, n)
    ensures HasChain(g, x, n + 1)
  {
    var v :| Walk(g, v) && v[0] == d && |v| == n;
    WalkCons(g, x, v);
    assert Walk(g, [x] + v) && ([x] + v)[0] == x && |[x] + v| == n + 1;
  }

  lemma ChainsFromNeeds(g: Graph, x: string, k: nat)
    requires forall d :: Edge(g, x, d) ==> ShallowerThan(g, d, k)
    ensures ChainsAtMost(g, x, k + 1)
  {
    forall w | Walk(g, w) && w[0] == x ensures |w| <= k + 1 {
      if |w| > 1 {
        WalkTail(g, w);
        assert ShallowerThan(g, w[1], k);
        var m: nat :| m < k && IsDepth(g, w[1], m);
        assert ChainsAtMost(g, w[1], m + 1) && Walk(g, w[1..]);
      }
    }
  }

  /** A node is one deeper than its deepest dependency. */
  lemma DepthFromNeeds(g: Graph, x: string, k: nat)
    requires forall d :: Edge(g, x, d) ==> ShallowerThan(g, d, k)
    requires k > 0 ==> exists d :: Edge(g, x, d) && IsDepth(g, d, k - 1)
    ensures IsDepth(g, x, k)
  {
    ChainsFromNeeds(g, x, k);
    if k == 0 {
      assert Walk(g, [x]);
    } else {
      var d :| Edge(g, x, d) && IsDepth(g, d, k - 1);
      ChainCons(g, x, d, k);
    }
  }

  // ---------- What the sort answers ----------

  /** Smaller depth first; within a depth, the comparator. */
  ghost predicate Precedes(g: Graph, o: Ordering, a: Package, b: Package) {
    exists k: nat, m: nat :: IsDepth(g, a.short, k) && IsDepth(g, b.short, m)
        && (k < m || (k == m && ComparePackages(a, b, o) < 0))
  }

  ghost predicate InLayers(g: Graph, o: Ordering, out: seq<Package>) {
    forall i, j :: 0 <= i < j < |out| ==> Precedes(g, o, out[i], out[j])
  }

  ghost predicate SamePackages(a: seq<Package>, b: seq<Package>) {
    forall p :: p in a <==> p in b
  }

  ghost predicate HasUnlisted(g: Graph, x: string) {
    x in g && exists d :: d in g[x] && d !in g
  }

  /** The package reaches an unlisted dependency or a dependency cycle. */
  ghost predicate Doomed(g: Graph, x: string) {
    exists w :: Walk(g, w) && w[0] == x && (HasUnlisted(g, w[|w| - 1]) || OnCycle(g, w[|w| - 1]))
  }

  function Names(ps: seq<Package>): seq<string> {
    seq(|ps|, i requires 0 <= i < |ps| => ps[i].short)
  }

  /** The loop's variables before layer `k`; `prev` is what was placed before the last layer. */
  datatype Progress = Progress(out: seq<Package>, remaining: seq<Package>, placed: set<string>, prev: set<string>,
                               k: nat)

  /** Every package is either out, with its dependencies placed, or still in the map. */
  ghost predicate Partition(all: seq<Package>, s: Progress) {
    && (forall p :: p in all <==> p in s.out || p in s.remaining)
    && UniqueNames(s.out) && UniqueNames(s.remaining)
    && (forall x :: x in s.placed <==> x in Names(s.out))
    && (forall p :: p in s.remaining ==> p.short !in s.placed)
    && (forall p :: p in s.out ==> AllPlaced(p, s.placed))
  }

  ghost predicate Depths(g: Graph, s: Progress) {
    && (forall x :: x in s.prev ==> x in s.placed)
    && (forall x :: x in s.placed ==> ShallowerThan(g, x, s.k))
    && (forall x :: x in s.placed && x !in s.prev ==> s.k > 0 && IsDepth(g, x, s.k - 1))
    && (s.k > 0 ==> forall p :: p in s.remaining ==> !AllPlaced(p, s.prev))
  }

  ghost predicate Ordered(g: Graph, o: Ordering, s: Progress) {
    InLayers(g, o, s.out) && DependenciesFirst(g, Names(s.out))
  }

  ghost predicate LayerInv(all: seq<Package>, o: Ordering, s: Progress) {
    Partition(all, s) && Depths(Needs(all), s) && Ordered(Needs(all), o, s)
  }

  lemma PlacedIsListed(all: seq<Package>, s: Progress, x: string)
    requires UniqueNames(all) && Partition(all, s) && x in s.placed
    ensures x in Needs(all)
    ensures exists p :: p in s.out && p in all && p.short == x && Needs(all)[x] == p.deps
  {
    NeedsMeaning(all);
    var i :| 0 <= i < |s.out| && Names(s.out)[i] == x;
    assert s.out[i] in s.out;
  }

  /** A package that becomes ready at layer `k` has depth `k`. */
  lemma ReadyDepth(all: seq<Package>, s: Progress, p: Package)
    requires UniqueNames(all) && Partition(all, s) && Depths(Needs(all), s)
    requires p in s.remaining && AllPlaced(p, s.placed)
    ensures IsDepth(Needs(all), p.short, s.k)
  {
    var g := Needs(all);
    NeedsMeaning(all);
    assert p in all && g[p.short] == p.deps;
    if s.k > 0 {
      var d :| d in p.deps && d !in s.prev;
      assert d in s.placed;
      PlacedIsListed(all, s, d);
      assert Edge(g, p.short, d);
    } else {
      forall d | Edge(g, p.short, d) ensures ShallowerThan(g, d, s.k) { assert d in s.placed; }
    }
    DepthFromNeeds(g, p.short, s.k);
  }

  // ---------- Placing one layer ----------

  lemma LayerKeepsOrder(g: Graph, o: Ordering, out: seq<Package>, layer: seq<Package>, k: nat)
    requires InLayers(g, o, out) && StrictlySorted(layer, o)
    requires forall p :: p in out ==> ShallowerThan(g, p.short, k)
    requires forall p :: p in layer ==> IsDepth(g, p.short, k)
    ensures InLayers(g, o, out + layer)
  {
    var all := out + layer;
    forall i, j | 0 <= i < j < |all| ensures Precedes(g, o, all[i], all[j]) {
      if j >= |out| {
        assert all[j] == layer[j - |out|] && all[j] in layer;
        if i < |out| {
          assert all[i] in out;
        } else {
          assert all[i] == layer[i - |out|] && all[i] in layer;
        }
      }
    }
  }

  lemma LayerKeepsDependencies(g: Graph, out: seq<Package>, layer: seq<Package>, placed: set<string>)
    requires DependenciesFirst(g, Names(out))
    requires forall x :: x in placed <==> x in Names(out)
    requires forall p :: p in layer ==> p.short in g && g[p.short] == p.deps && AllPlaced(p, placed)
    ensures DependenciesFirst(g, Names(out + layer))
  {
    var all := Names(out + layer);
    forall i, d | 0 <= i < |all| && Edge(g, all[i], d) ensures d in all[..i] {
      if i < |out| {
        assert all[..i] == Names(out)[..i] && all[i] == Names(out)[i];
      } else {
        assert layer[i - |out|] in layer;
        var j :| 0 <= j < |out| && Names(out)[j] == d;
        assert all[..i][j] == d;
      }
    }
  }

  /** The inner loop: append the layer, mark it placed and take it out of the map. */
  method PlaceLayer(out0: seq<Package>, placed0: set<string>, remaining0: seq<Package>, layer: seq<Package>)
    returns (out: seq<Package>, placed: set<string>, remaining: seq<Package>)
    requires UniqueNames(remaining0) && layer != [] && forall p :: p in layer ==> p in remaining0
    ensures out == out0 + layer
    ensures forall x :: x in placed <==> x in placed0 || x in Names(layer)
    ensures UniqueNames(remaining) && |remaining| < |remaining0|
    ensures forall p :: p in remaining <==> p in remaining0 && p.short !in Names(layer)
  {
    out, placed, remaining := out0, placed0, remaining0;
    for i := 0 to |layer|
      invariant out == out0 + layer[..i]
      invariant forall x :: x in placed <==> x in placed0 || x in Names(layer[..i])
      invariant UniqueNames(remaining) && |remaining| <= |remaining0| && (i > 0 ==> |remaining| < |remaining0|)
      invariant forall p :: p in remaining <==> p in remaining0 && p.short !in Names(layer[..i])
    {
      assert layer[..i + 1] == layer[..i] + [layer[i]];
      assert Names(layer[..i + 1]) == Names(layer[..i]) + [layer[i].short];
      assert layer[i] in layer;
      out := out + [layer[i]];
      placed := placed + {layer[i].short};
      remaining := Without(remaining, layer[i].short);
    }
    assert layer[..|layer|] == layer;
  }

  lemma NameOf(ps: seq<Package>, p: Package)
    requires p in ps
    ensures p.short in Names(ps)
  {
    var i :| 0 <= i < |ps| && ps[i] == p;
    assert Names(ps)[i] == p.short;
  }

  /** In a uniquely named list a name picks out its package. */
  lemma NamedIn(ps: seq<Package>, sub: seq<Package>, p: Package)
    requires UniqueNames(ps) && p in ps && p.short in Names(sub) && forall q :: q in sub ==> q in ps
    ensures p in sub
  {
    var i :| 0 <= i < |sub| && Names(sub)[i] == p.short;
    assert sub[i] in sub;
    var a :| 0 <= a < |ps| && ps[a] == p;
    var b :| 0 <= b < |ps| && ps[b] == sub[i];
    assert a == b;
  }

  lemma LayerNames(out: seq<Package>, layer: seq<Package>, remaining: seq<Package>, placed: set<string>)
    requires UniqueNames(out) && (forall x :: x in placed <==> x in Names(out))
    requires UniqueNames(layer)
    requires forall p :: p in layer ==> p.short !in placed
    ensures UniqueNames(out + layer)
    ensures forall x :: x in Names(out + layer) <==> x in placed || x in Names(layer)
  {
    var all := out + layer;
    assert Names(all) == Names(out) + Names(layer);
    forall i, j | 0 <= i < j < |all| ensures all[i].short != all[j].short {
      if i < |out| <= j {
        NameOf(out, out[i]);
        assert layer[j - |out|] in layer;
      }
    }
  }

  /** The strict order of a sorted layer leaves its names unique. */
  lemma StrictlySortedNames(ps: seq<Package>, o: Ordering, all: seq<Package>)
    requires IsCollation(o.collate) && StrictlySorted(ps, o) && UniqueNames(all)
    requires forall p :: p in ps ==> p in all
    ensures UniqueNames(ps)
  {
    forall i, j | 0 <= i < j < |ps| ensures ps[i].short != ps[j].short {
      ComparatorIsTotal(o, ps[i], ps[j], ps[j]);
      SameNameSamePackage(all, ps[i], ps[j]);
    }
  }

  lemma SameNameSamePackage(all: seq<Package>, p: Package, q: Package)
    requires UniqueNames(all) && p in all && q in all
    ensures p.short == q.short ==> p == q
  {
  }

  lemma NextPartition(all: seq<Package>, s: Progress, s': Progress, layer: seq<Package>)
    requires UniqueNames(all) && Partition(all, s) && UniqueNames(layer)
    requires forall p :: p in layer ==> p in s.remaining && AllPlaced(p, s.placed)
    requires s'.out == s.out + layer && forall x :: x in s'.placed <==> x in s.placed || x in Names(layer)
    requires UniqueNames(s'.remaining)
    requires forall p :: p in s'.remaining <==> p in s.remaining && p.short !in Names(layer)
    ensures Partition(all, s')
  {
    LayerNames(s.out, layer, s.remaining, s.placed);
    forall p | p in s.remaining ensures p in layer <==> p.short in Names(layer) {
      if p in layer { NameOf(layer, p); }
      if p.short in Names(layer) { NamedIn(s.remaining, layer, p); }
    }
    forall p | p in s'.out ensures AllPlaced(p, s'.placed) {
      assert p in s.out || p in layer;
    }
  }

  lemma NextDepths(all: seq<Package>, s: Progress, s': Progress, layer: seq<Package>)
    requires UniqueNames(all) && Partition(all, s) && Depths(Needs(all), s)
    requires forall p :: p in layer <==> p in s.remaining && AllPlaced(p, s.placed)
    requires forall x :: x in s'.placed <==> x in s.placed || x in Names(layer)
    requires forall p :: p in s'.remaining <==> p in s.remaining && p.short !in Names(layer)
    requires s'.prev == s.placed && s'.k == s.k + 1
    ensures Depths(Needs(all), s')
  {
    var g := Needs(all);
    forall x | x in s'.placed ensures ShallowerThan(g, x, s'.k) && (x !in s.placed ==> IsDepth(g, x, s.k)) {
      if x in s.placed {
        var m: nat :| m < s.k && IsDepth(g, x, m);
      } else {
        var i :| 0 <= i < |layer| && Names(layer)[i] == x;
        assert layer[i] in layer;
        ReadyDepth(all, s, layer[i]);
      }
    }
    forall p | p in s'.remaining ensures !AllPlaced(p, s.placed) {
      if p in layer { NameOf(layer, p); }
    }
  }

  lemma NextOrder(all: seq<Package>, o: Ordering, s: Progress, layer: seq<Package>)
    requires UniqueNames(all) && LayerInv(all, o, s) && StrictlySorted(layer, o)
    requires forall p :: p in layer ==> p in s.remaining && AllPlaced(p, s.placed)
    ensures InLayers(Needs(all), o, s.out + layer) && DependenciesFirst(Needs(all), Names(s.out + layer))
  {
    var g := Needs(all);
    NeedsMeaning(all);
    forall p | p in layer ensures IsDepth(g, p.short, s.k) {
      ReadyDepth(all, s, p);
    }
    forall p | p in s.out ensures ShallowerThan(g, p.short, s.k) { NameOf(s.out, p); }
    LayerKeepsOrder(g, o, s.out, layer, s.k);
    LayerKeepsDependencies(g, s.out, layer, s.placed);
  }

  lemma NextLayer(all: seq<Package>, o: Ordering, s: Progress, s': Progress, layer: seq<Package>)
    requires UniqueNames(all) && IsCollation(o.collate) && LayerInv(all, o, s)
    requires layer == SortPackages(ReadyPackages(s.remaining, s.placed), o)
    requires s'.out == s.out + layer && forall x :: x in s'.placed <==> x in s.placed || x in Names(layer)
    requires UniqueNames(s'.remaining)
    requires forall p :: p in s'.remaining <==> p in s.remaining && p.short !in Names(layer)
    requires s'.prev == s.placed && s'.k == s.k + 1
    ensures LayerInv(all, o, s')
  {
    SortPackagesSorted(ReadyPackages(s.remaining, s.placed), o);
    StrictlySortedNames(layer, o, all);
    NextPartition(all, s, s', layer);
    NextDepths(all, s, s', layer);
    NextOrder(all, o, s, layer);
  }

  // ---------- When the sort throws ----------

  /** What is placed reaches neither a cycle nor an unlisted dependency. */
  lemma PlacedIsNotDoomed(all: seq<Package>, o: Ordering, s: Progress, x: string)
    requires UniqueNames(all) && Partition(all, s) && Ordered(Needs(all), o, s) && x in s.placed
    ensures !Doomed(Needs(all), x)
  {
    var g, order := Needs(all), Names(s.out);
    forall w | Walk(g, w) && w[0] == x ensures !HasUnlisted(g, w[|w| - 1]) && !OnCycle(g, w[|w| - 1]) {
      var last := w[|w| - 1];
      var p :| 0 <= p < |order| && order[p] == x;
      WalkMovesForward(g, order, w, p);
      assert last in s.placed;
      PlacedIsSound(all, s, last);
      OrderedIsOffCycle(g, order, last);
    }
  }

  lemma OrderedIsOffCycle(g: Graph, order: seq<string>, x: string)
    requires DependenciesFirst(g, order) && x in order
    ensures !OnCycle(g, x)
  {
    forall c | Cycle(g, c) ensures c[0] != x {
      CycleLeavesOrder(g, order, c, |order|);
      assert order[..|order|] == order;
    }
  }

  lemma PlacedIsSound(all: seq<Package>, s: Progress, x: string)
    requires UniqueNames(all) && Partition(all, s) && x in s.placed
    ensures !HasUnlisted(Needs(all), x)
  {
    PlacedIsListed(all, s, x);
    var p :| p in s.out && p in all && p.short == x && Needs(all)[x] == p.deps;
    forall d | d in p.deps ensures d in Needs(all) {
      PlacedIsListed(all, s, d);
    }
  }

  /** When nothing is ready, everything left reaches a cycle or an unlisted dependency. */
  lemma StuckIsDoomed(all: seq<Package>, s: Progress, x: string)
    requires UniqueNames(all) && Partition(all, s)
    requires ReadyPackages(s.remaining, s.placed) == [] && x in Names(s.remaining)
    ensures Doomed(Needs(all), x)
  {
    var g := Needs(all);
    var safe := set y | y in Names(s.remaining) && !Doomed(g, y);
    if x in safe {
      forall y | y in safe ensures HasSuccessorIn(g, safe, y) {
        var d := SafeNeed(all, s, y);
        assert d in safe;
      }
      ClosedSetIsDoomed(g, safe);
    }
  }

  /** A finite set whose members all need a member contains a cycle. */
  lemma ClosedSetIsDoomed(g: Graph, s: set<string>)
    requires s != {} && EachHasSuccessorIn(g, s)
    ensures exists x :: x in s && Doomed(g, x)
  {
    ClosedSetHasCycle(g, s);
    var x :| x in s && OnCycle(g, x);
    CycleIsDoom(g, x);
  }

  lemma CycleIsDoom(g: Graph, x: string)
    requires OnCycle(g, x)
    ensures Doomed(g, x)
  {
  }

  lemma DoomedNeed(g: Graph, y: string, d: string)
    requires Edge(g, y, d) && Doomed(g, d)
    ensures Doomed(g, y)
  {
    var w :| Walk(g, w) && w[0] == d && (HasUnlisted(g, w[|w| - 1]) || OnCycle(g, w[|w| - 1]));
    WalkCons(g, y, w);
    DoomedBy(g, y, [y] + w);
  }

  lemma DoomedBy(g: Graph, x: string, w: seq<string>)
    requires Walk(g, w) && w[0] == x && (HasUnlisted(g, w[|w| - 1]) || OnCycle(g, w[|w| - 1]))
    ensures Doomed(g, x)
  {
  }

  lemma SafeNeed(all: seq<Package>, s: Progress, y: string) returns (d: string)
    requires UniqueNames(all) && Partition(all, s)
    requires ReadyPackages(s.remaining, s.placed) == [] && y in Names(s.remaining) && !Doomed(Needs(all), y)
    ensures d in Names(s.remaining) && Edge(Needs(all), y, d) && !Doomed(Needs(all), d)
  {
    var g := Needs(all);
    NeedsMeaning(all);
    var i :| 0 <= i < |s.remaining| && Names(s.remaining)[i] == y;
    var p := s.remaining[i];
    assert p in s.remaining && p !in ReadyPackages(s.remaining, s.placed);
    d :| d in p.deps && d !in s.placed;
    assert Walk(g, [y]);
    assert !HasUnlisted(g, y);
    RemainingName(all, s, d);
    if Doomed(g, d) { DoomedNeed(g, y, d); }
  }

  lemma RemainingName(all: seq<Package>, s: Progress, d: string)
    requires UniqueNames(all) && Partition(all, s) && d in Needs(all) && d !in s.placed
    ensures d in Names(s.remaining)
  {
    NeedsMeaning(all);
    var q :| q in all && q.short == d;
    if q in s.out { NameOf(s.out, q); } else { NameOf(s.remaining, q); }
  }

  lemma StuckNames(all: seq<Package>, o: Ordering, s: Progress)
    requires UniqueNames(all) && LayerInv(all, o, s) && ReadyPackages(s.remaining, s.placed) == []
    ensures forall x :: x in Names(s.remaining) <==> x in Needs(all) && Doomed(Needs(all), x)
  {
    NeedsMeaning(all);
    forall x ensures x in Names(s.remaining) <==> x in Needs(all) && Doomed(Needs(all), x) {
      if x in Names(s.remaining) {
        StuckIsDoomed(all, s, x);
        var i :| 0 <= i < |s.remaining| && Names(s.remaining)[i] == x;
        assert s.remaining[i] in s.remaining;
      } else if x in Needs(all) {
        if x !in s.placed { RemainingName(all, s, x); }
        PlacedIsNotDoomed(all, o, s, x);
      }
    }
  }

  // ---------- topoSort ----------

  /** The packages in dependency order: by longest chain, then by comparator. */
  ghost predicate IsTopoSort(packages: seq<Package>, o: Ordering, out: seq<Package>) {
    && SamePackages(out, MapValues(packages)) && UniqueNames(out)
    && InLayers(Needs(MapValues(packages)), o, out)
    && DependenciesFirst(Needs(MapValues(packages)), Names(out))
  }

  /**
   * `topoSort`.  It throws exactly when some package reaches a dependency cycle or
   * an unlisted dependency, naming exactly those packages.
   */
  method TopoSort(packages: seq<Package>, o: Ordering) returns (r: Result<seq<Package>, seq<string>>)
    requires IsCollation(o.collate)
    ensures r.Success? ==> IsTopoSort(packages, o, r.value)
    ensures r.Success? ==> forall x :: x in Needs(MapValues(packages)) ==> !Doomed(Needs(MapValues(packages)), x)
    ensures r.Failure? ==> r.error != []
    ensures r.Failure? ==> forall x :: x in r.error <==>
              x in Needs(MapValues(packages)) && Doomed(Needs(MapValues(packages)), x)
  {
    var all := MapValues(packages);
    MapValuesMeaning(packages);
    NeedsMeaning(all);
    var remaining, placed, out := all, {}, [];
    ghost var prev: set<string>, k: nat := {}, 0;
    while |remaining| > 0
      invariant LayerInv(all, o, Progress(out, remaining, placed, prev, k))
      decreases |remaining|
    {
      ghost var s := Progress(out, remaining, placed, prev, k);
      var ready := ReadyPackages(remaining, placed);
      var layer := SortPackages(ready, o);
      assert ready != [] ==> ready[0] in layer;
      if |layer| == 0 {
        StuckNames(all, o, s);
        return Failure(Names(remaining));
      }
      out, placed, remaining := PlaceLayer(out, placed, remaining, layer);
      prev, k := s.placed, k + 1;
      NextLayer(all, o, s, Progress(out, remaining, placed, prev, k), layer);
    }
    AllPlacedAtEnd(all, o, Progress(out, remaining, placed, prev, k));
    return Success(out);
  }

  lemma AllPlacedAtEnd(all: seq<Package>, o: Ordering, s: Progress)
    requires UniqueNames(all) && LayerInv(all, o, s) && s.remaining == []
    ensures SamePackages(s.out, all)
    ensures forall x :: x in Needs(all) ==> !Doomed(Needs(all), x)
  {
    NeedsMeaning(all);
    forall x | x in Needs(all) ensures !Doomed(Needs(all), x) {
      if x !in s.placed { RemainingName(all, s, x); }
      PlacedIsNotDoomed(all, o, s, x);
    }
  }

  // ---------- Independence of the input order ----------

  lemma SameHead(g: Graph, o: Ordering, a: seq<Package>, b: seq<Package>)
    requires IsCollation(o.collate) && InLayers(g, o, a) && InLayers(g, o, b)
    requires a != [] && b != [] && a[0] in b && b[0] in a
    ensures a[0] == b[0]
  {
  }

  lemma NonEmptyToo(a: seq<Package>, b: seq<Package>)
    requires SamePackages(a, b)
    ensures b != [] ==> a != []
  {
    if b != [] { assert b[0] in a; }
  }

  lemma {:induction false} LayeredListIsUnique(g: Graph, o: Ordering, a: seq<Package>, b: seq<Package>)
    requires IsCollation(o.collate) && InLayers(g, o, a) && InLayers(g, o, b)
    requires SamePackages(a, b) && UniqueNames(a) && UniqueNames(b)
    ensures a == b
  {
    NonEmptyToo(a, b);
    if a != [] {
      assert a[0] in b;
      SameHead(g, o, a, b);
      forall p ensures p in a[1..] <==> p in b[1..] {
        InTail(a, p);
        InTail(b, p);
      }
      LayeredListIsUnique(g, o, a[1..], b[1..]);
    }
  }

  lemma InTail(ps: seq<Package>, p: Package)
    requires UniqueNames(ps) && ps != []
    ensures p in ps[1..] <==> p in ps && p != ps[0]
  {
  }

  /** Two inputs with the same packages, in any order, are sorted alike. */
  lemma SortIgnoresInputOrder(ps: seq<Package>, qs: seq<Package>, o: Ordering, out: seq<Package>, out': seq<Package>)
    requires IsCollation(o.collate) && SamePackages(MapValues(ps), MapValues(qs))
    requires IsTopoSort(ps, o, out) && IsTopoSort(qs, o, out')
    ensures out == out'
  {
    var g, g' := Needs(MapValues(ps)), Needs(MapValues(qs));
    MapValuesMeaning(ps);
    MapValuesMeaning(qs);
    NeedsMeaning(MapValues(ps));
    NeedsMeaning(MapValues(qs));
    assert g == g';
    LayeredListIsUnique(g, o, out, out');
  }
}
