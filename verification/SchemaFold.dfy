/** Key paths of composed schemas: `foldComposed` of `scripts/gen-config-catalog.ts`. */
module SchemaFold {
  import opened Digraph

  /** A package's own schema keys, and the packages whose schemas it intersects with. */
  datatype Entry = Entry(keys: seq<string>, composes: seq<string>)

  type Catalog = map<string, Entry>

  function Composition(c: Catalog): Graph {
    map p | p in c :: c[p].composes
  }

  /** `p` intersects with `q`, directly or through collected packages. */
  ghost predicate Reaches(c: Catalog, p: string, q: string) {
    exists w :: Leads(c, w, p, q)
  }

  ghost predicate Leads(c: Catalog, w: seq<string>, p: string, q: string) {
    Walk(Composition(c), w) && w[0] == p && w[|w| - 1] == q
  }

  /** The keys of the packages in this order. */
  function KeysOf(c: Catalog, order: seq<string>): seq<string>
    requires forall q | q in order :: q in c
  {
    if order == [] then [] else c[order[0]].keys + KeysOf(c, order[1..])
  }

  /** The names in a list that no collected package has. */
  function Missing(c: Catalog, names: seq<string>): seq<string> {
    if names == [] then [] else (if names[0] in c then [] else [names[0]]) + Missing(c, names[1..])
  }

  function AllMissing(c: Catalog, order: seq<string>): seq<string>
    requires forall q | q in order :: q in c
  {
    if order == [] then [] else Missing(c, c[order[0]].composes) + AllMissing(c, order[1..])
  }

  lemma {:induction false} Appended(c: Catalog, a: seq<string>, b: seq<string>)
    requires forall q | q in a + b :: q in c
    ensures forall q | q in a :: q in c
    ensures forall q | q in b :: q in c
    ensures KeysOf(c, a + b) == KeysOf(c, a) + KeysOf(c, b)
    ensures AllMissing(c, a + b) == AllMissing(c, a) + AllMissing(c, b)
  {
    forall q | q in a || q in b ensures q in a + b {}
    if a == [] {
      assert a + b == b;
    } else {
      var rest := a[1..];
      assert (a + b)[1..] == rest + b;
      forall q | q in rest + b ensures q in c {}
      Appended(c, rest, b);
      Regroup(c[a[0]].keys, KeysOf(c, rest), KeysOf(c, b));
      Regroup(Missing(c, c[a[0]].composes), AllMissing(c, rest), AllMissing(c, b));
    }
  }

  lemma Regroup<T>(a: seq<T>, b: seq<T>, c: seq<T>)
    ensures a + (b + c) == a + b + c
  {
  }

  /** The packages seen since `before`, each once. */
  ghost predicate Newly(before: set<string>, now: set<string>, order: seq<string>) {
    && before <= now
    && (forall i, j :: 0 <= i < j < |order| ==> order[i] != order[j])
    && (forall q :: q in now <==> q in before || q in order)
    && (forall q :: q in order ==> q !in before)
  }

  lemma NewlyThen(a: set<string>, b: set<string>, c: set<string>, x: seq<string>, y: seq<string>)
    requires Newly(a, b, x) && Newly(b, c, y)
    ensures Newly(a, c, x + y)
  {
    forall i, j | 0 <= i < j < |x + y| ensures (x + y)[i] != (x + y)[j] {
      if i < |x| <= j {
        assert x[i] in x && y[j - |x|] in y;
      }
    }
    forall q ensures q in x + y <==> q in x || q in y {}
  }

  /** All but the open packages have what they intersect with in the set. */
  ghost predicate Closed(c: Catalog, seen: set<string>, open: set<string>) {
    forall q, r :: q in seen && q !in open && Edge(Composition(c), q, r) ==> r in seen
  }

  lemma ReachesSelf(c: Catalog, p: string)
    ensures Reaches(c, p, p)
  {
    assert Leads(c, [p], p, p);
  }

  lemma ReachesStep(c: Catalog, p: string, q: string, r: string)
    requires Edge(Composition(c), p, q) && Reaches(c, q, r)
    ensures Reaches(c, p, r)
  {
    var w :| Leads(c, w, q, r);
    var longer := [p] + w;
    forall i | 0 <= i < |longer| - 1 ensures Edge(Composition(c), longer[i], longer[i + 1]) {
      if i > 0 { assert longer[i] == w[i - 1] && longer[i + 1] == w[i]; }
    }
    assert Leads(c, longer, p, r);
  }

  /** A closed set holds all it reaches. */
  lemma {:induction false} ClosedHolds(c: Catalog, seen: set<string>, w: seq<string>)
    requires Closed(c, seen, {}) && Walk(Composition(c), w) && w[0] in seen
    ensures w[|w| - 1] in seen
    decreases |w|
  {
    if |w| > 1 {
      var init := w[..|w| - 1];
      assert Walk(Composition(c), init) by {
        forall i | 0 <= i < |init| - 1 ensures Edge(Composition(c), init[i], init[i + 1]) {
          assert Edge(Composition(c), w[i], w[i + 1]);
        }
      }
      ClosedHolds(c, seen, init);
      assert Edge(Composition(c), w[|w| - 2], w[|w| - 1]);
    }
  }

  /** From `p`, this order of packages has been folded into these keys. */
  ghost predicate Folded(c: Catalog, p: string, before: set<string>, now: set<string>, order: seq<string>,
                         keys: seq<string>) {
    && Newly(before, now, order)
    && (forall q :: q in order ==> q in c && Reaches(c, p, q))
    && keys == KeysOf(c, order)
  }

  lemma FoldedThen(c: Catalog, p: string, q: string, x: set<string>, y: set<string>, z: set<string>,
                   order: seq<string>, keys: seq<string>, inner: seq<string>, innerKeys: seq<string>)
    requires Edge(Composition(c), p, q) && Folded(c, p, x, y, order, keys) && Folded(c, q, y, z, inner, innerKeys)
    ensures Folded(c, p, x, z, order + inner, keys + innerKeys)
    ensures AllMissing(c, order + inner) == AllMissing(c, order) + AllMissing(c, inner)
  {
    NewlyThen(x, y, z, order, inner);
    forall r | r in order + inner ensures r in c && Reaches(c, p, r) {
      if r in inner { ReachesStep(c, p, q, r); }
    }
    Appended(c, order, inner);
  }

  lemma FoldedOne(c: Catalog, p: string, before: set<string>)
    requires p in c && p !in before
    ensures Folded(c, p, before, before + {p}, [p], c[p].keys)
    ensures AllMissing(c, [p]) == Missing(c, c[p].composes)
  {
    ReachesSelf(c, p);
    var none: seq<string> := [];
    assert [p][1..] == none;
    assert c[p].keys + none == c[p].keys;
  }

  /** The reports since `before`, with those still to come, are what this order of packages misses. */
  ghost predicate Reported(c: Catalog, before: seq<string>, now: seq<string>, rest: seq<string>, order: seq<string>) {
    && (forall q | q in order :: q in c)
    && multiset(now) + multiset(Missing(c, rest)) == multiset(before) + multiset(AllMissing(c, order))
  }

  lemma ReportName(c: Catalog, before: seq<string>, now: seq<string>, rest: seq<string>, order: seq<string>)
    requires rest != [] && Reported(c, before, now, rest, order)
    ensures rest[0] in c ==> Reported(c, before, now, rest[1..], order)
    ensures rest[0] !in c ==> Reported(c, before, now + [rest[0]], rest[1..], order)
  {
  }

  lemma ReportThen(c: Catalog, before: seq<string>, now: seq<string>, later: seq<string>, rest: seq<string>,
                   order: seq<string>, inner: seq<string>)
    requires Reported(c, before, now, rest, order) && Reported(c, now, later, [], inner)
    ensures Reported(c, before, later, rest, order + inner)
  {
    forall q | q in order + inner ensures q in c {}
    Appended(c, order, inner);
    NothingRest(c, now, later, inner);
    Balance(multiset(now), multiset(Missing(c, rest)), multiset(before), multiset(AllMissing(c, order)),
            multiset(later), multiset(AllMissing(c, inner)));
  }

  lemma NothingRest(c: Catalog, before: seq<string>, now: seq<string>, order: seq<string>)
    requires Reported(c, before, now, [], order)
    ensures multiset(now) == multiset(before) + multiset(AllMissing(c, order))
  {
  }

  lemma Balance<T>(now: multiset<T>, rest: multiset<T>, before: multiset<T>, all: multiset<T>, later: multiset<T>,
                   inner: multiset<T>)
    requires now + rest == before + all && later == now + inner
    ensures later + rest == before + (all + inner)
  {
    assert later + rest == (now + rest) + inner;
  }

  /** The listed ones among the first `n` names have been seen. */
  ghost predicate SeenBefore(c: Catalog, names: seq<string>, n: nat, seen: set<string>)
    requires n <= |names|
  {
    forall m :: 0 <= m < n && names[m] in c ==> names[m] in seen
  }

  lemma SeenNext(c: Catalog, names: seq<string>, k: nat, before: set<string>, now: set<string>)
    requires k < |names| && SeenBefore(c, names, k, before) && before <= now
    requires names[k] in c ==> names[k] in now
    ensures SeenBefore(c, names, k + 1, now)
  {
  }

  lemma CloseUp(c: Catalog, seen: set<string>, open: set<string>, p: string)
    requires p in c && Closed(c, seen, open + {p}) && forall r | r in c[p].composes && r in c :: r in seen
    ensures Closed(c, seen, open)
  {
  }

  class Folder {
    const catalog: Catalog
    var seen: set<string>
    var violations: seq<string>

    constructor (catalog: Catalog)
      ensures this.catalog == catalog && seen == {} && violations == []
    {
      this.catalog, seen, violations := catalog, {}, [];
    }

    /** `foldComposed`; `open` are the packages whose fold has begun and not ended. */
    method FoldComposed(p: string, ghost open: set<string>) returns (keys: seq<string>, ghost order: seq<string>)
      requires p in catalog && open <= seen <= catalog.Keys && Closed(catalog, seen, open)
      modifies this
      ensures p in seen && seen <= catalog.Keys && Closed(catalog, seen, open)
      ensures Folded(catalog, p, old(seen), seen, order, keys)
      ensures Reported(catalog, old(violations), violations, [], order)
      decreases catalog.Keys - seen
    {
      if p in seen {
        return [], [];
      }
      ghost var seen0, violations0 := seen, violations;
      FoldedOne(catalog, p, seen);
      seen := seen + {p};
      keys, order := catalog[p].keys, [p];
      var composes := catalog[p].composes;
      assert composes[0..] == composes;
      for k := 0 to |composes|
        invariant p in seen && seen <= catalog.Keys && Closed(catalog, seen, open + {p})
        invariant Folded(catalog, p, seen0, seen, order, keys)
        invariant Reported(catalog, violations0, violations, composes[k..], order)
        invariant SeenBefore(catalog, composes, k, seen)
      {
        ghost var before := seen;
        assert composes[k..][1..] == composes[k + 1..];
        ReportName(catalog, violations0, violations, composes[k..], order);
        if composes[k] !in catalog {
          violations := violations + [composes[k]];
        } else {
          ghost var reported := violations;
          var inner, innerOrder := FoldComposed(composes[k], open + {p});
          FoldedThen(catalog, p, composes[k], seen0, before, seen, order, keys, innerOrder, inner);
          ReportThen(catalog, violations0, reported, violations, composes[k + 1..], order, innerOrder);
          keys := keys + inner;
          order := order + innerOrder;
        }
        SeenNext(catalog, composes, k, before, seen);
      }
      assert composes[|composes|..] == [];
      CloseUp(catalog, seen, open, p);
    }
  }

  /** Some package `p` reaches has the key. */
  ghost predicate HasKey(c: Catalog, p: string, key: string) {
    exists q :: Reaches(c, p, q) && q in c && key in c[q].keys
  }

  /** Some package `p` reaches composes the name, and no package has it. */
  ghost predicate Misses(c: Catalog, p: string, name: string) {
    name !in c && exists q :: Reaches(c, p, q) && q in c && name in c[q].composes
  }

  /**
   * The fold of one package takes the keys of exactly the packages it reaches, each
   * once, and reports exactly the names they compose that no package has.
   */
  method FoldEntry(catalog: Catalog, p: string)
    returns (keys: seq<string>, violations: seq<string>, ghost order: seq<string>)
    requires p in catalog
    ensures Distinct(order) && forall q :: q in order <==> Reaches(catalog, p, q)
    ensures (forall q :: q in order ==> q in catalog) && keys == KeysOf(catalog, order)
    ensures multiset(violations) == multiset(AllMissing(catalog, order))
    ensures forall key :: key in keys <==> HasKey(catalog, p, key)
    ensures forall name :: name in violations <==> Misses(catalog, p, name)
  {
    var folder := new Folder(catalog);
    keys, order := folder.FoldComposed(p, {});
    violations := folder.violations;
    NothingRest(catalog, [], violations, order);
    forall q | Reaches(catalog, p, q) ensures q in order {
      var w :| Leads(catalog, w, p, q);
      ClosedHolds(catalog, folder.seen, w);
    }
    forall key ensures key in keys <==> HasKey(catalog, p, key) { KeysExactly(catalog, order, key); }
    forall name ensures name in violations <==> Misses(catalog, p, name) {
      MissingExactly(catalog, order, name);
      assert name in violations <==> name in multiset(violations);
    }
  }

  /** A key is folded in exactly when a reached package has it. */
  lemma {:induction false} KeysExactly(c: Catalog, order: seq<string>, key: string)
    requires forall q | q in order :: q in c
    ensures key in KeysOf(c, order) <==> exists q :: q in order && key in c[q].keys
  {
    if order != [] {
      KeysExactly(c, order[1..], key);
      assert order == [order[0]] + order[1..];
    }
  }

  lemma {:induction false} MissingExactly(c: Catalog, order: seq<string>, name: string)
    requires forall q | q in order :: q in c
    ensures name in AllMissing(c, order) <==> name !in c && exists q :: q in order && name in c[q].composes
  {
    if order != [] {
      MissingExactly(c, order[1..], name);
      NamesMissing(c, c[order[0]].composes, name);
      assert order == [order[0]] + order[1..];
    }
  }

  lemma {:induction false} NamesMissing(c: Catalog, names: seq<string>, name: string)
    ensures name in Missing(c, names) <==> name in names && name !in c
  {
    if names != [] { NamesMissing(c, names[1..], name); }
  }
}
