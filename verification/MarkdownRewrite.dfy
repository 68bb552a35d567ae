/** `rewriteMarkdown` of `scripts/project-doc-site.ts`. */
module MarkdownRewrite {
  import opened Wrappers
  import opened Splices
  import DocSite

  /** What becomes of a URL: it stays, it moves, or its repository path does not exist. */
  datatype Routing = Stay | Move(url: string) | Missing

  /** A parsed node; `link` is set for the three rewritable kinds. */
  datatype Tree = Tree(link: Option<DocSite.Kind>, span: Span, url: string, children: seq<Tree>)

  datatype Replacement = Replacement(span: Span, value: string)

  datatype Fault = MissingPath(url: string) | Unscannable(error: DocSite.ScanError)

  type Router = (DocSite.Kind, string) -> Routing

  /** `source.slice(start, end)`. */
  function Slice(source: string, span: Span): string {
    var end := if span.end < |source| then span.end else |source|;
    if span.start <= end then source[span.start..end] else ""
  }

  // ---------- What the walk collects ----------

  /** The replacement a node asks for itself. */
  function Own(source: string, t: Tree, route: Router): Result<seq<Replacement>, Fault> {
    if t.link.None? then Success([])
    else
      match route(t.link.value, t.url)
      case Stay => Success([])
      case Missing => Failure(MissingPath(t.url))
      case Move(url) =>
        match DocSite.Destination(Slice(source, t.span), t.link.value)
        case Failure(error) => Failure(Unscannable(error))
        case Success(d) => Success([Replacement(Span(t.span.start + d.start, t.span.start + d.end), url)])
  }

  /** The first fault in walking order. */
  function Fails(source: string, t: Tree, route: Router): Option<Fault> {
    match Own(source, t, route)
    case Failure(fault) => Some(fault)
    case Success(_) => AnyFails(source, t.children, route)
  }

  function AnyFails(source: string, ts: seq<Tree>, route: Router): Option<Fault> {
    if ts == [] then None
    else if Fails(source, ts[0], route).Some? then Fails(source, ts[0], route)
    else AnyFails(source, ts[1..], route)
  }

  /** The node, or one below it. */
  predicate Within(t: Tree, u: Tree) {
    u == t || exists i | 0 <= i < |t.children| :: Within(t.children[i], u)
  }

  /** A linked node whose path does not exist, or whose destination cannot be located. */
  predicate Faulty(source: string, u: Tree, route: Router) {
    u.link.Some? &&
    match route(u.link.value, u.url)
    case Stay => false
    case Missing => true
    case Move(_) => DocSite.Destination(Slice(source, u.span), u.link.value).Failure?
  }

  /** Rewriting throws exactly if some node is faulty, and then for one that is. */
  lemma {:induction false} FailsExactly(source: string, t: Tree, route: Router)
    ensures Fails(source, t, route).Some? <==> exists u :: Within(t, u) && Faulty(source, u, route)
    ensures Fails(source, t, route).Some? && Fails(source, t, route).value.MissingPath? ==>
              exists u :: Within(t, u) && u.link.Some? && route(u.link.value, u.url) == Missing
                          && Fails(source, t, route) == Some(MissingPath(u.url))
    decreases t, 1
  {
    AnyFailsExactly(source, t.children, route);
    if Own(source, t, route).Failure? {
      assert Within(t, t) && Faulty(source, t, route);
    } else if i :| 0 <= i < |t.children| && Fails(source, t.children[i], route).Some?
                   && AnyFails(source, t.children, route) == Fails(source, t.children[i], route) {
      FailsExactly(source, t.children[i], route);
      forall u | Within(t.children[i], u) ensures Within(t, u) {}
    }
    if u :| Within(t, u) && Faulty(source, u, route) {
      if u != t {
        var i :| 0 <= i < |t.children| && Within(t.children[i], u);
        FailsExactly(source, t.children[i], route);
      }
    }
  }

  /** The first child that fails is the one reported. */
  lemma {:induction false} AnyFailsExactly(source: string, ts: seq<Tree>, route: Router)
    ensures AnyFails(source, ts, route).Some? <==> exists i :: 0 <= i < |ts| && Fails(source, ts[i], route).Some?
    ensures AnyFails(source, ts, route).Some? ==>
              exists i :: 0 <= i < |ts| && Fails(source, ts[i], route).Some?
                          && AnyFails(source, ts, route) == Fails(source, ts[i], route)
    decreases ts, 0
  {
    if ts != [] {
      AnyFailsExactly(source, ts[1..], route);
      if i :| 0 <= i < |ts[1..]| && Fails(source, ts[1..][i], route).Some?
              && AnyFails(source, ts[1..], route) == Fails(source, ts[1..][i], route) {
        assert ts[i + 1] == ts[1..][i];
      }
      if i :| 0 <= i < |ts| && Fails(source, ts[i], route).Some? {
        if i > 0 { assert ts[1..][i - 1] == ts[i]; }
      }
    }
  }

  function Asked(source: string, t: Tree, route: Router): seq<Replacement> {
    match Own(source, t, route)
    case Failure(_) => []
    case Success(rs) => rs
  }

  /** Replacements in walking order: a node before its children. */
  function Walked(source: string, t: Tree, route: Router): seq<Replacement> {
    Asked(source, t, route) + AllWalked(source, t.children, route)
  }

  function AllWalked(source: string, ts: seq<Tree>, route: Router): seq<Replacement> {
    if ts == [] then [] else Walked(source, ts[0], route) + AllWalked(source, ts[1..], route)
  }

  /** Replacements in document order: a destination stands behind what its label holds. */
  function Placed(source: string, t: Tree, route: Router): seq<Replacement> {
    AllPlaced(source, t.children, route) + Asked(source, t, route)
  }

  function AllPlaced(source: string, ts: seq<Tree>, route: Router): seq<Replacement> {
    if ts == [] then [] else Placed(source, ts[0], route) + AllPlaced(source, ts[1..], route)
  }

  lemma {:induction false} WalkedIsPlaced(source: string, t: Tree, route: Router)
    ensures multiset(Walked(source, t, route)) == multiset(Placed(source, t, route))
    decreases t, 1
  {
    AllWalkedIsPlaced(source, t.children, route);
  }

  lemma {:induction false} AllWalkedIsPlaced(source: string, ts: seq<Tree>, route: Router)
    ensures multiset(AllWalked(source, ts, route)) == multiset(AllPlaced(source, ts, route))
    decreases ts, 0
  {
    if ts != [] {
      WalkedIsPlaced(source, ts[0], route);
      AllWalkedIsPlaced(source, ts[1..], route);
    }
  }

  // ---------- Disjointness ----------

  /** Where the children of a node end: a link that is rewritten has them in its label. */
  function ChildLimit(source: string, t: Tree, route: Router): nat {
    var raw := Slice(source, t.span);
    if Asked(source, t, route) != [] && DocSite.LabelEndOf(raw).Some?
    then t.span.start + DocSite.LabelEndOf(raw).value
    else t.span.end
  }

  /** The positions a Markdown parser gives: siblings in order, children inside their parent. */
  predicate Nested(source: string, t: Tree, route: Router, lo: nat, hi: nat) {
    && lo <= t.span.start <= t.span.end <= hi <= |source|
    && AllNested(source, t.children, route, t.span.start, ChildLimit(source, t, route))
  }

  predicate AllNested(source: string, ts: seq<Tree>, route: Router, lo: nat, hi: nat) {
    if ts == [] then lo <= hi
    else Nested(source, ts[0], route, lo, hi) && AllNested(source, ts[1..], route, ts[0].span.end, hi)
  }

  /** Between `lo` and `hi`, in order, with something between any two. */
  predicate Apart(rs: seq<Replacement>, lo: nat, hi: nat) {
    && (forall i | 0 <= i < |rs| :: lo < rs[i].span.start <= rs[i].span.end <= hi)
    && (forall i, j | 0 <= i < j < |rs| :: rs[i].span.end < rs[j].span.start)
  }

  lemma ApartConcat(a: seq<Replacement>, b: seq<Replacement>, lo: nat, mid: nat, hi: nat)
    requires Apart(a, lo, mid) && Apart(b, mid, hi) && lo <= mid <= hi
    ensures Apart(a + b, lo, hi)
  {
  }

  /** A rewritten destination lies behind the label, within the node. */
  lemma OwnApart(source: string, t: Tree, route: Router)
    requires t.span.start <= t.span.end <= |source|
    ensures t.span.start <= ChildLimit(source, t, route) <= t.span.end
    ensures Apart(Asked(source, t, route), ChildLimit(source, t, route), t.span.end)
  {
  }

  /** The destinations of nested and neighbouring nodes never touch. */
  lemma {:induction false} PlacedApart(source: string, t: Tree, route: Router, lo: nat, hi: nat)
    requires Nested(source, t, route, lo, hi)
    ensures Apart(Placed(source, t, route), t.span.start, t.span.end)
    decreases t, 1
  {
    OwnApart(source, t, route);
    var limit := ChildLimit(source, t, route);
    AllPlacedApart(source, t.children, route, t.span.start, limit);
    ApartConcat(AllPlaced(source, t.children, route), Asked(source, t, route), t.span.start, limit, t.span.end);
  }

  lemma {:induction false} AllPlacedApart(source: string, ts: seq<Tree>, route: Router, lo: nat, hi: nat)
    requires AllNested(source, ts, route, lo, hi)
    ensures lo <= hi && Apart(AllPlaced(source, ts, route), lo, hi)
    decreases ts, 0
  {
    if ts != [] {
      PlacedApart(source, ts[0], route, lo, hi);
      AllPlacedApart(source, ts[1..], route, ts[0].span.end, hi);
      var first := Placed(source, ts[0], route);
      assert Apart(first, lo, ts[0].span.end);
      ApartConcat(first, AllPlaced(source, ts[1..], route), lo, ts[0].span.end, hi);
    }
  }

  // ---------- Sorting from the back ----------

  predicate Descending(rs: seq<Replacement>) {
    forall i, j | 0 <= i < j < |rs| :: rs[i].span.start >= rs[j].span.start
  }

  function Insert(r: Replacement, rs: seq<Replacement>): (out: seq<Replacement>)
    ensures multiset(out) == multiset([r] + rs)
  {
    if rs == [] || r.span.start >= rs[0].span.start then [r] + rs
    else
      assert [r] + rs == [r, rs[0]] + rs[1..];
      [rs[0]] + Insert(r, rs[1..])
  }

  /** `sort` by descending start. */
  function SortFromBack(rs: seq<Replacement>): (out: seq<Replacement>)
    ensures multiset(out) == multiset(rs)
  {
    if rs == [] then []
    else
      assert rs == [rs[0]] + rs[1..];
      Insert(rs[0], SortFromBack(rs[1..]))
  }

  lemma {:induction false} InsertDescending(r: Replacement, rs: seq<Replacement>)
    requires Descending(rs)
    ensures Descending(Insert(r, rs))
  {
    if rs != [] && r.span.start < rs[0].span.start {
      InsertDescending(r, rs[1..]);
      var rest := Insert(r, rs[1..]);
      forall k | 0 <= k < |rest| ensures rs[0].span.start >= rest[k].span.start {
        assert rest[k] in multiset(rest);
        assert rest[k] == r || rest[k] in rs[1..];
      }
      ConsDescending(rs[0], rest);
    } else {
      ConsDescending(r, rs);
    }
  }

  lemma ConsDescending(r: Replacement, rs: seq<Replacement>)
    requires Descending(rs) && forall k | 0 <= k < |rs| :: r.span.start >= rs[k].span.start
    ensures Descending([r] + rs)
  {
  }

  lemma {:induction false} SortedDescending(rs: seq<Replacement>)
    ensures Descending(SortFromBack(rs))
  {
    if rs != [] {
      SortedDescending(rs[1..]);
      InsertDescending(rs[0], SortFromBack(rs[1..]));
    }
  }

  predicate IsReverse(a: seq<Replacement>, b: seq<Replacement>) {
    |a| == |b| && forall i | 0 <= i < |a| :: a[i] == b[|b| - 1 - i]
  }

  /** A descending arrangement of replacements that lie apart is their reverse. */
  lemma {:induction false} DescendingIsReverse(a: seq<Replacement>, b: seq<Replacement>, lo: nat, hi: nat)
    requires Descending(a) && Apart(b, lo, hi) && multiset(a) == multiset(b)
    ensures IsReverse(a, b)
    decreases |b|
  {
    assert |a| == |multiset(a)| == |multiset(b)| == |b|;
    if b != [] {
      HeadIsLast(a, b, lo, hi);
      WithoutEnds(a, b);
      DescendingIsReverse(a[1..], b[..|b| - 1], lo, hi);
      ReverseCons(a, b);
    }
  }

  lemma ReverseCons(a: seq<Replacement>, b: seq<Replacement>)
    requires |a| == |b| > 0 && a[0] == b[|b| - 1] && IsReverse(a[1..], b[..|b| - 1])
    ensures IsReverse(a, b)
  {
    forall i | 0 < i < |a| ensures a[i] == b[|b| - 1 - i] {
      assert a[1..][i - 1] == b[..|b| - 1][|b| - 1 - i];
    }
  }

  lemma WithoutEnds<T>(a: seq<T>, b: seq<T>)
    requires |a| == |b| > 0 && a[0] == b[|b| - 1] && multiset(a) == multiset(b)
    ensures multiset(a[1..]) == multiset(b[..|b| - 1])
  {
    assert a == [a[0]] + a[1..] && b == b[..|b| - 1] + [b[|b| - 1]];
    assert multiset(a[1..]) == multiset(a) - multiset{a[0]};
    assert multiset(b[..|b| - 1]) == multiset(b) - multiset{a[0]};
  }

  lemma HeadIsLast(a: seq<Replacement>, b: seq<Replacement>, lo: nat, hi: nat)
    requires Descending(a) && Apart(b, lo, hi) && multiset(a) == multiset(b) && |a| == |b| > 0
    ensures a[0] == b[|b| - 1]
  {
    var last := b[|b| - 1];
    assert a[0] in multiset(b) && last in multiset(a);
    var k :| 0 <= k < |a| && a[k] == last;
    var m :| 0 <= m < |b| && b[m] == a[0];
    assert a[0].span.start >= last.span.start;
  }

  // ---------- The rewrite ----------

  function Spans(rs: seq<Replacement>): (s: seq<Span>)
    ensures |s| == |rs| && forall i :: 0 <= i < |rs| ==> s[i] == rs[i].span
  {
    seq(|rs|, i requires 0 <= i < |rs| => rs[i].span)
  }

  function Values(rs: seq<Replacement>): (s: seq<string>)
    ensures |s| == |rs| && forall i :: 0 <= i < |rs| ==> s[i] == rs[i].value
  {
    seq(|rs|, i requires 0 <= i < |rs| => rs[i].value)
  }

  lemma ApartInOrder(rs: seq<Replacement>, lo: nat, hi: nat, n: nat)
    requires Apart(rs, lo, hi) && hi <= n
    ensures InOrder(n, Spans(rs))
  {
  }

  /** The walk, which adds to the list of replacements as it goes. */
  class Rewriter {
    const source: string
    const route: Router
    var replacements: seq<Replacement>

    constructor (source: string, route: Router)
      ensures this.source == source && this.route == route && replacements == []
    {
      this.source, this.route, replacements := source, route, [];
    }

    method Rewrite(t: Tree) returns (r: Option<Fault>)
      modifies this
      ensures r == (match Own(source, t, route) case Failure(fault) => Some(fault) case Success(_) => None)
      ensures replacements == old(replacements) + Asked(source, t, route)
    {
      if t.link.None? {
        return None;
      }
      var routing := route(t.link.value, t.url);
      match routing
      case Stay => return None;
      case Missing => return Some(MissingPath(t.url));
      case Move(url) =>
        var rawNode := Slice(source, t.span);
        var d := DocSite.DestinationRange(rawNode, t.link.value);
        if d.Failure? {
          return Some(Unscannable(d.error));
        }
        var place := Span(t.span.start + d.value.start, t.span.start + d.value.end);
        replacements := replacements + [Replacement(place, url)];
        return None;
    }

    method Visit(t: Tree) returns (r: Option<Fault>)
      modifies this
      ensures r == Fails(source, t, route)
      ensures r.None? ==> replacements == old(replacements) + Walked(source, t, route)
      decreases t
    {
      r := Rewrite(t);
      if r.Some? {
        return;
      }
      ghost var before := replacements;
      var i := 0;
      while i < |t.children|
        invariant 0 <= i <= |t.children| && r.None?
        invariant AnyFails(source, t.children, route) == AnyFails(source, t.children[i..], route)
        invariant replacements + AllWalked(source, t.children[i..], route)
                  == before + AllWalked(source, t.children, route)
      {
        ghost var rest := t.children[i..];
        assert rest[0] == t.children[i] && rest[1..] == t.children[i + 1..];
        ghost var was := replacements;
        r := Visit(t.children[i]);
        if r.Some? {
          return;
        }
        Regroup(was, Walked(source, rest[0], route), AllWalked(source, rest[1..], route));
        i := i + 1;
      }
      assert t.children[i..] == [];
      Regroup(old(replacements), Asked(source, t, route), AllWalked(source, t.children, route));
    }
  }

  lemma Regroup<T>(a: seq<T>, b: seq<T>, c: seq<T>)
    ensures (a + b) + c == a + (b + c)
  {
  }

  /** `s.slice(0, i)` and `s.slice(i)`. */
  function Head(s: string, i: nat): string {
    if i <= |s| then s[..i] else s
  }

  function Tail(s: string, i: nat): string {
    if i <= |s| then s[i..] else ""
  }

  function Splice(s: string, r: Replacement): string {
    Head(s, r.span.start) + r.value + Tail(s, r.span.end)
  }

  /** One splice after the other. */
  function Spliced(s: string, rs: seq<Replacement>): string
    decreases |rs|
  {
    if rs == [] then s else Spliced(Splice(s, rs[0]), rs[1..])
  }

  lemma SpliceBack(source: string, rs: seq<Replacement>, j: nat)
    requires InOrder(|source|, Spans(rs)) && j < |rs|
    ensures Splice(Partial(source, Spans(rs), Values(rs), j + 1), rs[j]) == Partial(source, Spans(rs), Values(rs), j)
  {
    SpliceStep(source, Spans(rs), Values(rs), j);
  }

  /** Splices of disjoint spans from the back are one simultaneous substitution. */
  lemma {:induction false} SplicedTogether(source: string, sorted: seq<Replacement>, rs: seq<Replacement>, i: nat,
                                           j: nat)
    requires InOrder(|source|, Spans(rs)) && IsReverse(sorted, rs) && i + j == |rs|
    ensures SplicedFrom(Partial(source, Spans(rs), Values(rs), j), sorted, i)
            == ReplaceAll(source, Spans(rs), Values(rs))
    decreases j
  {
    if j == 0 {
      assert sorted[i..] == [];
      PartialEnds(source, Spans(rs), Values(rs));
    } else {
      SplicedBack(source, sorted, rs, i, j - 1);
      SplicedTogether(source, sorted, rs, i + 1, j - 1);
    }
  }

  lemma SplicedBack(source: string, sorted: seq<Replacement>, rs: seq<Replacement>, i: nat, j: nat)
    requires InOrder(|source|, Spans(rs)) && IsReverse(sorted, rs) && i + j + 1 == |rs|
    ensures SplicedFrom(Partial(source, Spans(rs), Values(rs), j + 1), sorted, i)
            == SplicedFrom(Partial(source, Spans(rs), Values(rs), j), sorted, i + 1)
  {
    var r := sorted[i];
    assert r == rs[j];
    SpliceBack(source, rs, j);
    SplicedOnce(Partial(source, Spans(rs), Values(rs), j + 1), sorted, i);
  }

  /** The splices from the `i`-th on. */
  function SplicedFrom(s: string, rs: seq<Replacement>, i: nat): string
    requires i <= |rs|
  {
    Spliced(s, rs[i..])
  }

  lemma SplicedOnce(s: string, rs: seq<Replacement>, i: nat)
    requires i < |rs|
    ensures SplicedFrom(s, rs, i) == SplicedFrom(Splice(s, rs[i]), rs, i + 1)
  {
    assert rs[i..][1..] == rs[i + 1..];
  }

  /** The replacements lie apart in the source, and the text is the source with all of them at once. */
  ghost predicate Substitutes(source: string, rs: seq<Replacement>, text: string) {
    InOrder(|source|, Spans(rs)) && text == ReplaceAll(source, Spans(rs), Values(rs))
  }

  /** For nested positions the order of the walk does not matter, and no splice meets another. */
  lemma NestedIsSimultaneous(source: string, tree: Tree, route: Router)
    requires Nested(source, tree, route, 0, |source|)
    ensures Substitutes(source, Placed(source, tree, route),
                        Spliced(source, SortFromBack(Walked(source, tree, route))))
  {
    var rs, walked := Placed(source, tree, route), Walked(source, tree, route);
    PlacedApart(source, tree, route, 0, |source|);
    ApartInOrder(rs, tree.span.start, tree.span.end, |source|);
    SortedDescending(walked);
    WalkedIsPlaced(source, tree, route);
    var sorted := SortFromBack(walked);
    DescendingIsReverse(sorted, rs, tree.span.start, tree.span.end);
    PartialEnds(source, Spans(rs), Values(rs));
    assert sorted[0..] == sorted;
    SplicedTogether(source, sorted, rs, 0, |rs|);
  }

  /**
   * `rewriteMarkdown`, for any positions: the splices of what the walk collects, from the
   * back.  Where positions are nested, all destinations are substituted at once and
   * everything else stays as it is.
   */
  method RewriteMarkdown(source: string, tree: Tree, route: Router) returns (r: Result<string, Fault>)
    ensures r.Failure? <==> Fails(source, tree, route).Some?
    ensures r.Failure? ==> Some(r.error) == Fails(source, tree, route)
    ensures r.Success? ==> r.value == Spliced(source, SortFromBack(Walked(source, tree, route)))
    ensures r.Success? && Nested(source, tree, route, 0, |source|) ==>
              Substitutes(source, Placed(source, tree, route), r.value)
  {
    if Nested(source, tree, route, 0, |source|) { NestedIsSimultaneous(source, tree, route); }
    var rewriter := new Rewriter(source, route);
    var fault := rewriter.Visit(tree);
    if fault.Some? {
      return Failure(fault.value);
    }
    assert rewriter.replacements == Walked(source, tree, route);
    var projected := SpliceFromBack(source, SortFromBack(rewriter.replacements));
    return Success(projected);
  }

  method SpliceFromBack(source: string, sorted: seq<Replacement>) returns (projected: string)
    ensures projected == Spliced(source, sorted)
  {
    projected := source;
    for i := 0 to |sorted|
      invariant SplicedFrom(projected, sorted, i) == Spliced(source, sorted)
    {
      SplicedOnce(projected, sorted, i);
      projected := Splice(projected, sorted[i]);
    }
  }

  /** The replacement puts the URL in the place of just this text. */
  predicate Replaces(source: string, r: Replacement, url: string, text: string) {
    r.value == url && r.span.start <= r.span.end <= |source| && source[r.span.start..r.span.end] == text
  }

  /** On a node that reads as CommonMark means it, exactly the destination is replaced. */
  lemma ReplacesTheTarget(source: string, t: Tree, route: Router, n: DocSite.Node)
    requires t.link == Some(n.kind) && route(n.kind, t.url).Move? && DocSite.WellFormed(n) && DocSite.Readable(n)
    requires t.span.start <= t.span.end <= |source| && source[t.span.start..t.span.end] == DocSite.Print(n)
    ensures |Asked(source, t, route)| == 1
    ensures Replaces(source, Asked(source, t, route)[0], route(n.kind, t.url).url, DocSite.Inner(n.target))
  {
    var e, text := DocSite.Expected(n), Slice(source, t.span);
    DocSite.FoundInText(n, text);
    ReplacedAt(source, t, route, e, text, DocSite.Inner(n.target));
  }

  lemma ReplacedAt(source: string, t: Tree, route: Router, d: Span, text: string, inner: string)
    requires Moves(t, route) && DocSite.Destination(text, t.link.value) == Success(d)
    requires t.span.start <= t.span.end <= |source| && source[t.span.start..t.span.end] == text
    requires d.start <= d.end <= |text| && text[d.start..d.end] == inner
    ensures |Asked(source, t, route)| == 1
    ensures Replaces(source, Asked(source, t, route)[0], route(t.link.value, t.url).url, inner)
  {
    var place, url := Span(t.span.start + d.start, t.span.start + d.end), route(t.link.value, t.url).url;
    SliceOfSlice(source, t.span.start, t.span.end, text, d.start, d.end);
    AskedWhenFound(source, t, route, d);
    assert Asked(source, t, route) == [Replacement(place, url)];
    assert Replaces(source, Replacement(place, url), url, inner);
  }

  /** Such a node has its label's content in front of the limit for its children. */
  lemma ChildrenInLabel(source: string, t: Tree, route: Router, n: DocSite.Node)
    requires t.link == Some(n.kind) && DocSite.WellFormed(n)
    requires t.span.start <= t.span.end <= |source| && source[t.span.start..t.span.end] == DocSite.Print(n)
    ensures ChildLimit(source, t, route) == (
              if Asked(source, t, route) == [] then t.span.end
              else t.span.start + DocSite.LabelLength(n))
  {
    var raw := Slice(source, t.span);
    assert raw == DocSite.Print(n);
    DocSite.PrintLies(n, raw);
    DocSite.LabelFound(n, raw);
    LimitAtLabelEnd(source, t, route, DocSite.LabelLength(n));
  }

  lemma LimitAtLabelEnd(source: string, t: Tree, route: Router, labelEnd: nat)
    requires DocSite.LabelEndOf(Slice(source, t.span)) == Some(labelEnd)
    ensures ChildLimit(source, t, route)
            == if Asked(source, t, route) == [] then t.span.end else t.span.start + labelEnd
  {
  }

  lemma AskedWhenFound(source: string, t: Tree, route: Router, d: Span)
    requires t.link.Some? && route(t.link.value, t.url).Move?
    requires DocSite.Destination(Slice(source, t.span), t.link.value) == Success(d)
    ensures Asked(source, t, route)
            == [Replacement(Span(t.span.start + d.start, t.span.start + d.end), route(t.link.value, t.url).url)]
  {
  }

  lemma SliceOfSlice<T>(s: seq<T>, a: nat, b: nat, t: seq<T>, c: nat, d: nat)
    requires a <= b <= |s| && s[a..b] == t && c <= d <= |t|
    ensures t[c..d] == s[a + c..a + d]
  {
    assert forall k | 0 <= k < d - c :: t[c..d][k] == s[a..b][c + k] == s[a + c + k];
  }

  // ---------- Trees of printed nodes ----------

  /** The node stands in the source as the printer writes it. */
  ghost predicate PrintedAs(source: string, t: Tree, n: DocSite.Node) {
    && t.link == Some(n.kind) && DocSite.WellFormed(n) && DocSite.Readable(n)
    && t.span.start <= t.span.end <= |source| && source[t.span.start..t.span.end] == DocSite.Print(n)
  }

  ghost predicate Printed(source: string, t: Tree) {
    exists n :: PrintedAs(source, t, n)
  }

  ghost function Printing(source: string, t: Tree): (n: DocSite.Node)
    requires Printed(source, t)
    ensures PrintedAs(source, t, n)
  {
    var n :| PrintedAs(source, t, n); n
  }

  predicate Moves(t: Tree, route: Router) {
    t.link.Some? && route(t.link.value, t.url).Move?
  }

  function CaptionStart(t: Tree, n: DocSite.Node): nat {
    t.span.start + |DocSite.Prefix(n.kind)| + 1
  }

  function CaptionEnd(t: Tree, n: DocSite.Node): nat {
    CaptionStart(t, n) + |DocSite.Show(n.caption, '[', ']')|
  }

  /** Every node to be rewritten is printed and has its children inside its caption. */
  ghost predicate PrintedTree(source: string, t: Tree, route: Router, lo: nat, hi: nat) {
    && lo <= t.span.start <= t.span.end <= hi <= |source|
    && if Moves(t, route) then
         && Printed(source, t)
         && var n := Printing(source, t);
            AllPrinted(source, t.children, route, CaptionStart(t, n), CaptionEnd(t, n))
       else AllPrinted(source, t.children, route, t.span.start, t.span.end)
  }

  ghost predicate AllPrinted(source: string, ts: seq<Tree>, route: Router, lo: nat, hi: nat) {
    if ts == [] then lo <= hi
    else PrintedTree(source, ts[0], route, lo, hi) && AllPrinted(source, ts[1..], route, ts[0].span.end, hi)
  }

  /** The destinations of the nodes to be rewritten, in document order, with their new URLs. */
  ghost function Destined(source: string, t: Tree, route: Router): seq<Replacement> {
    AllDestined(source, t.children, route) +
    if Moves(t, route) && Printed(source, t) then
      [Redirected(t, route, Printing(source, t))]
    else []
  }

  ghost function AllDestined(source: string, ts: seq<Tree>, route: Router): seq<Replacement> {
    if ts == [] then [] else Destined(source, ts[0], route) + AllDestined(source, ts[1..], route)
  }

  /** The replacement of a node printed as `n`. */
  function Redirected(t: Tree, route: Router, n: DocSite.Node): Replacement
    requires Moves(t, route)
  {
    var e := DocSite.Expected(n);
    Replacement(Span(t.span.start + e.start, t.span.start + e.end), route(t.link.value, t.url).url)
  }

  lemma PrintedAsked(source: string, t: Tree, route: Router, n: DocSite.Node)
    requires Moves(t, route) && DocSite.Destination(Slice(source, t.span), t.link.value) == Success(DocSite.Expected(n))
    ensures Asked(source, t, route) == [Redirected(t, route, n)]
  {
    AskedWhenFound(source, t, route, DocSite.Expected(n));
  }

  /** Their positions are nested, what is replaced is their destinations, and only a path can be at fault. */
  lemma {:induction false} PrintedIsNested(source: string, t: Tree, route: Router, lo: nat, hi: nat)
    requires PrintedTree(source, t, route, lo, hi)
    ensures Nested(source, t, route, lo, hi) && Placed(source, t, route) == Destined(source, t, route)
    ensures Fails(source, t, route).Some? ==> Fails(source, t, route).value.MissingPath?
    decreases t, 1
  {
    if Moves(t, route) {
      var n := Printing(source, t);
      PrintedLimit(source, t, route, n);
      AllPrintedNested(source, t.children, route, t.span.start, CaptionStart(t, n), CaptionEnd(t, n));
    } else {
      assert Asked(source, t, route) == [] && ChildLimit(source, t, route) == t.span.end;
      AllPrintedNested(source, t.children, route, t.span.start, t.span.start, t.span.end);
    }
  }

  lemma PrintedLimit(source: string, t: Tree, route: Router, n: DocSite.Node)
    requires Moves(t, route) && PrintedAs(source, t, n)
    ensures Asked(source, t, route) == [Redirected(t, route, n)] && ChildLimit(source, t, route) == CaptionEnd(t, n)
  {
    DocSite.FoundInText(n, Slice(source, t.span));
    PrintedAsked(source, t, route, n);
    ChildrenInLabel(source, t, route, n);
  }

  lemma {:induction false} AllPrintedNested(source: string, ts: seq<Tree>, route: Router, before: nat, lo: nat, hi: nat)
    requires AllPrinted(source, ts, route, lo, hi) && before <= lo
    ensures AllNested(source, ts, route, before, hi) && AllPlaced(source, ts, route) == AllDestined(source, ts, route)
    ensures AnyFails(source, ts, route).Some? ==> AnyFails(source, ts, route).value.MissingPath?
    decreases ts, 0
  {
    if ts != [] {
      PrintedIsNested(source, ts[0], route, lo, hi);
      AllPrintedNested(source, ts[1..], route, ts[0].span.end, ts[0].span.end, hi);
    }
  }

  /** Rewriting such a tree puts the new URLs in the place of the destinations and changes nothing else. */
  lemma PrintedTreeRewrites(source: string, tree: Tree, route: Router)
    requires PrintedTree(source, tree, route, 0, |source|)
    ensures Fails(source, tree, route).Some? ==> Fails(source, tree, route).value.MissingPath?
    ensures Substitutes(source, Destined(source, tree, route),
                        Spliced(source, SortFromBack(Walked(source, tree, route))))
  {
    PrintedIsNested(source, tree, route, 0, |source|);
    NestedIsSimultaneous(source, tree, route);
  }
}
