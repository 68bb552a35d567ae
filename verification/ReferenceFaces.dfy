/**
 * Compiler-face isolation of `scripts/project-reference-faces.ts`: a worklist over
 * Project References that must not enter the wrong half of a split project.
 */
module ReferenceFaces {
  import opened Wrappers

  /** An absolute path by its segments. */
  type Path = seq<string>

  datatype Face = Host | Client

  /** A reference as written, and the config path it resolves to. */
  datatype Reference = Reference(raw: string, target: Path)

  /** A readable config has the local config it extends, if any, and its references. */
  datatype Config = Unreadable | Config(parent: Option<Path>, references: seq<Reference>)

  /** The existing configs and the projects that declare both face configs. */
  datatype Workspace = Workspace(root: Path, configs: map<Path, Config>, splitRoots: seq<Path>)

  // ---------- projectFace ----------

  function FaceConfig(f: Face): string {
    match f
    case Host => "tsconfig.host.json"
    case Client => "tsconfig.client.json"
  }

  /** The face a config path stands for by itself. */
  function DeclaredFace(w: Workspace, p: Path): Option<Face> {
    if p != [] && p[|p| - 1] == "tsconfig.host.json" then Some(Host)
    else if p != [] && p[|p| - 1] == "tsconfig.client.json" then Some(Client)
    else if p == w.root + ["tsconfig.base.json"] then Some(Host)
    else if p == w.root + ["tsconfig.base.client.json"] then Some(Client)
    else None
  }

  datatype FaceResult = FaceIs(face: Option<Face>) | FaceThrows

  /** `projectFace` at a readable config; `seen` guards against circular `extends`. */
  function ProjectFace(w: Workspace, p: Path, seen: set<Path>): FaceResult
    requires p in w.configs && w.configs[p].Config?
    decreases w.configs.Keys - seen
  {
    if DeclaredFace(w, p).Some? then FaceIs(DeclaredFace(w, p))
    else if p in seen then FaceIs(None)
    else match w.configs[p].parent
      case None => FaceIs(None)
      case Some(q) =>
        if q !in w.configs then FaceIs(None)
        else if w.configs[q].Unreadable? then FaceThrows
        else ProjectFace(w, q, seen + {p})
  }

  predicate Extends(w: Workspace, p: Path, q: Path) {
    && p in w.configs && w.configs[p].Config? && DeclaredFace(w, p).None? && w.configs[p].parent == Some(q)
    && q in w.configs && w.configs[q].Config?
  }

  /** Here the search ends: the config has a face of its own, or what it extends cannot be read. */
  predicate Ends(w: Workspace, p: Path, r: FaceResult) {
    match r
    case FaceIs(face) => face.Some? && DeclaredFace(w, p) == face
    case FaceThrows =>
      && p in w.configs && w.configs[p].Config? && DeclaredFace(w, p).None? && w.configs[p].parent.Some?
      && w.configs[p].parent.value in w.configs && w.configs[w.configs[p].parent.value].Unreadable?
  }

  /** A chain of `extends` through configs without a face of their own, to where the search ends. */
  ghost predicate FaceChain(w: Workspace, c: seq<Path>, r: FaceResult) {
    && c != [] && Ends(w, c[|c| - 1], r)
    && forall i {:trigger c[i]} :: 0 <= i < |c| - 1 ==> Extends(w, c[i], c[i + 1])
  }

  lemma ChainTail(w: Workspace, c: seq<Path>, r: FaceResult)
    requires FaceChain(w, c, r) && |c| > 1
    ensures FaceChain(w, c[1..], r) && Extends(w, c[0], c[1])
  {
  }

  /** A config has at most one such chain. */
  lemma {:induction false} ChainIsUnique(w: Workspace, c: seq<Path>, d: seq<Path>, r: FaceResult, t: FaceResult)
    requires FaceChain(w, c, r) && FaceChain(w, d, t) && c[0] == d[0]
    ensures c == d
    decreases |c|
  {
    if |c| > 1 && |d| > 1 {
      ChainTail(w, c, r);
      ChainTail(w, d, t);
      ChainIsUnique(w, c[1..], d[1..], r, t);
    } else if |c| > 1 {
      ChainTail(w, c, r);
    } else if |d| > 1 {
      ChainTail(w, d, t);
    }
  }

  ghost predicate LongerChain(w: Workspace, s: Path, n: nat) {
    exists c, r :: FaceChain(w, c, r) && c[0] == s && |c| > n
  }

  /** The guard never cuts a chain short: what was seen lies further from its end. */
  lemma {:induction false} ChainGivesFace(w: Workspace, c: seq<Path>, r: FaceResult, seen: set<Path>)
    requires FaceChain(w, c, r) && c[0] in w.configs && w.configs[c[0]].Config?
    requires forall s :: s in seen ==> LongerChain(w, s, |c|)
    ensures ProjectFace(w, c[0], seen) == r
    decreases |c|
  {
    if c[0] in seen {
      var d, t :| FaceChain(w, d, t) && d[0] == c[0] && |d| > |c|;
      ChainIsUnique(w, c, d, r, t);
    }
    if |c| > 1 {
      ChainTail(w, c, r);
      forall s | s in seen + {c[0]} ensures LongerChain(w, s, |c[1..]|) {
        if s in seen {
          var d, t :| FaceChain(w, d, t) && d[0] == s && |d| > |c|;
        }
      }
      ChainGivesFace(w, c[1..], r, seen + {c[0]});
    }
  }

  lemma {:induction false} FaceGivesChain(w: Workspace, p: Path, seen: set<Path>) returns (c: seq<Path>)
    requires p in w.configs && w.configs[p].Config? && ProjectFace(w, p, seen) != FaceIs(None)
    ensures FaceChain(w, c, ProjectFace(w, p, seen)) && c[0] == p
    decreases w.configs.Keys - seen
  {
    if DeclaredFace(w, p).Some? || w.configs[w.configs[p].parent.value].Unreadable? {
      c := [p];
    } else {
      var q := w.configs[p].parent.value;
      var d := FaceGivesChain(w, q, seen + {p});
      c := [p] + d;
      forall i | 0 <= i < |c| - 1 ensures Extends(w, c[i], c[i + 1]) {
        if i > 0 { assert Extends(w, d[i - 1], d[i]); }
      }
    }
  }

  /**
   * Even with circular `extends`, the face is the first one on the chain, and the search
   * throws exactly if it meets a config that cannot be read before; there is no face otherwise.
   */
  lemma FaceExactly(w: Workspace, p: Path, r: FaceResult)
    requires p in w.configs && w.configs[p].Config? && r != FaceIs(None)
    ensures ProjectFace(w, p, {}) == r <==> exists c :: FaceChain(w, c, r) && c[0] == p
  {
    if ProjectFace(w, p, {}) == r {
      var c := FaceGivesChain(w, p, {});
    }
    if c :| FaceChain(w, c, r) && c[0] == p {
      ChainGivesFace(w, c, r, {});
    }
  }

  // ---------- containingSplitRoot ----------

  function PathLength(p: Path): nat {
    if p == [] then 0 else PathLength(p[..|p| - 1]) + 1 + |p[|p| - 1]|
  }

  /** The path lies in the root or is the root. */
  predicate Contains(root: Path, p: Path) {
    root <= p
  }

  /** Longest path first, as the roots are sorted. */
  function InsertRoot(r: Path, sorted: seq<Path>): (s: seq<Path>)
    ensures forall x :: x in s <==> x == r || x in sorted
  {
    if sorted == [] then [r]
    else if PathLength(r) >= PathLength(sorted[0]) then [r] + sorted
    else [sorted[0]] + InsertRoot(r, sorted[1..])
  }

  function SortRoots(roots: seq<Path>): (s: seq<Path>)
    ensures forall x :: x in s <==> x in roots
  {
    if roots == [] then [] else InsertRoot(roots[0], SortRoots(roots[1..]))
  }

  ghost predicate LongestFirst(s: seq<Path>) {
    forall i, j :: 0 <= i < j < |s| ==> PathLength(s[i]) >= PathLength(s[j])
  }

  lemma {:induction false} InsertRootSorted(r: Path, s: seq<Path>)
    requires LongestFirst(s)
    ensures LongestFirst(InsertRoot(r, s))
  {
    if s != [] && PathLength(r) < PathLength(s[0]) {
      InsertRootSorted(r, s[1..]);
      var rest := InsertRoot(r, s[1..]);
      forall j | 0 <= j < |rest| ensures PathLength(s[0]) >= PathLength(rest[j]) {
        assert rest[j] in rest;
      }
    }
  }

  lemma {:induction false} SortRootsSorted(roots: seq<Path>)
    ensures LongestFirst(SortRoots(roots))
  {
    if roots != [] {
      SortRootsSorted(roots[1..]);
      InsertRootSorted(roots[0], SortRoots(roots[1..]));
    }
  }

  function FirstContaining(roots: seq<Path>, target: Path): (r: Option<Path>)
    ensures r.None? ==> forall x :: x in roots ==> !Contains(x, target)
    ensures r.Some? ==> r.value in roots && Contains(r.value, target)
  {
    if roots == [] then None
    else if Contains(roots[0], target) then Some(roots[0])
    else FirstContaining(roots[1..], target)
  }

  function SplitRootOf(w: Workspace, target: Path): Option<Path> {
    FirstContaining(SortRoots(w.splitRoots), target)
  }

  lemma {:induction false} PrefixIsShorter(a: Path, b: Path)
    requires a <= b
    ensures a == b || PathLength(a) < PathLength(b)
  {
    if a != b {
      PrefixIsShorter(a, b[..|b| - 1]);
    }
  }

  lemma {:induction false} FirstIsLongest(roots: seq<Path>, target: Path, x: Path)
    requires LongestFirst(roots) && FirstContaining(roots, target).Some? && x in roots && Contains(x, target)
    ensures PathLength(x) <= PathLength(FirstContaining(roots, target).value)
  {
    var k :| 0 <= k < |roots| && roots[k] == x;
    if !Contains(roots[0], target) {
      assert roots[1..][k - 1] == x;
      FirstIsLongest(roots[1..], target, x);
    }
  }

  /** Of nested split projects the innermost one that contains the target is found. */
  lemma InnermostSplitRoot(w: Workspace, target: Path)
    ensures SplitRootOf(w, target).None? <==> forall x :: x in w.splitRoots ==> !Contains(x, target)
    ensures SplitRootOf(w, target).Some? ==>
              && SplitRootOf(w, target).value in w.splitRoots && Contains(SplitRootOf(w, target).value, target)
              && forall x :: x in w.splitRoots && Contains(x, target) ==> Contains(x, SplitRootOf(w, target).value)
  {
    SortRootsSorted(w.splitRoots);
    var r := SplitRootOf(w, target);
    if r.Some? {
      forall x | x in w.splitRoots && Contains(x, target) ensures Contains(x, r.value) {
        FirstIsLongest(SortRoots(w.splitRoots), target, x);
        if |r.value| < |x| {
          assert r.value <= x;
          PrefixIsShorter(r.value, x);
        }
      }
    }
  }

  // ---------- The edges ----------

  datatype Violation = Violation(config: Path, reference: Reference)

  /** The reference stays out of split projects, or enters the leaf of the config's own face. */
  predicate Compliant(w: Workspace, face: Option<Face>, target: Path) {
    match SplitRootOf(w, target)
    case None => true
    case Some(root) => face.Some? && target == root + [FaceConfig(face.value)]
  }

  /**
   * A reference into a split project is compliant exactly if it leads to the file, directly
   * in that project, that declares the config's own face.
   */
  lemma CompliantExactly(w: Workspace, face: Option<Face>, target: Path)
    requires SplitRootOf(w, target).Some?
    ensures var root := SplitRootOf(w, target).value;
            && (face.None? ==> !Compliant(w, face, target))
            && (face == Some(Host) ==> (Compliant(w, face, target) <==>
                  |target| == |root| + 1 && root <= target && target[|root|] == "tsconfig.host.json"))
            && (face == Some(Client) ==> (Compliant(w, face, target) <==>
                  |target| == |root| + 1 && root <= target && target[|root|] == "tsconfig.client.json"))
    ensures face.Some? && Compliant(w, face, target) ==> DeclaredFace(w, target) == face
  {
    var root := SplitRootOf(w, target).value;
    if face.Some? {
      var leaf := if face.value == Host then "tsconfig.host.json" else "tsconfig.client.json";
      if |target| == |root| + 1 && root <= target && target[|root|] == leaf { assert target == root + [leaf]; }
      assert "tsconfig.host.json"[9] != "tsconfig.client.json"[9];
    }
  }

  /** A face of its own is told by the file name, or by being one of the workspace's two base configs. */
  lemma DeclaredExactly(w: Workspace, p: Path)
    ensures DeclaredFace(w, p) == Some(Host) <==>
            || (p != [] && p[|p| - 1] == "tsconfig.host.json") || p == w.root + ["tsconfig.base.json"]
    ensures DeclaredFace(w, p) == Some(Client) <==>
            || (p != [] && p[|p| - 1] == "tsconfig.client.json") || p == w.root + ["tsconfig.base.client.json"]
  {
    var host, client, base, baseClient := "tsconfig.host.json", "tsconfig.client.json", "tsconfig.base.json",
        "tsconfig.base.client.json";
    assert host[9] == 'h' && client[9] == 'c' && base[9] == 'b' && baseClient[9] == 'b';
    assert |base| != |baseClient|;
  }

  /** The walk begins at the two aggregates of the workspace. */
  lemma AggregatesExactly(w: Workspace, p: Path)
    ensures p in Aggregates(w) <==> p == w.root + ["tsconfig.host.json"] || p == w.root + ["tsconfig.client.json"]
  {
  }

  function FaceOf(w: Workspace, p: Path): Option<Face>
    requires p in w.configs && w.configs[p].Config?
  {
    match ProjectFace(w, p, {})
    case FaceIs(f) => f
    case FaceThrows => None
  }

  /** Reading the config, or one it extends, throws. */
  predicate Throws(w: Workspace, p: Path) {
    p in w.configs && (w.configs[p].Unreadable? || ProjectFace(w, p, {}).FaceThrows?)
  }

  predicate Readable(w: Workspace, p: Path) {
    p in w.configs && !Throws(w, p)
  }

  /** A config throws exactly if it, or one its `extends` come to, cannot be read; else its face is the chain's. */
  lemma ReadExactly(w: Workspace, p: Path, face: Face)
    requires p in w.configs
    ensures Throws(w, p) <==> w.configs[p].Unreadable? || exists c :: FaceChain(w, c, FaceThrows) && c[0] == p
    ensures Readable(w, p) ==>
              (FaceOf(w, p) == Some(face) <==> exists c :: FaceChain(w, c, FaceIs(Some(face))) && c[0] == p)
  {
    if w.configs[p].Config? {
      FaceExactly(w, p, FaceThrows);
      FaceExactly(w, p, FaceIs(Some(face)));
    } else if c :| FaceChain(w, c, FaceThrows) && c[0] == p {
      assert Ends(w, c[|c| - 1], FaceThrows);
    }
  }

  /** The violations of a config: one for each offending reference entry, in order. */
  function ViolationsOf(w: Workspace, p: Path, face: Option<Face>, refs: seq<Reference>): seq<Violation> {
    if refs == [] then []
    else
      var init := ViolationsOf(w, p, face, refs[..|refs| - 1]);
      var last := refs[|refs| - 1];
      if Compliant(w, face, last.target) then init else init + [Violation(p, last)]
  }

  function OwnViolations(w: Workspace, p: Path): seq<Violation> {
    if Readable(w, p) then ViolationsOf(w, p, FaceOf(w, p), w.configs[p].references) else []
  }

  /** A compliant reference of a readable config. */
  predicate Follows(w: Workspace, p: Path, q: Path) {
    Readable(w, p) && exists r | r in w.configs[p].references :: r.target == q && Compliant(w, FaceOf(w, p), q)
  }

  function Aggregates(w: Workspace): seq<Path> {
    [w.root + ["tsconfig.host.json"], w.root + ["tsconfig.client.json"]]
  }

  ghost predicate Trail(w: Workspace, c: seq<Path>) {
    && c != [] && c[0] in Aggregates(w)
    && forall i {:trigger c[i]} :: 0 <= i < |c| - 1 ==> Follows(w, c[i], c[i + 1])
  }

  /** Reached from an aggregate through compliant references only. */
  ghost predicate Reached(w: Workspace, p: Path) {
    exists c :: Trail(w, c) && c[|c| - 1] == p
  }

  lemma ReachedStep(w: Workspace, p: Path, q: Path)
    requires Reached(w, p) && Follows(w, p, q)
    ensures Reached(w, q)
  {
    var c :| Trail(w, c) && c[|c| - 1] == p;
    var d := c + [q];
    forall i | 0 <= i < |d| - 1 ensures Follows(w, d[i], d[i + 1]) {
      if i < |c| - 1 { assert Follows(w, c[i], c[i + 1]); }
    }
    assert Trail(w, d);
  }

  lemma AggregateReached(w: Workspace, p: Path)
    requires p in Aggregates(w)
    ensures Reached(w, p)
  {
    assert Trail(w, [p]);
  }

  lemma {:induction false} ClosedSetHoldsReached(w: Workspace, s: set<Path>, c: seq<Path>)
    requires forall p :: p in Aggregates(w) && p in w.configs ==> p in s
    requires forall p, q :: p in s && Follows(w, p, q) && q in w.configs ==> q in s
    requires Trail(w, c) && c[|c| - 1] in w.configs
    ensures c[|c| - 1] in s
    decreases |c|
  {
    if |c| > 1 {
      var d := c[..|c| - 1];
      forall i | 0 <= i < |d| - 1 ensures Follows(w, d[i], d[i + 1]) {
        assert Follows(w, c[i], c[i + 1]);
      }
      assert Follows(w, c[|c| - 2], c[|c| - 1]);
      ClosedSetHoldsReached(w, s, d);
    }
  }

  // ---------- The worklist ----------

  /** The violations of the visited configs, in visiting order. */
  function AllViolations(w: Workspace, order: seq<Path>): seq<Violation> {
    if order == [] then [] else AllViolations(w, order[..|order| - 1]) + OwnViolations(w, order[|order| - 1])
  }

  /** The reference loop of one config. */
  method FollowReferences(w: Workspace, p: Path, pending0: seq<Path>, violations0: seq<Violation>)
    returns (pending: seq<Path>, violations: seq<Violation>)
    requires Readable(w, p)
    ensures violations == violations0 + OwnViolations(w, p)
    ensures forall q :: q in pending <==> q in pending0 || Follows(w, p, q)
  {
    var refs, face := w.configs[p].references, FaceOf(w, p);
    pending, violations := pending0, violations0;
    for i := 0 to |refs|
      invariant violations == violations0 + ViolationsOf(w, p, face, refs[..i])
      invariant Pushed(w, face, refs, i, pending0, pending)
    {
      PushedNext(w, face, refs, i, pending0, pending);
      OneMoreViolation(w, p, face, refs, i);
      var target := refs[i].target;
      var splitRoot := SplitRootOf(w, target);
      if splitRoot.Some? {
        if face.None? || target != splitRoot.value + [FaceConfig(face.value)] {
          violations := violations + [Violation(p, refs[i])];
          continue;
        }
      }
      pending := pending + [target];
    }
    assert refs[..|refs|] == refs;
    forall q ensures q in pending <==> q in pending0 || Follows(w, p, q) { FollowsByIndex(w, p, q); }
  }

  /** One of the first `n` references leads to `q` and is compliant. */
  ghost predicate FollowedBefore(w: Workspace, face: Option<Face>, refs: seq<Reference>, n: nat, q: Path)
    requires n <= |refs|
  {
    Compliant(w, face, q) && exists k :: 0 <= k < n && refs[k].target == q
  }

  lemma OneMoreViolation(w: Workspace, p: Path, face: Option<Face>, refs: seq<Reference>, i: nat)
    requires i < |refs|
    ensures ViolationsOf(w, p, face, refs[..i + 1])
            == ViolationsOf(w, p, face, refs[..i])
               + if Compliant(w, face, refs[i].target) then [] else [Violation(p, refs[i])]
  {
    assert refs[..i + 1][..i] == refs[..i];
  }

  /** What is pending beyond what was are the compliant targets of the first `n` references. */
  ghost predicate Pushed(w: Workspace, face: Option<Face>, refs: seq<Reference>, n: nat, pending0: seq<Path>,
                         pending: seq<Path>)
    requires n <= |refs|
  {
    forall q :: q in pending <==> q in pending0 || FollowedBefore(w, face, refs, n, q)
  }

  lemma PushedNext(w: Workspace, face: Option<Face>, refs: seq<Reference>, i: nat, pending0: seq<Path>,
                   pending: seq<Path>)
    requires i < |refs| && Pushed(w, face, refs, i, pending0, pending)
    ensures var target := refs[i].target;
            Pushed(w, face, refs, i + 1, pending0, if Compliant(w, face, target) then pending + [target] else pending)
  {
    FollowOne(w, face, refs, i);
  }

  lemma FollowOne(w: Workspace, face: Option<Face>, refs: seq<Reference>, i: nat)
    requires i < |refs|
    ensures forall q :: FollowedBefore(w, face, refs, i + 1, q) <==>
              FollowedBefore(w, face, refs, i, q) || (refs[i].target == q && Compliant(w, face, q))
  {
  }

  lemma FollowsByIndex(w: Workspace, p: Path, q: Path)
    requires Readable(w, p)
    ensures var refs := w.configs[p].references;
            Follows(w, p, q) <==> FollowedBefore(w, FaceOf(w, p), refs, |refs|, q)
  {
  }

  /** The configs visited so far, in order. */
  ghost predicate Visits(w: Workspace, visited: set<Path>, order: seq<Path>) {
    && (forall p :: p in visited <==> p in order)
    && (forall i, j :: 0 <= i < j < |order| ==> order[i] != order[j])
    && (forall p :: p in visited ==> Readable(w, p) && Reached(w, p))
  }

  /** What is reached from them is visited or on the stack. */
  ghost predicate Frontier(w: Workspace, visited: set<Path>, pending: seq<Path>) {
    && (forall p :: p in pending ==> Reached(w, p))
    && (forall p :: p in Aggregates(w) && p in w.configs ==> p in visited || p in pending)
    && (forall p, q :: p in visited && Follows(w, p, q) && q in w.configs ==> q in visited || q in pending)
  }

  ghost predicate Progress(w: Workspace, visited: set<Path>, order: seq<Path>, pending: seq<Path>) {
    Visits(w, visited, order) && Frontier(w, visited, pending)
  }

  lemma SkipStep(w: Workspace, visited: set<Path>, order: seq<Path>, rest: seq<Path>, p: Path)
    requires Progress(w, visited, order, rest + [p])
    requires p in visited || p !in w.configs
    ensures Progress(w, visited, order, rest)
  {
  }

  lemma VisitKeepsFrontier(w: Workspace, visited: set<Path>, p: Path, rest: seq<Path>, next: seq<Path>)
    requires Frontier(w, visited, rest + [p])
    requires forall q :: q in next <==> q in rest || Follows(w, p, q)
    ensures Frontier(w, visited + {p}, next)
  {
    var pending := rest + [p];
    assert pending[|rest|] == p;
    forall q | q in next ensures Reached(w, q) {
      if q !in rest { ReachedStep(w, p, q); }
    }
  }

  lemma VisitKeepsVisits(w: Workspace, visited: set<Path>, order: seq<Path>, p: Path)
    requires Visits(w, visited, order) && p !in visited && Readable(w, p) && Reached(w, p)
    ensures Visits(w, visited + {p}, order + [p])
  {
  }

  lemma VisitStep(w: Workspace, visited: set<Path>, order: seq<Path>, rest: seq<Path>, p: Path, next: seq<Path>)
    requires Progress(w, visited, order, rest + [p])
    requires p !in visited && Readable(w, p)
    requires forall q :: q in next <==> q in rest || Follows(w, p, q)
    ensures Progress(w, visited + {p}, order + [p], next)
  {
    assert (rest + [p])[|rest|] == p;
    VisitKeepsFrontier(w, visited, p, rest, next);
    VisitKeepsVisits(w, visited, order, p);
  }

  lemma LastSplit<T>(s: seq<T>)
    requires s != []
    ensures s == s[..|s| - 1] + [s[|s| - 1]]
  {
  }

  /** Popping a config that was visited already, or does not exist. */
  lemma SkipKeepsProgress(w: Workspace, visited: set<Path>, order: seq<Path>, pending: seq<Path>)
    requires Progress(w, visited, order, pending) && pending != []
    requires pending[|pending| - 1] in visited || pending[|pending| - 1] !in w.configs
    ensures Progress(w, visited, order, pending[..|pending| - 1])
  {
  }

  /** Popping a new config and following its compliant references. */
  lemma VisitKeepsProgress(w: Workspace, visited: set<Path>, order: seq<Path>, pending: seq<Path>, next: seq<Path>)
    requires Progress(w, visited, order, pending) && pending != []
    requires pending[|pending| - 1] !in visited && Readable(w, pending[|pending| - 1])
    requires forall q :: q in next <==> q in pending[..|pending| - 1] || Follows(w, pending[|pending| - 1], q)
    ensures Progress(w, visited + {pending[|pending| - 1]}, order + [pending[|pending| - 1]], next)
  {
    var p, rest := pending[|pending| - 1], pending[..|pending| - 1];
    LastSplit(pending);
    VisitStep(w, visited, order, rest, p, next);
  }

  /** With the stack empty, exactly the reached configs that exist have been visited. */
  lemma DrainedIsExact(w: Workspace, visited: set<Path>, order: seq<Path>, p: Path)
    requires Progress(w, visited, order, [])
    ensures p in visited <==> Reached(w, p) && p in w.configs
  {
    if Reached(w, p) && p in w.configs {
      var c :| Trail(w, c) && c[|c| - 1] == p;
      ClosedSetHoldsReached(w, visited, c);
    }
  }

  lemma AllDrained(w: Workspace, visited: set<Path>, order: seq<Path>)
    requires Progress(w, visited, order, [])
    ensures forall p :: p in order <==> Reached(w, p) && p in w.configs
    ensures forall p :: Reached(w, p) ==> !Throws(w, p)
  {
    forall p ensures p in order <==> Reached(w, p) && p in w.configs { DrainedIsExact(w, visited, order, p); }
  }

  /**
   * `collectProjectReferenceFaceViolations`, before its final sort.  It ends on
   * circular references and circular `extends`, visits each existing config that
   * compliant references reach exactly once, and reports that config's offending
   * reference entries, one each.  It throws only on a config it cannot read.
   */
  method CollectViolations(w: Workspace) returns (r: Option<seq<Violation>>, ghost order: seq<Path>)
    ensures r.None? ==> exists p :: Reached(w, p) && Throws(w, p)
    ensures r.Some? ==> r.value == AllViolations(w, order)
    ensures r.Some? ==> forall i, j :: 0 <= i < j < |order| ==> order[i] != order[j]
    ensures r.Some? ==> forall p :: p in order <==> Reached(w, p) && p in w.configs
    ensures r.Some? ==> forall p :: Reached(w, p) ==> !Throws(w, p)
  {
    var pending := Aggregates(w);
    var visited: set<Path> := {};
    var violations: seq<Violation> := [];
    order := [];
    forall p | p in pending ensures Reached(w, p) { AggregateReached(w, p); }
    while |pending| > 0
      invariant Progress(w, visited, order, pending)
      invariant violations == AllViolations(w, order)
      decreases w.configs.Keys - visited, |pending|
    {
      var p := pending[|pending| - 1];
      assert p in pending;
      ghost var before := pending;
      pending := pending[..|pending| - 1];
      if p in visited || p !in w.configs {
        SkipKeepsProgress(w, visited, order, before);
        continue;
      }
      if Throws(w, p) {
        return None, order;
      }
      pending, violations := FollowReferences(w, p, pending, violations);
      VisitKeepsProgress(w, visited, order, before, pending);
      assert (order + [p])[..|order|] == order;
      assert p in w.configs.Keys - visited;
      visited := visited + {p};
      order := order + [p];
    }
    assert pending == [];
    AllDrained(w, visited, order);
    return Some(violations), order;
  }

  /** The reports of a config are exactly its non-compliant reference entries, once per entry. */
  lemma {:induction false} OneViolationPerEntry(w: Workspace, p: Path, face: Option<Face>, refs: seq<Reference>,
                                                v: Violation)
    ensures multiset(ViolationsOf(w, p, face, refs))[v]
            == if v.config == p && !Compliant(w, face, v.reference.target) then multiset(refs)[v.reference] else 0
  {
    if refs != [] {
      var init, last := refs[..|refs| - 1], refs[|refs| - 1];
      OneViolationPerEntry(w, p, face, init, v);
      assert refs == init + [last];
    }
  }
}
