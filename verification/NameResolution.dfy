/** `resolveTypeName` of `scripts/gen-config-catalog.ts`: relative imports followed from file to file. */
module NameResolution {
  import opened Wrappers

  /** Where an import takes a name from. */
  datatype Import =
    | FromPackage(specifier: string, imported: string)
    | FromFile(target: string, imported: string, explicitTs: bool)

  /** A parsed file: the type names each declaration mentions, and the import map. */
  datatype File = File(decls: map<string, seq<string>>, imports: map<string, Import>)

  type World = map<string, File>

  /** What the call returns, throws when a file is missing, or never comes to. */
  datatype Resolution =
    | DeclaredIn(file: string)
    | Imported(specifier: string, imported: string)
    | Unresolved
    | NoFile(file: string)
    | NoReturn

  /** The call with a bounded stack; running out of it is no answer. */
  function ResolveFrom(w: World, file: string, name: string, stack: nat): (r: Option<Resolution>)
    ensures r.Some? && r.value.DeclaredIn? ==> r.value.file in w && name in w[r.value.file].decls
    ensures r.Some? ==> !r.value.NoReturn?
    decreases stack
  {
    if stack == 0 then None
    else if file !in w then Some(NoFile(file))
    else if name in w[file].decls then Some(DeclaredIn(file))
    else if name !in w[file].imports then Some(Unresolved)
    else match w[file].imports[name]
      case FromPackage(specifier, imported) => Some(Imported(specifier, imported))
      case FromFile(target, imported, explicitTs) =>
        if !explicitTs || imported != name then Some(Unresolved) else ResolveFrom(w, target, name, stack - 1)
  }

  /** The file does not declare the name and imports it, under the same name, from a `.ts` file. */
  predicate Imports(w: World, name: string, file: string, target: string) {
    && file in w && name !in w[file].decls
    && name in w[file].imports && w[file].imports[name] == FromFile(target, name, true)
  }

  /** The file a name is looked for next. */
  function Next(w: World, name: string, file: string): (r: Option<string>)
    ensures if r.Some? then Imports(w, name, file, r.value) else forall target :: !Imports(w, name, file, target)
  {
    if file !in w || name in w[file].decls || name !in w[file].imports then None
    else match w[file].imports[name]
      case FromPackage(_, _) => None
      case FromFile(target, imported, explicitTs) => if explicitTs && imported == name then Some(target) else None
  }

  /** The files the import chain of a name comes through. */
  ghost predicate ImportChain(w: World, name: string, c: seq<string>) {
    c != [] && forall i, j :: 0 <= i < j < |c| && j == i + 1 ==> Imports(w, name, c[i], c[j])
  }

  /** The import chain of the name comes back to a file. */
  ghost predicate Circles(w: World, name: string, file: string) {
    exists c, k: nat :: CirclesAt(w, name, file, c, k)
  }

  ghost predicate CirclesAt(w: World, name: string, file: string, c: seq<string>, k: nat) {
    ImportChain(w, name, c) && c[0] == file && k < |c| - 1 && c[k] == c[|c| - 1]
  }

  lemma ChainPart(w: World, name: string, c: seq<string>, from: nat, to: nat)
    requires ImportChain(w, name, c) && from < to <= |c|
    ensures ImportChain(w, name, c[from..to])
    ensures c[from..to][0] == c[from] && c[from..to][to - from - 1] == c[to - 1]
  {
    var part := c[from..to];
    forall i, j | 0 <= i < j < |part| && j == i + 1 ensures Imports(w, name, part[i], part[j]) {
      assert part[i] == c[from + i] && part[j] == c[from + j];
    }
  }

  lemma ChainSnoc(w: World, name: string, c: seq<string>, target: string)
    requires ImportChain(w, name, c) && Imports(w, name, c[|c| - 1], target)
    ensures ImportChain(w, name, c + [target])
  {
    var d := c + [target];
    forall i, j | 0 <= i < j < |d| && j == i + 1 ensures Imports(w, name, d[i], d[j]) {
      if j < |c| { assert d[i] == c[i] && d[j] == c[j]; }
    }
  }

  /** Where there is a next file the call asks there, with one place less on the stack. */
  lemma OneCallOn(w: World, name: string, file: string, target: string, stack: nat)
    requires Imports(w, name, file, target) && stack > 0
    ensures ResolveFrom(w, file, name, stack) == ResolveFrom(w, target, name, stack - 1)
  {
  }

  lemma NoCallOn(w: World, name: string, file: string, stack: nat)
    requires Next(w, name, file).None? && stack > 0
    ensures ResolveFrom(w, file, name, stack).Some?
  {
  }

  /** Along an import chain the rest of the stack must answer. */
  lemma {:induction false} AlongChain(w: World, name: string, c: seq<string>, stack: nat)
    requires ImportChain(w, name, c) && ResolveFrom(w, c[0], name, stack).Some?
    ensures stack >= |c| && ResolveFrom(w, c[|c| - 1], name, stack + 1 - |c|).Some?
    decreases |c|
  {
    if |c| > 1 {
      var rest := c[1..|c|];
      ChainPart(w, name, c, 1, |c|);
      assert Imports(w, name, c[0], rest[0]);
      OneCallOn(w, name, c[0], rest[0], stack);
      AlongChain(w, name, rest, stack - 1);
    }
  }

  /** A circle uses up every stack. */
  lemma {:induction false} CircleNeverAnswers(w: World, name: string, c: seq<string>, stack: nat)
    requires ImportChain(w, name, c) && |c| > 1 && c[0] == c[|c| - 1]
    ensures ResolveFrom(w, c[0], name, stack).None?
    decreases stack
  {
    if ResolveFrom(w, c[0], name, stack).Some? {
      AlongChain(w, name, c, stack);
      CircleNeverAnswers(w, name, c, stack + 1 - |c|);
    }
  }

  lemma CirclingNeverAnswers(w: World, name: string, file: string, c: seq<string>, k: nat, stack: nat)
    requires CirclesAt(w, name, file, c, k)
    ensures ResolveFrom(w, file, name, stack).None?
  {
    var first, circle := InAndAround(w, name, file, c, k);
    if ResolveFrom(w, file, name, stack).Some? {
      AlongChain(w, name, first, stack);
      CircleNeverAnswers(w, name, circle, stack + 1 - |first|);
    }
  }

  /** The way into a circle and the circle itself. */
  lemma InAndAround(w: World, name: string, file: string, c: seq<string>, k: nat)
    returns (first: seq<string>, circle: seq<string>)
    requires CirclesAt(w, name, file, c, k)
    ensures ImportChain(w, name, circle) && |circle| > 1 && circle[0] == circle[|circle| - 1]
    ensures ImportChain(w, name, first) && first[0] == file && first[|first| - 1] == circle[0]
  {
    first, circle := c[0..k + 1], c[k..|c|];
    ChainPart(w, name, c, 0, k + 1);
    ChainPart(w, name, c, k, |c|);
  }

  /** From the end of a chain, a stack for the files not on it answers, or the chain circles. */
  lemma {:induction false} AnswersOrCircles(w: World, name: string, c: seq<string>, left: set<string>)
    requires ImportChain(w, name, c) && (forall f :: f in w ==> f in left || f in c[..|c| - 1])
    ensures ResolveFrom(w, c[|c| - 1], name, |left| + 1).Some? || Circles(w, name, c[0])
    decreases |left|
  {
    var file := c[|c| - 1];
    if file in c[..|c| - 1] {
      var k: nat :| k < |c| - 1 && c[..|c| - 1][k] == file;
      assert CirclesAt(w, name, c[0], c, k);
    } else if Next(w, name, file).Some? {
      var target := Next(w, name, file).value;
      var d, fewer := c + [target], left - {file};
      ChainSnoc(w, name, c, target);
      OneFewer(w, c, left);
      AnswersOrCircles(w, name, d, fewer);
      assert d[0] == c[0] && d[|d| - 1] == target;
      OneCallOn(w, name, file, target, |left| + 1);
    } else {
      NoCallOn(w, name, file, |left| + 1);
    }
  }

  lemma OneFewer(w: World, c: seq<string>, left: set<string>)
    requires c != [] && c[|c| - 1] in w && c[|c| - 1] !in c[..|c| - 1]
    requires forall f :: f in w ==> f in left || f in c[..|c| - 1]
    ensures |left - {c[|c| - 1]}| == |left| - 1
    ensures forall f :: f in w ==> f in left - {c[|c| - 1]} || f in c
  {
    var file := c[|c| - 1];
    assert c == c[..|c| - 1] + [file];
  }

  /** The call returns or throws, given stack enough, exactly when its import chain does not come back to a file. */
  lemma AnswersExactly(w: World, name: string, file: string)
    ensures (exists stack: nat :: ResolveFrom(w, file, name, stack).Some?) <==> !Circles(w, name, file)
    ensures ResolveFrom(w, file, name, |w.Keys| + 1).Some? <==> !Circles(w, name, file)
  {
    if c, k: nat :| CirclesAt(w, name, file, c, k) {
      forall stack: nat ensures ResolveFrom(w, file, name, stack).None? {
        CirclingNeverAnswers(w, name, file, c, k, stack);
      }
    } else {
      AnswersOrCircles(w, name, [file], w.Keys);
    }
  }

  /** More stack gives no other answer. */
  lemma {:induction false} SameAnswer(w: World, name: string, file: string, stack: nat, stack': nat)
    requires stack <= stack' && ResolveFrom(w, file, name, stack).Some?
    ensures ResolveFrom(w, file, name, stack') == ResolveFrom(w, file, name, stack)
    decreases stack
  {
    var next := Next(w, name, file);
    if next.Some? { SameAnswer(w, name, next.value, stack - 1, stack' - 1); }
  }

  /** A name as mentioned in a file. */
  datatype Item = Item(name: string, file: string)

  /** The answer of an unbounded call; a stack for every file once is as good as any. */
  function Resolve(w: World, i: Item): (r: Resolution)
    ensures r.DeclaredIn? ==> r.file in w && i.name in w[r.file].decls
  {
    match ResolveFrom(w, i.file, i.name, |w.Keys| + 1)
    case Some(r) => r
    case None => NoReturn
  }

  /** It is what any stack answers, and there is none exactly for a circle of imports. */
  lemma ResolveExactly(w: World, i: Item)
    ensures Resolve(w, i).NoReturn? <==> Circles(w, i.name, i.file)
    ensures forall stack: nat :: ResolveFrom(w, i.file, i.name, stack).Some? ==>
              ResolveFrom(w, i.file, i.name, stack) == Some(Resolve(w, i))
  {
    AnswersExactly(w, i.name, i.file);
    forall stack: nat | ResolveFrom(w, i.file, i.name, stack).Some?
      ensures ResolveFrom(w, i.file, i.name, stack) == Some(Resolve(w, i))
    {
      var enough := |w.Keys| + 1;
      if c, k: nat :| CirclesAt(w, i.name, i.file, c, k) { CirclingNeverAnswers(w, i.name, i.file, c, k, stack); }
      if stack <= enough {
        SameAnswer(w, i.name, i.file, stack, enough);
      } else {
        SameAnswer(w, i.name, i.file, enough, stack);
      }
    }
  }

  // ---------- What the answer is ----------

  /** What the last file of an import chain says of the name. */
  predicate Says(w: World, name: string, file: string, r: Resolution) {
    match r
    case NoFile(f) => f == file && file !in w
    case DeclaredIn(f) => f == file && file in w && name in w[file].decls
    case Imported(specifier, imported) =>
      && file in w && name !in w[file].decls
      && name in w[file].imports && w[file].imports[name] == FromPackage(specifier, imported)
    case Unresolved =>
      && file in w && name !in w[file].decls
      && (name in w[file].imports ==>
            && w[file].imports[name].FromFile?
            && (w[file].imports[name].imported != name || !w[file].imports[name].explicitTs))
    case NoReturn => false
  }

  ghost predicate SaysAlong(w: World, i: Item, c: seq<string>, r: Resolution) {
    ImportChain(w, i.name, c) && c[0] == i.file && Says(w, i.name, c[|c| - 1], r)
  }

  lemma {:induction false} AnswerIsSaid(w: World, name: string, file: string, stack: nat) returns (c: seq<string>)
    requires ResolveFrom(w, file, name, stack).Some?
    ensures SaysAlong(w, Item(name, file), c, ResolveFrom(w, file, name, stack).value)
    decreases stack
  {
    var next := Next(w, name, file);
    if next.Some? {
      var rest := AnswerIsSaid(w, name, next.value, stack - 1);
      c := [file] + rest;
      forall i, j | 0 <= i < j < |c| && j == i + 1 ensures Imports(w, name, c[i], c[j]) {
        if i > 0 { assert Imports(w, name, rest[i - 1], rest[j - 1]); }
      }
      assert c[|c| - 1] == rest[|rest| - 1];
    } else {
      c := [file];
    }
  }

  lemma {:induction false} SaidIsAnswer(w: World, i: Item, c: seq<string>, r: Resolution)
    requires SaysAlong(w, i, c, r)
    ensures ResolveFrom(w, i.file, i.name, |c|) == Some(r)
    decreases |c|
  {
    if |c| > 1 {
      var rest := c[1..|c|];
      ChainPart(w, i.name, c, 1, |c|);
      assert Imports(w, i.name, c[0], rest[0]);
      OneCallOn(w, i.name, c[0], rest[0], |c|);
      SaidIsAnswer(w, Item(i.name, rest[0]), rest, r);
    }
  }

  /**
   * The answer, read off the files' own maps: what the file says to which the import
   * chain leads; a declaration, a package import, nothing, or that it is not there.
   */
  lemma ResolvesAsSaid(w: World, i: Item, r: Resolution)
    requires !r.NoReturn?
    ensures Resolve(w, i) == r <==> exists c :: SaysAlong(w, i, c, r)
  {
    ResolveExactly(w, i);
    if Resolve(w, i) == r {
      var c := AnswerIsSaid(w, i.name, i.file, |w.Keys| + 1);
    }
    if c :| SaysAlong(w, i, c, r) { SaidIsAnswer(w, i, c, r); }
  }

  /** Two files that each import the name from the other. */
  const TWO_FILES: World := map[
    "a.ts" := File(map[], map["T" := FromFile("b.ts", "T", true)]),
    "b.ts" := File(map[], map["T" := FromFile("a.ts", "T", true)])]

  lemma CircularImportsDiverge(stack: nat)
    ensures ResolveFrom(TWO_FILES, "a.ts", "T", stack) == None
  {
    var c := ["a.ts", "b.ts", "a.ts"];
    assert c[1] == "b.ts" && c[2] == "a.ts" && c[0] == c[2];
    forall i, j | 0 <= i < j < |c| && j == i + 1 ensures Imports(TWO_FILES, "T", c[i], c[j]) {
      if i == 0 { assert c[j] == c[1]; } else { assert i == 1 && c[j] == c[2]; }
    }
    CircleNeverAnswers(TWO_FILES, "T", c, stack);
  }
}
