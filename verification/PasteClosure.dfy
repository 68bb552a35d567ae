/**
 * The paste walk of `scripts/gen-config-catalog.ts`: the transitive closure of the
 * type names a config declaration mentions, rendered into one fence in which a bare
 * name can mean one thing only.
 */
module PasteClosure {
  import opened Wrappers
  import opened NameResolution

  /** What the walk is asked for. */
  datatype Query = Query(world: World, root: Item, globals: set<string>)

  /** The mention resolves, or is a violation; otherwise the walk throws, or never returns. */
  predicate Returns(q: Query, i: Item) {
    !Resolve(q.world, i).NoReturn? && !Resolve(q.world, i).NoFile?
  }

  /** Pasting what `a` resolves to makes `b` a name of the fence. */
  predicate LeadsTo(q: Query, a: Item, b: Item) {
    var r := Resolve(q.world, a);
    r.DeclaredIn? && b.file == r.file && b.name in q.world[r.file].decls[a.name] && b.name !in q.globals
  }

  ghost predicate Chain(q: Query, c: seq<Item>) {
    && c != [] && c[0] == q.root
    && forall k {:trigger c[k]} :: 0 <= k < |c| - 1 ==> LeadsTo(q, c[k], c[k + 1])
  }

  /** The mentions of the fence: everything the root leads to. */
  ghost predicate Reachable(q: Query, i: Item) {
    exists c :: Chain(q, c) && c[|c| - 1] == i
  }

  lemma RootReachable(q: Query)
    ensures Reachable(q, q.root)
  {
    assert Chain(q, [q.root]);
  }

  lemma ReachableStep(q: Query, a: Item, b: Item)
    requires Reachable(q, a) && LeadsTo(q, a, b)
    ensures Reachable(q, b)
  {
    var c :| Chain(q, c) && c[|c| - 1] == a;
    var d := c + [b];
    forall k | 0 <= k < |d| - 1 ensures LeadsTo(q, d[k], d[k + 1]) {
      if k < |c| - 1 { assert LeadsTo(q, c[k], c[k + 1]); }
    }
    assert Chain(q, d);
  }

  /** A set with the root that mentions cannot leave holds every reachable mention. */
  lemma {:induction false} ClosedSetHoldsReachable(q: Query, s: set<Item>, c: seq<Item>)
    requires q.root in s && forall a, b :: a in s && LeadsTo(q, a, b) ==> b in s
    requires Chain(q, c)
    ensures c[|c| - 1] in s
    decreases |c|
  {
    if |c| > 1 {
      var d := c[..|c| - 1];
      forall k | 0 <= k < |d| - 1 ensures LeadsTo(q, d[k], d[k + 1]) {
        assert LeadsTo(q, c[k], c[k + 1]);
      }
      ClosedSetHoldsReachable(q, s, d);
      assert LeadsTo(q, c[|c| - 2], c[|c| - 1]);
    }
  }

  // ---------- The walk ----------

  datatype Ref = Ref(specifier: string, imported: string)

  datatype Violation =
    | NotResolved(item: Item)
    | RootIsImported(item: Item)
    | DeclaredAndImported(name: string)
    | TwoImports(name: string)
    | TwoDeclarations(name: string)

  /** A pasted declaration is identified by its name and file. */
  datatype Walk = Walk(
    pasted: map<string, string>,
    pastes: seq<Item>,
    refs: map<string, Ref>,
    violations: seq<Violation>)

  /** One resolved queue item: record it, or record why it cannot be. */
  function Visit(q: Query, s: Walk, i: Item): Walk {
    match Resolve(q.world, i)
    case NoReturn => s
    case NoFile(_) => s
    case Unresolved => Violate(s, NotResolved(i))
    case Imported(specifier, imported) =>
      if i.name == q.root.name then Violate(s, RootIsImported(i))
      else if i.name in s.pasted then Violate(s, DeclaredAndImported(i.name))
      else if i.name in s.refs && s.refs[i.name] != Ref(specifier, imported) then Violate(s, TwoImports(i.name))
      else s.(refs := s.refs[i.name := Ref(specifier, imported)])
    case DeclaredIn(file) =>
      if i.name in s.pasted && s.pasted[i.name] == file then s
      else if i.name in s.pasted then Violate(s, TwoDeclarations(i.name))
      else if i.name in s.refs then Violate(s, DeclaredAndImported(i.name))
      else s.(pasted := s.pasted[i.name := file], pastes := s.pastes + [Item(i.name, file)])
  }

  function Violate(s: Walk, v: Violation): Walk {
    s.(violations := s.violations + [v])
  }

  /** The names a freshly pasted declaration queues. */
  function Mentions(names: seq<string>, globals: set<string>, file: string): (r: seq<Item>)
    ensures forall b :: b in r <==> b.file == file && b.name in names && b.name !in globals
  {
    if names == [] then []
    else (if names[0] in globals then [] else [Item(names[0], file)]) + Mentions(names[1..], globals, file)
  }

  /** They are queued in the order in which they are mentioned. */
  lemma {:induction false} MentionsInOrder(names: seq<string>, n: string, globals: set<string>, file: string)
    ensures Mentions(names + [n], globals, file)
            == Mentions(names, globals, file) + if n in globals then [] else [Item(n, file)]
  {
    if names != [] {
      MentionsInOrder(names[1..], n, globals, file);
      assert (names + [n])[1..] == names[1..] + [n];
    }
  }

  predicate Pastes(q: Query, s: Walk, i: Item) {
    Resolve(q.world, i).DeclaredIn? && i.name !in s.pasted && i.name !in s.refs
  }

  // ---------- What the fence means ----------

  /** The walk recorded what the mention resolves to. */
  predicate Denotes(q: Query, s: Walk, i: Item) {
    match Resolve(q.world, i)
    case DeclaredIn(file) => i.name in s.pasted && s.pasted[i.name] == file && i.name !in s.refs
    case Imported(specifier, imported) => i.name in s.refs && s.refs[i.name] == Ref(specifier, imported)
        && i.name !in s.pasted
    case _ => false
  }

  /** Every mention resolves, the root to a declaration, and like names resolve alike. */
  ghost predicate Unambiguous(q: Query) {
    && Resolve(q.world, q.root).DeclaredIn?
    && (forall i :: Reachable(q, i) ==> Resolve(q.world, i).DeclaredIn? || Resolve(q.world, i).Imported?)
    && (forall i, j :: Reachable(q, i) && Reachable(q, j) && i.name == j.name ==>
          Resolve(q.world, i) == Resolve(q.world, j))
  }

  /** A reachable mention that put the name where it is. */
  ghost predicate Witnessed(q: Query, name: string, r: Resolution) {
    exists f :: Reachable(q, Item(name, f)) && Resolve(q.world, Item(name, f)) == r
  }

  /** The recorded meanings, each backed by a mention. */
  ghost predicate Backed(q: Query, s: Walk) {
    && (forall n :: n in s.pasted ==> Witnessed(q, n, DeclaredIn(s.pasted[n])) && n !in s.refs)
    && (forall n :: n in s.refs ==> Witnessed(q, n, Imported(s.refs[n].specifier, s.refs[n].imported)))
  }

  ghost predicate RecordsOk(q: Query, s: Walk) {
    Backed(q, s) && (s.violations != [] ==> !Unambiguous(q))
  }

  /** The pastes are the recorded declarations, each once. */
  ghost predicate PastesOk(s: Walk) {
    && (forall p :: p in s.pastes <==> p.name in s.pasted && s.pasted[p.name] == p.file)
    && (forall a, b :: 0 <= a < b < |s.pastes| ==> s.pastes[a] != s.pastes[b])
  }

  lemma ClashIsAmbiguous(q: Query, i: Item, r: Resolution)
    requires Reachable(q, i) && Witnessed(q, i.name, r) && Resolve(q.world, i) != r
    ensures !Unambiguous(q)
  {
    var f :| Reachable(q, Item(i.name, f)) && Resolve(q.world, Item(i.name, f)) == r;
    assert Item(i.name, f).name == i.name;
  }

  /** An imported mention of the root's name clashes with the root. */
  lemma ImportedRootIsAmbiguous(q: Query, i: Item)
    requires Reachable(q, i) && Resolve(q.world, i).Imported? && i.name == q.root.name
    ensures !Unambiguous(q)
  {
    RootReachable(q);
  }

  lemma VisitKeepsRecords(q: Query, s: Walk, i: Item)
    requires RecordsOk(q, s) && Reachable(q, i)
    ensures RecordsOk(q, Visit(q, s, i))
  {
    VisitKeepsBacked(q, s, i);
    if Visit(q, s, i).violations != s.violations { ViolationIsAmbiguity(q, s, i); }
  }

  lemma VisitKeepsBacked(q: Query, s: Walk, i: Item)
    requires Backed(q, s) && Reachable(q, i)
    ensures Backed(q, Visit(q, s, i))
  {
    assert i == Item(i.name, i.file);
    var r := Resolve(q.world, i);
    assert Witnessed(q, i.name, r);
    if Pastes(q, s, i) {
      PasteKeepsBacked(q, s, i, r.file);
    } else if Visit(q, s, i).refs != s.refs {
      RefKeepsBacked(q, s, i.name, Ref(r.specifier, r.imported));
    }
  }

  lemma PasteKeepsBacked(q: Query, s: Walk, i: Item, file: string)
    requires Backed(q, s) && i.name !in s.refs && Witnessed(q, i.name, DeclaredIn(file))
    ensures Backed(q, s.(pasted := s.pasted[i.name := file], pastes := s.pastes + [Item(i.name, file)]))
  {
  }

  lemma RefKeepsBacked(q: Query, s: Walk, name: string, ref: Ref)
    requires Backed(q, s) && name !in s.pasted && Witnessed(q, name, Imported(ref.specifier, ref.imported))
    ensures Backed(q, s.(refs := s.refs[name := ref]))
  {
  }

  lemma ViolationIsAmbiguity(q: Query, s: Walk, i: Item)
    requires Backed(q, s) && Reachable(q, i) && Visit(q, s, i).violations != s.violations
    ensures !Unambiguous(q)
  {
    var r := Resolve(q.world, i);
    if r.Imported? && i.name == q.root.name {
      ImportedRootIsAmbiguous(q, i);
    } else if r.Imported? && i.name in s.pasted {
      ClashIsAmbiguous(q, i, DeclaredIn(s.pasted[i.name]));
    } else if r.Imported? && i.name in s.refs && s.refs[i.name] != Ref(r.specifier, r.imported) {
      ClashIsAmbiguous(q, i, Imported(s.refs[i.name].specifier, s.refs[i.name].imported));
    } else if r.DeclaredIn? && i.name in s.pasted && s.pasted[i.name] != r.file {
      ClashIsAmbiguous(q, i, DeclaredIn(s.pasted[i.name]));
    } else if r.DeclaredIn? && i.name in s.refs && i.name !in s.pasted {
      ClashIsAmbiguous(q, i, Imported(s.refs[i.name].specifier, s.refs[i.name].imported));
    }
  }

  lemma VisitKeepsPastes(q: Query, s: Walk, i: Item)
    requires PastesOk(s)
    ensures PastesOk(Visit(q, s, i))
  {
  }

  /** Visiting an item records it, unless it records a violation; earlier records stay. */
  lemma VisitRecords(q: Query, s: Walk, i: Item)
    requires Returns(q, i)
    requires forall n :: n in s.pasted ==> n !in s.refs
    ensures var s' := Visit(q, s, i);
            && (s'.violations == [] ==> Denotes(q, s', i))
            && (s'.violations == [] ==> s.violations == [])
            && (forall j :: Denotes(q, s, j) ==> Denotes(q, s', j))
  {
  }

  // ---------- The loop ----------

  /** The names the walk can ever paste. */
  ghost function Universe(q: Query): set<string> {
    {q.root.name} + set f, n, m | f in q.world && n in q.world[f].decls && m in q.world[f].decls[n] :: m
  }

  /** What has been queued and visited is reachable, and recorded unless a violation was. */
  ghost predicate Progress(q: Query, s: Walk, done: set<Item>, queue: seq<Item>) {
    && (q.root in done || q.root in queue)
    && (forall i :: i in queue ==> Reachable(q, i) && i.name in Universe(q))
    && (forall i :: i in done ==> Reachable(q, i))
    && (s.violations == [] ==> forall i :: i in done ==> Denotes(q, s, i))
  }

  predicate MentionedBy(q: Query, name: string, file: string, mention: string) {
    file in q.world && name in q.world[file].decls && mention in q.world[file].decls[name] && mention !in q.globals
  }

  /** What a pasted declaration mentions has been visited or is queued. */
  ghost predicate Expanded(q: Query, s: Walk, done: set<Item>, queue: seq<Item>) {
    forall n, m :: n in s.pasted && MentionedBy(q, n, s.pasted[n], m) ==>
      Item(m, s.pasted[n]) in done || Item(m, s.pasted[n]) in queue
  }

  /** The first paste is the root's own declaration. */
  ghost predicate RootFirst(q: Query, s: Walk, queue: seq<Item>) {
    if s.pastes == [] then (s.pasted == map[] && queue == [q.root]) || queue == []
    else Resolve(q.world, q.root) == DeclaredIn(s.pastes[0].file) && s.pastes[0].name == q.root.name
  }

  /** The new queue after one item. */
  function NextQueue(q: Query, s: Walk, i: Item, rest: seq<Item>): seq<Item> {
    if Pastes(q, s, i) then
      var file := Resolve(q.world, i).file;
      rest + Mentions(q.world[file].decls[i.name], q.globals, file)
    else rest
  }

  lemma QueueStaysReachable(q: Query, s: Walk, i: Item, rest: seq<Item>)
    requires Reachable(q, i) && forall j :: j in rest ==> Reachable(q, j) && j.name in Universe(q)
    ensures forall j :: j in NextQueue(q, s, i, rest) ==> Reachable(q, j) && j.name in Universe(q)
  {
    if Pastes(q, s, i) {
      forall j | j in NextQueue(q, s, i, rest) && j !in rest ensures Reachable(q, j) && j.name in Universe(q) {
        assert LeadsTo(q, i, j);
        ReachableStep(q, i, j);
      }
    }
  }

  lemma StepKeepsProgress(q: Query, s: Walk, done: set<Item>, queue: seq<Item>)
    requires queue != [] && Returns(q, queue[0])
    requires RecordsOk(q, s) && Progress(q, s, done, queue)
    ensures Progress(q, Visit(q, s, queue[0]), done + {queue[0]}, NextQueue(q, s, queue[0], queue[1..]))
  {
    var i, rest := queue[0], queue[1..];
    assert i in queue;
    assert forall j :: j in queue ==> j == i || j in rest;
    QueueStaysReachable(q, s, i, rest);
    VisitRecords(q, s, i);
  }

  lemma StepKeepsExpanded(q: Query, s: Walk, done: set<Item>, queue: seq<Item>)
    requires queue != [] && Expanded(q, s, done, queue)
    ensures Expanded(q, Visit(q, s, queue[0]), done + {queue[0]}, NextQueue(q, s, queue[0], queue[1..]))
  {
  }

  lemma StepKeepsRootFirst(q: Query, s: Walk, queue: seq<Item>)
    requires queue != [] && RootFirst(q, s, queue)
    ensures RootFirst(q, Visit(q, s, queue[0]), NextQueue(q, s, queue[0], queue[1..]))
  {
  }

  /** Each paste uses up a name. */
  lemma PastingUsesAName(q: Query, s: Walk, i: Item)
    requires i.name in Universe(q)
    ensures Pastes(q, s, i) ==> Universe(q) - Visit(q, s, i).pasted.Keys < Universe(q) - s.pasted.Keys
    ensures !Pastes(q, s, i) ==> Visit(q, s, i).pasted == s.pasted
  {
    if Pastes(q, s, i) {
      assert i.name in Universe(q) - s.pasted.Keys;
      assert i.name !in Universe(q) - Visit(q, s, i).pasted.Keys;
    }
  }

  /** With the queue drained and no violation, every reachable mention is recorded. */
  lemma DrainedMeansComplete(q: Query, s: Walk, done: set<Item>)
    requires RecordsOk(q, s) && Progress(q, s, done, []) && Expanded(q, s, done, []) && s.violations == []
    ensures forall i :: Reachable(q, i) ==> Denotes(q, s, i)
  {
    forall a, b | a in done && LeadsTo(q, a, b) ensures b in done {
      assert Denotes(q, s, a);
      assert MentionedBy(q, a.name, s.pasted[a.name], b.name) && b == Item(b.name, s.pasted[a.name]);
    }
    forall i | Reachable(q, i) ensures Denotes(q, s, i) {
      var c :| Chain(q, c) && c[|c| - 1] == i;
      ClosedSetHoldsReachable(q, done, c);
    }
  }

  // ---------- The order of the fence ----------

  predicate DeclaredAs(q: Query, i: Item, p: Item) {
    i.name == p.name && Resolve(q.world, i) == DeclaredIn(p.file)
  }

  /** The mentions met on reading the root's name and then the fence from its top. */
  function Reading(q: Query, pastes: seq<Item>): seq<Item> {
    if pastes == [] then [q.root]
    else
      var last := pastes[|pastes| - 1];
      Reading(q, pastes[..|pastes| - 1])
      + if last.file in q.world && last.name in q.world[last.file].decls
        then Mentions(q.world[last.file].decls[last.name], q.globals, last.file) else []
  }

  /** The declarations stand where the reader first meets a mention of them. */
  ghost predicate InReadingOrder(q: Query, read: seq<Item>, pastes: seq<Item>, at: seq<nat>) {
    && |at| == |pastes|
    && (forall k :: 0 <= k < |at| ==> at[k] < |read| && DeclaredAs(q, read[at[k]], pastes[k]))
    && (forall k, l :: 0 <= k < l < |at| ==> at[k] < at[l])
    && (forall k, m :: 0 <= k < |at| && 0 <= m < at[k] ==> !DeclaredAs(q, read[m], pastes[k]))
  }

  /** What has been visited, and after it the queue, is what the fence so far gives to read. */
  ghost predicate ReadSoFar(q: Query, s: Walk, visited: seq<Item>, queue: seq<Item>, at: seq<nat>) {
    && visited + queue == Reading(q, s.pastes)
    && InReadingOrder(q, visited, s.pastes, at)
    && (forall m :: 0 <= m < |visited| ==> Passed(q, s, visited[m]))
  }

  /** If the item resolves to a declaration, its name is taken. */
  predicate Passed(q: Query, s: Walk, i: Item) {
    Resolve(q.world, i).DeclaredIn? ==> i.name in s.pasted || i.name in s.refs
  }

  lemma PassingOn(q: Query, s: Walk, i: Item)
    requires Returns(q, i)
    ensures Passed(q, Visit(q, s, i), i)
    ensures forall j :: Passed(q, s, j) ==> Passed(q, Visit(q, s, i), j)
  {
  }

  lemma OrderStays(q: Query, read: seq<Item>, i: Item, pastes: seq<Item>, at: seq<nat>)
    requires InReadingOrder(q, read, pastes, at)
    ensures InReadingOrder(q, read + [i], pastes, at)
  {
  }

  lemma OrderGrows(q: Query, read: seq<Item>, i: Item, pastes: seq<Item>, p: Item, at: seq<nat>)
    requires InReadingOrder(q, read, pastes, at)
    requires DeclaredAs(q, i, p) && forall m :: 0 <= m < |read| ==> !DeclaredAs(q, read[m], p)
    ensures InReadingOrder(q, read + [i], pastes + [p], at + [|read|])
  {
  }

  function DeclaredItem(q: Query, i: Item): Item
    requires Resolve(q.world, i).DeclaredIn?
  {
    Item(i.name, Resolve(q.world, i).file)
  }

  /** A paste is added below the others, and its mentions are queued behind the rest. */
  lemma PasteGoesLast(q: Query, s: Walk, i: Item, rest: seq<Item>)
    ensures Pastes(q, s, i) ==>
              var p := DeclaredItem(q, i);
              && p.file in q.world && p.name in q.world[p.file].decls
              && Visit(q, s, i).pastes == s.pastes + [p]
              && NextQueue(q, s, i, rest) == rest + Mentions(q.world[p.file].decls[p.name], q.globals, p.file)
    ensures !Pastes(q, s, i) ==> Visit(q, s, i).pastes == s.pastes && NextQueue(q, s, i, rest) == rest
  {
    if Pastes(q, s, i) { ResolvesToDeclaration(q, i); }
  }

  lemma Regroup<T>(a: seq<T>, b: seq<T>, c: seq<T>)
    ensures a + (b + c) == a + b + c
  {
  }

  lemma ReadOn(q: Query, pastes: seq<Item>, p: Item, read: seq<Item>, rest: seq<Item>)
    requires p.file in q.world && p.name in q.world[p.file].decls && read + rest == Reading(q, pastes)
    ensures read + (rest + Mentions(q.world[p.file].decls[p.name], q.globals, p.file)) == Reading(q, pastes + [p])
  {
    var names := Mentions(q.world[p.file].decls[p.name], q.globals, p.file);
    assert (pastes + [p])[..|pastes|] == pastes;
    Regroup(read, rest, names);
  }

  lemma StepKeepsReading(q: Query, s: Walk, visited: seq<Item>, queue: seq<Item>, at: seq<nat>)
    returns (at': seq<nat>)
    requires queue != [] && Returns(q, queue[0]) && ReadSoFar(q, s, visited, queue, at)
    ensures ReadSoFar(q, Visit(q, s, queue[0]), visited + [queue[0]], NextQueue(q, s, queue[0], queue[1..]), at')
  {
    var i, rest := queue[0], queue[1..];
    AllPassed(q, s, visited, i);
    PasteGoesLast(q, s, i, rest);
    MoveOne(visited, queue);
    at' := if Pastes(q, s, i) then at + [|visited|] else at;
    if Pastes(q, s, i) {
      ReadOn(q, s.pastes, DeclaredItem(q, i), visited + [i], rest);
      OrderAfterPaste(q, s, visited, i, at);
    } else {
      OrderStays(q, visited, i, s.pastes, at);
    }
  }

  lemma MoveOne<T>(front: seq<T>, back: seq<T>)
    requires back != []
    ensures front + [back[0]] + back[1..] == front + back
  {
  }

  lemma OrderAfterPaste(q: Query, s: Walk, visited: seq<Item>, i: Item, at: seq<nat>)
    requires Pastes(q, s, i) && forall m :: 0 <= m < |visited| ==> Passed(q, s, visited[m])
    requires InReadingOrder(q, visited, s.pastes, at)
    ensures InReadingOrder(q, visited + [i], s.pastes + [DeclaredItem(q, i)], at + [|visited|])
  {
    NotMetBefore(q, s, visited, i);
    OrderGrows(q, visited, i, s.pastes, DeclaredItem(q, i), at);
  }

  lemma AllPassed(q: Query, s: Walk, visited: seq<Item>, i: Item)
    requires Returns(q, i) && forall m :: 0 <= m < |visited| ==> Passed(q, s, visited[m])
    ensures forall m :: 0 <= m <= |visited| ==> Passed(q, Visit(q, s, i), (visited + [i])[m])
  {
    PassingOn(q, s, i);
  }

  lemma NotMetBefore(q: Query, s: Walk, visited: seq<Item>, i: Item)
    requires Pastes(q, s, i) && forall m :: 0 <= m < |visited| ==> Passed(q, s, visited[m])
    ensures forall m :: 0 <= m < |visited| ==> !DeclaredAs(q, visited[m], DeclaredItem(q, i))
    ensures DeclaredAs(q, i, DeclaredItem(q, i))
  {
  }

  lemma ResolvesToDeclaration(q: Query, i: Item)
    requires Resolve(q.world, i).DeclaredIn?
    ensures Resolve(q.world, i).file in q.world && i.name in q.world[Resolve(q.world, i).file].decls
  {
  }

  /** The fence renders exactly the declarations its own mentions reach. */
  ghost predicate PastesExactly(q: Query, s: Walk) {
    && PastesOk(s)
    && (forall p :: p in s.pastes <==> Witnessed(q, p.name, DeclaredIn(p.file)))
    && s.pastes != [] && s.pastes[0].name == q.root.name && Resolve(q.world, q.root) == DeclaredIn(s.pastes[0].file)
  }

  /** The references are the imports its mentions resolve to. */
  ghost predicate RefsExactly(q: Query, s: Walk) {
    forall n, specifier, imported ::
      n in s.refs && s.refs[n] == Ref(specifier, imported) <==> Witnessed(q, n, Imported(specifier, imported))
  }

  lemma CompleteRefs(q: Query, s: Walk)
    requires RecordsOk(q, s) && forall i :: Reachable(q, i) ==> Denotes(q, s, i)
    ensures RefsExactly(q, s)
  {
    forall n, specifier, imported | Witnessed(q, n, Imported(specifier, imported))
      ensures n in s.refs && s.refs[n] == Ref(specifier, imported)
    {
      var f :| Reachable(q, Item(n, f)) && Resolve(q.world, Item(n, f)) == Imported(specifier, imported);
      assert Denotes(q, s, Item(n, f));
    }
  }

  lemma CompleteIsUnambiguous(q: Query, s: Walk)
    requires RecordsOk(q, s) && PastesOk(s) && RootFirst(q, s, [])
    requires forall i :: Reachable(q, i) ==> Denotes(q, s, i)
    requires Resolve(q.world, q.root).DeclaredIn?
    ensures Unambiguous(q) && PastesExactly(q, s)
  {
    RootReachable(q);
    assert Item(q.root.name, Resolve(q.world, q.root).file) in s.pastes;
    forall i, j | Reachable(q, i) && Reachable(q, j) && i.name == j.name
      ensures Resolve(q.world, i) == Resolve(q.world, j)
    {
      assert Denotes(q, s, i) && Denotes(q, s, j);
    }
    forall p ensures p in s.pastes <==> Witnessed(q, p.name, DeclaredIn(p.file)) {
      if Witnessed(q, p.name, DeclaredIn(p.file)) {
        var f :| Reachable(q, Item(p.name, f)) && Resolve(q.world, Item(p.name, f)) == DeclaredIn(p.file);
        assert Denotes(q, s, Item(p.name, f));
      }
    }
  }

  /** Without a violation the root is a declaration of its own package. */
  lemma NoViolationRootDeclared(q: Query, s: Walk)
    requires RecordsOk(q, s) && s.violations == [] && q.root.name !in s.refs
    requires forall i :: Reachable(q, i) ==> Denotes(q, s, i)
    ensures Resolve(q.world, q.root).DeclaredIn?
  {
    RootReachable(q);
  }

  /** The walk so far. */
  ghost predicate WalkOk(q: Query, s: Walk, visited: seq<Item>, queue: seq<Item>, at: seq<nat>) {
    WalkFinds(q, s, (set i | i in visited), queue) && ReadSoFar(q, s, visited, queue, at)
  }

  ghost predicate WalkFinds(q: Query, s: Walk, done: set<Item>, queue: seq<Item>) {
    && RecordsOk(q, s) && PastesOk(s) && q.root.name !in s.refs
    && Progress(q, s, done, queue) && Expanded(q, s, done, queue) && RootFirst(q, s, queue)
  }

  lemma StepKeepsFinding(q: Query, s: Walk, done: set<Item>, queue: seq<Item>)
    requires queue != [] && Returns(q, queue[0]) && WalkFinds(q, s, done, queue)
    ensures WalkFinds(q, Visit(q, s, queue[0]), done + {queue[0]}, NextQueue(q, s, queue[0], queue[1..]))
  {
    var i := queue[0];
    assert i in queue;
    VisitKeepsRecords(q, s, i);
    VisitKeepsPastes(q, s, i);
    RootStaysLocal(q, s, i);
    StepKeepsProgress(q, s, done, queue);
    StepKeepsExpanded(q, s, done, queue);
    StepKeepsRootFirst(q, s, queue);
  }

  lemma OneMore(visited: seq<Item>, i: Item)
    ensures (set j | j in visited + [i]) == (set j | j in visited) + {i}
  {
  }

  lemma StepKeepsWalk(q: Query, s: Walk, visited: seq<Item>, queue: seq<Item>, at: seq<nat>) returns (at': seq<nat>)
    requires queue != [] && Returns(q, queue[0]) && WalkOk(q, s, visited, queue, at)
    ensures WalkOk(q, Visit(q, s, queue[0]), visited + [queue[0]], NextQueue(q, s, queue[0], queue[1..]), at')
  {
    var i, done := queue[0], set i | i in visited;
    OneMore(visited, i);
    StepKeepsFinding(q, s, done, queue);
    at' := StepKeepsReading(q, s, visited, queue, at);
  }

  lemma RootStaysLocal(q: Query, s: Walk, i: Item)
    requires q.root.name !in s.refs
    ensures q.root.name !in Visit(q, s, i).refs
  {
  }

  lemma FenceIsExact(q: Query, s: Walk, done: set<Item>)
    requires RecordsOk(q, s) && PastesOk(s) && RootFirst(q, s, []) && s.violations == [] && q.root.name !in s.refs
    requires Progress(q, s, done, []) && Expanded(q, s, done, [])
    ensures Unambiguous(q) && PastesExactly(q, s) && RefsExactly(q, s)
    ensures forall i :: Reachable(q, i) ==> Denotes(q, s, i)
  {
    DrainedMeansComplete(q, s, done);
    NoViolationRootDeclared(q, s);
    CompleteIsUnambiguous(q, s);
    CompleteRefs(q, s);
  }

  /**
   * The walk ends on every world, cyclic type references included, unless a mention
   * needs a missing file or its imports come in a circle.  It records no violation exactly
   * when the fence is unambiguous; then every mention in a pasted declaration denotes,
   * across the fence, what it resolves to in its own file.  The pastes stand in the
   * order in which a reader of the fence meets the first mention of each.
   */
  method CollectPastes(q: Query) returns (r: Option<Walk>)
    ensures r.None? ==> exists i :: Reachable(q, i) && (Resolve(q.world, i).NoFile? || Circles(q.world, i.name, i.file))
    ensures (forall i :: Reachable(q, i) ==> Returns(q, i)) ==> r.Some?
    ensures r.Some? ==> (r.value.violations == [] <==> Unambiguous(q))
    ensures r.Some? && r.value.violations == [] ==> forall i :: Reachable(q, i) ==> Denotes(q, r.value, i)
    ensures r.Some? && r.value.violations == [] ==> PastesExactly(q, r.value) && RefsExactly(q, r.value)
    ensures r.Some? ==> exists at :: InReadingOrder(q, Reading(q, r.value.pastes), r.value.pastes, at)
  {
    var s := Walk(map[], [], map[], []);
    var queue := [q.root];
    ghost var visited: seq<Item>, at: seq<nat> := [], [];
    RootReachable(q);
    while queue != []
      invariant WalkOk(q, s, visited, queue, at)
      decreases Universe(q) - s.pasted.Keys, |queue|
    {
      var i := queue[0];
      assert i in queue;
      ResolveExactly(q.world, i);
      if !Returns(q, i) {
        return None;
      }
      at := StepKeepsWalk(q, s, visited, queue, at);
      PastingUsesAName(q, s, i);
      visited := visited + [i];
      queue := NextQueue(q, s, i, queue[1..]);
      s := Visit(q, s, i);
    }
    assert visited + queue == visited;
    if s.violations == [] { FenceIsExact(q, s, set i | i in visited); }
    return Some(s);
  }
}
