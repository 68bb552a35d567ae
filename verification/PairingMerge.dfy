/** Fail-closed resolution of pairing-record conflicts: `scripts/translation-pairing-merge.ts`. */
module PairingMerge {
  import opened Wrappers
  import opened TextLines
  import opened PairingRecord

  datatype Stages = Stages(ancestor: Option<string>, current: Option<string>, other: Option<string>)

  datatype Entry = Staged(id: string) | Unmerged(stages: Stages)

  type Index = map<string, Entry>
  type Files = map<string, string>
  type Store = map<string, string>

  /** What Git, the corpus rules and the Markdown parser answer. */
  datatype Git = Git(hash: string -> string, merge: (string, string, string) -> Option<string>,
                     textMerged: Paths -> bool, inScope: string -> bool,
                     aligned: (Paths, string, string) -> bool, template: Template)

  ghost predicate GitOk(g: Git) {
    IsTemplate(g.template) && forall content: string :: IsHash(g.hash(content))
  }

  datatype Reason =
    | IncompleteStages | MissingRecord | MissingSidecar | EditedSidecar | OutOfScope | NoPair | OtherStrategy
    | InvalidRecord | MissingOwner | OwnerConflict | Misaligned | StagedDiffers | UnstagedContent

  /** A composed record, and the merged owners it names. */
  datatype Merged = Merged(record: string, source: string, zh: string)

  datatype Owners = Owners(source: string, zh: string)

  datatype Resolution = Resolution(path: string, record: string)

  datatype Refusal = Refusal(path: string, reason: Reason)

  // ---------- One record ----------

  /** `readGitBlob`: an object that is there and is what its name says. */
  function ReadBlob(g: Git, store: Store, id: string): Option<string> {
    if id in store && g.hash(store[id]) == id then Some(store[id]) else None
  }

  /** `storeGitBlob`. */
  function StoreBlob(g: Git, store: Store, content: string): Store {
    if g.hash(content) in store then store else store[g.hash(content) := content]
  }

  function LoadOwners(g: Git, store: Store, content: string, paths: Paths): Result<Owners, Reason> {
    match Parse(content, paths)
    case None => Failure(InvalidRecord)
    case Some(record) =>
      var source, zh := ReadBlob(g, store, record.sourceHash), ReadBlob(g, store, record.zhHash);
      if source.None? || zh.None? then Failure(MissingOwner) else Success(Owners(source.value, zh.value))
  }

  function MergeOwners(g: Git, paths: Paths, a: Owners, c: Owners, o: Owners): Result<Merged, Reason> {
    var source, zh := g.merge(a.source, c.source, o.source), g.merge(a.zh, c.zh, o.zh);
    if source.None? || zh.None? then Failure(OwnerConflict)
    else if !g.aligned(paths, source.value, zh.value) then Failure(Misaligned)
    else
      var record := Render(g.template, paths, Record(g.hash(source.value), g.hash(zh.value)));
      Success(Merged(record, source.value, zh.value))
  }

  /** What `mergeTranslationPairingRecords` returns or throws. */
  function MergeRecords(g: Git, store: Store, meta: string, a: string, c: string, o: string): Result<Merged, Reason> {
    if !g.inScope(meta) then Failure(OutOfScope)
    else
      match PathsFromMeta(meta)
      case None => Failure(NoPair)
      case Some(paths) =>
        if !g.textMerged(paths) then Failure(OtherStrategy)
        else
          match LoadOwners(g, store, a, paths)
          case Failure(reason) => Failure(reason)
          case Success(ancestor) =>
            match LoadOwners(g, store, c, paths)
            case Failure(reason) => Failure(reason)
            case Success(current) =>
              match LoadOwners(g, store, o, paths)
              case Failure(reason) => Failure(reason)
              case Success(other) => MergeOwners(g, paths, ancestor, current, other)
  }

  predicate Includes(s: string, part: string) {
    exists i | 0 <= i <= |s| - |part| :: PartAt(s, part, i)
  }

  predicate PartAt(s: string, part: string, i: nat) {
    i + |part| <= |s| && s[i..i + |part|] == part
  }

  /** `assertUneditedSidecar`: one side, a clean text merge, or a conflict nobody edited. */
  predicate Unedited(g: Git, work: string, a: string, c: string, o: string) {
    || work == c || work == o || g.merge(a, c, o) == Some(work)
    || (&& Includes(work, "<<<<<<<") && Includes(work, "=======") && Includes(work, ">>>>>>>")
        && forall line | line in Data(Split(Normalize(c))) + Data(Split(Normalize(o))) :: Includes(work, line))
  }

  // ---------- One conflict ----------

  datatype State = State(index: Index, files: Files, store: Store)

  predicate IsConflict(s: State, meta: string) {
    meta in s.index && s.index[meta].Unmerged? && EndsWith(meta, ".i18n.yaml")
  }

  /** A conflict up to the merge of its records. */
  function Composed(g: Git, s: State, meta: string): Result<Merged, Reason>
    requires IsConflict(s, meta)
  {
    var stages := s.index[meta].stages;
    if stages.ancestor.None? || stages.current.None? || stages.other.None? then Failure(IncompleteStages)
    else
      var a, c, o := ReadBlob(g, s.store, stages.ancestor.value), ReadBlob(g, s.store, stages.current.value),
                     ReadBlob(g, s.store, stages.other.value);
      if a.None? || c.None? || o.None? then Failure(MissingRecord)
      else if meta !in s.files then Failure(MissingSidecar)
      else if !Unedited(g, s.files[meta], a.value, c.value, o.value) then Failure(EditedSidecar)
      else MergeRecords(g, s.store, meta, a.value, c.value, o.value)
  }

  /** Both the index and the working tree hold this content. */
  predicate Holds(g: Git, s: State, path: string, hash: string) {
    && path in s.index && s.index[path] == Staged(hash)
    && path in s.files && g.hash(s.files[path]) == hash
  }

  function Compared(g: Git, s: State, paths: Paths, m: Merged): Option<Reason> {
    if !(paths.source in s.index && s.index[paths.source] == Staged(g.hash(m.source))) then Some(StagedDiffers)
    else if !(paths.zh in s.index && s.index[paths.zh] == Staged(g.hash(m.zh))) then Some(StagedDiffers)
    else if !(paths.source in s.files && g.hash(s.files[paths.source]) == g.hash(m.source)) then Some(UnstagedContent)
    else if !(paths.zh in s.files && g.hash(s.files[paths.zh]) == g.hash(m.zh)) then Some(UnstagedContent)
    else None
  }

  function Verdict(g: Git, s: State, meta: string): Result<Merged, Reason>
    requires IsConflict(s, meta)
  {
    match Composed(g, s, meta)
    case Failure(reason) => Failure(reason)
    case Success(m) =>
      match Compared(g, s, PathsFromMeta(meta).value, m)
      case Some(reason) => Failure(reason)
      case None => Success(m)
  }

  /** The objects behind a conflict: a composed pair is stored even if it is then refused. */
  function StoreAfter(g: Git, s: State, meta: string): Store
    requires IsConflict(s, meta)
  {
    match Composed(g, s, meta)
    case Failure(_) => s.store
    case Success(m) => StoreBlob(g, StoreBlob(g, s.store, m.source), m.zh)
  }

  // ---------- What a verdict means ----------

  /** The owners three records name, merged side by side, are aligned and give this. */
  ghost predicate Composes(g: Git, store: Store, paths: Paths, a: string, c: string, o: string, m: Merged) {
    exists x, y, z :: ComposedFrom(g, store, paths, a, c, o, x, y, z, m)
  }

  predicate ComposedFrom(g: Git, store: Store, paths: Paths, a: string, c: string, o: string,
                         x: Owners, y: Owners, z: Owners, m: Merged) {
    && Names(g, store, a, paths, x) && Names(g, store, c, paths, y) && Names(g, store, o, paths, z)
    && g.merge(x.source, y.source, z.source) == Some(m.source) && g.merge(x.zh, y.zh, z.zh) == Some(m.zh)
    && g.aligned(paths, m.source, m.zh)
    && m.record == Render(g.template, paths, Record(g.hash(m.source), g.hash(m.zh)))
  }

  /** The record parses for the pair and its two hashes are those of its owners' contents. */
  predicate Names(g: Git, store: Store, content: string, paths: Paths, owners: Owners) {
    && Parse(content, paths) == Some(Record(g.hash(owners.source), g.hash(owners.zh)))
    && g.hash(owners.source) in store && store[g.hash(owners.source)] == owners.source
    && g.hash(owners.zh) in store && store[g.hash(owners.zh)] == owners.zh
  }

  lemma LoadsWhatItNames(g: Git, store: Store, content: string, paths: Paths, owners: Owners)
    ensures LoadOwners(g, store, content, paths) == Success(owners) <==> Names(g, store, content, paths, owners)
  {
  }

  lemma MergesOwners(g: Git, paths: Paths, a: Owners, c: Owners, o: Owners, m: Merged)
    ensures MergeOwners(g, paths, a, c, o) == Success(m) <==>
            && g.merge(a.source, c.source, o.source) == Some(m.source) && g.merge(a.zh, c.zh, o.zh) == Some(m.zh)
            && g.aligned(paths, m.source, m.zh)
            && m.record == Render(g.template, paths, Record(g.hash(m.source), g.hash(m.zh)))
  {
  }

  lemma MergesLoaded(g: Git, store: Store, meta: string, a: string, c: string, o: string, x: Owners, y: Owners,
                     z: Owners)
    requires g.inScope(meta) && PathsFromMeta(meta).Some? && g.textMerged(PathsFromMeta(meta).value)
    requires LoadOwners(g, store, a, PathsFromMeta(meta).value) == Success(x)
    requires LoadOwners(g, store, c, PathsFromMeta(meta).value) == Success(y)
    requires LoadOwners(g, store, o, PathsFromMeta(meta).value) == Success(z)
    ensures MergeRecords(g, store, meta, a, c, o) == MergeOwners(g, PathsFromMeta(meta).value, x, y, z)
  {
  }

  /** A composed record is the merge of what three valid records name. */
  lemma MergeComposes(g: Git, store: Store, meta: string, a: string, c: string, o: string, m: Merged)
    requires MergeRecords(g, store, meta, a, c, o) == Success(m)
    ensures g.inScope(meta) && PathsFromMeta(meta).Some? && g.textMerged(PathsFromMeta(meta).value)
    ensures Composes(g, store, PathsFromMeta(meta).value, a, c, o, m)
  {
    var paths := PathsFromMeta(meta).value;
    var x, y, z := LoadOwners(g, store, a, paths).value, LoadOwners(g, store, c, paths).value,
        LoadOwners(g, store, o, paths).value;
    LoadsWhatItNames(g, store, a, paths, x);
    LoadsWhatItNames(g, store, c, paths, y);
    LoadsWhatItNames(g, store, o, paths, z);
    MergesLoaded(g, store, meta, a, c, o, x, y, z);
    MergesOwners(g, paths, x, y, z, m);
    assert ComposedFrom(g, store, paths, a, c, o, x, y, z, m);
  }

  /** Records compose exactly when nothing about them needs a person. */
  lemma MergeExactly(g: Git, store: Store, meta: string, a: string, c: string, o: string, m: Merged)
    ensures MergeRecords(g, store, meta, a, c, o) == Success(m) <==>
            && g.inScope(meta) && PathsFromMeta(meta).Some? && g.textMerged(PathsFromMeta(meta).value)
            && Composes(g, store, PathsFromMeta(meta).value, a, c, o, m)
  {
    if MergeRecords(g, store, meta, a, c, o) == Success(m) {
      MergeComposes(g, store, meta, a, c, o, m);
    } else if g.inScope(meta) && PathsFromMeta(meta).Some? && g.textMerged(PathsFromMeta(meta).value) {
      var paths := PathsFromMeta(meta).value;
      if Composes(g, store, paths, a, c, o, m) {
        var x, y, z :| ComposedFrom(g, store, paths, a, c, o, x, y, z, m);
        LoadsWhatItNames(g, store, a, paths, x);
        LoadsWhatItNames(g, store, c, paths, y);
        LoadsWhatItNames(g, store, o, paths, z);
        MergesLoaded(g, store, meta, a, c, o, x, y, z);
        MergesOwners(g, paths, x, y, z, m);
        assert false;
      }
    }
  }

  /** A record the resolver may write: it names what index and working tree hold. */
  ghost predicate Confirms(g: Git, s: State, meta: string, record: string) {
    PathsFromMeta(meta).Some? &&
    var paths := PathsFromMeta(meta).value;
    exists source: string, zh: string ::
      && record == Render(g.template, paths, Record(source, zh))
      && Holds(g, s, paths.source, source) && Holds(g, s, paths.zh, zh)
      && (Recordable(paths.source) ==> Parse(record, paths) == Some(Record(source, zh)))
  }

  lemma VerdictConfirms(g: Git, s: State, meta: string)
    requires GitOk(g) && IsConflict(s, meta) && Verdict(g, s, meta).Success?
    ensures Confirms(g, s, meta, Verdict(g, s, meta).value.record)
  {
    var m := Verdict(g, s, meta).value;
    var paths := PathsFromMeta(meta).value;
    RecordRoundTrip(g.template, meta, Record(g.hash(m.source), g.hash(m.zh)));
    assert Holds(g, s, paths.source, g.hash(m.source)) && Holds(g, s, paths.zh, g.hash(m.zh));
  }

  /** The sidecar of a complete conflict, which nobody edited, and the records it came from. */
  ghost predicate Mechanical(g: Git, s: State, meta: string, a: string, c: string, o: string)
    requires IsConflict(s, meta)
  {
    var stages := s.index[meta].stages;
    && stages.ancestor.Some? && ReadBlob(g, s.store, stages.ancestor.value) == Some(a)
    && stages.current.Some? && ReadBlob(g, s.store, stages.current.value) == Some(c)
    && stages.other.Some? && ReadBlob(g, s.store, stages.other.value) == Some(o)
    && meta in s.files && Unedited(g, s.files[meta], a, c, o)
  }

  /**
   * A conflict is resolved exactly when nobody edited its sidecar, three valid records
   * name stored contents, these merge cleanly side by side and stay aligned, and index
   * and working tree hold the merges.
   */
  lemma VerdictExactly(g: Git, s: State, meta: string, m: Merged)
    requires IsConflict(s, meta)
    ensures Verdict(g, s, meta) == Success(m) <==>
            exists a, c, o ::
              && Mechanical(g, s, meta, a, c, o)
              && g.inScope(meta) && PathsFromMeta(meta).Some? && g.textMerged(PathsFromMeta(meta).value)
              && Composes(g, s.store, PathsFromMeta(meta).value, a, c, o, m)
              && Holds(g, s, PathsFromMeta(meta).value.source, g.hash(m.source))
              && Holds(g, s, PathsFromMeta(meta).value.zh, g.hash(m.zh))
  {
    var stages := s.index[meta].stages;
    if stages.ancestor.Some? && stages.current.Some? && stages.other.Some? {
      var a, c, o := ReadBlob(g, s.store, stages.ancestor.value), ReadBlob(g, s.store, stages.current.value),
                     ReadBlob(g, s.store, stages.other.value);
      if a.Some? && c.Some? && o.Some? {
        MergeExactly(g, s.store, meta, a.value, c.value, o.value, m);
        if Verdict(g, s, meta) == Success(m) {
          assert Mechanical(g, s, meta, a.value, c.value, o.value);
        }
      }
    }
  }

  // ---------- Why a conflict is refused ----------

  /** The text occurs nowhere in the other one. */
  ghost predicate Lacks(text: string, part: string) {
    forall before: string, after: string :: before + part + after != text
  }

  /** A line of a record that is neither empty nor a comment. */
  predicate IsDataLine(record: string, line: string) {
    line in Split(Normalize(record)) && line != "" && line[0] != '#'
  }

  lemma {:induction false} DataLines(lines: seq<string>, line: string)
    ensures line in Data(lines) <==> line in lines && line != "" && line[0] != '#'
  {
    if lines != [] { DataLines(lines[1..], line); }
  }

  lemma IncludesExactly(text: string, part: string)
    ensures Includes(text, part) <==> !Lacks(text, part)
  {
    if i :| 0 <= i <= |text| - |part| && PartAt(text, part, i) {
      assert text[..i] + part + text[i + |part|..] == text;
    }
    if before: string, after: string :| before + part + after == text {
      assert PartAt(text, part, |before|);
    }
  }

  /**
   * A sidecar counts as unedited exactly if it is a side or the clean merge, or a conflict
   * that shows all data of both sides.
   */
  lemma UneditedExactly(g: Git, work: string, a: string, c: string, o: string)
    ensures Unedited(g, work, a, c, o) <==>
            || work == c || work == o || g.merge(a, c, o) == Some(work)
            || (&& !Lacks(work, "<<<<<<<") && !Lacks(work, "=======") && !Lacks(work, ">>>>>>>")
                && forall line :: IsDataLine(c, line) || IsDataLine(o, line) ==> !Lacks(work, line))
  {
    forall part ensures Includes(work, part) <==> !Lacks(work, part) { IncludesExactly(work, part); }
    var x, y := Data(Split(Normalize(c))), Data(Split(Normalize(o)));
    forall line ensures line in x + y <==> IsDataLine(c, line) || IsDataLine(o, line) {
      DataLines(Split(Normalize(c)), line);
      DataLines(Split(Normalize(o)), line);
    }
  }

  /** An edited sidecar, from which a data line of a side is gone, is never overwritten. */
  lemma EditedIsRefused(g: Git, s: State, meta: string, a: string, c: string, o: string, line: string)
    requires IsConflict(s, meta) && Staging(g, s, meta, a, c, o) && meta in s.files
    requires s.files[meta] != c && s.files[meta] != o && g.merge(a, c, o) != Some(s.files[meta])
    requires (IsDataLine(c, line) || IsDataLine(o, line)) && Lacks(s.files[meta], line)
    ensures Verdict(g, s, meta) == Failure(EditedSidecar)
  {
    UneditedExactly(g, s.files[meta], a, c, o);
  }

  predicate IsBlob(g: Git, s: State, id: string, content: string) {
    id in s.store && s.store[id] == content && g.hash(content) == id
  }

  /** The three stages of the conflict hold these records. */
  predicate Staging(g: Git, s: State, meta: string, a: string, c: string, o: string)
    requires IsConflict(s, meta)
  {
    var stages := s.index[meta].stages;
    && stages.ancestor.Some? && IsBlob(g, s, stages.ancestor.value, a)
    && stages.current.Some? && IsBlob(g, s, stages.current.value, c)
    && stages.other.Some? && IsBlob(g, s, stages.other.value, o)
  }

  /** Some records are what the stages hold. */
  ghost predicate Readable(g: Git, s: State, meta: string)
    requires IsConflict(s, meta)
  {
    exists a, c, o :: Staging(g, s, meta, a, c, o)
  }

  /** There are complete stages, but some object is missing or is not what its name says. */
  lemma StagesReadable(g: Git, s: State, meta: string)
    requires IsConflict(s, meta)
    ensures Readable(g, s, meta) <==> Composed(g, s, meta) != Failure(IncompleteStages)
                                      && Composed(g, s, meta) != Failure(MissingRecord)
  {
    var stages := s.index[meta].stages;
    if stages.ancestor.Some? && stages.current.Some? && stages.other.Some? {
      var a, c, o := ReadBlob(g, s.store, stages.ancestor.value), ReadBlob(g, s.store, stages.current.value),
                     ReadBlob(g, s.store, stages.other.value);
      if a.Some? && c.Some? && o.Some? {
        assert Staging(g, s, meta, a.value, c.value, o.value);
        MergeReasons(g, s.store, meta, a.value, c.value, o.value);
      }
    }
  }

  lemma MergeReasons(g: Git, store: Store, meta: string, a: string, c: string, o: string)
    ensures var r := MergeRecords(g, store, meta, a, c, o);
            r.Failure? ==> r.error in [OutOfScope, NoPair, OtherStrategy, InvalidRecord, MissingOwner, OwnerConflict,
                                       Misaligned]
  {
  }

  /** The first reasons, in the order of the checks: stages, objects, sidecar, edits. */
  lemma RefusedBecause(g: Git, s: State, meta: string)
    requires IsConflict(s, meta)
    ensures var stages := s.index[meta].stages;
            Verdict(g, s, meta) == Failure(IncompleteStages)
            <==> stages.ancestor.None? || stages.current.None? || stages.other.None?
    ensures var v := Verdict(g, s, meta);
            v == Failure(IncompleteStages) || v == Failure(MissingRecord) <==> !Readable(g, s, meta)
    ensures Verdict(g, s, meta) == Failure(MissingSidecar) <==> Readable(g, s, meta) && meta !in s.files
  {
    var stages := s.index[meta].stages;
    StagesReadable(g, s, meta);
    if stages.ancestor.Some? && stages.current.Some? && stages.other.Some? {
      var a, c, o := ReadBlob(g, s.store, stages.ancestor.value), ReadBlob(g, s.store, stages.current.value),
                     ReadBlob(g, s.store, stages.other.value);
      if a.Some? && c.Some? && o.Some? { MergeReasons(g, s.store, meta, a.value, c.value, o.value); }
    }
  }

  /** With the records at hand, an edited sidecar is refused as such, and no other. */
  lemma RefusedForEdits(g: Git, s: State, meta: string, a: string, c: string, o: string)
    requires IsConflict(s, meta) && Staging(g, s, meta, a, c, o) && meta in s.files
    ensures Verdict(g, s, meta) == Failure(EditedSidecar) <==> !Unedited(g, s.files[meta], a, c, o)
  {
    MergeReasons(g, s.store, meta, a, c, o);
  }

  /** The record does not parse for the pair. */
  predicate Invalid(content: string, paths: Paths) {
    Parse(content, paths).None?
  }

  /** It does, but one of the objects it names is missing or is not what its name says. */
  predicate Orphaned(g: Git, store: Store, content: string, paths: Paths) {
    match Parse(content, paths)
    case None => false
    case Some(r) =>
      || !(r.sourceHash in store && g.hash(store[r.sourceHash]) == r.sourceHash)
      || !(r.zhHash in store && g.hash(store[r.zhHash]) == r.zhHash)
  }

  lemma LoadReasons(g: Git, store: Store, content: string, paths: Paths)
    ensures var r := LoadOwners(g, store, content, paths);
            && (r == Failure(InvalidRecord) <==> Invalid(content, paths))
            && (r == Failure(MissingOwner) <==> Orphaned(g, store, content, paths))
            && (r.Failure? ==> r.error == InvalidRecord || r.error == MissingOwner)
  {
  }

  /** Of the checks that fail the first decides: the scope, the paths, the strategy. */
  lemma RefusedForScope(g: Git, store: Store, meta: string, a: string, c: string, o: string)
    ensures var r := MergeRecords(g, store, meta, a, c, o);
            && (r == Failure(OutOfScope) <==> !g.inScope(meta))
            && (r == Failure(NoPair) <==> g.inScope(meta) && PathsFromMeta(meta).None?)
    ensures g.inScope(meta) && PathsFromMeta(meta).Some? ==>
              (MergeRecords(g, store, meta, a, c, o) == Failure(OtherStrategy)
               <==> !g.textMerged(PathsFromMeta(meta).value))
  {
    if PathsFromMeta(meta).Some? {
      var p := PathsFromMeta(meta).value;
      LoadReasons(g, store, a, p);
      LoadReasons(g, store, c, p);
      LoadReasons(g, store, o, p);
    }
  }

  /** And of the records that do not load the first decides. */
  lemma RefusedForRecords(g: Git, store: Store, meta: string, a: string, c: string, o: string)
    requires g.inScope(meta) && PathsFromMeta(meta).Some? && g.textMerged(PathsFromMeta(meta).value)
    ensures var r, p := MergeRecords(g, store, meta, a, c, o), PathsFromMeta(meta).value;
            && (Invalid(a, p) ==> r == Failure(InvalidRecord))
            && (Orphaned(g, store, a, p) ==> r == Failure(MissingOwner))
            && (Loads(g, store, a, p) ==>
                  && (Invalid(c, p) ==> r == Failure(InvalidRecord))
                  && (Orphaned(g, store, c, p) ==> r == Failure(MissingOwner))
                  && (Loads(g, store, c, p) ==>
                        && (Invalid(o, p) ==> r == Failure(InvalidRecord))
                        && (Orphaned(g, store, o, p) ==> r == Failure(MissingOwner))))
  {
    var p := PathsFromMeta(meta).value;
    LoadReasons(g, store, a, p);
    LoadReasons(g, store, c, p);
    LoadReasons(g, store, o, p);
  }

  predicate Loads(g: Git, store: Store, content: string, paths: Paths) {
    !Invalid(content, paths) && !Orphaned(g, store, content, paths)
  }

  /** Owners that do not merge cleanly are a conflict, merged ones that do not match are misaligned. */
  lemma RefusedForOwners(g: Git, store: Store, meta: string, a: string, c: string, o: string, x: Owners, y: Owners,
                         z: Owners)
    requires g.inScope(meta) && PathsFromMeta(meta).Some? && g.textMerged(PathsFromMeta(meta).value)
    requires Names(g, store, a, PathsFromMeta(meta).value, x) && Names(g, store, c, PathsFromMeta(meta).value, y)
    requires Names(g, store, o, PathsFromMeta(meta).value, z)
    ensures var r := MergeRecords(g, store, meta, a, c, o);
            var source, zh := g.merge(x.source, y.source, z.source), g.merge(x.zh, y.zh, z.zh);
            && (r == Failure(OwnerConflict) <==> source.None? || zh.None?)
            && (r == Failure(Misaligned) <==>
                  source.Some? && zh.Some? && !g.aligned(PathsFromMeta(meta).value, source.value, zh.value))
  {
    var paths := PathsFromMeta(meta).value;
    LoadsWhatItNames(g, store, a, paths, x);
    LoadsWhatItNames(g, store, c, paths, y);
    LoadsWhatItNames(g, store, o, paths, z);
    MergesLoaded(g, store, meta, a, c, o, x, y, z);
  }

  /** A pair whose records compose is refused exactly for what index and working tree hold instead. */
  lemma RefusedForContents(g: Git, s: State, meta: string, m: Merged)
    requires IsConflict(s, meta) && Composed(g, s, meta) == Success(m) && PathsFromMeta(meta).Some?
    ensures var p := PathsFromMeta(meta).value;
            var staged := && p.source in s.index && s.index[p.source] == Staged(g.hash(m.source))
                          && p.zh in s.index && s.index[p.zh] == Staged(g.hash(m.zh));
            && (Verdict(g, s, meta) == Failure(StagedDiffers) <==> !staged)
            && (Verdict(g, s, meta) == Failure(UnstagedContent) <==>
                  staged && !(&& p.source in s.files && g.hash(s.files[p.source]) == g.hash(m.source)
                              && p.zh in s.files && g.hash(s.files[p.zh]) == g.hash(m.zh)))
  {
  }

  // ---------- The batch ----------

  /** No conflict is left out. */
  predicate ListsAll(s: State, metas: seq<string>) {
    forall meta | meta in s.index :: IsConflict(s, meta) ==> meta in metas
  }

  predicate IsListing(s: State, metas: seq<string>) {
    && (forall i | 0 <= i < |metas| :: IsConflict(s, metas[i]))
    && (forall i, j | 0 <= i < j < |metas| :: metas[i] != metas[j])
  }

  /** The objects when the first `i` conflicts have been looked at. */
  function StoreAt(g: Git, s: State, metas: seq<string>, i: nat): Store
    requires IsListing(s, metas) && i <= |metas|
  {
    if i == 0 then s.store else StoreAfter(g, s.(store := StoreAt(g, s, metas, i - 1)), metas[i - 1])
  }

  lemma StoreStep(g: Git, s: State, metas: seq<string>, i: nat)
    requires IsListing(s, metas) && i < |metas|
    ensures StoreAt(g, s, metas, i + 1) == StoreAfter(g, s.(store := StoreAt(g, s, metas, i)), metas[i])
  {
  }

  function VerdictAt(g: Git, s: State, metas: seq<string>, i: nat): Result<Merged, Reason>
    requires IsListing(s, metas) && i < |metas|
  {
    Verdict(g, s.(store := StoreAt(g, s, metas, i)), metas[i])
  }

  type Verdicts = seq<Result<Merged, Reason>>

  function AllVerdicts(g: Git, s: State, metas: seq<string>): (vs: Verdicts)
    requires IsListing(s, metas)
    ensures |vs| == |metas| && forall i :: 0 <= i < |metas| ==> vs[i] == VerdictAt(g, s, metas, i)
  {
    seq(|metas|, i requires 0 <= i < |metas| => VerdictAt(g, s, metas, i))
  }

  /** What is written for the first `n` conflicts. */
  function Resolutions(metas: seq<string>, vs: Verdicts, n: nat): seq<Resolution>
    requires n <= |metas| == |vs|
  {
    if n == 0 then []
    else
      Resolutions(metas, vs, n - 1)
      + if vs[n - 1].Success? then [Resolution(metas[n - 1], vs[n - 1].value.record)] else []
  }

  /** What is reported of them. */
  function Refusals(metas: seq<string>, vs: Verdicts, n: nat): seq<Refusal>
    requires n <= |metas| == |vs|
  {
    if n == 0 then []
    else Refusals(metas, vs, n - 1) + if vs[n - 1].Failure? then [Refusal(metas[n - 1], vs[n - 1].error)] else []
  }

  lemma BatchStep(metas: seq<string>, vs: Verdicts, n: nat)
    requires n < |metas| == |vs|
    ensures vs[n].Success? ==>
              && Resolutions(metas, vs, n + 1) == Resolutions(metas, vs, n) + [Resolution(metas[n], vs[n].value.record)]
              && Refusals(metas, vs, n + 1) == Refusals(metas, vs, n)
    ensures vs[n].Failure? ==>
              && Refusals(metas, vs, n + 1) == Refusals(metas, vs, n) + [Refusal(metas[n], vs[n].error)]
              && Resolutions(metas, vs, n + 1) == Resolutions(metas, vs, n)
  {
  }

  /** Every conflict is resolved or refused, never both, by its verdict. */
  lemma {:induction false} EveryConflictOnce(metas: seq<string>, vs: Verdicts, n: nat, i: nat)
    requires i < n <= |metas| == |vs|
    ensures vs[i].Success? ==> Resolution(metas[i], vs[i].value.record) in Resolutions(metas, vs, n)
    ensures vs[i].Failure? ==> Refusal(metas[i], vs[i].error) in Refusals(metas, vs, n)
    ensures |Resolutions(metas, vs, n)| + |Refusals(metas, vs, n)| == n
  {
    if i < n - 1 {
      EveryConflictOnce(metas, vs, n - 1, i);
    } else if i > 0 {
      EveryConflictOnce(metas, vs, n - 1, i - 1);
    }
  }

  /** Where a resolution comes from. */
  lemma {:induction false} ResolutionFrom(metas: seq<string>, vs: Verdicts, n: nat, k: nat) returns (i: nat)
    requires n <= |metas| == |vs| && k < |Resolutions(metas, vs, n)|
    ensures i < n && vs[i].Success? && Resolutions(metas, vs, n)[k] == Resolution(metas[i], vs[i].value.record)
  {
    if k < |Resolutions(metas, vs, n - 1)| {
      i := ResolutionFrom(metas, vs, n - 1, k);
    } else {
      i := n - 1;
    }
  }

  predicate DistinctPaths(rs: seq<Resolution>) {
    forall k, l | 0 <= k < l < |rs| :: rs[k].path != rs[l].path
  }

  lemma {:induction false} ResolutionsDistinct(metas: seq<string>, vs: Verdicts, n: nat)
    requires n <= |metas| == |vs| && forall i, j | 0 <= i < j < |metas| :: metas[i] != metas[j]
    ensures DistinctPaths(Resolutions(metas, vs, n))
  {
    if n > 0 {
      ResolutionsDistinct(metas, vs, n - 1);
      var before := Resolutions(metas, vs, n - 1);
      forall k | 0 <= k < |before| ensures before[k].path != metas[n - 1] {
        var i := ResolutionFrom(metas, vs, n - 1, k);
      }
    }
  }

  /** No refused conflict is among what is written. */
  predicate Spares(metas: seq<string>, vs: Verdicts, rs: seq<Resolution>)
    requires |metas| == |vs|
  {
    forall i, k | 0 <= i < |metas| && vs[i].Failure? && 0 <= k < |rs| :: rs[k].path != metas[i]
  }

  lemma RefusedAreNotWritten(metas: seq<string>, vs: Verdicts)
    requires |metas| == |vs| && forall j, k | 0 <= j < k < |metas| :: metas[j] != metas[k]
    ensures Spares(metas, vs, Resolutions(metas, vs, |metas|))
  {
    var rs := Resolutions(metas, vs, |metas|);
    forall i, k | 0 <= i < |metas| && vs[i].Failure? && 0 <= k < |rs| ensures rs[k].path != metas[i] {
      var j := ResolutionFrom(metas, vs, |metas|, k);
    }
  }

  /** Something was refused exactly when some verdict is a failure; otherwise all are resolved, in order. */
  lemma {:induction false} RefusalsTell(metas: seq<string>, vs: Verdicts, n: nat)
    requires n <= |metas| == |vs|
    ensures Refusals(metas, vs, n) != [] <==> exists i :: 0 <= i < n && vs[i].Failure?
    ensures Refusals(metas, vs, n) == [] ==> PathsOf(Resolutions(metas, vs, n)) == metas[..n]
  {
    if n > 0 {
      RefusalsTell(metas, vs, n - 1);
      if Refusals(metas, vs, n) == [] {
        assert PathsOf(Resolutions(metas, vs, n)) == PathsOf(Resolutions(metas, vs, n - 1)) + [metas[n - 1]];
      }
    }
  }

  function PathsOf(rs: seq<Resolution>): (paths: seq<string>)
    ensures |paths| == |rs| && forall k :: 0 <= k < |rs| ==> paths[k] == rs[k].path
  {
    seq(|rs|, k requires 0 <= k < |rs| => rs[k].path)
  }

  // ---------- After the batch ----------

  /** The sidecar is in place, staged, and confirms what the state holds. */
  ghost predicate Written(g: Git, s: State, r: Resolution) {
    InPlace(g, s, r) && Confirms(g, s, r.path, r.record)
  }

  predicate InPlace(g: Git, s: State, r: Resolution) {
    && r.path in s.files && s.files[r.path] == r.record
    && r.path in s.index && s.index[r.path] == Staged(g.hash(r.record))
  }

  lemma WrittenAfterwards(g: Git, before: State, after: State, metas: seq<string>, vs: Verdicts, rs: seq<Resolution>)
    requires GitOk(g) && IsListing(before, metas) && vs == AllVerdicts(g, before, metas)
    requires rs == Resolutions(metas, vs, |metas|) && Untouched(before, after, rs)
    requires forall k :: 0 <= k < |rs| ==> InPlace(g, after, rs[k])
    ensures forall k :: 0 <= k < |rs| ==> Written(g, after, rs[k])
  {
    forall k | 0 <= k < |rs|
      ensures EndsWith(rs[k].path, ".i18n.yaml") && Confirms(g, before, rs[k].path, rs[k].record)
    {
      ResolutionsConfirm(g, before, metas, vs, k);
    }
    forall k | 0 <= k < |rs| ensures Written(g, after, rs[k]) {
      ConfirmsAfterwards(g, before, after, rs, rs[k].path, rs[k].record);
    }
  }

  predicate SameAt<T(==)>(before: map<string, T>, after: map<string, T>, path: string) {
    (path in before <==> path in after) && (path in before ==> after[path] == before[path])
  }

  /** Nothing else changed, and no object was lost or replaced. */
  ghost predicate Untouched(before: State, after: State, rs: seq<Resolution>) {
    && (forall path: string :: path !in PathsOf(rs) ==> SameAt(before.files, after.files, path))
    && (forall path: string :: path !in PathsOf(rs) ==> SameAt(before.index, after.index, path))
    && Extends(before.store, after.store)
  }

  /** Owners are no sidecars. */
  lemma OwnersAreNotWritten(s: State, rs: seq<Resolution>, meta: string)
    requires forall k | 0 <= k < |rs| :: EndsWith(rs[k].path, ".i18n.yaml")
    requires PathsFromMeta(meta).Some?
    ensures var p := PathsFromMeta(meta).value; p.source !in PathsOf(rs) && p.zh !in PathsOf(rs)
  {
    var p := PathsFromMeta(meta).value;
    forall k | 0 <= k < |rs| ensures rs[k].path != p.source && rs[k].path != p.zh {
      var path := rs[k].path;
      assert path[|path| - 10..][9] == 'l' && path[|path| - 1] == 'l';
      assert p.source[|p.source| - 1] == 'd' && p.zh[|p.zh| - 1] == 'd';
    }
  }

  /** What confirmed a record before the batch was written still does. */
  lemma ConfirmsAfterwards(g: Git, before: State, after: State, rs: seq<Resolution>, meta: string, record: string)
    requires Untouched(before, after, rs) && Confirms(g, before, meta, record)
    requires forall k | 0 <= k < |rs| :: EndsWith(rs[k].path, ".i18n.yaml")
    ensures Confirms(g, after, meta, record)
  {
    var paths := PathsFromMeta(meta).value;
    OwnersAreNotWritten(before, rs, meta);
    var source, zh :|
      && record == Render(g.template, paths, Record(source, zh))
      && Holds(g, before, paths.source, source) && Holds(g, before, paths.zh, zh)
      && (Recordable(paths.source) ==> Parse(record, paths) == Some(Record(source, zh)));
    assert SameAt(before.files, after.files, paths.source) && SameAt(before.files, after.files, paths.zh);
    assert SameAt(before.index, after.index, paths.source) && SameAt(before.index, after.index, paths.zh);
    assert Holds(g, after, paths.source, source) && Holds(g, after, paths.zh, zh);
  }

  lemma ResolutionsConfirm(g: Git, s: State, metas: seq<string>, vs: Verdicts, k: nat)
    requires GitOk(g) && IsListing(s, metas) && vs == AllVerdicts(g, s, metas) && k < |Resolutions(metas, vs, |metas|)|
    ensures var r := Resolutions(metas, vs, |metas|)[k];
            EndsWith(r.path, ".i18n.yaml") && Confirms(g, s, r.path, r.record)
  {
    var i := ResolutionFrom(metas, vs, |metas|, k);
    var at := s.(store := StoreAt(g, s, metas, i));
    VerdictConfirms(g, at, metas[i]);
    ConfirmsIgnoresStore(g, s, at.store, metas[i], vs[i].value.record);
  }

  lemma ConfirmsIgnoresStore(g: Git, s: State, store: Store, meta: string, record: string)
    requires Confirms(g, s.(store := store), meta, record)
    ensures Confirms(g, s, meta, record)
  {
    var paths := PathsFromMeta(meta).value;
    var at := s.(store := store);
    var source, zh :|
      && record == Render(g.template, paths, Record(source, zh))
      && Holds(g, at, paths.source, source) && Holds(g, at, paths.zh, zh)
      && (Recordable(paths.source) ==> Parse(record, paths) == Some(Record(source, zh)));
    assert Holds(g, s, paths.source, source) && Holds(g, s, paths.zh, zh);
  }

  // ---------- Order does not matter ----------

  predicate Extends(small: Store, large: Store) {
    forall id | id in small :: id in large && large[id] == small[id]
  }

  /** Verdicts that a larger store cannot change. */
  predicate Settled(v: Result<Merged, Reason>) {
    v.Failure? ==> v.error != MissingRecord && v.error != MissingOwner
  }

  lemma OwnersStay(g: Git, small: Store, large: Store, content: string, paths: Paths)
    requires Extends(small, large) && LoadOwners(g, small, content, paths) != Failure(MissingOwner)
    ensures LoadOwners(g, large, content, paths) == LoadOwners(g, small, content, paths)
  {
  }

  lemma MergeStays(g: Git, small: Store, large: Store, meta: string, a: string, c: string, o: string)
    requires Extends(small, large) && Settled(MergeRecords(g, small, meta, a, c, o))
    ensures MergeRecords(g, large, meta, a, c, o) == MergeRecords(g, small, meta, a, c, o)
  {
    if g.inScope(meta) && PathsFromMeta(meta).Some? && g.textMerged(PathsFromMeta(meta).value) {
      var paths := PathsFromMeta(meta).value;
      OwnersStay(g, small, large, a, paths);
      if LoadOwners(g, small, a, paths).Success? {
        OwnersStay(g, small, large, c, paths);
        if LoadOwners(g, small, c, paths).Success? { OwnersStay(g, small, large, o, paths); }
      }
    }
  }

  lemma ComposedStays(g: Git, s: State, large: Store, meta: string)
    requires IsConflict(s, meta) && Extends(s.store, large) && Settled(Composed(g, s, meta))
    ensures Composed(g, s.(store := large), meta) == Composed(g, s, meta)
  {
    var stages := s.index[meta].stages;
    if stages.ancestor.Some? && stages.current.Some? && stages.other.Some? {
      var a, c, o := ReadBlob(g, s.store, stages.ancestor.value), ReadBlob(g, s.store, stages.current.value),
                     ReadBlob(g, s.store, stages.other.value);
      if a.Some? && c.Some? && o.Some? && meta in s.files && Unedited(g, s.files[meta], a.value, c.value, o.value) {
        MergeStays(g, s.store, large, meta, a.value, c.value, o.value);
      }
    }
  }

  /**
   * Where no object is missing to begin with, each conflict is judged on its own: the
   * order of the batch, and what the batch stores, change no verdict.
   */
  lemma OrderDoesNotMatter(g: Git, s: State, metas: seq<string>, i: nat)
    requires IsListing(s, metas) && i < |metas| && Settled(Verdict(g, s, metas[i]))
    ensures VerdictAt(g, s, metas, i) == Verdict(g, s, metas[i])
  {
    LaterStore(g, s, metas, i, i);
    assert Settled(Composed(g, s, metas[i]));
    ComposedStays(g, s, StoreAt(g, s, metas, i), metas[i]);
  }

  // ---------- What is stored ----------

  /** Every new object is what its name says. */
  ghost predicate Hashed(g: Git, before: Store, after: Store) {
    forall id :: id in after && id !in before ==> g.hash(after[id]) == id
  }

  /**
   * The content is stored under its hash: an object of that name is there, and unless it
   * was before, it is of that hash, and, where no two contents share one, that very content.
   */
  ghost predicate Kept(g: Git, before: Store, after: Store, content: string) {
    && g.hash(content) in after
    && (g.hash(content) !in before ==>
          && g.hash(after[g.hash(content)]) == g.hash(content)
          && ((forall a, b: string :: g.hash(a) == g.hash(b) ==> a == b) ==> after[g.hash(content)] == content))
  }

  lemma StoringKeeps(g: Git, before: Store, store: Store, content: string)
    requires Extends(before, store) && Hashed(g, before, store)
    ensures Extends(store, StoreBlob(g, store, content)) && Extends(before, StoreBlob(g, store, content))
    ensures Hashed(g, before, StoreBlob(g, store, content)) && Kept(g, before, StoreBlob(g, store, content), content)
  {
  }

  lemma KeptLonger(g: Git, before: Store, store: Store, after: Store, content: string)
    requires Kept(g, before, store, content) && Extends(store, after)
    ensures Kept(g, before, after, content)
  {
  }

  /** What looking at one conflict stores: the owners of its verdict, if it has one, and nothing misnamed. */
  lemma ConflictStores(g: Git, before: Store, at: State, meta: string)
    requires IsConflict(at, meta) && Extends(before, at.store) && Hashed(g, before, at.store)
    ensures var after := StoreAfter(g, at, meta);
            Extends(at.store, after) && Extends(before, after) && Hashed(g, before, after)
    ensures OwnersKept(g, before, StoreAfter(g, at, meta), Composed(g, at, meta))
    ensures OwnersKept(g, before, StoreAfter(g, at, meta), Verdict(g, at, meta))
  {
    if Composed(g, at, meta).Success? {
      var m := Composed(g, at, meta).value;
      StoringKeeps(g, before, at.store, m.source);
      var half := StoreBlob(g, at.store, m.source);
      StoringKeeps(g, before, half, m.zh);
      KeptLonger(g, before, half, StoreBlob(g, half, m.zh), m.source);
    }
  }

  ghost predicate OwnersKept(g: Git, before: Store, after: Store, v: Result<Merged, Reason>) {
    v.Success? ==> Kept(g, before, after, v.value.source) && Kept(g, before, after, v.value.zh)
  }

  lemma OwnersKeptLonger(g: Git, before: Store, store: Store, after: Store, v: Result<Merged, Reason>)
    requires OwnersKept(g, before, store, v) && Extends(store, after)
    ensures OwnersKept(g, before, after, v)
  {
    if v.Success? {
      KeptLonger(g, before, store, after, v.value.source);
      KeptLonger(g, before, store, after, v.value.zh);
    }
  }

  /** Looking at conflicts loses nothing and stores nothing misnamed. */
  lemma {:induction false} LaterStore(g: Git, s: State, metas: seq<string>, m: nat, n: nat)
    requires IsListing(s, metas) && m <= n <= |metas|
    ensures Extends(StoreAt(g, s, metas, m), StoreAt(g, s, metas, n))
    ensures Extends(s.store, StoreAt(g, s, metas, n)) && Hashed(g, s.store, StoreAt(g, s, metas, n))
    decreases n
  {
    if n > 0 {
      LaterStore(g, s, metas, if m < n then m else n - 1, n - 1);
      StoreStep(g, s, metas, n - 1);
      ConflictStores(g, s.store, s.(store := StoreAt(g, s, metas, n - 1)), metas[n - 1]);
    }
  }

  /** The owners of a verdict are stored from then on. */
  lemma VerdictStores(g: Git, s: State, metas: seq<string>, i: nat, n: nat)
    requires IsListing(s, metas) && i < n <= |metas|
    ensures OwnersKept(g, s.store, StoreAt(g, s, metas, n), VerdictAt(g, s, metas, i))
  {
    var at := s.(store := StoreAt(g, s, metas, i));
    LaterStore(g, s, metas, i, i);
    LaterStore(g, s, metas, i + 1, n);
    StoreStep(g, s, metas, i);
    ConflictStores(g, s.store, at, metas[i]);
    OwnersKeptLonger(g, s.store, StoreAfter(g, at, metas[i]), StoreAt(g, s, metas, n), Verdict(g, at, metas[i]));
  }

  /** The record is stored, and so are two owners it names. */
  ghost predicate Preserved(g: Git, before: Store, after: Store, r: Resolution) {
    && Kept(g, before, after, r.record) && PathsFromMeta(r.path).Some?
    && exists source: string, zh: string ::
         && r.record == Render(g.template, PathsFromMeta(r.path).value, Record(g.hash(source), g.hash(zh)))
         && Kept(g, before, after, source) && Kept(g, before, after, zh)
  }

  lemma OwnersPreserved(g: Git, s: State, metas: seq<string>, vs: Verdicts, after: Store, k: nat)
    requires GitOk(g) && IsListing(s, metas) && vs == AllVerdicts(g, s, metas) && k < |Resolutions(metas, vs, |metas|)|
    requires Extends(StoreAt(g, s, metas, |metas|), after)
    requires Kept(g, s.store, after, Resolutions(metas, vs, |metas|)[k].record)
    ensures Preserved(g, s.store, after, Resolutions(metas, vs, |metas|)[k])
  {
    var i := ResolutionFrom(metas, vs, |metas|, k);
    var m := vs[i].value;
    VerdictStores(g, s, metas, i, |metas|);
    OwnersKeptLonger(g, s.store, StoreAt(g, s, metas, |metas|), after, vs[i]);
    VerdictExactly(g, s.(store := StoreAt(g, s, metas, i)), metas[i], m);
  }

  lemma AllPreserved(g: Git, s: State, metas: seq<string>, vs: Verdicts, rs: seq<Resolution>, after: Store)
    requires GitOk(g) && IsListing(s, metas) && vs == AllVerdicts(g, s, metas)
    requires rs == Resolutions(metas, vs, |metas|) && Extends(StoreAt(g, s, metas, |metas|), after)
    requires forall k :: 0 <= k < |rs| ==> Kept(g, s.store, after, rs[k].record)
    ensures forall k :: 0 <= k < |rs| ==> Preserved(g, s.store, after, rs[k])
  {
    forall k | 0 <= k < |rs| ensures Preserved(g, s.store, after, rs[k]) {
      OwnersPreserved(g, s, metas, vs, after, k);
    }
  }

  /** A sidecar that was in conflict is written, or refused and reported. */
  predicate Settles(r: Result<seq<string>, seq<Refusal>>, written: seq<Resolution>, path: string) {
    path in PathsOf(written) || (r.Failure? && exists refusal | refusal in r.error :: refusal.path == path)
  }

  lemma NoneIsLeftOut(s: State, metas: seq<string>, vs: Verdicts, r: Result<seq<string>, seq<Refusal>>)
    requires |vs| == |metas| && ListsAll(s, metas)
    requires if Refusals(metas, vs, |metas|) == [] then r.Success? else r == Failure(Refusals(metas, vs, |metas|))
    ensures forall path: string {:trigger Settles(r, Resolutions(metas, vs, |metas|), path)} ::
              path in s.index && s.index[path].Unmerged? && EndsWith(path, ".i18n.yaml") ==>
                Settles(r, Resolutions(metas, vs, |metas|), path)
  {
    forall path: string | path in s.index && s.index[path].Unmerged? && EndsWith(path, ".i18n.yaml")
      ensures Settles(r, Resolutions(metas, vs, |metas|), path)
    {
      assert IsConflict(s, path);
      var i :| 0 <= i < |metas| && metas[i] == path;
      SettledAt(metas, vs, r, i);
    }
  }

  lemma SettledAt(metas: seq<string>, vs: Verdicts, r: Result<seq<string>, seq<Refusal>>, i: nat)
    requires |vs| == |metas| && i < |metas|
    requires if Refusals(metas, vs, |metas|) == [] then r.Success? else r == Failure(Refusals(metas, vs, |metas|))
    ensures Settles(r, Resolutions(metas, vs, |metas|), metas[i])
  {
    EveryConflictOnce(metas, vs, |metas|, i);
    var rs := Resolutions(metas, vs, |metas|);
    if vs[i].Success? {
      var resolution := Resolution(metas[i], vs[i].value.record);
      var k :| 0 <= k < |rs| && rs[k] == resolution;
      assert PathsOf(rs)[k] == metas[i];
    } else {
      assert Refusal(metas[i], vs[i].error).path == metas[i];
    }
  }

  // ---------- The repository ----------

  class Repository {
    const git: Git
    var index: Index
    var files: Files
    var store: Store

    constructor (git: Git, s: State)
      ensures this.git == git && Snapshot() == s
    {
      this.git, index, files, store := git, s.index, s.files, s.store;
    }

    function Snapshot(): State
      reads this
    {
      State(index, files, store)
    }

    /** `mergeTranslationPairingRecords`. */
    method MergeTranslationPairingRecords(meta: string, a: string, c: string, o: string)
      returns (r: Result<Merged, Reason>)
      modifies this`store
      ensures r == MergeRecords(git, old(store), meta, a, c, o)
      ensures store == if r.Success?
                       then StoreBlob(git, StoreBlob(git, old(store), r.value.source), r.value.zh) else old(store)
    {
      r := MergeRecords(git, store, meta, a, c, o);
      if r.Success? {
        store := StoreBlob(git, store, r.value.source);
        store := StoreBlob(git, store, r.value.zh);
      }
    }

    /** The checks of one conflict. */
    method Judge(meta: string) returns (r: Result<Merged, Reason>)
      requires IsConflict(Snapshot(), meta)
      modifies this`store
      ensures r == old(Verdict(git, Snapshot(), meta))
      ensures store == old(StoreAfter(git, Snapshot(), meta))
    {
      var stages := index[meta].stages;
      if stages.ancestor.None? || stages.current.None? || stages.other.None? {
        return Failure(IncompleteStages);
      }
      var a := ReadBlob(git, store, stages.ancestor.value);
      var c := ReadBlob(git, store, stages.current.value);
      var o := ReadBlob(git, store, stages.other.value);
      if a.None? || c.None? || o.None? {
        return Failure(MissingRecord);
      }
      if meta !in files {
        return Failure(MissingSidecar);
      }
      if !Unedited(git, files[meta], a.value, c.value, o.value) {
        return Failure(EditedSidecar);
      }
      r := MergeTranslationPairingRecords(meta, a.value, c.value, o.value);
      if r.Success? {
        var differs := Compared(git, Snapshot(), PathsFromMeta(meta).value, r.value);
        if differs.Some? {
          return Failure(differs.value);
        }
      }
    }

    /** The same, for the next conflict of a batch that began in state `s`. */
    method JudgeNext(metas: seq<string>, i: nat, ghost s: State, ghost vs: Verdicts) returns (r: Result<Merged, Reason>)
      requires IsListing(s, metas) && i < |metas| && Snapshot() == s.(store := StoreAt(git, s, metas, i))
      requires vs == AllVerdicts(git, s, metas)
      modifies this`store
      ensures r == vs[i]
      ensures Snapshot() == s.(store := StoreAt(git, s, metas, i + 1))
    {
      ghost var at := Snapshot();
      r := Judge(metas[i]);
      assert r == Verdict(git, at, metas[i]);
      StoreStep(git, s, metas, i);
    }

    /** All checks, before anything is written. */
    method JudgeAll(metas: seq<string>, ghost s: State, ghost vs: Verdicts)
      returns (resolutions: seq<Resolution>, failures: seq<Refusal>)
      requires s == Snapshot() && IsListing(s, metas) && vs == AllVerdicts(git, s, metas)
      modifies this`store
      ensures resolutions == Resolutions(metas, vs, |metas|) && failures == Refusals(metas, vs, |metas|)
      ensures store == StoreAt(git, s, metas, |metas|)
    {
      resolutions, failures := [], [];
      for i := 0 to |metas|
        invariant Snapshot() == s.(store := StoreAt(git, s, metas, i))
        invariant resolutions == Resolutions(metas, vs, i) && failures == Refusals(metas, vs, i)
      {
        var verdict := JudgeNext(metas, i, s, vs);
        BatchStep(metas, vs, i);
        if verdict.Success? {
          resolutions := resolutions + [Resolution(metas[i], verdict.value.record)];
        } else {
          failures := failures + [Refusal(metas[i], verdict.error)];
        }
      }
    }

    /**
     * `resolveTranslationPairingConflicts`: every sidecar it wrote confirms what index and
     * working tree now hold, everything else is as it was, and it throws exactly when
     * some conflict was refused.
     */
    method ResolveConflicts(metas: seq<string>)
      returns (r: Result<seq<string>, seq<Refusal>>, ghost vs: Verdicts, ghost written: seq<Resolution>)
      requires GitOk(git) && IsListing(Snapshot(), metas) && ListsAll(Snapshot(), metas)
      modifies this
      ensures vs == old(AllVerdicts(git, Snapshot(), metas)) && written == Resolutions(metas, vs, |metas|)
      ensures r.Failure? <==> exists i :: 0 <= i < |metas| && vs[i].Failure?
      ensures r.Failure? ==> r.error == Refusals(metas, vs, |metas|)
      ensures r.Success? ==> r.value == metas
      ensures forall path: string {:trigger Settles(r, written, path)} ::
                path in old(index) && old(index)[path].Unmerged? && EndsWith(path, ".i18n.yaml") ==>
                  Settles(r, written, path)
      ensures forall k :: 0 <= k < |written| ==> Written(git, Snapshot(), written[k])
      ensures Untouched(old(Snapshot()), Snapshot(), written)
      ensures Hashed(git, old(store), store)
      ensures forall k :: 0 <= k < |written| ==> Preserved(git, old(store), store, written[k])
    {
      ghost var s := Snapshot();
      vs := AllVerdicts(git, s, metas);
      var resolutions, failures := JudgeAll(metas, s, vs);
      written := resolutions;
      ResolutionsDistinct(metas, vs, |metas|);
      RefusalsTell(metas, vs, |metas|);
      LaterStore(git, s, metas, 0, |metas|);
      WriteAndStage(resolutions, s);
      WrittenAfterwards(git, s, Snapshot(), metas, vs, resolutions);
      AllPreserved(git, s, metas, vs, written, store);
      r := if failures != [] then Failure(failures) else Success(PathsOf(resolutions));
      NoneIsLeftOut(s, metas, vs, r);
    }

    method WriteAndStage(rs: seq<Resolution>, ghost s: State)
      requires DistinctPaths(rs) && index == s.index && files == s.files && Extends(s.store, store)
      requires Hashed(git, s.store, store)
      modifies this
      ensures Untouched(s, Snapshot(), rs)
      ensures forall k :: 0 <= k < |rs| ==> InPlace(git, Snapshot(), rs[k])
      ensures Extends(old(store), store) && Hashed(git, s.store, store)
      ensures forall k :: 0 <= k < |rs| ==> Kept(git, s.store, store, rs[k].record)
    {
      WriteSidecars(rs);
      StageSidecars(rs, s.store);
    }

    /** The records are written in the working tree. */
    method WriteSidecars(rs: seq<Resolution>)
      requires DistinctPaths(rs)
      modifies this`files
      ensures forall path: string :: path !in PathsOf(rs) ==> SameAt(old(files), files, path)
      ensures forall k :: 0 <= k < |rs| ==> rs[k].path in files && files[rs[k].path] == rs[k].record
    {
      for i := 0 to |rs|
        invariant forall path: string :: path !in PathsOf(rs) ==> SameAt(old(files), files, path)
        invariant forall k :: 0 <= k < i ==> rs[k].path in files && files[rs[k].path] == rs[k].record
      {
        assert rs[i].path == PathsOf(rs)[i];
        files := files[rs[i].path := rs[i].record];
      }
    }

    /** `git add`: what the working tree holds is stored, and the index names it. */
    method StageSidecars(rs: seq<Resolution>, ghost before: Store)
      requires DistinctPaths(rs) && Extends(before, store) && Hashed(git, before, store)
      requires forall k :: 0 <= k < |rs| ==> rs[k].path in files && files[rs[k].path] == rs[k].record
      modifies this`store, this`index
      ensures forall path: string :: path !in PathsOf(rs) ==> SameAt(old(index), index, path)
      ensures forall k :: 0 <= k < |rs| ==>
                rs[k].path in index && index[rs[k].path] == Staged(git.hash(rs[k].record))
      ensures Extends(before, store) && Extends(old(store), store) && Hashed(git, before, store)
      ensures forall k :: 0 <= k < |rs| ==> Kept(git, before, store, rs[k].record)
    {
      for i := 0 to |rs|
        invariant Extends(before, store) && Extends(old(store), store) && Hashed(git, before, store)
        invariant forall path: string :: path !in PathsOf(rs) ==> SameAt(old(index), index, path)
        invariant forall k :: 0 <= k < i ==>
                    rs[k].path in index && index[rs[k].path] == Staged(git.hash(rs[k].record))
        invariant forall k :: 0 <= k < i ==> Kept(git, before, store, rs[k].record)
      {
        assert rs[i].path == PathsOf(rs)[i];
        ghost var stored := store;
        StageOne(rs[i], before);
        forall k | 0 <= k < i ensures Kept(git, before, store, rs[k].record) {
          KeptLonger(git, before, stored, store, rs[k].record);
        }
      }
    }

    method StageOne(r: Resolution, ghost before: Store)
      requires r.path in files && files[r.path] == r.record
      requires Extends(before, store) && Hashed(git, before, store)
      modifies this`store, this`index
      ensures index == old(index)[r.path := Staged(git.hash(r.record))]
      ensures Extends(before, store) && Extends(old(store), store) && Hashed(git, before, store)
      ensures Kept(git, before, store, r.record)
    {
      StoringKeeps(git, before, store, r.record);
      store := StoreBlob(git, store, files[r.path]);
      index := index[r.path := Staged(git.hash(files[r.path]))];
    }
  }
}
