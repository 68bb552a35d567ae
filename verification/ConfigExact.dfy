/**
 * When the answers of the schema-path check `lookupPath` of
 * `scripts/gen-config-catalog.ts` are right: exactly, for every declaration graph.
 */
module ConfigExact {
  import opened Wrappers
  import opened ConfigLookup
  import opened ConfigMeaning

  /** An answer about a declaration, or a type, against all its views. */
  ghost predicate RightAt(w: World, id: DeclId, steps: seq<PathStep>, result: PathLookup)
    requires id in w.decls
  {
    && (result == Found ==> forall v :: Contains(w, v, id, steps))
    && (result == Missing ==> forall v :: !Contains(w, v, id, steps))
  }

  ghost predicate SoundAt(w: World, file: string, t: Type, steps: seq<PathStep>, result: PathLookup) {
    && (result == Found ==> forall v :: TypeContains(w, v, file, t, steps))
    && (result == Missing ==> forall v :: !TypeContains(w, v, file, t, steps))
  }

  // ---------- Missing ----------

  /**
   * The walk passes something that may contain the path and does not look there: a
   * `keyof`, a declaration or namespace behind a built-in name, a member list that
   * admits the name without a property written so, a later interface of the same name.
   */
  ghost predicate DeclOverlooks(w: World, id: DeclId, steps: seq<PathStep>, fuel: nat)
    requires id in w.decls
    decreases fuel, 1
  {
    fuel > 0 && steps != [] &&
    match w.decls[id]
    case Enum => false
    case Alias(body) => TypeOverlooks(w, id.file, body, steps, fuel - 1)
    case Interface(members, bases, merged) =>
      steps[0].Member? &&
      match FindProperty(members, steps[0].name)
      case Some(p) =>
        if PropertyNamed(members, steps[0].name) == Some(p) then PropertyOverlooks(w, id.file, p, steps, fuel - 1)
        else DeclIs(w, true, id, steps)
      case None =>
        || MemberIs(w, true, id.file, members, steps)
        || (PropertyNamed(members, steps[0].name).None?
            && (SomeBaseOverlooks(w, id.file, bases, steps, fuel - 1) || SomeMergedIs(w, true, merged, steps)))
  }

  ghost predicate SomeBaseOverlooks(w: World, file: string, bases: seq<Option<string>>, steps: seq<PathStep>, fuel: nat)
    decreases fuel, 3
  {
    exists i :: 0 <= i < |bases| && BaseOverlooks(w, file, bases[i], steps, fuel)
  }

  ghost predicate BaseOverlooks(w: World, file: string, base: Option<string>, steps: seq<PathStep>, fuel: nat)
    decreases fuel, 2
  {
    && base.Some? && Resolve(w, file, base.value).Some?
    && DeclOverlooks(w, Resolve(w, file, base.value).value, steps, fuel)
  }

  ghost predicate PropertyOverlooks(w: World, file: string, p: TypeElement, steps: seq<PathStep>, fuel: nat)
    requires p.Property? && steps != []
    decreases fuel, 2
  {
    |steps| > 1 && p.annotation.Some? && TypeOverlooks(w, file, p.annotation.value, steps[1..], fuel)
  }

  ghost predicate TypeOverlooks(w: World, file: string, t: Type, steps: seq<PathStep>, fuel: nat)
    decreases fuel, 1
  {
    fuel > 0 && steps != [] &&
    match t
    case Literal(members) =>
      steps[0].Member? &&
      (match FindProperty(members, steps[0].name)
       case Some(p) =>
         if PropertyNamed(members, steps[0].name) == Some(p) then PropertyOverlooks(w, file, p, steps, fuel - 1)
         else MemberIs(w, true, file, members, steps)
       case None => MemberIs(w, true, file, members, steps))
    case Parenthesized(inner) => TypeOverlooks(w, file, inner, steps, fuel - 1)
    case Intersection(parts) => SomeOverlooks(w, file, parts, steps, fuel - 1)
    case Union(branches) => SomeOverlooks(w, file, branches, steps, fuel - 1)
    case ArrayOf(element) => TypeOverlooks(w, file, element, steps[1..], fuel - 1)
    case TypeOperator(op, operand) => op == KeyOf || TypeOverlooks(w, file, operand, steps, fuel - 1)
    case Indexed(target, index) =>
      index.Some? && TypeOverlooks(w, file, target, [Member(index.value)] + steps, fuel - 1)
    case Reference(head, qualified, args) =>
      var d := Resolve(w, file, head);
      if (IsWrapper(head) || IsArrayName(head)) && args != [] then
        if qualified then true
        else if d.Some? then DeclIs(w, true, d.value, steps)
        else TypeOverlooks(w, file, args[0], if IsWrapper(head) then steps else steps[1..], fuel - 1)
      else !qualified && d.Some? && DeclOverlooks(w, d.value, steps, fuel - 1)
    case OtherType => false
  }

  ghost predicate SomeOverlooks(w: World, file: string, ts: seq<Type>, steps: seq<PathStep>, fuel: nat)
    decreases fuel, 2
  {
    exists i :: 0 <= i < |ts| && TypeOverlooks(w, file, ts[i], steps, fuel)
  }

  predicate AllMissing(results: seq<PathLookup>) {
    forall i | 0 <= i < |results| :: results[i] == Missing
  }

  lemma CombinedMissing(results: seq<PathLookup>)
    ensures Combine(results) == Missing ==> AllMissing(results)
    ensures CombineUnion(results) == Missing ==> AllMissing(results)
  {
    forall i | 0 <= i < |results| && Combine(results) == Missing ensures results[i] == Missing {
      assert results[i] in results;
      match results[i] { case Found => case Missing => case Unknown => }
    }
    forall i | 0 <= i < |results| && CombineUnion(results) == Missing ensures results[i] == Missing {
      assert results[i] in results;
    }
  }

  lemma {:induction false} DeclMissing(w: World, id: DeclId, steps: seq<PathStep>, seen: Seen, fuel: nat)
    requires id in w.decls && LookupDecl(w, id, steps, seen, fuel).Some?
    requires LookupDecl(w, id, steps, seen, fuel).value.result == Missing
    ensures DeclIs(w, true, id, steps) == DeclOverlooks(w, id, steps, fuel)
    decreases fuel, 1, 0
  {
    var seen' := seen + {(id, |steps|)};
    DeclUnfolds(w, true, id, steps);
    match w.decls[id]
    case Alias(body) => TypeMissing(w, id.file, body, steps, seen', fuel - 1);
    case Interface(members, bases, _) =>
      match FindProperty(members, steps[0].name)
      case Some(p) =>
        if PropertyNamed(members, steps[0].name) == Some(p) {
          MemberUnfolds(w, true, id.file, members, steps);
          PropertyMissing(w, id.file, members, steps, seen', fuel - 1);
        }
      case None =>
        CombinedMissing(LookupBases(w, id.file, bases, steps, seen', fuel - 1).value.0);
        BasesMissing(w, id.file, bases, steps, seen', fuel - 1);
  }

  lemma {:induction false} PropertyMissing(w: World, file: string, members: seq<TypeElement>, steps: seq<PathStep>,
                                           seen: Seen, fuel: nat)
    requires steps != [] && steps[0].Member? && FindProperty(members, steps[0].name).Some?
    requires LookupMember(w, file, members, steps, seen, fuel).Some?
    requires LookupMember(w, file, members, steps, seen, fuel).value.result == Missing
    ensures var p := FindProperty(members, steps[0].name).value;
            && |steps| > 1 && p.annotation.Some?
            && TypeIs(w, true, file, p.annotation.value, steps[1..]) == PropertyOverlooks(w, file, p, steps, fuel)
    decreases fuel, 2, 0
  {
    var p := FindProperty(members, steps[0].name).value;
    TypeMissing(w, file, p.annotation.value, steps[1..], seen, fuel);
  }

  lemma {:induction false} BasesMissing(w: World, file: string, bases: seq<Option<string>>, steps: seq<PathStep>,
                                        seen: Seen, fuel: nat)
    requires LookupBases(w, file, bases, steps, seen, fuel).Some?
    requires AllMissing(LookupBases(w, file, bases, steps, seen, fuel).value.0)
    ensures |LookupBases(w, file, bases, steps, seen, fuel).value.0| == |bases|
    ensures forall i :: 0 <= i < |bases| ==>
              BaseIs(w, true, file, bases[i], steps) == BaseOverlooks(w, file, bases[i], steps, fuel)
    ensures SomeBaseIs(w, true, file, bases, steps) == SomeBaseOverlooks(w, file, bases, steps, fuel)
    decreases fuel, 3, |bases|
  {
    if bases != [] {
      var results := LookupBases(w, file, bases, steps, seen, fuel).value.0;
      assert results[0] == Missing;
      var id := Resolve(w, file, bases[0].value).value;
      var a := LookupDecl(w, id, steps, seen, fuel).value;
      DeclMissing(w, id, steps, seen, fuel);
      BaseUnfolds(w, true, file, bases[0], steps);
      var rest := LookupBases(w, file, bases[1..], steps, a.seen, fuel).value.0;
      forall i | 0 <= i < |rest| ensures rest[i] == Missing { assert rest[i] == results[i + 1]; }
      BasesMissing(w, file, bases[1..], steps, a.seen, fuel);
      forall i | 0 <= i < |bases|
        ensures BaseIs(w, true, file, bases[i], steps) == BaseOverlooks(w, file, bases[i], steps, fuel)
      {
        if i > 0 { assert bases[i] == bases[1..][i - 1]; }
      }
    }
  }

  lemma {:induction false} PartsMissing(w: World, file: string, ts: seq<Type>, steps: seq<PathStep>, seen: Seen,
                                        fuel: nat)
    requires LookupParts(w, file, ts, steps, seen, fuel).Some?
    requires AllMissing(LookupParts(w, file, ts, steps, seen, fuel).value.0)
    ensures |LookupParts(w, file, ts, steps, seen, fuel).value.0| == |ts|
    ensures forall i :: 0 <= i < |ts| ==>
              TypeIs(w, true, file, ts[i], steps) == TypeOverlooks(w, file, ts[i], steps, fuel)
    ensures SomeIs(w, true, file, ts, steps) == SomeOverlooks(w, file, ts, steps, fuel)
    decreases fuel, 2, |ts|
  {
    if ts != [] {
      var results := LookupParts(w, file, ts, steps, seen, fuel).value.0;
      assert results[0] == Missing;
      var a := LookupType(w, file, ts[0], steps, seen, fuel).value;
      TypeMissing(w, file, ts[0], steps, seen, fuel);
      var rest := LookupParts(w, file, ts[1..], steps, a.seen, fuel).value.0;
      forall i | 0 <= i < |rest| ensures rest[i] == Missing { assert rest[i] == results[i + 1]; }
      PartsMissing(w, file, ts[1..], steps, a.seen, fuel);
      forall i | 0 <= i < |ts|
        ensures TypeIs(w, true, file, ts[i], steps) == TypeOverlooks(w, file, ts[i], steps, fuel)
      {
        if i > 0 { assert ts[i] == ts[1..][i - 1]; }
      }
    }
  }

  lemma {:induction false} TypeMissing(w: World, file: string, t: Type, steps: seq<PathStep>, seen: Seen, fuel: nat)
    requires LookupType(w, file, t, steps, seen, fuel).Some?
    requires LookupType(w, file, t, steps, seen, fuel).value.result == Missing
    ensures TypeIs(w, true, file, t, steps) == TypeOverlooks(w, file, t, steps, fuel)
    decreases fuel, 1, 0
  {
    TypeUnfolds(w, true, file, t, steps);
    match t
    case Literal(members) =>
      var name := steps[0].name;
      if FindProperty(members, name).Some? && PropertyNamed(members, name) == FindProperty(members, name) {
        MemberUnfolds(w, true, file, members, steps);
        PropertyMissing(w, file, members, steps, seen, fuel - 1);
      }
    case Parenthesized(inner) => TypeMissing(w, file, inner, steps, seen, fuel - 1);
    case Intersection(parts) =>
      CombinedMissing(LookupParts(w, file, parts, steps, seen, fuel - 1).value.0);
      PartsMissing(w, file, parts, steps, seen, fuel - 1);
    case Union(branches) =>
      CombinedMissing(LookupParts(w, file, branches, steps, seen, fuel - 1).value.0);
      PartsMissing(w, file, branches, steps, seen, fuel - 1);
    case ArrayOf(element) => TypeMissing(w, file, element, steps[1..], seen, fuel - 1);
    case TypeOperator(op, operand) => TypeMissing(w, file, operand, steps, seen, fuel - 1);
    case Indexed(target, index) => TypeMissing(w, file, target, [Member(index.value)] + steps, seen, fuel - 1);
    case Reference(head, qualified, args) =>
      if IsWrapper(head) && args != [] {
        TypeMissing(w, file, args[0], steps, seen, fuel - 1);
      } else if IsArrayName(head) && args != [] {
        TypeMissing(w, file, args[0], steps[1..], seen, fuel - 1);
      } else {
        DeclMissing(w, Resolve(w, file, head).value, steps, seen, fuel - 1);
      }
  }

  // ---------- Found ----------

  /**
   * What the walk found is there: it never relied on a `keyof`, on a built-in name that
   * means something else, or on a property written with a name it does not declare,
   * unless the declarations surely contain the path all the same.
   */
  ghost predicate DeclBacked(w: World, id: DeclId, steps: seq<PathStep>, seen: Seen, fuel: nat)
    requires id in w.decls
    decreases fuel, 1, 0
  {
    steps == [] || (fuel > 0 &&
      var seen' := seen + {(id, |steps|)};
      match w.decls[id]
      case Enum => false
      case Alias(body) => TypeBacked(w, id.file, body, steps, seen', fuel - 1)
      case Interface(members, bases, merged) =>
        steps[0].Member? &&
        match FindProperty(members, steps[0].name)
        case Some(p) =>
          if PropertyNamed(members, steps[0].name) == Some(p) then PropertyBacked(w, id.file, p, steps, seen', fuel - 1)
          else DeclIs(w, false, id, steps)
        case None =>
          || MemberIs(w, false, id.file, members, steps)
          || (PropertyNamed(members, steps[0].name).None?
              && (SomeBaseBacked(w, id.file, bases, steps, seen', fuel - 1) || SomeMergedIs(w, false, merged, steps))))
  }

  ghost predicate PropertyBacked(w: World, file: string, p: TypeElement, steps: seq<PathStep>, seen: Seen, fuel: nat)
    requires p.Property? && steps != []
    decreases fuel, 2, 0
  {
    |steps| == 1 || (p.annotation.Some? && TypeBacked(w, file, p.annotation.value, steps[1..], seen, fuel))
  }

  /** Of several bases one that answers found is backed, or another surely contains the path. */
  ghost predicate SomeBaseBacked(w: World, file: string, bases: seq<Option<string>>, steps: seq<PathStep>,
                                 seen: Seen, fuel: nat)
    decreases fuel, 3, |bases|
  {
    bases != [] &&
    (if bases[0].None? || Resolve(w, file, bases[0].value).None?
        then SomeBaseBacked(w, file, bases[1..], steps, seen, fuel)
     else
       var id := Resolve(w, file, bases[0].value).value;
       var a := LookupDecl(w, id, steps, seen, fuel);
       a.Some? && (
         || (if a.value.result == Found then DeclBacked(w, id, steps, seen, fuel) else DeclIs(w, false, id, steps))
         || SomeBaseBacked(w, file, bases[1..], steps, a.value.seen, fuel)))
  }

  ghost predicate TypeBacked(w: World, file: string, t: Type, steps: seq<PathStep>, seen: Seen, fuel: nat)
    decreases fuel, 1, 0
  {
    steps == [] || (fuel > 0 &&
      match t
      case Literal(members) =>
        steps[0].Member? &&
        (match FindProperty(members, steps[0].name)
         case Some(p) =>
           if PropertyNamed(members, steps[0].name) == Some(p) then PropertyBacked(w, file, p, steps, seen, fuel - 1)
           else MemberIs(w, false, file, members, steps)
         case None => false)
      case Parenthesized(inner) => TypeBacked(w, file, inner, steps, seen, fuel - 1)
      case Intersection(parts) => SomeBacked(w, file, parts, steps, seen, fuel - 1)
      case Union(branches) => EachBacked(w, file, branches, steps, seen, fuel - 1)
      case ArrayOf(element) => TypeBacked(w, file, element, steps[1..], seen, fuel - 1)
      case TypeOperator(op, operand) => op != KeyOf && TypeBacked(w, file, operand, steps, seen, fuel - 1)
      case Indexed(target, index) =>
        index.Some? && TypeBacked(w, file, target, [Member(index.value)] + steps, seen, fuel - 1)
      case Reference(head, qualified, args) =>
        var d := Resolve(w, file, head);
        if (IsWrapper(head) || IsArrayName(head)) && args != [] then
          if qualified then false
          else if d.Some? then DeclIs(w, false, d.value, steps)
          else TypeBacked(w, file, args[0], if IsWrapper(head) then steps else steps[1..], seen, fuel - 1)
        else !qualified && d.Some? && DeclBacked(w, d.value, steps, seen, fuel - 1)
      case OtherType => false)
  }

  ghost predicate SomeBacked(w: World, file: string, ts: seq<Type>, steps: seq<PathStep>, seen: Seen, fuel: nat)
    decreases fuel, 2, |ts|
  {
    ts != [] &&
    var a := LookupType(w, file, ts[0], steps, seen, fuel);
    a.Some? && (
      || (if a.value.result == Found then TypeBacked(w, file, ts[0], steps, seen, fuel)
          else TypeIs(w, false, file, ts[0], steps))
      || SomeBacked(w, file, ts[1..], steps, a.value.seen, fuel))
  }

  ghost predicate EachBacked(w: World, file: string, ts: seq<Type>, steps: seq<PathStep>, seen: Seen, fuel: nat)
    decreases fuel, 2, |ts|
  {
    ts == [] ||
    var a := LookupType(w, file, ts[0], steps, seen, fuel);
    a.Some? && TypeBacked(w, file, ts[0], steps, seen, fuel) && EachBacked(w, file, ts[1..], steps, a.value.seen, fuel)
  }

  predicate AllFound(results: seq<PathLookup>) {
    forall i | 0 <= i < |results| :: results[i] == Found
  }

  lemma CombinedFound(results: seq<PathLookup>)
    ensures CombineUnion(results) == Found ==> AllFound(results)
  {
    forall i | 0 <= i < |results| && CombineUnion(results) == Found ensures results[i] == Found {
      assert results[i] in results;
    }
  }

  lemma {:induction false} DeclFound(w: World, id: DeclId, steps: seq<PathStep>, seen: Seen, fuel: nat)
    requires id in w.decls && LookupDecl(w, id, steps, seen, fuel).Some?
    requires LookupDecl(w, id, steps, seen, fuel).value.result == Found
    ensures DeclIs(w, false, id, steps) == DeclBacked(w, id, steps, seen, fuel)
    decreases fuel, 1, 0
  {
    DeclUnfolds(w, false, id, steps);
    if steps != [] {
      var seen' := seen + {(id, |steps|)};
      match w.decls[id]
      case Alias(body) => TypeFound(w, id.file, body, steps, seen', fuel - 1);
      case Interface(members, bases, _) =>
        match FindProperty(members, steps[0].name)
        case Some(p) =>
          if PropertyNamed(members, steps[0].name) == Some(p) {
            MemberUnfolds(w, false, id.file, members, steps);
            PropertyFound(w, id.file, members, steps, seen', fuel - 1);
          }
        case None => BasesFound(w, id.file, bases, steps, seen', fuel - 1);
    }
  }

  lemma {:induction false} PropertyFound(w: World, file: string, members: seq<TypeElement>, steps: seq<PathStep>,
                                         seen: Seen, fuel: nat)
    requires steps != [] && steps[0].Member? && FindProperty(members, steps[0].name).Some?
    requires LookupMember(w, file, members, steps, seen, fuel).Some?
    requires LookupMember(w, file, members, steps, seen, fuel).value.result == Found
    ensures var p := FindProperty(members, steps[0].name).value;
            (|steps| == 1 || (p.annotation.Some? && TypeIs(w, false, file, p.annotation.value, steps[1..])))
            == PropertyBacked(w, file, p, steps, seen, fuel)
    decreases fuel, 2, 0
  {
    var p := FindProperty(members, steps[0].name).value;
    if |steps| > 1 {
      TypeFound(w, file, p.annotation.value, steps[1..], seen, fuel);
    }
  }

  lemma {:induction false} BasesFound(w: World, file: string, bases: seq<Option<string>>, steps: seq<PathStep>,
                                      seen: Seen, fuel: nat)
    requires LookupBases(w, file, bases, steps, seen, fuel).Some?
    ensures SomeBaseIs(w, false, file, bases, steps) == SomeBaseBacked(w, file, bases, steps, seen, fuel)
    decreases fuel, 3, |bases|
  {
    if bases != [] {
      BaseUnfolds(w, false, file, bases[0], steps);
      SomeBaseSplits(w, false, file, bases, steps);
      if bases[0].None? || Resolve(w, file, bases[0].value).None? {
        BasesFound(w, file, bases[1..], steps, seen, fuel);
      } else {
        var id := Resolve(w, file, bases[0].value).value;
        var a := LookupDecl(w, id, steps, seen, fuel).value;
        if a.result == Found { DeclFound(w, id, steps, seen, fuel); }
        BasesFound(w, file, bases[1..], steps, a.seen, fuel);
      }
    }
  }

  lemma SomeBaseSplits(w: World, may: bool, file: string, bases: seq<Option<string>>, steps: seq<PathStep>)
    requires bases != []
    ensures SomeBaseIs(w, may, file, bases, steps)
            <==> BaseIs(w, may, file, bases[0], steps) || SomeBaseIs(w, may, file, bases[1..], steps)
  {
    if SomeBaseIs(w, may, file, bases, steps) {
      var i :| 0 <= i < |bases| && BaseIs(w, may, file, bases[i], steps);
      if i > 0 { assert bases[1..][i - 1] == bases[i]; }
    }
    if i :| 0 <= i < |bases[1..]| && BaseIs(w, may, file, bases[1..][i], steps) {
      assert BaseIs(w, may, file, bases[i + 1], steps);
    }
  }

  lemma SomeSplits(w: World, may: bool, file: string, ts: seq<Type>, steps: seq<PathStep>)
    requires ts != []
    ensures SomeIs(w, may, file, ts, steps)
            <==> TypeIs(w, may, file, ts[0], steps) || SomeIs(w, may, file, ts[1..], steps)
    ensures EachIs(w, may, file, ts, steps)
            <==> TypeIs(w, may, file, ts[0], steps) && EachIs(w, may, file, ts[1..], steps)
  {
    if SomeIs(w, may, file, ts, steps) {
      var i :| 0 <= i < |ts| && TypeIs(w, may, file, ts[i], steps);
      if i > 0 { assert ts[1..][i - 1] == ts[i]; }
    }
    if i :| 0 <= i < |ts[1..]| && TypeIs(w, may, file, ts[1..][i], steps) {
      assert TypeIs(w, may, file, ts[i + 1], steps);
    }
    if TypeIs(w, may, file, ts[0], steps) && EachIs(w, may, file, ts[1..], steps) {
      forall i | 0 <= i < |ts| ensures TypeIs(w, may, file, ts[i], steps) {
        if i > 0 { assert TypeIs(w, may, file, ts[1..][i - 1], steps); }
      }
    }
  }

  lemma {:induction false} SomeFound(w: World, file: string, ts: seq<Type>, steps: seq<PathStep>, seen: Seen, fuel: nat)
    requires LookupParts(w, file, ts, steps, seen, fuel).Some?
    ensures SomeIs(w, false, file, ts, steps) == SomeBacked(w, file, ts, steps, seen, fuel)
    decreases fuel, 2, |ts|
  {
    if ts != [] {
      SomeSplits(w, false, file, ts, steps);
      var a := LookupType(w, file, ts[0], steps, seen, fuel).value;
      if a.result == Found { TypeFound(w, file, ts[0], steps, seen, fuel); }
      SomeFound(w, file, ts[1..], steps, a.seen, fuel);
    }
  }

  lemma {:induction false} EachFound(w: World, file: string, ts: seq<Type>, steps: seq<PathStep>, seen: Seen, fuel: nat)
    requires LookupParts(w, file, ts, steps, seen, fuel).Some?
    requires AllFound(LookupParts(w, file, ts, steps, seen, fuel).value.0)
    ensures EachIs(w, false, file, ts, steps) == EachBacked(w, file, ts, steps, seen, fuel)
    decreases fuel, 2, |ts|
  {
    if ts != [] {
      SomeSplits(w, false, file, ts, steps);
      var results := LookupParts(w, file, ts, steps, seen, fuel).value.0;
      assert results[0] == Found;
      var a := LookupType(w, file, ts[0], steps, seen, fuel).value;
      TypeFound(w, file, ts[0], steps, seen, fuel);
      var rest := LookupParts(w, file, ts[1..], steps, a.seen, fuel).value.0;
      forall i | 0 <= i < |rest| ensures rest[i] == Found { assert rest[i] == results[i + 1]; }
      EachFound(w, file, ts[1..], steps, a.seen, fuel);
    }
  }

  lemma {:induction false} TypeFound(w: World, file: string, t: Type, steps: seq<PathStep>, seen: Seen, fuel: nat)
    requires LookupType(w, file, t, steps, seen, fuel).Some?
    requires LookupType(w, file, t, steps, seen, fuel).value.result == Found
    ensures TypeIs(w, false, file, t, steps) == TypeBacked(w, file, t, steps, seen, fuel)
    decreases fuel, 1, 0
  {
    TypeUnfolds(w, false, file, t, steps);
    if steps != [] {
      match t
      case Literal(members) =>
        if PropertyNamed(members, steps[0].name) == FindProperty(members, steps[0].name) {
          MemberUnfolds(w, false, file, members, steps);
          PropertyFound(w, file, members, steps, seen, fuel - 1);
        }
      case Parenthesized(inner) => TypeFound(w, file, inner, steps, seen, fuel - 1);
      case Intersection(parts) => SomeFound(w, file, parts, steps, seen, fuel - 1);
      case Union(branches) =>
        CombinedFound(LookupParts(w, file, branches, steps, seen, fuel - 1).value.0);
        EachFound(w, file, branches, steps, seen, fuel - 1);
      case ArrayOf(element) => TypeFound(w, file, element, steps[1..], seen, fuel - 1);
      case TypeOperator(op, operand) => TypeFound(w, file, operand, steps, seen, fuel - 1);
      case Indexed(target, index) => TypeFound(w, file, target, [Member(index.value)] + steps, seen, fuel - 1);
      case Reference(head, qualified, args) =>
        if IsWrapper(head) && args != [] {
          TypeFound(w, file, args[0], steps, seen, fuel - 1);
        } else if IsArrayName(head) && args != [] {
          TypeFound(w, file, args[0], steps[1..], seen, fuel - 1);
        } else {
          DeclFound(w, Resolve(w, file, head).value, steps, seen, fuel - 1);
        }
    }
  }

  // ---------- The answers are right exactly when ----------

  /** A definite answer about a declaration is right exactly when it is backed, or overlooks nothing. */
  lemma LookupExactly(w: World, id: DeclId, steps: seq<PathStep>, seen: Seen, fuel: nat)
    requires id in w.decls && LookupDecl(w, id, steps, seen, fuel).Some?
    ensures RightAt(w, id, steps, LookupDecl(w, id, steps, seen, fuel).value.result)
            <==> match LookupDecl(w, id, steps, seen, fuel).value.result
                 case Found => DeclBacked(w, id, steps, seen, fuel)
                 case Missing => !DeclOverlooks(w, id, steps, fuel)
                 case Unknown => true
  {
    DeclMeaning(w, id, steps);
    match LookupDecl(w, id, steps, seen, fuel).value.result
    case Found => DeclFound(w, id, steps, seen, fuel);
    case Missing => DeclMissing(w, id, steps, seen, fuel);
    case Unknown =>
  }

  /** The same of a definite answer about a type. */
  lemma LookupTypeExactly(w: World, file: string, t: Type, steps: seq<PathStep>, seen: Seen, fuel: nat)
    requires LookupType(w, file, t, steps, seen, fuel).Some?
    ensures SoundAt(w, file, t, steps, LookupType(w, file, t, steps, seen, fuel).value.result)
            <==> match LookupType(w, file, t, steps, seen, fuel).value.result
                 case Found => TypeBacked(w, file, t, steps, seen, fuel)
                 case Missing => !TypeOverlooks(w, file, t, steps, fuel)
                 case Unknown => true
  {
    TypeMeaning(w, file, t, steps);
    match LookupType(w, file, t, steps, seen, fuel).value.result
    case Found => TypeFound(w, file, t, steps, seen, fuel);
    case Missing => TypeMissing(w, file, t, steps, seen, fuel);
    case Unknown =>
  }

  // ---------- What a caller can look at ----------

  /** A list passed over has no index signature and no other member of this name. */
  predicate Silent(members: seq<TypeElement>, name: string) {
    OtherNamed(name) !in members && IndexSignature !in members
  }

  /**
   * What the walk of this path can meet reads as it is meant: no `keyof`, the built-in
   * names not qualified and not declared, the wanted properties written with the names
   * they declare; and, if `strict`, the lists passed over are silent about the name and
   * are all there is of their interfaces.
   * Methods and index signatures elsewhere do no harm.
   */
  predicate DeclReads(w: World, strict: bool, id: DeclId, steps: seq<PathStep>, fuel: nat)
    requires id in w.decls
    decreases fuel, 1
  {
    fuel == 0 || steps == [] ||
    match w.decls[id]
    case Enum => true
    case Alias(body) => TypeReads(w, strict, id.file, body, steps, fuel - 1)
    case Interface(members, bases, merged) =>
      steps[0].Element? || (
        && ListReads(w, strict, id.file, members, steps, fuel - 1)
        && (FindProperty(members, steps[0].name).None? && strict ==> merged == [])
        && (FindProperty(members, steps[0].name).None? ==>
              forall i | 0 <= i < |bases| :: BaseReads(w, strict, id.file, bases[i], steps, fuel - 1)))
  }

  predicate BaseReads(w: World, strict: bool, file: string, base: Option<string>, steps: seq<PathStep>, fuel: nat)
    decreases fuel, 2
  {
    base.None? || Resolve(w, file, base.value).None?
        || DeclReads(w, strict, Resolve(w, file, base.value).value, steps, fuel)
  }

  predicate ListReads(w: World, strict: bool, file: string, members: seq<TypeElement>, steps: seq<PathStep>, fuel: nat)
    requires steps != [] && steps[0].Member?
    decreases fuel, 2
  {
    var p := FindProperty(members, steps[0].name);
    && p == PropertyNamed(members, steps[0].name)
    && (p.None? && strict ==> Silent(members, steps[0].name))
    && (p.Some? && |steps| > 1 && p.value.annotation.Some? ==>
          TypeReads(w, strict, file, p.value.annotation.value, steps[1..], fuel))
  }

  predicate TypeReads(w: World, strict: bool, file: string, t: Type, steps: seq<PathStep>, fuel: nat)
    decreases fuel, 1
  {
    fuel == 0 || steps == [] ||
    match t
    case Literal(members) => steps[0].Element? || ListReads(w, strict, file, members, steps, fuel - 1)
    case Parenthesized(inner) => TypeReads(w, strict, file, inner, steps, fuel - 1)
    case Intersection(parts) => EachReads(w, strict, file, parts, steps, fuel - 1)
    case Union(branches) => EachReads(w, strict, file, branches, steps, fuel - 1)
    case ArrayOf(element) => TypeReads(w, strict, file, element, steps[1..], fuel - 1)
    case TypeOperator(op, operand) => op != KeyOf && TypeReads(w, strict, file, operand, steps, fuel - 1)
    case Indexed(target, index) =>
      index.None? || TypeReads(w, strict, file, target, [Member(index.value)] + steps, fuel - 1)
    case Reference(head, qualified, args) =>
      if (IsWrapper(head) || IsArrayName(head)) && args != [] then
        && !qualified && Resolve(w, file, head).None?
        && TypeReads(w, strict, file, args[0], if IsWrapper(head) then steps else steps[1..], fuel - 1)
      else
        || qualified || Resolve(w, file, head).None?
        || DeclReads(w, strict, Resolve(w, file, head).value, steps, fuel - 1)
    case OtherType => true
  }

  predicate EachReads(w: World, strict: bool, file: string, ts: seq<Type>, steps: seq<PathStep>, fuel: nat)
    decreases fuel, 2
  {
    forall i | 0 <= i < |ts| :: TypeReads(w, strict, file, ts[i], steps, fuel)
  }

  lemma {:induction false} DeclReadsOverlooks(w: World, id: DeclId, steps: seq<PathStep>, fuel: nat)
    requires id in w.decls && DeclReads(w, true, id, steps, fuel)
    ensures !DeclOverlooks(w, id, steps, fuel)
    decreases fuel, 1
  {
    if fuel > 0 && steps != [] {
      match w.decls[id]
      case Enum =>
      case Alias(body) => TypeReadsOverlooks(w, id.file, body, steps, fuel - 1);
      case Interface(members, bases, _) =>
        if steps[0].Member? {
          ListReadsOverlooks(w, id.file, members, steps, fuel - 1);
          if FindProperty(members, steps[0].name).None? {
            forall i | 0 <= i < |bases| ensures !BaseOverlooks(w, id.file, bases[i], steps, fuel - 1) {
              assert BaseReads(w, true, id.file, bases[i], steps, fuel - 1);
              if bases[i].Some? && Resolve(w, id.file, bases[i].value).Some? {
                DeclReadsOverlooks(w, Resolve(w, id.file, bases[i].value).value, steps, fuel - 1);
              }
            }
          }
        }
    }
  }

  lemma {:induction false} ListReadsOverlooks(w: World, file: string, members: seq<TypeElement>,
                                              steps: seq<PathStep>, fuel: nat)
    requires steps != [] && steps[0].Member? && ListReads(w, true, file, members, steps, fuel)
    ensures var p := FindProperty(members, steps[0].name);
            if p.Some? then !PropertyOverlooks(w, file, p.value, steps, fuel)
                else !MemberIs(w, true, file, members, steps)
    decreases fuel, 2
  {
    var p := FindProperty(members, steps[0].name);
    MemberUnfolds(w, true, file, members, steps);
    if p.Some? && |steps| > 1 && p.value.annotation.Some? {
      TypeReadsOverlooks(w, file, p.value.annotation.value, steps[1..], fuel);
    }
  }

  lemma {:induction false} TypeReadsOverlooks(w: World, file: string, t: Type, steps: seq<PathStep>, fuel: nat)
    requires TypeReads(w, true, file, t, steps, fuel)
    ensures !TypeOverlooks(w, file, t, steps, fuel)
    decreases fuel, 1
  {
    if fuel > 0 && steps != [] {
      match t
      case Literal(members) =>
        if steps[0].Member? { ListReadsOverlooks(w, file, members, steps, fuel - 1); }
      case Parenthesized(inner) => TypeReadsOverlooks(w, file, inner, steps, fuel - 1);
      case Intersection(parts) => EachReadsOverlooks(w, file, parts, steps, fuel - 1);
      case Union(branches) => EachReadsOverlooks(w, file, branches, steps, fuel - 1);
      case ArrayOf(element) => TypeReadsOverlooks(w, file, element, steps[1..], fuel - 1);
      case TypeOperator(op, operand) => TypeReadsOverlooks(w, file, operand, steps, fuel - 1);
      case Indexed(target, index) =>
        if index.Some? { TypeReadsOverlooks(w, file, target, [Member(index.value)] + steps, fuel - 1); }
      case Reference(head, qualified, args) =>
        if (IsWrapper(head) || IsArrayName(head)) && args != [] {
          TypeReadsOverlooks(w, file, args[0], if IsWrapper(head) then steps else steps[1..], fuel - 1);
        } else if !qualified && Resolve(w, file, head).Some? {
          DeclReadsOverlooks(w, Resolve(w, file, head).value, steps, fuel - 1);
        }
      case OtherType =>
    }
  }

  lemma {:induction false} EachReadsOverlooks(w: World, file: string, ts: seq<Type>, steps: seq<PathStep>, fuel: nat)
    requires EachReads(w, true, file, ts, steps, fuel)
    ensures !SomeOverlooks(w, file, ts, steps, fuel)
    decreases fuel, 2
  {
    forall i | 0 <= i < |ts| ensures !TypeOverlooks(w, file, ts[i], steps, fuel) {
      TypeReadsOverlooks(w, file, ts[i], steps, fuel);
    }
  }

  lemma {:induction false} DeclReadsBacked(w: World, strict: bool, id: DeclId, steps: seq<PathStep>, seen: Seen,
                                           fuel: nat)
    requires id in w.decls && DeclReads(w, strict, id, steps, fuel) && LookupDecl(w, id, steps, seen, fuel).Some?
    requires LookupDecl(w, id, steps, seen, fuel).value.result == Found
    ensures DeclBacked(w, id, steps, seen, fuel)
    decreases fuel, 1, 0
  {
    if steps != [] {
      var seen' := seen + {(id, |steps|)};
      match w.decls[id]
      case Alias(body) => TypeReadsBacked(w, strict, id.file, body, steps, seen', fuel - 1);
      case Interface(members, bases, _) =>
        if FindProperty(members, steps[0].name).Some? {
          ListReadsBacked(w, strict, id.file, members, steps, seen', fuel - 1);
        } else {
          BasesReadBacked(w, strict, id.file, bases, steps, seen', fuel - 1);
        }
    }
  }

  lemma {:induction false} ListReadsBacked(w: World, strict: bool, file: string, members: seq<TypeElement>,
                                           steps: seq<PathStep>, seen: Seen, fuel: nat)
    requires steps != [] && steps[0].Member? && FindProperty(members, steps[0].name).Some?
    requires ListReads(w, strict, file, members, steps, fuel) && LookupMember(w, file, members, steps, seen, fuel).Some?
    requires LookupMember(w, file, members, steps, seen, fuel).value.result == Found
    ensures PropertyBacked(w, file, FindProperty(members, steps[0].name).value, steps, seen, fuel)
    decreases fuel, 2, 0
  {
    if |steps| > 1 {
      var p := FindProperty(members, steps[0].name).value;
      TypeReadsBacked(w, strict, file, p.annotation.value, steps[1..], seen, fuel);
    }
  }

  lemma {:induction false} BasesReadBacked(w: World, strict: bool, file: string, bases: seq<Option<string>>,
                                           steps: seq<PathStep>, seen: Seen, fuel: nat)
    requires forall i | 0 <= i < |bases| :: BaseReads(w, strict, file, bases[i], steps, fuel)
    requires LookupBases(w, file, bases, steps, seen, fuel).Some?
    requires Found in LookupBases(w, file, bases, steps, seen, fuel).value.0
    ensures SomeBaseBacked(w, file, bases, steps, seen, fuel)
    decreases fuel, 3, |bases|
  {
    assert BaseReads(w, strict, file, bases[0], steps, fuel);
    forall i | 0 <= i < |bases[1..]| ensures BaseReads(w, strict, file, bases[1..][i], steps, fuel) {
      assert BaseReads(w, strict, file, bases[i + 1], steps, fuel);
    }
    if bases[0].None? || Resolve(w, file, bases[0].value).None? {
      BasesReadBacked(w, strict, file, bases[1..], steps, seen, fuel);
    } else {
      var id := Resolve(w, file, bases[0].value).value;
      var a := LookupDecl(w, id, steps, seen, fuel).value;
      if a.result == Found {
        DeclReadsBacked(w, strict, id, steps, seen, fuel);
      } else {
        BasesReadBacked(w, strict, file, bases[1..], steps, a.seen, fuel);
      }
    }
  }

  lemma {:induction false} SomeReadsBacked(w: World, strict: bool, file: string, ts: seq<Type>, steps: seq<PathStep>,
                                           seen: Seen, fuel: nat)
    requires EachReads(w, strict, file, ts, steps, fuel) && LookupParts(w, file, ts, steps, seen, fuel).Some?
    ensures Found in LookupParts(w, file, ts, steps, seen, fuel).value.0 ==> SomeBacked(w, file, ts, steps, seen, fuel)
    ensures AllFound(LookupParts(w, file, ts, steps, seen, fuel).value.0) ==> EachBacked(w, file, ts, steps, seen, fuel)
    decreases fuel, 2, |ts|
  {
    if ts != [] {
      var results := LookupParts(w, file, ts, steps, seen, fuel).value.0;
      var a := LookupType(w, file, ts[0], steps, seen, fuel).value;
      var rest := LookupParts(w, file, ts[1..], steps, a.seen, fuel).value.0;
      assert results == [a.result] + rest;
      if a.result == Found { TypeReadsBacked(w, strict, file, ts[0], steps, seen, fuel); }
      forall i | 0 <= i < |ts[1..]| ensures TypeReads(w, strict, file, ts[1..][i], steps, fuel) {
        assert TypeReads(w, strict, file, ts[i + 1], steps, fuel);
      }
      SomeReadsBacked(w, strict, file, ts[1..], steps, a.seen, fuel);
      if AllFound(results) {
        assert results[0] == Found;
        forall i | 0 <= i < |rest| ensures rest[i] == Found { assert rest[i] == results[i + 1]; }
      }
    }
  }

  lemma {:induction false} TypeReadsBacked(w: World, strict: bool, file: string, t: Type, steps: seq<PathStep>,
                                           seen: Seen, fuel: nat)
    requires TypeReads(w, strict, file, t, steps, fuel) && LookupType(w, file, t, steps, seen, fuel).Some?
    requires LookupType(w, file, t, steps, seen, fuel).value.result == Found
    ensures TypeBacked(w, file, t, steps, seen, fuel)
    decreases fuel, 1, 0
  {
    if steps != [] {
      match t
      case Literal(members) => ListReadsBacked(w, strict, file, members, steps, seen, fuel - 1);
      case Parenthesized(inner) => TypeReadsBacked(w, strict, file, inner, steps, seen, fuel - 1);
      case Intersection(parts) => SomeReadsBacked(w, strict, file, parts, steps, seen, fuel - 1);
      case Union(branches) =>
        CombinedFound(LookupParts(w, file, branches, steps, seen, fuel - 1).value.0);
        SomeReadsBacked(w, strict, file, branches, steps, seen, fuel - 1);
      case ArrayOf(element) => TypeReadsBacked(w, strict, file, element, steps[1..], seen, fuel - 1);
      case TypeOperator(op, operand) => TypeReadsBacked(w, strict, file, operand, steps, seen, fuel - 1);
      case Indexed(target, index) =>
        TypeReadsBacked(w, strict, file, target, [Member(index.value)] + steps, seen, fuel - 1);
      case Reference(head, qualified, args) =>
        if (IsWrapper(head) || IsArrayName(head)) && args != [] {
          TypeReadsBacked(w, strict, file, args[0], if IsWrapper(head) then steps else steps[1..], seen, fuel - 1);
        } else {
          DeclReadsBacked(w, strict, Resolve(w, file, head).value, steps, seen, fuel - 1);
        }
    }
  }

  /** What the walk finds is there in every view, if what it meets reads as it is meant. */
  lemma FoundIsRight(w: World, id: DeclId, steps: seq<PathStep>, fuel: nat)
    requires id in w.decls && LookupDecl(w, id, steps, {}, fuel).Some? && DeclReads(w, false, id, steps, fuel)
    ensures LookupDecl(w, id, steps, {}, fuel).value.result == Found ==> forall v :: Contains(w, v, id, steps)
  {
    if LookupDecl(w, id, steps, {}, fuel).value.result == Found {
      DeclReadsBacked(w, false, id, steps, {}, fuel);
      LookupExactly(w, id, steps, {}, fuel);
    }
  }

  /**
   * What it misses is in no view, if the lists it passes over are silent about the name as
   * well and no interface goes on in a later one.
   */
  lemma MissingIsRight(w: World, id: DeclId, steps: seq<PathStep>, fuel: nat)
    requires id in w.decls && LookupDecl(w, id, steps, {}, fuel).Some? && DeclReads(w, true, id, steps, fuel)
    ensures LookupDecl(w, id, steps, {}, fuel).value.result == Missing ==> forall v :: !Contains(w, v, id, steps)
  {
    if LookupDecl(w, id, steps, {}, fuel).value.result == Missing {
      DeclReadsOverlooks(w, id, steps, fuel);
      LookupExactly(w, id, steps, {}, fuel);
    }
  }

  // ---------- Construct by construct ----------

  /** At `keyof` no definite answer is right, so the walk of the operand must not be definite. */
  lemma KeyofExact(w: World, file: string, t: Type, steps: seq<PathStep>, seen: Seen, fuel: nat)
    requires steps != [] && fuel > 0 && LookupType(w, file, t, steps, seen, fuel - 1).Some?
    ensures SoundAt(w, file, TypeOperator(KeyOf, t), steps,
                    LookupType(w, file, TypeOperator(KeyOf, t), steps, seen, fuel).value.result)
            <==> LookupType(w, file, t, steps, seen, fuel - 1).value.result == Unknown
  {
    var k := TypeOperator(KeyOf, t);
    LookupTypeExactly(w, file, k, steps, seen, fuel);
    assert !TypeBacked(w, file, k, steps, seen, fuel) && TypeOverlooks(w, file, k, steps, fuel);
  }

  /** Whatever the guard and the stack, the walk of a type gives no definite answer. */
  ghost predicate NeverDefinite(w: World, file: string, t: Type, steps: seq<PathStep>) {
    forall seen, fuel: nat | LookupType(w, file, t, steps, seen, fuel).Some? ::
      LookupType(w, file, t, steps, seen, fuel).value.result == Unknown
  }

  /** So `keyof` is read rightly by every walk exactly when its operand never gives a definite answer. */
  lemma KeyofAlways(w: World, file: string, t: Type, steps: seq<PathStep>)
    requires steps != []
    ensures NeverDefinite(w, file, t, steps) <==>
            forall seen, fuel: nat | fuel > 0 && LookupType(w, file, t, steps, seen, fuel - 1).Some? ::
              SoundAt(w, file, TypeOperator(KeyOf, t), steps,
                      LookupType(w, file, TypeOperator(KeyOf, t), steps, seen, fuel).value.result)
  {
    forall seen, fuel: nat | fuel > 0 && LookupType(w, file, t, steps, seen, fuel - 1).Some?
      ensures SoundAt(w, file, TypeOperator(KeyOf, t), steps,
                      LookupType(w, file, TypeOperator(KeyOf, t), steps, seen, fuel).value.result)
              <==> LookupType(w, file, t, steps, seen, fuel - 1).value.result == Unknown
    {
      KeyofExact(w, file, t, steps, seen, fuel);
    }
    if !NeverDefinite(w, file, t, steps) {
      var seen, fuel: nat :| LookupType(w, file, t, steps, seen, fuel).Some?
                             && LookupType(w, file, t, steps, seen, fuel).value.result != Unknown;
      KeyofExact(w, file, t, steps, seen, fuel + 1);
      assert LookupType(w, file, t, steps, seen, fuel + 1 - 1).Some?;
    }
  }

  /**
   * At a built-in name with an argument, the answer about the argument is right exactly
   * when the argument is what is meant, or the declaration of that name gives the same
   * answer; behind a namespace it must not be definite.
   */
  lemma WrapperExact(w: World, file: string, t: Type, steps: seq<PathStep>, seen: Seen, fuel: nat)
    requires t.Reference? && t.args != [] && steps != []
    requires t.head in ["Partial", "Required", "Readonly", "NonNullable"]
             || (t.head in ["Array", "ReadonlyArray"] && steps[0].Element?)
    requires fuel > 0 && LookupType(w, file, t, steps, seen, fuel).Some?
    ensures var rest := if t.head in ["Array", "ReadonlyArray"] then steps[1..] else steps;
            var result := LookupType(w, file, t, steps, seen, fuel).value.result;
            && LookupType(w, file, t.args[0], rest, seen, fuel - 1) == LookupType(w, file, t, steps, seen, fuel)
            && (SoundAt(w, file, t, steps, result) <==>
                  if t.qualified then result == Unknown
                  else if Resolve(w, file, t.head).Some? then RightAt(w, Resolve(w, file, t.head).value, steps, result)
                  else SoundAt(w, file, t.args[0], rest, result))
  {
    TypeMeaning(w, file, t, steps);
    TypeMeaning(w, file, t.args[0], if IsWrapper(t.head) then steps else steps[1..]);
    TypeUnfolds(w, false, file, t, steps);
    TypeUnfolds(w, true, file, t, steps);
    if Resolve(w, file, t.head).Some? { DeclMeaning(w, Resolve(w, file, t.head).value, steps); }
  }

  /**
   * At an interface: a property found by its text must be the one declared by that name,
   * and then the rest of the path decides; without one, a path that is found must be
   * declared here or surely be in a base or a later interface of the name, and a path that
   * is missed must be neither admitted here nor possibly be in one of those.
   */
  lemma InterfaceExact(w: World, id: DeclId, steps: seq<PathStep>, seen: Seen, fuel: nat)
    requires id in w.decls && w.decls[id].Interface? && steps != [] && steps[0].Member?
    requires LookupDecl(w, id, steps, seen, fuel).Some?
    ensures var Interface(members, bases, merged) := w.decls[id];
            var name, result := steps[0].name, LookupDecl(w, id, steps, seen, fuel).value.result;
            var p, q := FindProperty(members, name), PropertyNamed(members, name);
            RightAt(w, id, steps, result) <==>
              if p.Some? && q == p then
                |steps| == 1 || p.value.annotation.None?
                    || SoundAt(w, id.file, p.value.annotation.value, steps[1..], result)
              else if q.Some? then
                && (result == Found ==> MemberSays(w, false, id.file, members, steps))
                && (result == Missing ==> !MemberSays(w, true, id.file, members, steps))
              else
                && (result == Found ==>
                      || (OtherNamed(name) in members && |steps| == 1)
                      || SomeBaseIs(w, false, id.file, bases, steps) || SomeMergedIs(w, false, merged, steps))
                && (result == Missing ==>
                      && Silent(members, name)
                      && !SomeBaseIs(w, true, id.file, bases, steps) && !SomeMergedIs(w, true, merged, steps))
  {
    var Interface(members, bases, _) := w.decls[id];
    DeclMeaning(w, id, steps);
    forall may ensures DeclIs(w, may, id, steps) == DeclSays(w, may, id, steps) { DeclUnfolds(w, may, id, steps); }
    forall may ensures MemberIs(w, may, id.file, members, steps) == MemberSays(w, may, id.file, members, steps) {
      MemberUnfolds(w, may, id.file, members, steps);
    }
    var p := FindProperty(members, steps[0].name);
    if p.Some? && p.value.annotation.Some? { TypeMeaning(w, id.file, p.value.annotation.value, steps[1..]); }
  }

  // ---------- Where the check is wrong ----------

  const SUBJECT := DeclId("config.ts", 0)
  const OTHER := DeclId("config.ts", 1)

  /** A view in which nothing is where the declarations do not put it. */
  const BARE := View((_, _, _) => 0, (_, _, _) => false, (_, _) => false, (_, _, _) => false, (_, _, _) => false)
  /** A view in which everything is where the declarations allow it. */
  const RICH := View((_, _, _) => 0, (_, _, _) => true, (_, _) => true, (_, _, _) => true, (_, _, _) => true)

  const MEMBER_A := Property("a", "a", None)

  /** The walk of an alias is the walk of its body. */
  lemma AliasStep(w: World, body: Type, steps: seq<PathStep>, fuel: nat)
    requires SUBJECT in w.decls && w.decls[SUBJECT] == Alias(body) && steps != [] && fuel > 0
    ensures LookupDecl(w, SUBJECT, steps, {}, fuel)
            == LookupType(w, "config.ts", body, steps, {(SUBJECT, |steps|)}, fuel - 1)
    ensures forall v :: Contains(w, v, SUBJECT, steps) <==> TypeContains(w, v, "config.ts", body, steps)
  {
    assert {} + {(SUBJECT, |steps|)} == {(SUBJECT, |steps|)};
    forall v ensures Contains(w, v, SUBJECT, steps) <==> TypeContains(w, v, "config.ts", body, steps) {
      if Contains(w, v, SUBJECT, steps) {
        var n: nat :| HasDecl(w, v, SUBJECT, steps, n);
        assert HasType(w, v, "config.ts", body, steps, n - 1);
      }
      if TypeContains(w, v, "config.ts", body, steps) {
        var n: nat :| HasType(w, v, "config.ts", body, steps, n);
        assert HasDecl(w, v, SUBJECT, steps, n + 1);
      }
    }
  }

  function Only(t: Type): World {
    World(map[SUBJECT := Alias(t)], map[])
  }

  /** `keyof { a }` is reported to have a member `a`, which its values need not have. */
  lemma KeyofIsMisread()
    ensures var w := Only(TypeOperator(KeyOf, Literal([MEMBER_A])));
            && LookupDecl(w, SUBJECT, [Member("a")], {}, 4) == Some(Answer(Found, {(SUBJECT, 1)}))
            && !Contains(w, BARE, SUBJECT, [Member("a")])
  {
    var t := Literal([MEMBER_A]);
    var w := Only(TypeOperator(KeyOf, t));
    AliasStep(w, TypeOperator(KeyOf, t), [Member("a")], 4);
    assert FindProperty([MEMBER_A], "a") == Some(MEMBER_A);
    assert LookupType(w, "config.ts", t, [Member("a")], {(SUBJECT, 1)}, 2) == Some(Answer(Found, {(SUBJECT, 1)}));
  }

  /** An index signature admits every member, yet an undeclared one is reported missing. */
  lemma IndexSignatureIsMisread()
    ensures var w := Only(Literal([IndexSignature]));
            && LookupDecl(w, SUBJECT, [Member("a")], {}, 4) == Some(Answer(Missing, {(SUBJECT, 1)}))
            && Contains(w, RICH, SUBJECT, [Member("a")])
  {
    var w := Only(Literal([IndexSignature]));
    AliasStep(w, Literal([IndexSignature]), [Member("a")], 4);
    assert PropertyNamed([IndexSignature], "a") == None;
    assert FindProperty([IndexSignature], "a") == None;
    assert HasMember(w, RICH, "config.ts", [IndexSignature], [Member("a")], 0);
    assert HasType(w, RICH, "config.ts", Literal([IndexSignature]), [Member("a")], 1);
  }

  /** A property whose name is written in quotes is reported missing in every view that has it. */
  lemma QuotedNameIsMisread()
    ensures var w := Only(Literal([Property("'a'", "a", None)]));
            && LookupDecl(w, SUBJECT, [Member("a")], {}, 4) == Some(Answer(Missing, {(SUBJECT, 1)}))
            && forall v :: Contains(w, v, SUBJECT, [Member("a")])
  {
    var p := Property("'a'", "a", None);
    var w := Only(Literal([p]));
    AliasStep(w, Literal([p]), [Member("a")], 4);
    assert FindProperty([p], "a") == None by {
      assert |"'a'"| == 3 && |"a"| == 1;
      assert FindProperty([p][1..], "a") == None;
    }
    assert PropertyNamed([p], "a") == Some(p);
    forall v ensures Contains(w, v, SUBJECT, [Member("a")]) {
      assert HasMember(w, v, "config.ts", [p], [Member("a")], 0);
      assert HasType(w, v, "config.ts", Literal([p]), [Member("a")], 1);
    }
  }

  /** A local declaration named like a wrapper is passed through as if it were the wrapper. */
  lemma ShadowedWrapperIsMisread()
    ensures var t := Reference("Partial", false, [Literal([MEMBER_A])]);
            var w := World(map[SUBJECT := Alias(t), OTHER := Interface([], [], [])],
                map[("config.ts", "Partial") := OTHER]);
            && LookupDecl(w, SUBJECT, [Member("a")], {}, 4) == Some(Answer(Found, {(SUBJECT, 1)}))
            && !Contains(w, BARE, SUBJECT, [Member("a")])
  {
    var t := Reference("Partial", false, [Literal([MEMBER_A])]);
    var w := World(map[SUBJECT := Alias(t), OTHER := Interface([], [], [])], map[("config.ts", "Partial") := OTHER]);
    AliasStep(w, t, [Member("a")], 4);
    assert FindProperty([MEMBER_A], "a") == Some(MEMBER_A);
    assert LookupType(w, "config.ts", Literal([MEMBER_A]), [Member("a")], {(SUBJECT, 1)}, 2)
           == Some(Answer(Found, {(SUBJECT, 1)}));
    assert Resolve(w, "config.ts", "Partial") == Some(OTHER);
    forall n: nat ensures !HasType(w, BARE, "config.ts", t, [Member("a")], n) {
      if n > 1 {
        assert !HasMember(w, BARE, "config.ts", [], [Member("a")], n - 2);
        assert !HasDecl(w, BARE, OTHER, [Member("a")], n - 1);
      }
    }
  }

  /** `interface C { a }` and `interface C { b }`: the second one's member is reported missing. */
  lemma MergedInterfaceIsMisread()
    ensures var w := World(map[SUBJECT := Interface([MEMBER_A], [], [OTHER]),
                               OTHER := Interface([Property("b", "b", None)], [], [])], map[]);
            && LookupDecl(w, SUBJECT, [Member("b")], {}, 4) == Some(Answer(Missing, {(SUBJECT, 1)}))
            && forall v :: Contains(w, v, SUBJECT, [Member("b")])
  {
    var b := Property("b", "b", None);
    var w := World(map[SUBJECT := Interface([MEMBER_A], [], [OTHER]), OTHER := Interface([b], [], [])], map[]);
    var seen: Seen := {} + {(SUBJECT, 1)};
    assert FindProperty([MEMBER_A], "b") == None by { assert FindProperty([MEMBER_A][1..], "b") == None; }
    assert PropertyNamed([b], "b") == Some(b);
    assert PropertyNamed([MEMBER_A], "b") == None by { assert PropertyNamed([MEMBER_A][1..], "b") == None; }
    assert LookupDecl(w, SUBJECT, [Member("b")], {}, 4) == Some(Answer(Combine([]), seen)) by {
      assert LookupBases(w, "config.ts", [], [Member("b")], seen, 3) == Some(([], seen));
    }
    assert seen == {(SUBJECT, 1)};
    forall v ensures Contains(w, v, SUBJECT, [Member("b")]) {
      assert HasMember(w, v, "config.ts", [b], [Member("b")], 0);
      assert HasDecl(w, v, OTHER, [Member("b")], 1);
      assert [OTHER][0] == OTHER;
      assert MergedHas(w, v, [OTHER], [Member("b")], 1);
      assert HasDecl(w, v, SUBJECT, [Member("b")], 2);
    }
  }

  /** `type A = A['x']`. */
  const SELF_INDEXED := World(map[SUBJECT := Alias(Indexed(Reference("A", false, []), Some("x")))],
                              map[("config.ts", "A") := SUBJECT])

  /** One round: the alias, its indexed access and the reference back, with one step more. */
  lemma SelfIndexRound(steps: seq<PathStep>, seen: Seen, fuel: nat)
    requires steps != [] && (SUBJECT, |steps|) !in seen && fuel >= 3
    ensures LookupDecl(SELF_INDEXED, SUBJECT, steps, seen, fuel)
            == LookupDecl(SELF_INDEXED, SUBJECT, [Member("x")] + steps, seen + {(SUBJECT, |steps|)}, fuel - 3)
  {
    var a, seen', longer := Reference("A", false, []), seen + {(SUBJECT, |steps|)}, [Member("x")] + steps;
    assert Resolve(SELF_INDEXED, "config.ts", "A") == Some(SUBJECT);
    assert LookupDecl(SELF_INDEXED, SUBJECT, steps, seen, fuel)
        == LookupType(SELF_INDEXED, "config.ts", Indexed(a, Some("x")), steps, seen', fuel - 1);
    assert LookupType(SELF_INDEXED, "config.ts", Indexed(a, Some("x")), steps, seen', fuel - 1)
        == LookupType(SELF_INDEXED, "config.ts", a, longer, seen', fuel - 2);
    assert LookupType(SELF_INDEXED, "config.ts", a, longer, seen', fuel - 2)
        == LookupDecl(SELF_INDEXED, SUBJECT, longer, seen', fuel - 3);
  }

  /** It never answers: every round adds a step, so the guard never sees the same key twice. */
  lemma {:induction false} SelfIndexDiverges(steps: seq<PathStep>, seen: Seen, fuel: nat)
    requires steps != [] && forall k :: k in seen ==> k.1 < |steps|
    ensures LookupDecl(SELF_INDEXED, SUBJECT, steps, seen, fuel) == None
    decreases fuel
  {
    if fuel >= 3 {
      SelfIndexRound(steps, seen, fuel);
      SelfIndexDiverges([Member("x")] + steps, seen + {(SUBJECT, |steps|)}, fuel - 3);
    } else if fuel > 0 {
      SelfIndexRunsOut(steps, seen, fuel);
    }
  }

  lemma SelfIndexRunsOut(steps: seq<PathStep>, seen: Seen, fuel: nat)
    requires steps != [] && (SUBJECT, |steps|) !in seen && 0 < fuel < 3
    ensures LookupDecl(SELF_INDEXED, SUBJECT, steps, seen, fuel) == None
  {
    var a, seen', longer := Reference("A", false, []), seen + {(SUBJECT, |steps|)}, [Member("x")] + steps;
    assert LookupType(SELF_INDEXED, "config.ts", a, longer, seen', 0) == None;
    assert LookupType(SELF_INDEXED, "config.ts", Indexed(a, Some("x")), steps, seen', fuel - 1) == None;
  }
}
