/**
 * Termination of the schema-path check.  The guard stops a declaration from being
 * entered twice with the same number of steps left.  An indexed access adds a step, a
 * member or an element takes one away; the check ends exactly when the paths it comes to
 * are of bounded length.
 */
module ConfigTermination {
  import opened Wrappers
  import opened ConfigLookup
  import opened ConfigExact

  // ---------- Measures of a declaration ----------

  function Size(t: Type): nat {
    match t
    case Literal(members) => 1 + MembersSize(members)
    case Parenthesized(inner) => 1 + Size(inner)
    case Intersection(parts) => 1 + TypesSize(parts)
    case Union(branches) => 1 + TypesSize(branches)
    case ArrayOf(element) => 1 + Size(element)
    case TypeOperator(_, operand) => 1 + Size(operand)
    case Indexed(target, _) => 1 + Size(target)
    case Reference(_, _, args) => 1 + TypesSize(args)
    case OtherType => 1
  }

  function TypesSize(ts: seq<Type>): nat {
    if ts == [] then 0 else Size(ts[0]) + TypesSize(ts[1..])
  }

  function MembersSize(ms: seq<TypeElement>): nat {
    if ms == [] then 0 else ElementSize(ms[0]) + MembersSize(ms[1..])
  }

  function ElementSize(m: TypeElement): nat {
    if m.Property? && m.annotation.Some? then Size(m.annotation.value) else 0
  }

  function DeclSize(d: Decl): nat {
    match d
    case Interface(members, _, _) => MembersSize(members)
    case Alias(body) => Size(body)
    case Enum => 0
  }

  // ---------- The length of the path ----------

  /** With this stack, the walk enters no declaration with more than `limit` steps left. */
  ghost predicate ShortDecl(w: World, id: DeclId, steps: seq<PathStep>, seen: Seen, fuel: nat, limit: nat)
    requires id in w.decls
    decreases fuel, 0, 0
  {
    fuel == 0 || steps == [] || w.decls[id].Enum? || (id, |steps|) in seen || (
      && |steps| <= limit
      && var seen' := seen + {(id, |steps|)};
         match w.decls[id]
         case Enum => true
         case Alias(body) => ShortType(w, id.file, body, steps, seen', fuel - 1, limit)
         case Interface(members, bases, _) =>
           steps[0].Member? ==>
             if FindProperty(members, steps[0].name).Some?
             then ShortMember(w, id.file, members, steps, seen', fuel - 1, limit)
             else ShortBases(w, id.file, bases, steps, seen', fuel - 1, limit))
  }

  ghost predicate ShortMember(w: World, file: string, members: seq<TypeElement>, steps: seq<PathStep>,
                              seen: Seen, fuel: nat, limit: nat)
    requires steps != [] && steps[0].Member? && FindProperty(members, steps[0].name).Some?
    decreases fuel, 1, 0
  {
    var p := FindProperty(members, steps[0].name).value;
    |steps| > 1 && p.annotation.Some? ==> ShortType(w, file, p.annotation.value, steps[1..], seen, fuel, limit)
  }

  ghost predicate ShortBases(w: World, file: string, bases: seq<Option<string>>, steps: seq<PathStep>,
                             seen: Seen, fuel: nat, limit: nat)
    decreases fuel, 1, |bases|
  {
    bases == [] || (
      if bases[0].None? || Resolve(w, file, bases[0].value).None? then
        ShortBases(w, file, bases[1..], steps, seen, fuel, limit)
      else
        var id := Resolve(w, file, bases[0].value).value;
        var a := LookupDecl(w, id, steps, seen, fuel);
        && ShortDecl(w, id, steps, seen, fuel, limit)
        && (a.Some? ==> ShortBases(w, file, bases[1..], steps, a.value.seen, fuel, limit)))
  }

  ghost predicate ShortParts(w: World, file: string, parts: seq<Type>, steps: seq<PathStep>,
                             seen: Seen, fuel: nat, limit: nat)
    decreases fuel, 1, |parts|
  {
    parts == [] || (
      var a := LookupType(w, file, parts[0], steps, seen, fuel);
      && ShortType(w, file, parts[0], steps, seen, fuel, limit)
      && (a.Some? ==> ShortParts(w, file, parts[1..], steps, a.value.seen, fuel, limit)))
  }

  ghost predicate ShortType(w: World, file: string, t: Type, steps: seq<PathStep>, seen: Seen, fuel: nat, limit: nat)
    decreases fuel, 0, 0
  {
    fuel == 0 || steps == [] ||
    match t
    case Literal(members) =>
      steps[0].Member? && FindProperty(members, steps[0].name).Some? ==>
        ShortMember(w, file, members, steps, seen, fuel - 1, limit)
    case Parenthesized(inner) => ShortType(w, file, inner, steps, seen, fuel - 1, limit)
    case Intersection(parts) => ShortParts(w, file, parts, steps, seen, fuel - 1, limit)
    case Union(branches) => ShortParts(w, file, branches, steps, seen, fuel - 1, limit)
    case ArrayOf(element) => steps[0].Element? ==> ShortType(w, file, element, steps[1..], seen, fuel - 1, limit)
    case TypeOperator(_, operand) => ShortType(w, file, operand, steps, seen, fuel - 1, limit)
    case Indexed(target, index) =>
      index.Some? ==> ShortType(w, file, target, [Member(index.value)] + steps, seen, fuel - 1, limit)
    case Reference(head, qualified, args) =>
      if IsWrapper(head) && args != [] then ShortType(w, file, args[0], steps, seen, fuel - 1, limit)
      else if IsArrayName(head) && args != [] then
        steps[0].Element? ==> ShortType(w, file, args[0], steps[1..], seen, fuel - 1, limit)
      else
        !qualified && Resolve(w, file, head).Some? ==>
          ShortDecl(w, Resolve(w, file, head).value, steps, seen, fuel - 1, limit)
    case OtherType => true
  }

  // ---------- The stack bound ----------

  /** `size` bounds every declaration, `limit` the steps, `keys` every guard key. */
  datatype Bounds = Bounds(w: World, size: nat, limit: nat, keys: Seen)

  ghost predicate Bounded(b: Bounds) {
    && (forall id :: id in b.w.decls ==> DeclSize(b.w.decls[id]) <= b.size)
    && (forall id, n: nat :: id in b.w.decls && n <= b.limit ==> (id, n) in b.keys)
  }

  /** Stack needed for a node of a size, given the keys not yet guarded. */
  ghost function Need(b: Bounds, seen: Seen, size: nat): nat {
    |b.keys - seen| * (b.size + 1) + size + 1
  }

  /** More guarded keys need no more stack. */
  lemma NeedShrinks(b: Bounds, seen: Seen, seen': Seen, size: nat)
    requires seen <= seen'
    ensures Need(b, seen', size) <= Need(b, seen, size)
  {
    CardinalitySubset(b.keys - seen', b.keys - seen);
    MulLe(|b.keys - seen'|, |b.keys - seen|, b.size + 1);
  }

  lemma MulLe(x: nat, y: nat, z: nat)
    requires x <= y
    ensures x * z <= y * z
  {
  }

  lemma CardinalitySubset<T>(a: set<T>, b: set<T>)
    requires a <= b
    ensures |a| <= |b|
  {
    assert b == a + (b - a);
  }

  /** Guarding a new key pays for a whole declaration. */
  lemma GuardPays(b: Bounds, seen: Seen, key: (DeclId, nat), size: nat)
    requires key in b.keys && key !in seen && size <= b.size
    ensures Need(b, seen + {key}, size) < Need(b, seen, 0)
  {
    var left, left' := b.keys - seen, b.keys - (seen + {key});
    assert left == left' + {key} && key !in left';
    assert |left| == |left'| + 1;
    assert |left| * (b.size + 1) == |left'| * (b.size + 1) + (b.size + 1);
  }

  ghost predicate Answers(r: Option<Answer>, seen: Seen) {
    r.Some? && seen <= r.value.seen
  }

  lemma {:induction false} DeclAnswers(b: Bounds, id: DeclId, steps: seq<PathStep>, seen: Seen, fuel: nat)
    requires Bounded(b) && id in b.w.decls && ShortDecl(b.w, id, steps, seen, fuel, b.limit)
    requires fuel >= Need(b, seen, 0)
    ensures Answers(LookupDecl(b.w, id, steps, seen, fuel), seen)
    decreases fuel, 0, 1
  {
    if b.w.decls[id].Interface? {
      InterfaceAnswers(b, id, steps, seen, fuel);
    } else if b.w.decls[id].Alias? && steps != [] && (id, |steps|) !in seen {
      GuardPays(b, seen, (id, |steps|), DeclSize(b.w.decls[id]));
      TypeAnswers(b, id.file, b.w.decls[id].body, steps, seen + {(id, |steps|)}, fuel - 1);
    }
  }

  lemma {:induction false} InterfaceAnswers(b: Bounds, id: DeclId, steps: seq<PathStep>, seen: Seen, fuel: nat)
    requires Bounded(b) && id in b.w.decls && ShortDecl(b.w, id, steps, seen, fuel, b.limit)
    requires fuel >= Need(b, seen, 0) && b.w.decls[id].Interface?
    ensures Answers(LookupDecl(b.w, id, steps, seen, fuel), seen)
    decreases fuel, 0, 0
  {
    if steps != [] && steps[0].Member? && (id, |steps|) !in seen {
      var members, seen' := b.w.decls[id].members, seen + {(id, |steps|)};
      GuardPays(b, seen, (id, |steps|), DeclSize(b.w.decls[id]));
      if FindProperty(members, steps[0].name).Some? {
        MemberAnswers(b, id.file, members, steps, seen', fuel - 1);
      } else {
        BasesAnswer(b, id.file, b.w.decls[id].bases, steps, seen', fuel - 1);
      }
    }
  }

  lemma {:induction false} MemberMeasures(ms: seq<TypeElement>, text: string)
    requires FindProperty(ms, text).Some? && FindProperty(ms, text).value.annotation.Some?
    ensures Size(FindProperty(ms, text).value.annotation.value) <= MembersSize(ms)
  {
    if !(ms[0].Property? && ms[0].text == text) { MemberMeasures(ms[1..], text); }
  }

  lemma {:induction false} MemberAnswers(b: Bounds, file: string, ms: seq<TypeElement>, steps: seq<PathStep>,
                                         seen: Seen, fuel: nat)
    requires Bounded(b) && steps != [] && steps[0].Member? && FindProperty(ms, steps[0].name).Some?
    requires ShortMember(b.w, file, ms, steps, seen, fuel, b.limit) && fuel >= Need(b, seen, MembersSize(ms))
    ensures Answers(LookupMember(b.w, file, ms, steps, seen, fuel), seen)
    decreases fuel, 1, 0
  {
    var p := FindProperty(ms, steps[0].name).value;
    if |steps| > 1 && p.annotation.Some? {
      MemberMeasures(ms, steps[0].name);
      TypeAnswers(b, file, p.annotation.value, steps[1..], seen, fuel);
    }
  }

  lemma {:induction false} BasesAnswer(b: Bounds, file: string, bases: seq<Option<string>>, steps: seq<PathStep>,
                                       seen: Seen, fuel: nat)
    requires Bounded(b) && ShortBases(b.w, file, bases, steps, seen, fuel, b.limit) && fuel >= Need(b, seen, 0)
    ensures LookupBases(b.w, file, bases, steps, seen, fuel).Some?
    ensures seen <= LookupBases(b.w, file, bases, steps, seen, fuel).value.1
    decreases fuel, 1, |bases|
  {
    if bases != [] {
      var a := Answer(Unknown, seen);
      if bases[0].Some? && Resolve(b.w, file, bases[0].value).Some? {
        var id := Resolve(b.w, file, bases[0].value).value;
        DeclAnswers(b, id, steps, seen, fuel);
        a := LookupDecl(b.w, id, steps, seen, fuel).value;
      }
      NeedShrinks(b, seen, a.seen, 0);
      BasesAnswer(b, file, bases[1..], steps, a.seen, fuel);
    }
  }

  lemma {:induction false} PartsAnswer(b: Bounds, file: string, parts: seq<Type>, steps: seq<PathStep>,
                                       seen: Seen, fuel: nat)
    requires Bounded(b) && ShortParts(b.w, file, parts, steps, seen, fuel, b.limit)
    requires fuel >= Need(b, seen, TypesSize(parts))
    ensures LookupParts(b.w, file, parts, steps, seen, fuel).Some?
    ensures seen <= LookupParts(b.w, file, parts, steps, seen, fuel).value.1
    decreases fuel, 1, |parts|
  {
    if parts != [] {
      TypeAnswers(b, file, parts[0], steps, seen, fuel);
      var a := LookupType(b.w, file, parts[0], steps, seen, fuel).value;
      NeedShrinks(b, seen, a.seen, TypesSize(parts[1..]));
      PartsAnswer(b, file, parts[1..], steps, a.seen, fuel);
    }
  }

  lemma {:induction false} TypeAnswers(b: Bounds, file: string, t: Type, steps: seq<PathStep>, seen: Seen, fuel: nat)
    requires Bounded(b) && ShortType(b.w, file, t, steps, seen, fuel, b.limit) && fuel >= Need(b, seen, Size(t))
    ensures Answers(LookupType(b.w, file, t, steps, seen, fuel), seen)
    decreases fuel, 0, 1
  {
    if steps != [] {
      match t
      case Literal(members) =>
        if steps[0].Member? && FindProperty(members, steps[0].name).Some? {
          MemberAnswers(b, file, members, steps, seen, fuel - 1);
        }
      case Parenthesized(inner) => TypeAnswers(b, file, inner, steps, seen, fuel - 1);
      case Intersection(parts) => PartsAnswer(b, file, parts, steps, seen, fuel - 1);
      case Union(branches) => PartsAnswer(b, file, branches, steps, seen, fuel - 1);
      case ArrayOf(element) =>
        if steps[0].Element? { TypeAnswers(b, file, element, steps[1..], seen, fuel - 1); }
      case TypeOperator(_, operand) => TypeAnswers(b, file, operand, steps, seen, fuel - 1);
      case Indexed(target, index) =>
        if index.Some? { TypeAnswers(b, file, target, [Member(index.value)] + steps, seen, fuel - 1); }
      case Reference(head, qualified, args) => ReferenceAnswers(b, file, t, steps, seen, fuel);
      case OtherType =>
    }
  }

  lemma {:induction false} ReferenceAnswers(b: Bounds, file: string, t: Type, steps: seq<PathStep>,
                                            seen: Seen, fuel: nat)
    requires Bounded(b) && t.Reference? && steps != []
    requires ShortType(b.w, file, t, steps, seen, fuel, b.limit) && fuel >= Need(b, seen, Size(t))
    ensures Answers(LookupType(b.w, file, t, steps, seen, fuel), seen)
    decreases fuel, 0, 0
  {
    if IsWrapper(t.head) && t.args != [] {
      TypeAnswers(b, file, t.args[0], steps, seen, fuel - 1);
    } else if IsArrayName(t.head) && t.args != [] {
      if steps[0].Element? { TypeAnswers(b, file, t.args[0], steps[1..], seen, fuel - 1); }
    } else if !t.qualified && Resolve(b.w, file, t.head).Some? {
      DeclAnswers(b, Resolve(b.w, file, t.head).value, steps, seen, fuel - 1);
    }
  }

  // ---------- A walk that ended ----------

  /** Compared with a walk that answered, one with another stack gives that answer or none. */
  ghost predicate Agrees<T>(enough: bool, r: Option<T>, other: Option<T>) {
    r.Some? && (enough || other.Some? ==> other == r)
  }

  /** Such a walk enters no path longer than its stack allows, with any stack. */
  lemma {:induction false} DeclSettled(w: World, id: DeclId, steps: seq<PathStep>, seen: Seen, fuel: nat,
                                       other: nat, limit: nat)
    requires id in w.decls && LookupDecl(w, id, steps, seen, fuel).Some? && |steps| + fuel <= limit
    ensures ShortDecl(w, id, steps, seen, other, limit)
    ensures Agrees(other >= fuel, LookupDecl(w, id, steps, seen, fuel), LookupDecl(w, id, steps, seen, other))
    decreases fuel, 0, 0
  {
    if other > 0 && steps != [] && !w.decls[id].Enum? && (id, |steps|) !in seen {
      var seen' := seen + {(id, |steps|)};
      match w.decls[id]
      case Alias(body) => TypeSettled(w, id.file, body, steps, seen', fuel - 1, other - 1, limit);
      case Interface(members, bases, _) =>
        if steps[0].Member? {
          if FindProperty(members, steps[0].name).Some? {
            MemberSettled(w, id.file, members, steps, seen', fuel - 1, other - 1, limit);
          } else {
            BasesSettled(w, id.file, bases, steps, seen', fuel - 1, other - 1, limit);
          }
        }
    }
  }

  lemma {:induction false} MemberSettled(w: World, file: string, ms: seq<TypeElement>, steps: seq<PathStep>,
                                         seen: Seen, fuel: nat, other: nat, limit: nat)
    requires steps != [] && steps[0].Member? && FindProperty(ms, steps[0].name).Some?
    requires LookupMember(w, file, ms, steps, seen, fuel).Some? && |steps| + fuel <= limit
    ensures ShortMember(w, file, ms, steps, seen, other, limit)
    ensures Agrees(other >= fuel, LookupMember(w, file, ms, steps, seen, fuel),
                   LookupMember(w, file, ms, steps, seen, other))
    decreases fuel, 1, 0
  {
    var p := FindProperty(ms, steps[0].name).value;
    if |steps| > 1 && p.annotation.Some? {
      TypeSettled(w, file, p.annotation.value, steps[1..], seen, fuel, other, limit);
    }
  }

  lemma {:induction false} BasesSettled(w: World, file: string, bases: seq<Option<string>>, steps: seq<PathStep>,
                                        seen: Seen, fuel: nat, other: nat, limit: nat)
    requires LookupBases(w, file, bases, steps, seen, fuel).Some? && |steps| + fuel <= limit
    ensures ShortBases(w, file, bases, steps, seen, other, limit)
    ensures Agrees(other >= fuel, LookupBases(w, file, bases, steps, seen, fuel),
                   LookupBases(w, file, bases, steps, seen, other))
    decreases fuel, 1, |bases|
  {
    if bases != [] {
      if bases[0].None? || Resolve(w, file, bases[0].value).None? {
        BasesSettled(w, file, bases[1..], steps, seen, fuel, other, limit);
      } else {
        var id := Resolve(w, file, bases[0].value).value;
        DeclSettled(w, id, steps, seen, fuel, other, limit);
        var a := LookupDecl(w, id, steps, seen, fuel).value;
        BasesSettled(w, file, bases[1..], steps, a.seen, fuel, other, limit);
      }
    }
  }

  lemma {:induction false} PartsSettled(w: World, file: string, parts: seq<Type>, steps: seq<PathStep>,
                                        seen: Seen, fuel: nat, other: nat, limit: nat)
    requires LookupParts(w, file, parts, steps, seen, fuel).Some? && |steps| + fuel <= limit
    ensures ShortParts(w, file, parts, steps, seen, other, limit)
    ensures Agrees(other >= fuel, LookupParts(w, file, parts, steps, seen, fuel),
                   LookupParts(w, file, parts, steps, seen, other))
    decreases fuel, 1, |parts|
  {
    if parts != [] {
      TypeSettled(w, file, parts[0], steps, seen, fuel, other, limit);
      var a := LookupType(w, file, parts[0], steps, seen, fuel).value;
      PartsSettled(w, file, parts[1..], steps, a.seen, fuel, other, limit);
    }
  }

  lemma {:induction false} TypeSettled(w: World, file: string, t: Type, steps: seq<PathStep>, seen: Seen, fuel: nat,
                                       other: nat, limit: nat)
    requires LookupType(w, file, t, steps, seen, fuel).Some? && |steps| + fuel <= limit
    ensures ShortType(w, file, t, steps, seen, other, limit)
    ensures Agrees(other >= fuel, LookupType(w, file, t, steps, seen, fuel),
                   LookupType(w, file, t, steps, seen, other))
    decreases fuel, 0, 1
  {
    if other > 0 && steps != [] {
      match t
      case Literal(_) => LiteralSettled(w, file, t, steps, seen, fuel, other, limit);
      case Reference(_, _, _) => ReferenceSettled(w, file, t, steps, seen, fuel, other, limit);
      case OtherType =>
      case _ => PartSettled(w, file, t, steps, seen, fuel, other, limit);
    }
  }

  lemma {:induction false} LiteralSettled(w: World, file: string, t: Type, steps: seq<PathStep>, seen: Seen,
                                          fuel: nat, other: nat, limit: nat)
    requires t.Literal? && steps != []
    requires LookupType(w, file, t, steps, seen, fuel).Some? && |steps| + fuel <= limit
    ensures ShortType(w, file, t, steps, seen, other, limit)
    ensures Agrees(other >= fuel, LookupType(w, file, t, steps, seen, fuel),
                   LookupType(w, file, t, steps, seen, other))
    decreases fuel, 0, 0
  {
    if other > 0 && steps[0].Member? && FindProperty(t.members, steps[0].name).Some? {
      MemberSettled(w, file, t.members, steps, seen, fuel - 1, other - 1, limit);
    }
  }

  lemma {:induction false} PartSettled(w: World, file: string, t: Type, steps: seq<PathStep>, seen: Seen, fuel: nat,
                                       other: nat, limit: nat)
    requires !t.Literal? && !t.Reference? && !t.OtherType? && steps != []
    requires LookupType(w, file, t, steps, seen, fuel).Some? && |steps| + fuel <= limit
    ensures ShortType(w, file, t, steps, seen, other, limit)
    ensures Agrees(other >= fuel, LookupType(w, file, t, steps, seen, fuel),
                   LookupType(w, file, t, steps, seen, other))
    decreases fuel, 0, 0
  {
    if other > 0 {
      match t
      case Parenthesized(inner) => TypeSettled(w, file, inner, steps, seen, fuel - 1, other - 1, limit);
      case Intersection(parts) => PartsSettled(w, file, parts, steps, seen, fuel - 1, other - 1, limit);
      case Union(branches) => PartsSettled(w, file, branches, steps, seen, fuel - 1, other - 1, limit);
      case ArrayOf(element) =>
        if steps[0].Element? { TypeSettled(w, file, element, steps[1..], seen, fuel - 1, other - 1, limit); }
      case TypeOperator(_, operand) => TypeSettled(w, file, operand, steps, seen, fuel - 1, other - 1, limit);
      case Indexed(target, index) =>
        if index.Some? {
          TypeSettled(w, file, target, [Member(index.value)] + steps, seen, fuel - 1, other - 1, limit);
        }
    }
  }

  lemma {:induction false} ReferenceSettled(w: World, file: string, t: Type, steps: seq<PathStep>, seen: Seen,
                                            fuel: nat, other: nat, limit: nat)
    requires t.Reference? && steps != []
    requires LookupType(w, file, t, steps, seen, fuel).Some? && |steps| + fuel <= limit
    ensures ShortType(w, file, t, steps, seen, other, limit)
    ensures Agrees(other >= fuel, LookupType(w, file, t, steps, seen, fuel),
                   LookupType(w, file, t, steps, seen, other))
    decreases fuel, 0, 0
  {
    if other > 0 {
      if IsWrapper(t.head) && t.args != [] {
        TypeSettled(w, file, t.args[0], steps, seen, fuel - 1, other - 1, limit);
      } else if IsArrayName(t.head) && t.args != [] {
        if steps[0].Element? { TypeSettled(w, file, t.args[0], steps[1..], seen, fuel - 1, other - 1, limit); }
      } else if !t.qualified && Resolve(w, file, t.head).Some? {
        DeclSettled(w, Resolve(w, file, t.head).value, steps, seen, fuel - 1, other - 1, limit);
      }
    }
  }

  // ---------- Every lookup ends ----------

  lemma {:induction false} SizeBound(w: World, ids: set<DeclId>) returns (size: nat)
    requires ids <= w.decls.Keys
    ensures forall id :: id in ids ==> DeclSize(w.decls[id]) <= size
    decreases ids
  {
    if ids == {} {
      size := 0;
    } else {
      var id :| id in ids;
      var rest := SizeBound(w, ids - {id});
      size := if DeclSize(w.decls[id]) > rest then DeclSize(w.decls[id]) else rest;
    }
  }

  ghost predicate EndsWithin(w: World, id: DeclId, steps: seq<PathStep>, bound: nat)
    requires id in w.decls
  {
    forall fuel: nat :: fuel >= bound ==> LookupDecl(w, id, steps, {}, fuel).Some?
  }

  /** All guard keys of up to `limit` steps. */
  ghost function Keys(w: World, limit: nat): (keys: Seen)
    ensures forall id, n: nat :: id in w.decls && n <= limit ==> (id, n) in keys
  {
    set d, n: nat | d in w.decls && 0 <= n <= limit :: (d, n)
  }

  /** Whatever the stack, the walk enters no declaration with more than `limit` steps left. */
  ghost predicate StaysWithin(w: World, id: DeclId, steps: seq<PathStep>, limit: nat)
    requires id in w.decls
  {
    forall fuel: nat :: ShortDecl(w, id, steps, {}, fuel, limit)
  }

  /**
   * On every declaration graph, recursive ones included, a lookup ends exactly when the
   * paths it comes to are of bounded length: it fails to end only by growing for ever.
   */
  lemma LookupEndsExactly(w: World, id: DeclId, steps: seq<PathStep>)
    requires id in w.decls
    ensures (exists bound: nat :: EndsWithin(w, id, steps, bound))
            <==> (exists limit: nat :: StaysWithin(w, id, steps, limit))
  {
    if bound: nat :| EndsWithin(w, id, steps, bound) {
      var limit := |steps| + bound;
      forall other: nat ensures ShortDecl(w, id, steps, {}, other, limit) {
        DeclSettled(w, id, steps, {}, bound, other, limit);
      }
      assert StaysWithin(w, id, steps, limit);
    }
    if limit: nat :| StaysWithin(w, id, steps, limit) { ShortEnds(w, id, steps, limit); }
  }

  lemma ShortEnds(w: World, id: DeclId, steps: seq<PathStep>, limit: nat)
    requires id in w.decls && StaysWithin(w, id, steps, limit)
    ensures exists bound: nat :: EndsWithin(w, id, steps, bound)
  {
    var size := SizeBound(w, w.decls.Keys);
    var b := Bounds(w, size, limit, Keys(w, limit));
    var bound := Need(b, {}, 0);
    forall fuel: nat | fuel >= bound ensures LookupDecl(w, id, steps, {}, fuel).Some? {
      DeclAnswers(b, id, steps, {}, fuel);
    }
    assert EndsWithin(w, id, steps, bound);
  }

  // ---------- A set of paths the walk does not leave ----------

  /** Declarations with the steps left on entering them. */
  type Paths = iset<(DeclId, seq<PathStep>)>

  /** From a type with these steps left, the walk comes only to declarations of the set. */
  ghost predicate LeadsInto(w: World, r: Paths, file: string, t: Type, steps: seq<PathStep>)
    decreases t
  {
    steps == [] ||
    match t
    case Literal(members) => steps[0].Member? ==> MemberLeadsInto(w, r, file, members, steps)
    case Parenthesized(inner) => LeadsInto(w, r, file, inner, steps)
    case Intersection(parts) => forall i :: 0 <= i < |parts| ==> LeadsInto(w, r, file, parts[i], steps)
    case Union(branches) => forall i :: 0 <= i < |branches| ==> LeadsInto(w, r, file, branches[i], steps)
    case ArrayOf(element) => steps[0].Element? ==> LeadsInto(w, r, file, element, steps[1..])
    case TypeOperator(_, operand) => LeadsInto(w, r, file, operand, steps)
    case Indexed(target, index) => index.Some? ==> LeadsInto(w, r, file, target, [Member(index.value)] + steps)
    case Reference(head, qualified, args) =>
      if IsWrapper(head) && args != [] then LeadsInto(w, r, file, args[0], steps)
      else if IsArrayName(head) && args != [] then steps[0].Element? ==> LeadsInto(w, r, file, args[0], steps[1..])
      else !qualified ==> NameLeadsInto(w, r, file, head, steps)
    case OtherType => true
  }

  /** Only the property with the wanted text is followed. */
  ghost predicate MemberLeadsInto(w: World, r: Paths, file: string, members: seq<TypeElement>, steps: seq<PathStep>)
    requires steps != [] && steps[0].Member?
    decreases members
  {
    var p := FindProperty(members, steps[0].name);
    p.Some? && p.value.annotation.Some? ==> LeadsInto(w, r, file, p.value.annotation.value, steps[1..])
  }

  ghost predicate NameLeadsInto(w: World, r: Paths, file: string, name: string, steps: seq<PathStep>) {
    Resolve(w, file, name).Some? ==> (Resolve(w, file, name).value, steps) in r
  }

  ghost predicate BasesLeadInto(w: World, r: Paths, file: string, bases: seq<Option<string>>, steps: seq<PathStep>) {
    forall i :: 0 <= i < |bases| && bases[i].Some? ==> NameLeadsInto(w, r, file, bases[i].value, steps)
  }

  ghost predicate DeclLeadsInto(w: World, r: Paths, id: DeclId, steps: seq<PathStep>)
    requires id in w.decls
  {
    steps == [] ||
    match w.decls[id]
    case Enum => true
    case Alias(body) => LeadsInto(w, r, id.file, body, steps)
    case Interface(members, bases, _) =>
      steps[0].Member? ==>
        if FindProperty(members, steps[0].name).Some? then MemberLeadsInto(w, r, id.file, members, steps)
        else BasesLeadInto(w, r, id.file, bases, steps)
  }

  /** The set is closed under the references the walk takes, and its paths are of bounded length. */
  ghost predicate Closed(w: World, r: Paths, limit: nat) {
    forall c :: c in r ==> |c.1| <= limit && c.0 in w.decls && DeclLeadsInto(w, r, c.0, c.1)
  }

  lemma {:induction false} DeclStays(w: World, r: Paths, limit: nat, id: DeclId, steps: seq<PathStep>, seen: Seen,
                                     fuel: nat)
    requires Closed(w, r, limit) && (id, steps) in r
    ensures id in w.decls && ShortDecl(w, id, steps, seen, fuel, limit)
    decreases fuel, 0, 0
  {
    assert DeclLeadsInto(w, r, (id, steps).0, (id, steps).1);
    if fuel > 0 && steps != [] {
      var seen' := seen + {(id, |steps|)};
      match w.decls[id]
      case Enum =>
      case Alias(body) => TypeStays(w, r, limit, id.file, body, steps, seen', fuel - 1);
      case Interface(members, bases, _) =>
        if steps[0].Member? {
          if FindProperty(members, steps[0].name).Some? {
            MemberStays(w, r, limit, id.file, members, steps, seen', fuel - 1);
          } else {
            BasesStay(w, r, limit, id.file, bases, steps, seen', fuel - 1);
          }
        }
    }
  }

  lemma {:induction false} MemberStays(w: World, r: Paths, limit: nat, file: string, ms: seq<TypeElement>,
                                       steps: seq<PathStep>, seen: Seen, fuel: nat)
    requires Closed(w, r, limit) && steps != [] && steps[0].Member? && FindProperty(ms, steps[0].name).Some?
    requires MemberLeadsInto(w, r, file, ms, steps)
    ensures ShortMember(w, file, ms, steps, seen, fuel, limit)
    decreases fuel, 1, 0
  {
    var p := FindProperty(ms, steps[0].name).value;
    if p.annotation.Some? { TypeStays(w, r, limit, file, p.annotation.value, steps[1..], seen, fuel); }
  }

  lemma {:induction false} BasesStay(w: World, r: Paths, limit: nat, file: string, bases: seq<Option<string>>,
                                     steps: seq<PathStep>, seen: Seen, fuel: nat)
    requires Closed(w, r, limit) && BasesLeadInto(w, r, file, bases, steps)
    ensures ShortBases(w, file, bases, steps, seen, fuel, limit)
    decreases fuel, 1, |bases|
  {
    if bases != [] {
      if bases[0].None? || Resolve(w, file, bases[0].value).None? {
        BasesStay(w, r, limit, file, bases[1..], steps, seen, fuel);
      } else {
        var id := Resolve(w, file, bases[0].value).value;
        assert NameLeadsInto(w, r, file, bases[0].value, steps);
        DeclStays(w, r, limit, id, steps, seen, fuel);
        var a := LookupDecl(w, id, steps, seen, fuel);
        if a.Some? { BasesStay(w, r, limit, file, bases[1..], steps, a.value.seen, fuel); }
      }
    }
  }

  lemma {:induction false} PartsStay(w: World, r: Paths, limit: nat, file: string, parts: seq<Type>,
                                     steps: seq<PathStep>, seen: Seen, fuel: nat)
    requires Closed(w, r, limit) && forall i :: 0 <= i < |parts| ==> LeadsInto(w, r, file, parts[i], steps)
    ensures ShortParts(w, file, parts, steps, seen, fuel, limit)
    decreases fuel, 1, |parts|
  {
    if parts != [] {
      TypeStays(w, r, limit, file, parts[0], steps, seen, fuel);
      var a := LookupType(w, file, parts[0], steps, seen, fuel);
      if a.Some? { PartsStay(w, r, limit, file, parts[1..], steps, a.value.seen, fuel); }
    }
  }

  lemma {:induction false} TypeStays(w: World, r: Paths, limit: nat, file: string, t: Type, steps: seq<PathStep>,
                                     seen: Seen, fuel: nat)
    requires Closed(w, r, limit) && LeadsInto(w, r, file, t, steps)
    ensures ShortType(w, file, t, steps, seen, fuel, limit)
    decreases fuel, 0, 1
  {
    if fuel > 0 && steps != [] {
      match t
      case Literal(members) =>
        if steps[0].Member? && FindProperty(members, steps[0].name).Some? {
          MemberStays(w, r, limit, file, members, steps, seen, fuel - 1);
        }
      case Parenthesized(inner) => TypeStays(w, r, limit, file, inner, steps, seen, fuel - 1);
      case Intersection(parts) => PartsStay(w, r, limit, file, parts, steps, seen, fuel - 1);
      case Union(branches) => PartsStay(w, r, limit, file, branches, steps, seen, fuel - 1);
      case ArrayOf(element) =>
        if steps[0].Element? { TypeStays(w, r, limit, file, element, steps[1..], seen, fuel - 1); }
      case TypeOperator(_, operand) => TypeStays(w, r, limit, file, operand, steps, seen, fuel - 1);
      case Indexed(target, index) =>
        if index.Some? { TypeStays(w, r, limit, file, target, [Member(index.value)] + steps, seen, fuel - 1); }
      case Reference(head, qualified, args) =>
        if IsWrapper(head) && args != [] {
          TypeStays(w, r, limit, file, args[0], steps, seen, fuel - 1);
        } else if IsArrayName(head) && args != [] {
          if steps[0].Element? { TypeStays(w, r, limit, file, args[0], steps[1..], seen, fuel - 1); }
        } else if !qualified && Resolve(w, file, head).Some? {
          DeclStays(w, r, limit, Resolve(w, file, head).value, steps, seen, fuel - 1);
        }
      case OtherType =>
    }
  }

  /**
   * A lookup ends whenever some set of paths of bounded length holds it and is closed
   * under the references the walk takes, whatever else is declared.
   */
  lemma LookupEnds(w: World, r: Paths, limit: nat, id: DeclId, steps: seq<PathStep>)
    requires Closed(w, r, limit) && (id, steps) in r
    ensures id in w.decls && exists bound: nat :: EndsWithin(w, id, steps, bound)
  {
    forall fuel: nat ensures id in w.decls && ShortDecl(w, id, steps, {}, fuel, limit) {
      DeclStays(w, r, limit, id, steps, {}, fuel);
    }
    ShortEnds(w, id, steps, limit);
  }
}
