/**
 * What the declarations of `scripts/gen-config-catalog.ts` say about a schema path:
 * in which views of a type the path is contained.
 */
module ConfigMeaning {
  import opened Wrappers
  import opened ConfigLookup

  // ---------- What a type contains ----------

  /**
   * One way a value of the type can look: the branch it takes at each union, and
   * what is behind everything the declarations do not say.
   */
  datatype View = View(
    branch: (string, Type, seq<PathStep>) -> nat,
    unseenType: (string, Type, seq<PathStep>) -> bool,
    unseenDecl: (DeclId, seq<PathStep>) -> bool,
    unseenBase: (string, Option<string>, seq<PathStep>) -> bool,
    unseenMember: (string, seq<TypeElement>, seq<PathStep>) -> bool)

  /** The first property that declares this name. */
  function PropertyNamed(members: seq<TypeElement>, name: string): (r: Option<TypeElement>)
    ensures r.Some? ==> r.value in members && r.value.Property?
  {
    if members == [] then None
    else if members[0].Property? && members[0].name == name then Some(members[0])
    else PropertyNamed(members[1..], name)
  }

  /** Whether a view of the declaration contains the path, seen within `n` unfoldings. */
  ghost predicate HasDecl(w: World, v: View, id: DeclId, steps: seq<PathStep>, n: nat)
    requires id in w.decls
    decreases n, 1
  {
    n > 0 && (steps == [] ||
      match w.decls[id]
      case Enum => v.unseenDecl(id, steps)
      case Alias(body) => HasType(w, v, id.file, body, steps, n - 1)
      case Interface(members, bases, merged) =>
        if steps[0].Element? then v.unseenDecl(id, steps)
        else if PropertyNamed(members, steps[0].name).Some? then HasMember(w, v, id.file, members, steps, n - 1)
        else
          || HasMember(w, v, id.file, members, steps, n - 1)
          || (exists i :: 0 <= i < |bases| && HasBase(w, v, id.file, bases[i], steps, n - 1))
          || MergedHas(w, v, merged, steps, n - 1))
  }

  /** Interfaces of one name are one type: a later one counts like the first. */
  ghost predicate MergedHas(w: World, v: View, merged: seq<DeclId>, steps: seq<PathStep>, n: nat)
    decreases n, 2
  {
    exists i :: 0 <= i < |merged| && merged[i] in w.decls && HasDecl(w, v, merged[i], steps, n)
  }

  ghost predicate HasBase(w: World, v: View, file: string, base: Option<string>, steps: seq<PathStep>, n: nat)
    decreases n, 2
  {
    if base.None? || Resolve(w, file, base.value).None? then v.unseenBase(file, base, steps)
    else HasDecl(w, v, Resolve(w, file, base.value).value, steps, n)
  }

  /** A property decides by its annotation; a method has its name; an index signature may have any. */
  ghost predicate HasMember(w: World, v: View, file: string, members: seq<TypeElement>, steps: seq<PathStep>, n: nat)
    requires steps != [] && steps[0].Member?
    decreases n, 2
  {
    match PropertyNamed(members, steps[0].name)
    case Some(p) =>
      |steps| == 1
      || (match p.annotation
          case None => v.unseenMember(file, members, steps)
          case Some(t) => HasType(w, v, file, t, steps[1..], n))
    case None =>
      || (OtherNamed(steps[0].name) in members && (|steps| == 1 || v.unseenMember(file, members, steps)))
      || (IndexSignature in members && v.unseenMember(file, members, steps))
  }

  /** Whether a view of the type contains the path, seen within `n` unfoldings. */
  ghost predicate HasType(w: World, v: View, file: string, t: Type, steps: seq<PathStep>, n: nat)
    decreases n, 1
  {
    n > 0 && (steps == [] ||
      match t
      case Literal(members) => if steps[0].Element? then v.unseenType(file, t, steps)
          else HasMember(w, v, file, members, steps, n - 1)
      case Parenthesized(inner) => HasType(w, v, file, inner, steps, n - 1)
      case Intersection(parts) => SomeHas(w, v, file, parts, steps, n - 1)
      case Union(branches) =>
        branches == [] || HasType(w, v, file, branches[v.branch(file, t, steps) % |branches|], steps, n - 1)
      case ArrayOf(element) => if steps[0].Element? then HasType(w, v, file, element, steps[1..], n - 1)
          else v.unseenType(file, t, steps)
      case TypeOperator(op, operand) =>
        if op == KeyOf then v.unseenType(file, t, steps) else HasType(w, v, file, operand, steps, n - 1)
      case Indexed(target, index) =>
        if index.Some? then HasType(w, v, file, target, [Member(index.value)] + steps, n - 1)
            else v.unseenType(file, t, steps)
      case Reference(head, qualified, args) =>
        if qualified then v.unseenType(file, t, steps)
        else if Resolve(w, file, head).Some? then HasDecl(w, v, Resolve(w, file, head).value, steps, n - 1)
        else if IsWrapper(head) && args != [] then HasType(w, v, file, args[0], steps, n - 1)
        else if IsArrayName(head) && args != [] then
          if steps[0].Element? then HasType(w, v, file, args[0], steps[1..], n - 1) else v.unseenType(file, t, steps)
        else v.unseenType(file, t, steps)
      case OtherType => v.unseenType(file, t, steps))
  }

  ghost predicate SomeHas(w: World, v: View, file: string, ts: seq<Type>, steps: seq<PathStep>, n: nat)
    decreases n, 2
  {
    exists i :: 0 <= i < |ts| && HasType(w, v, file, ts[i], steps, n)
  }

  ghost predicate Contains(w: World, v: View, id: DeclId, steps: seq<PathStep>)
    requires id in w.decls
  {
    exists n: nat :: HasDecl(w, v, id, steps, n)
  }

  ghost predicate TypeContains(w: World, v: View, file: string, t: Type, steps: seq<PathStep>) {
    exists n: nat :: HasType(w, v, file, t, steps, n)
  }

  // ---------- What every view and some view contains ----------

  /**
   * The same without a view.  With `may`, some branch of a union will do and what the
   * declarations do not say counts as contained; without, neither.
   */
  ghost predicate DeclTold(w: World, may: bool, id: DeclId, steps: seq<PathStep>, n: nat)
    requires id in w.decls
    decreases n, 1
  {
    n > 0 && (steps == [] ||
      match w.decls[id]
      case Enum => may
      case Alias(body) => TypeTold(w, may, id.file, body, steps, n - 1)
      case Interface(members, bases, merged) =>
        if steps[0].Element? then may
        else
          || MemberTold(w, may, id.file, members, steps, n - 1)
          || (PropertyNamed(members, steps[0].name).None?
              && ((exists i :: 0 <= i < |bases| && BaseTold(w, may, id.file, bases[i], steps, n - 1))
                  || MergedTold(w, may, merged, steps, n - 1))))
  }

  ghost predicate MergedTold(w: World, may: bool, merged: seq<DeclId>, steps: seq<PathStep>, n: nat)
    decreases n, 2
  {
    exists i :: 0 <= i < |merged| && merged[i] in w.decls && DeclTold(w, may, merged[i], steps, n)
  }

  ghost predicate BaseTold(w: World, may: bool, file: string, base: Option<string>, steps: seq<PathStep>, n: nat)
    decreases n, 2
  {
    if base.None? || Resolve(w, file, base.value).None? then may
    else DeclTold(w, may, Resolve(w, file, base.value).value, steps, n)
  }

  ghost predicate MemberTold(w: World, may: bool, file: string, members: seq<TypeElement>, steps: seq<PathStep>, n: nat)
    requires steps != [] && steps[0].Member?
    decreases n, 2
  {
    match PropertyNamed(members, steps[0].name)
    case Some(p) =>
      |steps| == 1
      || (match p.annotation
          case None => may
          case Some(t) => TypeTold(w, may, file, t, steps[1..], n))
    case None =>
      || (OtherNamed(steps[0].name) in members && (|steps| == 1 || may))
      || (IndexSignature in members && may)
  }

  ghost predicate TypeTold(w: World, may: bool, file: string, t: Type, steps: seq<PathStep>, n: nat)
    decreases n, 1
  {
    n > 0 && (steps == [] ||
      match t
      case Literal(members) => if steps[0].Element? then may else MemberTold(w, may, file, members, steps, n - 1)
      case Parenthesized(inner) => TypeTold(w, may, file, inner, steps, n - 1)
      case Intersection(parts) => SomeTold(w, may, file, parts, steps, n - 1)
      case Union(branches) =>
        branches == []
        || if may then SomeTold(w, may, file, branches, steps, n - 1)
            else EachTold(w, may, file, branches, steps, n - 1)
      case ArrayOf(element) => if steps[0].Element? then TypeTold(w, may, file, element, steps[1..], n - 1) else may
      case TypeOperator(op, operand) => if op == KeyOf then may else TypeTold(w, may, file, operand, steps, n - 1)
      case Indexed(target, index) =>
        if index.Some? then TypeTold(w, may, file, target, [Member(index.value)] + steps, n - 1) else may
      case Reference(head, qualified, args) =>
        if qualified then may
        else if Resolve(w, file, head).Some? then DeclTold(w, may, Resolve(w, file, head).value, steps, n - 1)
        else if IsWrapper(head) && args != [] then TypeTold(w, may, file, args[0], steps, n - 1)
        else if IsArrayName(head) && args != [] then
          if steps[0].Element? then TypeTold(w, may, file, args[0], steps[1..], n - 1) else may
        else may
      case OtherType => may)
  }

  ghost predicate SomeTold(w: World, may: bool, file: string, ts: seq<Type>, steps: seq<PathStep>, n: nat)
    decreases n, 2
  {
    exists i :: 0 <= i < |ts| && TypeTold(w, may, file, ts[i], steps, n)
  }

  ghost predicate EachTold(w: World, may: bool, file: string, ts: seq<Type>, steps: seq<PathStep>, n: nat)
    decreases n, 2
  {
    forall i :: 0 <= i < |ts| ==> TypeTold(w, may, file, ts[i], steps, n)
  }

  // ---------- More unfoldings tell no less ----------

  lemma {:induction false} DeclMore(w: World, may: bool, id: DeclId, steps: seq<PathStep>, n: nat, m: nat)
    requires id in w.decls && n <= m && DeclTold(w, may, id, steps, n)
    ensures DeclTold(w, may, id, steps, m)
    decreases n, 1
  {
    if steps != [] {
      match w.decls[id]
      case Enum =>
      case Alias(body) => TypeMore(w, may, id.file, body, steps, n - 1, m - 1);
      case Interface(members, bases, merged) =>
        if steps[0].Member? {
          if MemberTold(w, may, id.file, members, steps, n - 1) {
            MemberMore(w, may, id.file, members, steps, n - 1, m - 1);
          } else if i :| 0 <= i < |bases| && BaseTold(w, may, id.file, bases[i], steps, n - 1) {
            BaseMore(w, may, id.file, bases[i], steps, n - 1, m - 1);
          } else {
            MergedMore(w, may, merged, steps, n - 1, m - 1);
          }
        }
    }
  }

  lemma {:induction false} MergedMore(w: World, may: bool, merged: seq<DeclId>, steps: seq<PathStep>, n: nat, m: nat)
    requires n <= m && MergedTold(w, may, merged, steps, n)
    ensures MergedTold(w, may, merged, steps, m)
    decreases n, 2
  {
    var i :| 0 <= i < |merged| && merged[i] in w.decls && DeclTold(w, may, merged[i], steps, n);
    DeclMore(w, may, merged[i], steps, n, m);
  }

  lemma {:induction false} BaseMore(w: World, may: bool, file: string, base: Option<string>, steps: seq<PathStep>,
                                    n: nat, m: nat)
    requires n <= m && BaseTold(w, may, file, base, steps, n)
    ensures BaseTold(w, may, file, base, steps, m)
    decreases n, 2
  {
    if base.Some? && Resolve(w, file, base.value).Some? {
      DeclMore(w, may, Resolve(w, file, base.value).value, steps, n, m);
    }
  }

  lemma {:induction false} MemberMore(w: World, may: bool, file: string, members: seq<TypeElement>,
                                      steps: seq<PathStep>,
                                      n: nat, m: nat)
    requires steps != [] && steps[0].Member? && n <= m && MemberTold(w, may, file, members, steps, n)
    ensures MemberTold(w, may, file, members, steps, m)
    decreases n, 2
  {
    var p := PropertyNamed(members, steps[0].name);
    if p.Some? && |steps| > 1 && p.value.annotation.Some? {
      TypeMore(w, may, file, p.value.annotation.value, steps[1..], n, m);
    }
  }

  lemma {:induction false} TypeMore(w: World, may: bool, file: string, t: Type, steps: seq<PathStep>, n: nat, m: nat)
    requires n <= m && TypeTold(w, may, file, t, steps, n)
    ensures TypeTold(w, may, file, t, steps, m)
    decreases n, 1
  {
    if steps != [] {
      match t
      case Literal(members) =>
        if steps[0].Member? { MemberMore(w, may, file, members, steps, n - 1, m - 1); }
      case Parenthesized(inner) => TypeMore(w, may, file, inner, steps, n - 1, m - 1);
      case Intersection(parts) => SomeMore(w, may, file, parts, steps, n - 1, m - 1);
      case Union(branches) =>
        if branches != [] {
          if may {
            SomeMore(w, may, file, branches, steps, n - 1, m - 1);
          } else {
            EachMore(w, may, file, branches, steps, n - 1, m - 1);
          }
        }
      case ArrayOf(element) =>
        if steps[0].Element? { TypeMore(w, may, file, element, steps[1..], n - 1, m - 1); }
      case TypeOperator(op, operand) =>
        if op != KeyOf { TypeMore(w, may, file, operand, steps, n - 1, m - 1); }
      case Indexed(target, index) =>
        if index.Some? { TypeMore(w, may, file, target, [Member(index.value)] + steps, n - 1, m - 1); }
      case Reference(head, qualified, args) =>
        if !qualified {
          if Resolve(w, file, head).Some? {
            DeclMore(w, may, Resolve(w, file, head).value, steps, n - 1, m - 1);
          } else if IsWrapper(head) && args != [] {
            TypeMore(w, may, file, args[0], steps, n - 1, m - 1);
          } else if IsArrayName(head) && args != [] && steps[0].Element? {
            TypeMore(w, may, file, args[0], steps[1..], n - 1, m - 1);
          }
        }
      case OtherType =>
    }
  }

  lemma {:induction false} SomeMore(w: World, may: bool, file: string, ts: seq<Type>, steps: seq<PathStep>, n: nat,
                                    m: nat)
    requires n <= m && SomeTold(w, may, file, ts, steps, n)
    ensures SomeTold(w, may, file, ts, steps, m)
    decreases n, 2
  {
    var i :| 0 <= i < |ts| && TypeTold(w, may, file, ts[i], steps, n);
    TypeMore(w, may, file, ts[i], steps, n, m);
  }

  lemma {:induction false} EachMore(w: World, may: bool, file: string, ts: seq<Type>, steps: seq<PathStep>, n: nat,
                                    m: nat)
    requires n <= m && EachTold(w, may, file, ts, steps, n)
    ensures EachTold(w, may, file, ts, steps, m)
    decreases n, 2
  {
    forall i | 0 <= i < |ts| ensures TypeTold(w, may, file, ts[i], steps, m) {
      TypeMore(w, may, file, ts[i], steps, n, m);
    }
  }

  // ---------- The extreme views ----------

  /** Branch `i` tells first if `may`, and last otherwise. */
  ghost predicate Decides(w: World, may: bool, file: string, branches: seq<Type>, steps: seq<PathStep>, i: nat) {
    i < |branches| && forall j, n: nat :: 0 <= j < |branches| ==>
      if may then TypeTold(w, may, file, branches[j], steps, n) ==> TypeTold(w, may, file, branches[i], steps, n)
      else TypeTold(w, may, file, branches[i], steps, n) ==> TypeTold(w, may, file, branches[j], steps, n)
  }

  /** One of two types tells no later than the other. */
  ghost predicate NoLater(w: World, may: bool, file: string, a: Type, b: Type, steps: seq<PathStep>) {
    forall n: nat :: TypeTold(w, may, file, b, steps, n) ==> TypeTold(w, may, file, a, steps, n)
  }

  lemma OneIsFirst(w: World, may: bool, file: string, a: Type, b: Type, steps: seq<PathStep>)
    ensures NoLater(w, may, file, a, b, steps) || NoLater(w, may, file, b, a, steps)
  {
    if m: nat :| TypeTold(w, may, file, b, steps, m) && !TypeTold(w, may, file, a, steps, m) {
      forall n: nat | TypeTold(w, may, file, a, steps, n) ensures TypeTold(w, may, file, b, steps, n) {
        if n <= m { TypeMore(w, may, file, a, steps, n, m); }
        TypeMore(w, may, file, b, steps, m, n);
      }
    }
  }

  lemma {:induction false} SomeDecides(w: World, may: bool, file: string, branches: seq<Type>, steps: seq<PathStep>)
    returns (i: nat)
    requires branches != []
    ensures Decides(w, may, file, branches, steps, i)
    decreases |branches|
  {
    var n := |branches| - 1;
    if n == 0 {
      i := 0;
    } else {
      var k := SomeDecides(w, may, file, branches[..n], steps);
      OneIsFirst(w, may, file, branches[k], branches[n], steps);
      var first := NoLater(w, may, file, branches[k], branches[n], steps);
      i := if first == may then k else n;
      forall j, m: nat | 0 <= j < n
        ensures if may then TypeTold(w, may, file, branches[j], steps, m)
                ==> TypeTold(w, may, file, branches[k], steps, m)
                else TypeTold(w, may, file, branches[k], steps, m) ==> TypeTold(w, may, file, branches[j], steps, m)
      {
        assert branches[..n][j] == branches[j];
      }
    }
  }

  ghost function Choice(w: World, may: bool, file: string, t: Type, steps: seq<PathStep>): nat {
    if t.Union? && exists i: nat :: Decides(w, may, file, t.branches, steps, i)
    then var i: nat :| Decides(w, may, file, t.branches, steps, i); i
    else 0
  }

  /** The view in which as much as possible is contained, or as little. */
  ghost function Extreme(w: World, may: bool): View {
    View((file, t, steps) => Choice(w, may, file, t, steps),
         (_, _, _) => may, (_, _) => may, (_, _, _) => may, (_, _, _) => may)
  }

  /** No view contains more than what may be, or less than what must be. */
  predicate Brackets(has: bool, least: bool, most: bool) {
    (least ==> has) && (has ==> most)
  }

  lemma {:induction false} DeclBrackets(w: World, v: View, id: DeclId, steps: seq<PathStep>, n: nat)
    requires id in w.decls
    ensures Brackets(HasDecl(w, v, id, steps, n), DeclTold(w, false, id, steps, n), DeclTold(w, true, id, steps, n))
    decreases n, 1
  {
    if n > 0 && steps != [] {
      match w.decls[id]
      case Enum =>
      case Alias(body) => TypeBrackets(w, v, id.file, body, steps, n - 1);
      case Interface(members, bases, merged) =>
        if steps[0].Member? {
          MemberBrackets(w, v, id.file, members, steps, n - 1);
          MergedBrackets(w, v, merged, steps, n - 1);
          forall i | 0 <= i < |bases|
            ensures Brackets(HasBase(w, v, id.file, bases[i], steps, n - 1),
                             BaseTold(w, false, id.file, bases[i], steps, n - 1),
                             BaseTold(w, true, id.file, bases[i], steps, n - 1))
          {
            BaseBrackets(w, v, id.file, bases[i], steps, n - 1);
          }
        }
    }
  }

  lemma {:induction false} MergedBrackets(w: World, v: View, merged: seq<DeclId>, steps: seq<PathStep>, n: nat)
    ensures Brackets(MergedHas(w, v, merged, steps, n), MergedTold(w, false, merged, steps, n),
            MergedTold(w, true, merged, steps, n))
    decreases n, 2
  {
    forall i | 0 <= i < |merged| && merged[i] in w.decls
      ensures Brackets(HasDecl(w, v, merged[i], steps, n), DeclTold(w, false, merged[i], steps, n),
                       DeclTold(w, true, merged[i], steps, n))
    {
      DeclBrackets(w, v, merged[i], steps, n);
    }
  }

  lemma {:induction false} BaseBrackets(w: World, v: View, file: string, base: Option<string>, steps: seq<PathStep>,
                                        n: nat)
    ensures Brackets(HasBase(w, v, file, base, steps, n), BaseTold(w, false, file, base, steps, n),
            BaseTold(w, true, file, base, steps, n))
    decreases n, 2
  {
    if base.Some? && Resolve(w, file, base.value).Some? {
      DeclBrackets(w, v, Resolve(w, file, base.value).value, steps, n);
    }
  }

  lemma {:induction false} MemberBrackets(w: World, v: View, file: string, members: seq<TypeElement>,
                                          steps: seq<PathStep>, n: nat)
    requires steps != [] && steps[0].Member?
    ensures Brackets(HasMember(w, v, file, members, steps, n), MemberTold(w, false, file, members, steps, n),
            MemberTold(w, true, file, members, steps, n))
    decreases n, 2
  {
    var p := PropertyNamed(members, steps[0].name);
    if p.Some? && |steps| > 1 && p.value.annotation.Some? {
      TypeBrackets(w, v, file, p.value.annotation.value, steps[1..], n);
    }
  }

  lemma {:induction false} TypeBrackets(w: World, v: View, file: string, t: Type, steps: seq<PathStep>, n: nat)
    ensures Brackets(HasType(w, v, file, t, steps, n), TypeTold(w, false, file, t, steps, n),
            TypeTold(w, true, file, t, steps, n))
    decreases n, 1
  {
    if n > 0 && steps != [] {
      match t
      case Literal(members) =>
        if steps[0].Member? { MemberBrackets(w, v, file, members, steps, n - 1); }
      case Parenthesized(inner) => TypeBrackets(w, v, file, inner, steps, n - 1);
      case Intersection(parts) => PartsBrackets(w, v, file, parts, steps, n - 1);
      case Union(branches) =>
        if branches != [] {
          var i := v.branch(file, t, steps) % |branches|;
          TypeBrackets(w, v, file, branches[i], steps, n - 1);
          if EachTold(w, false, file, branches, steps, n - 1) {
            assert TypeTold(w, false, file, branches[i], steps, n - 1);
          }
          if TypeTold(w, true, file, branches[i], steps, n - 1) {
            assert SomeTold(w, true, file, branches, steps, n - 1);
          }
        }
      case ArrayOf(element) =>
        if steps[0].Element? { TypeBrackets(w, v, file, element, steps[1..], n - 1); }
      case TypeOperator(op, operand) =>
        if op != KeyOf { TypeBrackets(w, v, file, operand, steps, n - 1); }
      case Indexed(target, index) =>
        if index.Some? { TypeBrackets(w, v, file, target, [Member(index.value)] + steps, n - 1); }
      case Reference(head, qualified, args) =>
        if !qualified {
          if Resolve(w, file, head).Some? {
            DeclBrackets(w, v, Resolve(w, file, head).value, steps, n - 1);
          } else if IsWrapper(head) && args != [] {
            TypeBrackets(w, v, file, args[0], steps, n - 1);
          } else if IsArrayName(head) && args != [] && steps[0].Element? {
            TypeBrackets(w, v, file, args[0], steps[1..], n - 1);
          }
        }
      case OtherType =>
    }
  }

  lemma {:induction false} PartsBrackets(w: World, v: View, file: string, ts: seq<Type>, steps: seq<PathStep>, n: nat)
    ensures forall i :: 0 <= i < |ts| ==>
              Brackets(HasType(w, v, file, ts[i], steps, n), TypeTold(w, false, file, ts[i], steps, n),
                TypeTold(w, true, file, ts[i], steps, n))
    ensures Brackets(SomeHas(w, v, file, ts, steps, n), SomeTold(w, false, file, ts, steps, n),
            SomeTold(w, true, file, ts, steps, n))
    decreases n, 2
  {
    forall i | 0 <= i < |ts|
      ensures Brackets(HasType(w, v, file, ts[i], steps, n), TypeTold(w, false, file, ts[i], steps, n),
                       TypeTold(w, true, file, ts[i], steps, n))
    {
      TypeBrackets(w, v, file, ts[i], steps, n);
    }
  }

  // ---------- The extreme views are views ----------

  lemma {:induction false} DeclExtreme(w: World, may: bool, id: DeclId, steps: seq<PathStep>, n: nat)
    requires id in w.decls
    ensures HasDecl(w, Extreme(w, may), id, steps, n) == DeclTold(w, may, id, steps, n)
    decreases n, 1
  {
    if n > 0 && steps != [] {
      match w.decls[id]
      case Enum =>
      case Alias(body) => TypeExtreme(w, may, id.file, body, steps, n - 1);
      case Interface(members, bases, merged) =>
        if steps[0].Member? {
          MemberExtreme(w, may, id.file, members, steps, n - 1);
          MergedExtreme(w, may, merged, steps, n - 1);
          forall i | 0 <= i < |bases|
            ensures HasBase(w, Extreme(w, may), id.file, bases[i], steps, n - 1)
                    == BaseTold(w, may, id.file, bases[i], steps, n - 1)
          {
            BaseExtreme(w, may, id.file, bases[i], steps, n - 1);
          }
        }
    }
  }

  lemma {:induction false} MergedExtreme(w: World, may: bool, merged: seq<DeclId>, steps: seq<PathStep>, n: nat)
    ensures MergedHas(w, Extreme(w, may), merged, steps, n) == MergedTold(w, may, merged, steps, n)
    decreases n, 2
  {
    forall i | 0 <= i < |merged| && merged[i] in w.decls
      ensures HasDecl(w, Extreme(w, may), merged[i], steps, n) == DeclTold(w, may, merged[i], steps, n)
    {
      DeclExtreme(w, may, merged[i], steps, n);
    }
  }

  lemma {:induction false} BaseExtreme(w: World, may: bool, file: string, base: Option<string>, steps: seq<PathStep>,
                                       n: nat)
    ensures HasBase(w, Extreme(w, may), file, base, steps, n) == BaseTold(w, may, file, base, steps, n)
    decreases n, 2
  {
    if base.Some? && Resolve(w, file, base.value).Some? {
      DeclExtreme(w, may, Resolve(w, file, base.value).value, steps, n);
    }
  }

  lemma {:induction false} MemberExtreme(w: World, may: bool, file: string, members: seq<TypeElement>,
                                         steps: seq<PathStep>, n: nat)
    requires steps != [] && steps[0].Member?
    ensures HasMember(w, Extreme(w, may), file, members, steps, n) == MemberTold(w, may, file, members, steps, n)
    decreases n, 2
  {
    var p := PropertyNamed(members, steps[0].name);
    if p.Some? && |steps| > 1 && p.value.annotation.Some? {
      TypeExtreme(w, may, file, p.value.annotation.value, steps[1..], n);
    }
  }

  lemma {:induction false} TypeExtreme(w: World, may: bool, file: string, t: Type, steps: seq<PathStep>, n: nat)
    ensures HasType(w, Extreme(w, may), file, t, steps, n) == TypeTold(w, may, file, t, steps, n)
    decreases n, 1
  {
    if n > 0 && steps != [] {
      match t
      case Literal(members) =>
        if steps[0].Member? { MemberExtreme(w, may, file, members, steps, n - 1); }
      case Parenthesized(inner) => TypeExtreme(w, may, file, inner, steps, n - 1);
      case Intersection(parts) => PartsExtreme(w, may, file, parts, steps, n - 1);
      case Union(branches) =>
        UnionExtreme(w, may, file, t, steps, n);
      case ArrayOf(element) =>
        if steps[0].Element? { TypeExtreme(w, may, file, element, steps[1..], n - 1); }
      case TypeOperator(op, operand) =>
        if op != KeyOf { TypeExtreme(w, may, file, operand, steps, n - 1); }
      case Indexed(target, index) =>
        if index.Some? { TypeExtreme(w, may, file, target, [Member(index.value)] + steps, n - 1); }
      case Reference(head, qualified, args) =>
        if !qualified {
          if Resolve(w, file, head).Some? {
            DeclExtreme(w, may, Resolve(w, file, head).value, steps, n - 1);
          } else if IsWrapper(head) && args != [] {
            TypeExtreme(w, may, file, args[0], steps, n - 1);
          } else if IsArrayName(head) && args != [] && steps[0].Element? {
            TypeExtreme(w, may, file, args[0], steps[1..], n - 1);
          }
        }
      case OtherType =>
    }
  }

  lemma {:induction false} PartsExtreme(w: World, may: bool, file: string, ts: seq<Type>, steps: seq<PathStep>, n: nat)
    ensures forall i :: 0 <= i < |ts| ==>
              HasType(w, Extreme(w, may), file, ts[i], steps, n) == TypeTold(w, may, file, ts[i], steps, n)
    ensures SomeHas(w, Extreme(w, may), file, ts, steps, n) == SomeTold(w, may, file, ts, steps, n)
    decreases n, 2
  {
    forall i | 0 <= i < |ts|
      ensures HasType(w, Extreme(w, may), file, ts[i], steps, n) == TypeTold(w, may, file, ts[i], steps, n)
    {
      TypeExtreme(w, may, file, ts[i], steps, n);
    }
  }

  lemma {:induction false} UnionExtreme(w: World, may: bool, file: string, t: Type, steps: seq<PathStep>, n: nat)
    requires t.Union? && steps != [] && n > 0
    ensures HasType(w, Extreme(w, may), file, t, steps, n) == TypeTold(w, may, file, t, steps, n)
    decreases n, 0
  {
    if t.branches != [] {
      var k := SomeDecides(w, may, file, t.branches, steps);
      var i := Choice(w, may, file, t, steps);
      assert Decides(w, may, file, t.branches, steps, i);
      assert i % |t.branches| == i;
      TypeExtreme(w, may, file, t.branches[i], steps, n - 1);
    }
  }

  // ---------- What is told at all ----------

  ghost predicate DeclIs(w: World, may: bool, id: DeclId, steps: seq<PathStep>)
    requires id in w.decls
  {
    exists n: nat :: DeclTold(w, may, id, steps, n)
  }

  ghost predicate BaseIs(w: World, may: bool, file: string, base: Option<string>, steps: seq<PathStep>) {
    exists n: nat :: BaseTold(w, may, file, base, steps, n)
  }

  ghost predicate MemberIs(w: World, may: bool, file: string, members: seq<TypeElement>, steps: seq<PathStep>)
    requires steps != [] && steps[0].Member?
  {
    exists n: nat :: MemberTold(w, may, file, members, steps, n)
  }

  ghost predicate TypeIs(w: World, may: bool, file: string, t: Type, steps: seq<PathStep>) {
    exists n: nat :: TypeTold(w, may, file, t, steps, n)
  }

  /** What must be there is in every view, and what may be there in some view. */
  lemma TypeMeaning(w: World, file: string, t: Type, steps: seq<PathStep>)
    ensures TypeIs(w, false, file, t, steps) <==> forall v :: TypeContains(w, v, file, t, steps)
    ensures TypeIs(w, true, file, t, steps) <==> exists v :: TypeContains(w, v, file, t, steps)
  {
    forall v
      ensures Brackets(TypeContains(w, v, file, t, steps), TypeIs(w, false, file, t, steps),
              TypeIs(w, true, file, t, steps))
    {
      forall n: nat { TypeBrackets(w, v, file, t, steps, n); }
    }
    TypeExtremely(w, false, file, t, steps);
    TypeExtremely(w, true, file, t, steps);
  }

  lemma TypeExtremely(w: World, may: bool, file: string, t: Type, steps: seq<PathStep>)
    ensures TypeContains(w, Extreme(w, may), file, t, steps) == TypeIs(w, may, file, t, steps)
  {
    forall n: nat { TypeExtreme(w, may, file, t, steps, n); }
  }

  lemma DeclMeaning(w: World, id: DeclId, steps: seq<PathStep>)
    requires id in w.decls
    ensures DeclIs(w, false, id, steps) <==> forall v :: Contains(w, v, id, steps)
    ensures DeclIs(w, true, id, steps) <==> exists v :: Contains(w, v, id, steps)
  {
    forall v ensures Brackets(Contains(w, v, id, steps), DeclIs(w, false, id, steps), DeclIs(w, true, id, steps)) {
      forall n: nat { DeclBrackets(w, v, id, steps, n); }
    }
    DeclExtremely(w, false, id, steps);
    DeclExtremely(w, true, id, steps);
  }

  lemma DeclExtremely(w: World, may: bool, id: DeclId, steps: seq<PathStep>)
    requires id in w.decls
    ensures Contains(w, Extreme(w, may), id, steps) == DeclIs(w, may, id, steps)
  {
    forall n: nat { DeclExtreme(w, may, id, steps, n); }
  }

  // ---------- One unfolding ----------

  ghost predicate SomeIs(w: World, may: bool, file: string, ts: seq<Type>, steps: seq<PathStep>) {
    exists i :: 0 <= i < |ts| && TypeIs(w, may, file, ts[i], steps)
  }

  ghost predicate EachIs(w: World, may: bool, file: string, ts: seq<Type>, steps: seq<PathStep>) {
    forall i :: 0 <= i < |ts| ==> TypeIs(w, may, file, ts[i], steps)
  }

  /** What a type says of a path, in terms of what it refers to. */
  ghost predicate TypeSays(w: World, may: bool, file: string, t: Type, steps: seq<PathStep>) {
    steps == [] ||
    match t
    case Literal(members) => if steps[0].Element? then may else MemberIs(w, may, file, members, steps)
    case Parenthesized(inner) => TypeIs(w, may, file, inner, steps)
    case Intersection(parts) => SomeIs(w, may, file, parts, steps)
    case Union(branches) =>
      branches == [] || if may then SomeIs(w, may, file, branches, steps) else EachIs(w, may, file, branches, steps)
    case ArrayOf(element) => if steps[0].Element? then TypeIs(w, may, file, element, steps[1..]) else may
    case TypeOperator(op, operand) => if op == KeyOf then may else TypeIs(w, may, file, operand, steps)
    case Indexed(target, index) =>
      if index.Some? then TypeIs(w, may, file, target, [Member(index.value)] + steps) else may
    case Reference(head, qualified, args) =>
      if qualified then may
      else if Resolve(w, file, head).Some? then DeclIs(w, may, Resolve(w, file, head).value, steps)
      else if IsWrapper(head) && args != [] then TypeIs(w, may, file, args[0], steps)
      else if IsArrayName(head) && args != [] then
        if steps[0].Element? then TypeIs(w, may, file, args[0], steps[1..]) else may
      else may
    case OtherType => may
  }

  lemma {:induction false} EachTogether(w: World, may: bool, file: string, ts: seq<Type>, steps: seq<PathStep>)
    returns (n: nat)
    requires EachIs(w, may, file, ts, steps)
    ensures EachTold(w, may, file, ts, steps, n)
    decreases |ts|
  {
    if ts == [] {
      n := 0;
    } else {
      assert TypeIs(w, may, file, ts[0], steps);
      var k: nat :| TypeTold(w, may, file, ts[0], steps, k);
      forall i | 0 <= i < |ts[1..]| ensures TypeIs(w, may, file, ts[1..][i], steps) {
        assert TypeIs(w, may, file, ts[i + 1], steps);
      }
      var m := EachTogether(w, may, file, ts[1..], steps);
      n := if k > m then k else m;
      TypeMore(w, may, file, ts[0], steps, k, n);
      EachMore(w, may, file, ts[1..], steps, m, n);
      forall i | 0 <= i < |ts| ensures TypeTold(w, may, file, ts[i], steps, n) {
        if i > 0 { assert TypeTold(w, may, file, ts[1..][i - 1], steps, n); }
      }
    }
  }

  lemma SomeTogether(w: World, may: bool, file: string, ts: seq<Type>, steps: seq<PathStep>)
    ensures SomeIs(w, may, file, ts, steps) <==> exists n: nat :: SomeTold(w, may, file, ts, steps, n)
  {
    if SomeIs(w, may, file, ts, steps) {
      var i :| 0 <= i < |ts| && TypeIs(w, may, file, ts[i], steps);
      var n: nat :| TypeTold(w, may, file, ts[i], steps, n);
      assert SomeTold(w, may, file, ts, steps, n);
    }
    if n: nat :| SomeTold(w, may, file, ts, steps, n) {
      var i :| 0 <= i < |ts| && TypeTold(w, may, file, ts[i], steps, n);
      assert TypeIs(w, may, file, ts[i], steps);
    }
  }

  lemma UnionSays(w: World, may: bool, file: string, t: Type, steps: seq<PathStep>)
    requires t.Union? && steps != []
    ensures TypeIs(w, may, file, t, steps) == TypeSays(w, may, file, t, steps)
  {
    SomeTogether(w, may, file, t.branches, steps);
    if TypeIs(w, may, file, t, steps) {
      var n: nat :| TypeTold(w, may, file, t, steps, n);
      if t.branches != [] && !may {
        assert EachTold(w, may, file, t.branches, steps, n - 1);
        forall i | 0 <= i < |t.branches| ensures TypeIs(w, may, file, t.branches[i], steps) {
          assert TypeTold(w, may, file, t.branches[i], steps, n - 1);
        }
      } else if t.branches != [] {
        assert SomeTold(w, may, file, t.branches, steps, n - 1);
      }
    }
    if TypeSays(w, may, file, t, steps) {
      if t.branches == [] {
        assert TypeTold(w, may, file, t, steps, 1);
      } else if may {
        var n: nat :| SomeTold(w, may, file, t.branches, steps, n);
        assert TypeTold(w, may, file, t, steps, n + 1);
      } else {
        var n := EachTogether(w, may, file, t.branches, steps);
        assert TypeTold(w, may, file, t, steps, n + 1);
      }
    }
  }

  lemma IntersectionSays(w: World, may: bool, file: string, t: Type, steps: seq<PathStep>)
    requires t.Intersection? && steps != []
    ensures TypeIs(w, may, file, t, steps) == TypeSays(w, may, file, t, steps)
  {
    SomeTogether(w, may, file, t.parts, steps);
    if n: nat :| TypeTold(w, may, file, t, steps, n) {
      assert SomeTold(w, may, file, t.parts, steps, n - 1);
    }
    if n: nat :| SomeTold(w, may, file, t.parts, steps, n) {
      assert TypeTold(w, may, file, t, steps, n + 1);
    }
  }

  /** A type is told to have a path exactly when one unfolding says so. */
  lemma TypeUnfolds(w: World, may: bool, file: string, t: Type, steps: seq<PathStep>)
    ensures TypeIs(w, may, file, t, steps) == TypeSays(w, may, file, t, steps)
  {
    if steps == [] {
      assert TypeTold(w, may, file, t, steps, 1);
    } else if t.Union? {
      UnionSays(w, may, file, t, steps);
    } else if t.Intersection? {
      IntersectionSays(w, may, file, t, steps);
    } else {
      if n: nat :| TypeTold(w, may, file, t, steps, n) { TypeTells(w, may, file, t, steps, n); }
      if TypeSays(w, may, file, t, steps) { TypeFolds(w, may, file, t, steps); }
    }
  }

  lemma TypeTells(w: World, may: bool, file: string, t: Type, steps: seq<PathStep>, n: nat)
    requires steps != [] && !t.Union? && !t.Intersection? && TypeTold(w, may, file, t, steps, n)
    ensures TypeSays(w, may, file, t, steps)
  {
    match t
    case Literal(members) =>
      assert steps[0].Member? ==> MemberTold(w, may, file, members, steps, n - 1);
    case Parenthesized(inner) =>
      assert TypeTold(w, may, file, inner, steps, n - 1);
    case ArrayOf(element) =>
      assert steps[0].Element? ==> TypeTold(w, may, file, element, steps[1..], n - 1);
    case TypeOperator(op, operand) =>
      assert op != KeyOf ==> TypeTold(w, may, file, operand, steps, n - 1);
    case Indexed(target, index) =>
      assert index.Some? ==> TypeTold(w, may, file, target, [Member(index.value)] + steps, n - 1);
    case Reference(head, qualified, args) =>
      if !qualified {
        if Resolve(w, file, head).Some? {
          assert DeclTold(w, may, Resolve(w, file, head).value, steps, n - 1);
        } else if IsWrapper(head) && args != [] {
          assert TypeTold(w, may, file, args[0], steps, n - 1);
        } else if IsArrayName(head) && args != [] && steps[0].Element? {
          assert TypeTold(w, may, file, args[0], steps[1..], n - 1);
        }
      }
    case OtherType =>
  }

  lemma TypeFolds(w: World, may: bool, file: string, t: Type, steps: seq<PathStep>)
    requires steps != [] && !t.Union? && !t.Intersection? && TypeSays(w, may, file, t, steps)
    ensures TypeIs(w, may, file, t, steps)
  {
    if !TypeTold(w, may, file, t, steps, 1) {
      match t
      case Literal(members) =>
        var n: nat :| MemberTold(w, may, file, members, steps, n);
        assert TypeTold(w, may, file, t, steps, n + 1);
      case Parenthesized(inner) =>
        var n: nat :| TypeTold(w, may, file, inner, steps, n);
        assert TypeTold(w, may, file, t, steps, n + 1);
      case ArrayOf(element) =>
        var n: nat :| TypeTold(w, may, file, element, steps[1..], n);
        assert TypeTold(w, may, file, t, steps, n + 1);
      case TypeOperator(op, operand) =>
        var n: nat :| TypeTold(w, may, file, operand, steps, n);
        assert TypeTold(w, may, file, t, steps, n + 1);
      case Indexed(target, index) =>
        var n: nat :| TypeTold(w, may, file, target, [Member(index.value)] + steps, n);
        assert TypeTold(w, may, file, t, steps, n + 1);
      case Reference(head, qualified, args) =>
        ReferenceFolds(w, may, file, t, steps);
    }
  }

  lemma ReferenceFolds(w: World, may: bool, file: string, t: Type, steps: seq<PathStep>)
    requires steps != [] && t.Reference? && TypeSays(w, may, file, t, steps)
    ensures TypeIs(w, may, file, t, steps)
  {
    var d := Resolve(w, file, t.head);
    if !TypeTold(w, may, file, t, steps, 1) {
      if d.Some? {
        var n: nat :| DeclTold(w, may, d.value, steps, n);
        assert TypeTold(w, may, file, t, steps, n + 1);
      } else if IsWrapper(t.head) {
        var n: nat :| TypeTold(w, may, file, t.args[0], steps, n);
        assert TypeTold(w, may, file, t, steps, n + 1);
      } else {
        var n: nat :| TypeTold(w, may, file, t.args[0], steps[1..], n);
        assert TypeTold(w, may, file, t, steps, n + 1);
      }
    }
  }

  /** What a declaration says of a path, in terms of what it refers to. */
  ghost predicate DeclSays(w: World, may: bool, id: DeclId, steps: seq<PathStep>)
    requires id in w.decls
  {
    steps == [] ||
    match w.decls[id]
    case Enum => may
    case Alias(body) => TypeIs(w, may, id.file, body, steps)
    case Interface(members, bases, merged) =>
      if steps[0].Element? then may
      else
        || MemberIs(w, may, id.file, members, steps)
        || (PropertyNamed(members, steps[0].name).None?
            && (SomeBaseIs(w, may, id.file, bases, steps) || SomeMergedIs(w, may, merged, steps)))
  }

  ghost predicate SomeMergedIs(w: World, may: bool, merged: seq<DeclId>, steps: seq<PathStep>) {
    exists i :: 0 <= i < |merged| && merged[i] in w.decls && DeclIs(w, may, merged[i], steps)
  }

  ghost predicate SomeBaseIs(w: World, may: bool, file: string, bases: seq<Option<string>>, steps: seq<PathStep>) {
    exists i :: 0 <= i < |bases| && BaseIs(w, may, file, bases[i], steps)
  }

  lemma DeclUnfolds(w: World, may: bool, id: DeclId, steps: seq<PathStep>)
    requires id in w.decls
    ensures DeclIs(w, may, id, steps) == DeclSays(w, may, id, steps)
  {
    if n: nat :| DeclTold(w, may, id, steps, n) { DeclTells(w, may, id, steps, n); }
    if DeclSays(w, may, id, steps) { DeclFolds(w, may, id, steps); }
  }

  lemma DeclTells(w: World, may: bool, id: DeclId, steps: seq<PathStep>, n: nat)
    requires id in w.decls && DeclTold(w, may, id, steps, n)
    ensures DeclSays(w, may, id, steps)
  {
    if steps != [] {
      match w.decls[id]
      case Enum =>
      case Alias(body) => assert TypeTold(w, may, id.file, body, steps, n - 1);
      case Interface(members, bases, merged) =>
        if steps[0].Member? && !MemberTold(w, may, id.file, members, steps, n - 1) {
          if i :| 0 <= i < |bases| && BaseTold(w, may, id.file, bases[i], steps, n - 1) {
            assert BaseIs(w, may, id.file, bases[i], steps);
          } else {
            var i :| 0 <= i < |merged| && merged[i] in w.decls && DeclTold(w, may, merged[i], steps, n - 1);
            assert DeclIs(w, may, merged[i], steps);
          }
        }
    }
  }

  lemma DeclFolds(w: World, may: bool, id: DeclId, steps: seq<PathStep>)
    requires id in w.decls && DeclSays(w, may, id, steps)
    ensures DeclIs(w, may, id, steps)
  {
    if !DeclTold(w, may, id, steps, 1) {
      match w.decls[id]
      case Alias(body) =>
        var n: nat :| TypeTold(w, may, id.file, body, steps, n);
        assert DeclTold(w, may, id, steps, n + 1);
      case Interface(members, bases, merged) =>
        if MemberIs(w, may, id.file, members, steps) {
          var n: nat :| MemberTold(w, may, id.file, members, steps, n);
          assert DeclTold(w, may, id, steps, n + 1);
        } else if i :| 0 <= i < |bases| && BaseIs(w, may, id.file, bases[i], steps) {
          var n: nat :| BaseTold(w, may, id.file, bases[i], steps, n);
          assert DeclTold(w, may, id, steps, n + 1);
        } else {
          var i :| 0 <= i < |merged| && merged[i] in w.decls && DeclIs(w, may, merged[i], steps);
          var n: nat :| DeclTold(w, may, merged[i], steps, n);
          assert MergedTold(w, may, merged, steps, n);
          assert DeclTold(w, may, id, steps, n + 1);
        }
    }
  }

  /** What a member list says of a path. */
  ghost predicate MemberSays(w: World, may: bool, file: string, members: seq<TypeElement>, steps: seq<PathStep>)
    requires steps != [] && steps[0].Member?
  {
    match PropertyNamed(members, steps[0].name)
    case Some(p) =>
      |steps| == 1 || if p.annotation.None? then may else TypeIs(w, may, file, p.annotation.value, steps[1..])
    case None => (OtherNamed(steps[0].name) in members && (|steps| == 1 || may)) || (IndexSignature in members && may)
  }

  lemma MemberUnfolds(w: World, may: bool, file: string, members: seq<TypeElement>, steps: seq<PathStep>)
    requires steps != [] && steps[0].Member?
    ensures MemberIs(w, may, file, members, steps) == MemberSays(w, may, file, members, steps)
  {
    var p := PropertyNamed(members, steps[0].name);
    if p.Some? && |steps| > 1 && p.value.annotation.Some? {
      forall n: nat
        ensures MemberTold(w, may, file, members, steps, n)
                == TypeTold(w, may, file, p.value.annotation.value, steps[1..], n)
      {
      }
    } else {
      assert MemberSays(w, may, file, members, steps) ==> MemberTold(w, may, file, members, steps, 0);
    }
  }

  /** A base says what it names. */
  lemma BaseUnfolds(w: World, may: bool, file: string, base: Option<string>, steps: seq<PathStep>)
    ensures BaseIs(w, may, file, base, steps)
            == if base.None? || Resolve(w, file, base.value).None? then may
               else DeclIs(w, may, Resolve(w, file, base.value).value, steps)
  {
    if base.None? || Resolve(w, file, base.value).None? {
      assert may ==> BaseTold(w, may, file, base, steps, 0);
    } else {
      forall n: nat
        ensures BaseTold(w, may, file, base, steps, n) == DeclTold(w, may, Resolve(w, file, base.value).value, steps, n)
      {
      }
    }
  }
}
