/**
 * When the schema-path check of `scripts/gen-config-catalog.ts` is definite, and what it
 * then answers: read off the declarations, place by place.
 */
module ConfigDefinite {
  import opened Wrappers
  import opened ConfigLookup
  import opened ConfigExact

  // ---------- Where a path stands ----------

  /** At a declaration or a type with these steps left, or at a name that leads nowhere. */
  datatype Place =
    | AtDecl(id: DeclId, steps: seq<PathStep>)
    | AtType(file: string, t: Type, steps: seq<PathStep>)
    | Lost

  /** What the check cannot see through. */
  datatype Obstacle = EnumDeclared | NameOutOfReach | PropertyUnannotated | NoElements | NoMembers | NodeUnread

  /** The path is there, is not there, cannot be followed, or goes on at any or at all of these places. */
  datatype Turn = Here | Nowhere | Stuck(what: Obstacle) | Any(places: seq<Place>) | All(places: seq<Place>)

  /** The place of a type name. */
  function Named(w: World, file: string, name: string, steps: seq<PathStep>): Place {
    if (file, name) in w.names && w.names[(file, name)] in w.decls then AtDecl(w.names[(file, name)], steps) else Lost
  }

  /** Into the property, if one is written so; otherwise as told. */
  function MemberTurn(file: string, members: seq<TypeElement>, steps: seq<PathStep>, otherwise: Turn): Turn
    requires steps != []
  {
    if steps[0].Element? then Stuck(NoElements)
    else match FindProperty(members, steps[0].name)
      case None => otherwise
      case Some(p) =>
        if |steps| == 1 then Here
        else if p.annotation.None? then Stuck(PropertyUnannotated)
        else Any([AtType(file, p.annotation.value, steps[1..])])
  }

  /** To the elements, if the path goes there. */
  function ElementTurn(file: string, element: Type, steps: seq<PathStep>): Turn
    requires steps != []
  {
    if steps[0].Element? then Any([AtType(file, element, steps[1..])]) else Stuck(NoMembers)
  }

  function TypePlaces(file: string, ts: seq<Type>, steps: seq<PathStep>): (ps: seq<Place>)
    ensures |ps| == |ts| && forall i :: 0 <= i < |ps| ==> ps[i] == AtType(file, ts[i], steps)
  {
    seq(|ts|, i requires 0 <= i < |ts| => AtType(file, ts[i], steps))
  }

  function BasePlace(w: World, file: string, base: Option<string>, steps: seq<PathStep>): Place {
    if base.None? then Lost else Named(w, file, base.value, steps)
  }

  function BasePlaces(w: World, file: string, bases: seq<Option<string>>, steps: seq<PathStep>): (ps: seq<Place>)
    ensures |ps| == |bases| && forall i :: 0 <= i < |ps| ==> ps[i] == BasePlace(w, file, bases[i], steps)
  {
    seq(|bases|, i requires 0 <= i < |bases| => BasePlace(w, file, bases[i], steps))
  }

  /** What the declaration says of the first step. */
  function DeclTurn(w: World, id: DeclId, steps: seq<PathStep>): Turn
    requires id in w.decls
  {
    if steps == [] then Here
    else match w.decls[id]
      case Enum => Stuck(EnumDeclared)
      case Alias(body) => Any([AtType(id.file, body, steps)])
      case Interface(members, bases, _) =>
        MemberTurn(id.file, members, steps, Any(BasePlaces(w, id.file, bases, steps)))
  }

  /** What the type says of the first step. */
  function TypeTurn(w: World, file: string, t: Type, steps: seq<PathStep>): Turn {
    if steps == [] then Here
    else match t
      case Literal(members) => MemberTurn(file, members, steps, Nowhere)
      case Parenthesized(inner) => Any([AtType(file, inner, steps)])
      case Intersection(parts) => Any(TypePlaces(file, parts, steps))
      case Union(branches) => All(TypePlaces(file, branches, steps))
      case ArrayOf(element) => ElementTurn(file, element, steps)
      case TypeOperator(_, operand) => Any([AtType(file, operand, steps)])
      case Indexed(target, index) =>
        if index.None? then Stuck(NodeUnread) else Any([AtType(file, target, [Member(index.value)] + steps)])
      case Reference(head, qualified, args) =>
        if head in ["Partial", "Required", "Readonly", "NonNullable"] && args != [] then
          Any([AtType(file, args[0], steps)])
        else if head in ["Array", "ReadonlyArray"] && args != [] then ElementTurn(file, args[0], steps)
        else if qualified then Stuck(NameOutOfReach)
        else Any([Named(w, file, head, steps)])
      case OtherType => Stuck(NodeUnread)
  }

  function TurnAt(w: World, p: Place): Turn {
    match p
    case AtDecl(id, steps) => if id in w.decls then DeclTurn(w, id, steps) else Stuck(NameOutOfReach)
    case AtType(file, t, steps) => TypeTurn(w, file, t, steps)
    case Lost => Stuck(NameOutOfReach)
  }

  // ---------- Entering a declaration twice ----------

  /** An interface or alias with steps left is entered; the number of steps left is part of the entry. */
  predicate Enters(w: World, p: Place) {
    p.AtDecl? && p.id in w.decls && p.steps != [] && !w.decls[p.id].Enum?
  }

  predicate EnteredAgain(w: World, p: Place, seen: Seen) {
    Enters(w, p) && (p.id, |p.steps|) in seen
  }

  function Entering(w: World, p: Place, seen: Seen): Seen {
    if Enters(w, p) then seen + {(p.id, |p.steps|)} else seen
  }

  /** What has been entered once the place has been looked at, the places it leads to in their order. */
  ghost function Entered(w: World, p: Place, seen: Seen, n: nat): Seen
    decreases n, 0
  {
    if n == 0 || EnteredAgain(w, p, seen) then seen
    else match TurnAt(w, p)
      case Any(ps) => SeenAt(w, ps, Entering(w, p, seen), n - 1, |ps|)
      case All(ps) => SeenAt(w, ps, Entering(w, p, seen), n - 1, |ps|)
      case _ => Entering(w, p, seen)
  }

  /** What has been entered on coming to the `i`-th of several places. */
  ghost function SeenAt(w: World, ps: seq<Place>, seen: Seen, n: nat, i: nat): Seen
    requires i <= |ps|
    decreases n, 1, i
  {
    if i == 0 then seen else SeenAt(w, ps[1..], Entered(w, ps[0], seen, n), n, i - 1)
  }

  // ---------- There, not there, or obstructed ----------

  /** The path is there, within `n` turns: at some place of any, at every place of all. */
  ghost predicate Present(w: World, p: Place, seen: Seen, n: nat)
    decreases n
  {
    n > 0 && !EnteredAgain(w, p, seen) &&
    var next := Entering(w, p, seen);
    match TurnAt(w, p)
    case Here => true
    case Any(ps) => exists i :: 0 <= i < |ps| && Present(w, ps[i], SeenAt(w, ps, next, n - 1, i), n - 1)
    case All(ps) => forall i :: 0 <= i < |ps| ==> Present(w, ps[i], SeenAt(w, ps, next, n - 1, i), n - 1)
    case _ => false
  }

  /** The path is not there: at none of the places. */
  ghost predicate Absent(w: World, p: Place, seen: Seen, n: nat)
    decreases n
  {
    n > 0 && !EnteredAgain(w, p, seen) &&
    var next := Entering(w, p, seen);
    match TurnAt(w, p)
    case Nowhere => true
    case Any(ps) => forall i :: 0 <= i < |ps| ==> Absent(w, ps[i], SeenAt(w, ps, next, n - 1, i), n - 1)
    case All(ps) => ps != [] && forall i :: 0 <= i < |ps| ==> Absent(w, ps[i], SeenAt(w, ps, next, n - 1, i), n - 1)
    case _ => false
  }

  /**
   * The path meets an obstacle, a declaration it has entered before with as many steps
   * left, or a union whose branches disagree, and is not there beside it.
   */
  ghost predicate Obstructed(w: World, p: Place, seen: Seen, n: nat)
    decreases n
  {
    p.Lost? || (n > 0 && (EnteredAgain(w, p, seen) ||
      var next := Entering(w, p, seen);
      match TurnAt(w, p)
      case Stuck(_) => true
      case Any(ps) =>
        && (exists i :: 0 <= i < |ps| && Obstructed(w, ps[i], SeenAt(w, ps, next, n - 1, i), n - 1))
        && (forall i :: 0 <= i < |ps| ==> !Present(w, ps[i], SeenAt(w, ps, next, n - 1, i), n - 1))
      case All(ps) =>
        || (exists i :: 0 <= i < |ps| && Obstructed(w, ps[i], SeenAt(w, ps, next, n - 1, i), n - 1))
        || (&& (exists i :: 0 <= i < |ps| && Present(w, ps[i], SeenAt(w, ps, next, n - 1, i), n - 1))
            && (exists i :: 0 <= i < |ps| && Absent(w, ps[i], SeenAt(w, ps, next, n - 1, i), n - 1)))
      case _ => false))
  }

  // ---------- The walk answers so ----------

  /** The answer at a place is found, missing or unknown exactly as the declarations say. */
  ghost predicate Tells(w: World, p: Place, seen: Seen, n: nat, r: PathLookup) {
    && (r == Found <==> Present(w, p, seen, n))
    && (r == Missing <==> Absent(w, p, seen, n))
    && (r == Unknown <==> Obstructed(w, p, seen, n))
  }

  ghost predicate TellAll(w: World, ps: seq<Place>, seen: Seen, n: nat, rs: seq<PathLookup>) {
    |rs| == |ps| && forall i :: 0 <= i < |ps| ==> Tells(w, ps[i], SeenAt(w, ps, seen, n, i), n, rs[i])
  }

  lemma TellCons(w: World, p: Place, rest: seq<Place>, seen: Seen, n: nat, r: PathLookup, rs: seq<PathLookup>)
    requires Tells(w, p, seen, n, r) && TellAll(w, rest, Entered(w, p, seen, n), n, rs)
    ensures TellAll(w, [p] + rest, seen, n, [r] + rs)
    ensures SeenAt(w, [p] + rest, seen, n, |rest| + 1) == SeenAt(w, rest, Entered(w, p, seen, n), n, |rest|)
  {
    var ps := [p] + rest;
    assert ps[1..] == rest;
    forall i | 0 <= i < |ps| ensures Tells(w, ps[i], SeenAt(w, ps, seen, n, i), n, ([r] + rs)[i]) {
      if i > 0 {
        assert SeenAt(w, ps, seen, n, i) == SeenAt(w, rest, Entered(w, p, seen, n), n, i - 1);
        assert Tells(w, rest[i - 1], SeenAt(w, rest, Entered(w, p, seen, n), n, i - 1), n, rs[i - 1]);
      }
    }
  }

  /** Any of several places. */
  lemma AnyTells(w: World, p: Place, seen: Seen, n: nat, rs: seq<PathLookup>)
    requires n > 0 && !EnteredAgain(w, p, seen) && TurnAt(w, p).Any?
    requires TellAll(w, TurnAt(w, p).places, Entering(w, p, seen), n - 1, rs)
    ensures Tells(w, p, seen, n, Combine(rs))
  {
    var ps, next := TurnAt(w, p).places, Entering(w, p, seen);
    forall i | 0 <= i < |ps| ensures Tells(w, ps[i], SeenAt(w, ps, next, n - 1, i), n - 1, rs[i]) {}
    CombineMeaning(rs);
  }

  /** All of several places. */
  lemma AllTell(w: World, p: Place, seen: Seen, n: nat, rs: seq<PathLookup>)
    requires n > 0 && !EnteredAgain(w, p, seen) && TurnAt(w, p).All?
    requires TellAll(w, TurnAt(w, p).places, Entering(w, p, seen), n - 1, rs)
    ensures Tells(w, p, seen, n, CombineUnion(rs))
  {
    AllDefinite(w, p, seen, n, rs);
    AllObstructed(w, p, seen, n, rs);
    CombineMeaning(rs);
  }

  lemma AllDefinite(w: World, p: Place, seen: Seen, n: nat, rs: seq<PathLookup>)
    requires n > 0 && !EnteredAgain(w, p, seen) && TurnAt(w, p).All?
    requires TellAll(w, TurnAt(w, p).places, Entering(w, p, seen), n - 1, rs)
    ensures Present(w, p, seen, n) <==> forall i :: 0 <= i < |rs| ==> rs[i] == Found
    ensures Absent(w, p, seen, n) <==> rs != [] && forall i :: 0 <= i < |rs| ==> rs[i] == Missing
  {
    var ps, next := TurnAt(w, p).places, Entering(w, p, seen);
    forall i | 0 <= i < |ps| ensures Tells(w, ps[i], SeenAt(w, ps, next, n - 1, i), n - 1, rs[i]) {}
  }

  lemma AllObstructed(w: World, p: Place, seen: Seen, n: nat, rs: seq<PathLookup>)
    requires n > 0 && !EnteredAgain(w, p, seen) && TurnAt(w, p).All?
    requires TellAll(w, TurnAt(w, p).places, Entering(w, p, seen), n - 1, rs)
    ensures Obstructed(w, p, seen, n) <==>
            || (exists i :: 0 <= i < |rs| && rs[i] == Unknown)
            || ((exists i :: 0 <= i < |rs| && rs[i] == Found) && (exists i :: 0 <= i < |rs| && rs[i] == Missing))
  {
    var ps, next := TurnAt(w, p).places, Entering(w, p, seen);
    forall i | 0 <= i < |ps| ensures Tells(w, ps[i], SeenAt(w, ps, next, n - 1, i), n - 1, rs[i]) {}
  }

  lemma CombineMeaning(rs: seq<PathLookup>)
    ensures Combine(rs) == Found <==> exists i :: 0 <= i < |rs| && rs[i] == Found
    ensures Combine(rs) == Missing <==> forall i :: 0 <= i < |rs| ==> rs[i] == Missing
    ensures CombineUnion(rs) == Found <==> forall i :: 0 <= i < |rs| ==> rs[i] == Found
    ensures CombineUnion(rs) == Missing <==> rs != [] && forall i :: 0 <= i < |rs| ==> rs[i] == Missing
  {
    forall i | 0 <= i < |rs| ensures rs[i] in rs && (rs[i] == Found || rs[i] == Missing || rs[i] == Unknown) {}
    if rs != [] { assert rs[0] in rs; }
  }

  /** One place, with the same answer. */
  lemma OneTells(w: World, p: Place, q: Place, seen: Seen, n: nat, r: PathLookup)
    requires n > 0 && !EnteredAgain(w, p, seen) && TurnAt(w, p) == Any([q])
    requires Tells(w, q, Entering(w, p, seen), n - 1, r)
    ensures Tells(w, p, seen, n, r)
    ensures Entered(w, p, seen, n) == Entered(w, q, Entering(w, p, seen), n - 1)
  {
    var next := Entering(w, p, seen);
    assert SeenAt(w, [q], next, n - 1, 0) == next;
    assert SeenAt(w, [q], next, n - 1, 1) == SeenAt(w, [q][1..], Entered(w, q, next, n - 1), n - 1, 0);
  }

  lemma {:induction false} DeclTells(w: World, id: DeclId, steps: seq<PathStep>, seen: Seen, fuel: nat)
    requires id in w.decls && LookupDecl(w, id, steps, seen, fuel).Some?
    ensures var a := LookupDecl(w, id, steps, seen, fuel).value;
            && Tells(w, AtDecl(id, steps), seen, fuel, a.result)
            && a.seen == Entered(w, AtDecl(id, steps), seen, fuel)
    decreases fuel, 1, 0
  {
    var p := AtDecl(id, steps);
    if Enters(w, p) && !EnteredAgain(w, p, seen) {
      var next := seen + {(id, |steps|)};
      assert Entering(w, p, seen) == next;
      match w.decls[id]
      case Alias(body) =>
        TypeTells(w, id.file, body, steps, next, fuel - 1);
        OneTells(w, p, AtType(id.file, body, steps), seen, fuel,
                 LookupType(w, id.file, body, steps, next, fuel - 1).value.result);
      case Interface(members, bases, _) =>
        if steps[0].Member? {
          if FindProperty(members, steps[0].name).Some? {
            MemberTells(w, p, id.file, members, steps, seen, fuel, TurnAt(w, p));
          } else {
            BasesTell(w, id.file, bases, steps, next, fuel - 1);
            AnyTells(w, p, seen, fuel, LookupBases(w, id.file, bases, steps, next, fuel - 1).value.0);
          }
        }
    }
  }

  /** Into a property of the first step's name. */
  lemma {:induction false} MemberTells(w: World, p: Place, file: string, members: seq<TypeElement>,
                                       steps: seq<PathStep>, seen: Seen, fuel: nat, turn: Turn)
    requires steps != [] && steps[0].Member? && FindProperty(members, steps[0].name).Some? && fuel > 0
    requires TurnAt(w, p) == turn && !EnteredAgain(w, p, seen)
    requires exists otherwise :: turn == MemberTurn(file, members, steps, otherwise)
    requires LookupMember(w, file, members, steps, Entering(w, p, seen), fuel - 1).Some?
    ensures var a := LookupMember(w, file, members, steps, Entering(w, p, seen), fuel - 1).value;
            Tells(w, p, seen, fuel, a.result) && a.seen == Entered(w, p, seen, fuel)
    decreases fuel, 0, 1
  {
    var property, next := FindProperty(members, steps[0].name).value, Entering(w, p, seen);
    if |steps| > 1 && property.annotation.Some? {
      var t := property.annotation.value;
      TypeTells(w, file, t, steps[1..], next, fuel - 1);
      OneTells(w, p, AtType(file, t, steps[1..]), seen, fuel,
               LookupType(w, file, t, steps[1..], next, fuel - 1).value.result);
    }
  }

  lemma BasePlacesCons(w: World, file: string, bases: seq<Option<string>>, steps: seq<PathStep>)
    requires bases != []
    ensures BasePlaces(w, file, bases, steps)
            == [BasePlace(w, file, bases[0], steps)] + BasePlaces(w, file, bases[1..], steps)
  {
  }

  lemma TypePlacesCons(file: string, ts: seq<Type>, steps: seq<PathStep>)
    requires ts != []
    ensures TypePlaces(file, ts, steps) == [AtType(file, ts[0], steps)] + TypePlaces(file, ts[1..], steps)
  {
  }

  lemma {:induction false} BasesTell(w: World, file: string, bases: seq<Option<string>>, steps: seq<PathStep>,
                                     seen: Seen, fuel: nat)
    requires steps != [] && LookupBases(w, file, bases, steps, seen, fuel).Some?
    ensures var (rs, seen') := LookupBases(w, file, bases, steps, seen, fuel).value;
            var ps := BasePlaces(w, file, bases, steps);
            TellAll(w, ps, seen, fuel, rs) && seen' == SeenAt(w, ps, seen, fuel, |ps|)
    decreases fuel, 2, |bases|
  {
    if bases != [] {
      var p, rest := BasePlace(w, file, bases[0], steps), bases[1..];
      var a := BaseTells(w, file, bases, steps, seen, fuel);
      BasesTell(w, file, rest, steps, a.seen, fuel);
      BasePlacesCons(w, file, bases, steps);
      TellCons(w, p, BasePlaces(w, file, rest, steps), seen, fuel, a.result,
               LookupBases(w, file, rest, steps, a.seen, fuel).value.0);
    }
  }

  /** The first base of several. */
  lemma {:induction false} BaseTells(w: World, file: string, bases: seq<Option<string>>, steps: seq<PathStep>,
                                     seen: Seen, fuel: nat) returns (a: Answer)
    requires steps != [] && bases != [] && LookupBases(w, file, bases, steps, seen, fuel).Some?
    ensures var p := BasePlace(w, file, bases[0], steps);
            Tells(w, p, seen, fuel, a.result) && a.seen == Entered(w, p, seen, fuel)
    ensures var all, rest := LookupBases(w, file, bases, steps, seen, fuel),
                             LookupBases(w, file, bases[1..], steps, a.seen, fuel);
            rest.Some? && all.value == ([a.result] + rest.value.0, rest.value.1)
    decreases fuel, 1, 1
  {
    a := Answer(Unknown, seen);
    if bases[0].Some? && Resolve(w, file, bases[0].value).Some? {
      DeclTells(w, Resolve(w, file, bases[0].value).value, steps, seen, fuel);
      a := LookupDecl(w, Resolve(w, file, bases[0].value).value, steps, seen, fuel).value;
    }
  }

  lemma {:induction false} PartsTell(w: World, file: string, ts: seq<Type>, steps: seq<PathStep>, seen: Seen,
                                     fuel: nat)
    requires LookupParts(w, file, ts, steps, seen, fuel).Some?
    ensures var (rs, seen') := LookupParts(w, file, ts, steps, seen, fuel).value;
            var ps := TypePlaces(file, ts, steps);
            TellAll(w, ps, seen, fuel, rs) && seen' == SeenAt(w, ps, seen, fuel, |ps|)
    decreases fuel, 2, |ts|
  {
    if ts != [] {
      var rest := ts[1..];
      TypeTells(w, file, ts[0], steps, seen, fuel);
      var a := LookupType(w, file, ts[0], steps, seen, fuel).value;
      PartsTell(w, file, rest, steps, a.seen, fuel);
      TypePlacesCons(file, ts, steps);
      TellCons(w, AtType(file, ts[0], steps), TypePlaces(file, rest, steps), seen, fuel, a.result,
               LookupParts(w, file, rest, steps, a.seen, fuel).value.0);
    }
  }

  lemma {:induction false} TypeTells(w: World, file: string, t: Type, steps: seq<PathStep>, seen: Seen, fuel: nat)
    requires LookupType(w, file, t, steps, seen, fuel).Some?
    ensures var a := LookupType(w, file, t, steps, seen, fuel).value;
            && Tells(w, AtType(file, t, steps), seen, fuel, a.result)
            && a.seen == Entered(w, AtType(file, t, steps), seen, fuel)
    decreases fuel, 1, 0
  {
    var p := AtType(file, t, steps);
    if steps != [] {
      match t
      case Literal(members) =>
        if steps[0].Member? && FindProperty(members, steps[0].name).Some? {
          MemberTells(w, p, file, members, steps, seen, fuel, TurnAt(w, p));
        }
      case Parenthesized(inner) => InnerTells(w, p, file, inner, steps, seen, fuel);
      case Intersection(parts) =>
        PartsTell(w, file, parts, steps, seen, fuel - 1);
        AnyTells(w, p, seen, fuel, LookupParts(w, file, parts, steps, seen, fuel - 1).value.0);
      case Union(branches) =>
        PartsTell(w, file, branches, steps, seen, fuel - 1);
        AllTell(w, p, seen, fuel, LookupParts(w, file, branches, steps, seen, fuel - 1).value.0);
      case ArrayOf(element) =>
        if steps[0].Element? { InnerTells(w, p, file, element, steps[1..], seen, fuel); }
      case TypeOperator(_, operand) => InnerTells(w, p, file, operand, steps, seen, fuel);
      case Indexed(target, index) =>
        if index.Some? { InnerTells(w, p, file, target, [Member(index.value)] + steps, seen, fuel); }
      case Reference(head, qualified, args) => ReferenceTells(w, file, t, steps, seen, fuel);
      case OtherType =>
    }
  }

  /** At a place that leads to one type and no further. */
  lemma {:induction false} InnerTells(w: World, p: Place, file: string, t: Type, steps: seq<PathStep>, seen: Seen,
                                      fuel: nat)
    requires fuel > 0 && !Enters(w, p) && TurnAt(w, p) == Any([AtType(file, t, steps)])
    requires LookupType(w, file, t, steps, seen, fuel - 1).Some?
    ensures var a := LookupType(w, file, t, steps, seen, fuel - 1).value;
            Tells(w, p, seen, fuel, a.result) && a.seen == Entered(w, p, seen, fuel)
    decreases fuel, 0, 0
  {
    TypeTells(w, file, t, steps, seen, fuel - 1);
    OneTells(w, p, AtType(file, t, steps), seen, fuel, LookupType(w, file, t, steps, seen, fuel - 1).value.result);
  }

  lemma {:induction false} ReferenceTells(w: World, file: string, t: Type, steps: seq<PathStep>, seen: Seen,
                                          fuel: nat)
    requires t.Reference? && steps != [] && LookupType(w, file, t, steps, seen, fuel).Some?
    ensures var a := LookupType(w, file, t, steps, seen, fuel).value;
            && Tells(w, AtType(file, t, steps), seen, fuel, a.result)
            && a.seen == Entered(w, AtType(file, t, steps), seen, fuel)
    decreases fuel, 0, 2
  {
    var p := AtType(file, t, steps);
    if IsWrapper(t.head) && t.args != [] {
      InnerTells(w, p, file, t.args[0], steps, seen, fuel);
    } else if IsArrayName(t.head) && t.args != [] {
      if steps[0].Element? { InnerTells(w, p, file, t.args[0], steps[1..], seen, fuel); }
    } else if !t.qualified {
      var q := Named(w, file, t.head, steps);
      if Resolve(w, file, t.head).Some? {
        DeclTells(w, Resolve(w, file, t.head).value, steps, seen, fuel - 1);
        OneTells(w, p, q, seen, fuel, LookupType(w, file, t, steps, seen, fuel).value.result);
      } else {
        OneTells(w, p, q, seen, fuel, Unknown);
      }
    }
  }

  /**
   * From the start of a check, with stack enough: found exactly if the path is there,
   * missing exactly if it is not, and unknown exactly if it is obstructed.
   */
  lemma DefiniteExactly(w: World, id: DeclId, steps: seq<PathStep>, fuel: nat)
    requires id in w.decls && LookupDecl(w, id, steps, {}, fuel).Some?
    ensures var r := LookupDecl(w, id, steps, {}, fuel).value.result;
            && (r == Found <==> Present(w, AtDecl(id, steps), {}, fuel))
            && (r == Missing <==> Absent(w, AtDecl(id, steps), {}, fuel))
            && (r == Unknown <==> Obstructed(w, AtDecl(id, steps), {}, fuel))
  {
    DeclTells(w, id, steps, {}, fuel);
  }

  /** `interface Config { agents: { id }[] }`. */
  const AGENTS := World(
    map[SUBJECT := Interface([Property("agents", "agents", Some(ArrayOf(Literal([Property("id", "id", None)]))))],
                             [], [])],
    map[])

  /** A key that misspells a member of the elements is missing, however much stack there is beyond five. */
  lemma MisspeltKeyIsMissing(fuel: nat)
    requires fuel >= 5
    ensures var a := LookupDecl(AGENTS, SUBJECT, [Member("agents"), Element, Member("idd")], {}, fuel);
            a.Some? && a.value.result == Missing
    ensures var a := LookupDecl(AGENTS, SUBJECT, [Member("agents"), Element, Member("id")], {}, fuel);
            a.Some? && a.value.result == Found
  {
    AgentMember("id", fuel);
    AgentMember("idd", fuel);
    assert |"id"| != |"idd"|;
  }

  lemma AgentMember(name: string, fuel: nat)
    requires fuel >= 5
    ensures var a := LookupDecl(AGENTS, SUBJECT, [Member("agents"), Element, Member(name)], {}, fuel);
            a.Some? && a.value.result == if name == "id" then Found else Missing
  {
    var ids := [Property("id", "id", None)];
    var members := AGENTS.decls[SUBJECT].members;
    var steps := [Member("agents"), Element, Member(name)];
    var seen: Seen := {} + {(SUBJECT, 3)};
    assert members[0] == Property("agents", "agents", Some(ArrayOf(Literal(ids))));
    assert FindProperty(members, "agents") == Some(members[0]);
    assert FindProperty(ids, name) == if name == "id" then Some(ids[0]) else None;
    assert LookupMember(AGENTS, "config.ts", ids, [Member("id")], seen, fuel - 3) == Some(Answer(Found, seen));
    assert steps[1..] == [Element, Member(name)] && steps[1..][1..] == [Member(name)];
    var a := LookupType(AGENTS, "config.ts", Literal(ids), [Member(name)], seen, fuel - 2);
    assert a == Some(Answer(if name == "id" then Found else Missing, seen));
    assert LookupType(AGENTS, "config.ts", ArrayOf(Literal(ids)), steps[1..], seen, fuel - 1) == a;
    assert LookupMember(AGENTS, "config.ts", members, steps, seen, fuel - 1) == a;
  }
}
