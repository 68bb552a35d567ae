/**
 * The schema-path presence check `lookupPath` of `scripts/gen-config-catalog.ts`:
 * a three-valued walk of possibly recursive type declarations.
 */
module ConfigLookup {
  import opened Wrappers

  /** A schema key path goes into a member by its name, or into the elements of an array. */
  datatype PathStep = Member(name: string) | Element

  datatype PathLookup = Found | Missing | Unknown

  /** A declaration is identified by its file and position. */
  datatype DeclId = DeclId(file: string, pos: nat)

  /**
   * A member of an interface or literal.  A property has the text it is written
   * with and the name it declares; the two differ for a quoted name.  Methods and
   * accessors declare a name too, and an index signature admits any.
   */
  datatype TypeElement =
    | Property(text: string, name: string, annotation: Option<Type>)
    | OtherNamed(name: string)
    | IndexSignature
    | OtherElement

  datatype Operator = KeyOf | ReadOnly | Unique

  datatype Type =
    | Literal(members: seq<TypeElement>)
    | Parenthesized(inner: Type)
    | Intersection(parts: seq<Type>)
    | Union(branches: seq<Type>)
    | ArrayOf(element: Type)
    | TypeOperator(op: Operator, operand: Type)
    | Indexed(target: Type, index: Option<string>)
    | Reference(head: string, qualified: bool, args: seq<Type>)
    | OtherType

  /**
   * A base that is not a plain identifier has no name.  `merged` are the later interfaces
   * of the same name: they declare the same type, and the walk does not look at them.
   */
  datatype Decl =
    | Interface(members: seq<TypeElement>, bases: seq<Option<string>>, merged: seq<DeclId>)
    | Alias(body: Type)
    | Enum

  /** The declarations, and the first one that a type name denotes in a file. */
  datatype World = World(decls: map<DeclId, Decl>, names: map<(string, string), DeclId>)

  function Resolve(w: World, file: string, name: string): (r: Option<DeclId>)
    ensures r.Some? ==> r.value in w.decls
  {
    if (file, name) in w.names && w.names[(file, name)] in w.decls then Some(w.names[(file, name)]) else None
  }

  predicate IsWrapper(name: string) {
    name == "Partial" || name == "Required" || name == "Readonly" || name == "NonNullable"
  }

  predicate IsArrayName(name: string) {
    name == "Array" || name == "ReadonlyArray"
  }

  // ---------- The walk ----------

  /** The guard's keys: a declaration and the number of steps left. */
  type Seen = set<(DeclId, nat)>

  datatype Answer = Answer(result: PathLookup, seen: Seen)

  /** Parts and bases: one that is found decides; without any, one that is unknown leaves the answer open. */
  function Combine(results: seq<PathLookup>): PathLookup {
    if Found in results then Found else if Unknown in results then Unknown else Missing
  }

  /** Branches of a union: an answer all of them give, and none otherwise. */
  function CombineUnion(results: seq<PathLookup>): PathLookup {
    if forall r | r in results :: r == Found then Found
    else if forall r | r in results :: r == Missing then Missing
    else Unknown
  }

  predicate NotWritten(members: seq<TypeElement>, text: string) {
    forall m | m in members && m.Property? :: m.text != text
  }

  /** The first property written with this text. */
  function FindProperty(members: seq<TypeElement>, text: string): (r: Option<TypeElement>)
    ensures r.Some? ==> r.value in members && r.value.Property? && r.value.text == text
    ensures r.Some? ==> exists i :: 0 <= i < |members| && members[i] == r.value && NotWritten(members[..i], text)
    ensures r.None? ==> NotWritten(members, text)
  {
    if members == [] then None
    else if members[0].Property? && members[0].text == text then
      assert members[..0] == [];
      Some(members[0])
    else
      var r := FindProperty(members[1..], text);
      assert forall i | 0 <= i < |members[1..]| :: members[..i + 1] == [members[0]] + members[1..][..i];
      r
  }

  /**
   * `lookupPath` at a declaration.  `fuel` bounds the call stack; running out of
   * it is no answer.  The guard set is shared and only grows, so it is returned.
   */
  function LookupDecl(w: World, id: DeclId, steps: seq<PathStep>, seen: Seen, fuel: nat): Option<Answer>
    requires id in w.decls
    decreases fuel, 0, 0
  {
    if fuel == 0 then None
    else if steps == [] then Some(Answer(Found, seen))
    else if w.decls[id].Enum? then Some(Answer(Unknown, seen))
    else if (id, |steps|) in seen then Some(Answer(Unknown, seen))
    else
      var seen' := seen + {(id, |steps|)};
      match w.decls[id]
      case Alias(body) => LookupType(w, id.file, body, steps, seen', fuel - 1)
      case Interface(members, bases, _) =>
        if steps[0].Element? then Some(Answer(Unknown, seen'))
        else if FindProperty(members, steps[0].name).Some?
            then LookupMember(w, id.file, members, steps, seen', fuel - 1)
        else
          match LookupBases(w, id.file, bases, steps, seen', fuel - 1)
          case None => None
          case Some((results, seen'')) => Some(Answer(Combine(results), seen''))
  }

  /** `intoMembers` when one of the members has the wanted text. */
  function LookupMember(w: World, file: string, members: seq<TypeElement>, steps: seq<PathStep>, seen: Seen, fuel: nat)
    : Option<Answer>
    requires steps != [] && steps[0].Member? && FindProperty(members, steps[0].name).Some?
    decreases fuel, 1, 0
  {
    var p := FindProperty(members, steps[0].name).value;
    if |steps| == 1 then Some(Answer(Found, seen))
    else match p.annotation
      case None => Some(Answer(Unknown, seen))
      case Some(t) => LookupType(w, file, t, steps[1..], seen, fuel)
  }

  function LookupBases(w: World, file: string, bases: seq<Option<string>>, steps: seq<PathStep>, seen: Seen, fuel: nat)
    : Option<(seq<PathLookup>, Seen)>
    decreases fuel, 1, |bases|
  {
    if bases == [] then Some(([], seen))
    else
      var first := if bases[0].None? || Resolve(w, file, bases[0].value).None? then Some(Answer(Unknown, seen))
                   else LookupDecl(w, Resolve(w, file, bases[0].value).value, steps, seen, fuel);
      match first
      case None => None
      case Some(a) =>
        match LookupBases(w, file, bases[1..], steps, a.seen, fuel)
        case None => None
        case Some((rest, seen')) => Some(([a.result] + rest, seen'))
  }

  function LookupParts(w: World, file: string, parts: seq<Type>, steps: seq<PathStep>, seen: Seen, fuel: nat)
    : Option<(seq<PathLookup>, Seen)>
    decreases fuel, 1, |parts|
  {
    if parts == [] then Some(([], seen))
    else
      match LookupType(w, file, parts[0], steps, seen, fuel)
      case None => None
      case Some(a) =>
        match LookupParts(w, file, parts[1..], steps, a.seen, fuel)
        case None => None
        case Some((rest, seen')) => Some(([a.result] + rest, seen'))
  }

  /** `lookupPath` at a type node of a file. */
  function LookupType(w: World, file: string, t: Type, steps: seq<PathStep>, seen: Seen, fuel: nat): Option<Answer>
    decreases fuel, 0, 0
  {
    if fuel == 0 then None
    else if steps == [] then Some(Answer(Found, seen))
    else match t
      case Literal(members) =>
        if steps[0].Element? then Some(Answer(Unknown, seen))
        else if FindProperty(members, steps[0].name).Some? then LookupMember(w, file, members, steps, seen, fuel - 1)
        else Some(Answer(Missing, seen))
      case Parenthesized(inner) => LookupType(w, file, inner, steps, seen, fuel - 1)
      case Intersection(parts) =>
        (match LookupParts(w, file, parts, steps, seen, fuel - 1)
         case None => None
         case Some((results, seen')) => Some(Answer(Combine(results), seen')))
      case Union(branches) =>
        (match LookupParts(w, file, branches, steps, seen, fuel - 1)
         case None => None
         case Some((results, seen')) => Some(Answer(CombineUnion(results), seen')))
      case ArrayOf(element) =>
        if steps[0].Element? then LookupType(w, file, element, steps[1..], seen, fuel - 1)
            else Some(Answer(Unknown, seen))
      case TypeOperator(_, operand) => LookupType(w, file, operand, steps, seen, fuel - 1)
      case Indexed(target, index) =>
        if index.Some? then LookupType(w, file, target, [Member(index.value)] + steps, seen, fuel - 1)
        else Some(Answer(Unknown, seen))
      case Reference(head, qualified, args) =>
        if IsWrapper(head) && args != [] then LookupType(w, file, args[0], steps, seen, fuel - 1)
        else if IsArrayName(head) && args != [] then
          if steps[0].Element? then LookupType(w, file, args[0], steps[1..], seen, fuel - 1)
              else Some(Answer(Unknown, seen))
        else if qualified || Resolve(w, file, head).None? then Some(Answer(Unknown, seen))
        else LookupDecl(w, Resolve(w, file, head).value, steps, seen, fuel - 1)
      case OtherType => Some(Answer(Unknown, seen))
  }
}
