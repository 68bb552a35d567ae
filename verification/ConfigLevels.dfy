/**
 * Where the schema-path check ends: by counting the steps that are added and taken away
 * along references, and beyond that.
 */
module ConfigLevels {
  import opened Wrappers
  import opened ConfigLookup
  import opened ConfigExact
  import opened ConfigTermination

  // ---------- Levels ----------

  /** A bound on the steps that can still be added from a declaration on. */
  type Level = DeclId -> nat

  /** With `room` for growth, every declaration a type leads to fits in, after the steps added on the way. */
  ghost predicate Fits(w: World, level: Level, file: string, t: Type, room: int) {
    match t
    case Literal(members) => MembersFit(w, level, file, members, room + 1)
    case Parenthesized(inner) => Fits(w, level, file, inner, room)
    case Intersection(parts) => AllFit(w, level, file, parts, room)
    case Union(branches) => AllFit(w, level, file, branches, room)
    case ArrayOf(element) => Fits(w, level, file, element, room + 1)
    case TypeOperator(_, operand) => Fits(w, level, file, operand, room)
    case Indexed(target, index) => index.Some? ==> Fits(w, level, file, target, room - 1)
    case Reference(head, qualified, args) =>
      if IsWrapper(head) && args != [] then Fits(w, level, file, args[0], room)
      else if IsArrayName(head) && args != [] then Fits(w, level, file, args[0], room + 1)
      else !qualified ==> NameFits(w, level, file, head, room)
    case OtherType => true
  }

  ghost predicate NameFits(w: World, level: Level, file: string, name: string, room: int) {
    Resolve(w, file, name).Some? ==> level(Resolve(w, file, name).value) <= room
  }

  ghost predicate AllFit(w: World, level: Level, file: string, ts: seq<Type>, room: int) {
    forall i :: 0 <= i < |ts| ==> Fits(w, level, file, ts[i], room)
  }

  ghost predicate MembersFit(w: World, level: Level, file: string, ms: seq<TypeElement>, room: int) {
    forall i :: 0 <= i < |ms| ==> MemberFits(w, level, file, ms[i], room)
  }

  ghost predicate MemberFits(w: World, level: Level, file: string, e: TypeElement, room: int) {
    e.Property? && e.annotation.Some? ==> Fits(w, level, file, e.annotation.value, room)
  }

  ghost predicate BasesFit(w: World, level: Level, file: string, bases: seq<Option<string>>, room: int) {
    forall i :: 0 <= i < |bases| && bases[i].Some? ==> NameFits(w, level, file, bases[i].value, room)
  }

  ghost predicate DeclFits(w: World, level: Level, id: DeclId)
    requires id in w.decls
  {
    match w.decls[id]
    case Interface(members, bases, _) =>
      MembersFit(w, level, id.file, members, level(id) + 1) && BasesFit(w, level, id.file, bases, level(id))
    case Alias(body) => Fits(w, level, id.file, body, level(id))
    case Enum => true
  }

  /**
   * Along every reference the steps added and the level of what is reached are no more
   * than the level left: around a reference cycle no step is gained.
   */
  ghost predicate Levelled(w: World, level: Level) {
    forall id :: id in w.decls ==> DeclFits(w, level, id)
  }

  /** The paths whose steps and level together are within the limit. */
  ghost function LevelPaths(w: World, level: Level, limit: nat): Paths {
    iset c: (DeclId, seq<PathStep>) | c.0 in w.decls && |c.1| + level(c.0) <= limit
  }

  lemma {:induction false} MemberFitsFound(w: World, level: Level, file: string, ms: seq<TypeElement>, text: string,
                                           room: int)
    requires MembersFit(w, level, file, ms, room) && FindProperty(ms, text).Some?
    ensures MemberFits(w, level, file, FindProperty(ms, text).value, room)
  {
    var p := FindProperty(ms, text).value;
    var i :| 0 <= i < |ms| && ms[i] == p;
    assert MemberFits(w, level, file, ms[i], room);
  }

  lemma {:induction false} FitsLeadsInto(w: World, level: Level, limit: nat, file: string, t: Type,
                                         steps: seq<PathStep>, room: int)
    requires Fits(w, level, file, t, room) && |steps| + room <= limit
    ensures LeadsInto(w, LevelPaths(w, level, limit), file, t, steps)
    decreases t
  {
    if steps != [] {
      match t
      case Literal(members) =>
        if steps[0].Member? { MemberFitLeadsInto(w, level, limit, file, members, steps, room + 1); }
      case Parenthesized(inner) => FitsLeadsInto(w, level, limit, file, inner, steps, room);
      case Intersection(parts) =>
        forall i | 0 <= i < |parts| ensures LeadsInto(w, LevelPaths(w, level, limit), file, parts[i], steps) {
          FitsLeadsInto(w, level, limit, file, parts[i], steps, room);
        }
      case Union(branches) =>
        forall i | 0 <= i < |branches| ensures LeadsInto(w, LevelPaths(w, level, limit), file, branches[i], steps) {
          FitsLeadsInto(w, level, limit, file, branches[i], steps, room);
        }
      case ArrayOf(element) =>
        if steps[0].Element? { FitsLeadsInto(w, level, limit, file, element, steps[1..], room + 1); }
      case TypeOperator(_, operand) => FitsLeadsInto(w, level, limit, file, operand, steps, room);
      case Indexed(target, index) =>
        if index.Some? { FitsLeadsInto(w, level, limit, file, target, [Member(index.value)] + steps, room - 1); }
      case Reference(head, qualified, args) =>
        if IsWrapper(head) && args != [] {
          FitsLeadsInto(w, level, limit, file, args[0], steps, room);
        } else if IsArrayName(head) && args != [] {
          if steps[0].Element? { FitsLeadsInto(w, level, limit, file, args[0], steps[1..], room + 1); }
        }
      case OtherType =>
    }
  }

  lemma {:induction false} MemberFitLeadsInto(w: World, level: Level, limit: nat, file: string, ms: seq<TypeElement>,
                                              steps: seq<PathStep>, room: int)
    requires steps != [] && steps[0].Member?
    requires MembersFit(w, level, file, ms, room) && |steps| - 1 + room <= limit
    ensures MemberLeadsInto(w, LevelPaths(w, level, limit), file, ms, steps)
    decreases ms
  {
    var p := FindProperty(ms, steps[0].name);
    if p.Some? && p.value.annotation.Some? {
      MemberFitsFound(w, level, file, ms, steps[0].name, room);
      FitsLeadsInto(w, level, limit, file, p.value.annotation.value, steps[1..], room);
    }
  }

  /** Where no reference cycle gains a step, every lookup ends. */
  lemma LevelledEnds(w: World, level: Level, id: DeclId, steps: seq<PathStep>)
    requires Levelled(w, level) && id in w.decls
    ensures exists bound: nat :: EndsWithin(w, id, steps, bound)
  {
    var limit := |steps| + level(id);
    var r := LevelPaths(w, level, limit);
    forall c | c in r ensures DeclLeadsInto(w, r, c.0, c.1) {
      assert DeclFits(w, level, c.0);
      if c.1 != [] {
        match w.decls[c.0]
        case Enum =>
        case Alias(body) => FitsLeadsInto(w, level, limit, c.0.file, body, c.1, level(c.0));
        case Interface(members, bases, _) =>
          if c.1[0].Member? { MemberFitLeadsInto(w, level, limit, c.0.file, members, c.1, level(c.0) + 1); }
      }
    }
    assert (id, steps) in r;
    LookupEnds(w, r, limit, id, steps);
  }

  // ---------- The boundary ----------

  /** An interface with a member `alt: Config['mode']` that refers to another of its members. */
  function SelfReferring(mode: Type): World {
    World(map[SUBJECT := Interface([Property("mode", "mode", Some(mode)),
                                    Property("alt", "alt", Some(Indexed(Reference("Config", false, []),
                                        Some("mode"))))], [], [])],
          map[("config.ts", "Config") := SUBJECT])
  }

  /** Such an interface gains no step: the member takes the one that the access adds. */
  lemma MemberAccessIsLevelled(mode: Type)
    requires Fits(SelfReferring(mode), _ => 0, "config.ts", mode, 1)
    ensures Levelled(SelfReferring(mode), _ => 0)
  {
    var w, zero: Level := SelfReferring(mode), _ => 0;
    var Interface(members, bases, _) := w.decls[SUBJECT];
    assert !IsWrapper("Config") && !IsArrayName("Config");
    assert Fits(w, zero, "config.ts", Reference("Config", false, []), 0);
    assert Fits(w, zero, "config.ts", Indexed(Reference("Config", false, []), Some("mode")), 1);
    forall i | 0 <= i < |members| ensures MemberFits(w, zero, "config.ts", members[i], 1) {}
  }

  /** `type A = A['x']`, whose lookups never end, gains a step with every round. */
  lemma SelfIndexIsNotLevelled(level: Level)
    ensures !Levelled(SELF_INDEXED, level)
  {
    assert Resolve(SELF_INDEXED, "config.ts", "A") == Some(SUBJECT);
    assert !IsWrapper("A") && !IsArrayName("A");
    assert !Fits(SELF_INDEXED, level, "config.ts", Reference("A", false, []), level(SUBJECT) - 1);
    assert !DeclFits(SELF_INDEXED, level, SUBJECT);
  }

  const CONFIG := Reference("Config", false, [])
  const PORT := Property("port", "port", Some(OtherType))
  const PORT_ACCESS := Indexed(Indexed(CONFIG, Some("server")), Some("port"))

  /** `interface Config { server: { port: number }; alt: Config['server']['port'] }`. */
  const NESTED := World(
    map[SUBJECT := Interface([Property("server", "server", Some(Literal([PORT]))),
                              Property("alt", "alt", Some(PORT_ACCESS))], [], [])],
    map[("config.ts", "Config") := SUBJECT])

  /** A gain that the walk does not follow does no harm: what `alt` leads to goes into `server`. */
  lemma NestedAccessEnds(level: Level, steps: seq<PathStep>)
    ensures !Levelled(NESTED, level)
    ensures exists bound: nat :: EndsWithin(NESTED, SUBJECT, steps, bound)
  {
    NestedAccessGains(level);
    var rest := if steps == [] then [] else steps[1..];
    var longer := [Member("server"), Member("port")] + rest;
    var r: Paths := iset{(SUBJECT, steps), (SUBJECT, longer)};
    AltLeadsInto(r, rest, longer);
    PortLeadsInto(r);
    forall s: seq<PathStep> | s == steps || s == longer ensures DeclLeadsInto(NESTED, r, SUBJECT, s) {
      assert s == longer ==> s[0] == Member("server");
      NestedLeadsInto(r, s);
    }
    LookupEnds(NESTED, r, |steps| + 2, SUBJECT, steps);
  }

  /** An access `Config['server']['port']` comes to `Config` with those two steps. */
  lemma AltLeadsInto(r: Paths, rest: seq<PathStep>, longer: seq<PathStep>)
    requires longer == [Member("server"), Member("port")] + rest && (SUBJECT, longer) in r
    ensures LeadsInto(NESTED, r, "config.ts", PORT_ACCESS, rest)
  {
    assert Resolve(NESTED, "config.ts", "Config") == Some(SUBJECT);
    assert !IsWrapper("Config") && !IsArrayName("Config");
    assert [Member("server")] + ([Member("port")] + rest) == longer;
    assert LeadsInto(NESTED, r, "config.ts", CONFIG, longer);
  }

  lemma PortLeadsInto(r: Paths)
    ensures forall s :: LeadsInto(NESTED, r, "config.ts", Literal([PORT]), s)
  {
    forall s: seq<PathStep> ensures LeadsInto(NESTED, r, "config.ts", Literal([PORT]), s) {
      if s != [] && s[0].Member? {
        assert FindProperty([PORT], s[0].name).Some? ==> FindProperty([PORT], s[0].name) == Some(PORT);
      }
    }
  }

  lemma NestedLeadsInto(r: Paths, s: seq<PathStep>)
    requires forall s :: LeadsInto(NESTED, r, "config.ts", Literal([PORT]), s)
    requires s != [] && s[0] != Member("server") ==> LeadsInto(NESTED, r, "config.ts", PORT_ACCESS, s[1..])
    ensures DeclLeadsInto(NESTED, r, SUBJECT, s)
  {
    var members := NESTED.decls[SUBJECT].members;
    if s != [] && s[0].Member? {
      var p := FindProperty(members, s[0].name);
      assert p.Some? ==> p.value == members[0] || (p.value == members[1] && p.value.text == "alt");
      assert p.Some? && p.value.text == "alt" ==> s[0] != Member("server") by {
        assert "alt"[0] != "server"[0];
      }
    }
  }

  lemma NestedAccessGains(level: Level)
    ensures !Levelled(NESTED, level)
  {
    var alt := NESTED.decls[SUBJECT].members[1];
    assert Resolve(NESTED, "config.ts", "Config") == Some(SUBJECT);
    assert !IsWrapper("Config") && !IsArrayName("Config");
    assert !Fits(NESTED, level, "config.ts", CONFIG, level(SUBJECT) - 1);
    assert !Fits(NESTED, level, "config.ts", PORT_ACCESS, level(SUBJECT) + 1);
    assert !MemberFits(NESTED, level, "config.ts", alt, level(SUBJECT) + 1);
    assert !DeclFits(NESTED, level, SUBJECT);
  }

  const SELF := Reference("A", false, [])
  const X_GROWS := Property("x", "x", Some(Indexed(SELF, Some("y"))))
  const Y_GROWS := Property("y", "y", Some(Indexed(Indexed(SELF, Some("x")), Some("z"))))

  /** `type A = { x: A['y']; y: A['x']['z'] }`. */
  const GROWING := World(map[SUBJECT := Alias(Literal([X_GROWS, Y_GROWS]))], map[("config.ts", "A") := SUBJECT])

  /**
   * A path can grow for ever and the lookup still end: the guard compares no more than
   * the number of steps, and so cuts this growth off.
   */
  lemma GuardStopsGrowth(steps: seq<PathStep>)
    ensures exists bound: nat :: EndsWithin(GROWING, SUBJECT, steps, bound)
    ensures forall r, limit: nat | |steps| > 1 && steps[0] == Member("x") && (SUBJECT, steps) in r ::
              !Closed(GROWING, r, limit)
  {
    var bound := |steps| + 1;
    forall fuel: nat ensures ShortDecl(GROWING, SUBJECT, steps, {}, fuel, bound) { GrowthIsShort(steps, fuel); }
    ShortEnds(GROWING, SUBJECT, steps, bound);
    forall r, limit: nat | |steps| > 1 && steps[0] == Member("x") && (SUBJECT, steps) in r
      ensures !Closed(GROWING, r, limit)
    {
      GrowthIsNotClosed(r, limit, steps);
    }
  }

  lemma GrowthIsShort(steps: seq<PathStep>, fuel: nat)
    ensures ShortDecl(GROWING, SUBJECT, steps, {}, fuel, |steps| + 1)
  {
    if fuel > 0 && steps != [] {
      var seen: Seen, limit := {} + {(SUBJECT, |steps|)}, |steps| + 1;
      if steps[0] == Member("x") {
        XIsShort(steps, {}, fuel, limit);
      } else if steps[0] == Member("y") {
        var rest := steps[1..];
        var longer := [Member("x")] + ([Member("z")] + rest);
        if fuel > 5 { XIsShort(longer, seen, fuel - 5, limit); }
        SelfIsShort(longer, seen, fuel, 4, limit);
        assert fuel > 2 ==> ShortType(GROWING, "config.ts", Y_GROWS.annotation.value, rest, seen, fuel - 2, limit);
        MemberIsShort(steps, Y_GROWS, {}, fuel, limit);
      } else {
        NoMemberIsShort(steps, {}, fuel, limit);
      }
    }
  }

  /** What `x` leads to has the length of the path it was reached by. */
  lemma XIsShort(steps: seq<PathStep>, seen: Seen, fuel: nat, limit: nat)
    requires steps != [] && steps[0] == Member("x") && |steps| <= limit
    ensures ShortDecl(GROWING, SUBJECT, steps, seen, fuel, limit)
  {
    var seen', same := seen + {(SUBJECT, |steps|)}, [Member("y")] + steps[1..];
    SelfIsShort(same, seen', fuel, 3, limit);
    assert fuel > 2 ==> ShortType(GROWING, "config.ts", X_GROWS.annotation.value, steps[1..], seen', fuel - 2, limit);
    MemberIsShort(steps, X_GROWS, seen, fuel, limit);
  }

  lemma SelfIsShort(steps: seq<PathStep>, seen: Seen, fuel: nat, used: nat, limit: nat)
    requires steps != []
    requires fuel > used + 1 ==> ShortDecl(GROWING, SUBJECT, steps, seen, fuel - used - 1, limit)
    ensures fuel > used ==> ShortType(GROWING, "config.ts", SELF, steps, seen, fuel - used, limit)
  {
    assert Resolve(GROWING, "config.ts", "A") == Some(SUBJECT);
    assert !IsWrapper("A") && !IsArrayName("A");
  }

  lemma MemberIsShort(steps: seq<PathStep>, p: TypeElement, seen: Seen, fuel: nat, limit: nat)
    requires steps != [] && |steps| <= limit && (p == X_GROWS || p == Y_GROWS) && steps[0] == Member(p.text)
    requires fuel > 2 ==> ShortType(GROWING, "config.ts", p.annotation.value, steps[1..],
                                    seen + {(SUBJECT, |steps|)}, fuel - 2, limit)
    ensures ShortDecl(GROWING, SUBJECT, steps, seen, fuel, limit)
  {
    GrowingMembers();
    var members := GROWING.decls[SUBJECT].body.members;
    var seen' := seen + {(SUBJECT, |steps|)};
    assert FindProperty(members, steps[0].name) == Some(p);
    assert fuel > 2 ==> ShortMember(GROWING, "config.ts", members, steps, seen', fuel - 2, limit);
    assert fuel > 1 ==> ShortType(GROWING, "config.ts", Literal(members), steps, seen', fuel - 1, limit);
  }

  lemma NoMemberIsShort(steps: seq<PathStep>, seen: Seen, fuel: nat, limit: nat)
    requires steps != [] && |steps| <= limit && steps[0] != Member("x") && steps[0] != Member("y")
    ensures ShortDecl(GROWING, SUBJECT, steps, seen, fuel, limit)
  {
    var members := GROWING.decls[SUBJECT].body.members;
    GrowingMembers();
    assert steps[0].Member? ==> steps[0].name != "x" && steps[0].name != "y";
    var seen' := seen + {(SUBJECT, |steps|)};
    assert fuel > 1 ==> ShortType(GROWING, "config.ts", Literal(members), steps, seen', fuel - 1, limit);
  }

  lemma GrowingMembers()
    ensures var ms := GROWING.decls[SUBJECT].body.members;
            && FindProperty(ms, "x") == Some(X_GROWS) && FindProperty(ms, "y") == Some(Y_GROWS)
            && forall text | text != "x" && text != "y" :: FindProperty(ms, text) == None
  {
    var ms := GROWING.decls[SUBJECT].body.members;
    assert ms[0].text[0] != "y"[0];
    assert ms[1..][0] == Y_GROWS;
  }

  /** Two rounds, by `x` and `y`, lead back to `x` with one step more. */
  lemma {:induction false} GrowthIsNotClosed(r: Paths, limit: nat, steps: seq<PathStep>)
    requires |steps| > 1 && steps[0] == Member("x") && (SUBJECT, steps) in r
    ensures !Closed(GROWING, r, limit)
    decreases limit + 1 - |steps|
  {
    if Closed(GROWING, r, limit) {
      var y := [Member("y")] + steps[1..];
      var x := [Member("x")] + ([Member("z")] + steps[1..]);
      assert |(SUBJECT, steps).1| <= limit;
      Follow(r, limit, steps, X_GROWS);
      SelfFollows(r, y);
      Follow(r, limit, y, Y_GROWS);
      assert y[1..] == steps[1..];
      SelfFollows(r, x);
      GrowthIsNotClosed(r, limit, x);
    }
  }

  lemma Follow(r: Paths, limit: nat, steps: seq<PathStep>, p: TypeElement)
    requires Closed(GROWING, r, limit) && (SUBJECT, steps) in r && (p == X_GROWS || p == Y_GROWS)
    requires steps != [] && steps[0] == Member(p.text)
    ensures LeadsInto(GROWING, r, "config.ts", p.annotation.value, steps[1..])
  {
    GrowingMembers();
    var c := (SUBJECT, steps);
    var members := GROWING.decls[SUBJECT].body.members;
    assert DeclLeadsInto(GROWING, r, c.0, c.1);
    assert LeadsInto(GROWING, r, "config.ts", Literal(members), steps);
    assert FindProperty(members, steps[0].name) == Some(p);
  }

  lemma SelfFollows(r: Paths, steps: seq<PathStep>)
    requires steps != [] && LeadsInto(GROWING, r, "config.ts", SELF, steps)
    ensures (SUBJECT, steps) in r
  {
    assert Resolve(GROWING, "config.ts", "A") == Some(SUBJECT);
    assert !IsWrapper("A") && !IsArrayName("A");
  }
}
