/** Link destinations and their rewriting in `scripts/project-doc-site.ts`. */
module DocSite {
  import opened Wrappers
  import opened Splices
  import opened WhiteSpace

  datatype Kind = Link | Image | Definition

  datatype ScanError = NoLabelEnd | NoSeparator | NoInlineDestination | NoAngleEnd

  // ---------- The scanners, as functions of a position ----------

  /** The position of a character at or after `i`, or the length. */
  function IndexOf(s: string, c: char, i: nat): (r: nat)
    requires i <= |s|
    ensures i <= r <= |s| && c !in s[i..r] && (r < |s| ==> s[r] == c)
    decreases |s| - i
  {
    if i == |s| || s[i] == c then i else IndexOf(s, c, i + 1)
  }

  /** The bracket that closes the label, from `i` with `depth` brackets open. */
  function ScanLabel(s: string, i: nat, depth: int): (r: Option<nat>)
    ensures r.Some? ==> i <= r.value < |s|
    decreases |s| - i
  {
    if i >= |s| then None
    else if s[i] == '\\' then ScanLabel(s, i + 2, depth)
    else if s[i] == '[' then ScanLabel(s, i + 1, depth + 1)
    else if s[i] == ']' then if depth == 1 then Some(i) else ScanLabel(s, i + 1, depth - 1)
    else ScanLabel(s, i + 1, depth)
  }

  function ScanSpace(s: string, i: nat): (r: nat)
    requires i <= |s|
    ensures i <= r <= |s|
    decreases |s| - i
  {
    if i < |s| && IsSpace(s[i]) then ScanSpace(s, i + 1) else i
  }

  function ScanAngle(s: string, i: nat): (r: Option<nat>)
    ensures r.Some? ==> i <= r.value < |s|
    decreases |s| - i
  {
    if i >= |s| then None
    else if s[i] == '\\' then ScanAngle(s, i + 2)
    else if s[i] == '>' then Some(i)
    else ScanAngle(s, i + 1)
  }

  /** Where a plain destination ends, from `i` with `depth` parentheses open. */
  function ScanPlain(s: string, i: nat, depth: nat): (r: nat)
    ensures r <= |s| && (i <= |s| ==> i <= r)
    decreases |s| - i
  {
    if i >= |s| then |s|
    else if s[i] == '\\' then ScanPlain(s, i + 2, depth)
    else if s[i] == '(' then ScanPlain(s, i + 1, depth + 1)
    else if s[i] == ')' then if depth == 0 then i else ScanPlain(s, i + 1, depth - 1)
    else if IsSpace(s[i]) && depth == 0 then i
    else ScanPlain(s, i + 1, depth)
  }

  function DestinationAt(raw: string, start: nat): (r: Result<Span, ScanError>)
    requires start <= |raw|
    ensures r.Success? ==> start <= r.value.start <= r.value.end <= |raw|
  {
    if start < |raw| && raw[start] == '<' then
      match ScanAngle(raw, start + 1)
      case None => Failure(NoAngleEnd)
      case Some(end) => Success(Span(start + 1, end))
    else Success(Span(start, ScanPlain(raw, start, 0)))
  }

  /** The destination behind white space. */
  function DestinationBehind(raw: string, i: nat): (r: Result<Span, ScanError>)
    requires i <= |raw|
    ensures r.Success? ==> i <= r.value.start <= r.value.end <= |raw|
  {
    DestinationAt(raw, ScanSpace(raw, i))
  }

  function LabelEndOf(raw: string): (r: Option<nat>)
    ensures r.Some? ==> r.value < |raw|
  {
    var first := IndexOf(raw, '[', 0);
    if first == |raw| then None else ScanLabel(raw, first, 0)
  }

  /** Behind the separator that follows the label. */
  function SeparatorEnd(raw: string, kind: Kind, labelEnd: nat): (r: Result<nat, ScanError>)
    requires labelEnd < |raw|
    ensures r.Success? ==> labelEnd < r.value <= |raw|
  {
    if kind == Definition then
      var colon := IndexOf(raw, ':', labelEnd + 1);
      if colon == |raw| then Failure(NoSeparator) else Success(colon + 1)
    else if labelEnd + 1 >= |raw| || raw[labelEnd + 1] != '(' then Failure(NoInlineDestination)
    else Success(labelEnd + 2)
  }

  /** The destination of a raw node. */
  function Destination(raw: string, kind: Kind): (r: Result<Span, ScanError>)
    ensures r.Success? ==> LabelEndOf(raw).Some? && LabelEndOf(raw).value < r.value.start <= r.value.end <= |raw|
  {
    match LabelEndOf(raw)
    case None => Failure(NoLabelEnd)
    case Some(labelEnd) =>
      match SeparatorEnd(raw, kind, labelEnd)
      case Failure(error) => Failure(error)
      case Success(p) => DestinationBehind(raw, p)
  }

  // ---------- The scanners, as the loops they are ----------

  method LabelEnd(source: string) returns (r: Option<nat>)
    ensures r == LabelEndOf(source)
  {
    var index := 0;
    while index < |source| && source[index] != '['
      invariant 0 <= index <= |source| && IndexOf(source, '[', 0) == IndexOf(source, '[', index)
    {
      index := index + 1;
    }
    if index == |source| {
      return None;
    }
    var depth := 0;
    ghost var first := index;
    while index < |source|
      invariant 0 <= index <= |source| + 1
      invariant ScanLabel(source, first, 0) == ScanLabel(source, index, depth)
    {
      var c := source[index];
      if c == '\\' {
        index := index + 1;
      } else if c == '[' {
        depth := depth + 1;
      } else if c == ']' {
        depth := depth - 1;
        if depth == 0 {
          return Some(index);
        }
      }
      index := index + 1;
    }
    return None;
  }

  method SkipWhitespace(source: string, start: nat) returns (index: nat)
    requires start <= |source|
    ensures index == ScanSpace(source, start)
  {
    index := start;
    while index < |source| && IsSpace(source[index])
      invariant start <= index <= |source| && ScanSpace(source, start) == ScanSpace(source, index)
    {
      index := index + 1;
    }
  }

  /** The rest of `destinationRange`, from the start of the destination. */
  method DestinationFrom(raw: string, start: nat) returns (r: Result<Span, ScanError>)
    requires start <= |raw|
    ensures r == DestinationAt(raw, start)
  {
    var index: nat := start;
    if start < |raw| && raw[start] == '<' {
      index := start + 1;
      while index < |raw|
        invariant start + 1 <= index <= |raw| + 1
        invariant ScanAngle(raw, start + 1) == ScanAngle(raw, index)
      {
        if raw[index] == '\\' {
          index := index + 1;
        } else if raw[index] == '>' {
          return Success(Span(start + 1, index));
        }
        index := index + 1;
      }
      return Failure(NoAngleEnd);
    }
    var depth: nat := 0;
    while index < |raw|
      invariant start <= index <= |raw| + 1
      invariant ScanPlain(raw, start, 0) == ScanPlain(raw, index, depth)
    {
      var c := raw[index];
      if c == '\\' {
        index := index + 1;
      } else if c == '(' {
        depth := depth + 1;
      } else if c == ')' {
        if depth == 0 {
          return Success(Span(start, index));
        }
        depth := depth - 1;
      } else if IsSpace(c) && depth == 0 {
        return Success(Span(start, index));
      }
      index := index + 1;
    }
    return Success(Span(start, |raw|));
  }

  /** `destinationRange`. */
  method DestinationRange(raw: string, kind: Kind) returns (r: Result<Span, ScanError>)
    ensures r == Destination(raw, kind)
  {
    var labelEnd := LabelEnd(raw);
    if labelEnd.None? {
      return Failure(NoLabelEnd);
    }
    var start: nat;
    if kind == Definition {
      var colon := IndexOf(raw, ':', labelEnd.value + 1);
      if colon == |raw| {
        return Failure(NoSeparator);
      }
      start := SkipWhitespace(raw, colon + 1);
    } else {
      if labelEnd.value + 1 >= |raw| || raw[labelEnd.value + 1] != '(' {
        return Failure(NoInlineDestination);
      }
      start := SkipWhitespace(raw, labelEnd.value + 2);
    }
    r := DestinationFrom(raw, start);
  }

  // ---------- Printing nodes ----------

  /**
   * Text in which brackets of one kind are balanced or escaped: CommonMark 0.31,
   * sections 6.3 (link text and link destination) and 4.7 (definitions).
   */
  datatype Token = Plain(c: char) | Escaped(c: char) | Group(inner: seq<Token>)

  function Show(tokens: seq<Token>, open: char, close: char): string {
    if tokens == [] then "" else ShowToken(tokens[0], open, close) + Show(tokens[1..], open, close)
  }

  function ShowToken(t: Token, open: char, close: char): (s: string)
    ensures s != ""
  {
    match t
    case Plain(c) => [c]
    case Escaped(c) => ['\\', c]
    case Group(inner) => [open] + Show(inner, open, close) + [close]
  }

  predicate Balanced(tokens: seq<Token>, open: char, close: char) {
    forall i | 0 <= i < |tokens| :: BalancedToken(tokens[i], open, close)
  }

  predicate BalancedToken(t: Token, open: char, close: char) {
    match t
    case Plain(c) => c != open && c != close && c != '\\'
    case Escaped(_) => true
    case Group(inner) => Balanced(inner, open, close)
  }

  /** The string has `t` at position `i`. */
  predicate At(s: string, i: nat, t: string) {
    i + |t| <= |s| && s[i..i + |t|] == t
  }

  /** The scan of a balanced label passes over it, inside at least one bracket. */
  lemma {:induction false} LabelPasses(s: string, i: nat, tokens: seq<Token>, depth: nat)
    requires Balanced(tokens, '[', ']') && depth >= 1 && At(s, i, Show(tokens, '[', ']'))
    ensures ScanLabel(s, i, depth) == ScanLabel(s, i + |Show(tokens, '[', ']')|, depth)
    decreases tokens, 0
  {
    if tokens != [] {
      var shown, rest := ShowToken(tokens[0], '[', ']'), tokens[1..];
      AtConcat(s, i, shown, Show(rest, '[', ']'));
      assert BalancedToken(tokens[0], '[', ']');
      BalancedTail(tokens, '[', ']');
      LabelTokenPasses(s, i, tokens[0], depth);
      LabelPasses(s, i + |shown|, rest, depth);
    }
  }

  lemma {:induction false} LabelTokenPasses(s: string, i: nat, t: Token, depth: nat)
    requires BalancedToken(t, '[', ']') && depth >= 1 && At(s, i, ShowToken(t, '[', ']'))
    ensures ScanLabel(s, i, depth) == ScanLabel(s, i + |ShowToken(t, '[', ']')|, depth)
    decreases t, 1
  {
    match t
    case Plain(c) => AtChar(s, i, [c], 0);
    case Escaped(c) => AtChar(s, i, ['\\', c], 0);
    case Group(inner) =>
      var mid := Show(inner, '[', ']');
      AtGroup(s, i, '[', mid, ']');
      LabelPasses(s, i + 1, inner, depth + 1);
  }

  lemma BalancedTail(tokens: seq<Token>, open: char, close: char)
    requires tokens != [] && Balanced(tokens, open, close)
    ensures Balanced(tokens[1..], open, close)
  {
  }

  lemma AtChar(s: string, i: nat, t: string, k: nat)
    requires At(s, i, t) && k < |t|
    ensures s[i + k] == t[k]
  {
  }

  lemma AtConcat(s: string, i: nat, a: string, b: string)
    requires At(s, i, a + b)
    ensures At(s, i, a) && At(s, i + |a|, b)
  {
    assert s[i..i + |a|] == s[i..i + |a + b|][..|a|];
    assert s[i + |a|..i + |a| + |b|] == s[i..i + |a + b|][|a|..];
  }

  lemma AtGroup(s: string, i: nat, open: char, mid: string, close: char)
    requires At(s, i, [open] + mid + [close])
    ensures s[i] == open && At(s, i + 1, mid) && s[i + 1 + |mid|] == close
  {
    AtConcat(s, i, [open] + mid, [close]);
    AtConcat(s, i, [open], mid);
    AtChar(s, i, [open], 0);
    AtChar(s, i + 1 + |mid|, [close], 0);
  }

  /** No white space at the top level of a plain destination, other than escaped. */
  predicate NoTopSpace(tokens: seq<Token>) {
    forall i | 0 <= i < |tokens| :: tokens[i].Plain? ==> !IsSpace(tokens[i].c)
  }

  /** The scan of a balanced destination passes over it. */
  lemma {:induction false} PlainPasses(s: string, i: nat, tokens: seq<Token>, depth: nat)
    requires Balanced(tokens, '(', ')') && (depth == 0 ==> NoTopSpace(tokens)) && At(s, i, Show(tokens, '(', ')'))
    ensures ScanPlain(s, i, depth) == ScanPlain(s, i + |Show(tokens, '(', ')')|, depth)
    decreases tokens, 0
  {
    if tokens != [] {
      var shown, rest := ShowToken(tokens[0], '(', ')'), tokens[1..];
      AtConcat(s, i, shown, Show(rest, '(', ')'));
      assert BalancedToken(tokens[0], '(', ')');
      BalancedTail(tokens, '(', ')');
      PlainTokenPasses(s, i, tokens[0], depth);
      PlainPasses(s, i + |shown|, rest, depth);
    }
  }

  lemma {:induction false} PlainTokenPasses(s: string, i: nat, t: Token, depth: nat)
    requires BalancedToken(t, '(', ')') && (depth == 0 && t.Plain? ==> !IsSpace(t.c))
             && At(s, i, ShowToken(t, '(', ')'))
    ensures ScanPlain(s, i, depth) == ScanPlain(s, i + |ShowToken(t, '(', ')')|, depth)
    decreases t, 1
  {
    match t
    case Plain(c) => AtChar(s, i, [c], 0);
    case Escaped(c) => AtChar(s, i, ['\\', c], 0);
    case Group(inner) =>
      var mid := Show(inner, '(', ')');
      AtGroup(s, i, '(', mid, ')');
      PlainPasses(s, i + 1, inner, depth + 1);
  }

  /** The scan of an angle-bracket destination passes over its content. */
  lemma {:induction false} AnglePasses(s: string, i: nat, tokens: seq<Token>)
    requires Flat(tokens) && At(s, i, Show(tokens, '<', '>'))
    ensures ScanAngle(s, i) == ScanAngle(s, i + |Show(tokens, '<', '>')|)
    decreases |tokens|
  {
    if tokens != [] {
      var shown, rest := ShowToken(tokens[0], '<', '>'), tokens[1..];
      AtConcat(s, i, shown, Show(rest, '<', '>'));
      assert FlatToken(tokens[0]);
      AtChar(s, i, shown, 0);
      forall k | 0 <= k < |rest| ensures FlatToken(rest[k]) { assert FlatToken(tokens[k + 1]); }
      AnglePasses(s, i + |shown|, rest);
    }
  }

  predicate Flat(tokens: seq<Token>) {
    forall i | 0 <= i < |tokens| :: FlatToken(tokens[i])
  }

  predicate FlatToken(t: Token) {
    match t
    case Plain(c) => c != '<' && c != '>' && c != '\\'
    case Escaped(_) => true
    case Group(_) => false
  }

  // ---------- Nodes ----------

  /** A destination in angle brackets, or bare; a bare one may end in a literal backslash. */
  datatype Target = Angle(content: seq<Token>) | Bare(tokens: seq<Token>, backslash: bool)

  /** `tail` is what follows the destination: a title and the closing parenthesis. */
  datatype Node = Node(kind: Kind, caption: seq<Token>, space: string, target: Target, tail: string)

  function TargetText(t: Target): string {
    match t
    case Angle(content) => "<" + Show(content, '<', '>') + ">"
    case Bare(tokens, backslash) => Show(tokens, '(', ')') + Ending(backslash)
  }

  /** The destination text without its angle brackets. */
  function Inner(t: Target): string {
    match t
    case Angle(content) => Show(content, '<', '>')
    case Bare(_, _) => TargetText(t)
  }

  function Prefix(k: Kind): string {
    if k == Image then "!" else ""
  }

  function Separator(k: Kind): string {
    if k == Definition then ":" else "("
  }

  /** What precedes the destination. */
  function Head(n: Node): string {
    Prefix(n.kind) + "[" + Show(n.caption, '[', ']') + "]" + Separator(n.kind) + n.space
  }

  function Print(n: Node): string {
    Head(n) + TargetText(n.target) + n.tail
  }

  predicate IsAsciiSpace(c: char) {
    0x09 <= c as int <= 0x0D || c == ' '
  }

  /** Only this white space may stand in front of a destination. */
  predicate AsciiBlank(s: string) {
    forall i | 0 <= i < |s| :: IsAsciiSpace(s[i])
  }

  predicate WellFormed(n: Node) {
    && Balanced(n.caption, '[', ']') && AsciiBlank(n.space)
    && match n.target
       case Angle(content) => Flat(content)
       case Bare(tokens, backslash) => BareFits(n.kind, tokens, backslash, n.tail)
  }

  /** Where the printer put the destination. */
  function Expected(n: Node): Span {
    TargetSpan(n.target, |Head(n)|)
  }

  function TargetSpan(t: Target, p: nat): Span {
    match t
    case Angle(content) => Span(p + 1, p + 1 + |Show(content, '<', '>')|)
    case Bare(_, _) => Span(p, p + |TargetText(t)|)
  }

  /**
   * The bare destinations the scanner reads as CommonMark does: none with white space
   * beyond ASCII outside parentheses, none whose final backslash meets white space.
   */
  predicate Readable(n: Node) {
    n.target.Bare? ==> NoTopSpace(n.target.tokens) && !(n.target.backslash && n.tail != "")
  }

  // ---------- Finding the head ----------

  predicate Begins(raw: string, head: string) {
    |head| <= |raw| && raw[..|head|] == head
  }

  /** Where the label of a printed node ends. */
  function LabelLength(n: Node): nat {
    |Prefix(n.kind)| + 1 + |Show(n.caption, '[', ']')|
  }

  /** The parts of a head lie in order. */
  lemma PartsLie(raw: string, a: string, b: string, c: string, d: string, e: string, f: string)
    requires Begins(raw, a + b + c + d + e + f)
    ensures At(raw, 0, a) && At(raw, |a|, b) && At(raw, |a| + |b|, c) && At(raw, |a| + |b| + |c|, d)
    ensures At(raw, |a| + |b| + |c| + |d|, e) && At(raw, |a| + |b| + |c| + |d| + |e|, f)
  {
    var ab := a + b;
    var abc := ab + c;
    var abcd := abc + d;
    var abcde := abcd + e;
    EndsWithPart(raw, abcde + f, abcde, f);
    EndsWithPart(raw, abcde, abcd, e);
    EndsWithPart(raw, abcd, abc, d);
    EndsWithPart(raw, abc, ab, c);
    EndsWithPart(raw, ab, a, b);
  }

  /** The end of a beginning of the text lies where the rest of that beginning ends. */
  lemma EndsWithPart(s: string, x: string, a: string, b: string)
    requires |x| <= |s| && s[..|x|] == x && x == a + b
    ensures s[..|a|] == a && At(s, |a|, b)
  {
    assert s[|a|..|a| + |b|] == x[|a|..];
  }

  lemma LabelFound(n: Node, raw: string)
    requires WellFormed(n) && Begins(raw, Head(n))
    ensures LabelEndOf(raw) == Some(LabelLength(n))
  {
    PartsLie(raw, Prefix(n.kind), "[", Show(n.caption, '[', ']'), "]", Separator(n.kind), n.space);
    FirstBracket(raw, n.kind);
    AtChar(raw, LabelLength(n), "]", 0);
    LabelEndsAt(raw, |Prefix(n.kind)|, n.caption);
  }

  lemma FirstBracket(raw: string, kind: Kind)
    requires At(raw, 0, Prefix(kind)) && At(raw, |Prefix(kind)|, "[")
    ensures IndexOf(raw, '[', 0) == |Prefix(kind)| < |raw| && raw[|Prefix(kind)|] == '['
  {
    AtChar(raw, |Prefix(kind)|, "[", 0);
    if kind == Image { AtChar(raw, 0, "!", 0); }
  }

  lemma LabelEndsAt(raw: string, at: nat, caption: seq<Token>)
    requires IndexOf(raw, '[', 0) == at < |raw| && raw[at] == '['
    requires Balanced(caption, '[', ']') && At(raw, at + 1, Show(caption, '[', ']'))
    requires at + 1 + |Show(caption, '[', ']')| < |raw| && raw[at + 1 + |Show(caption, '[', ']')|] == ']'
    ensures LabelEndOf(raw) == Some(at + 1 + |Show(caption, '[', ']')|)
  {
    LabelPasses(raw, at + 1, caption, 1);
  }

  lemma {:induction false} SpacePasses(s: string, i: nat, space: string)
    requires Blank(space) && At(s, i, space)
    ensures ScanSpace(s, i) == ScanSpace(s, i + |space|)
    decreases |space|
  {
    if space != "" {
      AtChar(s, i, space, 0);
      assert space == [space[0]] + space[1..];
      AtConcat(s, i, [space[0]], space[1..]);
      forall k | 0 <= k < |space[1..]| ensures IsSpace(space[1..][k]) { assert IsSpace(space[k + 1]); }
      SpacePasses(s, i + 1, space[1..]);
    }
  }

  lemma SeparatorFound(raw: string, kind: Kind, labelEnd: nat)
    requires labelEnd + 2 <= |raw| && raw[labelEnd + 1] == Separator(kind)[0]
    ensures SeparatorEnd(raw, kind, labelEnd) == Success(labelEnd + 2)
  {
  }

  lemma ScanBegins(raw: string, kind: Kind, labelEnd: nat)
    requires LabelEndOf(raw) == Some(labelEnd)
    requires labelEnd + 2 <= |raw| && raw[labelEnd + 1] == Separator(kind)[0]
    ensures Destination(raw, kind) == DestinationBehind(raw, labelEnd + 2)
  {
    SeparatorFound(raw, kind, labelEnd);
  }

  /** Behind label, separator and white space the scan looks for the destination. */
  lemma HeadFound(n: Node, raw: string)
    requires WellFormed(n) && Begins(raw, Head(n))
    ensures Destination(raw, n.kind) == DestinationBehind(raw, |Head(n)|)
  {
    LabelFound(n, raw);
    BehindLabel(n, raw);
    ScanBegins(raw, n.kind, LabelLength(n));
  }

  lemma BehindLabel(n: Node, raw: string)
    requires WellFormed(n) && Begins(raw, Head(n))
    ensures LabelLength(n) + 2 <= |raw| && raw[LabelLength(n) + 1] == Separator(n.kind)[0]
    ensures DestinationBehind(raw, LabelLength(n) + 2) == DestinationBehind(raw, |Head(n)|)
  {
    var before := HeadShut(n);
    BehindBracket(raw, before, Separator(n.kind), n.space);
  }

  /** The head up to the bracket that closes the label. */
  lemma HeadShut(n: Node) returns (before: string)
    ensures Head(n) == before + Separator(n.kind) + n.space && |before| == LabelLength(n) + 1
    ensures |Separator(n.kind)| == 1 && |Head(n)| == LabelLength(n) + 2 + |n.space|
  {
    before := Prefix(n.kind) + "[" + Show(n.caption, '[', ']') + "]";
  }

  lemma BehindBracket(raw: string, before: string, separator: string, space: string)
    requires Begins(raw, before + separator + space) && |separator| == 1 && AsciiBlank(space)
    ensures var p := |before|;
            && p + 1 <= |raw| && raw[p] == separator[0]
            && DestinationBehind(raw, p + 1) == DestinationBehind(raw, p + 1 + |space|)
  {
    EndsWithPart(raw, before + separator + space, before + separator, space);
    EndsWithPart(raw, before + separator, before, separator);
    SpaceBehind(raw, |before|, separator, space, |before| + 1 + |space|);
  }

  lemma SpaceBehind(raw: string, p: nat, separator: string, space: string, h: nat)
    requires At(raw, p, separator) && |separator| == 1 && At(raw, p + 1, space) && h == p + 1 + |space|
    requires AsciiBlank(space)
    ensures p + 1 <= |raw| && raw[p] == separator[0] && DestinationBehind(raw, p + 1) == DestinationBehind(raw, h)
  {
    AtChar(raw, p, separator, 0);
    AsciiIsBlank(space);
    SpacePasses(raw, p + 1, space);
  }

  // ---------- The two directions ----------

  lemma AngleFound(raw: string, h: nat, content: seq<Token>)
    requires Flat(content) && At(raw, h, "<" + Show(content, '<', '>') + ">")
    ensures DestinationBehind(raw, h) == Success(Span(h + 1, h + 1 + |Show(content, '<', '>')|))
  {
    AtGroup(raw, h, '<', Show(content, '<', '>'), '>');
    AnglePasses(raw, h + 1, content);
  }

  /** What `WellFormed` says of a bare destination and its tail. */
  predicate BareFits(kind: Kind, tokens: seq<Token>, backslash: bool, tail: string) {
    var text := Show(tokens, '(', ')') + Ending(backslash);
    && Balanced(tokens, '(', ')')
    && (forall i | 0 <= i < |text| :: !IsAsciiSpace(text[i]))
    && (text != "" ==> text[0] != '<')
    && (if tail == "" then kind == Definition
        else IsAsciiSpace(tail[0]) || (kind != Definition && !backslash && tail[0] == ')'))
    && (text == "" ==> tail != "" && tail[0] == ')')
  }

  /** A bare destination lies in the raw text, with its tail behind it. */
  predicate BareLies(raw: string, h: nat, shown: string, end: string, tail: string) {
    h + |shown| <= |raw| && At(raw, h, shown) && raw[h + |shown|..] == end + tail
  }

  function Ending(backslash: bool): string {
    if backslash then "\\" else ""
  }

  /** If it does not begin with white space, its scan begins at its start. */
  lemma BareStart(raw: string, h: nat, kind: Kind, tokens: seq<Token>, backslash: bool, tail: string)
    requires BareFits(kind, tokens, backslash, tail)
    requires BareLies(raw, h, Show(tokens, '(', ')'), Ending(backslash), tail)
    requires tokens != [] && tokens[0].Plain? ==> !IsSpace(tokens[0].c)
    ensures DestinationBehind(raw, h) == Success(Span(h, ScanPlain(raw, h, 0)))
  {
    var shown := Show(tokens, '(', ')');
    if tokens != [] {
      AtChar(raw, h, shown, 0);
      assert shown[0] == ShowToken(tokens[0], '(', ')')[0];
      assert !IsSpace(raw[h]) && raw[h] != '<';
    } else {
      assert raw[h..] == Ending(backslash) + tail;
      assert raw[h] == raw[h..][0];
    }
  }

  /** After its tokens the scan stands at the ending. */
  lemma BareEnd(raw: string, h: nat, tokens: seq<Token>, backslash: bool, tail: string)
    requires Balanced(tokens, '(', ')') && NoTopSpace(tokens)
    requires BareLies(raw, h, Show(tokens, '(', ')'), Ending(backslash), tail)
    ensures var q := h + |Show(tokens, '(', ')')|;
            && ScanPlain(raw, h, 0) == ScanPlain(raw, q, 0)
            && |raw| == q + |Ending(backslash)| + |tail|
            && (backslash ==> raw[q] == '\\')
            && (!backslash && tail != "" ==> raw[q] == tail[0])
  {
    var q := h + |Show(tokens, '(', ')')|;
    PlainPasses(raw, h, tokens, 0);
    if backslash || tail != "" { assert raw[q] == raw[q..][0]; }
    assert |raw| == |raw[q..]| + q;
  }

  lemma BareFound(raw: string, h: nat, kind: Kind, tokens: seq<Token>, backslash: bool, tail: string)
    requires BareFits(kind, tokens, backslash, tail) && NoTopSpace(tokens) && !(backslash && tail != "")
    requires BareLies(raw, h, Show(tokens, '(', ')'), Ending(backslash), tail)
    ensures DestinationBehind(raw, h)
            == Success(Span(h, h + |Show(tokens, '(', ')')| + |Ending(backslash)|))
  {
    BareStart(raw, h, kind, tokens, backslash, tail);
    BareEnd(raw, h, tokens, backslash, tail);
  }

  /** A final backslash makes the scanner skip the white space that ends the destination. */
  lemma FinalBackslashMisread(raw: string, h: nat, kind: Kind, tokens: seq<Token>, tail: string)
    requires BareFits(kind, tokens, true, tail) && NoTopSpace(tokens) && tail != ""
    requires BareLies(raw, h, Show(tokens, '(', ')'), Ending(true), tail)
    ensures var q := h + |Show(tokens, '(', ')')|;
            DestinationBehind(raw, h) != Success(Span(h, q + 1))
  {
    BareStart(raw, h, kind, tokens, true, tail);
    BareEnd(raw, h, tokens, true, tail);
  }

  /** The scan of a plain destination stops at the first white space at its top level. */
  lemma StopsAtSpace(raw: string, h: nat, tokens: seq<Token>, k: nat)
    requires k < |tokens| && tokens[k].Plain? && IsSpace(tokens[k].c) && NoTopSpace(tokens[..k])
    requires Balanced(tokens, '(', ')') && At(raw, h, Show(tokens, '(', ')'))
    ensures ScanPlain(raw, h, 0) == h + |Show(tokens[..k], '(', ')')| < h + |Show(tokens, '(', ')')|
    ensures k == 0 ==> IsSpace(raw[h])
  {
    var before, rest := Show(tokens[..k], '(', ')'), Show(tokens[k..], '(', ')');
    ShowSplit(tokens, k, '(', ')');
    AtConcat(raw, h, before, rest);
    ShownFirst(tokens[k..], '(', ')');
    AtChar(raw, h + |before|, rest, 0);
    BalancedPrefix(tokens, k);
    PlainPasses(raw, h, tokens[..k], 0);
    assert BalancedToken(tokens[k], '(', ')');
    SpaceStops(raw, h + |before|);
  }

  lemma ShownFirst(tokens: seq<Token>, open: char, close: char)
    requires tokens != [] && tokens[0].Plain?
    ensures Show(tokens, open, close) != "" && Show(tokens, open, close)[0] == tokens[0].c
  {
  }

  lemma SpaceStops(raw: string, i: nat)
    requires i < |raw| && IsSpace(raw[i])
    ensures ScanPlain(raw, i, 0) == i
  {
  }

  /** White space at the top level cuts the destination short, or moves its start. */
  lemma TopSpaceMisread(raw: string, h: nat, kind: Kind, tokens: seq<Token>, backslash: bool, tail: string)
    requires BareFits(kind, tokens, backslash, tail) && !NoTopSpace(tokens)
    requires BareLies(raw, h, Show(tokens, '(', ')'), Ending(backslash), tail)
    ensures DestinationBehind(raw, h)
            != Success(Span(h, h + |Show(tokens, '(', ')')| + |Ending(backslash)|))
  {
    var k := FirstSpace(tokens);
    StopsAtSpace(raw, h, tokens, k);
    if k > 0 {
      assert tokens[..k][0] == tokens[0];
      BareStart(raw, h, kind, tokens, backslash, tail);
    } else {
      LeadingSpaceSkipped(raw, h);
    }
  }

  lemma LeadingSpaceSkipped(raw: string, h: nat)
    requires h < |raw| && IsSpace(raw[h])
    ensures ScanSpace(raw, h) > h
  {
  }

  lemma {:induction false} ShowSplit(tokens: seq<Token>, k: nat, open: char, close: char)
    requires k <= |tokens|
    ensures Show(tokens, open, close) == Show(tokens[..k], open, close) + Show(tokens[k..], open, close)
  {
    if k > 0 {
      ShowSplit(tokens[1..], k - 1, open, close);
      assert tokens[..k][1..] == tokens[1..][..k - 1];
      assert tokens[1..][k - 1..] == tokens[k..];
    } else {
      assert tokens[..0] == [] && tokens[0..] == tokens;
    }
  }

  lemma {:induction false} FirstSpace(tokens: seq<Token>) returns (k: nat)
    requires !NoTopSpace(tokens)
    ensures k < |tokens| && tokens[k].Plain? && IsSpace(tokens[k].c) && NoTopSpace(tokens[..k])
  {
    if tokens[0].Plain? && IsSpace(tokens[0].c) {
      k := 0;
    } else {
      var m :| 0 <= m < |tokens| && tokens[m].Plain? && IsSpace(tokens[m].c);
      assert tokens[1..][m - 1] == tokens[m];
      var j := FirstSpace(tokens[1..]);
      k := j + 1;
      forall i | 0 <= i < k && tokens[..k][i].Plain? ensures !IsSpace(tokens[..k][i].c) {
        if i > 0 { assert tokens[..k][i] == tokens[1..][..j][i - 1]; }
      }
    }
  }

  lemma BalancedPrefix(tokens: seq<Token>, k: nat)
    requires k <= |tokens| && Balanced(tokens, '(', ')')
    ensures Balanced(tokens[..k], '(', ')')
  {
  }

  /**
   * Printer and scanner are inverse exactly on the readable nodes: for every label with
   * balanced or escaped brackets and every destination with balanced or escaped
   * parentheses, in angle brackets or bare.
   */
  lemma DestinationExactly(n: Node)
    requires WellFormed(n)
    ensures Destination(Print(n), n.kind) == Success(Expected(n)) <==> Readable(n)
  {
    PrintLies(n, Print(n));
    LaidOutExactly(n, Print(n));
  }

  /** What is found in a readable node's text is its destination. */
  lemma FoundInText(n: Node, text: string)
    requires WellFormed(n) && Readable(n) && text == Print(n)
    ensures Destination(text, n.kind) == Success(Expected(n))
    ensures Expected(n).start <= Expected(n).end <= |text|
    ensures text[Expected(n).start..Expected(n).end] == Inner(n.target)
  {
    DestinationExactly(n);
    ExpectedIsTarget(n);
  }

  lemma PrintLies(n: Node, raw: string)
    requires raw == Print(n)
    ensures Begins(raw, Head(n)) && TargetLies(n, raw, |Head(n)|)
  {
    var target := TargetText(n.target);
    EndsWithPart(raw, raw, Head(n) + target, n.tail);
    EndsWithPart(raw, Head(n) + target, Head(n), target);
  }

  predicate TargetLies(n: Node, raw: string, h: nat) {
    At(raw, h, TargetText(n.target)) && raw[h + |TargetText(n.target)|..] == n.tail
  }

  lemma AsciiIsBlank(s: string)
    requires AsciiBlank(s)
    ensures Blank(s)
  {
    forall i | 0 <= i < |s| ensures IsSpace(s[i]) { assert IsAsciiSpace(s[i]); }
  }

  /** The same for any text laid out like a node. */
  lemma LaidOutExactly(n: Node, raw: string)
    requires WellFormed(n) && Begins(raw, Head(n)) && TargetLies(n, raw, |Head(n)|)
    ensures Destination(raw, n.kind) == Success(Expected(n)) <==> Readable(n)
  {
    HeadFound(n, raw);
    TargetExactly(n, raw, |Head(n)|);
  }

  /** The destination of a node, found at its place. */
  lemma TargetExactly(n: Node, raw: string, h: nat)
    requires WellFormed(n) && TargetLies(n, raw, h)
    ensures DestinationBehind(raw, h) == Success(TargetSpan(n.target, h)) <==> Readable(n)
  {
    match n.target
    case Angle(content) => AngleTarget(raw, h, content);
    case Bare(tokens, backslash) => BareTarget(raw, h, n.kind, tokens, backslash, n.tail);
  }

  lemma AngleTarget(raw: string, h: nat, content: seq<Token>)
    requires Flat(content) && At(raw, h, TargetText(Angle(content)))
    ensures DestinationBehind(raw, h) == Success(TargetSpan(Angle(content), h))
  {
    AngleFound(raw, h, content);
  }

  lemma BareTarget(raw: string, h: nat, kind: Kind, tokens: seq<Token>, backslash: bool, tail: string)
    requires BareFits(kind, tokens, backslash, tail)
    requires At(raw, h, TargetText(Bare(tokens, backslash)))
    requires raw[h + |TargetText(Bare(tokens, backslash))|..] == tail
    ensures DestinationBehind(raw, h) == Success(TargetSpan(Bare(tokens, backslash), h))
            <==> NoTopSpace(tokens) && !(backslash && tail != "")
  {
    BareExactly(raw, h, kind, tokens, backslash, tail);
  }

  lemma BareExactly(raw: string, h: nat, kind: Kind, tokens: seq<Token>, backslash: bool, tail: string)
    requires BareFits(kind, tokens, backslash, tail)
    requires At(raw, h, Show(tokens, '(', ')') + Ending(backslash))
    requires raw[h + |Show(tokens, '(', ')') + Ending(backslash)|..] == tail
    ensures DestinationBehind(raw, h) == Success(Span(h, h + |Show(tokens, '(', ')') + Ending(backslash)|))
            <==> NoTopSpace(tokens) && !(backslash && tail != "")
  {
    BareInPlace(raw, h, tokens, backslash, tail);
    if !NoTopSpace(tokens) {
      TopSpaceMisread(raw, h, kind, tokens, backslash, tail);
    } else if backslash && tail != "" {
      FinalBackslashMisread(raw, h, kind, tokens, tail);
    } else {
      BareFound(raw, h, kind, tokens, backslash, tail);
    }
  }

  lemma BareInPlace(raw: string, h: nat, tokens: seq<Token>, backslash: bool, tail: string)
    requires At(raw, h, Show(tokens, '(', ')') + Ending(backslash))
    requires raw[h + |Show(tokens, '(', ')')| + |Ending(backslash)|..] == tail
    ensures BareLies(raw, h, Show(tokens, '(', ')'), Ending(backslash), tail)
  {
    AtConcat(raw, h, Show(tokens, '(', ')'), Ending(backslash));
    var q := h + |Show(tokens, '(', ')')|;
    assert raw[q..] == raw[q..q + |Ending(backslash)|] + raw[q + |Ending(backslash)|..];
  }

  /** The destination range is the destination text, without its angle brackets. */
  lemma ExpectedIsTarget(n: Node)
    ensures Expected(n).start <= Expected(n).end <= |Print(n)|
    ensures Print(n)[Expected(n).start..Expected(n).end] == Inner(n.target)
  {
  }

  // ---------- Inputs that are misread ----------

  const NO_BREAK_SPACE := 0xA0 as char

  /** `[](f<NO-BREAK SPACE>g)`: the destination is taken to end at the no-break space. */
  lemma NoBreakSpaceMisread()
    ensures var n := Node(Link, [], "", Bare([Plain('f'), Plain(NO_BREAK_SPACE), Plain('g')], false), ")");
            WellFormed(n) && Destination(Print(n), Link) != Success(Expected(n))
  {
    var tokens := [Plain('f'), Plain(NO_BREAK_SPACE), Plain('g')];
    var n := Node(Link, [], "", Bare(tokens, false), ")");
    assert tokens[1..][1..] == tokens[2..] == [Plain('g')] && tokens[2..][1..] == [];
    assert Show(tokens[2..], '(', ')') == "g";
    assert Show(tokens[1..], '(', ')') == [NO_BREAK_SPACE] + "g";
    assert Show(tokens, '(', ')') == ['f', NO_BREAK_SPACE, 'g'];
    assert !NoTopSpace(tokens) by { assert tokens[1] == Plain(NO_BREAK_SPACE); }
    DestinationExactly(n);
  }

  /** `[](f\\ "t")`: a final backslash hides the space that ends the destination. */
  lemma FinalBackslashExample()
    ensures var n := Node(Link, [], "", Bare([Plain('f')], true), " \"t\")");
            WellFormed(n) && Destination(Print(n), Link) != Success(Expected(n))
  {
    var n := Node(Link, [], "", Bare([Plain('f')], true), " \"t\")");
    assert Show([Plain('f')], '(', ')') == "f" by { assert [Plain('f')][1..] == []; }
    DestinationExactly(n);
  }

  // ---------- Labels of any text ----------

  /**
   * The brackets open after a label of any text, code spans included, with one open in
   * front of it: none if it closes that one, or ends in a backslash.
   */
  function OpenAfter(text: string, i: nat, depth: nat): Option<nat>
    requires depth >= 1
    decreases |text| + 1 - i
  {
    if i > |text| then None
    else if i == |text| then Some(depth)
    else if text[i] == '\\' then OpenAfter(text, i + 2, depth)
    else if text[i] == '[' then OpenAfter(text, i + 1, depth + 1)
    else if text[i] == ']' then if depth == 1 then None else OpenAfter(text, i + 1, depth - 1)
    else OpenAfter(text, i + 1, depth)
  }

  /** The scanner finds the end of such a label exactly when it leaves one bracket open. */
  lemma LabelExactly(raw: string, at: nat, text: string)
    requires IndexOf(raw, '[', 0) == at && At(raw, at, "[" + text + "]")
    ensures LabelEndOf(raw) == Some(at + 1 + |text|) <==> OpenAfter(text, 0, 1) == Some(1)
  {
    AtGroup(raw, at, '[', text, ']');
    ScanExactly(raw, at + 1, text, 0, 1);
  }

  lemma {:induction false} ScanExactly(raw: string, start: nat, text: string, i: nat, depth: nat)
    requires At(raw, start, text) && start + |text| < |raw| && raw[start + |text|] == ']' && depth >= 1
    ensures ScanLabel(raw, start + i, depth) == Some(start + |text|) <==> OpenAfter(text, i, depth) == Some(1)
    decreases |text| + 1 - i
  {
    if i < |text| {
      AtChar(raw, start, text, i);
      if text[i] == '\\' {
        ScanExactly(raw, start, text, i + 2, depth);
      } else if text[i] == '[' {
        ScanExactly(raw, start, text, i + 1, depth + 1);
      } else if text[i] != ']' {
        ScanExactly(raw, start, text, i + 1, depth);
      } else if depth > 1 {
        ScanExactly(raw, start, text, i + 1, depth - 1);
      }
    }
  }

  /** "[`](`](v)": a bracket and a parenthesis in a code span of the label are taken for its end. */
  lemma CodeInLabelMisread()
    ensures Destination("[`](`](v)", Link) == Success(Span(4, 9))
    ensures "[`](`](v)"[7..8] == "v"
  {
    var raw := "[`](`](v)";
    assert ScanLabel(raw, 2, 1) == Some(2);
    assert ScanLabel(raw, 1, 1) == Some(2);
    assert IndexOf(raw, '[', 0) == 0 && LabelEndOf(raw) == Some(2);
    assert ScanPlain(raw, 9, 0) == 9 && ScanPlain(raw, 8, 1) == 9;
    assert ScanPlain(raw, 7, 1) == 9 && ScanPlain(raw, 6, 0) == 9 && ScanPlain(raw, 5, 0) == 9;
  }
}
