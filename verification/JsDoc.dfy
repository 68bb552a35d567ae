/** The description prose of a JSDoc block, as `parseJsDoc` of `scripts/jsdoc.ts` collects it. */
module JsDoc {
  import opened Wrappers
  import opened WhiteSpace

  datatype Mode = Emit | Waterfall | Parallel | Serial | Bail

  datatype Parsed = Parsed(doc: string, mode: Option<Mode>, hasMode: bool)

  // ---------- Lines ----------

  function JoinWith(parts: seq<string>, separator: string): string {
    if parts == [] then ""
    else if |parts| == 1 then parts[0]
    else parts[0] + separator + JoinWith(parts[1..], separator)
  }

  /** Parts on one line, white space collapsed. */
  function JoinParts(parts: seq<string>): string {
    Trim(Collapse(JoinWith(parts, " ")))
  }

  predicate IsTag(line: string) {
    TrimStart(line) != "" && TrimStart(line)[0] == '@'
  }

  predicate IsBullet(line: string) {
    |line| >= 2 && line[0] == '-' && IsSpace(line[1])
  }

  predicate IsWordChar(c: char) {
    'a' <= c <= 'z' || 'A' <= c <= 'Z' || '0' <= c <= '9' || c == '_'
  }

  /** `/^@mode\b/` after leading white space. */
  predicate IsModeTag(line: string) {
    var t := TrimStart(line);
    "@mode" <= t && (|t| == 5 || !IsWordChar(t[5]))
  }

  function ModeNamed(name: string): Option<Mode> {
    if name == "emit" then Some(Emit)
    else if name == "waterfall" then Some(Waterfall)
    else if name == "parallel" then Some(Parallel)
    else if name == "serial" then Some(Serial)
    else if name == "bail" then Some(Bail)
    else None
  }

  /** A mode tag with white space and one mode name after it. */
  function ModeOf(line: string): Option<Mode> {
    var t := TrimStart(line);
    if "@mode" <= t && |t| > 5 && IsSpace(t[5]) then ModeNamed(Trim(t[5..])) else None
  }

  lemma ModeTagIsTag(line: string)
    ensures IsModeTag(line) ==> IsTag(line)
    ensures ModeOf(line).Some? ==> IsModeTag(line)
  {
  }

  /** The white space and the rest of a line that stands behind it. */
  ghost predicate Begins(line: string, start: string, rest: string) {
    exists before :: Blank(before) && line == before + start + rest
  }

  lemma StartTrims(line: string, start: string, rest: string)
    requires start != "" && !IsSpace(start[0])
    ensures Begins(line, start, rest) <==> TrimStart(line) == start + rest
  {
    if before :| Blank(before) && line == before + start + rest {
      assert line == before + (start + rest);
      TrimStartOf(before, start + rest);
    }
    if TrimStart(line) == start + rest {
      var before := TrimStartParts(line);
      assert line == before + start + rest;
    }
  }

  /** A tag line has an at sign behind white space. */
  lemma TagExactly(line: string)
    ensures IsTag(line) <==> exists rest :: Begins(line, "@", rest)
  {
    var t := TrimStart(line);
    if IsTag(line) {
      assert t == "@" + t[1..];
      StartTrims(line, "@", t[1..]);
    }
    if rest :| Begins(line, "@", rest) { StartTrims(line, "@", rest); }
  }

  /** A bullet line begins with a hyphen and white space. */
  lemma BulletExactly(line: string)
    ensures IsBullet(line) <==> exists space, rest :: space != "" && Blank(space) && line == "-" + space + rest
  {
    if IsBullet(line) { assert line == "-" + line[1..2] + line[2..] && Blank(line[1..2]); }
  }

  predicate NoWordChar(rest: string) {
    rest == "" || !('a' <= rest[0] <= 'z' || 'A' <= rest[0] <= 'Z' || '0' <= rest[0] <= '9' || rest[0] == '_')
  }

  lemma ModeTagExactly(line: string)
    ensures IsModeTag(line) <==> exists rest :: Begins(line, "@mode", rest) && NoWordChar(rest)
  {
    var t := TrimStart(line);
    if IsModeTag(line) {
      assert t == "@mode" + t[5..];
      StartTrims(line, "@mode", t[5..]);
    }
    if rest :| Begins(line, "@mode", rest) && NoWordChar(rest) {
      StartTrims(line, "@mode", rest);
      assert t[5..] == rest;
    }
  }

  function NameOf(m: Mode): string {
    match m
    case Emit => "emit"
    case Waterfall => "waterfall"
    case Parallel => "parallel"
    case Serial => "serial"
    case Bail => "bail"
  }

  /** A line gives a mode exactly if its name, and nothing else, follows the tag behind white space. */
  lemma ModeExactly(line: string, m: Mode)
    ensures ModeOf(line) == Some(m) <==>
            exists space, after :: space != "" && Blank(space) && Blank(after)
                                   && Begins(line, "@mode", space + NameOf(m) + after)
  {
    var t, name := TrimStart(line), NameOf(m);
    forall s ensures ModeNamed(s) == Some(m) <==> s == name {}
    forall rest ensures Begins(line, "@mode", rest) <==> t == "@mode" + rest { StartTrims(line, "@mode", rest); }
    if ModeOf(line) == Some(m) {
      assert t == "@mode" + t[5..];
      TrimsTo(t[5..], name);
      var space, after :| Blank(space) && Blank(after) && t[5..] == space + name + after;
      assert (space + name + after)[0] == (space + name)[0] == t[5] && !IsSpace(name[0]);
    }
    if space, after :| space != "" && Blank(space) && Blank(after)
                       && Begins(line, "@mode", space + name + after) {
      assert t[5..] == space + name + after && t[5] == space[0];
      TrimsTo(t[5..], name);
    }
  }

  predicate LastGivenAt(lines: seq<string>, m: Mode, i: int) {
    0 <= i < |lines| && ModeOf(lines[i]) == Some(m) && forall j | i < j < |lines| :: ModeOf(lines[j]).None?
  }

  /** The mode is that of the last line that gives one. */
  lemma {:induction false} LastModeExactly(lines: seq<string>, m: Mode)
    ensures LastMode(lines) == Some(m) <==> exists i :: LastGivenAt(lines, m, i)
  {
    if lines != [] {
      var n := |lines| - 1;
      LastModeExactly(lines[..n], m);
      if ModeOf(lines[n]) == Some(m) {
        assert LastGivenAt(lines, m, n);
      } else {
        forall i ensures LastGivenAt(lines, m, i) <==> ModeOf(lines[n]).None? && LastGivenAt(lines[..n], m, i) {
          GivenInFront(lines, m, i);
        }
      }
    }
  }

  lemma GivenInFront(lines: seq<string>, m: Mode, i: int)
    requires lines != [] && ModeOf(lines[|lines| - 1]) != Some(m)
    ensures LastGivenAt(lines, m, i) <==> ModeOf(lines[|lines| - 1]).None? && LastGivenAt(lines[..|lines| - 1], m, i)
  {
  }

  /** The lines before the first block tag. */
  function ProseLines(lines: seq<string>): seq<string> {
    if lines == [] || IsTag(lines[0]) then [] else [lines[0]] + ProseLines(lines[1..])
  }

  lemma {:induction false} ProseExactly(lines: seq<string>)
    ensures var r := ProseLines(lines);
            r <= lines && (forall i :: 0 <= i < |r| ==> !IsTag(r[i])) && (|r| < |lines| ==> IsTag(lines[|r|]))
  {
    if lines != [] && !IsTag(lines[0]) { ProseExactly(lines[1..]); }
  }

  function LastMode(lines: seq<string>): Option<Mode> {
    if lines == [] then None
    else
      var last := lines[|lines| - 1];
      if ModeOf(last).Some? then ModeOf(last) else LastMode(lines[..|lines| - 1])
  }

  // ---------- Words of lists of texts ----------

  function AllWords(texts: seq<string>): seq<string> {
    if texts == [] then [] else AllWords(texts[..|texts| - 1]) + Words(texts[|texts| - 1])
  }

  lemma AllWordsSnoc(texts: seq<string>, t: string)
    ensures AllWords(texts + [t]) == AllWords(texts) + Words(t)
  {
  }

  lemma {:induction false} AllWordsCons(t: string, texts: seq<string>)
    ensures AllWords([t] + texts) == Words(t) + AllWords(texts)
  {
    var all := [t] + texts;
    if texts == [] {
      assert all[..0] == [];
    } else {
      var n := |texts| - 1;
      assert all[..|all| - 1] == [t] + texts[..n];
      AllWordsCons(t, texts[..n]);
    }
  }

  /** A separator that begins with white space and is blank adds and joins no word. */
  lemma {:induction false} JoinWithWords(parts: seq<string>, separator: string)
    requires separator != "" && Blank(separator)
    ensures Words(JoinWith(parts, separator)) == AllWords(parts)
  {
    if |parts| == 1 {
      AllWordsSnoc([], parts[0]);
      assert parts == [] + [parts[0]];
    } else if |parts| > 1 {
      var first, others := parts[0], parts[1..];
      JoinWithWords(others, separator);
      BlankSeparates(first, separator, JoinWith(others, separator));
      AllWordsCons(first, others);
      assert parts == [first] + others;
    }
  }

  lemma {:induction false} BlankSeparates(a: string, separator: string, b: string)
    requires separator != "" && Blank(separator)
    ensures Words(a + separator + b) == Words(a) + Words(b)
    decreases |separator|
  {
    assert IsSpace(separator[0]);
    assert a + separator + b == a + [separator[0]] + (separator[1..] + b);
    WordsSeparate(a, separator[0], separator[1..] + b);
    if |separator| > 1 {
      forall i | 0 <= i < |separator[1..]| ensures IsSpace(separator[1..][i]) { assert IsSpace(separator[i + 1]); }
      BlankSeparates("", separator[1..], b);
      assert "" + separator[1..] + b == separator[1..] + b;
    } else {
      assert separator[1..] + b == b;
    }
  }

  lemma JoinPartsWords(parts: seq<string>)
    ensures Words(JoinParts(parts)) == AllWords(parts)
  {
    var joined := JoinWith(parts, " ");
    JoinWithWords(parts, " ");
    WordsCollapse(joined);
    WordsTrim(Collapse(joined));
  }

  // ---------- What the lines say ----------

  /** All words of the lines on one line, with a single space between them. */
  function WordsLine(lines: seq<string>): string {
    JoinWith(AllWords(lines), " ")
  }

  lemma JoinPartsLine(parts: seq<string>)
    ensures JoinParts(parts) == WordsLine(parts)
  {
    JoinWithWords(parts, " ");
    TrimCollapse(JoinWith(parts, " "));
  }

  /** Trimmed, with white space collapsed, a text is its words with single spaces between them. */
  lemma TrimCollapse(s: string)
    ensures Trim(Collapse(s)) == JoinWith(Words(s), " ")
  {
    var t := SkipSpaces(s);
    WordsSkipSpaces(s);
    SkipSpacesStart(s);
    if s != "" && IsSpace(s[0]) {
      assert SkipSpaces(s[1..]) == t;
      assert ([' '] + Collapse(t))[1..] == Collapse(t);
    }
    if t != "" { assert TrimStart(Collapse(t)) == Collapse(t); }
    CollapseTrimEnd(t);
  }

  lemma {:induction false} SkipSpacesStart(s: string)
    ensures SkipSpaces(s) != "" ==> !IsSpace(SkipSpaces(s)[0])
  {
    if s != "" && IsSpace(s[0]) { SkipSpacesStart(s[1..]); }
  }

  lemma {:induction false} CollapseTrimEnd(s: string)
    requires s != "" ==> !IsSpace(s[0])
    ensures TrimEnd(Collapse(s)) == JoinWith(Words(s), " ") && (s != "" ==> Words(s) != [])
    decreases |s|
  {
    if s != "" {
      var c, t := [s[0]], s[1..];
      if t == "" {
        assert s == c && Words(t) == [] && Collapse(t) == "" && c + "" == c;
        assert Words(s) == [c] && Collapse(s) == c;
      } else if !IsSpace(t[0]) {
        CollapseTrimEnd(t);
        CharInFront(s, c, t);
      } else {
        var u := SkipSpaces(t[1..]);
        SkipSpacesStart(t[1..]);
        CollapseTrimEnd(u);
        WordInFront(s, c, t, u);
      }
    }
  }

  lemma CharInFront(s: string, c: string, t: string)
    requires |c| == 1 && !IsSpace(c[0]) && s == c + t && t != "" && !IsSpace(t[0])
    requires TrimEnd(Collapse(t)) == JoinWith(Words(t), " ") && Words(t) != []
    ensures TrimEnd(Collapse(s)) == JoinWith(Words(s), " ") && Words(s) != []
  {
    var words := Words(t);
    assert s[1..] == t && s[0] == c[0] && [s[0]] == c;
    assert Words(s) == [c + words[0]] + words[1..] && Collapse(s) == c + Collapse(t);
    FirstWord(t);
    WordLonger(c, words);
    TrimEndConcat(c, Collapse(t));
  }

  lemma FirstWord(t: string)
    requires t != "" && !IsSpace(t[0])
    ensures Words(t) != [] && Words(t)[0] != ""
  {
  }

  lemma WordInFront(s: string, c: string, t: string, u: string)
    requires |c| == 1 && !IsSpace(c[0]) && s == c + t && t != "" && IsSpace(t[0]) && u == SkipSpaces(t[1..])
    requires TrimEnd(Collapse(u)) == JoinWith(Words(u), " ") && (u != "" ==> Words(u) != [] && !IsSpace(u[0]))
    ensures TrimEnd(Collapse(s)) == JoinWith(Words(s), " ") && Words(s) != []
  {
    SpaceBehindChar(s, c, t, u);
    if u == "" {
      assert c + " " + "" == c + " " && (c + " ")[..1] == c;
      assert [c] + Words(u) == [c];
    } else {
      FirstWord(u);
      WordMore(c, Words(u));
      TrimEndConcat(c + " ", Collapse(u));
    }
  }

  lemma SpaceBehindChar(s: string, c: string, t: string, u: string)
    requires |c| == 1 && !IsSpace(c[0]) && s == c + t && t != "" && IsSpace(t[0]) && u == SkipSpaces(t[1..])
    ensures Words(s) == [c] + Words(u) && Collapse(s) == c + " " + Collapse(u)
  {
    WordsSkipSpaces(t[1..]);
    assert s[1..] == t && s[0] == c[0] && [s[0]] == c;
    assert Collapse(t) == " " + Collapse(u) && Collapse(s) == c + Collapse(t);
    assert c + " " + Collapse(u) == c + (" " + Collapse(u));
  }

  lemma WordLonger(c: string, words: seq<string>)
    requires words != []
    ensures JoinWith([c + words[0]] + words[1..], " ") == c + JoinWith(words, " ")
    ensures JoinWith(words, " ") != "" || words[0] == ""
  {
    var more := [c + words[0]] + words[1..];
    if |words| > 1 {
      assert more[1..] == words[1..];
      assert c + words[0] + " " + JoinWith(words[1..], " ") == c + (words[0] + " " + JoinWith(words[1..], " "));
    }
  }

  lemma WordMore(c: string, words: seq<string>)
    requires words != []
    ensures JoinWith([c] + words, " ") == c + " " + JoinWith(words, " ")
  {
    assert ([c] + words)[1..] == words;
  }

  /** Trimming the end of a text that is not blank trims the end of what it ends in. */
  lemma {:induction false} TrimEndConcat(a: string, b: string)
    requires TrimEnd(b) != ""
    ensures TrimEnd(a + b) == a + TrimEnd(b)
  {
    if IsSpace(b[|b| - 1]) {
      TrimEndConcat(a, b[..|b| - 1]);
      assert (a + b)[..|a + b| - 1] == a + b[..|b| - 1];
    }
  }

  /** The lines before the first blank one. */
  function Run(lines: seq<string>): (r: seq<string>)
    ensures r <= lines && (forall i :: 0 <= i < |r| ==> !Blank(r[i])) && (|r| < |lines| ==> Blank(lines[|r|]))
  {
    if lines == [] || Blank(lines[0]) then [] else [lines[0]] + Run(lines[1..])
  }

  /** The lines before the first that is blank or a bullet. */
  function PlainRun(lines: seq<string>): (r: seq<string>)
    ensures r <= lines && (forall i :: 0 <= i < |r| ==> !Blank(r[i]) && !IsBullet(r[i]))
    ensures |r| < |lines| ==> Blank(lines[|r|]) || IsBullet(lines[|r|])
  {
    if lines == [] || Blank(lines[0]) || IsBullet(lines[0]) then [] else [lines[0]] + PlainRun(lines[1..])
  }

  /** The items of a list, on a line each: a bullet with the plain lines that follow it. */
  function ItemTexts(lines: seq<string>): seq<string>
    decreases |lines|
  {
    if lines == [] then []
    else
      var more := PlainRun(lines[1..]);
      [WordsLine([lines[0]] + more)] + ItemTexts(lines[1 + |more|..])
  }

  /**
   * The blocks of the description.  A blank line ends a block; a bullet line ends a
   * paragraph and begins a list, which goes on to the next blank line.
   */
  function BlockTexts(lines: seq<string>): seq<string>
    decreases |lines|
  {
    if lines == [] then []
    else if Blank(lines[0]) then BlockTexts(lines[1..])
    else if IsBullet(lines[0]) then
      [JoinWith(ItemTexts(Run(lines)), "\n")] + BlockTexts(lines[|Run(lines)|..])
    else [WordsLine(PlainRun(lines))] + BlockTexts(lines[|PlainRun(lines)|..])
  }

  // ---------- No word is lost ----------

  lemma {:induction false} AllWordsConcat(a: seq<string>, b: seq<string>)
    ensures AllWords(a + b) == AllWords(a) + AllWords(b)
  {
    if b == [] {
      assert a + b == a;
    } else {
      var init, last := b[..|b| - 1], b[|b| - 1];
      AllWordsConcat(a, init);
      AllWordsSnoc(a + init, last);
      assert a + b == (a + init) + [last];
      ConcatAssociates(AllWords(a), AllWords(init), Words(last));
    }
  }

  lemma ConcatAssociates(a: seq<string>, b: seq<string>, c: seq<string>)
    ensures a + (b + c) == a + b + c
  {
  }

  lemma OneText(t: string)
    ensures AllWords([t]) == Words(t)
  {
    AllWordsSnoc([], t);
    assert [] + [t] == [t];
  }

  lemma WordsOfLine(lines: seq<string>)
    ensures AllWords([WordsLine(lines)]) == AllWords(lines)
  {
    OneText(WordsLine(lines));
    JoinPartsLine(lines);
    JoinPartsWords(lines);
  }

  lemma FirstItem(lines: seq<string>) returns (item: seq<string>, rest: seq<string>)
    requires lines != []
    ensures lines == item + rest && item != [] && ItemTexts(lines) == [WordsLine(item)] + ItemTexts(rest)
  {
    var more := PlainRun(lines[1..]);
    item, rest := [lines[0]] + more, lines[1 + |more|..];
    assert lines[1..] == more + lines[1..][|more|..];
  }

  lemma {:induction false} ItemWords(lines: seq<string>)
    ensures AllWords(ItemTexts(lines)) == AllWords(lines)
    decreases |lines|
  {
    if lines != [] {
      var item, rest := FirstItem(lines);
      ItemWords(rest);
      WordsOfLine(item);
      AllWordsConcat([WordsLine(item)], ItemTexts(rest));
      AllWordsConcat(item, rest);
    }
  }

  lemma {:induction false} BlockWords(lines: seq<string>)
    ensures AllWords(BlockTexts(lines)) == AllWords(lines)
    decreases |lines|
  {
    if lines != [] {
      if Blank(lines[0]) {
        BlockWords(lines[1..]);
        WordsOfBlank(lines[0]);
        AllWordsCons(lines[0], lines[1..]);
        assert lines == [lines[0]] + lines[1..];
      } else {
        var text, run, rest := FirstBlock(lines);
        BlockWords(rest);
        AllWordsConcat([text], BlockTexts(rest));
        AllWordsConcat(run, rest);
      }
    }
  }

  lemma FirstBlock(lines: seq<string>) returns (text: string, run: seq<string>, rest: seq<string>)
    requires lines != [] && !Blank(lines[0])
    ensures run != [] && lines == run + rest && BlockTexts(lines) == [text] + BlockTexts(rest)
    ensures AllWords([text]) == AllWords(run)
  {
    if IsBullet(lines[0]) {
      run := Run(lines);
      rest := lines[|run|..];
      text := JoinWith(ItemTexts(run), "\n");
      JoinWithWords(ItemTexts(run), "\n");
      ItemWords(run);
      OneText(text);
    } else {
      run := PlainRun(lines);
      rest := lines[|run|..];
      text := WordsLine(run);
      WordsOfLine(run);
    }
  }

  // ---------- The buffers ----------

  /** An open item: a bullet line and the plain lines behind it. */
  predicate IsItem(item: seq<string>) {
    && item != [] && IsBullet(item[0])
    && forall i | 1 <= i < |item| :: !Blank(item[i]) && !IsBullet(item[i])
  }

  predicate BuffersOk(list: seq<string>, item: seq<string>, para: seq<string>) {
    (para != [] ==> list == [] && item == []) && (list != [] ==> item != []) && (item != [] ==> IsItem(item))
  }

  /** What the open buffers and the lines still to come amount to. */
  function Pending(list: seq<string>, item: seq<string>, para: seq<string>, rest: seq<string>): seq<string> {
    if para != [] then [WordsLine(para + PlainRun(rest))] + BlockTexts(rest[|PlainRun(rest)|..])
    else if item != [] then [JoinWith(list + ItemTexts(item + Run(rest)), "\n")] + BlockTexts(rest[|Run(rest)|..])
    else BlockTexts(rest)
  }

  /** What closing the open buffers adds to the blocks. */
  function Closed(list: seq<string>, item: seq<string>, para: seq<string>): seq<string> {
    if para != [] then [WordsLine(para)]
    else if item != [] then [JoinWith(list + [WordsLine(item)], "\n")]
    else []
  }

  /** An item is closed by the next bullet, or by the end of the list. */
  lemma ItemThen(item: seq<string>, run: seq<string>)
    requires IsItem(item) && (run != [] ==> IsBullet(run[0]))
    ensures ItemTexts(item + run) == [WordsLine(item)] + ItemTexts(run)
  {
    var lines := item + run;
    PlainRunOver(item[1..], run);
    assert lines[1..] == item[1..] + run && [lines[0]] + item[1..] == item;
    assert lines[1 + |item[1..]|..] == run;
  }

  lemma {:induction false} PlainRunOver(plain: seq<string>, rest: seq<string>)
    requires forall i | 0 <= i < |plain| :: !Blank(plain[i]) && !IsBullet(plain[i])
    requires rest != [] ==> Blank(rest[0]) || IsBullet(rest[0])
    ensures PlainRun(plain + rest) == plain
  {
    if plain == [] {
      assert plain + rest == rest;
    } else {
      assert (plain + rest)[1..] == plain[1..] + rest;
      forall i | 0 <= i < |plain[1..]| ensures !Blank(plain[1..][i]) && !IsBullet(plain[1..][i]) {
        assert plain[1..][i] == plain[i + 1];
      }
      PlainRunOver(plain[1..], rest);
    }
  }

  /** In front of a blank line, or at the end, closing the buffers is what they amount to. */
  lemma CloseAll(list: seq<string>, item: seq<string>, para: seq<string>, rest: seq<string>)
    requires BuffersOk(list, item, para) && (rest != [] ==> Blank(rest[0]))
    ensures Pending(list, item, para, rest) == Closed(list, item, para) + BlockTexts(rest)
  {
    assert PlainRun(rest) == [] && Run(rest) == [] && rest[0..] == rest;
    if para != [] {
      CloseParagraph(para, rest);
    } else if item != [] {
      CloseList(list, item, rest);
    }
  }

  lemma BlankCloses(list: seq<string>, item: seq<string>, para: seq<string>, line: string, rest: seq<string>)
    requires BuffersOk(list, item, para) && Blank(line)
    ensures Pending(list, item, para, [line] + rest) == Closed(list, item, para) + BlockTexts(rest)
  {
    CloseAll(list, item, para, [line] + rest);
    assert ([line] + rest)[1..] == rest;
  }

  lemma CloseParagraph(para: seq<string>, rest: seq<string>)
    requires para != [] && PlainRun(rest) == []
    ensures Pending([], [], para, rest) == [WordsLine(para)] + BlockTexts(rest)
  {
    assert para + PlainRun(rest) == para && rest[0..] == rest;
  }

  lemma CloseList(list: seq<string>, item: seq<string>, rest: seq<string>)
    requires IsItem(item) && Run(rest) == []
    ensures Pending(list, item, [], rest) == [JoinWith(list + [WordsLine(item)], "\n")] + BlockTexts(rest)
  {
    ItemThen(item, []);
    assert item + Run(rest) == item + [] && rest[0..] == rest;
    assert ItemTexts([]) == [] && [WordsLine(item)] + ItemTexts([]) == [WordsLine(item)];
  }

  lemma BulletCloses(list: seq<string>, item: seq<string>, para: seq<string>, line: string, rest: seq<string>)
    requires BuffersOk(list, item, para) && IsBullet(line) && !Blank(line)
    ensures Pending(list, item, para, [line] + rest)
            == (if para != [] then [WordsLine(para)] else [])
               + Pending(if item != [] then list + [WordsLine(item)] else [], [line], [], rest)
  {
    if item != [] {
      NextItem(list, item, line, rest);
    } else {
      ListBegins(line, rest);
      if para != [] { CloseParagraph(para, [line] + rest); }
    }
  }

  lemma RunGoesOn(line: string, rest: seq<string>)
    requires !Blank(line)
    ensures Run([line] + rest) == [line] + Run(rest)
    ensures ([line] + rest)[|Run([line] + rest)|..] == rest[|Run(rest)|..]
  {
    assert ([line] + rest)[1..] == rest;
  }

  lemma NextItem(list: seq<string>, item: seq<string>, line: string, rest: seq<string>)
    requires IsItem(item) && IsBullet(line) && !Blank(line)
    ensures Pending(list, item, [], [line] + rest) == Pending(list + [WordsLine(item)], [line], [], rest)
  {
    RunGoesOn(line, rest);
    var run := [line] + Run(rest);
    ItemThen(item, run);
    ConcatAssociates(list, [WordsLine(item)], ItemTexts(run));
  }

  lemma ListBegins(line: string, rest: seq<string>)
    requires IsBullet(line) && !Blank(line)
    ensures BlockTexts([line] + rest) == Pending([], [line], [], rest) && PlainRun([line] + rest) == []
  {
    RunGoesOn(line, rest);
    assert [] + ItemTexts([line] + Run(rest)) == ItemTexts([line] + Run(rest));
  }

  lemma PlainGoesOn(list: seq<string>, item: seq<string>, para: seq<string>, line: string, rest: seq<string>)
    requires BuffersOk(list, item, para) && !IsBullet(line) && !Blank(line)
    ensures Pending(list, item, para, [line] + rest)
            == if item != [] then Pending(list, item + [line], para, rest)
               else Pending(list, item, para + [line], rest)
  {
    if item != [] {
      RunGoesOn(line, rest);
      assert item + ([line] + Run(rest)) == item + [line] + Run(rest);
    } else {
      PlainRunGoesOn(line, rest);
      assert para + ([line] + PlainRun(rest)) == para + [line] + PlainRun(rest);
      if para == [] { assert [] + [line] + PlainRun(rest) == [line] + PlainRun(rest); }
    }
  }

  lemma PlainRunGoesOn(line: string, rest: seq<string>)
    requires !IsBullet(line) && !Blank(line)
    ensures PlainRun([line] + rest) == [line] + PlainRun(rest)
    ensures ([line] + rest)[|PlainRun([line] + rest)|..] == rest[|PlainRun(rest)|..]
  {
    assert ([line] + rest)[1..] == rest;
  }

  /** The variables `parseJsDoc` closes over. */
  class Buffers {
    var blocks: seq<string>
    var para: seq<string>
    var list: seq<string>
    var item: seq<string>

    constructor ()
      ensures blocks == [] && para == [] && list == [] && item == []
    {
      blocks, para, list, item := [], [], [], [];
    }

    /** A pending paragraph and a pending list never coexist, and a list has an open item. */
    predicate Valid()
      reads this
    {
      BuffersOk(list, item, para)
    }

    /** The blocks there will be, if these lines are still to come. */
    function Blocks(rest: seq<string>): seq<string>
      reads this
    {
      blocks + Pending(list, item, para, rest)
    }

    method FlushItem()
      modifies this`list, this`item
      ensures item == [] && list == if old(item) == [] then old(list) else old(list) + [WordsLine(old(item))]
    {
      if |item| > 0 {
        JoinPartsLine(item);
        list := list + [JoinParts(item)];
      }
      item := [];
    }

    method FlushList()
      requires Valid()
      modifies this`blocks, this`list, this`item
      ensures item == [] && list == []
      ensures blocks == if old(item) == [] then old(blocks) else old(blocks) + Closed(old(list), old(item), [])
    {
      FlushItem();
      if |list| > 0 {
        blocks := blocks + [JoinWith(list, "\n")];
      }
      list := [];
    }

    method FlushPara()
      requires Valid()
      modifies this
      ensures Valid() && item == [] && list == [] && para == []
      ensures blocks == old(blocks) + Closed(old(list), old(item), old(para))
    {
      FlushList();
      if |para| > 0 {
        JoinPartsLine(para);
        blocks := blocks + [JoinParts(para)];
      }
      para := [];
    }

    /** A bullet line: close the item or the paragraph before it, and open an item. */
    method StartItem(line: string)
      requires Valid() && IsBullet(line) && !Blank(line)
      modifies this
      ensures Valid() && forall rest :: Blocks(rest) == old(Blocks([line] + rest))
    {
      ghost var blocks0, list0, item0, para0 := blocks, list, item, para;
      FlushItem();
      if |para| > 0 {
        JoinPartsLine(para);
        blocks := blocks + [JoinParts(para)];
        para := [];
      }
      item := item + [line];
      assert item == [line] && para == [];
      assert list == if item0 != [] then list0 + [WordsLine(item0)] else [];
      assert blocks == blocks0 + if para0 != [] then [WordsLine(para0)] else [];
      forall rest ensures Blocks(rest) == blocks0 + Pending(list0, item0, para0, [line] + rest) {
        BulletCloses(list0, item0, para0, line, rest);
        ConcatAssociates(blocks0, if para0 != [] then [WordsLine(para0)] else [], Pending(list, item, para, rest));
      }
    }

    /** One prose line. */
    method Take(line: string)
      requires Valid()
      modifies this
      ensures Valid() && forall rest :: Blocks(rest) == old(Blocks([line] + rest))
    {
      ghost var blocks0, list0, item0, para0 := blocks, list, item, para;
      if Blank(line) {
        FlushPara();
        forall rest ensures Blocks(rest) == blocks0 + Pending(list0, item0, para0, [line] + rest) {
          BlankCloses(list0, item0, para0, line, rest);
          ConcatAssociates(blocks0, Closed(list0, item0, para0), BlockTexts(rest));
        }
      } else if IsBullet(line) {
        StartItem(line);
      } else {
        if |item| > 0 {
          item := item + [line];
        } else {
          para := para + [line];
        }
        forall rest ensures Blocks(rest) == blocks0 + Pending(list0, item0, para0, [line] + rest) {
          PlainGoesOn(list0, item0, para0, line, rest);
        }
      }
    }

    /** The last flush, and the blocks joined. */
    method Finish() returns (doc: string)
      requires Valid()
      modifies this
      ensures doc == Trim(JoinWith(old(Blocks([])), "\n\n"))
    {
      ghost var all := Blocks([]);
      CloseAll(list, item, para, []);
      assert BlockTexts([]) == [] && Closed(list, item, para) + [] == Closed(list, item, para);
      FlushPara();
      assert blocks == all;
      return Trim(JoinWith(blocks, "\n\n"));
    }
  }

  // ---------- parseJsDoc ----------

  predicate AnyTag(lines: seq<string>) {
    exists i | 0 <= i < |lines| :: IsTag(lines[i])
  }

  predicate AnyModeTag(lines: seq<string>) {
    exists i | 0 <= i < |lines| :: IsModeTag(lines[i])
  }

  /**
   * `parseJsDoc` on the stripped lines of a block, before links are rewritten.  The
   * description is the blocks of the lines before the first block tag, with a blank line
   * between them, and its words are theirs in order; the mode is the last well-formed one.
   */
  method ParseJsDoc(lines: seq<string>) returns (r: Parsed)
    ensures r.doc == Trim(JoinWith(BlockTexts(ProseLines(lines)), "\n\n"))
    ensures Words(r.doc) == AllWords(ProseLines(lines))
    ensures r.hasMode <==> AnyModeTag(lines)
    ensures r.mode == LastMode(lines)
  {
    var b := new Buffers();
    var mode: Option<Mode>, hasMode, inTags := None, false, false;
    assert Coming(lines, 0, false) == ProseLines(lines) by { assert lines[0..] == lines; }
    for i := 0 to |lines|
      invariant fresh(b) && b.Valid() && Means(lines[..i], Seen(inTags, hasMode, mode))
      invariant b.Blocks(Coming(lines, i, inTags)) == BlockTexts(ProseLines(lines))
    {
      var line := lines[i];
      ghost var before := Seen(inTags, hasMode, mode);
      ModeTagIsTag(line);
      ComingStep(lines, i, inTags);
      if IsTag(line) { CloseAll(b.list, b.item, b.para, []); }
      if ModeOf(line).Some? {
        mode, hasMode, inTags := ModeOf(line), true, true;
        b.FlushPara();
      } else if IsModeTag(line) {
        hasMode, inTags := true, true;
        b.FlushPara();
      } else if IsTag(line) {
        b.FlushPara();
        inTags := true;
      } else if !inTags {
        b.Take(line);
      }
      PrefixStep(lines, i, before, Seen(inTags, hasMode, mode));
    }
    assert lines[..|lines|] == lines && Coming(lines, |lines|, inTags) == [];
    var doc := b.Finish();
    ProseWords(lines);
    return Parsed(doc, mode, hasMode);
  }

  /** The prose still to come from line `i` on. */
  function Coming(lines: seq<string>, i: nat, inTags: bool): seq<string>
    requires i <= |lines|
  {
    if inTags then [] else ProseLines(lines[i..])
  }

  lemma ComingStep(lines: seq<string>, i: nat, inTags: bool)
    requires i < |lines|
    ensures inTags || IsTag(lines[i]) ==> Coming(lines, i, inTags) == [] && Coming(lines, i + 1, true) == []
    ensures !inTags && !IsTag(lines[i]) ==> Coming(lines, i, inTags) == [lines[i]] + Coming(lines, i + 1, inTags)
  {
    assert lines[i..][1..] == lines[i + 1..];
  }

  lemma ProseWords(lines: seq<string>)
    ensures Words(Trim(JoinWith(BlockTexts(ProseLines(lines)), "\n\n"))) == AllWords(ProseLines(lines))
  {
    WordsTrim(JoinWith(BlockTexts(ProseLines(lines)), "\n\n"));
    JoinWithWords(BlockTexts(ProseLines(lines)), "\n\n");
    BlockWords(ProseLines(lines));
  }

  /** What the loop knows of the lines it has seen. */
  datatype Seen = Seen(anyTag: bool, anyModeTag: bool, mode: Option<Mode>)

  ghost predicate Means(lines: seq<string>, s: Seen) {
    s.anyTag == AnyTag(lines) && s.anyModeTag == AnyModeTag(lines) && s.mode == LastMode(lines)
  }

  ghost predicate Follows(s: Seen, line: string, s': Seen) {
    && s'.anyTag == (s.anyTag || IsTag(line)) && s'.anyModeTag == (s.anyModeTag || IsModeTag(line))
    && s'.mode == (if ModeOf(line).Some? then ModeOf(line) else s.mode)
  }

  /** How one more line changes what the prefix means. */
  lemma PrefixStep(lines: seq<string>, i: nat, s: Seen, s': Seen)
    requires i < |lines| && Means(lines[..i], s) && Follows(s, lines[i], s')
    ensures Means(lines[..i + 1], s')
  {
    var a, line := lines[..i], lines[i];
    assert lines[..i + 1] == a + [line];
    assert (a + [line])[..i] == a;
    AnyTagSnoc(a, line);
    AnyModeTagSnoc(a, line);
  }

  lemma AnyTagSnoc(a: seq<string>, line: string)
    ensures AnyTag(a + [line]) <==> AnyTag(a) || IsTag(line)
  {
    var all := a + [line];
    assert all[|a|] == line;
    if k :| 0 <= k < |a| && IsTag(a[k]) { assert IsTag(all[k]); }
  }

  lemma AnyModeTagSnoc(a: seq<string>, line: string)
    ensures AnyModeTag(a + [line]) <==> AnyModeTag(a) || IsModeTag(line)
  {
    var all := a + [line];
    assert all[|a|] == line;
    if k :| 0 <= k < |a| && IsModeTag(a[k]) { assert IsModeTag(all[k]); }
  }
}
