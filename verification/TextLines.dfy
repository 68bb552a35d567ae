/** Lines of a text, as `linesOf` and `sliceLines` of `scripts/translation-brief.ts` see them. */
module TextLines {

  /** `replaceAll('\r\n', '\n')`. */
  function Normalize(s: string): string {
    if |s| < 2 then s
    else if s[0] == '\r' && s[1] == '\n' then ['\n'] + Normalize(s[2..])
    else [s[0]] + Normalize(s[1..])
  }

  /** `split('\n')`. */
  function Split(s: string): (ls: seq<string>)
    ensures ls != []
  {
    if s == "" then [""]
    else
      var rest := Split(s[1..]);
      if s[0] == '\n' then [""] + rest else [[s[0]] + rest[0]] + rest[1..]
  }

  function LinesOf(markdown: string): seq<string> {
    var lines := Split(Normalize(markdown));
    if lines[|lines| - 1] == "" then lines[..|lines| - 1] else lines
  }

  /** Each line followed by a newline. */
  function Body(lines: seq<string>): string {
    if lines == [] then "" else lines[0] + ['\n'] + Body(lines[1..])
  }

  /** `lines.join('\n')` and one final newline. */
  function Text(lines: seq<string>): string {
    if lines == [] then "\n" else Body(lines)
  }

  predicate CleanLine(line: string) {
    '\n' !in line && (line != "" ==> line[|line| - 1] != '\r')
  }

  predicate CleanLines(lines: seq<string>) {
    forall i | 0 <= i < |lines| :: CleanLine(lines[i])
  }

  lemma {:induction false} NormalizeLine(line: string, rest: string)
    requires CleanLine(line)
    ensures Normalize(line + ['\n'] + rest) == line + ['\n'] + Normalize(rest)
  {
    var s := line + ['\n'] + rest;
    if line == "" {
      assert s[1..] == rest;
      if rest == "" { assert Normalize(s) == s; }
    } else {
      assert s[1..] == line[1..] + ['\n'] + rest;
      assert line[1..] != "" ==> line[1..][|line[1..]| - 1] == line[|line| - 1];
      NormalizeLine(line[1..], rest);
      assert s[0] == '\r' ==> s[1] != '\n' by {
        if |line| > 1 { assert line[1] in line; }
      }
    }
  }

  lemma {:induction false} SplitLine(line: string, rest: string)
    requires '\n' !in line
    ensures Split(line + ['\n'] + rest) == [line] + Split(rest)
  {
    var s := line + ['\n'] + rest;
    if line == "" {
      assert s[1..] == rest;
    } else {
      assert s[1..] == line[1..] + ['\n'] + rest;
      assert s[0] in line;
      SplitLine(line[1..], rest);
      assert ([line[1..]] + Split(rest))[1..] == Split(rest);
      assert [s[0]] + line[1..] == line;
    }
  }

  lemma {:induction false} SplitHasNoNewline(s: string, i: nat)
    requires i < |Split(s)|
    ensures '\n' !in Split(s)[i]
  {
    if s != "" {
      if s[0] == '\n' {
        if i > 0 { SplitHasNoNewline(s[1..], i - 1); }
      } else {
        SplitHasNoNewline(s[1..], i);
      }
    }
  }

  lemma OneLine(line: string)
    ensures Text([line]) == line + ['\n']
  {
    var empty: seq<string> := [];
    assert [line][1..] == empty;
    assert Body([line]) == line + ['\n'] + Body(empty);
    assert Body(empty) == "";
  }

  predicate NoNewlines(lines: seq<string>) {
    forall i | 0 <= i < |lines| :: '\n' !in lines[i]
  }

  /** What is read never holds a newline. */
  lemma LinesHaveNoNewline(markdown: string)
    ensures NoNewlines(LinesOf(markdown))
  {
    var lines := Split(Normalize(markdown));
    forall i | 0 <= i < |LinesOf(markdown)| ensures '\n' !in LinesOf(markdown)[i] {
      SplitHasNoNewline(Normalize(markdown), i);
    }
  }

  lemma {:induction false} SplitBodyLines(lines: seq<string>)
    requires NoNewlines(lines)
    ensures Split(Body(lines)) == lines + [""]
  {
    if lines != [] {
      forall i | 0 <= i < |lines[1..]| ensures '\n' !in lines[1..][i] { assert '\n' !in lines[i + 1]; }
      SplitBodyLines(lines[1..]);
      SplitLine(lines[0], Body(lines[1..]));
    }
  }

  lemma {:induction false} BodyOfSplit(s: string)
    ensures Body(Split(s)) == s + ['\n'] && NoNewlines(Split(s))
  {
    forall i | 0 <= i < |Split(s)| ensures '\n' !in Split(s)[i] { SplitHasNoNewline(s, i); }
    if s != "" {
      var rest := Split(s[1..]);
      BodyOfSplit(s[1..]);
      assert s + ['\n'] == [s[0]] + (s[1..] + ['\n']);
      if s[0] == '\n' {
        assert ([""] + rest)[1..] == rest && "" + ['\n'] == [s[0]];
      } else {
        var first := [[s[0]] + rest[0]];
        assert (first + rest[1..])[1..] == rest[1..];
        assert [s[0]] + rest[0] + ['\n'] + Body(rest[1..]) == [s[0]] + (rest[0] + ['\n'] + Body(rest[1..]));
      }
    }
  }

  lemma {:induction false} BodySnoc(lines: seq<string>, last: string)
    ensures Body(lines + [last]) == Body(lines) + (last + ['\n'])
  {
    var more, end := lines + [last], last + ['\n'];
    if lines == [] {
      var none: seq<string> := [];
      assert more == [last] && more[1..] == none;
      assert Body(more) == end + Body(none) == end == Body(lines) + end;
    } else {
      assert more[1..] == lines[1..] + [last];
      BodySnoc(lines[1..], last);
      assert lines[0] + ['\n'] + (Body(lines[1..]) + end) == Body(lines) + end;
    }
  }

  lemma SnocInjective<T>(a: seq<T>, b: seq<T>, x: T)
    ensures a + [x] == b + [x] <==> a == b
  {
    assert (a + [x])[..|a|] == a && (b + [x])[..|b|] == b;
  }

  /** The text is the lines, each with a newline behind it. */
  lemma AllTerminated(s: string, lines: seq<string>)
    ensures NoNewlines(lines) && s == Body(lines) <==> Split(s) == lines + [""]
  {
    BodyOfSplit(s);
    if NoNewlines(lines) { SplitBodyLines(lines); }
    if Split(s) == lines + [""] {
      BodySnoc(lines, "");
      assert "" + ['\n'] == ['\n'];
      SnocInjective(s, Body(lines), '\n');
      forall i | 0 <= i < |lines| ensures '\n' !in lines[i] { assert '\n' !in Split(s)[i]; }
    }
  }

  lemma LastUnterminated(s: string, lines: seq<string>)
    ensures NoNewlines(lines) && s + ['\n'] == Body(lines) <==> Split(s) == lines
  {
    BodyOfSplit(s);
    if NoNewlines(lines) && s + ['\n'] == Body(lines) {
      SplitBodyLines(lines);
      SplitBodyLines(Split(s));
      SnocInjective(lines, Split(s), "");
    }
  }

  /**
   * What the lines of any text are: with a newline behind each they are the normalized text,
   * or that and a newline, if a last line of some text has none of its own.
   */
  lemma LinesExactly(markdown: string, lines: seq<string>)
    ensures LinesOf(markdown) == lines <==>
            NoNewlines(lines) &&
            (|| Normalize(markdown) == Body(lines)
             || (lines != [] && lines[|lines| - 1] != "" && Normalize(markdown) + ['\n'] == Body(lines)))
  {
    AllTerminated(Normalize(markdown), lines);
    LastUnterminated(Normalize(markdown), lines);
    ReadOff(Split(Normalize(markdown)), lines);
  }

  lemma ReadOff(all: seq<string>, lines: seq<string>)
    requires all != []
    ensures lines == (if all[|all| - 1] == "" then all[..|all| - 1] else all)
            <==> all == lines + [""] || (lines != [] && lines[|lines| - 1] != "" && all == lines)
  {
    if all == lines + [""] { assert all[..|all| - 1] == lines; }
  }

  /** Without a newline there is nothing to normalize. */
  lemma {:induction false} NormalizeLast(line: string)
    requires '\n' !in line
    ensures Normalize(line) == line
  {
    if |line| >= 2 { NormalizeLast(line[1..]); }
  }

  /** Lines are determined by the text they are written as. */
  lemma TextDeterminesLines(a: seq<string>, b: seq<string>)
    requires a != [] && b != [] && NoNewlines(a) && NoNewlines(b)
    ensures Text(a) == Text(b) <==> a == b
  {
    SplitBodyLines(a);
    SplitBodyLines(b);
    if Text(a) == Text(b) {
      assert a + [""] == b + [""];
      assert a == (a + [""])[..|a|] && b == (b + [""])[..|b|];
    }
  }

  /** Each line followed by a carriage return and a newline. */
  function DosText(lines: seq<string>): string {
    if lines == [] then "" else lines[0] + ['\r', '\n'] + DosText(lines[1..])
  }

  lemma {:induction false} NormalizeDosLine(line: string, rest: string)
    requires '\n' !in line
    ensures Normalize(line + ['\r', '\n'] + rest) == line + ['\n'] + Normalize(rest)
  {
    var s := line + ['\r', '\n'] + rest;
    if line == "" {
      assert s[2..] == rest;
    } else {
      assert s[1..] == line[1..] + ['\r', '\n'] + rest;
      assert s[1] != '\n' by { if |line| > 1 { assert line[1] in line; } }
      NormalizeDosLine(line[1..], rest);
      assert [s[0]] + (line[1..] + ['\n'] + Normalize(rest)) == line + ['\n'] + Normalize(rest);
    }
  }

  /** Any lines can be written so that they are read back. */
  lemma {:induction false} DosTextReads(lines: seq<string>)
    requires NoNewlines(lines)
    ensures Normalize(DosText(lines)) == Body(lines)
    ensures lines != [] ==> LinesOf(DosText(lines)) == lines
  {
    if lines != [] {
      forall i | 0 <= i < |lines[1..]| ensures '\n' !in lines[1..][i] { assert '\n' !in lines[i + 1]; }
      DosTextReads(lines[1..]);
      NormalizeDosLine(lines[0], DosText(lines[1..]));
      SplitBodyLines(lines);
    }
  }

  // ---------- When writing lines out and reading them back is the identity ----------

  /** A line without the carriage return it ends in. */
  function Strip(line: string): string {
    if line != "" && line[|line| - 1] == '\r' then line[..|line| - 1] else line
  }

  function StripAll(lines: seq<string>): (s: seq<string>)
    ensures |s| == |lines| && forall i :: 0 <= i < |s| ==> s[i] == Strip(lines[i])
  {
    seq(|lines|, i requires 0 <= i < |lines| => Strip(lines[i]))
  }

  lemma NormalizeAnyLine(line: string, rest: string)
    requires '\n' !in line
    ensures Normalize(line + ['\n'] + rest) == Strip(line) + ['\n'] + Normalize(rest)
  {
    if CleanLine(line) {
      NormalizeLine(line, rest);
    } else {
      assert line + ['\n'] + rest == Strip(line) + ['\r', '\n'] + rest;
      NormalizeDosLine(Strip(line), rest);
    }
  }

  /** Lines written out and read back lose the carriage return they end in. */
  lemma {:induction false} ReadBack(lines: seq<string>)
    requires NoNewlines(lines)
    ensures Normalize(Body(lines)) == Body(StripAll(lines))
    ensures lines != [] ==> LinesOf(Text(lines)) == StripAll(lines)
  {
    if lines != [] {
      var rest := lines[1..];
      forall i | 0 <= i < |rest| ensures '\n' !in rest[i] { assert '\n' !in lines[i + 1]; }
      ReadBack(rest);
      NormalizeAnyLine(lines[0], Body(rest));
      assert StripAll(lines)[1..] == StripAll(rest);
      forall i | 0 <= i < |lines| ensures '\n' !in StripAll(lines)[i] { assert '\n' !in lines[i]; }
      SplitBodyLines(StripAll(lines));
    }
  }

  /**
   * Lines survive being written out and read back exactly when there are any and none
   * holds a newline or ends in a carriage return.
   */
  lemma RoundTripExactly(lines: seq<string>)
    ensures LinesOf(Text(lines)) == lines <==> lines != [] && CleanLines(lines)
  {
    if lines != [] && CleanLines(lines) {
      forall i | 0 <= i < |lines| ensures '\n' !in lines[i] && Strip(lines[i]) == lines[i] {
        assert CleanLine(lines[i]);
      }
      ReadBack(lines);
    }
    if LinesOf(Text(lines)) == lines {
      LinesHaveNoNewline(Text(lines));
      if lines == [] { NothingReadsBack(); }
      ReadBack(lines);
      forall i | 0 <= i < |lines| ensures CleanLine(lines[i]) { assert Strip(lines[i]) == lines[i]; }
    }
  }

  lemma NothingReadsBack()
    ensures LinesOf(Text([])) == [""]
  {
  }
}
