/** The prose lines of `scripts/markdown.ts`: lines outside code and HTML comments. */
module MarkdownProse {
  import opened TextLines
  import opened WhiteSpace

  /** A half-open range of offsets or of columns. */
  datatype Range = Range(start: nat, end: nat)

  predicate Covers(r: Range, i: nat) {
    r.start <= i < r.end
  }

  predicate Covered(ranges: seq<Range>, i: nat) {
    exists k | 0 <= k < |ranges| :: Covers(ranges[k], i)
  }

  // ---------- Lines and offsets ----------

  /** Document offset of the first character of a line. */
  function LineOffset(rawLines: seq<string>, i: nat): nat
    requires i <= |rawLines|
  {
    if i == 0 then 0 else LineOffset(rawLines, i - 1) + |rawLines[i - 1]| + 1
  }

  predicate SliceAt(source: string, offset: nat, part: string) {
    offset + |part| <= |source| && source[offset..offset + |part|] == part
  }

  /** A line is a slice of the document. */
  lemma {:induction false} LineIsSlice(source: string, i: nat)
    requires i < |Split(source)|
    ensures SliceAt(source, LineOffset(Split(source), i), Split(source)[i])
  {
    if source != "" {
      var lines, rest := Split(source), Split(source[1..]);
      if source[0] != '\n' {
        LineIsSlice(source[1..], i);
        if i == 0 {
          SliceLonger(source, rest[0]);
        } else {
          OffsetGrows(lines, rest, i);
          SliceShift(source, LineOffset(rest, i), rest[i]);
        }
      } else if i > 0 {
        OffsetShift(lines, rest, i);
        LineIsSlice(source[1..], i - 1);
        SliceShift(source, LineOffset(rest, i - 1), rest[i - 1]);
      }
    }
  }

  lemma SliceShift(source: string, offset: nat, part: string)
    requires source != "" && SliceAt(source[1..], offset, part)
    ensures SliceAt(source, offset + 1, part)
  {
  }

  lemma SliceLonger(source: string, part: string)
    requires source != "" && SliceAt(source[1..], 0, part)
    ensures SliceAt(source, 0, [source[0]] + part)
  {
  }

  lemma {:induction false} OffsetShift(lines: seq<string>, rest: seq<string>, i: nat)
    requires lines == [""] + rest && 0 < i <= |rest|
    ensures LineOffset(lines, i) == LineOffset(rest, i - 1) + 1
  {
    if i > 1 { OffsetShift(lines, rest, i - 1); }
  }

  lemma {:induction false} OffsetGrows(lines: seq<string>, rest: seq<string>, i: nat)
    requires |lines| == |rest| && 0 < i < |lines| && |lines[0]| == |rest[0]| + 1 && lines[1..] == rest[1..]
    ensures LineOffset(lines, i) == LineOffset(rest, i) + 1
  {
    if i > 1 {
      OffsetGrows(lines, rest, i - 1);
      assert lines[i - 1] == lines[1..][i - 2] == rest[i - 1];
    }
  }

  // ---------- Clipping the comments to a line ----------

  function Max(a: nat, b: nat): nat {
    if a < b then b else a
  }

  function Min(a: nat, b: nat): nat {
    if a < b then a else b
  }

  /** The comment shares a character with the line, or runs across its empty place. */
  predicate Touches(c: Range, offset: nat, length: nat) {
    Max(c.start, offset) < Min(c.end, offset + length) || (length == 0 && c.start <= offset < c.end)
  }

  /** The columns of one line that the comments occupy. */
  method ClipToLine(comments: seq<Range>, offset: nat, length: nat) returns (ranges: seq<Range>)
    ensures ranges == [] <==> Untouched(comments, offset, length)
    ensures InLine(ranges, length)
    ensures forall col :: 0 <= col < length ==> (Covered(ranges, col) <==> Covered(comments, offset + col))
  {
    ranges := [];
    for k := 0 to |comments|
      invariant ranges == [] <==> forall m :: 0 <= m < k ==> !Touches(comments[m], offset, length)
      invariant InLine(ranges, length)
      invariant forall col :: 0 <= col < length ==> (Covered(ranges, col) <==> Covered(comments[..k], offset + col))
    {
      var c := comments[k];
      var from, to := Max(c.start, offset), Min(c.end, offset + length);
      var coversEmptyLine := length == 0 && c.start <= offset && c.end > offset;
      ghost var before := ranges;
      if from < to || coversEmptyLine {
        ranges := ranges + [Range(from - offset, to - offset)];
      }
      forall col | 0 <= col < length ensures Covered(ranges, col) <==> Covered(comments[..k + 1], offset + col) {
        CoveredSnoc(comments[..k], c, offset + col);
        assert comments[..k + 1] == comments[..k] + [c];
        CoveredSnoc(before, Range(from, to), col);
        if ranges != before { CoveredSnoc(before, Range(from - offset, to - offset), col); }
      }
    }
    assert comments[..|comments|] == comments;
  }

  lemma CoveredSnoc(ranges: seq<Range>, r: Range, i: nat)
    ensures Covered(ranges + [r], i) <==> Covered(ranges, i) || Covers(r, i)
  {
    var all := ranges + [r];
    assert all[|ranges|] == r;
    if Covered(ranges, i) {
      var k :| 0 <= k < |ranges| && Covers(ranges[k], i);
      assert all[k] == ranges[k];
    }
  }

  // ---------- The cursor sweep ----------

  predicate Sorted(ranges: seq<Range>) {
    forall i, j | 0 <= i < j < |ranges| :: ranges[i].start <= ranges[j].start
  }

  /** A stable insertion, as `sort` by start. */
  function Insert(r: Range, sorted: seq<Range>): (s: seq<Range>)
    ensures forall x :: x in s <==> x == r || x in sorted
    ensures Sorted(sorted) ==> Sorted(s)
  {
    if sorted == [] then [r]
    else if r.start <= sorted[0].start then [r] + sorted
    else
      var rest := Insert(r, sorted[1..]);
      assert Sorted(sorted) ==> Sorted(sorted[1..]);
      assert forall j :: 0 <= j < |rest| ==> rest[j] in rest;
      [sorted[0]] + rest
  }

  function SortByStart(ranges: seq<Range>): (s: seq<Range>)
    ensures Sorted(s) && forall x :: x in s <==> x in ranges
  {
    if ranges == [] then [] else Insert(ranges[0], SortByStart(ranges[1..]))
  }

  /** The characters of the columns from `lo` to `hi` that no range covers. */
  function Keep(raw: string, ranges: seq<Range>, lo: nat, hi: nat): string
    requires lo <= hi <= |raw|
  {
    if lo == hi then ""
    else Keep(raw, ranges, lo, hi - 1) + (if Covered(ranges, hi - 1) then "" else [raw[hi - 1]])
  }

  lemma {:induction false} KeepSplit(raw: string, ranges: seq<Range>, lo: nat, mid: nat, hi: nat)
    requires lo <= mid <= hi <= |raw|
    ensures Keep(raw, ranges, lo, hi) == Keep(raw, ranges, lo, mid) + Keep(raw, ranges, mid, hi)
    decreases hi
  {
    if mid < hi { KeepSplit(raw, ranges, lo, mid, hi - 1); }
  }

  lemma {:induction false} KeepAll(raw: string, ranges: seq<Range>, lo: nat, hi: nat)
    requires lo <= hi <= |raw| && forall i :: lo <= i < hi ==> !Covered(ranges, i)
    ensures Keep(raw, ranges, lo, hi) == raw[lo..hi]
  {
    if lo < hi {
      KeepAll(raw, ranges, lo, hi - 1);
      assert !Covered(ranges, hi - 1);
    }
  }

  lemma {:induction false} KeepNone(raw: string, ranges: seq<Range>, lo: nat, hi: nat)
    requires lo <= hi <= |raw| && forall i :: lo <= i < hi ==> Covered(ranges, i)
    ensures Keep(raw, ranges, lo, hi) == ""
  {
    if lo < hi {
      KeepNone(raw, ranges, lo, hi - 1);
      assert Covered(ranges, hi - 1);
    }
  }

  /** Only the coverage matters, not the order of the ranges. */
  lemma {:induction false} KeepSame(raw: string, a: seq<Range>, b: seq<Range>, lo: nat, hi: nat)
    requires lo <= hi <= |raw| && forall x :: x in a <==> x in b
    ensures Keep(raw, a, lo, hi) == Keep(raw, b, lo, hi)
  {
    if lo < hi {
      KeepSame(raw, a, b, lo, hi - 1);
      SameCoverage(a, b, hi - 1);
      SameCoverage(b, a, hi - 1);
    }
  }

  lemma SameCoverage(a: seq<Range>, b: seq<Range>, i: nat)
    requires forall x :: x in a <==> x in b
    ensures Covered(a, i) ==> Covered(b, i)
  {
    if Covered(a, i) {
      var k :| 0 <= k < |a| && Covers(a[k], i);
      assert a[k] in b;
    }
  }

  /** Columns inside the line, as the clipping makes them. */
  predicate InLine(ranges: seq<Range>, length: nat) {
    forall m | 0 <= m < |ranges| :: ranges[m].start <= ranges[m].end <= length
  }

  /** What the cursor passes before the next range begins is covered by no range at all. */
  lemma GapIsUncovered(sorted: seq<Range>, k: nat, cursor: nat, i: nat)
    requires Sorted(sorted) && k < |sorted| && cursor <= i < sorted[k].start
    requires forall m :: 0 <= m < k ==> sorted[m].end <= cursor
    ensures !Covered(sorted, i)
  {
  }

  /** One move of the cursor collects exactly the uncovered characters it passes. */
  lemma SweepStep(raw: string, sorted: seq<Range>, k: nat, cursor: nat)
    requires Sorted(sorted) && InLine(sorted, |raw|) && k < |sorted| && cursor <= |raw|
    requires forall m :: 0 <= m < k ==> sorted[m].end <= cursor
    ensures Max(cursor, sorted[k].start) <= Max(cursor, sorted[k].end) <= |raw|
    ensures Keep(raw, sorted, 0, Max(cursor, sorted[k].end))
            == Keep(raw, sorted, 0, cursor) + raw[cursor..Max(cursor, sorted[k].start)]
  {
    var mid, next := Max(cursor, sorted[k].start), Max(cursor, sorted[k].end);
    forall i | cursor <= i < mid ensures !Covered(sorted, i) {
      GapIsUncovered(sorted, k, cursor, i);
    }
    forall i | mid <= i < next ensures Covered(sorted, i) {
      assert Covers(sorted[k], i);
    }
    KeepAll(raw, sorted, cursor, mid);
    KeepNone(raw, sorted, mid, next);
    KeepSplit(raw, sorted, cursor, mid, next);
    KeepSplit(raw, sorted, 0, cursor, next);
  }

  /** `raw.slice(from, to)`. */
  function Slice(raw: string, from: nat, to: nat): string
    requires from <= |raw| && to <= |raw|
  {
    if from <= to then raw[from..to] else ""
  }

  /** The sweep: whatever the ranges' order and overlap, the visible text is what none covers. */
  method VisibleText(raw: string, ranges: seq<Range>) returns (visible: string)
    requires InLine(ranges, |raw|)
    ensures visible == Keep(raw, ranges, 0, |raw|)
  {
    var sorted := SortByStart(ranges);
    var cursor: nat := 0;
    visible := "";
    assert InLine(sorted, |raw|) by {
      forall m | 0 <= m < |sorted| ensures sorted[m].start <= sorted[m].end <= |raw| {
        assert sorted[m] in ranges;
      }
    }
    for k := 0 to |sorted|
      invariant cursor <= |raw| && forall m :: 0 <= m < k ==> sorted[m].end <= cursor
      invariant visible == Keep(raw, sorted, 0, cursor)
    {
      SweepStep(raw, sorted, k, cursor);
      visible := visible + Slice(raw, cursor, sorted[k].start);
      cursor := Max(cursor, sorted[k].end);
    }
    forall i: nat | cursor <= i < |raw| ensures !Covered(sorted, i) {
    }
    KeepAll(raw, sorted, cursor, |raw|);
    KeepSplit(raw, sorted, 0, cursor, |raw|);
    visible := visible + raw[cursor..];
    KeepSame(raw, sorted, ranges, 0, |raw|);
  }

  // ---------- Keeping a line ----------

  /** Some character before `hi` is neither covered nor white space. */
  predicate ShowsText(raw: string, ranges: seq<Range>, hi: nat)
    requires hi <= |raw|
  {
    exists i | 0 <= i < hi :: !Covered(ranges, i) && !IsSpace(raw[i])
  }

  lemma ShowsTextStep(raw: string, ranges: seq<Range>, hi: nat)
    requires 0 < hi <= |raw|
    ensures ShowsText(raw, ranges, hi)
            <==> ShowsText(raw, ranges, hi - 1) || (!Covered(ranges, hi - 1) && !IsSpace(raw[hi - 1]))
  {
  }

  lemma {:induction false} KeepHasText(raw: string, ranges: seq<Range>, hi: nat)
    requires hi <= |raw|
    ensures !Blank(Keep(raw, ranges, 0, hi)) <==> ShowsText(raw, ranges, hi)
  {
    if hi > 0 {
      KeepHasText(raw, ranges, hi - 1);
      ShowsTextStep(raw, ranges, hi);
      var init := Keep(raw, ranges, 0, hi - 1);
      if Covered(ranges, hi - 1) {
        assert Keep(raw, ranges, 0, hi) == init;
      } else {
        assert Keep(raw, ranges, 0, hi) == init + [raw[hi - 1]];
        HasTextSnoc(init, raw[hi - 1]);
      }
    }
  }

  lemma HasTextSnoc(s: string, c: char)
    ensures !Blank(s + [c]) <==> !Blank(s) || !IsSpace(c)
  {
    var all := s + [c];
    assert all[|s|] == c;
    if !Blank(s) {
      var j :| 0 <= j < |s| && !IsSpace(s[j]);
      assert all[j] == s[j];
    }
    if !Blank(all) {
      var j :| 0 <= j < |all| && !IsSpace(all[j]);
      assert j < |s| ==> s[j] == all[j];
    }
  }

  /** `hasRenderedTextOutsideComments`; no entry means no comment touches the line. */
  method HasRenderedText(raw: string, ranges: seq<Range>) returns (r: bool)
    requires InLine(ranges, |raw|)
    ensures r <==> ranges == [] || ShowsText(raw, ranges, |raw|)
  {
    if ranges == [] {
      return true;
    }
    var visible := VisibleText(raw, ranges);
    TrimBlank(visible);
    KeepHasText(raw, ranges, |raw|);
    return Trim(visible) != "";
  }

  ghost predicate Untouched(comments: seq<Range>, offset: nat, length: nat) {
    forall k :: 0 <= k < |comments| ==> !Touches(comments[k], offset, length)
  }

  /** A character of the document, not white space, at an offset in no comment. */
  ghost predicate ShowsSource(source: string, comments: seq<Range>, from: nat, to: nat) {
    exists o: nat :: from <= o < to && o < |source| && !Covered(comments, o) && !IsSpace(source[o])
  }

  /** A line of the document, by number, and what keeps it. */
  ghost predicate KeptLine(source: string, comments: seq<Range>, fenced: set<nat>, i: nat) {
    var lines := Split(source);
    && i < |lines| && i + 1 !in fenced
    && var offset := LineOffset(lines, i);
       Untouched(comments, offset, |lines[i]|) || ShowsSource(source, comments, offset, offset + |lines[i]|)
  }

  datatype ProseLine = ProseLine(index: nat, raw: string)

  /** One line outside code, as a person sees it rendered. */
  method LineShows(ghost source: string, comments: seq<Range>, lineOffset: nat, raw: string) returns (rendered: bool)
    requires SliceAt(source, lineOffset, raw)
    ensures rendered <==>
              Untouched(comments, lineOffset, |raw|) || ShowsSource(source, comments, lineOffset, lineOffset + |raw|)
  {
    var ranges := ClipToLine(comments, lineOffset, |raw|);
    rendered := HasRenderedText(raw, ranges);
    LineDecision(source, comments, lineOffset, raw, ranges);
  }

  /**
   * `markdownProseLines`: for arbitrary comment ranges, a line outside code is kept
   * exactly when no comment touches it or it has a character, not white space, whose
   * document offset lies in no comment.  Kept lines are in order and verbatim.
   */
  method MarkdownProseLines(source: string, comments: seq<Range>, fenced: set<nat>)
    returns (kept: seq<ProseLine>)
    ensures forall k :: 0 <= k < |kept| ==>
              1 <= kept[k].index <= |Split(source)| && kept[k].raw == Split(source)[kept[k].index - 1]
    ensures forall k, m :: 0 <= k < m < |kept| ==> kept[k].index < kept[m].index
    ensures forall i: nat :: KeptLine(source, comments, fenced, i) <==> Listed(kept, i + 1)
  {
    var rawLines := Split(source);
    var lineOffset := 0;
    kept := [];
    for i := 0 to |rawLines|
      invariant lineOffset == LineOffset(rawLines, i)
      invariant forall k :: 0 <= k < |kept| ==> 1 <= kept[k].index <= i && kept[k].raw == rawLines[kept[k].index - 1]
      invariant forall k, m :: 0 <= k < m < |kept| ==> kept[k].index < kept[m].index
      invariant Decided(source, comments, fenced, kept, i)
    {
      var raw := rawLines[i];
      LineIsSlice(source, i);
      var rendered := LineShows(source, comments, lineOffset, raw);
      DecideNext(source, comments, fenced, kept, i, i + 1 !in fenced && rendered, ProseLine(i + 1, raw));
      if i + 1 !in fenced && rendered {
        kept := kept + [ProseLine(i + 1, raw)];
      }
      lineOffset := lineOffset + |raw| + 1;
    }
  }

  /** The lines before `i` have been kept or dropped as they should. */
  ghost predicate Decided(source: string, comments: seq<Range>, fenced: set<nat>, kept: seq<ProseLine>, i: nat) {
    forall j: nat :: j < i ==> (KeptLine(source, comments, fenced, j) <==> Listed(kept, j + 1))
  }

  lemma DecideNext(source: string, comments: seq<Range>, fenced: set<nat>, kept: seq<ProseLine>, i: nat, keep: bool,
                   line: ProseLine)
    requires Decided(source, comments, fenced, kept, i) && line.index == i + 1
             && forall k | 0 <= k < |kept| :: kept[k].index <= i
    requires KeptLine(source, comments, fenced, i) <==> keep
    ensures Decided(source, comments, fenced, if keep then kept + [line] else kept, i + 1)
  {
    forall n: nat ensures Listed(kept + [line], n) <==> Listed(kept, n) || n == i + 1 { ListedSnoc(kept, line, n); }
  }

  ghost predicate Listed(kept: seq<ProseLine>, index: nat) {
    exists k :: 0 <= k < |kept| && kept[k].index == index
  }

  lemma ListedSnoc(kept: seq<ProseLine>, line: ProseLine, index: nat)
    ensures Listed(kept + [line], index) <==> Listed(kept, index) || line.index == index
  {
    var all := kept + [line];
    assert all[|kept|] == line;
    if Listed(kept, index) {
      var k :| 0 <= k < |kept| && kept[k].index == index;
      assert all[k] == kept[k];
    }
  }

  /** What the clipped columns decide is what the document's comments decide. */
  lemma LineDecision(source: string, comments: seq<Range>, offset: nat, raw: string, ranges: seq<Range>)
    requires offset + |raw| <= |source| && source[offset..offset + |raw|] == raw
    requires forall col :: 0 <= col < |raw| ==> (Covered(ranges, col) <==> Covered(comments, offset + col))
    ensures ShowsSource(source, comments, offset, offset + |raw|) <==> ShowsText(raw, ranges, |raw|)
  {
    if ShowsSource(source, comments, offset, offset + |raw|) {
      var o: nat :| offset <= o < offset + |raw| && o < |source| && !Covered(comments, o) && !IsSpace(source[o]);
      var col: nat := o - offset;
      assert source[offset + col] == raw[col];
      assert !Covered(ranges, col);
    }
    if ShowsText(raw, ranges, |raw|) {
      var col: nat :| 0 <= col < |raw| && !Covered(ranges, col) && !IsSpace(raw[col]);
      assert source[offset + col] == raw[col];
      assert !Covered(comments, offset + col);
    }
  }
}
