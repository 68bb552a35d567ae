/** Replacing disjoint spans of a sequence by splices taken from the back. */
module Splices {

  /** The elements from `start` up to `end`. */
  datatype Span = Span(start: nat, end: nat)

  /** Spans of a sequence of length `n`, in order and disjoint. */
  predicate InOrder(n: nat, spans: seq<Span>) {
    && (forall i | 0 <= i < |spans| :: spans[i].start <= spans[i].end <= n)
    && (forall i | 0 < i < |spans| :: spans[i - 1].end <= spans[i].start)
  }

  function Piece<T>(s: seq<T>, spans: seq<Span>, i: nat): seq<T>
    requires InOrder(|s|, spans) && i < |spans|
  {
    s[spans[i].start..spans[i].end]
  }

  function Pieces<T>(s: seq<T>, spans: seq<Span>): (p: seq<seq<T>>)
    requires InOrder(|s|, spans)
    ensures |p| == |spans| && forall i :: 0 <= i < |spans| ==> p[i] == Piece(s, spans, i)
  {
    seq(|spans|, i requires 0 <= i < |spans| => Piece(s, spans, i))
  }

  /** Where the gap before span `i` begins. */
  function Cut(spans: seq<Span>, i: nat): nat
    requires i <= |spans|
  {
    if i == 0 then 0 else spans[i - 1].end
  }

  function GapEnd(n: nat, spans: seq<Span>, i: nat): (e: nat)
    requires InOrder(n, spans) && i <= |spans|
    ensures Cut(spans, i) <= e <= n
  {
    if i == |spans| then n else spans[i].start
  }

  /** What lies before, between and after the spans. */
  function Gaps<T>(s: seq<T>, spans: seq<Span>): (g: seq<seq<T>>)
    requires InOrder(|s|, spans)
    ensures |g| == |spans| + 1
    ensures forall i :: 0 <= i <= |spans| ==> g[i] == s[Cut(spans, i)..GapEnd(|s|, spans, i)]
  {
    seq(|spans| + 1, i requires 0 <= i <= |spans| => s[Cut(spans, i)..GapEnd(|s|, spans, i)])
  }

  /** Gaps and blocks in turn, from gap `i` on. */
  function Weave<T>(gaps: seq<seq<T>>, blocks: seq<seq<T>>, i: nat := 0): seq<T>
    requires |gaps| == |blocks| + 1 && i <= |blocks|
    decreases |blocks| - i
  {
    if i == |blocks| then gaps[i] else gaps[i] + blocks[i] + Weave(gaps, blocks, i + 1)
  }

  /** All spans replaced at once. */
  function ReplaceAll<T>(s: seq<T>, spans: seq<Span>, blocks: seq<seq<T>>): seq<T>
    requires InOrder(|s|, spans) && |blocks| == |spans|
  {
    Weave(Gaps(s, spans), blocks)
  }

  lemma ThreeParts<T>(s: seq<T>, a: nat, b: nat, c: nat)
    requires a <= b <= c <= |s|
    ensures s[a..] == s[a..b] + s[b..c] + s[c..]
    ensures s[..c] == s[..a] + s[a..b] + s[b..c]
    ensures s[..b] == s[..a] + s[a..b]
  {
  }

  /** Gaps woven with the pieces they were cut from give the whole back. */
  lemma {:induction false} WeaveIsWhole<T>(s: seq<T>, spans: seq<Span>, i: nat)
    requires InOrder(|s|, spans) && i <= |spans|
    ensures Weave(Gaps(s, spans), Pieces(s, spans), i) == s[Cut(spans, i)..]
    decreases |spans| - i
  {
    if i < |spans| {
      WeaveIsWhole(s, spans, i + 1);
      ThreeParts(s, Cut(spans, i), spans[i].start, spans[i].end);
    }
  }

  /** The sequence when the spans from `i` on have been replaced. */
  ghost function Partial<T>(s: seq<T>, spans: seq<Span>, blocks: seq<seq<T>>, i: nat): (r: seq<T>)
    requires InOrder(|s|, spans) && |blocks| == |spans| && i <= |spans|
    ensures |r| >= Cut(spans, i)
  {
    s[..Cut(spans, i)] + Weave(Gaps(s, spans), blocks, i)
  }

  lemma PartialEnds<T>(s: seq<T>, spans: seq<Span>, blocks: seq<seq<T>>)
    requires InOrder(|s|, spans) && |blocks| == |spans|
    ensures Partial(s, spans, blocks, |spans|) == s
    ensures Partial(s, spans, blocks, 0) == ReplaceAll(s, spans, blocks)
  {
  }

  /** One splice, taken from the back, replaces one more span. */
  lemma SpliceStep<T>(s: seq<T>, spans: seq<Span>, blocks: seq<seq<T>>, i: nat)
    requires InOrder(|s|, spans) && |blocks| == |spans| && i < |spans|
    ensures var cur := Partial(s, spans, blocks, i + 1);
            && cur[..spans[i].start] + blocks[i] + cur[spans[i].end..] == Partial(s, spans, blocks, i)
            && (blocks[i] == Piece(s, spans, i) ==> cur == Partial(s, spans, blocks, i))
  {
    var cur, rest := Partial(s, spans, blocks, i + 1), Weave(Gaps(s, spans), blocks, i + 1);
    var a, b, c := Cut(spans, i), spans[i].start, spans[i].end;
    ThreeParts(s, a, b, c);
    assert cur[..b] == s[..b] && cur[c..] == rest;
    Concat4(s[..a], s[a..b], blocks[i], rest);
  }

  lemma Concat4<T>(a: seq<T>, b: seq<T>, c: seq<T>, d: seq<T>)
    ensures a + b + c + d == a + (b + c + d)
  {
  }

  // ---------- Any gaps and blocks are those of some sequence ----------

  /** The first `i` gaps and blocks. */
  function Before<T>(gaps: seq<seq<T>>, blocks: seq<seq<T>>, i: nat): seq<T>
    requires |gaps| == |blocks| + 1 && i <= |blocks|
  {
    if i == 0 then [] else Before(gaps, blocks, i - 1) + gaps[i - 1] + blocks[i - 1]
  }

  /** Where the blocks lie when they are woven into the gaps. */
  function Layout<T>(gaps: seq<seq<T>>, blocks: seq<seq<T>>): (spans: seq<Span>)
    requires |gaps| == |blocks| + 1
    ensures |spans| == |blocks|
    ensures forall i :: 0 <= i < |blocks| ==>
              spans[i] == Span(|Before(gaps, blocks, i)| + |gaps[i]|, |Before(gaps, blocks, i + 1)|)
  {
    seq(|blocks|, i requires 0 <= i < |blocks| =>
      Span(|Before(gaps, blocks, i)| + |gaps[i]|, |Before(gaps, blocks, i + 1)|))
  }

  lemma {:induction false} WeaveFrom<T>(gaps: seq<seq<T>>, blocks: seq<seq<T>>, i: nat)
    requires |gaps| == |blocks| + 1 && i <= |blocks|
    ensures Weave(gaps, blocks) == Before(gaps, blocks, i) + Weave(gaps, blocks, i)
  {
    if i > 0 {
      WeaveFrom(gaps, blocks, i - 1);
      Concat4(Before(gaps, blocks, i - 1), gaps[i - 1], blocks[i - 1], Weave(gaps, blocks, i));
    }
  }

  lemma Middle<T>(a: seq<T>, b: seq<T>, c: seq<T>)
    ensures (a + (b + c))[|a|..|a| + |b|] == b
  {
  }

  lemma BlockAt<T>(gaps: seq<seq<T>>, blocks: seq<seq<T>>, i: nat)
    requires |gaps| == |blocks| + 1 && i < |blocks|
    ensures var s, start := Weave(gaps, blocks), |Before(gaps, blocks, i)| + |gaps[i]|;
            var end := |Before(gaps, blocks, i + 1)|;
            start <= end <= |s| && s[start..end] == blocks[i]
  {
    var before, rest := Before(gaps, blocks, i) + gaps[i], Weave(gaps, blocks, i + 1);
    WeaveFrom(gaps, blocks, i + 1);
    assert Weave(gaps, blocks) == before + (blocks[i] + rest);
    Middle(before, blocks[i], rest);
  }

  lemma GapAt<T>(gaps: seq<seq<T>>, blocks: seq<seq<T>>, i: nat)
    requires |gaps| == |blocks| + 1 && i <= |blocks|
    ensures var s, start := Weave(gaps, blocks), |Before(gaps, blocks, i)|;
            && start + |gaps[i]| <= |s| && s[start..start + |gaps[i]|] == gaps[i]
            && (i == |blocks| ==> |s| == start + |gaps[i]|)
  {
    var rest := GapFirst(gaps, blocks, i);
    WeaveFrom(gaps, blocks, i);
    Middle(Before(gaps, blocks, i), gaps[i], rest);
  }

  lemma GapFirst<T>(gaps: seq<seq<T>>, blocks: seq<seq<T>>, i: nat) returns (rest: seq<T>)
    requires |gaps| == |blocks| + 1 && i <= |blocks|
    ensures Weave(gaps, blocks, i) == gaps[i] + rest && (i == |blocks| ==> rest == [])
  {
    rest := if i == |blocks| then [] else blocks[i] + Weave(gaps, blocks, i + 1);
  }

  lemma LayoutInOrder<T>(gaps: seq<seq<T>>, blocks: seq<seq<T>>)
    requires |gaps| == |blocks| + 1
    ensures InOrder(|Weave(gaps, blocks)|, Layout(gaps, blocks))
  {
    var n, spans := |Weave(gaps, blocks)|, Layout(gaps, blocks);
    forall i | 0 <= i < |spans| ensures spans[i].start <= spans[i].end <= n { BlockAt(gaps, blocks, i); }
  }

  /** The sequence woven from gaps and blocks has them back as its own. */
  lemma LaidOut<T>(gaps: seq<seq<T>>, blocks: seq<seq<T>>)
    requires |gaps| == |blocks| + 1
    ensures InOrder(|Weave(gaps, blocks)|, Layout(gaps, blocks))
    ensures Gaps(Weave(gaps, blocks), Layout(gaps, blocks)) == gaps
    ensures Pieces(Weave(gaps, blocks), Layout(gaps, blocks)) == blocks
  {
    LayoutInOrder(gaps, blocks);
    var s, spans := Weave(gaps, blocks), Layout(gaps, blocks);
    forall i | 0 <= i < |blocks| ensures Pieces(s, spans)[i] == blocks[i] { BlockAt(gaps, blocks, i); }
    forall i | 0 <= i <= |blocks| ensures Gaps(s, spans)[i] == gaps[i] { GapInPlace(gaps, blocks, i); }
  }

  lemma GapInPlace<T>(gaps: seq<seq<T>>, blocks: seq<seq<T>>, i: nat)
    requires |gaps| == |blocks| + 1 && i <= |blocks| && InOrder(|Weave(gaps, blocks)|, Layout(gaps, blocks))
    ensures Gaps(Weave(gaps, blocks), Layout(gaps, blocks))[i] == gaps[i]
  {
    GapAt(gaps, blocks, i);
    LayoutGap(gaps, blocks, i);
  }

  lemma LayoutGap<T>(gaps: seq<seq<T>>, blocks: seq<seq<T>>, i: nat)
    requires |gaps| == |blocks| + 1 && i <= |blocks| && InOrder(|Weave(gaps, blocks)|, Layout(gaps, blocks))
    ensures Cut(Layout(gaps, blocks), i) == |Before(gaps, blocks, i)|
    ensures GapEnd(|Weave(gaps, blocks)|, Layout(gaps, blocks), i) == |Before(gaps, blocks, i)| + |gaps[i]|
  {
    GapAt(gaps, blocks, i);
  }
}
