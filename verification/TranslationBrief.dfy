/** The mechanical translation update of `scripts/translation-brief.ts`. */
module TranslationBrief {
  import opened Wrappers
  import opened Splices
  import opened TextLines

  /** Code spans of a document of `n` lines; span `start` is the source's `startLine - 1`. */
  predicate SpansOk(n: nat, spans: seq<Span>) {
    InOrder(n, spans) && forall i | 0 <= i < |spans| :: spans[i].start < spans[i].end
  }

  // ---------- replaceSpanTexts ----------

  /** What each span holds after the replacements. */
  function Blocks(lines: seq<string>, spans: seq<Span>, replacements: map<nat, string>): (b: seq<seq<string>>)
    requires InOrder(|lines|, spans)
    ensures |b| == |spans|
    ensures forall i :: 0 <= i < |spans| ==>
              b[i] == if i in replacements then LinesOf(replacements[i]) else Piece(lines, spans, i)
  {
    seq(|spans|, i requires 0 <= i < |spans| =>
      if i in replacements then LinesOf(replacements[i]) else Piece(lines, spans, i))
  }

  /** Replacing all spans at once: the prose as it was, around the new blocks. */
  function Replaced(lines: seq<string>, spans: seq<Span>, replacements: map<nat, string>): seq<string>
    requires InOrder(|lines|, spans)
  {
    ReplaceAll(lines, spans, Blocks(lines, spans, replacements))
  }

  /**
   * `replaceSpanTexts`: the splices run from the last span to the first, each in
   * the list the previous one left, and amount to a simultaneous replacement.
   */
  method ReplaceSpanTexts(markdown: string, spans: seq<Span>, replacements: map<nat, string>)
    returns (r: Option<string>)
    requires InOrder(|LinesOf(markdown)|, spans)
    ensures r.None? <==> exists k :: k in replacements && k >= |spans|
    ensures r.Some? ==> r.value == Text(Replaced(LinesOf(markdown), spans, replacements))
  {
    if exists k | k in replacements :: k >= |spans| {
      return None;
    }
    var lines := LinesOf(markdown);
    ghost var lines0, blocks := lines, Blocks(lines, spans, replacements);
    PartialEnds(lines0, spans, blocks);
    var i := |spans|;
    while i > 0
      invariant 0 <= i <= |spans|
      invariant lines == Partial(lines0, spans, blocks, i)
    {
      i := i - 1;
      SpliceStep(lines0, spans, blocks, i);
      if i in replacements {
        lines := lines[..spans[i].start] + LinesOf(replacements[i]) + lines[spans[i].end..];
      }
    }
    return Some(Text(lines));
  }

  // ---------- maskCodeSpans ----------

  function Decimal(n: nat): string {
    if n < 10 then [['0', '1', '2', '3', '4', '5', '6', '7', '8', '9'][n]] else Decimal(n / 10) + Decimal(n % 10)
  }

  function Marker(i: nat): string {
    "DSH_TRANSLATION_CODE_" + Decimal(i)
  }

  lemma {:induction false} DecimalIsClean(n: nat)
    ensures Decimal(n) != "" && '\n' !in Decimal(n) && '\r' !in Decimal(n)
  {
    if n >= 10 {
      DecimalIsClean(n / 10);
      DecimalIsClean(n % 10);
    }
  }

  /** The number a row of digits shows. */
  function NumberOf(digits: string): int {
    if digits == "" then 0 else 10 * NumberOf(digits[..|digits| - 1]) + (digits[|digits| - 1] as int - '0' as int)
  }

  lemma OneMoreDigit(digits: string, d: nat)
    requires d < 10
    ensures |Decimal(d)| == 1 && '0' <= Decimal(d)[0] <= '9' && (Decimal(d)[0] == '0' ==> d == 0)
    ensures NumberOf(digits + Decimal(d)) == 10 * NumberOf(digits) + d
  {
    assert (digits + Decimal(d))[..|digits|] == digits;
    assert Decimal(d)[0] as int - '0' as int == d;
  }

  lemma {:induction false} DecimalReads(n: nat)
    ensures Decimal(n) != "" && forall c :: c in Decimal(n) ==> '0' <= c <= '9'
    ensures NumberOf(Decimal(n)) == n && (Decimal(n)[0] == '0' ==> n == 0)
  {
    if n >= 10 {
      DecimalReads(n / 10);
      OneMoreDigit(Decimal(n / 10), n % 10);
    } else {
      OneMoreDigit("", n);
      assert "" + Decimal(n) == Decimal(n);
    }
  }

  /** A marker is the fixed word and the span's number in decimal, so no two spans share one. */
  lemma MarkerReads(i: nat, j: nat)
    ensures |Marker(i)| > 21 && Marker(i)[..21] == "DSH_TRANSLATION_CODE_"
    ensures (forall c :: c in Marker(i)[21..] ==> '0' <= c <= '9') && NumberOf(Marker(i)[21..]) == i
    ensures Marker(i)[21] == '0' ==> i == 0
    ensures Marker(i) == Marker(j) ==> i == j
  {
    DecimalReads(i);
    DecimalReads(j);
    assert Marker(i)[21..] == Decimal(i) && Marker(j)[21..] == Decimal(j);
  }

  lemma MarkerIsClean(i: nat)
    ensures CleanLine(Marker(i)) && LinesOf(Marker(i) + ['\n']) == [Marker(i)]
  {
    DecimalIsClean(i);
    assert forall c :: c in "DSH_TRANSLATION_CODE_" ==> c != '\n' && c != '\r';
    assert CleanLine(Marker(i));
    RoundTripExactly([Marker(i)]);
    OneLine(Marker(i));
  }

  function Markers(n: nat): (m: seq<seq<string>>)
    ensures |m| == n && forall i :: 0 <= i < n ==> m[i] == [Marker(i)]
  {
    seq(n, i requires 0 <= i < n => [Marker(i)])
  }

  function MaskReplacements(n: nat): map<nat, string> {
    map i: nat | 0 <= i < n :: Marker(i) + ['\n']
  }

  /** The masked document, as lines. */
  function Masked(lines: seq<string>, spans: seq<Span>): seq<string>
    requires SpansOk(|lines|, spans)
  {
    Weave(Gaps(lines, spans), Markers(|spans|))
  }

  lemma MaskedIsReplaced(lines: seq<string>, spans: seq<Span>)
    requires SpansOk(|lines|, spans)
    ensures Replaced(lines, spans, MaskReplacements(|spans|)) == Masked(lines, spans)
  {
    forall i | 0 <= i < |spans| ensures Blocks(lines, spans, MaskReplacements(|spans|))[i] == Markers(|spans|)[i] {
      MarkerIsClean(i);
    }
    assert Blocks(lines, spans, MaskReplacements(|spans|)) == Markers(|spans|);
  }

  // ---------- When a mask determines the prose ----------

  /** No marker occurs in the prose on either side of its own fence. */
  predicate Unmistakable(p: seq<seq<string>>) {
    forall i | 0 <= i < |p| - 1 :: Marker(i) !in p[i] && Marker(i) !in p[i + 1]
  }

  /** The first marker cannot be found further back in the rest of the document. */
  lemma {:induction false} NoLaterMarker(p: seq<seq<string>>, p': seq<seq<string>>, n: nat, i: nat, x: seq<string>)
    requires |p| == |p'| == n + 1 && i < n && Unmistakable(p)
    ensures Weave(p, Markers(n), i + 1) != x + [Marker(i)] + Weave(p', Markers(n), i + 1)
    decreases n - i
  {
    var m := Markers(n);
    var w, w' := Weave(p, m, i + 1), Weave(p', m, i + 1);
    if w == x + [Marker(i)] + w' {
      var tail := if i + 1 == n then [] else m[i + 1] + Weave(p, m, i + 2);
      assert w == p[i + 1] + tail;
      NotInFront(p[i + 1], tail, x, Marker(i), w');
      if i + 1 < n {
        LaterStill(p[i + 1], Marker(i + 1), Weave(p, m, i + 2), x + [Marker(i)] + p'[i + 1], Weave(p', m, i + 2));
        NoLaterMarker(p, p', n, i + 1, (x + [Marker(i)] + p'[i + 1])[|p[i + 1]| + 1..]);
      }
    }
  }

  lemma NotInFront(gap: seq<string>, tail: seq<string>, x: seq<string>, m: string, rest: seq<string>)
    requires m !in gap && gap + tail == x + [m] + rest
    ensures |x| >= |gap|
  {
    assert (gap + tail)[|x|] == m;
  }

  /** Where one text has a marker behind the other's, what follows that one holds it. */
  lemma LaterStill(a: seq<string>, m: string, rest: seq<string>, b: seq<string>, rest': seq<string>)
    requires |a| < |b| && a + [m] + rest == b + [m] + rest'
    ensures rest == b[|a| + 1..] + [m] + rest'
  {
    var s := a + [m] + rest;
    assert rest == s[|a| + 1..];
    assert s[|a| + 1..] == b[|a| + 1..] + [m] + rest';
  }

  lemma {:induction false} UnmistakableDetermines(p: seq<seq<string>>, p': seq<seq<string>>, n: nat, i: nat)
    requires |p| == |p'| == n + 1 && i <= n && Unmistakable(p)
    requires Weave(p, Markers(n), i) == Weave(p', Markers(n), i)
    ensures p[i..] == p'[i..]
    decreases n - i
  {
    if i < n {
      var m := Markers(n);
      var w, w' := Weave(p, m, i + 1), Weave(p', m, i + 1);
      if |p[i]| < |p'[i]| {
        LaterStill(p[i], Marker(i), w, p'[i], w');
        NoLaterMarker(p, p', n, i, p'[i][|p[i]| + 1..]);
      }
      NotShorter(p[i], p'[i], Marker(i), w, w');
      SameSplit(p[i], p'[i], Marker(i), w, w');
      UnmistakableDetermines(p, p', n, i + 1);
      assert p[i..] == [p[i]] + p[i + 1..] && p'[i..] == [p'[i]] + p'[i + 1..];
    }
  }

  lemma NotShorter(a: seq<string>, b: seq<string>, m: string, w: seq<string>, w': seq<string>)
    requires m !in a && a + [m] + w == b + [m] + w'
    ensures |b| >= |a|
  {
    assert (a + [m] + w)[|b|] == m;
  }

  lemma SameSplit(a: seq<string>, b: seq<string>, m: string, w: seq<string>, w': seq<string>)
    requires |a| == |b| && a + [m] + w == b + [m] + w'
    ensures a == b && w == w'
  {
    var s := a + [m] + w;
    assert a == s[..|a|] && b == s[..|b|] && w == s[|a| + 1..] && w' == s[|b| + 1..];
  }

  /** Gaps that agree up to `i` weave alike if they do from there on. */
  lemma {:induction false} WeaveAgrees(p: seq<seq<string>>, p': seq<seq<string>>, n: nat, i: nat, k: nat)
    requires |p| == |p'| == n + 1 && k <= i <= n && forall j :: k <= j < i ==> p[j] == p'[j]
    requires Weave(p, Markers(n), i) == Weave(p', Markers(n), i)
    ensures Weave(p, Markers(n), k) == Weave(p', Markers(n), k)
    decreases i - k
  {
    if k < i { WeaveAgrees(p, p', n, i, k + 1); }
  }

  /** Gaps that agree from `i` on weave alike. */
  lemma {:induction false} WeaveSame(p: seq<seq<string>>, p': seq<seq<string>>, n: nat, i: nat)
    requires |p| == |p'| == n + 1 && i <= n && forall j :: i <= j <= n ==> p[j] == p'[j]
    ensures Weave(p, Markers(n), i) == Weave(p', Markers(n), i)
    decreases n - i
  {
    if i < n { WeaveSame(p, p', n, i + 1); }
  }

  /** A marker in the prose beside its fence gives a second reading of the same mask. */
  lemma SecondReading(p: seq<seq<string>>, n: nat) returns (p': seq<seq<string>>)
    requires |p| == n + 1 && !Unmistakable(p)
    ensures |p'| == n + 1 && p' != p && Weave(p', Markers(n)) == Weave(p, Markers(n))
    ensures (forall i :: 0 <= i <= n ==> NoNewlines(p[i])) ==> forall i :: 0 <= i <= n ==> NoNewlines(p'[i])
  {
    var i :| 0 <= i < n && !(Marker(i) !in p[i] && Marker(i) !in p[i + 1]);
    var a, b := SecondSplit(p[i], Marker(i), p[i + 1]);
    p' := p[i := a][i + 1 := b];
    SwapSides(p, p', n, i);
    assert p'[i] == a && p'[i + 1] == b;
    if forall j :: 0 <= j <= n ==> NoNewlines(p[j]) {
      MarkerIsClean(i);
      assert NoNewlines(p[i]) && NoNewlines(p[i + 1]);
      forall j | 0 <= j <= n ensures NoNewlines(p'[j]) { assert NoNewlines(p[j]); }
    }
  }

  /** A second occurrence of a line splits the text around it in a second way. */
  lemma SecondSplit(a: seq<string>, m: string, b: seq<string>) returns (a': seq<string>, b': seq<string>)
    requires m in a || m in b
    ensures a' != a && a' + [m] + b' == a + [m] + b
    ensures NoNewlines(a) && NoNewlines(b) && NoNewlines([m]) ==> NoNewlines(a') && NoNewlines(b')
  {
    if m in a {
      var k :| 0 <= k < |a| && a[k] == m;
      a', b' := a[..k], a[k + 1..] + [m] + b;
      assert a == a[..k] + [m] + a[k + 1..];
    } else {
      var k :| 0 <= k < |b| && b[k] == m;
      a', b' := a + [m] + b[..k], b[k + 1..];
      assert b == b[..k] + [m] + b[k + 1..];
    }
  }

  lemma SwapSides(p: seq<seq<string>>, p': seq<seq<string>>, n: nat, i: nat)
    requires |p| == |p'| == n + 1 && i < n && (forall j :: 0 <= j <= n && j != i && j != i + 1 ==> p[j] == p'[j])
    requires p[i] + [Marker(i)] + p[i + 1] == p'[i] + [Marker(i)] + p'[i + 1]
    ensures Weave(p, Markers(n)) == Weave(p', Markers(n))
  {
    if i + 1 < n { WeaveSame(p, p', n, i + 2); }
    TwoGaps(p, n, i, Behind(p, n, i + 1));
    TwoGaps(p', n, i, Behind(p', n, i + 1));
    WeaveAgrees(p, p', n, i, 0);
  }

  /** What a mask holds behind gap `i`. */
  function Behind(p: seq<seq<string>>, n: nat, i: nat): seq<string>
    requires |p| == n + 1 && i <= n
  {
    if i == n then [] else [Marker(i)] + Weave(p, Markers(n), i + 1)
  }

  lemma TwoGaps(p: seq<seq<string>>, n: nat, i: nat, rest: seq<string>)
    requires |p| == n + 1 && i < n && rest == Behind(p, n, i + 1)
    ensures Weave(p, Markers(n), i) == p[i] + [Marker(i)] + p[i + 1] + rest
  {
    assert Weave(p, Markers(n), i + 1) == p[i + 1] + rest;
    assert Weave(p, Markers(n), i) == p[i] + [Marker(i)] + Weave(p, Markers(n), i + 1);
  }

  /** The mask of a document determines its prose. */
  ghost predicate Determines(p: seq<seq<string>>, n: nat)
    requires |p| == n + 1
  {
    forall p' :: |p'| == n + 1 && Weave(p', Markers(n)) == Weave(p, Markers(n)) ==> p' == p
  }

  /** It does so exactly when no marker occurs beside its own fence. */
  lemma MaskDeterminesExactly(p: seq<seq<string>>, n: nat)
    requires |p| == n + 1
    ensures Determines(p, n) <==> Unmistakable(p)
  {
    if Unmistakable(p) {
      forall p' | |p'| == n + 1 && Weave(p', Markers(n)) == Weave(p, Markers(n)) ensures p' == p {
        UnmistakableDetermines(p, p', n, 0);
        assert p == p[0..] && p' == p'[0..];
      }
    } else {
      var p' := SecondReading(p, n);
    }
  }

  // ---------- computeMechanicalUpdate ----------

  /** A parsed document: its text and its code spans. */
  datatype Document = Document(text: string, spans: seq<Span>)
  {
    function Lines(): seq<string> {
      LinesOf(text)
    }

    predicate Valid() {
      SpansOk(|Lines()|, spans)
    }

    function SpanText(i: nat): string
      requires Valid() && i < |spans|
    {
      Text(Piece(Lines(), spans, i))
    }
  }

  function ChangedTexts(confirmed: Document, current: Document): (m: map<nat, string>)
    requires confirmed.Valid() && current.Valid() && |confirmed.spans| == |current.spans|
    ensures forall i: nat :: i in m <==> i < |current.spans| && Changes(confirmed, current, i)
    ensures forall i: nat :: i in m ==> m[i] == current.SpanText(i)
  {
    map i: nat | i < |current.spans| && Changes(confirmed, current, i) :: current.SpanText(i)
  }

  predicate Changes(confirmed: Document, current: Document, i: nat)
    requires confirmed.Valid() && current.Valid() && i < |confirmed.spans| == |current.spans|
  {
    current.SpanText(i) != confirmed.SpanText(i)
  }

  /** The decision, on the texts the script compares. */
  predicate Refuses(confirmed: Document, current: Document, counterpart: Document)
    requires confirmed.Valid() && current.Valid() && counterpart.Valid()
  {
    || |confirmed.spans| == 0 || |confirmed.spans| != |current.spans| || |confirmed.spans| != |counterpart.spans|
    || Text(Masked(confirmed.Lines(), confirmed.spans)) != Text(Masked(current.Lines(), current.spans))
    || (exists i: nat | i < |confirmed.spans| :: confirmed.SpanText(i) != counterpart.SpanText(i))
    || ChangedTexts(confirmed, current) == map[]
  }

  /** `computeMechanicalUpdate`. */
  method ComputeMechanicalUpdate(confirmed: Document, current: Document, counterpart: Document)
    returns (r: Option<string>)
    requires confirmed.Valid() && current.Valid() && counterpart.Valid()
    ensures r.None? <==> Refuses(confirmed, current, counterpart)
    ensures r.Some? ==>
              r.value == Text(Replaced(counterpart.Lines(), counterpart.spans, ChangedTexts(confirmed, current)))
  {
    var n := |confirmed.spans|;
    if n == 0 || n != |current.spans| || n != |counterpart.spans| {
      return None;
    }
    var before := ReplaceSpanTexts(confirmed.text, confirmed.spans, MaskReplacements(n));
    var after := ReplaceSpanTexts(current.text, current.spans, MaskReplacements(n));
    MaskedIsReplaced(confirmed.Lines(), confirmed.spans);
    MaskedIsReplaced(current.Lines(), current.spans);
    if before.value != after.value {
      return None;
    }
    if exists i: nat | i < n :: confirmed.SpanText(i) != counterpart.SpanText(i) {
      return None;
    }
    var changed := ChangedTexts(confirmed, current);
    if changed == map[] {
      return None;
    }
    r := ReplaceSpanTexts(counterpart.text, counterpart.spans, changed);
  }

  // ---------- What the update means ----------

  lemma PieceLines(a: Document, i: nat)
    requires a.Valid() && i < |a.spans|
    ensures var f := Piece(a.Lines(), a.spans, i); f != [] && NoNewlines(f)
  {
    LinesHaveNoNewline(a.text);
    var f := Piece(a.Lines(), a.spans, i);
    forall k | 0 <= k < |f| ensures '\n' !in f[k] { assert f[k] == a.Lines()[a.spans[i].start + k]; }
  }

  lemma GapLines(a: Document)
    requires a.Valid()
    ensures forall i :: 0 <= i <= |a.spans| ==> NoNewlines(Gaps(a.Lines(), a.spans)[i])
  {
    LinesHaveNoNewline(a.text);
    var p := Gaps(a.Lines(), a.spans);
    forall i, k | 0 <= i <= |a.spans| && 0 <= k < |p[i]| ensures '\n' !in p[i][k] {
      assert p[i][k] == a.Lines()[Cut(a.spans, i) + k];
    }
  }

  lemma SpanTextsAgree(a: Document, b: Document, i: nat, j: nat)
    requires a.Valid() && b.Valid() && i < |a.spans| && j < |b.spans|
    ensures a.SpanText(i) == b.SpanText(j) <==> Piece(a.Lines(), a.spans, i) == Piece(b.Lines(), b.spans, j)
  {
    PieceLines(a, i);
    PieceLines(b, j);
    TextDeterminesLines(Piece(a.Lines(), a.spans, i), Piece(b.Lines(), b.spans, j));
  }

  lemma {:induction false} WovenLines(p: seq<seq<string>>, n: nat, i: nat)
    requires |p| == n + 1 && i <= n && forall k :: 0 <= k <= n ==> NoNewlines(p[k])
    ensures NoNewlines(Weave(p, Markers(n), i)) && (i < n ==> Weave(p, Markers(n), i) != [])
    decreases n - i
  {
    assert NoNewlines(p[i]);
    if i < n {
      MarkerIsClean(i);
      WovenLines(p, n, i + 1);
      assert '\n' !in Markers(n)[i][0];
    }
  }

  /** Masked texts agree exactly when the masks do. */
  lemma MaskTexts(a: Document, b: Document)
    requires a.Valid() && b.Valid() && |a.spans| == |b.spans| > 0
    ensures Text(Masked(a.Lines(), a.spans)) == Text(Masked(b.Lines(), b.spans))
            <==> Masked(a.Lines(), a.spans) == Masked(b.Lines(), b.spans)
  {
    GapLines(a);
    GapLines(b);
    WovenLines(Gaps(a.Lines(), a.spans), |a.spans|, 0);
    WovenLines(Gaps(b.Lines(), b.spans), |b.spans|, 0);
    TextDeterminesLines(Masked(a.Lines(), a.spans), Masked(b.Lines(), b.spans));
  }

  /** The change is confined to code, and the counterpart still has the confirmed code. */
  ghost predicate CodeOnlyChange(confirmed: Document, current: Document, counterpart: Document)
    requires confirmed.Valid() && current.Valid() && counterpart.Valid()
  {
    && |confirmed.spans| > 0
    && Gaps(confirmed.Lines(), confirmed.spans) == Gaps(current.Lines(), current.spans)
    && Pieces(confirmed.Lines(), confirmed.spans) == Pieces(counterpart.Lines(), counterpart.spans)
    && Pieces(confirmed.Lines(), confirmed.spans) != Pieces(current.Lines(), current.spans)
  }

  /** The update is refused exactly unless the masks agree, the counterpart has the confirmed code and code changed. */
  lemma RefusedExactly(confirmed: Document, current: Document, counterpart: Document)
    requires confirmed.Valid() && current.Valid() && counterpart.Valid()
    ensures !Refuses(confirmed, current, counterpart) <==>
            && |confirmed.spans| == |current.spans| > 0
            && Masked(confirmed.Lines(), confirmed.spans) == Masked(current.Lines(), current.spans)
            && Pieces(confirmed.Lines(), confirmed.spans) == Pieces(counterpart.Lines(), counterpart.spans)
            && Pieces(confirmed.Lines(), confirmed.spans) != Pieces(current.Lines(), current.spans)
  {
    var n := |confirmed.spans|;
    if n > 0 && n == |current.spans| {
      MaskTexts(confirmed, current);
      FencesCompare(confirmed, current);
      if n == |counterpart.spans| { FencesCompare(confirmed, counterpart); }
    }
  }

  lemma FencesCompare(a: Document, b: Document)
    requires a.Valid() && b.Valid() && |a.spans| == |b.spans|
    ensures Pieces(a.Lines(), a.spans) == Pieces(b.Lines(), b.spans)
            <==> forall i: nat :: i < |a.spans| ==> a.SpanText(i) == b.SpanText(i)
    ensures Pieces(a.Lines(), a.spans) == Pieces(b.Lines(), b.spans) <==> ChangedTexts(a, b) == map[]
  {
    forall i: nat | i < |a.spans|
      ensures a.SpanText(i) == b.SpanText(i) <==> Piece(a.Lines(), a.spans, i) == Piece(b.Lines(), b.spans, i)
    {
      SpanTextsAgree(a, b, i, i);
    }
    NothingChanges(a, b);
  }

  lemma NothingChanges(a: Document, b: Document)
    requires a.Valid() && b.Valid() && |a.spans| == |b.spans|
    ensures ChangedTexts(a, b) == map[] <==> forall i: nat :: i < |a.spans| ==> a.SpanText(i) == b.SpanText(i)
  {
    var m := ChangedTexts(a, b);
    if m == map[] {
      forall i: nat | i < |a.spans| ensures a.SpanText(i) == b.SpanText(i) {
        assert i !in m;
        assert !Changes(a, b, i);
      }
    } else {
      var i: nat :| i in m;
      assert Changes(a, b, i);
    }
  }

  /** For an unmistakable source an update is given exactly for a code-only change. */
  lemma UpdatesExactlyCodeOnlyChanges(confirmed: Document, current: Document, counterpart: Document)
    requires confirmed.Valid() && current.Valid() && counterpart.Valid()
    requires Unmistakable(Gaps(confirmed.Lines(), confirmed.spans))
    ensures !Refuses(confirmed, current, counterpart) <==> CodeOnlyChange(confirmed, current, counterpart)
  {
    RefusedExactly(confirmed, current, counterpart);
    MaskDeterminesExactly(Gaps(confirmed.Lines(), confirmed.spans), |confirmed.spans|);
  }

  /** Whatever it becomes and whatever the counterpart, an update of this source is for a code-only change. */
  ghost predicate NeverOverProse(confirmed: Document)
    requires confirmed.Valid()
  {
    forall current: Document, counterpart: Document | current.Valid() && counterpart.Valid() ::
      !Refuses(confirmed, current, counterpart) ==> CodeOnlyChange(confirmed, current, counterpart)
  }

  /** A source is never updated over a prose edit exactly when it is unmistakable. */
  lemma NeverOverProseExactly(confirmed: Document)
    requires confirmed.Valid()
    ensures NeverOverProse(confirmed) <==> Unmistakable(Gaps(confirmed.Lines(), confirmed.spans))
  {
    if Unmistakable(Gaps(confirmed.Lines(), confirmed.spans)) {
      forall current: Document, counterpart: Document | current.Valid() && counterpart.Valid()
        ensures !Refuses(confirmed, current, counterpart) ==> CodeOnlyChange(confirmed, current, counterpart)
      {
        UpdatesExactlyCodeOnlyChanges(confirmed, current, counterpart);
      }
    } else {
      var current := HiddenEdit(confirmed);
      RefusedExactly(confirmed, current, confirmed);
    }
  }

  /** A document of given prose and code. */
  lemma Realize(gaps: seq<seq<string>>, fences: seq<seq<string>>) returns (d: Document)
    requires |gaps| == |fences| + 1 && |fences| > 0
    requires forall i :: 0 <= i < |gaps| ==> NoNewlines(gaps[i])
    requires forall i :: 0 <= i < |fences| ==> fences[i] != [] && NoNewlines(fences[i])
    ensures d.Valid() && |d.spans| == |fences|
    ensures Gaps(d.Lines(), d.spans) == gaps && Pieces(d.Lines(), d.spans) == fences
  {
    var lines := Weave(gaps, fences);
    WeaveLines(gaps, fences, 0);
    DosTextReads(lines);
    LaidOut(gaps, fences);
    d := Document(DosText(lines), Layout(gaps, fences));
    forall i | 0 <= i < |d.spans| ensures d.spans[i].start < d.spans[i].end {
      assert Piece(lines, d.spans, i) == Pieces(lines, d.spans)[i] == fences[i];
    }
  }

  lemma {:induction false} WeaveLines(gaps: seq<seq<string>>, fences: seq<seq<string>>, i: nat)
    requires |gaps| == |fences| + 1 && i <= |fences|
    requires forall k :: 0 <= k < |gaps| ==> NoNewlines(gaps[k])
    requires forall k :: 0 <= k < |fences| ==> fences[k] != [] && NoNewlines(fences[k])
    ensures NoNewlines(Weave(gaps, fences, i)) && (i < |fences| ==> Weave(gaps, fences, i) != [])
    decreases |fences| - i
  {
    assert NoNewlines(gaps[i]);
    if i < |fences| {
      assert NoNewlines(fences[i]);
      WeaveLines(gaps, fences, i + 1);
    }
  }

  /** A fence with a line put in behind the first. */
  function Edited(f: seq<string>): (r: seq<string>)
    requires f != []
    ensures |r| == |f| + 1 && (NoNewlines(f) ==> NoNewlines(r))
  {
    assert '\n' !in "edited";
    [f[0], "edited"] + f[1..]
  }

  /** The second reading of a mask, with a line put into a fence, is a prose edit that the masks hide. */
  lemma HiddenEdit(confirmed: Document) returns (current: Document)
    requires confirmed.Valid() && !Unmistakable(Gaps(confirmed.Lines(), confirmed.spans))
    ensures current.Valid() && |current.spans| == |confirmed.spans| > 0
    ensures Masked(current.Lines(), current.spans) == Masked(confirmed.Lines(), confirmed.spans)
    ensures Gaps(current.Lines(), current.spans) != Gaps(confirmed.Lines(), confirmed.spans)
    ensures Pieces(current.Lines(), current.spans) != Pieces(confirmed.Lines(), confirmed.spans)
  {
    var p, fences, n := Gaps(confirmed.Lines(), confirmed.spans), Pieces(confirmed.Lines(), confirmed.spans),
        |confirmed.spans|;
    GapLines(confirmed);
    var p' := SecondReading(p, n);
    forall i | 0 <= i < n ensures fences[i] != [] && NoNewlines(fences[i]) { PieceLines(confirmed, i); }
    var f := fences[0];
    var edited := fences[0 := Edited(f)];
    current := Realize(p', edited);
    assert |edited[0]| != |f|;
  }

  const FENCE := "```"

  /** The prose line that is a marker moves across the fence, and the update is given all the same. */
  lemma MarkerLineHidesProseEdit(confirmed: Document, current: Document)
    requires LinesOf(confirmed.text) == ["DSH_TRANSLATION_CODE_0", "```", "a", "```"] && confirmed.spans == [Span(1, 4)]
    requires LinesOf(current.text) == ["```", "b", "```", "DSH_TRANSLATION_CODE_0"] && current.spans == [Span(0, 3)]
    ensures confirmed.Valid() && current.Valid() && !Refuses(confirmed, current, confirmed)
    ensures Gaps(confirmed.Lines(), confirmed.spans) == [[Marker(0)], []]
    ensures Gaps(current.Lines(), current.spans) == [[], [Marker(0)]]
  {
    var ls, ls' := confirmed.Lines(), current.Lines();
    assert Marker(0) == "DSH_TRANSLATION_CODE_0";
    GapsOfOne(ls, 1, 4, [Marker(0)], []);
    GapsOfOne(ls', 0, 3, [], [Marker(0)]);
    assert Piece(ls, confirmed.spans, 0)[1] == ls[2] == "a" && Piece(ls', current.spans, 0)[1] == ls'[1] == "b";
    assert "a"[0] != "b"[0];
    assert Pieces(ls, confirmed.spans)[0] != Pieces(ls', current.spans)[0];
    RefusedExactly(confirmed, current, confirmed);
  }

  /** The gaps and the mask of a document with one code span. */
  lemma GapsOfOne(lines: seq<string>, start: nat, end: nat, before: seq<string>, after: seq<string>)
    requires start < end <= |lines| && before == lines[..start] && after == lines[end..]
    ensures Gaps(lines, [Span(start, end)]) == [before, after]
    ensures Masked(lines, [Span(start, end)]) == before + [Marker(0)] + after
  {
    var g := Gaps(lines, [Span(start, end)]);
    assert g[0] == lines[0..start] == before && g[1] == lines[end..|lines|] == after;
    assert g == [before, after];
    assert Weave([before, after], Markers(1), 1) == after;
    assert Weave([before, after], Markers(1)) == before + Markers(1)[0] + after;
  }

  /** There are such documents. */
  lemma SuchDocumentsExist() returns (confirmed: Document, current: Document)
    ensures LinesOf(confirmed.text) == [Marker(0), FENCE, "a", FENCE] && confirmed.spans == [Span(1, 4)]
    ensures LinesOf(current.text) == [FENCE, "b", FENCE, Marker(0)] && current.spans == [Span(0, 3)]
  {
    MarkerIsClean(0);
    var a, b := [Marker(0), FENCE, "a", FENCE], [FENCE, "b", FENCE, Marker(0)];
    assert '\n' !in FENCE && '\n' !in "a" && '\n' !in "b";
    DosTextReads(a);
    DosTextReads(b);
    confirmed, current := Document(DosText(a), [Span(1, 4)]), Document(DosText(b), [Span(0, 3)]);
  }

  /** What the update is meant to be: the counterpart's prose around the current source's fences. */
  function Updated(current: Document, counterpart: Document): seq<string>
    requires current.Valid() && counterpart.Valid() && |current.spans| == |counterpart.spans|
  {
    Weave(Gaps(counterpart.Lines(), counterpart.spans), Pieces(current.Lines(), current.spans))
  }

  /**
   * The update reads back as what it is meant to be, even where fences change length,
   * exactly when no line of that ends in a carriage return.
   */
  lemma UpdateIsCorrect(confirmed: Document, current: Document, counterpart: Document)
    requires confirmed.Valid() && current.Valid() && counterpart.Valid()
    requires !Refuses(confirmed, current, counterpart)
    ensures LinesOf(Text(Replaced(counterpart.Lines(), counterpart.spans, ChangedTexts(confirmed, current))))
            == Updated(current, counterpart)
            <==> CleanLines(Updated(current, counterpart))
  {
    RefusedExactly(confirmed, current, counterpart);
    var gaps, fences := Gaps(counterpart.Lines(), counterpart.spans), Pieces(current.Lines(), current.spans);
    var blocks := Blocks(counterpart.Lines(), counterpart.spans, ChangedTexts(confirmed, current));
    BlocksAreNearly(confirmed, current, counterpart);
    NearlyWoven(gaps, blocks, fences, 0);
    WeaveIsFull(gaps, fences);
    GapLines(counterpart);
    forall i | 0 <= i < |fences| ensures fences[i] != [] && NoNewlines(fences[i]) { PieceLines(current, i); }
    WeaveLines(gaps, fences, 0);
    NearlyReadsBack(Weave(gaps, blocks), Weave(gaps, fences));
  }

  /** The line "p" with a carriage return of its own comes back without it. */
  lemma CarriageReturnIsLost(confirmed: Document, current: Document)
    requires LinesOf(confirmed.text) == ["p\r", FENCE, "a", FENCE] && confirmed.spans == [Span(1, 4)]
    requires LinesOf(current.text) == ["p\r", FENCE, "b", FENCE] && current.spans == [Span(1, 4)]
    ensures confirmed.Valid() && current.Valid() && !Refuses(confirmed, current, confirmed)
    ensures LinesOf(Text(Replaced(confirmed.Lines(), confirmed.spans, ChangedTexts(confirmed, current))))
            != Updated(current, confirmed)
  {
    var ls, ls' := confirmed.Lines(), current.Lines();
    GapsOfOne(ls, 1, 4, ["p\r"], []);
    GapsOfOne(ls', 1, 4, ["p\r"], []);
    assert Piece(ls, confirmed.spans, 0)[1] == ls[2] == "a" && Piece(ls', current.spans, 0)[1] == ls'[2] == "b";
    assert "a"[0] != "b"[0];
    assert Pieces(ls, confirmed.spans)[0] != Pieces(ls', current.spans)[0];
    RefusedExactly(confirmed, current, confirmed);
    UpdateIsCorrect(confirmed, current, confirmed);
    assert Updated(current, confirmed)[0] == "p\r" && !CleanLine("p\r");
  }

  lemma SuchReturnsExist() returns (confirmed: Document, current: Document)
    ensures LinesOf(confirmed.text) == ["p\r", FENCE, "a", FENCE] && confirmed.spans == [Span(1, 4)]
    ensures LinesOf(current.text) == ["p\r", FENCE, "b", FENCE] && current.spans == [Span(1, 4)]
  {
    var a, b := ["p\r", FENCE, "a", FENCE], ["p\r", FENCE, "b", FENCE];
    assert '\n' !in FENCE && '\n' !in "a" && '\n' !in "b" && '\n' !in "p\r";
    DosTextReads(a);
    DosTextReads(b);
    confirmed, current := Document(DosText(a), [Span(1, 4)]), Document(DosText(b), [Span(1, 4)]);
  }

  /** The same lines, though some may have lost the carriage return they end in. */
  ghost predicate Nearly(a: seq<string>, b: seq<string>) {
    |a| == |b| && forall i :: 0 <= i < |a| ==> a[i] == b[i] || a[i] == Strip(b[i])
  }

  /** A changed fence is read from its text, any other one is the counterpart's. */
  lemma BlockIsNearly(confirmed: Document, current: Document, counterpart: Document, i: nat)
    requires confirmed.Valid() && current.Valid() && counterpart.Valid() && i < |current.spans|
    requires |confirmed.spans| == |current.spans| == |counterpart.spans|
    requires Piece(confirmed.Lines(), confirmed.spans, i) == Piece(counterpart.Lines(), counterpart.spans, i)
    ensures Nearly(Blocks(counterpart.Lines(), counterpart.spans, ChangedTexts(confirmed, current))[i],
                   Piece(current.Lines(), current.spans, i))
  {
    PieceLines(current, i);
    ReadBack(Piece(current.Lines(), current.spans, i));
    SpanTextsAgree(current, confirmed, i, i);
  }

  lemma BlocksAreNearly(confirmed: Document, current: Document, counterpart: Document)
    requires confirmed.Valid() && current.Valid() && counterpart.Valid()
    requires |confirmed.spans| == |current.spans| == |counterpart.spans|
    requires Pieces(confirmed.Lines(), confirmed.spans) == Pieces(counterpart.Lines(), counterpart.spans)
    ensures forall i :: 0 <= i < |current.spans| ==>
              Nearly(Blocks(counterpart.Lines(), counterpart.spans, ChangedTexts(confirmed, current))[i],
                     Pieces(current.Lines(), current.spans)[i])
  {
    forall i | 0 <= i < |current.spans|
      ensures Nearly(Blocks(counterpart.Lines(), counterpart.spans, ChangedTexts(confirmed, current))[i],
                     Pieces(current.Lines(), current.spans)[i])
    {
      assert Pieces(confirmed.Lines(), confirmed.spans)[i] == Pieces(counterpart.Lines(), counterpart.spans)[i];
      BlockIsNearly(confirmed, current, counterpart, i);
    }
  }

  lemma {:induction false} NearlyWoven(gaps: seq<seq<string>>, a: seq<seq<string>>, b: seq<seq<string>>, i: nat)
    requires |gaps| == |a| + 1 == |b| + 1 && i <= |a| && forall k :: 0 <= k < |a| ==> Nearly(a[k], b[k])
    ensures Nearly(Weave(gaps, a, i), Weave(gaps, b, i))
    decreases |a| - i
  {
    if i < |a| {
      NearlyWoven(gaps, a, b, i + 1);
      NearlyConcat(gaps[i], gaps[i], a[i], b[i]);
      NearlyConcat(gaps[i] + a[i], gaps[i] + b[i], Weave(gaps, a, i + 1), Weave(gaps, b, i + 1));
    }
  }

  lemma NearlyConcat(a: seq<string>, b: seq<string>, c: seq<string>, d: seq<string>)
    requires Nearly(a, b) && Nearly(c, d)
    ensures Nearly(a + c, b + d)
  {
  }

  lemma NearlyReadsBack(a: seq<string>, b: seq<string>)
    requires Nearly(a, b) && b != [] && NoNewlines(b)
    ensures LinesOf(Text(a)) == b <==> CleanLines(b)
  {
    forall i | 0 <= i < |a| ensures '\n' !in a[i] { assert '\n' !in b[i]; }
    ReadBack(a);
    forall i | 0 <= i < |b| ensures Strip(a[i]) == b[i] <==> CleanLine(b[i]) { assert '\n' !in b[i]; }
    if CleanLines(b) { assert StripAll(a) == b; }
    if StripAll(a) == b {
      forall i | 0 <= i < |b| ensures CleanLine(b[i]) { assert StripAll(a)[i] == Strip(a[i]); }
    }
  }

  lemma WeaveIsFull(gaps: seq<seq<string>>, fences: seq<seq<string>>)
    requires |gaps| == |fences| + 1 && |fences| > 0 && fences[0] != []
    ensures Weave(gaps, fences) != []
  {
  }
}
