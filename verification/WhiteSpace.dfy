/** White space and words, as JavaScript's `\s` and `trim` see them. */
module WhiteSpace {

  /** The characters `\s` matches. */
  predicate IsSpace(c: char) {
    var n := c as int;
    || 0x09 <= n <= 0x0D || n == 0x20 || n == 0xA0 || n == 0x1680 || 0x2000 <= n <= 0x200A
    || n == 0x2028 || n == 0x2029 || n == 0x202F || n == 0x205F || n == 0x3000 || n == 0xFEFF
  }

  /** By code point: the ASCII ones, the space separators of Unicode, its two line ends and the byte order mark. */
  lemma SpacesListed(c: char)
    ensures IsSpace(c) <==>
              c as int in [9, 10, 11, 12, 13, 32, 160, 5760, 8192, 8193, 8194, 8195, 8196, 8197, 8198, 8199, 8200, 8201,
                           8202, 8232, 8233, 8239, 8287, 12288, 65279]
  {
  }

  predicate Blank(s: string) {
    forall i | 0 <= i < |s| :: IsSpace(s[i])
  }

  function TrimStart(s: string): string {
    if s != "" && IsSpace(s[0]) then TrimStart(s[1..]) else s
  }

  function TrimEnd(s: string): string {
    if s != "" && IsSpace(s[|s| - 1]) then TrimEnd(s[..|s| - 1]) else s
  }

  function Trim(s: string): string {
    TrimEnd(TrimStart(s))
  }

  /** Trimming leaves nothing exactly of a blank string. */
  lemma TrimBlank(s: string)
    ensures Trim(s) == "" <==> Blank(s)
  {
    TrimStartBlank(s);
    TrimEndBlank(TrimStart(s));
  }

  lemma {:induction false} TrimStartBlank(s: string)
    ensures Blank(TrimStart(s)) <==> Blank(s)
  {
    if s != "" && IsSpace(s[0]) {
      TrimStartBlank(s[1..]);
      if Blank(s[1..]) {
        forall i | 0 <= i < |s| ensures IsSpace(s[i]) {
          if i > 0 { assert IsSpace(s[1..][i - 1]); }
        }
      }
    }
  }

  lemma {:induction false} TrimEndBlank(s: string)
    ensures TrimEnd(s) == "" <==> Blank(s)
  {
    if s != "" && IsSpace(s[|s| - 1]) {
      var init := s[..|s| - 1];
      TrimEndBlank(init);
      if Blank(init) {
        forall i | 0 <= i < |s| ensures IsSpace(s[i]) {
          if i < |init| { assert IsSpace(init[i]); }
        }
      }
    }
  }

  lemma {:induction false} TrimStartParts(s: string) returns (before: string)
    ensures Blank(before) && s == before + TrimStart(s) && (TrimStart(s) != "" ==> !IsSpace(TrimStart(s)[0]))
  {
    if s != "" && IsSpace(s[0]) {
      var rest := TrimStartParts(s[1..]);
      before := [s[0]] + rest;
      forall i | 0 <= i < |before| ensures IsSpace(before[i]) {
        if i > 0 { assert IsSpace(rest[i - 1]); }
      }
      assert before + TrimStart(s) == [s[0]] + (rest + TrimStart(s[1..])) == s;
    } else {
      before := "";
    }
  }

  lemma {:induction false} TrimStartOf(before: string, t: string)
    requires Blank(before) && (t != "" ==> !IsSpace(t[0]))
    ensures TrimStart(before + t) == t
  {
    if before == "" {
      assert before + t == t;
    } else {
      assert IsSpace(before[0]) && (before + t)[1..] == before[1..] + t;
      assert Blank(before[1..]) by {
        forall i | 0 <= i < |before[1..]| ensures IsSpace(before[1..][i]) { assert IsSpace(before[i + 1]); }
      }
      TrimStartOf(before[1..], t);
    }
  }

  lemma {:induction false} TrimEndParts(s: string) returns (after: string)
    ensures Blank(after) && s == TrimEnd(s) + after
  {
    if s != "" && IsSpace(s[|s| - 1]) {
      var rest := TrimEndParts(s[..|s| - 1]);
      after := rest + [s[|s| - 1]];
      assert s == s[..|s| - 1] + [s[|s| - 1]];
    } else {
      after := "";
    }
  }

  lemma {:induction false} TrimEndOf(t: string, after: string)
    requires Blank(after) && t != "" && !IsSpace(t[|t| - 1])
    ensures TrimEnd(t + after) == t
  {
    if after == "" {
      assert t + after == t;
    } else {
      var n := |after| - 1;
      assert IsSpace(after[n]) && (t + after)[..|t + after| - 1] == t + after[..n];
      TrimEndOf(t, after[..n]);
    }
  }

  /** A text trims to a word exactly if it is that word with white space around it. */
  lemma TrimsTo(s: string, word: string)
    requires word != "" && !IsSpace(word[0]) && !IsSpace(word[|word| - 1])
    ensures Trim(s) == word <==> exists before, after :: Blank(before) && Blank(after) && s == before + word + after
  {
    if Trim(s) == word {
      var before := TrimStartParts(s);
      var after := TrimEndParts(TrimStart(s));
      assert s == before + word + after;
    }
    if before, after :| Blank(before) && Blank(after) && s == before + word + after {
      assert s == before + (word + after);
      TrimStartOf(before, word + after);
      TrimEndOf(word, after);
    }
  }

  // ---------- Words ----------

  /** The maximal runs of other characters, in order. */
  function Words(s: string): (w: seq<string>)
    ensures s != "" && !IsSpace(s[0]) ==> w != []
  {
    if s == "" then []
    else
      var rest := Words(s[1..]);
      if IsSpace(s[0]) then rest
      else if |s| == 1 || IsSpace(s[1]) then [[s[0]]] + rest
      else [[s[0]] + rest[0]] + rest[1..]
  }

  /** White space separates. */
  lemma {:induction false} WordsSeparate(a: string, c: char, b: string)
    requires IsSpace(c)
    ensures Words(a + [c] + b) == Words(a) + Words(b)
  {
    var s := a + [c] + b;
    if a == "" {
      assert s[1..] == b;
    } else {
      assert s[1..] == a[1..] + [c] + b;
      WordsSeparate(a[1..], c, b);
    }
  }

  lemma {:induction false} WordsOfBlank(s: string)
    requires Blank(s)
    ensures Words(s) == []
  {
    if s != "" {
      forall i | 0 <= i < |s[1..]| ensures IsSpace(s[1..][i]) { assert IsSpace(s[i + 1]); }
      WordsOfBlank(s[1..]);
    }
  }

  lemma {:induction false} WordsTrimStart(s: string)
    ensures Words(TrimStart(s)) == Words(s)
  {
    if s != "" && IsSpace(s[0]) { WordsTrimStart(s[1..]); }
  }

  lemma {:induction false} WordsTrimEnd(s: string)
    ensures Words(TrimEnd(s)) == Words(s)
  {
    if s != "" && IsSpace(s[|s| - 1]) {
      var init := s[..|s| - 1];
      WordsTrimEnd(init);
      WordsSeparate(init, s[|s| - 1], "");
      assert s == init + [s[|s| - 1]] + "";
    }
  }

  lemma WordsTrim(s: string)
    ensures Words(Trim(s)) == Words(s)
  {
    WordsTrimStart(s);
    WordsTrimEnd(TrimStart(s));
  }

  /** `replace(/\s+/g, ' ')`. */
  function Collapse(s: string): (r: string)
    ensures r == "" <==> s == ""
    ensures s != "" ==> (IsSpace(r[0]) <==> IsSpace(s[0]))
    decreases |s|
  {
    if s == "" then ""
    else if IsSpace(s[0]) then [' '] + Collapse(SkipSpaces(s[1..]))
    else [s[0]] + Collapse(s[1..])
  }

  function SkipSpaces(s: string): (r: string)
    ensures |r| <= |s|
  {
    if s != "" && IsSpace(s[0]) then SkipSpaces(s[1..]) else s
  }

  lemma {:induction false} WordsSkipSpaces(s: string)
    ensures Words(SkipSpaces(s)) == Words(s)
  {
    if s != "" && IsSpace(s[0]) { WordsSkipSpaces(s[1..]); }
  }

  lemma {:induction false} WordsCollapse(s: string)
    ensures Words(Collapse(s)) == Words(s)
    decreases |s|
  {
    if s != "" {
      var r := Collapse(s);
      if IsSpace(s[0]) {
        WordsCollapse(SkipSpaces(s[1..]));
        WordsSkipSpaces(s[1..]);
        assert r[1..] == Collapse(SkipSpaces(s[1..]));
      } else {
        WordsCollapse(s[1..]);
        assert r[1..] == Collapse(s[1..]);
      }
    }
  }
}
