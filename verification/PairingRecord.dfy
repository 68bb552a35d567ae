/** Bilingual pairing records: `scripts/translation-pairing-record.ts`. */
module PairingRecord {
  import opened Wrappers
  import opened TextLines

  datatype Paths = Paths(source: string, zh: string, meta: string)

  datatype Record = Record(sourceHash: string, zhHash: string)

  /** The fixed comment lines of a rendered record; `command` is continued by the source path. */
  datatype Template = Template(header: seq<string>, command: string)

  predicate IsComment(line: string) {
    line != "" && line[0] == '#' && '\n' !in line
  }

  predicate IsTemplate(t: Template) {
    IsComment(t.command) && forall i | 0 <= i < |t.header| :: IsComment(t.header[i])
  }

  predicate EndsWith(s: string, suffix: string) {
    |suffix| <= |s| && s[|s| - |suffix|..] == suffix
  }

  /** `translationPairPathsFromMeta`: it throws unless the English path is one. */
  function PathsFromMeta(meta: string): Option<Paths> {
    if !EndsWith(meta, ".i18n.yaml") then None
    else
      var stem := meta[..|meta| - 10];
      if EndsWith(stem + ".md", ".zh.md") then None else Some(Paths(stem + ".md", stem + ".zh.md", meta))
  }

  /** The last component of a path. */
  function Basename(path: string): string
    decreases |path|
  {
    if '/' in path then Basename(AfterSlash(path)) else path
  }

  function AfterSlash(path: string): (r: string)
    requires '/' in path
    ensures |r| < |path|
  {
    if path[0] == '/' then path[1..] else AfterSlash(path[1..])
  }

  /** It is what follows the last slash. */
  lemma {:induction false} BasenameIsLast(path: string) returns (dir: string)
    ensures path == dir + Basename(path) && '/' !in Basename(path)
    ensures dir == "" || dir[|dir| - 1] == '/'
    decreases |path|
  {
    if '/' in path {
      var rest := AfterSlash(path);
      var head := AfterSlashIsRest(path);
      var last := BasenameIsLast(rest);
      dir := head + last;
      assert path == head + last + Basename(rest);
    } else {
      dir := "";
    }
  }

  lemma {:induction false} AfterSlashIsRest(path: string) returns (head: string)
    requires '/' in path
    ensures path == head + AfterSlash(path) && head != "" && head[|head| - 1] == '/'
  {
    if path[0] == '/' {
      head := [path[0]];
    } else {
      var tail := AfterSlashIsRest(path[1..]);
      head := [path[0]] + tail;
      assert path == [path[0]] + path[1..];
    }
  }

  /** The paths are those of an English document beside its counterpart and its record, and there are no others. */
  lemma PathsExactly(meta: string, p: Paths)
    ensures PathsFromMeta(meta) == Some(p) <==>
            exists stem: string :: meta == stem + ".i18n.yaml" && !EndsWith(stem, ".zh")
              && p == Paths(stem + ".md", stem + ".zh.md", meta)
  {
    if EndsWith(meta, ".i18n.yaml") {
      var stem := meta[..|meta| - 10];
      assert meta == stem + ".i18n.yaml";
      EnglishStem(stem);
    }
    if stem: string :| meta == stem + ".i18n.yaml" && !EndsWith(stem, ".zh")
                       && p == Paths(stem + ".md", stem + ".zh.md", meta) {
      assert meta[..|meta| - 10] == stem && meta[|meta| - 10..] == ".i18n.yaml";
      EnglishStem(stem);
    }
  }

  lemma EnglishStem(stem: string)
    ensures EndsWith(stem + ".md", ".zh.md") <==> EndsWith(stem, ".zh")
  {
    var path := stem + ".md";
    assert ".zh.md" == ".zh" + ".md";
    if EndsWith(stem, ".zh") { assert path[|path| - 6..] == stem[|stem| - 3..] + ".md"; }
    if EndsWith(path, ".zh.md") {
      assert |stem| >= 3 && stem[|stem| - 3..] == path[|path| - 6..][..3];
      assert ".zh.md"[..3] == ".zh";
    }
  }

  // ---------- Parsing ----------

  predicate IsHex(c: char) {
    '0' <= c <= '9' || 'a' <= c <= 'f'
  }

  predicate IsHash(s: string) {
    |s| == 40 && forall i | 0 <= i < 40 :: IsHex(s[i])
  }

  /** The name and the hash of a data line. */
  function MetaLine(line: string): Option<(string, string)> {
    var n := |line| - 42;
    if n < 4 then None
    else
      var name, hash := line[..n], line[n + 2..];
      if IsHash(hash) && line[n..n + 2] == ": " && EndsWith(name, ".md") && ':' !in name && '#' !in name
      then Some((name, hash)) else None
  }

  predicate Ignored(line: string) {
    line == "" || line[0] == '#'
  }

  /** The lines that are neither empty nor comments. */
  function Data(lines: seq<string>): seq<string> {
    if lines == [] then []
    else (if Ignored(lines[0]) then [] else [lines[0]]) + Data(lines[1..])
  }

  /** Name by name; a malformed line or a repeated name spoils the record. */
  function Hashes(data: seq<string>): (r: Option<map<string, string>>)
    ensures r.Some? ==> |r.value| == |data|
  {
    if data == [] then Some(map[])
    else
      var before, last := Hashes(data[..|data| - 1]), MetaLine(data[|data| - 1]);
      if before.None? || last.None? || last.value.0 in before.value then None
      else
        var after := before.value[last.value.0 := last.value.1];
        assert after.Keys == before.value.Keys + {last.value.0};
        Some(after)
  }

  /** `parseTranslationPairingRecord`. */
  function Parse(content: string, paths: Paths): Option<Record> {
    match Hashes(Data(Split(content)))
    case None => None
    case Some(hashes) =>
      var source, zh := Basename(paths.source), Basename(paths.zh);
      if |hashes| == 2 && source in hashes && zh in hashes then Some(Record(hashes[source], hashes[zh])) else None
  }

  // ---------- Rendering ----------

  function RecordLine(path: string, hash: string): string {
    Basename(path) + ": " + hash
  }

  /** `renderTranslationPairingRecord`. */
  function Render(t: Template, paths: Paths, record: Record): string {
    Body(t.header + [t.command + paths.source, RecordLine(paths.source, record.sourceHash),
                     RecordLine(paths.zh, record.zhHash)])
  }

  // ---------- The exact round trip ----------

  predicate CleanName(name: string) {
    |name| > 3 && ':' !in name && '#' !in name && '\n' !in name
  }

  predicate AllIgnored(lines: seq<string>) {
    forall i | 0 <= i < |lines| :: Ignored(lines[i])
  }

  /** No separator in the file name, and no line of a directory name would be read as data. */
  predicate Recordable(source: string) {
    CleanName(Basename(source)) && AllIgnored(Split(source)[1..])
  }

  lemma {:induction false} SplitConcat(a: string, rest: string)
    ensures Split(a + ['\n'] + rest) == Split(a) + Split(rest)
  {
    var s := a + ['\n'] + rest;
    if a == "" {
      assert s[1..] == rest;
    } else {
      assert s[1..] == a[1..] + ['\n'] + rest;
      SplitConcat(a[1..], rest);
      HeadTail(Split(a[1..]), Split(rest));
    }
  }

  lemma HeadTail<T>(a: seq<T>, b: seq<T>)
    requires a != []
    ensures (a + b)[0] == a[0] && (a + b)[1..] == a[1..] + b
    ensures forall x :: [x] + ((a + b)[1..]) == ([x] + a[1..]) + b
  {
  }

  lemma {:induction false} SplitPrefix(p: string, s: string)
    requires '\n' !in p
    ensures Split(p + s) == [p + Split(s)[0]] + Split(s)[1..]
  {
    if p == "" {
      assert p + s == s && p + Split(s)[0] == Split(s)[0];
    } else {
      assert (p + s)[1..] == p[1..] + s;
      assert p[0] in p;
      SplitPrefix(p[1..], s);
      assert [p[0]] + (p[1..] + Split(s)[0]) == p + Split(s)[0];
    }
  }

  lemma {:induction false} DataConcat(a: seq<string>, b: seq<string>)
    ensures Data(a + b) == Data(a) + Data(b)
  {
    if a == [] {
      assert a + b == b;
    } else {
      assert (a + b)[1..] == a[1..] + b;
      DataConcat(a[1..], b);
    }
  }

  lemma {:induction false} DataNone(lines: seq<string>)
    ensures Data(lines) == [] <==> AllIgnored(lines)
  {
    if lines != [] {
      DataNone(lines[1..]);
      if AllIgnored(lines[1..]) && Ignored(lines[0]) {
        forall i | 0 <= i < |lines| ensures Ignored(lines[i]) {
          if i > 0 { assert Ignored(lines[1..][i - 1]); }
        }
      }
      if AllIgnored(lines) {
        assert Ignored(lines[0]);
        forall i | 0 <= i < |lines[1..]| ensures Ignored(lines[1..][i]) { assert Ignored(lines[i + 1]); }
      }
    }
  }

  /** The data of a text whose first line is `a`. */
  lemma DataOfText(a: string, rest: string)
    ensures Data(Split(a + ['\n'] + rest)) == Data(Split(a)) + Data(Split(rest))
  {
    SplitConcat(a, rest);
    DataConcat(Split(a), Split(rest));
  }

  lemma {:induction false} HeaderHasNoData(header: seq<string>, rest: seq<string>)
    requires forall i | 0 <= i < |header| :: IsComment(header[i])
    ensures Data(Split(Body(header + rest))) == Data(Split(Body(rest)))
  {
    if header == [] {
      assert header + rest == rest;
    } else {
      assert (header + rest)[1..] == header[1..] + rest;
      assert IsComment(header[0]);
      DataOfText(header[0], Body(header[1..] + rest));
      SplitPrefix(header[0], "");
      assert header[0] + "" == header[0];
      DataNone(Split(header[0]));
      HeaderHasNoData(header[1..], rest);
    }
  }

  lemma CommandHasNoData(command: string, source: string)
    requires IsComment(command)
    ensures Data(Split(command + source)) == Data(Split(source)[1..])
  {
    SplitPrefix(command, source);
    assert (command + Split(source)[0])[0] == '#';
  }

  lemma LineThenBody(a: string, rest: seq<string>)
    ensures Data(Split(Body([a] + rest))) == Data(Split(a)) + Data(Split(Body(rest)))
  {
    assert ([a] + rest)[1..] == rest;
    DataOfText(a, Body(rest));
  }

  lemma ThreeLines(a: string, b: string, c: string)
    ensures Data(Split(Body([a, b, c]))) == Data(Split(a)) + Data(Split(b)) + Data(Split(c))
  {
    var none: seq<string> := [];
    assert [a, b, c] == [a] + [b, c] && [b, c] == [b] + [c] && [c] == [c] + none;
    LineThenBody(a, [b, c]);
    LineThenBody(b, [c]);
    LineThenBody(c, none);
    DataNone(Split(Body(none)));
    Regroup(Data(Split(a)), Data(Split(b)), Data(Split(c)));
  }

  lemma Regroup<T>(x: seq<T>, y: seq<T>, z: seq<T>)
    ensures x + (y + (z + [])) == x + y + z
  {
  }

  /** A rendered record holds the two hash lines and what the path's own lines add. */
  lemma RenderedData(t: Template, paths: Paths, record: Record)
    requires IsTemplate(t)
    ensures Data(Split(Render(t, paths, record)))
            == Data(Split(paths.source)[1..]) + Data(Split(RecordLine(paths.source, record.sourceHash)))
               + Data(Split(RecordLine(paths.zh, record.zhHash)))
  {
    var a, b, c := t.command + paths.source, RecordLine(paths.source, record.sourceHash),
        RecordLine(paths.zh, record.zhHash);
    HeaderHasNoData(t.header, [a, b, c]);
    ThreeLines(a, b, c);
    CommandHasNoData(t.command, paths.source);
  }

  /** A clean name and a hash make one data line, which reads back as them. */
  lemma RecordLineReads(name: string, hash: string)
    requires CleanName(name) && EndsWith(name, ".md") && IsHash(hash)
    ensures Data(Split(name + ": " + hash)) == [name + ": " + hash]
    ensures MetaLine(name + ": " + hash) == Some((name, hash))
  {
    var line := name + ": " + hash;
    assert line[..|line| - 42] == name && line[|line| - 40..] == hash && line[|line| - 42..|line| - 40] == ": ";
    forall i | 0 <= i < |line| ensures line[i] != '\n' {
      if i < |name| { assert line[i] in name; } else if i >= |name| + 2 { assert IsHex(hash[i - |name| - 2]); }
    }
    SplitPrefix(line, "");
    assert line + "" == line && Split(line) == [line];
    assert line[0] in name;
    var none: seq<string> := [];
    assert [line][1..] == none;
  }

  /** Names in a record come from its lines. */
  lemma {:induction false} NamesAreClean(data: seq<string>, name: string)
    requires forall i | 0 <= i < |data| :: '\n' !in data[i]
    requires Hashes(data).Some? && name in Hashes(data).value
    ensures CleanName(name) && EndsWith(name, ".md")
  {
    var line := data[|data| - 1];
    var meta := MetaLine(line).value;
    if name == meta.0 {
      assert forall c | c in name :: c in line;
    } else {
      NamesAreClean(data[..|data| - 1], name);
    }
  }

  lemma {:induction false} DataHasNoNewline(lines: seq<string>)
    requires forall i | 0 <= i < |lines| :: '\n' !in lines[i]
    ensures forall i | 0 <= i < |Data(lines)| :: '\n' !in Data(lines)[i]
  {
    if lines != [] { DataHasNoNewline(lines[1..]); }
  }

  /** A record that parses for a pair tells that the pair's file names are clean. */
  lemma ParsedNamesAreClean(content: string, paths: Paths)
    requires Parse(content, paths).Some?
    ensures CleanName(Basename(paths.source)) && CleanName(Basename(paths.zh))
    ensures EndsWith(Basename(paths.source), ".md") && EndsWith(Basename(paths.zh), ".md")
  {
    forall i | 0 <= i < |Split(content)| ensures '\n' !in Split(content)[i] { SplitHasNoNewline(content, i); }
    DataHasNoNewline(Split(content));
    NamesAreClean(Data(Split(content)), Basename(paths.source));
    NamesAreClean(Data(Split(content)), Basename(paths.zh));
  }

  lemma {:induction false} BasenameSuffix(stem: string, suffix: string)
    requires '/' !in suffix
    ensures Basename(stem + suffix) == Basename(stem) + suffix
    decreases |stem|
  {
    if '/' in stem {
      AfterSlashSuffix(stem, suffix);
      BasenameSuffix(AfterSlash(stem), suffix);
    }
  }

  lemma {:induction false} AfterSlashSuffix(stem: string, suffix: string)
    requires '/' in stem
    ensures '/' in stem + suffix && AfterSlash(stem + suffix) == AfterSlash(stem) + suffix
  {
    assert (stem + suffix)[1..] == stem[1..] + suffix;
    var k :| 0 <= k < |stem| && stem[k] == '/';
    assert (stem + suffix)[k] == '/';
    if stem[0] != '/' {
      assert stem[1..][k - 1] == '/';
      AfterSlashSuffix(stem[1..], suffix);
    }
  }

  /** The two file names of a pair differ, and are clean together. */
  lemma PairNames(meta: string)
    requires PathsFromMeta(meta).Some?
    ensures var p := PathsFromMeta(meta).value;
            && EndsWith(Basename(p.source), ".md") && EndsWith(Basename(p.zh), ".md")
            && Basename(p.source) != Basename(p.zh)
            && (CleanName(Basename(p.source)) ==> CleanName(Basename(p.zh)))
  {
    var stem := meta[..|meta| - 10];
    BasenameSuffix(stem, ".md");
    BasenameSuffix(stem, ".zh.md");
    var base := Basename(stem);
    assert EndsWith(base + ".md", ".md") && EndsWith(base + ".zh.md", ".md");
    assert |base + ".md"| != |base + ".zh.md"|;
    if CleanName(base + ".md") {
      forall c | c in base ensures c in base + ".md" {}
    }
  }

  lemma TwoHashes(a: string, b: string)
    requires MetaLine(a).Some? && MetaLine(b).Some? && MetaLine(a).value.0 != MetaLine(b).value.0
    ensures var x, y := MetaLine(a).value, MetaLine(b).value;
            Hashes([a, b]) == Some(map[x.0 := x.1, y.0 := y.1])
  {
    TwoLines([a, b]);
  }

  // ---------- What parses ----------

  /** A file name and forty lower-case hexadecimal digits. */
  predicate SaysHash(line: string, name: string, hash: string) {
    && line == name + ": " + hash
    && |name| > 3 && name[|name| - 3..] == ".md" && ':' !in name && '#' !in name
    && |hash| == 40 && forall i | 0 <= i < 40 :: hash[i] in "0123456789abcdef"
  }

  lemma HexDigits(c: char)
    ensures IsHex(c) <==> c in "0123456789abcdef"
  {
    var digits := "0123456789abcdef";
    if '0' <= c <= '9' { assert digits[c as int - '0' as int] == c; }
    if 'a' <= c <= 'f' { assert digits[10 + c as int - 'a' as int] == c; }
  }

  lemma MetaLineExactly(line: string, name: string, hash: string)
    ensures MetaLine(line) == Some((name, hash)) <==> SaysHash(line, name, hash)
  {
    forall c: char ensures IsHex(c) <==> c in "0123456789abcdef" { HexDigits(c); }
    var n := |line| - 42;
    if SaysHash(line, name, hash) {
      assert line[..n] == name && line[n..n + 2] == ": " && line[n + 2..] == hash;
    }
  }

  /**
   * A text is a record of the pair exactly if, besides empty lines and comments, it has two
   * lines, in either order, one for each file name of the pair.
   */
  lemma ParseExactly(content: string, meta: string, r: Record)
    requires PathsFromMeta(meta).Some?
    ensures var p, data := PathsFromMeta(meta).value, Data(Split(content));
            Parse(content, p) == Some(r) <==>
              OneEach(data, Basename(p.source), r.sourceHash, Basename(p.zh), r.zhHash)
              || OneEach(data, Basename(p.zh), r.zhHash, Basename(p.source), r.sourceHash)
  {
    var p, data := PathsFromMeta(meta).value, Data(Split(content));
    PairNames(meta);
    HashesExactly(data, Basename(p.source), r.sourceHash, Basename(p.zh), r.zhHash);
    if Hashes(data).Some? { TwoKeys(Hashes(data).value, Basename(p.source), Basename(p.zh)); }
  }

  /** The data are these two lines. */
  predicate OneEach(data: seq<string>, a: string, h: string, b: string, k: string) {
    |data| == 2 && SaysHash(data[0], a, h) && SaysHash(data[1], b, k)
  }

  lemma HashesExactly(data: seq<string>, a: string, h: string, b: string, k: string)
    requires a != b
    ensures Hashes(data) == Some(map[a := h, b := k]) <==> OneEach(data, a, h, b, k) || OneEach(data, b, k, a, h)
  {
    TwoKeys(map[a := h, b := k], a, b);
    if |data| == 2 {
      TwoLines(data);
      forall i | 0 <= i < 2
        ensures MetaLine(data[i]) == Some((a, h)) <==> SaysHash(data[i], a, h)
        ensures MetaLine(data[i]) == Some((b, k)) <==> SaysHash(data[i], b, k)
      {
        MetaLineExactly(data[i], a, h);
        MetaLineExactly(data[i], b, k);
      }
      if Hashes(data).Some? {
        SameTwo(MetaLine(data[0]).value, MetaLine(data[1]).value, (a, h), (b, k));
      }
    }
  }

  lemma SameTwo(x: (string, string), y: (string, string), a: (string, string), b: (string, string))
    requires x.0 != y.0 && a.0 != b.0
    ensures map[x.0 := x.1, y.0 := y.1] == map[a.0 := a.1, b.0 := b.1] <==> (x == a && y == b) || (x == b && y == a)
  {
    var m, m' := map[x.0 := x.1, y.0 := y.1], map[a.0 := a.1, b.0 := b.1];
    if m == m' {
      assert x.0 in m' && y.0 in m' && a.0 in m && b.0 in m;
      assert m[x.0] == x.1 && m[y.0] == y.1 && m'[a.0] == a.1 && m'[b.0] == b.1;
    }
  }

  /** Two of two entries are the whole map. */
  lemma TwoKeys(m: map<string, string>, a: string, b: string)
    requires a != b
    ensures |m| == 2 && a in m && b in m <==> m.Keys == {a, b}
    ensures m.Keys == {a, b} ==> m == map[a := m[a], b := m[b]]
  {
    assert |m| == |m.Keys|;
    if |m| == 2 && a in m && b in m {
      assert |m.Keys - {a} - {b}| == 0;
    }
  }

  lemma TwoLines(data: seq<string>)
    requires |data| == 2
    ensures var x, y := MetaLine(data[0]), MetaLine(data[1]);
            && (Hashes(data).Some? <==> x.Some? && y.Some? && x.value.0 != y.value.0)
            && (Hashes(data).Some? ==> Hashes(data).value == map[x.value.0 := x.value.1, y.value.0 := y.value.1])
  {
    var none: seq<string> := [];
    assert data[..1] == [data[0]] && [data[0]][..0] == none;
    assert Hashes(none) == Some(map[]);
  }

  /** A rendered record reads back as what it was rendered from exactly for recordable paths. */
  lemma RecordRoundTrip(t: Template, meta: string, record: Record)
    requires IsTemplate(t) && PathsFromMeta(meta).Some? && IsHash(record.sourceHash) && IsHash(record.zhHash)
    ensures var p := PathsFromMeta(meta).value;
            Parse(Render(t, p, record), p) == Some(record) <==> Recordable(p.source)
  {
    var p := PathsFromMeta(meta).value;
    var source, zh := Basename(p.source), Basename(p.zh);
    var content := Render(t, p, record);
    PairNames(meta);
    if Parse(content, p).Some? { ParsedNamesAreClean(content, p); }
    if CleanName(source) {
      var a, b := RecordLine(p.source, record.sourceHash), RecordLine(p.zh, record.zhHash);
      RecordLineReads(source, record.sourceHash);
      RecordLineReads(zh, record.zhHash);
      RenderedData(t, p, record);
      var own := Data(Split(p.source)[1..]);
      DataNone(Split(p.source)[1..]);
      assert Data(Split(content)) == own + [a] + [b];
      if own == [] {
        assert own + [a] + [b] == [a, b];
        TwoHashes(a, b);
      }
    }
  }

  /** The record of `a:b.md` does not read back, whatever it holds. */
  lemma ColonIsUnrecordable(t: Template, record: Record)
    requires IsTemplate(t) && IsHash(record.sourceHash) && IsHash(record.zhHash)
    ensures var p := Paths("a:b.md", "a:b.zh.md", "a:b.i18n.yaml");
            PathsFromMeta(p.meta) == Some(p) && Parse(Render(t, p, record), p) != Some(record)
  {
    ColonPaths();
    ColonInName();
    RecordRoundTrip(t, "a:b.i18n.yaml", record);
  }

  lemma ColonPaths()
    ensures PathsFromMeta("a:b.i18n.yaml") == Some(Paths("a:b.md", "a:b.zh.md", "a:b.i18n.yaml"))
  {
    var meta := "a:b.i18n.yaml";
    assert meta[..3] == "a:b" && meta[3..] == ".i18n.yaml";
    assert "a:b" + ".md" == "a:b.md" && "a:b" + ".zh.md" == "a:b.zh.md";
    assert !EndsWith("a:b.md", ".zh.md") by { assert "a:b.md"[0] != ".zh.md"[0]; }
  }

  lemma ColonInName()
    ensures !Recordable("a:b.md")
  {
    assert "a:b.md"[1] == ':';
  }
}
