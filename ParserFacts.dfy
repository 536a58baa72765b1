/**
  What the document parser guarantees: how a header line is cut into key and
  value, how the header fold treats malformed and repeated lines, which chunks
  become sections and in what order, and how a section's title and content
  are derived from its lines.
 */
module ParserFacts {
  import opened Results
  import opened JsStrings
  import opened ArticleParser

  // ---------------------------------------------------------------------
  // Header lines

  /** The key is the trimmed text before the first ':'; the value is the
      trimmed text between the first ':' and the second one (or the end of
      the line). */
  lemma {:induction false} HeaderLineFields(line: string, i: nat, e: nat)
    requires i < e <= |line|
    requires line[i] == ':' && ':' !in line[..i] && ':' !in line[i + 1..e]
    requires e == |line| || line[e] == ':'
    ensures HeaderLine(line) == Ok((Trim(line[..i]), Trim(line[i + 1..e])))
  {
    IndexOfChar(line, ':', i);
    var after := line[i + 1..];
    assert Split(line, ":") == [line[..i]] + Split(after, ":");
    if e == |line| {
      assert after == line[i + 1..e];
      IndexOfNoChar(after, ':');
    } else {
      assert after[e - i - 1] == ':';
      assert after[..e - i - 1] == line[i + 1..e];
      IndexOfChar(after, ':', e - i - 1);
    }
  }

  /** Whatever follows a second ':' is lost: `date: 2024-01-01T10:30`
      gives the value `2024-01-01T10`. */
  lemma {:induction false} SecondColonDropsRest(key: string, v1: string, v2: string)
    requires ':' !in key && ':' !in v1
    ensures HeaderLine(key + ":" + v1 + ":" + v2) == Ok((Trim(key), Trim(v1)))
  {
    var line := key + ":" + v1 + ":" + v2;
    var i, e := |key|, |key| + 1 + |v1|;
    assert line[..i] == key && line[i] == ':';
    assert line[i + 1..e] == v1 && line[e] == ':';
    HeaderLineFields(line, i, e);
  }

  /** Line `line` sets `key` when it is cut into a key and a value by `entry`. */
  predicate Sets(entry: string -> Result<(string, string), ParseError>, line: string, key: string) {
    entry(line).Ok? && entry(line).value.0 == key
  }

  /** Line `line` sets `key` in the header. */
  predicate SetsKey(line: string, key: string) {
    Sets(HeaderLine, line, key)
  }

  // ---------------------------------------------------------------------
  // The header fold

  /** The fold succeeds exactly when every line is well formed. */
  lemma {:induction false} FoldSucceeds(lines: seq<string>, acc: map<string, string>, entry: string -> Result<(string, string), ParseError>)
    ensures FoldEntries(lines, acc, entry).Ok? <==> forall j :: 0 <= j < |lines| ==> entry(lines[j]).Ok?
    decreases |lines|
  {
    if lines != [] {
      var h := entry(lines[0]);
      if h.Ok? {
        FoldSucceeds(lines[1..], Assign(acc, h.value.0, h.value.1), entry);
        assert forall j :: 1 <= j < |lines| ==> lines[j] == lines[1..][j - 1];
      }
    }
  }

  /** A failing fold reports the error of the first malformed line. */
  lemma {:induction false} FoldFirstError(lines: seq<string>, acc: map<string, string>, entry: string -> Result<(string, string), ParseError>, i: nat)
    requires i < |lines| && entry(lines[i]).Err?
    requires forall j :: 0 <= j < i ==> entry(lines[j]).Ok?
    ensures FoldEntries(lines, acc, entry) == Err(entry(lines[i]).error)
    decreases i
  {
    if i > 0 {
      var h := entry(lines[0]);
      assert forall j :: 0 <= j < i - 1 ==> lines[1..][j] == lines[j + 1];
      FoldFirstError(lines[1..], Assign(acc, h.value.0, h.value.1), entry, i - 1);
    }
  }

  /** Every error of the fold is the error of one of its lines. */
  lemma {:induction false} FoldErrorFromLine(lines: seq<string>, acc: map<string, string>, entry: string -> Result<(string, string), ParseError>)
    requires FoldEntries(lines, acc, entry).Err?
    ensures exists j :: 0 <= j < |lines| && entry(lines[j]) == Err(FoldEntries(lines, acc, entry).error)
    decreases |lines|
  {
    var h := entry(lines[0]);
    if h.Ok? {
      FoldErrorFromLine(lines[1..], Assign(acc, h.value.0, h.value.1), entry);
      var j :| 0 <= j < |lines| - 1 && entry(lines[1..][j]) == Err(FoldEntries(lines, acc, entry).error);
      assert lines[1..][j] == lines[j + 1];
    } else {
      assert entry(lines[0]) == Err(FoldEntries(lines, acc, entry).error);
    }
  }

  /** A key no line sets keeps the value it had in the accumulator. */
  lemma {:induction false} FoldKeeps(lines: seq<string>, acc: map<string, string>, entry: string -> Result<(string, string), ParseError>, key: string)
    requires FoldEntries(lines, acc, entry).Ok?
    requires key in acc
    requires forall j :: 0 <= j < |lines| ==> !Sets(entry, lines[j], key)
    ensures key in FoldEntries(lines, acc, entry).value && FoldEntries(lines, acc, entry).value[key] == acc[key]
    decreases |lines|
  {
    if lines != [] {
      var h := entry(lines[0]);
      assert !Sets(entry, lines[0], key);
      assert forall j :: 0 <= j < |lines| - 1 ==> lines[1..][j] == lines[j + 1];
      FoldKeeps(lines[1..], Assign(acc, h.value.0, h.value.1), entry, key);
    }
  }

  /** When a key repeats, the last line that sets it wins. */
  lemma {:induction false} FoldLastWins(lines: seq<string>, acc: map<string, string>, entry: string -> Result<(string, string), ParseError>, i: nat, key: string, value: string)
    requires FoldEntries(lines, acc, entry).Ok?
    requires i < |lines| && entry(lines[i]) == Ok((key, value)) && key != "__proto__"
    requires forall j :: i < j < |lines| ==> !Sets(entry, lines[j], key)
    ensures key in FoldEntries(lines, acc, entry).value && FoldEntries(lines, acc, entry).value[key] == value
    decreases i
  {
    var h := entry(lines[0]);
    assert h.Ok?;
    var acc' := Assign(acc, h.value.0, h.value.1);
    if i == 0 {
      assert forall j :: 0 <= j < |lines| - 1 ==> lines[1..][j] == lines[j + 1];
      FoldKeeps(lines[1..], acc', entry, key);
    } else {
      assert lines[1..][i - 1] == lines[i];
      assert forall j :: i - 1 < j < |lines| - 1 ==> lines[1..][j] == lines[j + 1];
      FoldLastWins(lines[1..], acc', entry, i - 1, key, value);
    }
  }

  /** The keys of the result are those of the accumulator and those the lines
      set, except "__proto__", which an assignment never creates. */
  lemma {:induction false} FoldKeys(lines: seq<string>, acc: map<string, string>, entry: string -> Result<(string, string), ParseError>, key: string)
    requires FoldEntries(lines, acc, entry).Ok?
    ensures key in FoldEntries(lines, acc, entry).value <==>
      key in acc || (key != "__proto__" && exists j :: 0 <= j < |lines| && Sets(entry, lines[j], key))
    decreases |lines|
  {
    if lines != [] {
      var h := entry(lines[0]);
      var acc' := Assign(acc, h.value.0, h.value.1);
      FoldKeys(lines[1..], acc', entry, key);
      if exists j :: 0 <= j < |lines| - 1 && Sets(entry, lines[1..][j], key) {
        var j :| 0 <= j < |lines| - 1 && Sets(entry, lines[1..][j], key);
        assert Sets(entry, lines[j + 1], key);
      }
      if exists j :: 0 <= j < |lines| && Sets(entry, lines[j], key) {
        var j :| 0 <= j < |lines| && Sets(entry, lines[j], key);
        if j > 0 { assert Sets(entry, lines[1..][j - 1], key); }
      }
    }
  }

  // ---------------------------------------------------------------------
  // The header of an article

  /** An article fails exactly when a header line has no ':', and the error
      names the first such line. */
  lemma ArticleFailsOnMalformedHeader(name: string, text: string, encode: string -> string, md: string -> string)
    ensures var lines := HeaderLines(Split(text, Delimiter)[0]);
      ParseArticle(name, text, encode, md).Err? <==> exists j :: 0 <= j < |lines| && ':' !in lines[j]
    ensures var lines := HeaderLines(Split(text, Delimiter)[0]);
      forall i :: 0 <= i < |lines| && ':' !in lines[i] && (forall j :: 0 <= j < i ==> ':' in lines[j]) ==>
        ParseArticle(name, text, encode, md) == Err(HeaderLineWithoutColon(lines[i]))
  {
    var lines := HeaderLines(Split(text, Delimiter)[0]);
    ParseArticleUnfold(name, text, encode, md);
    FoldSucceeds(lines, map[], HeaderLine);
    forall i | 0 <= i < |lines| && ':' !in lines[i] && (forall j :: 0 <= j < i ==> ':' in lines[j])
      ensures ParseArticle(name, text, encode, md) == Err(HeaderLineWithoutColon(lines[i]))
    {
      FoldFirstError(lines, map[], HeaderLine, i);
    }
  }

  /** A file with no header text before the first `---` (or an empty file)
      fails: the single empty header line has no ':'. */
  lemma BlankHeaderFails(name: string, text: string, encode: string -> string, md: string -> string)
    requires Blank(Split(text, Delimiter)[0])
    ensures ParseArticle(name, text, encode, md) == Err(HeaderLineWithoutColon(""))
  {
    var lines := HeaderLines(Split(text, Delimiter)[0]);
    assert Split("", "\n") == [""];
    assert lines == [""];
    ArticleFailsOnMalformedHeader(name, text, encode, md);
  }

  /** The parsed header of a successful article: its keys are exactly those
      its lines set (never "__proto__"), and each holds the value of the last
      line that sets it. */
  lemma ArticleHeader(name: string, text: string, encode: string -> string, md: string -> string, key: string)
    requires ParseArticle(name, text, encode, md).Ok?
    ensures var lines := HeaderLines(Split(text, Delimiter)[0]);
      var meta := ParseArticle(name, text, encode, md).value.meta;
      && (key in meta <==> key != "__proto__" && exists j :: 0 <= j < |lines| && SetsKey(lines[j], key))
      && forall i, v ::
           (0 <= i < |lines| && HeaderLine(lines[i]) == Ok((key, v)) && key != "__proto__" &&
            forall j :: i < j < |lines| ==> !SetsKey(lines[j], key))
           ==> key in meta && meta[key] == v
  {
    var lines := HeaderLines(Split(text, Delimiter)[0]);
    ParseArticleUnfold(name, text, encode, md);
    FoldKeys(lines, map[], HeaderLine, key);
    forall i, v | 0 <= i < |lines| && HeaderLine(lines[i]) == Ok((key, v)) && key != "__proto__" &&
           (forall j :: i < j < |lines| ==> !SetsKey(lines[j], key))
      ensures var meta := FoldHeader(lines, map[]).value; key in meta && meta[key] == v
    {
      FoldLastWins(lines, map[], HeaderLine, i, key, v);
    }
  }

  // ---------------------------------------------------------------------
  // Sections

  /** The bodies are the trimmed non-blank chunks, one per such chunk and in
      chunk order. */
  lemma {:induction false} BodiesAreNonBlankChunks(chunks: seq<string>)
    ensures |Bodies(chunks)| == |NonBlankIndices(chunks)|
    ensures forall k :: 0 <= k < |Bodies(chunks)| ==> Bodies(chunks)[k] == Trim(chunks[NonBlankIndices(chunks)[k]])
    decreases |chunks|
  {
    if chunks != [] {
      var n := |chunks| - 1;
      var init := chunks[..n];
      BodiesAreNonBlankChunks(init);
      var b, idx := Bodies(init), NonBlankIndices(init);
      var last := Trim(chunks[n]);
      assert Bodies(chunks) == b + (if last == "" then [] else [last]);
      assert NonBlankIndices(chunks) == if Blank(chunks[n]) then idx else idx + [n];
      forall k | 0 <= k < |idx| ensures chunks[idx[k]] == init[idx[k]] {}
    }
  }

  lemma {:induction false} EachAt(bodies: seq<string>, f: string -> string, k: nat)
    requires k < |bodies|
    ensures Each(bodies, f)[k] == f(bodies[k])
    decreases |bodies|
  {
    var n := |bodies| - 1;
    if k < n {
      EachAt(bodies[..n], f, k);
    }
  }

  /** Section titles and sections of an article are index-aligned: one pair
      for every non-blank chunk after the header, in source order. */
  lemma ArticleSections(name: string, text: string, encode: string -> string, md: string -> string)
    requires ParseArticle(name, text, encode, md).Ok?
    ensures var a := ParseArticle(name, text, encode, md).value;
      var chunks := Split(text, Delimiter)[1..];
      var idx := NonBlankIndices(chunks);
      && |a.sectionTitles| == |idx| && |a.sections| == |idx|
      && forall k :: 0 <= k < |idx| ==>
           a.sectionTitles[k] == SectionTitle(Trim(chunks[idx[k]]), encode) &&
           a.sections[k] == md(SectionContent(Trim(chunks[idx[k]])))
  {
    var chunks := Split(text, Delimiter)[1..];
    ParseArticleUnfold(name, text, encode, md);
    BodiesAreNonBlankChunks(chunks);
    var b := Bodies(chunks);
    forall k | 0 <= k < |b|
      ensures Titles(b, encode)[k] == SectionTitle(b[k], encode)
      ensures Rendered(b, md)[k] == md(SectionContent(b[k]))
    {
      EachAt(b, TitleOf(encode), k);
      EachAt(b, HtmlOf(md), k);
    }
  }

  /** The record's title is the name it was parsed under, whatever the header
      says, and its sections fields are the parsed ones. */
  lemma ArticleRecord(name: string, text: string, encode: string -> string, md: string -> string)
    requires ParseArticle(name, text, encode, md).Ok?
    ensures var a := ParseArticle(name, text, encode, md).value;
      && a.title == name
      && Fields(a)["title"] == Text(name)
      && Fields(a)["sectionTitles"] == List(SectionTitles(Split(text, Delimiter)[1..], encode))
      && Fields(a)["sections"] == List(SectionsHtml(Split(text, Delimiter)[1..], md))
  {
    ParseArticleUnfold(name, text, encode, md);
  }

  // ---------------------------------------------------------------------
  // Title and content of one section

  /** With a line break at `i`, the title comes from the text before it and
      the content is the rest, trimmed. */
  lemma {:induction false} SectionLines(section: string, i: nat, encode: string -> string)
    requires i < |section| && section[i] == '\n' && '\n' !in section[..i]
    ensures SectionTitle(section, encode) == encode(Trim(StripHeadingMarks(section[..i])))
    ensures SectionContent(section) == Trim(section[i + 1..])
  {
    IndexOfChar(section, '\n', i);
    SplitFirst(section, "\n");
  }

  /** A one-line section has a title and empty content. */
  lemma {:induction false} SingleLineSection(section: string, encode: string -> string)
    requires '\n' !in section
    ensures SectionTitle(section, encode) == encode(Trim(StripHeadingMarks(section)))
    ensures SectionContent(section) == ""
  {
    IndexOfNoChar(section, '\n');
    SplitFirst(section, "\n");
    assert Split(section, "\n")[1..] == [];
  }

  lemma {:induction false} JoinEmptyCons(c: char, rest: seq<string>)
    requires |rest| >= 1
    ensures Join([[c] + rest[0]] + rest[1..], "") == [c] + Join(rest, "")
  {
    var all := [[c] + rest[0]] + rest[1..];
    if |rest| > 1 {
      assert all[1..] == rest[1..];
    }
  }

  /** The regular expression's `###` alternative never matches, because `##`
      is tried first at every position: the result is the text with its
      non-overlapping `##` occurrences, found left to right, deleted. */
  lemma {:induction false} StripHeadingMarksDeletesPairs(s: string)
    ensures StripHeadingMarks(s) == Join(Split(s, "##"), "")
    decreases |s|
  {
    if |s| >= 2 && s[..2] == "##" {
      SplitAtStart(s, "##");
      StripHeadingMarksDeletesPairs(s[2..]);
      var all := [""] + Split(s[2..], "##");
      assert all[1..] == Split(s[2..], "##");
    } else if s == [] {
      assert Split(s, "##") == [""];
    } else {
      if |s| >= 3 { assert s[..3][..2] == s[..2]; }
      SplitNotAtStart(s, "##");
      StripHeadingMarksDeletesPairs(s[1..]);
      JoinEmptyCons(s[0], Split(s[1..], "##"));
    }
  }

  lemma {:induction false} StripHeadingMarksKeepsFirst(s: string)
    requires s != [] && s[0] != '#'
    ensures StripHeadingMarks(s) == [s[0]] + StripHeadingMarks(s[1..])
  {
    if |s| >= 2 { assert s[..2][0] == s[0]; }
    if |s| >= 3 { assert s[..3][0] == s[0]; }
  }

  /** No two adjacent '#' characters. */
  predicate NoHashPair(r: string) {
    forall j :: 0 <= j < |r| - 1 ==> r[j] != '#' || r[j + 1] != '#'
  }

  /** No `##` is left once the marks are stripped. */
  lemma {:induction false} StripHeadingMarksLeavesNoPair(s: string)
    ensures NoHashPair(StripHeadingMarks(s))
    decreases |s|
  {
    if |s| >= 2 && s[..2] == "##" {
      StripHeadingMarksLeavesNoPair(s[2..]);
    } else if s != [] {
      if |s| >= 3 { assert s[..3][..2] == s[..2]; }
      var rest := StripHeadingMarks(s[1..]);
      var r := [s[0]] + rest;
      assert StripHeadingMarks(s) == r;
      StripHeadingMarksLeavesNoPair(s[1..]);
      if s[0] == '#' && |s| >= 2 {
        assert s[1] != '#' by { assert s[..2] == [s[0], s[1]]; }
        StripHeadingMarksKeepsFirst(s[1..]);
        assert rest[0] == s[1];
      }
      forall j | 0 <= j < |r| - 1 ensures r[j] != '#' || r[j + 1] != '#' {
        assert r[j + 1] == rest[j];
        if j > 0 { assert r[j] == rest[j - 1]; }
      }
    }
  }

  function Hashes(n: nat): string {
    seq(n, _ => '#')
  }

  /** A run of '#' vanishes when its length is even and leaves one '#' when it
      is odd. */
  lemma {:induction false} StripHashRun(n: nat)
    ensures StripHeadingMarks(Hashes(n)) == if n % 2 == 0 then "" else "#"
    decreases n
  {
    var s := Hashes(n);
    if n >= 2 {
      assert s[..2] == "##";
      assert s[2..] == Hashes(n - 2);
      StripHashRun(n - 2);
    } else if n == 1 {
      assert s == "#";
    }
  }

  /** The `###` alternative never fires: `###` loses its first two marks
      and keeps the third, so `### Title` is titled `# Title`. */
  lemma {:induction false} ThreeHashes(t: string)
    requires t == [] || t[0] != '#'
    ensures StripHeadingMarks("###" + t) == "#" + StripHeadingMarks(t)
  {
    var s := "###" + t;
    assert s[..2] == "##" && s[2..] == "#" + t;
    var u := "#" + t;
    if t != [] {
      assert u[1] == t[0];
      assert u[1..] == t;
    } else {
      assert u[1..] == [];
    }
  }

  // ---------------------------------------------------------------------
  // File names and the whole corpus

  /** Only the first ".md" of a name goes: `base + ".md" + rest` is named
      `base + rest`, and the reader is asked for `base + rest + ".md"`. That
      is the listed file itself only when `rest` is empty; `a.md.bak` is read
      as `a.bak.md`. */
  lemma {:induction false} ArticleNameOfMarkdownFile(base: string, rest: string)
    requires !Contains(base + ".m", ".md")
    ensures ArticleName(base + ".md" + rest) == base + rest
  {
    var f := base + ".md" + rest;
    IndexOfLeftmost(f, ".md");
    var n := |base|;
    assert f[n..n + 3] == ".md";
    assert OccursAt(f, ".md", n);
    var i := IndexOf(f, ".md").value;
    if i < n {
      assert (base + ".m")[i..i + 3] == f[i..i + 3];
      assert OccursAt(base + ".m", ".md", i);
    }
    assert i == n;
    assert f[..n] == base && f[n + 3..] == rest;
  }

  /** A name without ".md" is kept whole. */
  lemma ArticleNameWithoutExtension(file: string)
    requires !Contains(file, ".md")
    ensures ArticleName(file) == file
  {
  }

  /** Parsing an article's text only ever fails on a header line. */
  lemma ArticleErrorIsHeaderLine(name: string, text: string, encode: string -> string, md: string -> string)
    requires ParseArticle(name, text, encode, md).Err?
    ensures ParseArticle(name, text, encode, md).error.HeaderLineWithoutColon?
  {
    var lines := HeaderLines(Split(text, Delimiter)[0]);
    ParseArticleUnfold(name, text, encode, md);
    FoldErrorFromLine(lines, map[], HeaderLine);
  }

  /** A listed file is read under its stripped name with ".md" appended. The
      file fails with ReadFailed exactly when that read fails, whatever the
      name (a directory, `notes.txt` read as `notes.txt.md`); otherwise it is
      the article parsed from the text read. */
  lemma ParseFileReads(file: string, read: string -> Option<string>, encode: string -> string, md: string -> string)
    ensures var name := ArticleName(file);
      ParseFile(file, read, encode, md) == Err(ReadFailed(name + ".md")) <==> read(name + ".md").None?
    ensures var name := ArticleName(file);
      read(name + ".md").Some? ==>
        ParseFile(file, read, encode, md) == ParseArticle(name, read(name + ".md").value, encode, md)
  {
    var name := ArticleName(file);
    var text := read(name + ".md");
    if text.Some? && ParseArticle(name, text.value, encode, md).Err? {
      ArticleErrorIsHeaderLine(name, text.value, encode, md);
    }
  }

  /** The corpus parses exactly when every file parses; then it holds one
      article per file, in listing order. */
  lemma {:induction false} ParseEachPerFile(files: seq<string>, parse: string -> Result<Article, ParseError>)
    ensures ParseEach(files, parse).Ok? <==> forall k :: 0 <= k < |files| ==> parse(files[k]).Ok?
    ensures ParseEach(files, parse).Ok? ==>
      var all := ParseEach(files, parse).value;
      |all| == |files| && forall k :: 0 <= k < |files| ==> all[k] == parse(files[k]).value
    decreases |files|
  {
    if files != [] {
      ParseEachPerFile(files[1..], parse);
      assert forall k :: 1 <= k < |files| ==> files[1..][k - 1] == files[k];
    }
  }

  /** A failing corpus reports the error of the first file that fails. */
  lemma {:induction false} ParseEachFirstError(files: seq<string>, parse: string -> Result<Article, ParseError>, i: nat)
    requires i < |files| && parse(files[i]).Err?
    requires forall j :: 0 <= j < i ==> parse(files[j]).Ok?
    ensures ParseEach(files, parse) == Err(parse(files[i]).error)
    decreases i
  {
    if i > 0 {
      assert forall j :: 0 <= j < i - 1 ==> files[1..][j] == files[j + 1];
      ParseEachFirstError(files[1..], parse, i - 1);
    }
  }

  /** The same facts for the article parser of each listed file. */
  lemma ParseAllPerFile(files: seq<string>, read: string -> Option<string>, encode: string -> string, md: string -> string)
    ensures ParseAll(files, read, encode, md).Ok? <==>
      forall k :: 0 <= k < |files| ==> ParseFile(files[k], read, encode, md).Ok?
    ensures ParseAll(files, read, encode, md).Ok? ==>
      var all := ParseAll(files, read, encode, md).value;
      |all| == |files| &&
      forall k :: 0 <= k < |files| ==> all[k] == ParseFile(files[k], read, encode, md).value
    ensures forall i ::
      (0 <= i < |files| && ParseFile(files[i], read, encode, md).Err? &&
       forall j :: 0 <= j < i ==> ParseFile(files[j], read, encode, md).Ok?)
      ==> ParseAll(files, read, encode, md) == Err(ParseFile(files[i], read, encode, md).error)
  {
    var parse := FileParser(read, encode, md);
    ParseEachPerFile(files, parse);
    forall i | 0 <= i < |files| && ParseFile(files[i], read, encode, md).Err? &&
        (forall j :: 0 <= j < i ==> ParseFile(files[j], read, encode, md).Ok?)
      ensures ParseAll(files, read, encode, md) == Err(ParseFile(files[i], read, encode, md).error)
    {
      ParseEachFirstError(files, parse, i);
    }
  }
}
