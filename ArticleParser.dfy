/**
  The document parser of the article compiler (`parseArticles`): each
  article file is split on the `---` token into a `key: value` header and
  body chunks; every chunk that is not blank becomes a section whose title is
  taken from its first line and whose content from the remaining lines.

  The markdown converter (`marked.parse`), `encodeURIComponent` and the file
  reader are parameters `md`, `encode` and `read`. The reader answers None
  for a name it cannot read (a missing file, a directory); nothing else is
  assumed of any of them.
 */
module ArticleParser {
  import opened Results
  import opened JsStrings

  /** Calling `.trim()` on the undefined half of a header line without ':',
      or a rejected `fs.readFile` of the file `path` in the articles directory. */
  datatype ParseError = HeaderLineWithoutColon(line: string) | ReadFailed(path: string)

  /** One article: the parsed header, the title (the file name), and the
      section titles and rendered sections as two parallel sequences. */
  datatype Article = Article(
    meta: map<string, string>,
    title: string,
    sectionTitles: seq<string>,
    sections: seq<string>)

  /** A property value of the JavaScript article object. */
  datatype Value = Text(text: string) | List(items: seq<string>)

  const Delimiter: string := "---"

  /** The properties of `{...meta, title, sectionTitles, sections}`: the
      header's keys, except that the three record fields written last win. */
  function Fields(a: Article): (r: map<string, Value>)
    ensures r.Keys == a.meta.Keys + {"title", "sectionTitles", "sections"}
    ensures r["title"] == Text(a.title)
    ensures r["sectionTitles"] == List(a.sectionTitles)
    ensures r["sections"] == List(a.sections)
    ensures forall k :: k in a.meta && k != "title" && k != "sectionTitles" && k != "sections" ==>
      r[k] == Text(a.meta[k])
  {
    (map k | k in a.meta :: Text(a.meta[k]))
      + map["title" := Text(a.title), "sectionTitles" := List(a.sectionTitles), "sections" := List(a.sections)]
  }

  /** `file.replace('.md', '')`: the first ".md" anywhere in the name goes. */
  function ArticleName(file: string): string {
    ReplaceFirst(file, ".md", "")
  }

  // ---------------------------------------------------------------------
  // Header

  /** `const [key, value] = line.split(':')`, then `key.trim()` and
      `value.trim()`: the value is the second piece, so text after a second
      ':' is lost, and a line without ':' has no value at all. */
  function HeaderLine(line: string): (r: Result<(string, string), ParseError>)
    ensures r.Err? <==> ':' !in line
    ensures r.Err? ==> r.error == HeaderLineWithoutColon(line)
  {
    var parts := Split(line, ":");
    SplitFirst(line, ":");
    ContainsChar(line, ':');
    IndexOfLeftmost(line, ":");
    if |parts| < 2 then Err(HeaderLineWithoutColon(line))
    else Ok((Trim(parts[0]), Trim(parts[1])))
  }

  /** `acc[key] = value` on a plain object: assigning a string to
      "__proto__" goes to the inherited setter, which ignores it. */
  function Assign(acc: map<string, string>, key: string, value: string): map<string, string> {
    if key == "__proto__" then acc else acc[key := value]
  }

  /** The `reduce` over lines, each cut into a key and a value by `entry`,
      stopping at the first line that throws. */
  function FoldEntries(lines: seq<string>, acc: map<string, string>, entry: string -> Result<(string, string), ParseError>): Result<map<string, string>, ParseError>
    decreases |lines|
  {
    if lines == [] then Ok(acc)
    else
      match entry(lines[0])
      case Err(e) => Err(e)
      case Ok(kv) => FoldEntries(lines[1..], Assign(acc, kv.0, kv.1), entry)
  }

  /** The `reduce` over the header lines. */
  function FoldHeader(lines: seq<string>, acc: map<string, string>): Result<map<string, string>, ParseError> {
    FoldEntries(lines, acc, HeaderLine)
  }

  /** The header lines: the first chunk, trimmed, split on newlines. */
  function HeaderLines(chunk: string): seq<string> {
    Split(Trim(chunk), "\n")
  }

  // ---------------------------------------------------------------------
  // Sections

  /** The trimmed chunks that are not empty, in order. */
  function Bodies(chunks: seq<string>): seq<string> {
    if chunks == [] then []
    else
      var s := Trim(chunks[|chunks| - 1]);
      Bodies(chunks[..|chunks| - 1]) + (if s == "" then [] else [s])
  }

  /** The positions of the chunks that are not blank, in increasing order. */
  function NonBlankIndices(chunks: seq<string>): (r: seq<nat>)
    ensures forall k :: 0 <= k < |r| ==> r[k] < |chunks| && !Blank(chunks[r[k]])
    ensures forall j :: 0 <= j < |chunks| && !Blank(chunks[j]) ==> j in r
    ensures forall k, l :: 0 <= k < l < |r| ==> r[k] < r[l]
  {
    if chunks == [] then []
    else
      var n := |chunks| - 1;
      var init := chunks[..n];
      var r := NonBlankIndices(init);
      assert forall j :: 0 <= j < n ==> chunks[j] == init[j];
      if Blank(chunks[n]) then r
      else
        var r' := r + [n];
        assert forall k :: 0 <= k < |r| ==> r'[k] == r[k];
        r'
  }

  /** `replace(/##|###/g, '')`: scanning left to right, at each position the
      alternatives are tried in the order written and a match is deleted;
      a position where neither matches is kept. */
  function StripHeadingMarks(s: string): string
    decreases |s|
  {
    if |s| >= 2 && s[..2] == "##" then StripHeadingMarks(s[2..])
    else if |s| >= 3 && s[..3] == "###" then StripHeadingMarks(s[3..])
    else if s == [] then []
    else [s[0]] + StripHeadingMarks(s[1..])
  }

  /** The first line of a section, without heading marks, trimmed, encoded. */
  function SectionTitle(section: string, encode: string -> string): string {
    encode(Trim(StripHeadingMarks(Split(section, "\n")[0])))
  }

  /** `section.split('\n').slice(1).join('\n').trim()`. */
  function SectionContent(section: string): string {
    Trim(Join(Split(section, "\n")[1..], "\n"))
  }

  /** Every body through `f`, in order. */
  function Each(bodies: seq<string>, f: string -> string): (r: seq<string>)
    ensures |r| == |bodies|
  {
    if bodies == [] then []
    else Each(bodies[..|bodies| - 1], f) + [f(bodies[|bodies| - 1])]
  }

  /** The title of a section, as a function of the section. */
  function TitleOf(encode: string -> string): string -> string {
    body => SectionTitle(body, encode)
  }

  /** The rendered content of a section, as a function of the section. */
  function HtmlOf(md: string -> string): string -> string {
    body => md(SectionContent(body))
  }

  /** The title of each body, in order. */
  function Titles(bodies: seq<string>, encode: string -> string): seq<string> {
    Each(bodies, TitleOf(encode))
  }

  /** The rendered content of each body, in order. */
  function Rendered(bodies: seq<string>, md: string -> string): seq<string> {
    Each(bodies, HtmlOf(md))
  }

  lemma {:induction false} EachAppend(bodies: seq<string>, s: string, f: string -> string)
    ensures Each(bodies + [s], f) == Each(bodies, f) + [f(s)]
  {
    assert (bodies + [s])[..|bodies|] == bodies;
  }

  function SectionTitles(chunks: seq<string>, encode: string -> string): seq<string> {
    Titles(Bodies(chunks), encode)
  }

  function SectionsHtml(chunks: seq<string>, md: string -> string): seq<string> {
    Rendered(Bodies(chunks), md)
  }

  // ---------------------------------------------------------------------
  // Whole articles

  /** One article from its name and its raw text. */
  function ParseArticle(name: string, text: string, encode: string -> string, md: string -> string)
    : Result<Article, ParseError>
  {
    var chunks := Split(text, Delimiter);
    match FoldHeader(HeaderLines(chunks[0]), map[])
    case Err(e) => Err(e)
    case Ok(meta) => Ok(Article(meta, name, SectionTitles(chunks[1..], encode), SectionsHtml(chunks[1..], md)))
  }

  /** One listed file: its name without the first ".md", and the text read
      from that name with ".md" appended; a read that fails rejects. */
  function ParseFile(file: string, read: string -> Option<string>, encode: string -> string, md: string -> string)
    : Result<Article, ParseError>
  {
    var name := ArticleName(file);
    match read(name + ".md")
    case None => Err(ReadFailed(name + ".md"))
    case Some(text) => ParseArticle(name, text, encode, md)
  }

  /** ParseFile with its collaborators fixed. */
  function FileParser(read: string -> Option<string>, encode: string -> string, md: string -> string)
    : string -> Result<Article, ParseError>
  {
    file => ParseFile(file, read, encode, md)
  }

  /** Every listed file in order; the first article that fails fails all. */
  function ParseEach(files: seq<string>, parse: string -> Result<Article, ParseError>)
    : Result<seq<Article>, ParseError>
    decreases |files|
  {
    if files == [] then Ok([])
    else
      match parse(files[0])
      case Err(e) => Err(e)
      case Ok(a) =>
        match ParseEach(files[1..], parse)
        case Err(e) => Err(e)
        case Ok(rest) => Ok([a] + rest)
  }

  function ParseAll(files: seq<string>, read: string -> Option<string>, encode: string -> string, md: string -> string)
    : Result<seq<Article>, ParseError>
  {
    ParseEach(files, FileParser(read, encode, md))
  }

  function Prepend(done: seq<Article>, rest: Result<seq<Article>, ParseError>): Result<seq<Article>, ParseError> {
    match rest
    case Err(e) => Err(e)
    case Ok(more) => Ok(done + more)
  }

  /** One step of ParseEach, as the loop of ParseArticles takes it. */
  lemma {:induction false} ParseEachStep(files: seq<string>, parse: string -> Result<Article, ParseError>)
    requires files != []
    ensures var first := parse(files[0]);
      ParseEach(files, parse) ==
        if first.Err? then Err(first.error) else Prepend([first.value], ParseEach(files[1..], parse))
  {
  }

  lemma {:induction false} ParseArticleUnfold(name: string, text: string, encode: string -> string, md: string -> string)
    ensures var chunks := Split(text, Delimiter);
      var header := FoldHeader(HeaderLines(chunks[0]), map[]);
      ParseArticle(name, text, encode, md) ==
        if header.Err? then Err(header.error)
        else Ok(Article(header.value, name, SectionTitles(chunks[1..], encode), SectionsHtml(chunks[1..], md)))
  {
  }

  lemma {:induction false} PrependNothing(rest: Result<seq<Article>, ParseError>)
    ensures Prepend([], rest) == rest
  {
    if rest.Ok? { assert [] + rest.value == rest.value; }
  }

  lemma {:induction false} PrependAssoc(done: seq<Article>, a: Article, rest: Result<seq<Article>, ParseError>)
    ensures Prepend(done, Prepend([a], rest)) == Prepend(done + [a], rest)
  {
    if rest.Ok? {
      assert done + ([a] + rest.value) == (done + [a]) + rest.value;
    }
  }

  // ---------------------------------------------------------------------
  // The loops of parseArticles

  /** The header `reduce`, which assigns into its accumulator line by line. */
  method ParseHeader(chunk: string) returns (r: Result<map<string, string>, ParseError>)
    ensures r == FoldHeader(HeaderLines(chunk), map[])
  {
    var lines := Split(Trim(chunk), "\n");
    var acc: map<string, string> := map[];
    var i := 0;
    while i < |lines|
      invariant 0 <= i <= |lines|
      invariant FoldHeader(lines, map[]) == FoldHeader(lines[i..], acc)
    {
      var parts := Split(lines[i], ":");
      if |parts| < 2 {
        return Err(HeaderLineWithoutColon(lines[i]));
      }
      var key := Trim(parts[0]);
      var value := Trim(parts[1]);
      if key != "__proto__" {
        acc := acc[key := value];
      }
      assert lines[i..][1..] == lines[i + 1..];
      i := i + 1;
    }
    return Ok(acc);
  }

  /** The section loop: blank chunks are skipped with `continue`; every other
      chunk, trimmed, pushes `title` of it and `render` of it. `ParseOne`
      passes `TitleOf(encode)` and `HtmlOf(md)`, the computations of the
      loop body. */
  method ParseSections(chunks: seq<string>, title: string -> string, render: string -> string)
    returns (titles: seq<string>, html: seq<string>)
    ensures titles == Each(Bodies(chunks), title)
    ensures html == Each(Bodies(chunks), render)
  {
    titles, html := [], [];
    ghost var done: seq<string> := [];
    var i := 0;
    while i < |chunks|
      invariant 0 <= i <= |chunks|
      invariant done == Bodies(chunks[..i])
      invariant titles == Each(done, title)
      invariant html == Each(done, render)
    {
      BodiesStep(chunks, i);
      var section := Trim(chunks[i]);
      i := i + 1;
      if section == "" {
        continue;
      }
      EachAppend(done, section, title);
      EachAppend(done, section, render);
      titles := titles + [title(section)];
      html := html + [render(section)];
      done := done + [section];
    }
    assert chunks[..i] == chunks;
  }

  lemma {:induction false} BodiesStep(chunks: seq<string>, i: nat)
    requires i < |chunks|
    ensures var s := Trim(chunks[i]);
      Bodies(chunks[..i + 1]) == Bodies(chunks[..i]) + (if s == "" then [] else [s])
  {
    assert chunks[..i + 1][..i] == chunks[..i];
  }

  /** The body of the loop of `parseArticles` for one file's text. */
  method ParseOne(name: string, text: string, encode: string -> string, md: string -> string)
    returns (r: Result<Article, ParseError>)
    ensures r == ParseArticle(name, text, encode, md)
  {
    ParseArticleUnfold(name, text, encode, md);
    var chunks := Split(text, Delimiter);
    var meta := ParseHeader(chunks[0]);
    if meta.Err? {
      return Err(meta.error);
    }
    var titles, html := ParseSections(chunks[1..], TitleOf(encode), HtmlOf(md));
    return Ok(Article(meta.value, name, titles, html));
  }

  /** One iteration of the loop of `parseArticles`: read `<name>.md`, then
      parse its text. */
  method ParseListed(file: string, read: string -> Option<string>, encode: string -> string, md: string -> string)
    returns (r: Result<Article, ParseError>)
    ensures r == ParseFile(file, read, encode, md)
  {
    var name := ArticleName(file);
    var text := read(name + ".md");
    if text.None? {
      return Err(ReadFailed(name + ".md"));
    }
    r := ParseOne(name, text.value, encode, md);
  }

  /** `parseArticles`: strips each file name, reads `<name>.md`, and pushes
      one record per file; the first header error rejects the whole call. */
  method ParseArticles(files: seq<string>, read: string -> Option<string>, encode: string -> string, md: string -> string)
    returns (r: Result<seq<Article>, ParseError>)
    ensures r == ParseAll(files, read, encode, md)
  {
    ghost var parse := FileParser(read, encode, md);
    var articles: seq<Article> := [];
    var i := 0;
    assert files[i..] == files;
    PrependNothing(ParseEach(files, parse));
    while i < |files|
      invariant 0 <= i <= |files|
      invariant ParseEach(files, parse) == Prepend(articles, ParseEach(files[i..], parse))
    {
      ParseEachStep(files[i..], parse);
      assert files[i..][0] == files[i] && files[i..][1..] == files[i + 1..];
      var article := ParseListed(files[i], read, encode, md);
      if article.Err? {
        return Err(article.error);
      }
      PrependAssoc(articles, article.value, ParseEach(files[i + 1..], parse));
      articles := articles + [article.value];
      i := i + 1;
    }
    assert files[i..] == [];
    assert articles + [] == articles;
    return Ok(articles);
  }
}
