# Article compiler: a verified model

A small static-site generator turns Markdown articles into HTML pages. Each
article file has a `key: value` header, then body sections separated by the
`---` token. The generator parses every file into an article record, computes
for each article the list of "similar" articles (those that share an exact tag
and have a different title), and, before writing anything, empties its output
directory except for `.git` and its own `__generate` directory. The listing
pages show articles newest first.

This project models that core in Dafny and proves what it guarantees:

- `JsStrings` gives the JavaScript string operations the parser relies on:
  `trim` over the ECMAScript white-space set, `indexOf`, `split` with a string
  separator (leftmost, non-overlapping), `join`, and `replace` with a string
  pattern (first occurrence only).
- `ArticleParser` models `parseArticles`. The header `reduce`, the section
  loop and the per-file loop are methods with loop invariants. Each is proved
  equal to a specification function: `FoldHeader`, `SectionTitles` /
  `SectionsHtml`, `ParseArticle` and `ParseAll`.
- `ParserFacts` proves what those functions mean. It covers how a header line
  splits into key and value, when the header fold fails and which line it
  names, that the last line for a key wins and `__proto__` is never created,
  that sections line up with the non-blank chunks, how `/##|###/g` acts (the
  `###` alternative never fires), how file names lose their first `.md`, and
  that the corpus is all-or-nothing.
- `Similarity` models the `similar` filter and the `forEach` that builds each
  page's context. It proves that the filter is an order- and
  multiplicity-preserving restriction of the corpus, that it is symmetric,
  that it never includes the article itself, and exactly when it throws
  (for a non-empty corpus: some article in the corpus, or the page's own
  article, has no `tags`; an empty corpus never throws).
- `OutputClean` models the output directory as a class over its set of entry
  names. `Clean` is proved to leave exactly the reserved entries that were
  there.
- `DateOrder` models the newest-first sort as an in-place array sort on an
  abstract integer key. It is proved sorted and a permutation.

`marked.parse`, `encodeURIComponent` and the file reader are function
parameters (`md`, `encode`, `read`). The reader returns either the file's
text or None when `fs.readFile` would reject (a missing file, a directory).
A failed read rejects the whole parse with `ReadFailed`, naming the path read.
Nothing else is assumed about the three parameters.

The model keeps these behaviours of the code as written:

- Each listed name is read with ".md" appended after its first ".md" is
  removed. So `notes.txt` is read as `notes.txt.md` and `a.md.bak` as
  `a.bak.md`, and if no such file exists the whole parse fails.
- A header line with a second `:` keeps only the text up to it
  (`date: 2024-01-01T10:30` has the value `2024-01-01T10`).
- A file whose header is empty, including an empty file, makes the whole
  parse fail. Its only header line is `""`, which has no `:`.
- Tags are compared untrimmed: `"a, rust"` has the tag `" rust"`.
- `### Title` is titled `# Title`.

## Model

| member | source | states |
|---|---|---|
| JsStrings.IsSpace | __generate/generate.js:33 | no contract of its own: the ECMAScript StrWhiteSpaceChar set, characterised through `Trim` and `TrimKeeps` |
| JsStrings.Trim | __generate/generate.js:33 | the result is empty exactly for a blank string, is no longer than the input, and otherwise starts and ends with a non-space character |
| JsStrings.TrimIdempotent | __generate/generate.js:33 | `.trim()` is idempotent: trimming a trimmed string changes nothing |
| JsStrings.TrimKeeps | __generate/generate.js:33 | trim keeps exactly the text from the first to the last non-space character |
| JsStrings.IndexOf | __generate/generate.js:14 | a position it answers is an occurrence; that it is the leftmost one, and None only when there is none, is `IndexOfLeftmost` |
| JsStrings.IndexOfLeftmost | __generate/generate.js:14 | `indexOf` finds the leftmost occurrence, and None means there is no occurrence |
| JsStrings.Split | __generate/generate.js:21 | `split` yields at least one piece, and no piece contains the separator |
| JsStrings.JoinSplit | __generate/generate.js:38 | joining the pieces of a split with the same separator gives back the string |
| JsStrings.SplitFirst | __generate/generate.js:24 | the first piece is the text before the first separator; the other pieces are the split of the text after it, and joined they are that text |
| JsStrings.Join | __generate/generate.js:38 | no contract of its own: `Array.prototype.join`, characterised by `JoinSplit` |
| JsStrings.ReplaceFirst | __generate/generate.js:14 | no contract of its own: `replace` with a string pattern, characterised by `ReplaceFirstInverse` |
| JsStrings.ReplaceFirstInverse | __generate/generate.js:14 | `replace` with a string removes only the first occurrence; putting the pattern back restores the string; without an occurrence nothing changes |
| ArticleParser.Fields | __generate/generate.js:48-53 | the record's properties are the header keys plus `title`, `sectionTitles` and `sections`; those three are written last and always win over header keys |
| ArticleParser.ArticleName | __generate/generate.js:14 | no contract of its own: the first ".md" of the name removed, characterised by `ParserFacts.ArticleNameOfMarkdownFile` and `ParserFacts.ArticleNameWithoutExtension` |
| ArticleParser.HeaderLines | __generate/generate.js:23 | no contract of its own: the trimmed header chunk split on "\n"; characterised by `ParserFacts.BlankHeaderFails`, `ArticleFailsOnMalformedHeader` and `ArticleHeader` |
| ArticleParser.HeaderLine | __generate/generate.js:24-25 | a header line throws exactly when it has no ':', and the error names that line |
| ArticleParser.Assign | __generate/generate.js:25 | no contract of its own: assigning a string to "__proto__" is a no-op and any other key is set; characterised by `ParserFacts.FoldKeys` and `ParserFacts.FoldLastWins` |
| ArticleParser.FoldEntries | __generate/generate.js:23-27 | no contract of its own: the `reduce` over the lines, stopping at the first line that throws; characterised by `ParserFacts.FoldSucceeds`, `FoldFirstError`, `FoldErrorFromLine`, `FoldKeeps`, `FoldLastWins` and `FoldKeys` |
| ArticleParser.FoldHeader | __generate/generate.js:23-27 | no contract of its own: the reduce with `HeaderLine`, characterised by `ParserFacts.ArticleFailsOnMalformedHeader` and `ParserFacts.ArticleHeader` |
| ArticleParser.Bodies | __generate/generate.js:32-35 | no contract of its own: the trimmed non-blank chunks, characterised against `NonBlankIndices` by `ParserFacts.BodiesAreNonBlankChunks` |
| ArticleParser.NonBlankIndices | __generate/generate.js:32-35 | the positions of exactly the non-blank chunks, strictly increasing |
| ArticleParser.StripHeadingMarks | __generate/generate.js:37 | no contract of its own: `replace(/##|###/g, '')` scanned left to right, characterised by `ParserFacts.StripHeadingMarksDeletesPairs`, `StripHeadingMarksLeavesNoPair`, `StripHashRun` and `ThreeHashes` |
| ArticleParser.SectionTitle | __generate/generate.js:37 | no contract of its own: the first line, marks stripped, trimmed and encoded; characterised by `ParserFacts.SectionLines` and `ParserFacts.SingleLineSection` |
| ArticleParser.SectionContent | __generate/generate.js:38 | no contract of its own: the remaining lines joined and trimmed, characterised by `ParserFacts.SectionLines` and `ParserFacts.SingleLineSection` |
| ArticleParser.SectionTitles | __generate/generate.js:29-46 | no contract of its own: the `sectionTitles` array, characterised by `ParserFacts.ArticleSections` and produced by `ParseSections` |
| ArticleParser.SectionsHtml | __generate/generate.js:29-46 | no contract of its own: the `sectionsHTML` array, characterised by `ParserFacts.ArticleSections` and produced by `ParseSections` |
| ArticleParser.ParseArticle | __generate/generate.js:19-53 | no contract of its own: one article from its text, characterised by `ParserFacts.ArticleFailsOnMalformedHeader`, `ArticleErrorIsHeaderLine`, `ArticleHeader`, `ArticleSections` and `ArticleRecord` |
| ArticleParser.ParseFile | __generate/generate.js:14-19 | no contract of its own: read `<name>.md` and parse it, characterised by `ParserFacts.ParseFileReads` |
| ArticleParser.ParseEach | __generate/generate.js:18-54 | no contract of its own: the per-file loop over any per-file parse, stopping at the first rejection; characterised by `ParserFacts.ParseEachPerFile` and `ParserFacts.ParseEachFirstError` |
| ArticleParser.ParseAll | __generate/generate.js:13-57 | no contract of its own: `parseArticles` as a function, characterised by `ParserFacts.ParseAllPerFile` and produced by `ParseArticles` |
| ArticleParser.ParseHeader | __generate/generate.js:23-27 | the imperative reduce over the header lines equals the fold `FoldHeader`, including its error |
| ArticleParser.ParseSections | __generate/generate.js:29-46 | the section loop, with its `continue` on blank chunks, pushes the per-section title and rendering of exactly the trimmed non-blank chunks, in order (`Each` over `Bodies`); with `TitleOf(encode)` and `HtmlOf(md)` these are `SectionTitles` and `SectionsHtml` |
| ArticleParser.ParseOne | __generate/generate.js:21-53 | the loop body for one file's text equals `ParseArticle` |
| ArticleParser.ParseListed | __generate/generate.js:19-53 | one iteration reads `<name>.md`, rejecting when the read fails, then parses it; equal to `ParseFile` |
| ArticleParser.ParseArticles | __generate/generate.js:13-57 | `parseArticles` equals `ParseAll`: one record per listed file, and the first failing file rejects the whole call |
| ParserFacts.HeaderLineFields | __generate/generate.js:24-25 | the key is the trimmed text before the first ':'; the value is the trimmed text between the first and second ':' or the end of the line |
| ParserFacts.SecondColonDropsRest | __generate/generate.js:24-25 | text after a second ':' is lost from the value |
| ParserFacts.FoldSucceeds | __generate/generate.js:23-27 | the reduce succeeds exactly when every line is well formed |
| ParserFacts.FoldFirstError | __generate/generate.js:23-27 | a failing reduce reports the first malformed line |
| ParserFacts.FoldErrorFromLine | __generate/generate.js:23-27 | every error of the reduce is the error thrown by one of its lines |
| ParserFacts.FoldKeeps | __generate/generate.js:25 | a key that no line sets keeps its accumulator value |
| ParserFacts.FoldLastWins | __generate/generate.js:25 | when a key repeats, the last line that sets it wins |
| ParserFacts.FoldKeys | __generate/generate.js:25 | the resulting keys are the accumulator's plus those the lines set, never "__proto__" |
| ParserFacts.ArticleFailsOnMalformedHeader | __generate/generate.js:21-27 | an article fails exactly when one of its header lines has no ':', and the error names the first such line |
| ParserFacts.BlankHeaderFails | __generate/generate.js:21-25 | an empty or blank header, including an empty file, fails on the line "" |
| ParserFacts.ArticleHeader | __generate/generate.js:23-27 | a parsed article's header keys are exactly the keys its lines set (never "__proto__"), each with the value of the last line that sets it |
| ParserFacts.BodiesAreNonBlankChunks | __generate/generate.js:32-35 | the section bodies are the trimmed non-blank chunks, one per such chunk, in chunk order |
| ParserFacts.ArticleSections | __generate/generate.js:29-46 | section titles and sections have the same length, and entry k of each comes from the k-th non-blank chunk after the header |
| ParserFacts.ArticleRecord | __generate/generate.js:48-53 | the record's title is the file's name whatever the header says, and its section fields are the parsed ones |
| ParserFacts.SectionLines | __generate/generate.js:37-38 | the title comes from the text before the first line break, and the content is the rest, trimmed |
| ParserFacts.SingleLineSection | __generate/generate.js:37-38 | a one-line section has a title and empty content |
| ParserFacts.StripHeadingMarksDeletesPairs | __generate/generate.js:37 | the regex deletes the non-overlapping "##" occurrences found left to right; "###" never matches separately |
| ParserFacts.StripHeadingMarksLeavesNoPair | __generate/generate.js:37 | no "##" is left afterwards |
| ParserFacts.StripHashRun | __generate/generate.js:37 | an even run of '#' vanishes, and an odd run leaves one '#' |
| ParserFacts.ThreeHashes | __generate/generate.js:37 | "###" followed by other text becomes "#" followed by that text |
| ParserFacts.ArticleNameOfMarkdownFile | __generate/generate.js:14 | only the first ".md" of a file name is removed, wherever it is |
| ParserFacts.ArticleNameWithoutExtension | __generate/generate.js:14 | a name without ".md" is kept whole |
| ParserFacts.ArticleErrorIsHeaderLine | __generate/generate.js:21-27 | once the text is read, an article can only fail on a header line without ':' |
| ParserFacts.ParseFileReads | __generate/generate.js:14-19 | a listed file is read under its stripped name with ".md" appended; it fails with `ReadFailed` exactly when that read fails, and otherwise is the article parsed from the text read |
| ParserFacts.ParseEachPerFile | __generate/generate.js:18-54 | the loop succeeds exactly when every file parses, and then gives each file's article in listing order |
| ParserFacts.ParseEachFirstError | __generate/generate.js:18-54 | a failing loop reports the error of the first failing file |
| ParserFacts.ParseAllPerFile | __generate/generate.js:13-57 | `parseArticles` succeeds exactly when every file is read and parses; its i-th article is that file's, and the first failing file's error is the result |
| Similarity.Tags | __generate/generate.js:88 | no contract of its own: the `tags` property read by `a.tags` and `article.tags`, None when the header has none; characterised by `TagsIsField` and `SimilarFails` |
| Similarity.TagList | __generate/generate.js:88 | no contract of its own: `tags.split(',')`, characterised by `TagsAreNotTrimmed` |
| Similarity.TagsIsField | __generate/generate.js:88 | the `tags` read is the record's `tags` property, which comes from the header |
| Similarity.SharesTag | __generate/generate.js:88 | the nested `some` is true exactly when the two tag lists share an element |
| Similarity.Related | __generate/generate.js:88-89 | no contract of its own: the filter callback, characterised by `SimilarMembers` and `SimilarSymmetric` |
| Similarity.Similar | __generate/generate.js:87-90 | no contract of its own: the filter, reading each article's tags and then the page article's; characterised by `SimilarFails`, `SimilarError`, `SimilarIsFilter`, `SimilarMembers`, `SimilarExcludesSelf` and `SimilarSymmetric` |
| Similarity.SimilarFails | __generate/generate.js:87-90 | the filter throws exactly when the corpus is non-empty and either the page's article or some corpus article has no `tags` |
| Similarity.SimilarError | __generate/generate.js:87-88 | the error names the first untagged corpus article, or the page's own article when it is the one without tags |
| Similarity.SimilarIsFilter | __generate/generate.js:87-90 | the similar list is a subsequence of the corpus; it holds only corpus articles, and each one as many times as in the corpus if related, else zero |
| Similarity.SimilarKeepsOrder | __generate/generate.js:87-90 | the similar list keeps corpus order and holds only related corpus articles |
| Similarity.SimilarCounts | __generate/generate.js:87-90 | each related article keeps its multiplicity, and each unrelated one is dropped |
| Similarity.SimilarMembers | __generate/generate.js:87-90 | a corpus article is similar exactly when it shares a raw tag with the page's article and has another title |
| Similarity.SimilarExcludesSelf | __generate/generate.js:89 | no similar article has the page's own title, so the article never lists itself |
| Similarity.SimilarSymmetric | __generate/generate.js:87-90 | within one corpus, a is similar to x exactly when x is similar to a |
| Similarity.TagsAreNotTrimmed | __generate/generate.js:88 | tags are split on ',' as written, with no trimming |
| Similarity.PagesOf | __generate/generate.js:84-93 | no contract of its own: the `forEach` over the articles building page contexts, stopping at the first throw; characterised by `PagesKeepError` and `PagesPerArticle` |
| Similarity.Contexts | __generate/generate.js:84-93 | no contract of its own: the `forEach` with `articles` as the corpus, characterised by `ContextsPerArticle` and `PagesAllOrNothing` and produced by `ArticlePages` |
| Similarity.PagesKeepError | __generate/generate.js:84-93 | once one page's filter throws, the `forEach` result stays that error |
| Similarity.PagesPerArticle | __generate/generate.js:84-93 | there is one context per article, in order, with that article's list, and there are none as soon as one list fails |
| Similarity.ArticlePages | __generate/generate.js:84-93 | the `forEach` loop builds exactly `Contexts(articles, articles)` |
| Similarity.ContextsPerArticle | __generate/generate.js:84-93 | each page context is its article together with that article's similar list |
| Similarity.PagesAllOrNothing | __generate/generate.js:84-93 | page generation fails exactly when some article has no tags |
| OutputClean.Reserved | __generate/generate.js:64 | no contract of its own: the test `name !== '.git' && name !== '__generate'`, negated; characterised by `Cleaned` and `CleanedSize` |
| OutputClean.Cleaned | __generate/generate.js:62-68 | what is left is a subset of the entries; an entry survives exactly when it was there and is `.git` or `__generate` |
| OutputClean.CleanedIdempotent | __generate/generate.js:62-68 | cleaning a cleaned directory changes nothing |
| OutputClean.CleanedSize | __generate/generate.js:64 | at most the two reserved entries remain |
| OutputClean.OutputDir.ReadDir | __generate/generate.js:62 | `readdir` lists every entry exactly once |
| OutputClean.OutputDir.Remove | __generate/generate.js:66 | a forced recursive `rm` removes the entry, and a missing one is no error |
| OutputClean.OutputDir.Clean | __generate/generate.js:62-68 | afterwards the directory holds exactly the reserved entries it held before |
| DateOrder.SortNewestFirst | __generate/pages/index.js:19 | the articles are sorted newest first and are a permutation of the input |

## Left out

- File system and process I/O are left out. Reading a file is the parameter
  `read`, which either succeeds with the text or fails. The error message
  and the `./articles/` prefix of the path are not modelled. Copying images, Tailwind processing, `live-server`, `git`
  and `console.log` are not modelled.
- `marked.parse` and `encodeURIComponent` are uninterpreted parameters, so
  nothing about HTML rendering or URI encoding is proved.
- HTML templating of the article and index pages is not modelled beyond the
  context each page receives.
- Strings are sequences of Unicode scalar values, not UTF-16 code units, so
  surrogate pairs are not modelled.
- Asynchrony is not modelled: the `readdir` and `rm` calls run in sequence,
  as the `await`s order them. The page `forEach` calls the page generator
  without awaiting it, and that concurrency is not modelled either.
- The JavaScript errors carry only a `TypeError` message ("Cannot read
  properties of undefined"). The model's `HeaderLineWithoutColon(line)` and
  `MissingTags(title)` name the offending header line and article instead.
  That message text is not modelled, and neither is the stack trace.
- An error in `generate` is caught and logged. The model returns it as an
  `Err` value.
- The per-file loop strips the `.md` from each name inside the loop, not in
  a separate `map` pass first. Both run the same pure function on each name
  in order, so the result is the same.
- `readdir` order is arbitrary in the model: `ReadDir` picks the names in any
  order, and the directory listing of articles is taken as given.
- DateOrder.SortNewestFirst: does not state that the sort is stable, and
  does not model `new Date(...)` parsing or NaN dates. Each article's date is
  an abstract integer key.
- The article page sorts its similar list at
  __generate/pages/article/page.js:58 with the same comparator as the index
  page at __generate/pages/index.js:19. `SortNewestFirst` covers both.
