/**
  The relationship resolver of the article compiler: every article page
  lists the articles "similar" to it, those whose comma-separated tags share
  one exact string with its own and whose title differs from its own.
 */
module Similarity {
  import opened Results
  import opened JsStrings
  import opened ArticleParser

  /** Calling `.split` on the `tags` of an article whose header has none. */
  datatype TagError = MissingTags(title: string)

  /** The `tags` property of an article record: it comes from the header,
      since the three record fields written last are not called `tags`. */
  function Tags(a: Article): Option<string> {
    if "tags" in a.meta then Some(a.meta["tags"]) else None
  }

  /** Tags reads the record's `tags` property: it is there exactly when the
      record has one, and it is that property's text. */
  lemma TagsIsField(a: Article)
    ensures Tags(a).Some? <==> "tags" in Fields(a)
    ensures Tags(a).Some? ==> Fields(a)["tags"] == Text(Tags(a).value)
  {
  }

  /** `tags.split(',')`, with no trimming of the pieces. */
  function TagList(a: Article): seq<string>
    requires Tags(a).Some?
  {
    Split(Tags(a).value, ",")
  }

  /** `ks.some(k => xs.some(keyword => keyword === k))`. */
  function SharesTag(ks: seq<string>, xs: seq<string>): (r: bool)
    ensures r <==> exists i, j :: 0 <= i < |ks| && 0 <= j < |xs| && ks[i] == xs[j]
  {
    if ks == [] then false
    else if ks[0] in xs then true
    else
      var rest := SharesTag(ks[1..], xs);
      assert forall i :: 1 <= i < |ks| ==> ks[i] == ks[1..][i - 1];
      rest
  }

  /** The filter's condition for article `a` on the page of `x`. */
  predicate Related(a: Article, x: Article)
    requires Tags(a).Some? && Tags(x).Some?
  {
    SharesTag(TagList(a), TagList(x)) && a.title != x.title
  }

  /** `articles.filter(a => <a shares a tag with x> && a.title !== x.title)`.
      For each article in turn its own tags are read first and then those of
      `x`; either one missing throws. */
  function Similar(corpus: seq<Article>, x: Article): Result<seq<Article>, TagError>
    decreases |corpus|
  {
    if corpus == [] then Ok([])
    else
      var a := corpus[0];
      if Tags(a).None? then Err(MissingTags(a.title))
      else if Tags(x).None? then Err(MissingTags(x.title))
      else
        match Similar(corpus[1..], x)
        case Err(e) => Err(e)
        case Ok(rest) => Ok(if Related(a, x) then [a] + rest else rest)
  }

  /** `r` is `s` with some elements left out, the rest in their order. */
  predicate IsSubsequence<T(==)>(r: seq<T>, s: seq<T>)
    decreases |s|
  {
    if r == [] then true
    else if s == [] then false
    else if r[0] == s[0] then IsSubsequence(r[1..], s[1..])
    else IsSubsequence(r, s[1..])
  }

  predicate AllTagged(corpus: seq<Article>) {
    forall k :: 0 <= k < |corpus| ==> Tags(corpus[k]).Some?
  }

  // ---------------------------------------------------------------------
  // Properties

  /** The filter throws exactly when the corpus is not empty and some article
      in it, or `x`, has no tags. */
  lemma {:induction false} SimilarFails(corpus: seq<Article>, x: Article)
    ensures Similar(corpus, x).Err? <==> corpus != [] && (Tags(x).None? || !AllTagged(corpus))
    decreases |corpus|
  {
    if corpus != [] && Tags(corpus[0]).Some? && Tags(x).Some? {
      SimilarFails(corpus[1..], x);
      assert forall k :: 1 <= k < |corpus| ==> corpus[k] == corpus[1..][k - 1];
    }
  }

  /** Which article the error names: the first one without tags, unless `x`
      has none, in which case the very first check already fails. */
  lemma {:induction false} SimilarError(corpus: seq<Article>, x: Article, i: nat)
    requires i < |corpus| && Tags(corpus[i]).None?
    requires forall k :: 0 <= k < i ==> Tags(corpus[k]).Some?
    ensures Tags(x).Some? ==> Similar(corpus, x) == Err(MissingTags(corpus[i].title))
    ensures Tags(x).None? ==> Similar(corpus, x) == Err(MissingTags(if i == 0 then corpus[0].title else x.title))
    decreases i
  {
    if i > 0 && Tags(x).Some? {
      assert forall k :: 0 <= k < i - 1 ==> corpus[1..][k] == corpus[k + 1];
      SimilarError(corpus[1..], x, i - 1);
    }
  }

  /** The similar list of `x` is the corpus restricted to the articles related
      to `x`: it keeps their order and their multiplicity and holds nothing
      else. */
  lemma SimilarIsFilter(corpus: seq<Article>, x: Article)
    requires Similar(corpus, x).Ok?
    ensures AllTagged(corpus) && (corpus != [] ==> Tags(x).Some?)
    ensures IsSubsequence(Similar(corpus, x).value, corpus)
    ensures forall a :: a in Similar(corpus, x).value ==> a in corpus
    ensures forall a :: a in corpus ==>
      multiset(Similar(corpus, x).value)[a] == if Related(a, x) then multiset(corpus)[a] else 0
  {
    SimilarFails(corpus, x);
    SimilarKeepsOrder(corpus, x);
    SimilarCounts(corpus, x);
  }

  lemma {:induction false} SimilarKeepsOrder(corpus: seq<Article>, x: Article)
    requires Similar(corpus, x).Ok?
    ensures IsSubsequence(Similar(corpus, x).value, corpus)
    ensures forall a :: a in Similar(corpus, x).value ==>
      a in corpus && Tags(a).Some? && Tags(x).Some? && Related(a, x)
    decreases |corpus|
  {
    if corpus != [] {
      var a, tail := corpus[0], corpus[1..];
      SimilarKeepsOrder(tail, x);
      var rest := Similar(tail, x).value;
      var r := Similar(corpus, x).value;
      assert forall b :: b in tail ==> b in corpus;
      if Related(a, x) {
        assert r == [a] + rest;
        assert r[1..] == rest;
      } else {
        assert r == rest && a !in rest;
      }
    }
  }

  lemma {:induction false} SimilarCounts(corpus: seq<Article>, x: Article)
    requires Similar(corpus, x).Ok?
    ensures AllTagged(corpus) && (corpus != [] ==> Tags(x).Some?)
    ensures forall a :: a in corpus ==>
      multiset(Similar(corpus, x).value)[a] == if Related(a, x) then multiset(corpus)[a] else 0
    decreases |corpus|
  {
    if corpus != [] {
      var a, tail := corpus[0], corpus[1..];
      SimilarFails(corpus, x);
      SimilarCounts(tail, x);
      SimilarKeepsOrder(tail, x);
      var rest := Similar(tail, x).value;
      var r := Similar(corpus, x).value;
      assert corpus == [a] + tail;
      assert multiset(r) == (if Related(a, x) then multiset{a} else multiset{}) + multiset(rest);
      forall b | b in corpus
        ensures multiset(r)[b] == if Related(b, x) then multiset(corpus)[b] else 0
      {
        if b !in tail {
          assert multiset(tail)[b] == 0;
          assert multiset(rest)[b] == 0;
        }
      }
    }
  }

  /** Membership: an article of the corpus is listed on the page of `x`
      exactly when it shares a raw tag with `x` and has another title. */
  lemma SimilarMembers(corpus: seq<Article>, x: Article, a: Article)
    requires Similar(corpus, x).Ok? && a in corpus
    ensures Tags(a).Some? && Tags(x).Some?
    ensures a in Similar(corpus, x).value <==> SharesTag(TagList(a), TagList(x)) && a.title != x.title
  {
    SimilarIsFilter(corpus, x);
    var k :| 0 <= k < |corpus| && corpus[k] == a;
    assert Tags(corpus[k]).Some?;
  }

  /** No article is similar to itself, nor to another with its title. */
  lemma SimilarExcludesSelf(corpus: seq<Article>, x: Article)
    requires Similar(corpus, x).Ok?
    ensures forall a :: a in Similar(corpus, x).value ==> a.title != x.title
    ensures x !in Similar(corpus, x).value
  {
    SimilarIsFilter(corpus, x);
    forall a | a in Similar(corpus, x).value ensures a.title != x.title {
      SimilarMembers(corpus, x, a);
    }
  }

  /** Similarity is symmetric within one corpus. */
  lemma SimilarSymmetric(corpus: seq<Article>, a: Article, x: Article)
    requires a in corpus && x in corpus && Similar(corpus, x).Ok?
    ensures Similar(corpus, a).Ok?
    ensures a in Similar(corpus, x).value <==> x in Similar(corpus, a).value
  {
    SimilarFails(corpus, x);
    SimilarFails(corpus, a);
    var i :| 0 <= i < |corpus| && corpus[i] == a;
    var j :| 0 <= j < |corpus| && corpus[j] == x;
    assert Tags(corpus[i]).Some? && Tags(corpus[j]).Some?;
    SimilarMembers(corpus, x, a);
    SimilarMembers(corpus, a, x);
  }

  /** Tags are compared as written: `"a, rust"` has the tag `" rust"`, which
      does not match `"rust"`. */
  lemma {:induction false} TagsAreNotTrimmed(first: string, second: string)
    requires ',' !in first && ',' !in second
    ensures Split(first + "," + second, ",") == [first, second]
  {
    var s := first + "," + second;
    var i := |first|;
    assert s[..i] == first && s[i] == ',';
    IndexOfChar(s, ',', i);
    assert s[i + 1..] == second;
    IndexOfNoChar(second, ',');
  }

  // ---------------------------------------------------------------------
  // The article pages

  /** What one article page is rendered from: `{...article, similar}`. */
  datatype PageContext = PageContext(article: Article, similar: seq<Article>)

  /** The contexts of the pages of `xs`, in order, each with the list
      `similar` gives for its article; the first failing filter stops the
      `forEach`. */
  function PagesOf(xs: seq<Article>, similar: Article -> Result<seq<Article>, TagError>): Result<seq<PageContext>, TagError>
    decreases |xs|
  {
    if xs == [] then Ok([])
    else
      var x := xs[|xs| - 1];
      match PagesOf(xs[..|xs| - 1], similar)
      case Err(e) => Err(e)
      case Ok(pages) =>
        match similar(x)
        case Err(e) => Err(e)
        case Ok(s) => Ok(pages + [PageContext(x, s)])
  }

  /** The similar list of an article, against `corpus`. */
  function SimilarIn(corpus: seq<Article>): Article -> Result<seq<Article>, TagError> {
    x => Similar(corpus, x)
  }

  /** The contexts of the pages of `xs`, each against `corpus`. */
  function Contexts(corpus: seq<Article>, xs: seq<Article>): Result<seq<PageContext>, TagError> {
    PagesOf(xs, SimilarIn(corpus))
  }

  /** Once a prefix of the pages fails, so does every longer one. */
  lemma {:induction false} PagesKeepError(xs: seq<Article>, similar: Article -> Result<seq<Article>, TagError>, n: nat)
    requires n <= |xs| && PagesOf(xs[..n], similar).Err?
    ensures PagesOf(xs, similar) == PagesOf(xs[..n], similar)
    decreases |xs| - n
  {
    if n < |xs| {
      var m := |xs| - 1;
      assert xs[..m][..n] == xs[..n];
      PagesKeepError(xs[..m], similar, n);
      assert xs[..|xs|] == xs;
    } else {
      assert xs[..n] == xs;
    }
  }

  /** One context per article, in order, each with the list `similar` gives
      for it; and none at all as soon as `similar` fails for one. */
  lemma {:induction false} PagesPerArticle(xs: seq<Article>, similar: Article -> Result<seq<Article>, TagError>)
    ensures PagesOf(xs, similar).Ok? <==> forall k :: 0 <= k < |xs| ==> similar(xs[k]).Ok?
    ensures PagesOf(xs, similar).Ok? ==>
      var pages := PagesOf(xs, similar).value;
      |pages| == |xs| &&
      forall k :: 0 <= k < |xs| ==> pages[k] == PageContext(xs[k], similar(xs[k]).value)
    decreases |xs|
  {
    if xs != [] {
      var m := |xs| - 1;
      PagesPerArticle(xs[..m], similar);
      assert forall k :: 0 <= k < m ==> xs[..m][k] == xs[k];
    }
  }

  /** The `forEach` over the articles, building each page's context. */
  method ArticlePages(articles: seq<Article>) returns (r: Result<seq<PageContext>, TagError>)
    ensures r == Contexts(articles, articles)
  {
    var pages: seq<PageContext> := [];
    var i := 0;
    while i < |articles|
      invariant 0 <= i <= |articles|
      invariant Contexts(articles, articles[..i]) == Ok(pages)
    {
      var x := articles[i];
      assert articles[..i + 1][..i] == articles[..i] && articles[..i + 1][i] == x;
      var similar := Similar(articles, x);
      if similar.Err? {
        PagesKeepError(articles, SimilarIn(articles), i + 1);
        return Err(similar.error);
      }
      pages := pages + [PageContext(x, similar.value)];
      i := i + 1;
    }
    assert articles[..i] == articles;
    return Ok(pages);
  }

  /** One context per article, in order, each with that article's similar
      list; and no page at all as soon as one filter fails. */
  lemma ContextsPerArticle(corpus: seq<Article>, xs: seq<Article>)
    ensures Contexts(corpus, xs).Ok? <==> forall k :: 0 <= k < |xs| ==> Similar(corpus, xs[k]).Ok?
    ensures Contexts(corpus, xs).Ok? ==>
      var pages := Contexts(corpus, xs).value;
      |pages| == |xs| &&
      forall k :: 0 <= k < |xs| ==> pages[k] == PageContext(xs[k], Similar(corpus, xs[k]).value)
  {
    PagesPerArticle(xs, SimilarIn(corpus));
  }

  /** Page generation is all or nothing: it fails exactly when some article
      has no tags. */
  lemma PagesAllOrNothing(articles: seq<Article>)
    ensures Contexts(articles, articles).Err? <==> !AllTagged(articles)
  {
    ContextsPerArticle(articles, articles);
    if !AllTagged(articles) {
      SimilarFails(articles, articles[0]);
    } else {
      forall k | 0 <= k < |articles| ensures Similar(articles, articles[k]).Ok? {
        SimilarFails(articles, articles[k]);
      }
    }
  }
}
