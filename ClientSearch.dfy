/** The article search of js/main.js: a case-insensitive substring filter
    over the titles and excerpts of the loaded index entries. */
module ClientSearch {
  import opened Text
  import opened ContentIndex

  /** A query is blank when it is absent or only whitespace. */
  predicate Blank(query: Option<string>) {
    query.None? || Trim(query.value, IsJsSpace) == []
  }

  /** An article matches when its title, or else its excerpt, is non-empty
      and contains the lower-cased query; the query itself is not trimmed. */
  predicate Matches(a: Article, query: string, lower: string -> string) {
    (a.title != [] && Contains(lower(a.title), lower(query)))
    || (a.excerpt != [] && Contains(lower(a.excerpt), lower(query)))
  }

  /** The articles that match, in their original order. */
  function Filter(articles: seq<Article>, query: string, lower: string -> string): (r: seq<Article>)
    ensures |r| <= |articles|
    ensures forall a | a in r :: a in articles && Matches(a, query, lower)
    decreases |articles|
  {
    if articles == [] then []
    else (if Matches(articles[0], query, lower) then [articles[0]] else []) + Filter(articles[1..], query, lower)
  }

  /** `searchArticles`: a blank query returns the list itself, any other
      query the matching articles. */
  function SearchArticles(query: Option<string>, articles: seq<Article>, lower: string -> string): (r: seq<Article>)
    ensures Blank(query) ==> r == articles
    ensures !Blank(query) ==> forall a | a in r :: a in articles && Matches(a, query.value, lower)
  {
    if Blank(query) then articles else Filter(articles, query.value, lower)
  }

  /** Every matching article is kept: membership in the result is exactly
      membership in the input plus a match. */
  lemma {:induction false} FilterKeepsMatches(articles: seq<Article>, query: string, lower: string -> string)
    ensures forall a :: a in Filter(articles, query, lower) <==> a in articles && Matches(a, query, lower)
    decreases |articles|
  {
    if articles != [] {
      FilterKeepsMatches(articles[1..], query, lower);
      assert articles == [articles[0]] + articles[1..];
    }
  }

  /** Filtering a concatenation filters each part and keeps them in order,
      so the relative order of the kept articles is that of the input. */
  lemma {:induction false} FilterAppend(xs: seq<Article>, ys: seq<Article>, query: string, lower: string -> string)
    ensures Filter(xs + ys, query, lower) == Filter(xs, query, lower) + Filter(ys, query, lower)
    decreases |xs|
  {
    if xs == [] {
      assert xs + ys == ys;
    } else {
      assert (xs + ys)[0] == xs[0] && (xs + ys)[1..] == xs[1..] + ys;
      FilterAppend(xs[1..], ys, query, lower);
    }
  }

  /** Each article occurs in the result as often as in the input when it
      matches, and not at all otherwise: nothing is dropped, duplicated or
      invented. */
  lemma {:induction false} FilterCounts(articles: seq<Article>, query: string, lower: string -> string, a: Article)
    ensures multiset(Filter(articles, query, lower))[a] == if Matches(a, query, lower) then multiset(articles)[a] else 0
    decreases |articles|
  {
    if articles != [] {
      FilterCounts(articles[1..], query, lower, a);
      assert articles == [articles[0]] + articles[1..];
    }
  }

  /** `r` can be obtained from `s` by deleting elements. */
  predicate IsSubsequence(r: seq<Article>, s: seq<Article>)
    decreases |s|
  {
    if r == [] then true
    else if s == [] then false
    else if r[0] == s[0] then IsSubsequence(r[1..], s[1..])
    else IsSubsequence(r, s[1..])
  }

  /** The filter result is an order-preserving sublist of the input. */
  lemma {:induction false} FilterIsSubsequence(articles: seq<Article>, query: string, lower: string -> string)
    ensures IsSubsequence(Filter(articles, query, lower), articles)
    decreases |articles|
  {
    if articles != [] {
      var r := Filter(articles, query, lower);
      var rest := Filter(articles[1..], query, lower);
      FilterIsSubsequence(articles[1..], query, lower);
      if Matches(articles[0], query, lower) {
        assert r == [articles[0]] + rest;
        assert r[1..] == rest;
      } else {
        assert r == rest;
        SubsequenceSkip(rest, articles);
      }
    }
  }

  /** A sublist of the tail is a sublist of the whole list. */
  lemma {:induction false} SubsequenceSkip(r: seq<Article>, s: seq<Article>)
    requires s != [] && IsSubsequence(r, s[1..])
    ensures IsSubsequence(r, s)
    decreases |s|, 1
  {
    if r != [] && r[0] == s[0] {
      SubsequenceTail(r, s[1..]);
      SubsequenceSkip(r[1..], s[1..]);
    }
  }

  /** Dropping the head of a non-empty sublist keeps it a sublist. */
  lemma {:induction false} SubsequenceTail(r: seq<Article>, s: seq<Article>)
    requires r != [] && IsSubsequence(r, s)
    ensures s != [] && IsSubsequence(r[1..], s[1..])
    decreases |s|, 0
  {
    if r[0] != s[0] {
      SubsequenceTail(r, s[1..]);
      SubsequenceSkip(r[1..], s[1..]);
    }
  }

  /** A non-blank query that every article matches keeps the whole list,
      and one that none matches empties it. */
  lemma {:induction false} FilterExtremes(articles: seq<Article>, query: string, lower: string -> string)
    ensures (forall a | a in articles :: Matches(a, query, lower)) ==> Filter(articles, query, lower) == articles
    ensures (forall a | a in articles :: !Matches(a, query, lower)) ==> Filter(articles, query, lower) == []
    decreases |articles|
  {
    if articles != [] {
      FilterExtremes(articles[1..], query, lower);
      assert forall a | a in articles[1..] :: a in articles;
    }
  }
}
