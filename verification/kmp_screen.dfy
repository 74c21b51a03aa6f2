/**
 The search of app/Screen1/index.js (`handleSearch`, without the React state
 updates): keep the articles whose lowercased title contains the lowercased
 query, as decided by `kmpSearch`.

 `toLowerCase` is the parameter `lower`: the model does not fix how
 characters are case-mapped.
 */
module KmpScreen {
  import opened Text
  import Kmp

  /** The `filter` callback: the lowercased query occurs in the lowercased
      title. */
  function Keeps(query: string, lower: string -> string): Article -> bool
  {
    (a: Article) => Kmp.Occurs(lower(a.title), lower(query))
  }

  /** The articles the search shows, as a reference for `HandleSearch`. */
  function SearchResult(articles: seq<Article>, query: string, lower: string -> string): seq<Article>
  {
    Filter(articles, Keeps(query, lower))
  }

  /** `handleSearch`: runs `kmpSearch` on every article and keeps those for
      which it does not answer -1. */
  method HandleSearch(articles: seq<Article>, query: string, lower: string -> string)
    returns (filtered: seq<Article>)
    ensures filtered == SearchResult(articles, query, lower)
    ensures forall a :: a in filtered <==> a in articles && Kmp.Occurs(lower(a.title), lower(query))
  {
    filtered := [];
    for k := 0 to |articles|
      invariant filtered == Filter(articles[..k], Keeps(query, lower))
    {
      var title := lower(articles[k].title);
      var pattern := lower(query);
      var r := Kmp.KmpSearch(title, pattern);
      assert articles[..k + 1][..k] == articles[..k];
      if r != -1 {
        filtered := filtered + [articles[k]];
      }
    }
    assert articles[..|articles|] == articles;
    forall a
      ensures a in filtered <==> a in articles && Kmp.Occurs(lower(a.title), lower(query))
    {
      FilterMembership(articles, Keeps(query, lower), a);
    }
  }

  /** An empty query keeps every article, since the empty pattern occurs at
      index 0 of every title. */
  lemma EmptyQueryKeepsAll(articles: seq<Article>, lower: string -> string)
    requires lower([]) == []
    ensures SearchResult(articles, [], lower) == articles
  {
    forall a | a in articles
      ensures Keeps([], lower)(a)
    {
      assert Kmp.OccursAt(lower(a.title), [], 0);
    }
    FilterAll(articles, Keeps([], lower));
  }

  /** The result lists articles in the order they came in. */
  lemma ResultIsSubsequence(articles: seq<Article>, query: string, lower: string -> string)
    ensures IsSubsequence(SearchResult(articles, query, lower), articles)
  {
    FilterIsSubsequence(articles, Keeps(query, lower));
  }

  /** Only the title is consulted: two article lists that differ only in
      descriptions give results that differ only in descriptions. */
  lemma OnlyTitlesMatter(xs: seq<Article>, ys: seq<Article>, query: string, lower: string -> string)
    requires |xs| == |ys|
    requires forall t :: 0 <= t < |xs| ==> xs[t].title == ys[t].title
    ensures |SearchResult(xs, query, lower)| == |SearchResult(ys, query, lower)|
    ensures forall t :: 0 <= t < |SearchResult(xs, query, lower)| ==>
      SearchResult(xs, query, lower)[t].title == SearchResult(ys, query, lower)[t].title
  {
    FilterByTitle(xs, ys, Keeps(query, lower));
  }

  /** Queries are compared only after lowercasing. */
  lemma SameLoweredQuerySameResult(articles: seq<Article>, q1: string, q2: string, lower: string -> string)
    requires lower(q1) == lower(q2)
    ensures SearchResult(articles, q1, lower) == SearchResult(articles, q2, lower)
  {
    FilterCongruence(articles, Keeps(q1, lower), Keeps(q2, lower));
  }
}
