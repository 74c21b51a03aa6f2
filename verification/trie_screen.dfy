/**
 The pure parts of app/Screen2/index.js: building the title-to-trie map
 (`buildTrieMap`, without the save to storage) and the word search
 (`handleSearch`, without the React state updates).

 `toLowerCase` is the parameter `lower`; `split(' ')` is `Text.Split`.
 */
module TrieScreen {
  import opened Text
  import opened Trie

  /** `words.forEach(word => trie.insert(word))`. */
  function InsertAll(n: Node, words: seq<string>): Node
  {
    if |words| == 0 then n
    else Insert(InsertAll(n, words[..|words| - 1]), words[|words| - 1])
  }

  /** Inserting a list of words adds exactly those words. */
  lemma {:induction false} InsertAllWords(n: Node, words: seq<string>)
    ensures Words(InsertAll(n, words)) == Words(n) + set w | w in words
  {
    if |words| > 0 {
      var init := words[..|words| - 1];
      var last := words[|words| - 1];
      InsertAllWords(n, init);
      InsertAddsWord(InsertAll(n, init), last);
      assert words == init + [last];
      assert (set w | w in words) == (set w | w in init) + {last};
    }
  }

  /** The words of a title: its lowercased text split on single spaces. */
  function TitleWords(title: string, lower: string -> string): seq<string>
  {
    Split(lower(title), ' ')
  }

  /** The trie both `buildTrieMap` and `handleSearch` build for one title. */
  function TitleTrie(title: string, lower: string -> string): Node
  {
    InsertAll(Empty(), TitleWords(title, lower))
  }

  /** A title's trie holds exactly the title's words. */
  lemma TitleTrieWords(title: string, lower: string -> string)
    ensures Words(TitleTrie(title, lower)) == set w | w in TitleWords(title, lower)
  {
    InsertAllWords(Empty(), TitleWords(title, lower));
    EmptyHasNoWords([]);
  }

  /** A title with a leading, trailing or doubled space (after lowercasing),
      or an empty one, puts the empty word into its trie, and only such a
      title does. */
  lemma TitleTrieHasEmptyWord(title: string, lower: string -> string)
    ensures [] in Words(TitleTrie(title, lower)) <==> HasEmptyRun(lower(title), ' ')
  {
    TitleTrieWords(title, lower);
    SplitHasEmptyPiece(lower(title), ' ');
  }

  /** The titles of `articles`. */
  ghost function Titles(articles: seq<Article>): set<string>
  {
    set a | a in articles :: a.title
  }

  /** The map-building loop of `buildTrieMap`: starting from the current
      map, each article in turn sets the entry for its title to a fresh
      trie of the title's words, overwriting any earlier entry. */
  function BuildTrieMap(prev: map<string, Node>, articles: seq<Article>, lower: string -> string): (r: map<string, Node>)
    ensures r.Keys == prev.Keys + Titles(articles)
    ensures forall a :: a in articles ==> r[a.title] == TitleTrie(a.title, lower)
    ensures forall k :: k in prev && k !in Titles(articles) ==> r[k] == prev[k]
  {
    if |articles| == 0 then prev
    else
      var init := articles[..|articles| - 1];
      var last := articles[|articles| - 1];
      assert articles == init + [last];
      assert Titles(articles) == Titles(init) + {last.title};
      BuildTrieMap(prev, init, lower)[last.title := TitleTrie(last.title, lower)]
  }

  /** After the build, every title maps to a trie whose words are exactly
      the title's words. */
  lemma BuiltTrieWords(prev: map<string, Node>, articles: seq<Article>, lower: string -> string, a: Article)
    requires a in articles
    ensures a.title in BuildTrieMap(prev, articles, lower)
    ensures Words(BuildTrieMap(prev, articles, lower)[a.title]) == set w | w in TitleWords(a.title, lower)
  {
    TitleTrieWords(a.title, lower);
  }

  /** Building again from the same articles changes nothing: a title's
      trie depends only on the title, so overwriting an entry, whether by
      a second article with the same title or by a second build, stores
      an equal trie. */
  lemma RebuildIsIdempotent(prev: map<string, Node>, articles: seq<Article>, lower: string -> string)
    ensures BuildTrieMap(BuildTrieMap(prev, articles, lower), articles, lower) == BuildTrieMap(prev, articles, lower)
  {
    var once := BuildTrieMap(prev, articles, lower);
    var twice := BuildTrieMap(once, articles, lower);
    forall k | k in twice
      ensures k in once && twice[k] == once[k]
    {
      if k in Titles(articles) {
        var a :| a in articles && a.title == k;
      }
    }
  }

  /** With no articles the map is left as it was. */
  lemma BuildWithoutArticles(prev: map<string, Node>, lower: string -> string)
    ensures BuildTrieMap(prev, [], lower) == prev
  {
  }

  /** The `filter` callback: the lowercased query is a word of the title's
      trie. */
  function Keeps(query: string, lower: string -> string): Article -> bool
  {
    (a: Article) => Search(TitleTrie(a.title, lower), lower(query))
  }

  /** `handleSearch`: an empty query shows nothing; otherwise keep the
      articles whose title trie contains the lowercased query. */
  function HandleSearch(articles: seq<Article>, query: string, lower: string -> string): seq<Article>
  {
    if |query| == 0 then []
    else Filter(articles, Keeps(query, lower))
  }

  /** An article is shown exactly when the query is non-empty and its
      lowercasing is one of the title's words. */
  lemma HandleSearchMembership(articles: seq<Article>, query: string, lower: string -> string, a: Article)
    ensures a in HandleSearch(articles, query, lower) <==>
      |query| > 0 && a in articles && lower(query) in TitleWords(a.title, lower)
  {
    if |query| > 0 {
      FilterMembership(articles, Keeps(query, lower), a);
      SearchIsMembership(TitleTrie(a.title, lower), lower(query));
      TitleTrieWords(a.title, lower);
    }
  }

  /** An empty query gives an empty result. */
  lemma EmptyQueryShowsNothing(articles: seq<Article>, lower: string -> string)
    ensures HandleSearch(articles, [], lower) == []
  {
  }

  /** A query with a space in it is never a word of a title, so it matches
      no article. */
  lemma SpacedQueryMatchesNothing(articles: seq<Article>, query: string, lower: string -> string)
    requires CaseMapping(lower)
    requires ' ' in query
    ensures HandleSearch(articles, query, lower) == []
  {
    var result := HandleSearch(articles, query, lower);
    forall a
      ensures a !in result
    {
      HandleSearchMembership(articles, query, lower, a);
    }
    HeadIsMember(result);
  }

  /** The result lists articles in the order they came in. */
  lemma ResultIsSubsequence(articles: seq<Article>, query: string, lower: string -> string)
    ensures IsSubsequence(HandleSearch(articles, query, lower), articles)
  {
    if |query| == 0 {
      assert PicksAt([], articles, []);
    } else {
      FilterIsSubsequence(articles, Keeps(query, lower));
    }
  }
}
