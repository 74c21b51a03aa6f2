# News search: KMP substring search and per-title tries

This project models the text-search core of a small React Native news
reader. The app has two search screens:

- **Screen 1** keeps the articles whose lowercased title contains the
  lowercased query. It decides containment with a Knuth–Morris–Pratt search
  (`kmpSearch`, which builds its border table with `computeLPSArray`).
- **Screen 2** splits each lowercased title on single spaces and puts the
  pieces into a character-keyed prefix tree (`Trie`). It keeps the articles
  whose trie contains the whole lowercased query as a word. `buildTrieMap`
  also stores one trie per title in a map keyed by the original title.

Modules, one per source file:

- `Kmp` (`kmp.dfy`) covers app/Screen1/KMP.js. `ComputeLps` and `KmpSearch`
  are methods that follow the source's loops branch for branch. Each loop
  has its invariant and a termination measure. Their specification is
  stated with borders and occurrences, and `NaiveSearch` is an independent
  reference search.
- `Trie` (`trie.dfy`) covers app/Screen2/Trie.js. A trie is an immutable
  `Node(children: map<char, Node>, isEnd: bool)` and a `Trie` object is
  its root node. `Insert` and `Search` are recursive walks. The
  abstraction `Words` reads the set of stored words off the tree's shape.
- `Text` (`text.dfy`) holds what both screens use. It has the `Article`
  record (title and description) and `Filter`, which is
  `Array.prototype.filter`. It has `Split`, which is `String.prototype.split`
  with a one-character separator, and its partner `Join`. It also has
  `CaseMapping`, the facts assumed of `toLowerCase`.
- `KmpScreen` (`kmp_screen.dfy`) covers the `handleSearch` filter of
  app/Screen1/index.js.
- `TrieScreen` (`trie_screen.dfy`) covers app/Screen2/index.js. It models
  the map-building loop of `buildTrieMap` and the `handleSearch` filter.

`toLowerCase` is never given a body. Every screen function takes it as a
parameter `lower: string -> string`. Two lemmas need facts about it.
`KmpScreen.EmptyQueryKeepsAll` requires that the empty string lowercases
to the empty string. `TrieScreen.SpacedQueryMatchesNothing` requires
`Text.CaseMapping`, which adds that a space is in `lower(s)` exactly when
it is in `s`.
`split(' ')` has a definition, and `Text.Split`'s contract pins it down
with two facts. Joining the pieces with `' '` gives the input back, and no
piece contains `' '`. `Text.SplitUnique` shows that any pieces meeting
these facts are `Split`'s. Empty pieces are kept, as in JavaScript.

## Model

| member | source | states |
|---|---|---|
| Kmp.KmpSearch | app/Screen1/KMP.js:1-30 | The result is -1 exactly when the pattern occurs nowhere in the text. Otherwise it is the leftmost start index r of an occurrence, with 0 <= r <= |text| - |pattern|. An empty pattern gives 0, even for an empty text. A pattern longer than the text gives -1. The result equals the naive reference search. The scan loop keeps `text[i-j..i] == pattern[..j]` with `j < |pattern|`, and no occurrence starts before `i - j`. It terminates because each pass raises `i` or lowers `j`. |
| Kmp.ComputeLps | app/Screen1/KMP.js:32-54 | The table is as long as the pattern and its first entry is 0. Entry q is at most q, and it is the length of the longest proper prefix of `pattern[..q+1]` that is also its suffix. |
| Kmp.LongestAfterExtension | app/Screen1/KMP.js:39-42 | When the candidate border extends by the next character, candidate + 1 is the longest border of the longer prefix. |
| Kmp.FallbackKeepsCandidate | app/Screen1/KMP.js:44-45 | Falling back to the table entry of the candidate yields another border, and no longer border that could extend is skipped. |
| Kmp.LongestEmpty | app/Screen1/KMP.js:46-48 | With no candidate left and a mismatch against the first character, the longest border is empty. |
| Kmp.FallbackStep | app/Screen1/KMP.js:20-22 | After a mismatch, falling back to `lps[j-1]` keeps a valid partial match, and no occurrence is skipped by not moving `i`. |
| Kmp.LeftmostOccurrenceUnique | app/Screen1/KMP.js:12-19 | Two results that both meet the leftmost-occurrence specification are equal. |
| Trie.EmptyHasNoWords | app/Screen2/Trie.js:2-13 | A fresh trie holds no word and `search` is false for every word, including the empty one. |
| Trie.SearchIsMembership | app/Screen2/Trie.js:26-35 | `search(w)` is true exactly when `w` is in the trie's word set. |
| Trie.SearchAfterInsert | app/Screen2/Trie.js:15-35 | After `insert(w)`, `search(v)` is true exactly when `v == w` or `search(v)` was true before. So `search(w)` is now true and nothing else changes. |
| Trie.InsertAddsWord | app/Screen2/Trie.js:15-24 | `insert(w)` adds exactly `w` to the word set, and `search(w)` then holds. |
| Trie.InsertIdempotent | app/Screen2/Trie.js:18-23 | Inserting the same word twice gives the same tree as inserting it once. |
| Trie.InsertExtends | app/Screen2/Trie.js:18-23 | `insert` never removes or replaces a child edge and never clears an end-of-word flag. This holds at every depth. |
| Trie.InsertEmptyMarksRoot | app/Screen2/Trie.js:17-23 | `insert("")` sets the root's end-of-word flag, leaves its children alone, and makes `search("")` true. |
| Trie.SearchStopsAtMissingEdge | app/Screen2/Trie.js:28-31 | Once the walk reaches a node with no edge for the next character, `search` is false whatever follows. |
| Trie.SearchReadsFlag | app/Screen2/Trie.js:26-35 | `search` is true exactly when the walk reaches a node and that node's end-of-word flag is set. |
| Trie.PrefixNotFound | app/Screen2/Trie.js:34 | A proper prefix of an inserted word that was not found before is still not found afterwards, although its path now exists. |
| Trie.WalkInsertedPrefix | app/Screen2/Trie.js:17-22 | After `insert(w)`, every prefix of `w` has a path from the root. |
| Text.Split | app/Screen2/index.js:59 | `split(' ')` gives at least one piece. Rejoined with `' '`, the pieces give the input back, and no piece contains `' '`. |
| Text.SplitUnique | app/Screen2/index.js:59 | Any non-empty list of space-free pieces that joins back to the input is the result of `split`. |
| Text.SplitHasEmptyPiece | app/Screen2/index.js:59-61 | `split` yields an empty piece exactly when the string is empty, starts or ends with the separator, or has two separators in a row. |
| Text.FilterMembership | app/Screen1/index.js:32-36 | `filter` keeps an element exactly when the element is in the input and the callback accepts it. |
| Text.FilterIsSubsequence | app/Screen2/index.js:108-116 | The result of `filter` is an order-preserving subsequence of its input. |
| Text.FilterCongruence | app/Screen1/index.js:32-36 | Two callbacks that agree on every element give the same `filter` result. |
| KmpScreen.HandleSearch | app/Screen1/index.js:30-41 | The result is the filter of the article list by KMP containment. An article is kept exactly when it is in the list and the lowercased query occurs in its lowercased title. |
| KmpScreen.EmptyQueryKeepsAll | app/Screen1/index.js:32-36 | An empty query keeps every article, in order. |
| KmpScreen.ResultIsSubsequence | app/Screen1/index.js:32-38 | The result is an order-preserving subsequence of the article list. |
| KmpScreen.OnlyTitlesMatter | app/Screen1/index.js:33 | Take two article lists that have the same title at each position. Their results have the same length and the same titles at each position, so descriptions never change membership. |
| KmpScreen.SameLoweredQuerySameResult | app/Screen1/index.js:33-34 | Two queries with equal lowercasings give identical results. |
| TrieScreen.InsertAllWords | app/Screen2/index.js:60-62 | Inserting each word of a list adds exactly the set of those words. |
| TrieScreen.TitleTrieWords | app/Screen2/index.js:58-62 | The trie built for a title holds exactly the pieces of the lowercased title split on `' '`. |
| TrieScreen.TitleTrieHasEmptyWord | app/Screen2/index.js:59-61 | A title's trie holds the empty word exactly when the lowercased title is empty, starts or ends with a space, or has two spaces in a row. |
| TrieScreen.BuildTrieMap | app/Screen2/index.js:54-65 | The built map's keys are the previous keys plus every article title. Each title maps to the trie of that title's words. A previous key that no title matches keeps its previous trie. |
| TrieScreen.BuiltTrieWords | app/Screen2/index.js:57-64 | After the build, each article's original-case title is a key. Its trie's word set is exactly the pieces of the lowercased title split on `' '`. |
| TrieScreen.RebuildIsIdempotent | app/Screen2/index.js:55-65 | Building again from the same articles gives the same map. Overwriting an entry always stores an equal trie. |
| TrieScreen.BuildWithoutArticles | app/Screen2/index.js:55 | An empty article list leaves the map unchanged. |
| TrieScreen.HandleSearchMembership | app/Screen2/index.js:102-116 | An article is shown exactly when the query is non-empty, the article is in the list, and the lowercased query is one of its title's pieces. |
| TrieScreen.EmptyQueryShowsNothing | app/Screen2/index.js:103-106 | An empty query gives an empty result. |
| TrieScreen.SpacedQueryMatchesNothing | app/Screen2/index.js:109-115 | A query containing a space matches no article. |
| TrieScreen.ResultIsSubsequence | app/Screen2/index.js:108-118 | The result is an order-preserving subsequence of the article list. |

## Left out

- News fetching (`fetchData` in both screens) is network I/O. The article
  list is a parameter.
- Persistence is left out: `saveToStorage`, `loadFromStorage`, the save
  half of `buildTrieMap`, `loadTrieMapFromStorage`, `loadSavedFiles`,
  `handleDeleteFile` and `handleKeepFile`. All of them are AsyncStorage
  calls. `Trie.js` never imports `AsyncStorage`, so its two storage
  methods always end in their `catch`.
- JSON serialization of the map is left out. It is a foreign library, and
  a restored map holds plain objects rather than `Trie` instances, so the
  code promises no usable round trip.
- `highlightSearchTerm` is left out. It builds a regular expression from
  raw user input and depends on the JavaScript regex engine.
- `toLowerCase` case mapping is a parameter, and the model fixes only the
  two facts in `Text.CaseMapping`.
- `KmpScreen.EmptyQueryKeepsAll` assumes `lower("") == ""`, which
  `toLowerCase` satisfies.
- `TrieScreen.SpacedQueryMatchesNothing` assumes that lowercasing neither
  adds nor removes spaces.
- Strings are sequences of atomic characters. JavaScript indexes KMP's
  strings by UTF-16 code unit but iterates the trie's words by code point.
  The model does not separate the two.
- Titles are assumed to be strings. The news API can send a `null` title,
  and the source would then throw inside the filter or build.
- React state, rendering, styles, navigation (app/index.js) and
  `handleAggregate`'s time-based file name are left out.
- `TrieScreen.BuildTrieMap` starts from an explicit previous map. In the
  app it is the `trieMap` state captured by the closure, which may be
  stale. That is a React concern the model does not follow.
- `split(' ')` splits on the single character `' '` only; tabs and
  newlines stay inside words.
- `buildTrieMap` starts from a copy of the current map, so an empty
  article list leaves it unchanged.
- The map is keyed by the original-case title; articles with equal titles
  share one entry.
- The screen-2 search never reads the map; it builds a fresh trie per
  article per query.
- "A later article with the same title overwrites the earlier entry" is
  stated in value terms. The stored trie depends only on the title, so
  the overwrite always stores an equal trie (`TrieScreen.BuildTrieMap`,
  `TrieScreen.RebuildIsIdempotent`).
