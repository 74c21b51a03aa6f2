/**
 The character-keyed prefix tree of app/Screen2/Trie.js (`TrieNode`, and
 `Trie` with `insert` and `search`).

 A `Trie` object is modelled by its root node. Nodes are values: the source
 never shares a node between two parents, so updating a node in place and
 rebuilding the path to it give the same tree.
 */
module Trie {

  /** `TrieNode`: the child reached by each character, and whether the path
      to this node spells an inserted word. */
  datatype Node = Node(children: map<char, Node>, isEnd: bool)

  /** `new TrieNode()`, and the root of `new Trie()`: no children, not the
      end of a word. */
  function Empty(): Node
  {
    Node(map[], false)
  }

  /** Abstraction: the words stored in the tree below `n`, read off the
      tree's shape. */
  ghost function Words(n: Node): set<string>
    decreases n
  {
    (if n.isEnd then {[]} else {})
    + (set c, w | c in n.children && w in Words(n.children[c]) :: [c] + w)
  }

  /** `insert`: walk `word` from `n`, creating only the children that are
      missing, and mark the last node as the end of a word. */
  function Insert(n: Node, word: string): Node
    decreases |word|
  {
    if |word| == 0 then n.(isEnd := true)
    else
      var c := word[0];
      var child := if c in n.children then n.children[c] else Empty();
      n.(children := n.children[c := Insert(child, word[1..])])
  }

  /** `search`: walk `word` from `n`, failing as soon as a character has no
      child, and answer the end-of-word flag of the node reached. */
  function Search(n: Node, word: string): bool
    decreases |word|
  {
    if |word| == 0 then n.isEnd
    else if word[0] !in n.children then false
    else Search(n.children[word[0]], word[1..])
  }

  datatype Option<T> = None | Some(value: T)

  /** The node reached by following `word` from `n`, if every edge exists. */
  function Walk(n: Node, word: string): Option<Node>
    decreases |word|
  {
    if |word| == 0 then Some(n)
    else if word[0] !in n.children then None
    else Walk(n.children[word[0]], word[1..])
  }

  /** `search` decides membership in the tree's word set. */
  lemma {:induction false} SearchIsMembership(n: Node, word: string)
    ensures Search(n, word) <==> word in Words(n)
    decreases |word|
  {
    if |word| == 0 {
      assert Search(n, word) == n.isEnd;
    } else {
      var c := word[0];
      var rest := word[1..];
      assert word == [c] + rest;
      if c in n.children {
        SearchIsMembership(n.children[c], rest);
      }
      if word in Words(n) {
        var c', w' :| c' in n.children && w' in Words(n.children[c']) && word == [c'] + w';
        assert c' == c && w' == rest;
      }
    }
  }

  /** A fresh trie holds no word, not even the empty one. */
  lemma EmptyHasNoWords(word: string)
    ensures !Search(Empty(), word)
    ensures Words(Empty()) == {}
  {
  }

  /** After `insert(word)`, `search(v)` is true exactly for `word` and for
      the words found before. */
  lemma {:induction false} SearchAfterInsert(n: Node, word: string, v: string)
    ensures Search(Insert(n, word), v) <==> v == word || Search(n, v)
    decreases |word|
  {
    if |word| > 0 && |v| > 0 {
      var c := word[0];
      var child := if c in n.children then n.children[c] else Empty();
      if v[0] == c {
        SearchAfterInsert(child, word[1..], v[1..]);
        EmptyHasNoWords(v[1..]);
        assert v == word <==> v[1..] == word[1..] by {
          assert v == [c] + v[1..] && word == [c] + word[1..];
        }
      }
    }
  }

  /** `insert` adds exactly `word` to the word set. */
  lemma InsertAddsWord(n: Node, word: string)
    ensures Words(Insert(n, word)) == Words(n) + {word}
    ensures Search(Insert(n, word), word)
  {
    forall v
      ensures v in Words(Insert(n, word)) <==> v in Words(n) + {word}
    {
      SearchAfterInsert(n, word, v);
      SearchIsMembership(n, v);
      SearchIsMembership(Insert(n, word), v);
    }
    SearchAfterInsert(n, word, word);
  }

  /** Inserting a word that is already there changes nothing, so inserting
      the same word twice gives the same tree as inserting it once. */
  lemma {:induction false} InsertIdempotent(n: Node, word: string)
    ensures Insert(Insert(n, word), word) == Insert(n, word)
    decreases |word|
  {
    if |word| > 0 {
      var c := word[0];
      var child := if c in n.children then n.children[c] else Empty();
      InsertIdempotent(child, word[1..]);
      var n1 := Insert(n, word);
      assert n1.children[c] == Insert(child, word[1..]);
      assert n1.children[c := Insert(n1.children[c], word[1..])] == n1.children;
    }
  }

  /** `big` keeps everything `small` has: every child edge (with a subtree
      that again keeps everything) and every end-of-word flag. */
  ghost predicate Extends(big: Node, small: Node)
    decreases small
  {
    && (small.isEnd ==> big.isEnd)
    && small.children.Keys <= big.children.Keys
    && forall c :: c in small.children ==> Extends(big.children[c], small.children[c])
  }

  lemma {:induction false} ExtendsReflexive(n: Node)
    ensures Extends(n, n)
    decreases n
  {
    forall c | c in n.children
      ensures Extends(n.children[c], n.children[c])
    {
      ExtendsReflexive(n.children[c]);
    }
  }

  /** `insert` never removes or replaces a child edge and never clears an
      end-of-word flag. */
  lemma {:induction false} InsertExtends(n: Node, word: string)
    ensures Extends(Insert(n, word), n)
    decreases |word|
  {
    ExtendsReflexive(n);
    if |word| > 0 {
      var c := word[0];
      var big := Insert(n, word);
      forall d | d in n.children
        ensures Extends(big.children[d], n.children[d])
      {
        if d == c {
          InsertExtends(n.children[c], word[1..]);
        }
      }
    }
  }

  /** `search` fails as soon as a character has no child edge, whatever
      follows it. */
  lemma {:induction false} SearchStopsAtMissingEdge(n: Node, prefix: string, c: char, suffix: string)
    requires Walk(n, prefix).Some? && c !in Walk(n, prefix).value.children
    ensures !Search(n, prefix + [c] + suffix)
    decreases |prefix|
  {
    if |prefix| > 0 {
      assert (prefix + [c] + suffix)[1..] == prefix[1..] + [c] + suffix;
      SearchStopsAtMissingEdge(n.children[prefix[0]], prefix[1..], c, suffix);
    }
  }

  /** `search` answers the end-of-word flag of the node its walk reaches,
      and false when the walk breaks off. */
  lemma {:induction false} SearchReadsFlag(n: Node, word: string)
    ensures Search(n, word) <==> Walk(n, word).Some? && Walk(n, word).value.isEnd
    decreases |word|
  {
    if |word| > 0 && word[0] in n.children {
      SearchReadsFlag(n.children[word[0]], word[1..]);
    }
  }

  /** Because `search` reads the flag rather than path existence, a proper
      prefix of an inserted word that was not found before is still not
      found, although its path now exists. */
  lemma PrefixNotFound(n: Node, word: string, k: nat)
    requires k < |word| && !Search(n, word[..k])
    ensures Walk(Insert(n, word), word[..k]).Some?
    ensures !Search(Insert(n, word), word[..k])
  {
    SearchAfterInsert(n, word, word[..k]);
    WalkInsertedPrefix(n, word, k);
  }

  /** Every prefix of an inserted word has a path in the tree. */
  lemma {:induction false} WalkInsertedPrefix(n: Node, word: string, k: nat)
    requires k <= |word|
    ensures Walk(Insert(n, word), word[..k]).Some?
    decreases k
  {
    if k > 0 {
      var c := word[0];
      var child := if c in n.children then n.children[c] else Empty();
      WalkInsertedPrefix(child, word[1..], k - 1);
      assert word[..k][1..] == word[1..][..k - 1];
    }
  }

  /** `insert("")` marks the root itself as the end of a word and touches
      no child. */
  lemma InsertEmptyMarksRoot(n: Node)
    ensures Insert(n, []).children == n.children
    ensures Insert(n, []).isEnd
    ensures Search(Insert(n, []), [])
  {
  }
}
