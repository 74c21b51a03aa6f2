/**
 The pieces of JavaScript both search screens lean on: the article record,
 `Array.prototype.filter`, `String.prototype.split` with a one-character
 separator, and the facts about `toLowerCase` the screens depend on.
 */
module Text {

  /** A news article as the screens see it; only these two fields are read. */
  datatype Article = Article(title: string, description: string)

  /** `Array.prototype.filter`: the elements of `xs` that `keep` accepts, in
      their original order. */
  function Filter<T>(xs: seq<T>, keep: T -> bool): (ys: seq<T>)
    ensures |ys| <= |xs|
    ensures forall y :: y in ys ==> y in xs && keep(y)
  {
    if |xs| == 0 then []
    else Filter(xs[..|xs| - 1], keep) + (if keep(xs[|xs| - 1]) then [xs[|xs| - 1]] else [])
  }

  /** `ys` picks the elements of `xs` at the strictly increasing positions
      `idx`. */
  ghost predicate PicksAt<T>(ys: seq<T>, xs: seq<T>, idx: seq<nat>)
  {
    && |idx| == |ys|
    && (forall t :: 0 <= t < |idx| ==> idx[t] < |xs| && xs[idx[t]] == ys[t])
    && (forall s, t :: 0 <= s < t < |idx| ==> idx[s] < idx[t])
  }

  /** `ys` is an order-preserving subsequence of `xs`. */
  ghost predicate IsSubsequence<T>(ys: seq<T>, xs: seq<T>)
  {
    exists idx :: PicksAt(ys, xs, idx)
  }

  /** Filtering keeps an element exactly when it is in the input and
      accepted. */
  lemma {:induction false} FilterMembership<T>(xs: seq<T>, keep: T -> bool, x: T)
    ensures x in Filter(xs, keep) <==> x in xs && keep(x)
  {
    if |xs| > 0 {
      var init := xs[..|xs| - 1];
      FilterMembership(init, keep, x);
      assert xs == init + [xs[|xs| - 1]];
    }
  }

  /** The positions `Filter` keeps witness that its result is a subsequence
      of its input, and they are exactly the accepted positions. */
  lemma {:induction false} FilterPositions<T>(xs: seq<T>, keep: T -> bool) returns (idx: seq<nat>)
    ensures PicksAt(Filter(xs, keep), xs, idx)
    ensures forall p :: 0 <= p < |xs| && keep(xs[p]) ==> p in idx
  {
    if |xs| == 0 {
      idx := [];
    } else {
      var last := |xs| - 1;
      var init := xs[..last];
      var idx0 := FilterPositions(init, keep);
      if keep(xs[last]) {
        idx := idx0 + [last];
      } else {
        idx := idx0;
      }
      forall p | 0 <= p < |xs| && keep(xs[p])
        ensures p in idx
      {
        if p < last {
          assert init[p] == xs[p];
          assert p in idx0;
        }
      }
    }
  }

  /** The result of `Filter` is an order-preserving subsequence of its
      input. */
  lemma FilterIsSubsequence<T>(xs: seq<T>, keep: T -> bool)
    ensures IsSubsequence(Filter(xs, keep), xs)
  {
    var idx := FilterPositions(xs, keep);
  }

  /** `Filter` depends only on the answers of `keep` on the elements of its
      input. */
  lemma {:induction false} FilterCongruence<T>(xs: seq<T>, keep1: T -> bool, keep2: T -> bool)
    requires forall x :: x in xs ==> keep1(x) == keep2(x)
    ensures Filter(xs, keep1) == Filter(xs, keep2)
  {
    if |xs| > 0 {
      FilterCongruence(xs[..|xs| - 1], keep1, keep2);
    }
  }

  /** A filter that accepts everything returns its input. */
  lemma {:induction false} FilterAll<T>(xs: seq<T>, keep: T -> bool)
    requires forall x :: x in xs ==> keep(x)
    ensures Filter(xs, keep) == xs
  {
    if |xs| > 0 {
      FilterAll(xs[..|xs| - 1], keep);
    }
  }

  /** Filtering two article lists that agree on titles position by
      position, with a test that looks only at titles, gives results of the
      same length that agree on titles position by position. */
  lemma {:induction false} FilterByTitle(xs: seq<Article>, ys: seq<Article>, keep: Article -> bool)
    requires |xs| == |ys|
    requires forall t :: 0 <= t < |xs| ==> xs[t].title == ys[t].title
    requires forall a: Article, b: Article :: a.title == b.title ==> keep(a) == keep(b)
    ensures |Filter(xs, keep)| == |Filter(ys, keep)|
    ensures forall t :: 0 <= t < |Filter(xs, keep)| ==> Filter(xs, keep)[t].title == Filter(ys, keep)[t].title
  {
    if |xs| > 0 {
      var last := |xs| - 1;
      FilterByTitle(xs[..last], ys[..last], keep);
      assert keep(xs[last]) == keep(ys[last]);
    }
  }

  /** The first element of a non-empty sequence is a member of it. This
      is a proof step only: calling it lets a caller conclude that a
      sequence with no members is empty without indexing into the
      sequence itself. */
  lemma HeadIsMember<T>(xs: seq<T>)
    ensures |xs| > 0 ==> xs[0] in xs
  {
  }

  /** `Array.prototype.join` with a one-character separator; joining no
      pieces gives the empty string. */
  function Join(pieces: seq<string>, sep: char): string
  {
    if |pieces| == 0 then []
    else if |pieces| == 1 then pieces[0]
    else pieces[0] + [sep] + Join(pieces[1..], sep)
  }

  /** Index of the first `sep` in `s`, or `|s|` when there is none. */
  function FirstIndexOf(s: string, sep: char): (k: nat)
    ensures k <= |s|
    ensures k < |s| ==> s[k] == sep
    ensures sep !in s[..k]
  {
    if |s| == 0 || s[0] == sep then 0 else 1 + FirstIndexOf(s[1..], sep)
  }

  /** `String.prototype.split` with a one-character separator: the maximal
      runs between separators, empty runs included. */
  function Split(s: string, sep: char): (pieces: seq<string>)
    decreases |s|
    ensures |pieces| >= 1
    ensures Join(pieces, sep) == s
    ensures forall t :: 0 <= t < |pieces| ==> sep !in pieces[t]
  {
    var k := FirstIndexOf(s, sep);
    if k == |s| then [s]
    else
      var rest := Split(s[k + 1..], sep);
      assert s == s[..k] + [sep] + s[k + 1..];
      [s[..k]] + rest
  }

  /** The two facts that pin `Split` down: any non-empty list of
      separator-free pieces that joins back to `s` is `Split(s, sep)`. */
  lemma {:induction false} SplitUnique(s: string, sep: char, pieces: seq<string>)
    requires |pieces| >= 1 && Join(pieces, sep) == s
    requires forall t :: 0 <= t < |pieces| ==> sep !in pieces[t]
    ensures pieces == Split(s, sep)
    decreases |pieces|
  {
    var k := FirstIndexOf(s, sep);
    if |pieces| == 1 {
      assert s == pieces[0];
      assert k == |s|;
    } else {
      var p0 := pieces[0];
      var rest := Join(pieces[1..], sep);
      assert s == p0 + [sep] + rest;
      assert s[|p0|] == sep;
      assert s[..|p0|] == p0;
      assert k == |p0|;
      assert s[k + 1..] == rest;
      SplitUnique(rest, sep, pieces[1..]);
      assert pieces == [p0] + pieces[1..];
    }
  }

  /** `s` has two adjacent separators at `k` and `k + 1`. */
  predicate DoubledAt(s: string, sep: char, k: int)
  {
    0 <= k < |s| - 1 && s[k] == sep && s[k + 1] == sep
  }

  /** `s` begins or ends with `sep`, contains two adjacent separators, or is
      empty. */
  ghost predicate HasEmptyRun(s: string, sep: char)
  {
    || |s| == 0
    || s[0] == sep
    || s[|s| - 1] == sep
    || exists k :: DoubledAt(s, sep, k)
  }

  /** When `s` starts with a non-empty run ended by a separator, `s` has an
      empty run exactly when what follows that separator has one. */
  lemma EmptyRunAfterFirstPiece(s: string, sep: char, k: nat)
    requires 0 < k < |s| && s[k] == sep && sep !in s[..k]
    ensures HasEmptyRun(s, sep) <==> HasEmptyRun(s[k + 1..], sep)
  {
    var tail := s[k + 1..];
    if HasEmptyRun(tail, sep) {
      if |tail| == 0 {
        assert s[|s| - 1] == sep;
      } else if tail[0] == sep {
        assert DoubledAt(s, sep, k);
      } else if tail[|tail| - 1] == sep {
        assert s[|s| - 1] == sep;
      } else {
        var k' :| DoubledAt(tail, sep, k');
        assert DoubledAt(s, sep, k + 1 + k');
      }
    }
    if HasEmptyRun(s, sep) && |tail| > 0 && tail[0] != sep && tail[|tail| - 1] != sep {
      assert s[0] in s[..k];
      var k' :| DoubledAt(s, sep, k');
      assert DoubledAt(tail, sep, k' - k - 1);
    }
  }

  /** `split` produces an empty piece exactly when the input has an empty
      run: leading, trailing or doubled separators, or no characters. */
  lemma {:induction false} SplitHasEmptyPiece(s: string, sep: char)
    ensures [] in Split(s, sep) <==> HasEmptyRun(s, sep)
    decreases |s|
  {
    var k := FirstIndexOf(s, sep);
    if k < |s| {
      var tail := s[k + 1..];
      assert Split(s, sep) == [s[..k]] + Split(tail, sep);
      if k > 0 {
        SplitHasEmptyPiece(tail, sep);
        EmptyRunAfterFirstPiece(s, sep, k);
      }
    } else {
      assert Split(s, sep) == [s];
      if |s| > 0 {
        assert s[0] in s[..k];
        assert s[|s| - 1] in s[..k];
      }
    }
  }

  /** What the screens rely on of `toLowerCase`: the empty string stays
      empty, and a space is in the lowercased string exactly when it is in
      the original (no character lowercases to a space, and a space
      lowercases to itself). */
  ghost predicate CaseMapping(lower: string -> string)
  {
    && lower([]) == []
    && forall s :: ' ' in lower(s) <==> ' ' in s
  }
}
