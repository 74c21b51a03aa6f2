/**
 Knuth-Morris-Pratt exact substring search, as done by `kmpSearch` and
 `computeLPSArray` in app/Screen1/KMP.js.

 Characters are atomic: a string is a `seq<char>` and the model does not
 distinguish code points from code units.
 */
module Kmp {

  /** `pattern` occurs in `text` starting at index `k`. */
  predicate OccursAt(text: string, pattern: string, k: int)
  {
    0 <= k && k + |pattern| <= |text| && text[k..k + |pattern|] == pattern
  }

  /** `pattern` occurs somewhere in `text`. */
  predicate Occurs(text: string, pattern: string)
  {
    exists k :: 0 <= k <= |text| - |pattern| && OccursAt(text, pattern, k)
  }

  /** `r` is what a leftmost-match search must return: the smallest index
      where `pattern` occurs, or -1 when it occurs nowhere. */
  predicate IsLeftmostOccurrence(text: string, pattern: string, r: int)
  {
    if r == -1 then !Occurs(text, pattern)
    else OccursAt(text, pattern, r) && forall q :: 0 <= q < r ==> !OccursAt(text, pattern, q)
  }

  /** Reference definition: the naive quadratic scan that tries every start
      position from `k` upwards. */
  function NaiveSearchFrom(text: string, pattern: string, k: nat): (r: int)
    decreases |text| - k
    ensures r == -1 || (k <= r && OccursAt(text, pattern, r))
    ensures forall q :: k <= q && (r == -1 || q < r) ==> !OccursAt(text, pattern, q)
  {
    if k + |pattern| > |text| then -1
    else if text[k..k + |pattern|] == pattern then k
    else NaiveSearchFrom(text, pattern, k + 1)
  }

  function NaiveSearch(text: string, pattern: string): (r: int)
    ensures IsLeftmostOccurrence(text, pattern, r)
  {
    NaiveSearchFrom(text, pattern, 0)
  }

  /** There is only one leftmost occurrence, so any two searches meeting
      the specification agree. */
  lemma LeftmostOccurrenceUnique(text: string, pattern: string, r1: int, r2: int)
    requires IsLeftmostOccurrence(text, pattern, r1)
    requires IsLeftmostOccurrence(text, pattern, r2)
    ensures r1 == r2
  {
  }

  /** `p[..k]` is a proper border of the prefix `p[..n]`: shorter than it,
      and both a prefix and a suffix of it. */
  predicate IsBorder(p: string, n: nat, k: nat)
  {
    k < n <= |p| && p[..k] == p[n - k..n]
  }

  /** `k` is the length of the longest proper border of `p[..n]`. */
  ghost predicate IsLongestBorder(p: string, n: nat, k: nat)
  {
    IsBorder(p, n, k) && forall b: nat :: IsBorder(p, n, b) ==> b <= k
  }

  /** A border of a border is a border. */
  lemma BorderTransitive(p: string, n: nat, a: nat, c: nat)
    requires IsBorder(p, n, a) && IsBorder(p, a, c)
    ensures IsBorder(p, n, c)
  {
    forall t | 0 <= t < c
      ensures p[t] == p[n - c + t]
    {
      assert p[t] == p[a - c..a][t] == p[a - c + t];
      assert p[a - c + t] == p[..a][a - c + t] == p[n - a..n][a - c + t];
    }
  }

  /** A border shorter than another border is a border of that border. */
  lemma ShorterBorderIsBorderOfBorder(p: string, n: nat, a: nat, c: nat)
    requires IsBorder(p, n, a) && IsBorder(p, n, c) && c < a
    ensures IsBorder(p, a, c)
  {
    forall t | 0 <= t < c
      ensures p[t] == p[a - c + t]
    {
      assert p[t] == p[..c][t] == p[n - c..n][t];
      assert p[a - c + t] == p[..a][a - c + t] == p[n - a..n][a - c + t];
    }
  }

  /** A non-empty border of `p[..n+1]` is a border of `p[..n]` extended by
      the character that follows both. */
  lemma BorderExtension(p: string, n: nat, b: nat)
    requires n < |p|
    ensures IsBorder(p, n + 1, b + 1) <==> IsBorder(p, n, b) && p[b] == p[n]
  {
    if IsBorder(p, n + 1, b + 1) {
      assert p[..b] == p[..b + 1][..b];
      assert p[n - b..n] == p[n - b..n + 1][..b];
      assert p[b] == p[..b + 1][b] == p[n - b..n + 1][b] == p[n];
    }
    if IsBorder(p, n, b) && p[b] == p[n] {
      assert p[..b + 1] == p[..b] + [p[b]];
      assert p[n - b..n + 1] == p[n - b..n] + [p[n]];
    }
  }

  /** No border of `p[..i]` longer than the candidate `len` can be extended
      by `p[i]`: the invariant of the table loop. */
  ghost predicate CandidateInvariant(p: string, i: nat, len: nat)
    requires i < |p|
  {
    forall b: nat :: len < b < i && IsBorder(p, i, b) ==> p[b] != p[i]
  }

  /** When the candidate border `p[..len]` of `p[..i]` extends by `p[i]`,
      it gives the longest border of `p[..i+1]`. */
  lemma LongestAfterExtension(p: string, i: nat, len: nat)
    requires i < |p| && IsBorder(p, i, len) && p[len] == p[i]
    requires CandidateInvariant(p, i, len)
    ensures IsLongestBorder(p, i + 1, len + 1)
  {
    BorderExtension(p, i, len);
    var n := i + 1;
    forall b: nat | IsBorder(p, n, b)
      ensures b <= len + 1
    {
      if b > 0 {
        BorderExtension(p, i, b - 1);
      }
    }
  }

  /** When no candidate is left and `p[0]` does not extend either, the
      longest border of `p[..i+1]` is empty. */
  lemma LongestEmpty(p: string, i: nat)
    requires 0 < i < |p| && p[0] != p[i]
    requires CandidateInvariant(p, i, 0)
    ensures IsLongestBorder(p, i + 1, 0)
  {
    var n := i + 1;
    forall b: nat | IsBorder(p, n, b)
      ensures b <= 0
    {
      if b > 0 {
        BorderExtension(p, i, b - 1);
      }
    }
  }

  /** Falling back from candidate `len` to the longest border of `p[..len]`
      skips no border that could extend. */
  lemma FallbackKeepsCandidate(p: string, i: nat, len: nat, next: nat)
    requires i < |p| && 0 < len && IsBorder(p, i, len) && p[len] != p[i]
    requires CandidateInvariant(p, i, len)
    requires IsLongestBorder(p, len, next)
    ensures IsBorder(p, i, next)
    ensures CandidateInvariant(p, i, next)
  {
    BorderTransitive(p, i, len, next);
    forall b: nat | next < b < i && IsBorder(p, i, b)
      ensures p[b] != p[i]
    {
      if b < len {
        ShorterBorderIsBorderOfBorder(p, i, len, b);
      }
    }
  }

  /** The border table of `computeLPSArray`: entry `q` is the length of the
      longest proper border of `pattern[..q+1]`. */
  method ComputeLps(pattern: string) returns (lps: seq<nat>)
    ensures |lps| == |pattern|
    ensures |pattern| > 0 ==> lps[0] == 0
    ensures forall q :: 0 <= q < |pattern| ==> lps[q] <= q && IsLongestBorder(pattern, q + 1, lps[q])
  {
    var m := |pattern|;
    lps := seq(m, _ => 0);
    var len := 0;
    var i := 1;
    if m > 0 {
      assert IsLongestBorder(pattern, 1, 0);
    }
    while i < m
      invariant |lps| == m
      invariant m == 0 || i <= m
      invariant 0 <= len < i
      invariant i <= m ==> IsBorder(pattern, i, len)
      invariant i < m ==> CandidateInvariant(pattern, i, len)
      invariant forall q :: 0 <= q < i && q < m ==> IsLongestBorder(pattern, q + 1, lps[q])
      decreases m - i, len
    {
      if pattern[i] == pattern[len] {
        LongestAfterExtension(pattern, i, len);
        len := len + 1;
        lps := lps[i := len];
        i := i + 1;
      } else {
        if len != 0 {
          FallbackKeepsCandidate(pattern, i, len, lps[len - 1]);
          len := lps[len - 1];
        } else {
          LongestEmpty(pattern, i);
          lps := lps[i := 0];
          i := i + 1;
        }
      }
    }
  }

  /** The scan state of `kmpSearch`: the `j` characters before text
      position `i` match the first `j` characters of the pattern. */
  predicate PartialMatch(text: string, pattern: string, i: nat, j: nat)
  {
    j <= i <= |text| && j <= |pattern| && text[i - j..i] == pattern[..j]
  }

  /** No occurrence of `pattern` starts before `s`. */
  ghost predicate NoneBefore(text: string, pattern: string, s: int)
  {
    forall q :: 0 <= q < s ==> !OccursAt(text, pattern, q)
  }

  /** A character match extends the partial match by one. */
  lemma MatchStep(text: string, pattern: string, i: nat, j: nat)
    requires PartialMatch(text, pattern, i, j) && i < |text| && j < |pattern|
    requires text[i] == pattern[j]
    ensures PartialMatch(text, pattern, i + 1, j + 1)
  {
    assert text[i - j..i + 1] == text[i - j..i] + [text[i]];
    assert pattern[..j + 1] == pattern[..j] + [pattern[j]];
  }

  /** A mismatch after a partial match of length `j` at `i - j` rules out
      every start position before `i - b`, where `b` is the longest border
      of the matched part: this is what lets the scan fall back to `b`
      without moving `i`. */
  lemma FallbackStep(text: string, pattern: string, i: nat, j: nat, b: nat)
    requires 0 < j < |pattern| && i < |text| && PartialMatch(text, pattern, i, j)
    requires text[i] != pattern[j]
    requires IsLongestBorder(pattern, j, b)
    requires NoneBefore(text, pattern, i - j)
    ensures PartialMatch(text, pattern, i, b)
    ensures NoneBefore(text, pattern, i - b)
  {
    forall t | 0 <= t < b
      ensures text[i - b..i][t] == pattern[..b][t]
    {
      assert pattern[..b][t] == pattern[j - b..j][t] == pattern[..j][j - b + t];
      assert text[i - j..i][j - b + t] == text[i - b + t];
    }
    forall q | i - j <= q < i - b
      ensures !OccursAt(text, pattern, q)
    {
      NoOccurrenceInWindow(text, pattern, i, j, b, q);
    }
  }

  /** An occurrence starting inside the partial match agrees with it: one
      starting exactly at `i - j` continues with `pattern[j]` at `i`, and
      one starting later makes its overlap with the match a border. */
  lemma OccurrenceInsideMatch(text: string, pattern: string, i: nat, j: nat, q: int)
    requires 0 < j < |pattern| && i < |text| && PartialMatch(text, pattern, i, j)
    requires i - j <= q < i
    ensures OccursAt(text, pattern, q) && q == i - j ==> text[i] == pattern[j]
    ensures OccursAt(text, pattern, q) && q > i - j ==> IsBorder(pattern, j, i - q)
  {
    var m := |pattern|;
    if OccursAt(text, pattern, q) {
      if q == i - j {
        assert text[q..q + m][j] == pattern[j];
      } else {
        var k := i - q;
        forall t | 0 <= t < k
          ensures pattern[t] == pattern[j - k + t]
        {
          assert pattern[t] == text[q..q + m][t] == text[q + t];
          assert pattern[j - k + t] == pattern[..j][j - k + t] == text[i - j..i][j - k + t];
        }
        assert pattern[..k] == pattern[j - k..j];
      }
    }
  }

  lemma NoOccurrenceInWindow(text: string, pattern: string, i: nat, j: nat, b: nat, q: int)
    requires 0 < j < |pattern| && i < |text| && PartialMatch(text, pattern, i, j)
    requires text[i] != pattern[j]
    requires IsLongestBorder(pattern, j, b)
    requires i - j <= q < i - b
    ensures !OccursAt(text, pattern, q)
  {
    OccurrenceInsideMatch(text, pattern, i, j, q);
  }

  /** A mismatch against the first pattern character rules out the current
      text position as a start. */
  lemma AdvanceStep(text: string, pattern: string, i: nat)
    requires 0 < |pattern| && i < |text| && text[i] != pattern[0]
    requires NoneBefore(text, pattern, i)
    ensures NoneBefore(text, pattern, i + 1)
  {
  }

  /** When the text is exhausted with a partial match shorter than the
      pattern, the pattern occurs nowhere. */
  lemma ExhaustedStep(text: string, pattern: string, j: nat)
    requires j < |pattern| && j <= |text|
    requires NoneBefore(text, pattern, |text| - j)
    ensures !Occurs(text, pattern)
  {
  }

  /** `kmpSearch`: the index of the leftmost occurrence of `pattern` in
      `text`, or -1 when there is none. */
  method KmpSearch(text: string, pattern: string) returns (r: int)
    ensures r == -1 || 0 <= r <= |text| - |pattern|
    ensures IsLeftmostOccurrence(text, pattern, r)
    ensures r == NaiveSearch(text, pattern)
    ensures |pattern| == 0 ==> r == 0
    ensures |pattern| > |text| ==> r == -1
  {
    var m := |pattern|;
    var n := |text|;
    if m == 0 {
      assert OccursAt(text, pattern, 0);
      LeftmostOccurrenceUnique(text, pattern, 0, NaiveSearch(text, pattern));
      return 0;
    }
    var lps := ComputeLps(pattern);
    var i := 0;
    var j := 0;
    while i < n
      invariant 0 <= j < m
      invariant PartialMatch(text, pattern, i, j)
      invariant NoneBefore(text, pattern, i - j)
      decreases n - i, j
    {
      if pattern[j] == text[i] {
        MatchStep(text, pattern, i, j);
        i := i + 1;
        j := j + 1;
      }
      if j == m {
        r := i - j;
        assert OccursAt(text, pattern, r);
        LeftmostOccurrenceUnique(text, pattern, r, NaiveSearch(text, pattern));
        return;
      } else if i < n && pattern[j] != text[i] {
        if j != 0 {
          FallbackStep(text, pattern, i, j, lps[j - 1]);
          j := lps[j - 1];
        } else {
          AdvanceStep(text, pattern, i);
          i := i + 1;
        }
      }
    }
    r := -1;
    ExhaustedStep(text, pattern, j);
    LeftmostOccurrenceUnique(text, pattern, r, NaiveSearch(text, pattern));
  }
}
