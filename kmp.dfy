/**
 * `kmp_search` of run_examples.py: Knuth-Morris-Pratt substring search. The
 * table `lps` holds, for each prefix of the pattern, the length of its longest
 * proper prefix that is also a suffix; the search falls back through that table
 * on a mismatch instead of moving back in the text.
 */
module Kmp {
  /** The pattern occurs in the text at position s. */
  ghost predicate MatchAt(t: string, p: string, s: int)
  {
    0 <= s && s + |p| <= |t| && forall k :: 0 <= k < |p| ==> t[s + k] == p[k]
  }

  /** The pattern occurs nowhere before position e. */
  ghost predicate NoMatchBefore(t: string, p: string, e: int)
  {
    forall s :: 0 <= s < e ==> !MatchAt(t, p, s)
  }

  /** p[..l] is a proper border of p[..n]: a prefix of it that is also a suffix of it, shorter than it. */
  ghost predicate Border(p: string, n: int, l: int)
  {
    0 <= l < n <= |p| && forall k :: 0 <= k < l ==> p[k] == p[n - l + k]
  }

  /** l is the length of the longest proper border of p[..n]. */
  ghost predicate Longest(p: string, n: int, l: int)
  {
    Border(p, n, l) && forall m :: l < m < n ==> !Border(p, n, m)
  }

  /** A border extends by one character exactly when the next characters agree. */
  lemma BorderExtend(p: string, n: int, l: int)
    requires 0 <= l < n < |p|
    ensures Border(p, n + 1, l + 1) <==> Border(p, n, l) && p[l] == p[n]
  {
    if Border(p, n, l) && p[l] == p[n] {
      forall k | 0 <= k < l + 1 ensures p[k] == p[n + 1 - (l + 1) + k] {
        if k < l {
          assert p[k] == p[n - l + k];
        }
      }
    }
    if Border(p, n + 1, l + 1) {
      forall k | 0 <= k < l ensures p[k] == p[n - l + k] {
        assert p[k] == p[n + 1 - (l + 1) + k];
      }
      assert p[l] == p[n + 1 - (l + 1) + l];
    }
  }

  /** Below a border of length m, the borders of p[..n] are the borders of p[..m]. */
  lemma BorderOfBorder(p: string, n: int, m: int, l: int)
    requires Border(p, n, m) && 0 <= l < m
    ensures Border(p, n, l) <==> Border(p, m, l)
  {
    if Border(p, m, l) {
      forall k | 0 <= k < l ensures p[k] == p[n - l + k] {
        assert p[k] == p[m - l + k];
        assert p[m - l + k] == p[n - m + (m - l + k)];
      }
    }
    if Border(p, n, l) {
      forall k | 0 <= k < l ensures p[k] == p[m - l + k] {
        assert p[k] == p[n - l + k];
        assert p[m - l + k] == p[n - m + (m - l + k)];
      }
    }
  }

  /** Each entry of t is the length of the longest proper border of the prefix of p ending there. */
  ghost predicate Table(p: string, t: seq<int>)
  {
    |t| <= |p| && forall k :: 0 <= k < |t| ==> Longest(p, k + 1, t[k])
  }

  /** A table grows by the longest border of the next prefix. */
  lemma TableSnoc(p: string, t: seq<int>, l: int)
    requires Table(p, t) && |t| < |p| && Longest(p, |t| + 1, l)
    ensures Table(p, t + [l])
  {
  }

  /** The loop that fills `lps`, each entry the longest proper border of the prefix ending there. */
  method ComputeLps(p: string) returns (lps: array<int>)
    ensures fresh(lps) && lps.Length == |p|
    ensures forall i :: 0 <= i < |p| ==> Longest(p, i + 1, lps[i]) && 0 <= lps[i] <= i
  {
    lps := new int[|p|](_ => 0);
    if |p| == 0 {
      return;
    }
    var length := 0;
    var i := 1;
    while i < |p|
      invariant 1 <= i <= |p|
      invariant Table(p, lps[..i])
      invariant Border(p, i, length)
      invariant i < |p| ==> forall m :: length < m < i && Border(p, i, m) ==> p[m] != p[i]
      decreases |p| - i, length
    {
      ghost var t := lps[..i];
      if p[i] == p[length] {
        ExtendLongest(p, i, length);
        TableSnoc(p, t, length + 1);
        length := length + 1;
        lps[i] := length;
        assert lps[..i + 1] == t + [length];
        i := i + 1;
      } else if length != 0 {
        assert t[length - 1] == lps[length - 1];
        FallBack(p, i, length, lps[length - 1]);
        length := lps[length - 1];
      } else {
        NoBorder(p, i);
        TableSnoc(p, t, 0);
        lps[i] := 0;
        assert lps[..i + 1] == t + [0];
        i := i + 1;
      }
    }
    assert lps[..] == lps[..i];
    forall k | 0 <= k < |p| ensures Longest(p, k + 1, lps[k]) && 0 <= lps[k] <= k {
      assert lps[..i][k] == lps[k];
    }
  }

  /** Extending the longest unextended border gives the longest border one character on. */
  lemma ExtendLongest(p: string, i: int, length: int)
    requires 0 <= length < i < |p| && Border(p, i, length) && p[i] == p[length]
    requires forall m :: length < m < i && Border(p, i, m) ==> p[m] != p[i]
    ensures Longest(p, i + 1, length + 1)
  {
    BorderExtend(p, i, length);
    var n := i + 1;
    forall m | length + 1 < m < n ensures !Border(p, n, m) {
      BorderExtend(p, i, m - 1);
    }
  }

  /** Falling back to the longest border of the border still leaves every longer border tried. */
  lemma FallBack(p: string, i: int, length: int, next: int)
    requires 0 < length < i < |p| && Border(p, i, length) && p[i] != p[length]
    requires forall m :: length < m < i && Border(p, i, m) ==> p[m] != p[i]
    requires Longest(p, length, next)
    ensures Border(p, i, next) && next < length
    ensures forall m :: next < m < i && Border(p, i, m) ==> p[m] != p[i]
  {
    BorderOfBorder(p, i, length, next);
    forall m | next < m < length && Border(p, i, m) ensures false {
      BorderOfBorder(p, i, length, m);
    }
  }

  /** When even the empty border does not extend, the prefix one character on has only the empty border. */
  lemma NoBorder(p: string, i: int)
    requires 0 < i < |p| && p[i] != p[0]
    requires forall m :: 0 < m < i && Border(p, i, m) ==> p[m] != p[i]
    ensures Longest(p, i + 1, 0)
  {
    var n := i + 1;
    forall m | 0 < m < n ensures !Border(p, n, m) {
      BorderExtend(p, i, m - 1);
    }
  }

  /**
   * `kmp_search(text, pattern)`: the position of the first occurrence of the
   * pattern in the text, -1 when there is none, and 0 for the empty pattern.
   */
  method KmpSearch(t: string, p: string) returns (r: int)
    ensures r == -1 <==> forall s :: !MatchAt(t, p, s)
    ensures r != -1 ==> MatchAt(t, p, r) && NoMatchBefore(t, p, r)
    ensures p == [] ==> r == 0
  {
    if p == [] {
      assert MatchAt(t, p, 0);
      return 0;
    }
    var lps := ComputeLps(p);
    var i, j := 0, 0;
    while i < |t|
      invariant 0 <= j < |p| && j <= i <= |t|
      invariant forall k :: 0 <= k < |p| ==> Longest(p, k + 1, lps[k])
      invariant forall k :: 0 <= k < j ==> t[i - j + k] == p[k]
      invariant NoMatchBefore(t, p, i - j)
      decreases |t| - i, j
    {
      if t[i] == p[j] {
        i, j := i + 1, j + 1;
        if j == |p| {
          assert MatchAt(t, p, i - j);
          return i - j;
        }
      } else if j != 0 {
        Shift(t, p, i, j, lps[j - 1]);
        j := lps[j - 1];
      } else {
        assert !MatchAt(t, p, i) by {
          assert t[i + 0] != p[0];
        }
        i := i + 1;
      }
    }
    forall s ensures !MatchAt(t, p, s) {
      if s >= i - j {
        assert s + |p| > |t|;
      }
    }
    return -1;
  }

  /** After a mismatch, falling back to the longest border skips no occurrence and keeps the partial match. */
  lemma Shift(t: string, p: string, i: int, j: int, next: int)
    requires 0 < j < |p| && j <= i < |t| && t[i] != p[j]
    requires forall k :: 0 <= k < j ==> t[i - j + k] == p[k]
    requires NoMatchBefore(t, p, i - j)
    requires Longest(p, j, next)
    ensures forall k :: 0 <= k < next ==> t[i - next + k] == p[k]
    ensures NoMatchBefore(t, p, i - next)
  {
    forall k | 0 <= k < next ensures t[i - next + k] == p[k] {
      assert p[k] == p[j - next + k];
      assert t[i - j + (j - next + k)] == p[j - next + k];
    }
    forall s | i - j <= s < i - next ensures !MatchAt(t, p, s) {
      if s == i - j {
        assert t[s + j] != p[j];
      } else {
        var l := i - s;
        assert !Border(p, j, l);
        var k :| 0 <= k < l && p[k] != p[j - l + k];
        assert t[i - j + (j - l + k)] == p[j - l + k];
        assert t[s + k] != p[k];
      }
    }
  }
}
