/**
 * The array helpers of run_examples.py: Kadane's `max_subarray`, the
 * dictionary-based `two_sum`, and `rotate_right`, which rotates a list in place
 * by three reversals.
 */
module ArrayHelpers {
  import opened Seqs

  // ---------------------------------------------------------------------------
  // `max_subarray`

  /** The starting value of `best`, -10**18; it is also the answer for an empty list. */
  const Sentinel: int := -1_000_000_000_000_000_000

  /** a[lo] + ... + a[hi - 1]. */
  function Sum(a: seq<int>, lo: int, hi: int): int
    requires 0 <= lo && hi <= |a|
    decreases hi - lo
  {
    if lo >= hi then 0 else Sum(a, lo, hi - 1) + a[hi - 1]
  }

  /**
   * `max_subarray(a)`: the largest sum of a non-empty run of consecutive
   * elements, or the sentinel when that is larger (in particular for an empty list).
   */
  method MaxSubarray(a: seq<int>) returns (best: int)
    ensures best >= Sentinel
    ensures forall lo, hi :: 0 <= lo < hi <= |a| ==> Sum(a, lo, hi) <= best
    ensures best == Sentinel || exists lo, hi :: 0 <= lo < hi <= |a| && Sum(a, lo, hi) == best
  {
    best := Sentinel;
    var cur := 0;
    ghost var curLo := 0;
    ghost var bestLo, bestHi := 0, 0;
    var i := 0;
    while i < |a|
      invariant 0 <= i <= |a|
      invariant i == 0 ==> cur == 0
      invariant i > 0 ==> 0 <= curLo < i && Sum(a, curLo, i) == cur
      invariant forall lo :: 0 <= lo < i ==> Sum(a, lo, i) <= cur
      invariant best >= Sentinel
      invariant forall lo, hi :: 0 <= lo < hi <= i ==> Sum(a, lo, hi) <= best
      invariant best == Sentinel || (0 <= bestLo < bestHi <= i && Sum(a, bestLo, bestHi) == best)
    {
      var x := a[i];
      assert Sum(a, i, i + 1) == x;
      if x >= cur + x {
        cur := x;
        curLo := i;
      } else {
        assert Sum(a, curLo, i + 1) == Sum(a, curLo, i) + x;
        cur := cur + x;
      }
      var next := i + 1;
      forall lo | 0 <= lo < next ensures Sum(a, lo, next) <= cur {
        if lo < i {
          assert Sum(a, lo, next) == Sum(a, lo, i) + x;
        }
      }
      if cur > best {
        best := cur;
        bestLo, bestHi := curLo, next;
      }
      i := next;
    }
  }

  // ---------------------------------------------------------------------------
  // `two_sum`

  /** Some earlier position pairs up with a later one to make the target, both below n. */
  ghost predicate PairBelow(a: seq<int>, target: int, n: int)
  {
    exists p, q :: 0 <= p < q < n && q < |a| && a[p] + a[q] == target
  }

  /**
   * `two_sum(a, target)`: `[]` when no two positions sum to the target; otherwise
   * `[p, q]` where q is the first position completing a pair and p the latest
   * earlier position holding `target - a[q]` (the dictionary keeps the last index
   * seen for each value).
   */
  method TwoSum(a: seq<int>, target: int) returns (r: seq<int>)
    ensures r == [] <==> !PairBelow(a, target, |a|)
    ensures r != [] ==> |r| == 2 && 0 <= r[0] < r[1] < |a| && a[r[0]] + a[r[1]] == target
    ensures r != [] ==> !PairBelow(a, target, r[1])
    ensures r != [] ==> forall p :: r[0] < p < r[1] ==> a[p] + a[r[1]] != target
  {
    var seen: map<int, int> := map[];
    var i := 0;
    while i < |a|
      invariant 0 <= i <= |a|
      invariant Seen(a, seen, i)
      invariant !PairBelow(a, target, i)
    {
      var x := a[i];
      if target - x in seen {
        SeenPair(a, target, seen, i);
        return [seen[target - x], i];
      }
      SeenExtend(a, target, seen, i);
      seen := seen[x := i];
      i := i + 1;
    }
    return [];
  }

  /** What the dictionary holds after i steps: every value of a[..i], mapped to the last position holding it. */
  ghost predicate Seen(a: seq<int>, seen: map<int, int>, i: int)
  {
    && 0 <= i <= |a|
    && (forall j :: 0 <= j < i ==> a[j] in seen)
    && (forall v :: v in seen ==> 0 <= seen[v] < i && a[seen[v]] == v)
    && (forall v, j :: v in seen && seen[v] < j < i ==> a[j] != v)
  }

  /** When a[i]'s complement is in the dictionary, its position and i are the first pair. */
  lemma SeenPair(a: seq<int>, target: int, seen: map<int, int>, i: int)
    requires i < |a| && Seen(a, seen, i) && !PairBelow(a, target, i)
    requires target - a[i] in seen
    ensures 0 <= seen[target - a[i]] < i && a[seen[target - a[i]]] + a[i] == target
    ensures forall p :: seen[target - a[i]] < p < i ==> a[p] + a[i] != target
    ensures PairBelow(a, target, |a|)
  {
    var p := seen[target - a[i]];
    assert 0 <= p < i < |a| && a[p] + a[i] == target;
  }

  /** When a[i]'s complement is not in the dictionary, recording a[i] keeps it exact and no pair ends at i. */
  lemma SeenExtend(a: seq<int>, target: int, seen: map<int, int>, i: int)
    requires i < |a| && Seen(a, seen, i) && !PairBelow(a, target, i)
    requires target - a[i] !in seen
    ensures Seen(a, seen[a[i] := i], i + 1)
    ensures !PairBelow(a, target, i + 1)
  {
    assert forall p :: 0 <= p < i ==> a[p] + a[i] != target;
  }

  // ---------------------------------------------------------------------------
  // `rotate_right`

  /** s rotated right by k places: its last k elements moved to the front. */
  function Rotated<T>(s: seq<T>, k: nat): (r: seq<T>)
    requires k <= |s|
  {
    s[|s| - k..] + s[..|s| - k]
  }

  /** Rotating right by k moves the first n - k elements k places on and wraps the rest round to the front. */
  lemma RotatedAt<T>(s: seq<T>, k: nat)
    requires k <= |s|
    ensures |Rotated(s, k)| == |s|
    ensures forall i :: 0 <= i < |s| - k ==> Rotated(s, k)[i + k] == s[i]
    ensures forall i :: |s| - k <= i < |s| ==> Rotated(s, k)[i - (|s| - k)] == s[i]
  {
  }

  /** Rotating keeps the elements: the result is a permutation of the input. */
  lemma RotatedMultiset<T>(s: seq<T>, k: nat)
    requires k <= |s|
    ensures multiset(Rotated(s, k)) == multiset(s)
  {
    assert s == s[..|s| - k] + s[|s| - k..];
  }

  /** s with the slice s[lo..hi] reversed: the slice assignment `a[lo:hi] = a[lo:hi][::-1]`. */
  function ReversedRange(s: seq<int>, lo: int, hi: int): (r: seq<int>)
    requires 0 <= lo <= hi <= |s|
  {
    seq(|s|, j requires 0 <= j < |s| => if lo <= j < hi then s[hi - 1 - (j - lo)] else s[j])
  }

  /** Pointwise reversal of a range is reversing that slice and putting it back between the rest. */
  lemma ReversedRangeSlices(s: seq<int>, lo: int, hi: int)
    requires 0 <= lo <= hi <= |s|
    ensures ReversedRange(s, lo, hi) == s[..lo] + Reverse(s[lo..hi]) + s[hi..]
  {
    var m := s[lo..hi];
    ReverseIndexed(m);
    var r := ReversedRange(s, lo, hi);
    var t := s[..lo] + Reverse(m) + s[hi..];
    forall j | 0 <= j < |s| ensures r[j] == t[j] {
      if lo <= j < hi {
        assert t[j] == Reverse(m)[j - lo];
      }
    }
  }

  /** Reversing the whole, then the first k elements, then the rest, is rotating right by k. */
  lemma ThreeReversals(s: seq<int>, k: nat)
    requires k <= |s|
    ensures ReversedRange(ReversedRange(ReversedRange(s, 0, |s|), 0, k), k, |s|) == Rotated(s, k)
  {
    var n := |s|;
    var r1 := ReversedRange(s, 0, n);
    var r2 := ReversedRange(r1, 0, k);
    var r3 := ReversedRange(r2, k, n);
    var rot := Rotated(s, k);
    forall j | 0 <= j < n ensures r3[j] == rot[j] {
      if j < k {
        assert r3[j] == r2[j] == r1[k - 1 - j] == s[n - k + j];
      } else {
        assert r3[j] == r2[n - 1 - (j - k)] == r1[n - 1 - (j - k)] == s[j - k];
      }
    }
  }

  /** The slice assignment `a[lo:hi] = a[lo:hi][::-1]`, in place. */
  method ReverseSlice(a: array<int>, lo: int, hi: int)
    requires 0 <= lo <= hi <= a.Length
    modifies a
    ensures a[..] == ReversedRange(old(a[..]), lo, hi)
  {
    var t := a[lo..hi];
    forall j | lo <= j < hi {
      a[j] := t[hi - 1 - j];
    }
  }

  /**
   * `rotate_right(a, k)`: on a non-empty list, reverses the whole, then the first
   * `k % n` and the rest, which rotates right by `k % n`. On an empty list `k %= n`
   * divides by zero; the model reports that with `ok == false` and changes nothing.
   */
  method RotateRight(a: array<int>, k: int) returns (ok: bool)
    modifies a
    ensures ok <==> a.Length > 0
    ensures ok ==> a[..] == Rotated(old(a[..]), k % a.Length)
    ensures !ok ==> a[..] == old(a[..])
  {
    var n := a.Length;
    if n == 0 {
      return false;
    }
    ghost var s := a[..];
    var m := k % n;
    ReverseSlice(a, 0, n);
    ReverseSlice(a, 0, m);
    ReverseSlice(a, m, n);
    ThreeReversals(s, m);
    return true;
  }

  /** The rotated array holds the same elements, each moved k % n places to the right. */
  lemma RotateRightSpec(old_: seq<int>, new_: seq<int>, k: int)
    requires |old_| > 0 && new_ == Rotated(old_, k % |old_|)
    ensures multiset(new_) == multiset(old_)
    ensures forall i :: 0 <= i < |old_| - k % |old_| ==> new_[i + k % |old_|] == old_[i]
    ensures forall i :: |old_| - k % |old_| <= i < |old_| ==> new_[i - (|old_| - k % |old_|)] == old_[i]
  {
    RotatedMultiset(old_, k % |old_|);
    RotatedAt(old_, k % |old_|);
  }
}
