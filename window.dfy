/**
 * The two monotonic-stack helpers of run_examples.py: `sliding_window_max`,
 * which keeps a deque of indices whose values decrease from front to back, and
 * `next_greater`, which keeps a stack of indices still waiting for a greater
 * value to their right. Both are proved against direct definitions.
 */
module Window {
  /** The largest element of a non-empty sequence. */
  function Max(s: seq<int>): int
    requires s != []
  {
    if |s| == 1 then s[0]
    else
      var m := Max(s[..|s| - 1]);
      if s[|s| - 1] > m then s[|s| - 1] else m
  }

  /** The maximum is one of the elements and no element exceeds it. */
  lemma {:induction false} MaxBounds(s: seq<int>)
    requires s != []
    ensures Max(s) in s && forall i :: 0 <= i < |s| ==> s[i] <= Max(s)
  {
    if |s| > 1 {
      var p := s[..|s| - 1];
      MaxBounds(p);
      forall i | 0 <= i < |s| - 1 ensures s[i] <= Max(s) {
        assert s[i] == p[i];
      }
      assert Max(p) in p ==> Max(p) in s;
    }
  }

  /** An element of s that no element exceeds is the maximum. */
  lemma MaxIs(s: seq<int>, i: int)
    requires 0 <= i < |s| && forall j :: 0 <= j < |s| ==> s[j] <= s[i]
    ensures Max(s) == s[i]
  {
    MaxBounds(s);
  }

  /** The maximum of every full window of width k inside a[..n], left to right. */
  function Maxima(a: seq<int>, k: int, n: int): seq<int>
    requires 0 < k && 0 <= n <= |a|
  {
    if n < k then [] else Maxima(a, k, n - 1) + [Max(a[n - k..n])]
  }

  /** The maximum of every full window of width k, left to right; none when the input is empty or k <= 0. */
  function WindowMaxima(a: seq<int>, k: int): seq<int>
  {
    if a == [] || k <= 0 then [] else Maxima(a, k, |a|)
  }

  /** The windows inside a[..n]: one per start position, each with its maximum. */
  lemma {:induction false} MaximaAt(a: seq<int>, k: int, n: int)
    requires 0 < k && 0 <= n <= |a|
    ensures |Maxima(a, k, n)| == if n >= k then n - k + 1 else 0
    ensures forall j :: 0 <= j < |Maxima(a, k, n)| ==> Maxima(a, k, n)[j] == Max(a[j..j + k])
  {
    if n >= k {
      MaximaAt(a, k, n - 1);
      var p, r := Maxima(a, k, n - 1), Maxima(a, k, n);
      assert r == p + [Max(a[n - k..n])];
      forall j | 0 <= j < |r| ensures r[j] == Max(a[j..j + k]) {
        if j < |p| {
          assert r[j] == p[j];
        }
      }
    }
  }

  /** One entry per full window, each the largest value of its window and one of them. */
  lemma WindowMaximaSpec(a: seq<int>, k: int)
    ensures |WindowMaxima(a, k)| == if a == [] || k <= 0 || k > |a| then 0 else |a| - k + 1
    ensures forall j :: 0 <= j < |WindowMaxima(a, k)| ==>
      WindowMaxima(a, k)[j] in a[j..j + k] && forall m :: j <= m < j + k ==> a[m] <= WindowMaxima(a, k)[j]
  {
    var r := WindowMaxima(a, k);
    if a != [] && k > 0 {
      MaximaAt(a, k, |a|);
      forall j | 0 <= j < |r| ensures r[j] in a[j..j + k] && forall m :: j <= m < j + k ==> a[m] <= r[j] {
        var w := a[j..j + k];
        assert r[j] == Max(w);
        MaxBounds(w);
        forall m | j <= m < j + k ensures a[m] <= r[j] {
          assert w[m - j] == a[m];
        }
      }
    }
  }

  // ---------------------------------------------------------------------------
  // The deque of `sliding_window_max`

  /** Strictly increasing indices. */
  ghost predicate Increasing(dq: seq<int>)
  {
    forall x, y :: 0 <= x < y < |dq| ==> dq[x] < dq[y]
  }

  /** Every index lies in [lo, hi) and in the array. */
  ghost predicate InRange(dq: seq<int>, lo: int, hi: int, n: int)
  {
    forall x :: 0 <= x < |dq| ==> 0 <= dq[x] < n && lo <= dq[x] < hi
  }

  /** The values at the indices never increase from front to back. */
  ghost predicate NonIncreasing(a: seq<int>, dq: seq<int>)
  {
    forall x, y {:trigger a[dq[x]], a[dq[y]]} :: 0 <= x < y < |dq| && 0 <= dq[x] < |a| && 0 <= dq[y] < |a| ==> a[dq[x]] >= a[dq[y]]
  }

  /** Each index dominates the positions between its predecessor in the deque and itself. */
  ghost predicate Gaps(a: seq<int>, dq: seq<int>)
  {
    forall x, m {:trigger a[m], a[dq[x]]} :: 0 < x < |dq| && dq[x - 1] < m <= dq[x] && 0 <= m && dq[x] < |a| ==> a[m] <= a[dq[x]]
  }

  /** The front index dominates the window positions up to it. */
  ghost predicate Front(a: seq<int>, dq: seq<int>, lo: int)
  {
    dq != [] && 0 <= dq[0] < |a| ==> forall m :: 0 <= m && lo <= m <= dq[0] ==> a[m] <= a[dq[0]]
  }

  /** The deque kept for the window [lo, hi). */
  ghost predicate Shape(a: seq<int>, dq: seq<int>, lo: int, hi: int)
  {
    InRange(dq, lo, hi, |a|) && Increasing(dq) && NonIncreasing(a, dq) && Gaps(a, dq)
  }

  /** The front dominates every window position up to the j-th index. */
  lemma {:induction false} FrontDominates(a: seq<int>, dq: seq<int>, lo: int, hi: int, j: int)
    requires Shape(a, dq, lo, hi) && Front(a, dq, lo) && 0 <= j < |dq|
    ensures forall m :: 0 <= m && lo <= m <= dq[j] ==> a[m] <= a[dq[0]]
  {
    if j > 0 {
      FrontDominates(a, dq, lo, hi, j - 1);
      forall m | 0 <= m && lo <= m <= dq[j] ensures a[m] <= a[dq[0]] {
        if m > dq[j - 1] {
          assert a[m] <= a[dq[j]];
        }
      }
    }
  }

  /** With the last index at hi - 1, the front holds the maximum of the window [lo, hi). */
  lemma FrontIsMax(a: seq<int>, dq: seq<int>, lo: int, hi: int)
    requires 0 <= lo < hi <= |a|
    requires Shape(a, dq, lo, hi) && Front(a, dq, lo) && dq != [] && dq[|dq| - 1] == hi - 1
    ensures a[dq[0]] == Max(a[lo..hi])
  {
    var w := a[lo..hi];
    FrontDominates(a, dq, lo, hi, |dq| - 1);
    forall j | 0 <= j < |w| ensures w[j] <= w[dq[0] - lo] {
      assert w[j] == a[lo + j];
    }
    MaxIs(w, dq[0] - lo);
  }

  /** Dropping the front index, which has left the window, keeps the shape for the window from lo. */
  lemma PopFront(a: seq<int>, dq: seq<int>, lo: int, hi: int)
    requires dq != [] && dq[0] < lo
    requires Shape(a, dq, lo - 1, hi) && Front(a, dq, lo)
    ensures Shape(a, dq[1..], lo - 1, hi) && Front(a, dq[1..], lo)
  {
    var d := dq[1..];
    if d != [] {
      assert d[0] == dq[1];
      forall m | 0 <= m && lo <= m <= d[0] ensures a[m] <= a[d[0]] {
        assert dq[0] < m;
      }
    }
    assert Gaps(a, d) by {
      forall x, m | 0 < x < |d| && d[x - 1] < m <= d[x] && 0 <= m && d[x] < |a| ensures a[m] <= a[d[x]] {
        assert d[x - 1] == dq[x] && d[x] == dq[x + 1];
      }
    }
  }

  /** Everything the deque does not yet account for, after its last index and before i, is at most a[i]. */
  ghost predicate Pend(a: seq<int>, dq: seq<int>, lo: int, i: int)
    requires 0 <= i < |a|
  {
    forall m :: 0 <= m && lo <= m < i && (dq == [] || dq[|dq| - 1] < m) ==> a[m] <= a[i]
  }

  /** Dropping a back index holding less than a[i] leaves the positions it dominated at most a[i]. */
  lemma PopBack(a: seq<int>, dq: seq<int>, lo: int, i: int)
    requires 0 <= i < |a|
    requires Shape(a, dq, lo, i) && Front(a, dq, lo) && Pend(a, dq, lo, i)
    requires dq != [] && a[dq[|dq| - 1]] < a[i]
    ensures Shape(a, dq[..|dq| - 1], lo, i) && Front(a, dq[..|dq| - 1], lo) && Pend(a, dq[..|dq| - 1], lo, i)
  {
    var d := dq[..|dq| - 1];
    var e := dq[|dq| - 1];
    forall m | 0 <= m && lo <= m < i && (d == [] || d[|d| - 1] < m) ensures a[m] <= a[i] {
      if m <= e {
        if d == [] {
          assert a[m] <= a[dq[0]];
        } else {
          assert dq[|dq| - 2] == d[|d| - 1];
          assert a[m] <= a[dq[|dq| - 1]];
        }
      }
    }
    assert NonIncreasing(a, d) && Gaps(a, d) by {
      forall x | 0 <= x < |d| ensures d[x] == dq[x] {
      }
    }
  }

  /** Appending i behind indices holding at least a[i] keeps them ordered. */
  lemma SnocShape(a: seq<int>, dq: seq<int>, lo: int, i: int)
    requires lo <= i < |a| && 0 <= i
    requires InRange(dq, lo, i, |a|) && Increasing(dq) && NonIncreasing(a, dq)
    requires dq != [] ==> a[dq[|dq| - 1]] >= a[i]
    ensures InRange(dq + [i], lo, i + 1, |a|) && Increasing(dq + [i]) && NonIncreasing(a, dq + [i])
  {
    var e := dq + [i];
    assert InRange(e, lo, i + 1, |a|) by {
      forall x | 0 <= x < |e| ensures 0 <= e[x] < |a| && lo <= e[x] < i + 1 {
        if x < |dq| {
          assert e[x] == dq[x];
        }
      }
    }
    assert NonIncreasing(a, e) by {
      forall x, y | 0 <= x < y < |e| ensures a[e[x]] >= a[e[y]] {
        if y == |dq| {
          assert a[dq[x]] >= a[dq[|dq| - 1]];
        } else {
          assert e[x] == dq[x] && e[y] == dq[y];
        }
      }
    }
  }

  /** Appending i once no smaller value is left at the back keeps the shape, now up to i. */
  lemma Push(a: seq<int>, dq: seq<int>, lo: int, i: int)
    requires lo <= i < |a| && 0 <= i
    requires Shape(a, dq, lo, i) && Front(a, dq, lo) && Pend(a, dq, lo, i)
    requires dq != [] ==> a[dq[|dq| - 1]] >= a[i]
    ensures Shape(a, dq + [i], lo, i + 1) && Front(a, dq + [i], lo)
  {
    var e := dq + [i];
    SnocShape(a, dq, lo, i);
    assert Gaps(a, e) by {
      forall x, m | 0 < x < |e| && e[x - 1] < m <= e[x] && 0 <= m && e[x] < |a| ensures a[m] <= a[e[x]] {
        if x < |dq| {
          assert e[x - 1] == dq[x - 1] && e[x] == dq[x];
        }
      }
    }
  }

  /** `sliding_window_max(a, k)`. */
  method SlidingWindowMax(a: seq<int>, k: int) returns (res: seq<int>)
    ensures res == WindowMaxima(a, k)
  {
    if a == [] || k <= 0 {
      return [];
    }
    var dq: seq<int> := [];
    res := [];
    var i := 0;
    while i < |a|
      invariant 0 <= i <= |a|
      invariant Shape(a, dq, i - k, i) && Front(a, dq, i - k)
      invariant i > 0 ==> dq != [] && dq[|dq| - 1] == i - 1
      invariant res == Maxima(a, k, i)
    {
      dq := Slide(a, dq, i, k);
      if i >= k - 1 {
        res := res + [a[dq[0]]];
      }
      i := i + 1;
    }
  }

  /** One pass of the loop body: drop what left the window, drop what a[i] beats, append i. */
  method Slide(a: seq<int>, dq: seq<int>, i: int, k: int) returns (d: seq<int>)
    requires 0 <= i < |a| && k > 0
    requires Shape(a, dq, i - k, i) && Front(a, dq, i - k)
    requires i > 0 ==> dq != [] && dq[|dq| - 1] == i - 1
    ensures d != [] && d[|d| - 1] == i && 0 <= d[0] <= i
    ensures i >= k - 1 ==> a[d[0]] == Max(a[i + 1 - k..i + 1])
    ensures Shape(a, d, i + 1 - k, i + 1) && Front(a, d, i + 1 - k)
  {
    var e := DropExpired(a, dq, i, k);
    e := DropSmaller(a, e, i, k);
    Append(a, e, i, k);
    d := e + [i];
  }

  /** The `append(i)` that ends the pass: the deque keeps its shape and its front holds the window maximum. */
  lemma Append(a: seq<int>, e: seq<int>, i: int, k: int)
    requires 0 <= i < |a| && k > 0
    requires Shape(a, e, i - k + 1, i) && Front(a, e, i - k + 1) && Pend(a, e, i - k + 1, i)
    requires e != [] ==> a[e[|e| - 1]] >= a[i]
    ensures 0 <= (e + [i])[0] <= i
    ensures i >= k - 1 ==> a[(e + [i])[0]] == Max(a[i + 1 - k..i + 1])
    ensures Shape(a, e + [i], i + 1 - k, i + 1) && Front(a, e + [i], i + 1 - k)
  {
    var lo := i - k + 1;
    var d := e + [i];
    Push(a, e, lo, i);
    assert 0 <= d[0] < |a| by {
      assert InRange(d, lo, i + 1, |a|);
    }
    if i >= k - 1 {
      FrontIsMax(a, d, lo, i + 1);
    }
  }

  /** The first inner loop: `popleft` while the front index has left the window ending at i. */
  method DropExpired(a: seq<int>, dq: seq<int>, i: int, k: int) returns (d: seq<int>)
    requires 0 <= i < |a| && k > 0
    requires Shape(a, dq, i - k, i) && Front(a, dq, i - k)
    requires i > 0 ==> dq != [] && dq[|dq| - 1] == i - 1
    ensures Shape(a, d, i - k + 1, i) && Front(a, d, i - k + 1)
    ensures d == [] ==> i == 0 || k == 1
    ensures d != [] ==> d[|d| - 1] == i - 1
  {
    d := dq;
    while d != [] && d[0] <= i - k
      invariant Shape(a, d, i - k, i) && Front(a, d, i - k + 1)
      invariant i > 0 && k > 1 ==> d != [] && d[|d| - 1] == i - 1
      invariant d != [] ==> d[|d| - 1] == i - 1
      decreases |d|
    {
      PopFront(a, d, i - k + 1, i);
      d := d[1..];
    }
  }

  /** The second inner loop: `pop` while the back index holds less than a[i]. */
  method DropSmaller(a: seq<int>, dq: seq<int>, i: int, k: int) returns (d: seq<int>)
    requires 0 <= i < |a| && k > 0
    requires Shape(a, dq, i - k + 1, i) && Front(a, dq, i - k + 1)
    requires dq == [] ==> i == 0 || k == 1
    requires dq != [] ==> dq[|dq| - 1] == i - 1
    ensures Shape(a, d, i - k + 1, i) && Front(a, d, i - k + 1) && Pend(a, d, i - k + 1, i)
    ensures d != [] ==> a[d[|d| - 1]] >= a[i]
  {
    d := dq;
    while d != [] && a[d[|d| - 1]] < a[i]
      invariant Shape(a, d, i - k + 1, i) && Front(a, d, i - k + 1) && Pend(a, d, i - k + 1, i)
      decreases |d|
    {
      PopBack(a, d, i - k + 1, i);
      d := d[..|d| - 1];
    }
  }

  // ---------------------------------------------------------------------------
  // `next_greater`

  /** The first value after position j - 1 that exceeds a[i], or -1 if none does. */
  function NextGreaterFrom(a: seq<int>, i: nat, j: nat): int
    requires i < |a|
    decreases |a| - j
  {
    if j >= |a| then -1 else if a[j] > a[i] then a[j] else NextGreaterFrom(a, i, j + 1)
  }

  /** What `next_greater` returns: for each position the first value to its right exceeding it, else -1. */
  function NextGreaterAll(a: seq<int>): seq<int>
  {
    seq(|a|, i requires 0 <= i < |a| => NextGreaterFrom(a, i, i + 1))
  }

  /**
   * The scan gives the first value at or after j exceeding a[i] when there is one,
   * and -1 when none does (a -1 found as that value is indistinguishable, as in the source).
   */
  lemma {:induction false} NextGreaterFromSpec(a: seq<int>, i: nat, j: nat)
    requires i < |a|
    decreases |a| - j
    ensures forall m :: j <= m < |a| && a[m] > a[i] && (forall l :: j <= l < m ==> a[l] <= a[i]) ==> NextGreaterFrom(a, i, j) == a[m]
    ensures NextGreaterFrom(a, i, j) == -1 || exists m :: j <= m < |a| && a[m] > a[i] && NextGreaterFrom(a, i, j) == a[m]
                                                         && forall l :: j <= l < m ==> a[l] <= a[i]
    ensures (forall l :: j <= l < |a| ==> a[l] <= a[i]) ==> NextGreaterFrom(a, i, j) == -1
  {
    if j < |a| && a[j] <= a[i] {
      NextGreaterFromSpec(a, i, j + 1);
    }
  }

  /** Positions still on the stack have seen nothing greater; the others hold their answer. */
  ghost predicate Pending(a: seq<int>, stack: seq<int>, res: seq<int>, i: nat)
    requires i <= |a| == |res|
  {
    && (forall q :: 0 <= q < i && q in stack ==> res[q] == -1 && NextGreaterFrom(a, q, q + 1) == NextGreaterFrom(a, q, i))
    && (forall q :: 0 <= q < i && q !in stack ==> res[q] == NextGreaterFrom(a, q, q + 1))
    && (forall q :: i <= q < |a| ==> res[q] == -1)
  }

  /** `next_greater(a)`. */
  method NextGreater(a: seq<int>) returns (res: seq<int>)
    ensures res == NextGreaterAll(a)
  {
    res := seq(|a|, _ => -1);
    var stack: seq<int> := [];
    var i := 0;
    while i < |a|
      invariant 0 <= i <= |a| == |res|
      invariant Increasing(stack) && InRange(stack, 0, i, |a|) && NonIncreasing(a, stack)
      invariant Pending(a, stack, res, i)
    {
      var x := a[i];
      while stack != [] && a[stack[|stack| - 1]] < x
        invariant |res| == |a|
        invariant Increasing(stack) && InRange(stack, 0, i, |a|) && NonIncreasing(a, stack)
        invariant Pending(a, stack, res, i)
      {
        var q := stack[|stack| - 1];
        Resolve(a, stack, res, i);
        res := res[q := x];
        stack := stack[..|stack| - 1];
      }
      Advance(a, stack, res, i);
      stack := stack + [i];
      i := i + 1;
    }
    assert res == NextGreaterAll(a) by {
      forall q | 0 <= q < |a| ensures res[q] == NextGreaterFrom(a, q, q + 1) {
      }
    }
  }

  /** Popping a position whose value is below a[i] records a[i] as its answer. */
  lemma Resolve(a: seq<int>, stack: seq<int>, res: seq<int>, i: nat)
    requires i < |a| == |res| && Increasing(stack) && InRange(stack, 0, i, |a|)
    requires stack != [] && a[stack[|stack| - 1]] < a[i]
    requires NonIncreasing(a, stack) && Pending(a, stack, res, i)
    ensures Increasing(stack[..|stack| - 1]) && InRange(stack[..|stack| - 1], 0, i, |a|)
    ensures NonIncreasing(a, stack[..|stack| - 1])
    ensures Pending(a, stack[..|stack| - 1], res[stack[|stack| - 1] := a[i]], i)
  {
    var q, s := stack[|stack| - 1], stack[..|stack| - 1];
    assert q !in s by {
      forall x | 0 <= x < |s| ensures s[x] != q {
        assert stack[x] < stack[|stack| - 1];
      }
    }
    forall p | p in stack && p != q ensures p in s {
      var x :| 0 <= x < |stack| && stack[x] == p;
      assert x < |s| && s[x] == p;
    }
    forall p | p in s ensures p in stack {
      var x :| 0 <= x < |s| && s[x] == p;
      assert stack[x] == p;
    }
    assert q in stack;
  }

  /** Once nothing below a[i] is left on top, every pending position has still seen nothing greater. */
  lemma Advance(a: seq<int>, stack: seq<int>, res: seq<int>, i: nat)
    requires i < |a| == |res| && Increasing(stack) && InRange(stack, 0, i, |a|) && NonIncreasing(a, stack)
    requires stack != [] ==> a[stack[|stack| - 1]] >= a[i]
    requires Pending(a, stack, res, i)
    ensures Increasing(stack + [i]) && InRange(stack + [i], 0, i + 1, |a|) && NonIncreasing(a, stack + [i])
    ensures Pending(a, stack + [i], res, i + 1)
  {
    SnocShape(a, stack, 0, i);
    StackAtLeast(a, stack, i);
    PendingSnoc(a, stack, res, i);
  }

  /** Below a top holding at least a[i], every position on the stack holds at least a[i]. */
  lemma StackAtLeast(a: seq<int>, stack: seq<int>, i: nat)
    requires i < |a| && InRange(stack, 0, i, |a|) && NonIncreasing(a, stack)
    requires stack != [] ==> a[stack[|stack| - 1]] >= a[i]
    ensures forall q :: q in stack ==> a[i] <= a[q]
  {
    forall q | q in stack ensures a[i] <= a[q] {
      var x :| 0 <= x < |stack| && stack[x] == q;
      if x < |stack| - 1 {
        assert a[stack[x]] >= a[stack[|stack| - 1]];
      }
    }
  }

  /** Pushing i: the positions still waiting have seen nothing greater up to and including a[i]. */
  lemma PendingSnoc(a: seq<int>, stack: seq<int>, res: seq<int>, i: nat)
    requires i < |a| == |res| && InRange(stack, 0, i, |a|)
    requires forall q :: q in stack ==> a[i] <= a[q]
    requires Pending(a, stack, res, i)
    ensures Pending(a, stack + [i], res, i + 1)
  {
    var e := stack + [i];
    forall q | 0 <= q < i + 1 && q in e ensures res[q] == -1 && NextGreaterFrom(a, q, q + 1) == NextGreaterFrom(a, q, i + 1) {
      var x :| 0 <= x < |e| && e[x] == q;
      if x < |stack| {
        assert stack[x] == q && q in stack;
      }
    }
    forall q | 0 <= q < i + 1 && q !in e ensures res[q] == NextGreaterFrom(a, q, q + 1) {
      assert q != i && q !in stack;
    }
  }
}
