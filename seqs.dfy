/** Sequence reversal, the `[::-1]` slice of the source, and its basic laws. */
module Seqs {

  function Reverse<T>(s: seq<T>): (r: seq<T>)
    ensures |r| == |s|
  {
    if s == [] then [] else Reverse(s[1..]) + [s[0]]
  }

  /** Element k of the reverse is element |s| - 1 - k of the original. */
  lemma {:induction false} ReverseAt<T>(s: seq<T>, k: int)
    requires 0 <= k < |s|
    ensures Reverse(s)[k] == s[|s| - 1 - k]
  {
    if k < |s| - 1 {
      ReverseAt(s[1..], k);
    }
  }

  /** The reverse is characterised pointwise. */
  lemma ReverseIndexed<T>(s: seq<T>)
    ensures forall k :: 0 <= k < |s| ==> Reverse(s)[k] == s[|s| - 1 - k]
  {
    forall k | 0 <= k < |s| ensures Reverse(s)[k] == s[|s| - 1 - k] {
      ReverseAt(s, k);
    }
  }

  /** Any sequence that agrees pointwise with the mirrored original is its reverse. */
  lemma ReverseFromIndices<T>(s: seq<T>, r: seq<T>)
    requires |r| == |s|
    requires forall k :: 0 <= k < |s| ==> r[k] == s[|s| - 1 - k]
    ensures r == Reverse(s)
  {
    ReverseIndexed(s);
  }

  /** Reversal is an involution. */
  lemma ReverseReverse<T>(s: seq<T>)
    ensures Reverse(Reverse(s)) == s
  {
    ReverseIndexed(s);
    ReverseIndexed(Reverse(s));
  }

  /** Reversal keeps the multiset of elements. */
  lemma {:induction false} ReverseMultiset<T>(s: seq<T>)
    ensures multiset(Reverse(s)) == multiset(s)
  {
    if s != [] {
      ReverseMultiset(s[1..]);
      assert s == [s[0]] + s[1..];
    }
  }

  /** Reversal distributes over concatenation, swapping the parts. */
  lemma ReverseAppend<T>(a: seq<T>, b: seq<T>)
    ensures Reverse(a + b) == Reverse(b) + Reverse(a)
  {
    ReverseIndexed(a);
    ReverseIndexed(b);
    ReverseIndexed(a + b);
  }

  /** No element occurs twice. */
  ghost predicate Distinct<T>(s: seq<T>)
  {
    forall i, j :: 0 <= i < j < |s| ==> s[i] != s[j]
  }

  /** Reversal keeps the elements distinct. */
  lemma ReverseDistinct<T>(s: seq<T>)
    requires Distinct(s)
    ensures Distinct(Reverse(s))
  {
    ReverseIndexed(s);
    forall i, j | 0 <= i < j < |s| ensures Reverse(s)[i] != Reverse(s)[j] {
      assert Reverse(s)[i] == s[|s| - 1 - i];
      assert Reverse(s)[j] == s[|s| - 1 - j];
    }
  }

  /** Reversal keeps the set of elements. */
  lemma ReverseElements<T>(s: seq<T>)
    ensures forall x :: x in Reverse(s) <==> x in s
  {
    ReverseMultiset(s);
    assert forall x :: x in Reverse(s) <==> x in multiset(Reverse(s));
    assert forall x :: x in s <==> x in multiset(s);
  }
}
