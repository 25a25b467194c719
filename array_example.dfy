/** The `max_subarray`, `two_sum` and `rotate_right` tests of run_examples.py. */
module ArrayExample {
  import opened ArrayHelpers

  /** A range sum is a difference of prefix sums. */
  lemma {:induction false} SumSplit(a: seq<int>, lo: int, hi: int)
    requires 0 <= lo <= hi <= |a|
    ensures Sum(a, lo, hi) == Sum(a, 0, hi) - Sum(a, 0, lo)
    decreases hi - lo
  {
    if lo < hi {
      SumSplit(a, lo, hi - 1);
    }
  }

  /** No run of [-2,1,-3,4,-1,2,1,-5,4] sums to more than 6. */
  lemma AtMostSix(a: seq<int>)
    requires a == [-2, 1, -3, 4, -1, 2, 1, -5, 4]
    ensures forall lo, hi :: 0 <= lo < hi <= |a| ==> Sum(a, lo, hi) <= 6
  {
    var p := [0, -2, -1, -4, 0, -1, 1, 2, -3, 1];
    assert Sum(a, 0, 0) == p[0];
    assert Sum(a, 0, 1) == p[1];
    assert Sum(a, 0, 2) == p[2];
    assert Sum(a, 0, 3) == p[3];
    assert Sum(a, 0, 4) == p[4];
    assert Sum(a, 0, 5) == p[5];
    assert Sum(a, 0, 6) == p[6];
    assert Sum(a, 0, 7) == p[7];
    assert Sum(a, 0, 8) == p[8];
    assert Sum(a, 0, 9) == p[9];
    forall lo, hi | 0 <= lo < hi <= |a| ensures Sum(a, lo, hi) <= 6 {
      SumSplit(a, lo, hi);
      assert Sum(a, lo, hi) == p[hi] - p[lo];
    }
  }

  /** `max_subarray([-2,1,-3,4,-1,2,1,-5,4])` is 6. */
  method MaxSubarrayExample() returns (r: int)
    ensures r == 6
  {
    var a := [-2, 1, -3, 4, -1, 2, 1, -5, 4];
    r := MaxSubarray(a);
    assert Sum(a, 3, 7) == 6;
    AtMostSix(a);
  }

  /** `two_sum([2,7,11,15], 9)` is `[0, 1]`. */
  method TwoSumExample() returns (r: seq<int>)
    ensures r == [0, 1]
  {
    var a := [2, 7, 11, 15];
    r := TwoSum(a, 9);
    assert a[0] + a[1] == 9;
    assert PairBelow(a, 9, |a|);
  }

  /** `rotate_right([1,2,3,4,5,6,7], 3)` leaves `[5,6,7,1,2,3,4]`. */
  method RotateExample() returns (r: seq<int>)
    ensures r == [5, 6, 7, 1, 2, 3, 4]
  {
    var s := [1, 2, 3, 4, 5, 6, 7];
    var a := new int[7](i requires 0 <= i < 7 => s[i]);
    assert a[..] == s;
    var ok := RotateRight(a, 3);
    assert s[4..] == [5, 6, 7] && s[..4] == [1, 2, 3, 4];
    r := a[..];
  }
}
