/** The `sliding_window_max` and `next_greater` tests of run_examples.py, lines 119 and 120. */
module WindowExample {
  import opened Window

  /** The maximum of a three-element sequence. */
  lemma MaxThree(x: int, y: int, z: int)
    ensures Max([x, y, z]) == if x >= y && x >= z then x else if y >= z then y else z
  {
    assert [x, y, z][..2] == [x, y];
    assert [x, y][..1] == [x];
    assert Max([x]) == x;
    assert Max([x, y]) == if y > x then y else x;
  }

  /** The six windows of width 3 and their maxima. */
  lemma WindowsOfExample(a: seq<int>)
    requires a == [1, 3, -1, -3, 5, 3, 6, 7]
    ensures WindowMaxima(a, 3) == [3, 3, 5, 5, 6, 7]
  {
    assert a[0..3] == [1, 3, -1] && a[1..4] == [3, -1, -3] && a[2..5] == [-1, -3, 5];
    assert a[3..6] == [-3, 5, 3] && a[4..7] == [5, 3, 6] && a[5..8] == [3, 6, 7];
    MaxThree(1, 3, -1);
    MaxThree(3, -1, -3);
    MaxThree(-1, -3, 5);
    MaxThree(-3, 5, 3);
    MaxThree(5, 3, 6);
    MaxThree(3, 6, 7);
    assert Maxima(a, 3, 2) == [];
    assert Maxima(a, 3, 3) == [3];
    assert Maxima(a, 3, 4) == [3, 3];
    assert Maxima(a, 3, 5) == [3, 3, 5];
    assert Maxima(a, 3, 6) == [3, 3, 5, 5];
    assert Maxima(a, 3, 7) == [3, 3, 5, 5, 6];
  }

  /** `sliding_window_max([1,3,-1,-3,5,3,6,7], 3)` is `[3,3,5,5,6,7]`. */
  method SlidingExample() returns (r: seq<int>)
    ensures r == [3, 3, 5, 5, 6, 7]
  {
    var a := [1, 3, -1, -3, 5, 3, 6, 7];
    r := SlidingWindowMax(a, 3);
    WindowsOfExample(a);
  }

  /** The next greater values of [2, 1, 2, 4, 3]. */
  lemma NextGreaterOfExample(a: seq<int>)
    requires a == [2, 1, 2, 4, 3]
    ensures NextGreaterAll(a) == [4, 2, 4, -1, -1]
  {
    assert NextGreaterFrom(a, 0, 3) == 4;
    assert NextGreaterFrom(a, 0, 2) == 4;
    assert NextGreaterFrom(a, 0, 1) == 4;
    assert NextGreaterFrom(a, 1, 2) == 2;
    assert NextGreaterFrom(a, 2, 3) == 4;
    assert NextGreaterFrom(a, 3, 5) == -1;
    assert NextGreaterFrom(a, 3, 4) == -1;
    assert NextGreaterFrom(a, 4, 5) == -1;
  }

  /** `next_greater([2,1,2,4,3])` is `[4,2,4,-1,-1]`. */
  method NextGreaterExample() returns (r: seq<int>)
    ensures r == [4, 2, 4, -1, -1]
  {
    var a := [2, 1, 2, 4, 3];
    r := NextGreater(a);
    NextGreaterOfExample(a);
  }
}
