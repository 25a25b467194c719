/**
 * `Array_stack` of DSA-Revision-Codes/Stack.py: a stack in a fixed-capacity
 * array whose `top` index is -1 when empty and cap - 1 when full. A push on a
 * full stack or a pop on an empty one prints a message and changes nothing;
 * here the push reports it as `false` and the pop as `None`.
 */
module ArrayStack {
  import opened Wrappers

  class Stack {
    var arr: array<int>
    var top: int
    const cap: nat

    /** The object invariant: `-1 <= top <= cap - 1` over an array of `cap` slots. */
    ghost predicate Valid()
      reads this
    {
      arr.Length == cap && -1 <= top <= cap - 1
    }

    /** The stacked values, bottom first: the occupied slots 0..top. */
    ghost function Contents(): (s: seq<int>)
      reads this, arr
      requires Valid()
      ensures |s| == top + 1
    {
      arr[..top + 1]
    }

    /** `__init__(cap)`: `cap` zeroed slots and `top == -1`. */
    constructor (cap: nat)
      ensures Valid() && fresh(arr)
      ensures this.cap == cap && top == -1 && Contents() == []
      ensures arr[..] == seq(cap, _ => 0)
    {
      this.cap := cap;
      arr := new int[cap](_ => 0);
      top := -1;
    }

    /** `isempty`: whether `top == -1`, i.e. nothing is stacked. */
    method IsEmpty() returns (b: bool)
      requires Valid()
      ensures b <==> top == -1
      ensures b <==> Contents() == []
    {
      b := top == -1;
    }

    /** `isfull`: whether `top == cap - 1`, i.e. all slots are taken. */
    method IsFull() returns (b: bool)
      requires Valid()
      ensures b <==> top == cap - 1
      ensures b <==> |Contents()| == cap
    {
      b := cap - 1 == top;
    }

    /**
     * `peek`: the top value. On an empty stack the source still evaluates
     * `arr[-1]`, which Python reads as the last slot, and fails with an
     * IndexError when there is no slot at all (`None` here).
     */
    method Peek() returns (r: Option<int>)
      requires Valid()
      ensures top >= 0 ==> r == Some(arr[top]) && r == Some(Contents()[|Contents()| - 1])
      ensures top == -1 && cap > 0 ==> r == Some(arr[cap - 1])
      ensures top == -1 && cap == 0 ==> r == None
    {
      if top >= 0 {
        r := Some(arr[top]);
      } else if arr.Length > 0 {
        r := Some(arr[arr.Length - 1]);
      } else {
        r := None;
      }
    }

    /** `push(val)`: refused when full; otherwise `val` goes to slot `top + 1`, the only slot written. */
    method Push(val: int) returns (ok: bool)
      requires Valid()
      modifies this`top, arr
      ensures Valid()
      ensures ok <==> old(top) != cap - 1
      ensures ok ==> top == old(top) + 1 && arr[top] == val && Contents() == old(Contents()) + [val]
      ensures !ok ==> top == old(top) && Contents() == old(Contents())
      ensures forall i :: 0 <= i < cap && (!ok || i != top) ==> arr[i] == old(arr[i])
    {
      if top == cap - 1 {
        return false;
      }
      top := top + 1;
      arr[top] := val;
      ok := true;
    }

    /** `pop()`: `None` when empty; otherwise the value at `top`, which then moves down by one. */
    method Pop() returns (r: Option<int>)
      requires Valid()
      modifies this`top
      ensures Valid()
      ensures old(top) == -1 ==> r == None && top == -1
      ensures old(top) != -1 ==> r == Some(old(arr[top])) && top == old(top) - 1
      ensures old(top) != -1 ==> old(Contents()) == Contents() + [r.value]
    {
      if top == -1 {
        return None;
      }
      var val := arr[top];
      top := top - 1;
      r := Some(val);
    }
  }

  /** Pushing onto a stack that is not full and popping at once gives the value back and restores `top`. */
  method PushThenPop(s: Stack, v: int) returns (r: Option<int>)
    requires s.Valid() && s.top < s.cap - 1
    modifies s`top, s.arr
    ensures s.Valid()
    ensures r == Some(v) && s.top == old(s.top) && s.Contents() == old(s.Contents())
  {
    var ok := s.Push(v);
    r := s.Pop();
  }

  /**
   * The demonstration at the end of Stack.py: capacity 8, push 10, 20, 60, 40, 80,
   * peek, pop twice, peek; then five more pushes of which the last overflows, and
   * nine pops of which the last underflows.
   */
  method Demo() returns (firstPeek: Option<int>, secondPeek: Option<int>, overflowed: bool, underflowed: bool)
    ensures firstPeek == Some(80) && secondPeek == Some(60)
    ensures overflowed && underflowed
  {
    var s := new Stack(8);
    var e := s.IsEmpty();
    assert e;
    firstPeek, secondPeek := DemoPeeks(s);
    overflowed := DemoOverflow(s);
    underflowed := DemoUnderflow(s);
  }

  /** Push 10, 20, 60, 40, 80, peek, pop twice, peek. */
  method DemoPeeks(s: Stack) returns (firstPeek: Option<int>, secondPeek: Option<int>)
    requires s.Valid() && s.cap == 8 && s.top == -1
    modifies s`top, s.arr
    ensures s.Valid() && s.top == 2
    ensures firstPeek == Some(80) && secondPeek == Some(60)
  {
    var ok := s.Push(10);
    ok := s.Push(20);
    ok := s.Push(60);
    ok := s.Push(40);
    ok := s.Push(80);
    firstPeek := s.Peek();
    var p := s.Pop();
    p := s.Pop();
    secondPeek := s.Peek();
  }

  /** Five more pushes fill the eight slots, and a sixth is refused. */
  method DemoOverflow(s: Stack) returns (overflowed: bool)
    requires s.Valid() && s.cap == 8 && s.top == 2
    modifies s`top, s.arr
    ensures s.Valid() && s.top == 7
    ensures overflowed
  {
    var ok := s.Push(60);
    ok := s.Push(40);
    ok := s.Push(80);
    ok := s.Push(60);
    ok := s.Push(60);
    ok := s.Push(60);
    overflowed := !ok;
  }

  /** Eight pops empty the full stack, and a ninth finds nothing. */
  method DemoUnderflow(s: Stack) returns (underflowed: bool)
    requires s.Valid() && s.top == 7
    modifies s`top
    ensures s.Valid() && s.top == -1
    ensures underflowed
  {
    var p := s.Pop();
    p := s.Pop();
    p := s.Pop();
    p := s.Pop();
    p := s.Pop();
    p := s.Pop();
    p := s.Pop();
    p := s.Pop();
    p := s.Pop();
    underflowed := p == None;
  }
}
