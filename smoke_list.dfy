/**
 * The linked-list smoke test of run_examples.py: `build_list` links a fresh
 * node per value, each appended after the previous one, and `to_list` walks the
 * chain from the head collecting the values.
 *
 * A ghost sequence of nodes stands for the chain: `IsChain(head, ns)` says that
 * `head` is its first node (null when empty), that each node's `next` is the one
 * after it and that the last one's `next` is null.
 */
module SmokeList {
  class Node {
    var val: int
    var next: Node?

    /** `Node(val)`: a node holding `val` and linked to nothing. */
    constructor (val: int)
      ensures this.val == val && next == null
    {
      this.val := val;
      next := null;
    }
  }

  ghost predicate IsChain(head: Node?, ns: seq<Node>)
    reads set n | n in ns
  {
    && (head == if ns == [] then null else ns[0])
    && (forall i :: 0 <= i < |ns| - 1 ==> ns[i].next == ns[i + 1])
    && (ns != [] ==> ns[|ns| - 1].next == null)
  }

  /** `build_list(vals)`: a chain of fresh nodes holding `vals` in order. */
  method BuildList(vals: seq<int>) returns (head: Node?, ghost ns: seq<Node>)
    ensures IsChain(head, ns) && |ns| == |vals|
    ensures forall i :: 0 <= i < |ns| ==> fresh(ns[i]) && ns[i].val == vals[i]
  {
    head := null;
    var cur: Node? := null;
    ns := [];
    var i := 0;
    while i < |vals|
      invariant 0 <= i <= |vals| && |ns| == i
      invariant IsChain(head, ns)
      invariant cur == if ns == [] then null else ns[|ns| - 1]
      invariant forall j :: 0 <= j < |ns| ==> fresh(ns[j]) && ns[j].val == vals[j]
    {
      var node := new Node(vals[i]);
      if head == null {
        head, cur := node, node;
      } else {
        cur.next := node;
        cur := node;
      }
      ns := ns + [node];
      i := i + 1;
    }
  }

  /** `to_list(head)`: the values of the chain from `head`, in order. */
  method ToList(head: Node?, ghost ns: seq<Node>) returns (res: seq<int>)
    requires IsChain(head, ns)
    ensures |res| == |ns| && forall i :: 0 <= i < |ns| ==> res[i] == ns[i].val
  {
    res := [];
    var cur := head;
    ghost var i := 0;
    while cur != null
      invariant 0 <= i <= |ns| && |res| == i
      invariant cur == if i < |ns| then ns[i] else null
      invariant forall j :: 0 <= j < i ==> res[j] == ns[j].val
      decreases |ns| - i
    {
      res := res + [cur.val];
      cur := cur.next;
      i := i + 1;
    }
  }

  /** `to_list(build_list(vals))` gives back `vals`. */
  method RoundTrip(vals: seq<int>) returns (res: seq<int>)
    ensures res == vals
  {
    var head, ns := BuildList(vals);
    res := ToList(head, ns);
  }

  /** The test: `to_list(build_list([1,2,3]))` is `[1,2,3]`. */
  method Example() returns (res: seq<int>)
    ensures res == [1, 2, 3]
  {
    res := RoundTrip([1, 2, 3]);
  }
}
