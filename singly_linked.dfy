/**
 * `Linkedlist` of DSA-Revision-Codes/rough.py: a singly linked list with a `head`
 * reference, appending at the tail, reversal by relinking the nodes in place, and
 * rendering as "v0->v1->...->None".
 *
 * The ghost sequence `nodes` lists the list's nodes from head to tail; `Valid`
 * says that they are distinct and that each one's `next` is the one after it,
 * the last one's `next` being null. So the chain from `head` is acyclic and
 * following `next` from it stops after |nodes| steps.
 */
module SinglyLinked {
  import opened Seqs
  import opened Text

  class Node {
    var data: int
    var next: Node?

    /** `Node(data)`: a node holding `data` and linked to nothing. */
    constructor (data: int)
      ensures this.data == data && next == null
    {
      this.data := data;
      next := null;
    }
  }

  class LinkedList {
    var head: Node?
    /** The list's nodes from head to tail, the set of them, and the values they hold. */
    ghost var nodes: seq<Node>
    ghost var repr: set<Node>
    ghost var contents: seq<int>

    ghost predicate Valid()
      reads this, repr
    {
      && repr == (set n | n in nodes)
      && (head == null <==> nodes == [])
      && (nodes != [] ==> head == nodes[0] && nodes[|nodes| - 1].next == null)
      && (forall i :: 0 <= i < |nodes| - 1 ==> nodes[i].next == nodes[i + 1])
      && Distinct(nodes)
      && |contents| == |nodes|
      && (forall i :: 0 <= i < |nodes| ==> nodes[i].data == contents[i])
    }

    /** `__init__`: an empty list. */
    constructor ()
      ensures Valid() && head == null && nodes == [] && contents == [] && repr == {}
    {
      head := null;
      nodes := [];
      repr := {};
      contents := [];
    }

    /**
     * `insert(data)`: on an empty list the new node becomes the head; otherwise
     * the walk from `head` stops at the last node, whose `next` becomes the new node.
     */
    method Insert(data: int)
      requires Valid()
      modifies this, repr`next
      ensures Valid() && fresh(repr - old(repr))
      ensures contents == old(contents) + [data]
      ensures |nodes| == |old(nodes)| + 1 && nodes[..|old(nodes)|] == old(nodes)
      ensures old(head) == null ==> head == nodes[0]
      ensures old(head) != null ==> head == old(head)
    {
      var n := new Node(data);
      if head == null {
        head := n;
        nodes := [n];
        repr := {n};
        contents := [data];
        return;
      }
      var cur := head;
      ghost var i := 0;
      while cur.next != null
        invariant 0 <= i < |nodes| && cur == nodes[i]
        invariant cur.next == if i < |nodes| - 1 then nodes[i + 1] else null
        decreases |nodes| - i
      {
        cur := cur.next;
        i := i + 1;
      }
      cur.next := n;
      nodes := nodes + [n];
      repr := repr + {n};
      contents := contents + [data];
    }

    /**
     * `rev()`: walks the chain once, pointing each node's `next` back at the node
     * visited before it, and makes the last node visited the head.
     */
    method Rev()
      requires Valid()
      modifies this, repr`next
      ensures Valid() && repr == old(repr)
      ensures nodes == Reverse(old(nodes))
      ensures contents == Reverse(old(contents))
      ensures old(head) == null ==> head == null
    {
      ghost var ns := nodes;
      ghost var n := |ns|;
      var cur := head;
      var prev: Node? := null;
      ghost var k := 0;
      while cur != null
        invariant 0 <= k <= n && nodes == ns && repr == old(repr) && contents == old(contents)
        invariant Distinct(ns)
        invariant cur == (if k < n then ns[k] else null)
        invariant prev == (if k == 0 then null else ns[k - 1])
        invariant k > 0 ==> ns[0].next == null
        invariant forall i :: 0 < i < k ==> ns[i].next == ns[i - 1]
        invariant forall i :: k <= i < n ==> ns[i].next == old(ns[i].next)
        decreases n - k
      {
        var nxt := cur.next;
        cur.next := prev;
        prev := cur;
        cur := nxt;
        k := k + 1;
      }
      head := prev;
      nodes := Reverse(ns);
      contents := Reverse(contents);
      assert Valid() by {
        ReversedLinks(ns);
        ReversedData(ns, old(contents));
        ReverseDistinct(ns);
        ReverseElements(ns);
        assert (set x | x in nodes) == (set x | x in ns);
      }
    }

    /** `println()`: each value followed by "->", head to tail, then "None". */
    method Println() returns (s: string)
      requires Valid()
      ensures s == Rendered(contents, "->")
    {
      var cur := head;
      var itr := "";
      ghost var i := 0;
      while cur != null
        invariant 0 <= i <= |nodes|
        invariant cur == (if i < |nodes| then nodes[i] else null)
        invariant itr == Chain(contents[..i], "->")
        decreases |nodes| - i
      {
        ChainStep(contents, i, "->");
        itr := itr + IntToString(cur.data) + "->";
        cur := cur.next;
        i := i + 1;
      }
      assert contents[..i] == contents;
      s := itr + "None";
    }
  }

  /** Nodes each pointing back at the one before form, read backwards, a forward chain. */
  lemma ReversedLinks(ns: seq<Node>)
    requires |ns| > 0 ==> ns[0].next == null
    requires forall i :: 0 < i < |ns| ==> ns[i].next == ns[i - 1]
    ensures var rs := Reverse(ns);
      && (forall i :: 0 <= i < |rs| - 1 ==> rs[i].next == rs[i + 1])
      && (rs != [] ==> rs[0] == ns[|ns| - 1] && rs[|rs| - 1].next == null)
  {
    var n, rs := |ns|, Reverse(ns);
    ReverseIndexed(ns);
    forall i | 0 <= i < n - 1 ensures rs[i].next == rs[i + 1] {
      assert rs[i] == ns[n - 1 - i] && rs[i + 1] == ns[n - 1 - i - 1];
    }
  }

  /** The values of the reversed nodes are the reversed values. */
  lemma ReversedData(ns: seq<Node>, vals: seq<int>)
    requires |ns| == |vals| && forall i :: 0 <= i < |ns| ==> ns[i].data == vals[i]
    ensures forall i :: 0 <= i < |ns| ==> Reverse(ns)[i].data == Reverse(vals)[i]
  {
    ReverseIndexed(ns);
    ReverseIndexed(vals);
  }

  /** Reversing twice restores the list's original order. */
  method RevTwice(l: LinkedList)
    requires l.Valid()
    modifies l, l.repr`next
    ensures l.Valid() && l.contents == old(l.contents) && l.nodes == old(l.nodes)
  {
    l.Rev();
    l.Rev();
    ReverseReverse(old(l.nodes));
    ReverseReverse(old(l.contents));
  }

  /** The demonstration at the end of rough.py: insert 10, 20, ..., 60, reverse, print. */
  method Demo() returns (s: string)
    ensures s == "60->50->40->30->20->10->None"
  {
    var l := FromInserts([10, 20, 30, 40, 50, 60]);
    l.Rev();
    DemoReverse();
    s := l.Println();
    DemoRender();
  }

  /** A fresh list after inserting each of `vals` in turn holds them in insertion order. */
  method FromInserts(vals: seq<int>) returns (l: LinkedList)
    ensures fresh(l) && fresh(l.repr) && l.Valid() && l.contents == vals
  {
    l := new LinkedList();
    var i := 0;
    while i < |vals|
      invariant 0 <= i <= |vals|
      invariant fresh(l) && fresh(l.repr) && l.Valid() && l.contents == vals[..i]
    {
      l.Insert(vals[i]);
      assert vals[..i + 1] == vals[..i] + [vals[i]];
      i := i + 1;
    }
    assert vals[..i] == vals;
  }

  lemma DemoReverse()
    ensures Reverse([10, 20, 30, 40, 50, 60]) == [60, 50, 40, 30, 20, 10]
  {
    ReverseFromIndices([10, 20, 30, 40, 50, 60], [60, 50, 40, 30, 20, 10]);
  }

  /** Rendering six values, written out. */
  lemma RenderSix(a: int, b: int, c: int, d: int, e: int, f: int)
    ensures Rendered([a, b, c, d, e, f], "->") == IntToString(a) + "->" + IntToString(b) + "->" + IntToString(c) + "->"
      + IntToString(d) + "->" + IntToString(e) + "->" + IntToString(f) + "->None"
  {
    var xs := [a, b, c, d, e, f];
    var sa, sb, sc, sd, se, sf := IntToString(a), IntToString(b), IntToString(c), IntToString(d), IntToString(e), IntToString(f);
    assert [a][..0] == [];
    assert Chain([a], "->") == sa + "->";
    assert [a, b][..1] == [a];
    assert Chain([a, b], "->") == sa + "->" + sb + "->";
    assert [a, b, c][..2] == [a, b];
    assert Chain([a, b, c], "->") == sa + "->" + sb + "->" + sc + "->";
    assert [a, b, c, d][..3] == [a, b, c];
    assert Chain([a, b, c, d], "->") == sa + "->" + sb + "->" + sc + "->" + sd + "->";
    assert [a, b, c, d, e][..4] == [a, b, c, d];
    assert Chain([a, b, c, d, e], "->") == sa + "->" + sb + "->" + sc + "->" + sd + "->" + se + "->";
    assert xs[..5] == [a, b, c, d, e];
  }

  /** The decimal forms of the demonstration's values. */
  lemma DemoDigits()
    ensures IntToString(60) == "60" && IntToString(50) == "50" && IntToString(40) == "40"
    ensures IntToString(30) == "30" && IntToString(20) == "20" && IntToString(10) == "10"
  {
  }

  lemma DemoRender()
    ensures Rendered([60, 50, 40, 30, 20, 10], "->") == "60->50->40->30->20->10->None"
  {
    RenderSix(60, 50, 40, 30, 20, 10);
    DemoDigits();
  }
}
