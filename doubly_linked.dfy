/**
 * `Dlinkedlist` of DSA-Revision-Codes/Doublylinkedlist.py: a doubly linked list
 * with a `head` reference, appending at the tail, and rendering as
 * "v0<->v1<->...<->None".
 *
 * The ghost sequence `nodes` lists the nodes from head to tail. `Valid` says that
 * they are distinct, that each one's `next` is the one after it and each one's
 * `prev` the one before it, and that the head's `prev` and the tail's `next` are
 * null: the list can be walked in both directions.
 */
module DoublyLinked {
  import opened Seqs
  import opened Text

  class Node {
    var data: int
    var next: Node?
    var prev: Node?

    /** `Node(data)`: a node holding `data`, linked to nothing either way. */
    constructor (data: int)
      ensures this.data == data && next == null && prev == null
    {
      this.data := data;
      next := null;
      prev := null;
    }
  }

  /** The (value, previous value, next value) triple `println` reports for a node with both links. */
  datatype Neighbours = Neighbours(cur: int, before: int, after: int)

  /** The triples `println` reports, head first: one for each node that is neither the head nor the tail. */
  function Interior(xs: seq<int>): (r: seq<Neighbours>)
    ensures |xs| <= 2 ==> r == []
    ensures |xs| > 2 ==> |r| == |xs| - 2
    ensures forall j :: 0 <= j < |r| ==> r[j] == Neighbours(xs[j + 1], xs[j], xs[j + 2])
  {
    if |xs| <= 2 then [] else seq(|xs| - 2, j requires 0 <= j < |xs| - 2 => Neighbours(xs[j + 1], xs[j], xs[j + 2]))
  }

  /** The triples reported while visiting the first i nodes, in visiting order. */
  function Reported(xs: seq<int>, i: nat): seq<Neighbours>
    requires i <= |xs|
  {
    if i == 0 then []
    else Reported(xs, i - 1) + (if 1 < i < |xs| then [Neighbours(xs[i - 1], xs[i - 2], xs[i])] else [])
  }

  /** The first i nodes report the triples of the interior nodes among them. */
  lemma {:induction false} ReportedPrefix(xs: seq<int>, i: nat)
    requires i <= |xs|
    ensures |Reported(xs, i)| == if i <= 1 then 0 else if i < |xs| then i - 1 else |xs| - 2
    ensures forall j :: 0 <= j < |Reported(xs, i)| ==> Reported(xs, i)[j] == Neighbours(xs[j + 1], xs[j], xs[j + 2])
  {
    if i > 0 {
      ReportedPrefix(xs, i - 1);
    }
  }

  /** Visiting every node reports exactly the interior triples. */
  lemma ReportedAll(xs: seq<int>)
    ensures Reported(xs, |xs|) == Interior(xs)
  {
    var a, b := Reported(xs, |xs|), Interior(xs);
    ReportedPrefix(xs, |xs|);
    assert |a| == |b|;
    forall j | 0 <= j < |a| ensures a[j] == b[j] {
    }
  }

  class DList {
    var head: Node?
    /** The list's nodes from head to tail, the set of them, and the values they hold. */
    ghost var nodes: seq<Node>
    ghost var repr: set<Node>
    ghost var contents: seq<int>

    ghost predicate Valid()
      reads this, repr
    {
      && repr == (set n | n in nodes)
      && (head == null <==> nodes == [])
      && (nodes != [] ==> head == nodes[0] && nodes[0].prev == null && nodes[|nodes| - 1].next == null)
      && (forall i :: 0 <= i < |nodes| - 1 ==> nodes[i].next == nodes[i + 1])
      && (forall i :: 0 < i < |nodes| ==> nodes[i].prev == nodes[i - 1])
      && Distinct(nodes)
      && |contents| == |nodes|
      && (forall i :: 0 <= i < |nodes| ==> nodes[i].data == contents[i])
    }

    /** `__init__`: an empty list. */
    constructor ()
      ensures Valid() && head == null && nodes == [] && contents == [] && repr == {}
    {
      head := null;
      nodes := [];
      repr := {};
      contents := [];
    }

    /**
     * `insert(data)`: on an empty list the new node becomes the head; otherwise
     * the walk from `head` stops at the last node, which is linked to the new
     * node in both directions. Only the old tail's `next` changes among the old nodes.
     */
    method Insert(data: int)
      requires Valid()
      modifies this, repr`next
      ensures Valid() && fresh(repr - old(repr))
      ensures contents == old(contents) + [data]
      ensures |nodes| == |old(nodes)| + 1 && nodes[..|old(nodes)|] == old(nodes)
      ensures old(head) == null ==> head == nodes[0]
      ensures old(head) != null ==> head == old(head)
    {
      var n := new Node(data);
      if head == null {
        head := n;
        nodes := [n];
        repr := {n};
        contents := [data];
        return;
      }
      var cur := head;
      ghost var i := 0;
      while cur.next != null
        invariant 0 <= i < |nodes| && cur == nodes[i]
        invariant cur.next == if i < |nodes| - 1 then nodes[i + 1] else null
        decreases |nodes| - i
      {
        cur := cur.next;
        i := i + 1;
      }
      ghost var ns := nodes;
      assert i == |ns| - 1;
      cur.next := n;
      n.prev := cur;
      nodes := ns + [n];
      repr := repr + {n};
      contents := contents + [data];
      assert Valid() by {
        assert n !in ns;
        forall j | 0 <= j < |ns| - 1 ensures nodes[j].next == nodes[j + 1] {
          assert ns[j] != ns[|ns| - 1];
        }
        forall j | 0 < j < |nodes| ensures nodes[j].prev == nodes[j - 1] {
          if j < |ns| {
            assert nodes[j] == ns[j] && ns[j] != n;
          }
        }
        forall j | 0 <= j < |nodes| ensures nodes[j].data == contents[j] {
        }
        assert Distinct(nodes);
        assert (set x | x in nodes) == (set x | x in ns) + {n};
      }
    }

    /**
     * `println()`: each value followed by "<->", head to tail, then "None".
     * `shown` lists what the loop prints for every node with both a previous
     * and a next node: its value and those of its two neighbours.
     */
    method Println() returns (s: string, shown: seq<Neighbours>)
      requires Valid()
      ensures s == Rendered(contents, "<->")
      ensures shown == Interior(contents)
    {
      var cur := head;
      var itr := "";
      shown := [];
      ghost var i := 0;
      while cur != null
        invariant 0 <= i <= |nodes|
        invariant cur == (if i < |nodes| then nodes[i] else null)
        invariant itr == Chain(contents[..i], "<->")
        invariant shown == Reported(contents, i)
        decreases |nodes| - i
      {
        assert cur.prev == (if i > 0 then nodes[i - 1] else null);
        assert cur.next == (if i < |nodes| - 1 then nodes[i + 1] else null);
        ChainStep(contents, i, "<->");
        itr := itr + IntToString(cur.data) + "<->";
        if cur.next != null && cur.prev != null {
          shown := shown + [Neighbours(cur.data, cur.prev.data, cur.next.data)];
        }
        cur := cur.next;
        i := i + 1;
      }
      assert contents[..i] == contents;
      s := itr + "None";
      ReportedAll(contents);
    }
  }

  /** A fresh list after inserting each of `vals` in turn holds them in insertion order. */
  method FromInserts(vals: seq<int>) returns (l: DList)
    ensures fresh(l) && fresh(l.repr) && l.Valid() && l.contents == vals
  {
    l := new DList();
    var i := 0;
    while i < |vals|
      invariant 0 <= i <= |vals|
      invariant fresh(l) && fresh(l.repr) && l.Valid() && l.contents == vals[..i]
    {
      l.Insert(vals[i]);
      assert vals[..i + 1] == vals[..i] + [vals[i]];
      i := i + 1;
    }
    assert vals[..i] == vals;
  }

  /** The demonstration at the end of Doublylinkedlist.py: insert 10, 20, ..., 50 and print. */
  method Demo() returns (s: string, shown: seq<Neighbours>)
    ensures s == "10<->20<->30<->40<->50<->None"
    ensures shown == [Neighbours(20, 10, 30), Neighbours(30, 20, 40), Neighbours(40, 30, 50)]
  {
    var l := FromInserts([10, 20, 30, 40, 50]);
    s, shown := l.Println();
    DemoRender();
  }

  /** Rendering five values, written out. */
  lemma RenderFive(a: int, b: int, c: int, d: int, e: int)
    ensures Rendered([a, b, c, d, e], "<->") == IntToString(a) + "<->" + IntToString(b) + "<->" + IntToString(c) + "<->"
      + IntToString(d) + "<->" + IntToString(e) + "<->None"
  {
    var xs := [a, b, c, d, e];
    var sa, sb, sc, sd := IntToString(a), IntToString(b), IntToString(c), IntToString(d);
    assert [a][..0] == [];
    assert Chain([a], "<->") == sa + "<->";
    assert [a, b][..1] == [a];
    assert Chain([a, b], "<->") == sa + "<->" + sb + "<->";
    assert [a, b, c][..2] == [a, b];
    assert Chain([a, b, c], "<->") == sa + "<->" + sb + "<->" + sc + "<->";
    assert [a, b, c, d][..3] == [a, b, c];
    assert Chain([a, b, c, d], "<->") == sa + "<->" + sb + "<->" + sc + "<->" + sd + "<->";
    assert xs[..4] == [a, b, c, d];
  }

  /** The decimal forms of the demonstration's values. */
  lemma DemoDigits()
    ensures IntToString(10) == "10" && IntToString(20) == "20" && IntToString(30) == "30"
    ensures IntToString(40) == "40" && IntToString(50) == "50"
  {
  }

  lemma DemoRender()
    ensures Rendered([10, 20, 30, 40, 50], "<->") == "10<->20<->30<->40<->50<->None"
  {
    RenderFive(10, 20, 30, 40, 50);
    DemoDigits();
  }
}
