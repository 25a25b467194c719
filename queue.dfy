/**
 * `Array_queue` of DSA-Revision-Codes/Queue.py: a ring buffer of four slots with
 * `front` and `rear` indices (both -1 when empty) and an occupancy count `cur`.
 * Enqueueing into a full queue and dequeueing from an empty one print a message
 * and change nothing; here they report `false` and `None`.
 */
module ArrayQueue {
  import opened Wrappers

  /** The fixed capacity `self.cap = 4`. */
  const Cap: nat := 4

  /** The n slots of a ring buffer from slot `front` on, wrapping round past the last slot. */
  ghost function Ring(slots: seq<int>, front: int, n: nat): (s: seq<int>)
    requires |slots| == Cap
    ensures |s| == n && forall i :: 0 <= i < n ==> s[i] == slots[(front + i) % Cap]
  {
    seq(n, i requires 0 <= i < n => slots[(front + i) % Cap])
  }

  /** Writing the slot just past the last occupied one appends to the ring. */
  lemma RingSnoc(slots: seq<int>, front: int, n: nat, item: int)
    requires |slots| == Cap && n < Cap
    ensures Ring(slots[(front + n) % Cap := item], front, n + 1) == Ring(slots, front, n) + [item]
  {
    var slot := (front + n) % Cap;
    var r, r' := Ring(slots, front, n), Ring(slots[slot := item], front, n + 1);
    forall i | 0 <= i < n ensures r'[i] == r[i] {
      assert (front + i) % Cap != slot;
    }
  }

  /** Advancing the slot after the last occupied one. */
  lemma NextSlot(front: int, n: nat)
    requires 0 <= front < Cap && 0 < n
    ensures ((front + n - 1) % Cap + 1) % Cap == (front + n) % Cap
  {
  }

  /** Moving `front` on one slot drops the first value of the ring. */
  lemma RingTail(slots: seq<int>, front: int, n: nat)
    requires |slots| == Cap && 0 < n
    ensures Ring(slots, (front + 1) % Cap, n - 1) == Ring(slots, front, n)[1..]
  {
    var r, r' := Ring(slots, front, n), Ring(slots, (front + 1) % Cap, n - 1);
    forall i | 0 <= i < n - 1 ensures r'[i] == r[i + 1] {
      assert ((front + 1) % Cap + i) % Cap == (front + (i + 1)) % Cap;
    }
  }

  /** What `__str__` shows: the empty message, or front, rear, the items in queue order and the size. */
  datatype View = EmptyView | Items(frontItem: int, rearItem: int, items: seq<int>, size: int)

  class Queue {
    var queue: array<int>
    var front: int
    var rear: int
    var cur: int

    /**
     * The representation invariant: `0 <= cur <= Cap`; `front` and `rear` are -1
     * exactly when the queue is empty; otherwise the occupied slots are the
     * circular run of `cur` slots from `front`, ending at `rear`.
     */
    ghost predicate Valid()
      reads this
    {
      && queue.Length == Cap
      && 0 <= cur <= Cap
      && (cur == 0 <==> front == -1)
      && (cur == 0 ==> rear == -1)
      && (cur > 0 ==> 0 <= front < Cap && rear == (front + cur - 1) % Cap)
    }

    /** The queued values, front first. */
    ghost function Contents(): (s: seq<int>)
      reads this, queue
      requires Valid()
      ensures |s| == cur
      ensures forall i :: 0 <= i < cur ==> s[i] == queue[(front + i) % Cap]
    {
      Ring(queue[..], front, cur)
    }

    /** `__init__`: four zeroed slots, `front == rear == -1`, `cur == 0`. */
    constructor ()
      ensures Valid() && fresh(queue)
      ensures front == -1 && rear == -1 && cur == 0 && Contents() == []
      ensures queue[..] == [0, 0, 0, 0]
    {
      queue := new int[Cap](_ => 0);
      front, rear, cur := -1, -1, 0;
    }

    /** `enqueue(item)`: refused when `cur == Cap`; otherwise `item` joins the back of the queue. */
    method Enqueue(item: int) returns (ok: bool)
      requires Valid()
      modifies this, queue
      ensures Valid() && queue == old(queue)
      ensures ok <==> old(cur) < Cap
      ensures ok ==> Contents() == old(Contents()) + [item] && cur == old(cur) + 1
      ensures ok && old(cur) == 0 ==> front == 0 && rear == 0
      ensures ok && old(cur) > 0 ==> front == old(front) && rear == (old(rear) + 1) % Cap
      ensures ok ==> queue[..] == old(queue[..])[rear := item]
      ensures !ok ==> front == old(front) && rear == old(rear) && cur == old(cur)
      ensures !ok ==> queue[..] == old(queue[..])
    {
      if Cap == cur {
        return false;
      }
      if front == -1 {
        front, rear := 0, 0;
      } else {
        rear := (rear + 1) % Cap;
      }
      ghost var slots := queue[..];
      ghost var n := cur;
      if n > 0 {
        NextSlot(front, n);
      }
      RingSnoc(slots, front, n, item);
      cur := cur + 1;
      queue[rear] := item;
      assert queue[..] == slots[rear := item];
      ok := true;
    }

    /** `dequeue()`: `None` when empty; otherwise the front value, which leaves the queue. */
    method Dequeue() returns (r: Option<int>)
      requires Valid()
      modifies this
      ensures Valid() && queue == old(queue) && queue[..] == old(queue[..])
      ensures old(cur) == 0 ==> r == None && front == old(front) && rear == old(rear) && cur == 0
      ensures old(cur) != 0 ==> r == Some(old(Contents())[0]) && Contents() == old(Contents())[1..]
      ensures old(cur) != 0 ==> cur == old(cur) - 1
      ensures old(cur) == 1 ==> front == -1 && rear == -1
    {
      if cur == 0 {
        return None;
      }
      var pop := queue[front];
      RingTail(queue[..], front, cur);
      if cur == 1 {
        front, rear := -1, -1;
      } else {
        front := (front + 1) % Cap;
      }
      cur := cur - 1;
      r := Some(pop);
    }

    /** `get_front()`: the value at `front`, or `None` when empty; nothing changes. */
    method GetFront() returns (r: Option<int>)
      requires Valid()
      ensures r == None <==> cur == 0
      ensures r != None ==> r == Some(queue[front]) && r == Some(Contents()[0])
    {
      if front == -1 {
        return None;
      }
      r := Some(queue[front]);
    }

    /** `get_rear()`: the value at `rear`, the last one enqueued, or `None` when empty; nothing changes. */
    method GetRear() returns (r: Option<int>)
      requires Valid()
      ensures r == None <==> cur == 0
      ensures r != None ==> r == Some(queue[rear]) && r == Some(Contents()[cur - 1])
    {
      if front == -1 {
        return None;
      }
      r := Some(queue[rear]);
    }

    /**
     * `__str__`: its item list is the slice `front..rear` when that does not wrap,
     * and the two slices either side of the wrap otherwise; either way it lists the
     * queue from front to back.
     */
    function Show(): (v: View)
      reads this, queue
      requires Valid()
      ensures v == EmptyView <==> cur == 0
      ensures v != EmptyView ==> v.items == Contents() && v.size == cur
      ensures v != EmptyView ==> v.frontItem == Contents()[0] && v.rearItem == Contents()[cur - 1]
    {
      if cur == 0 then EmptyView
      else
        var items := if rear >= front then queue[front..rear + 1] else queue[front..] + queue[..rear + 1];
        assert |items| == cur;
        assert forall i :: 0 <= i < cur ==> items[i] == queue[(front + i) % Cap];
        Items(queue[front], queue[rear], items, cur)
    }
  }

  /**
   * The demonstration at the end of Queue.py: enqueue 10, 20, 30, 40, dequeue,
   * enqueue 50, then five dequeues; the last finds the queue empty and `front` is -1.
   */
  method Demo() returns (dequeued: seq<Option<int>>, front: int, shown: View)
    ensures dequeued == [Some(10), Some(20), Some(30), Some(40), Some(50), None]
    ensures front == -1 && shown == EmptyView
  {
    var q := new Queue();
    var ok := q.Enqueue(10);
    ok := q.Enqueue(20);
    ok := q.Enqueue(30);
    ok := q.Enqueue(40);
    assert q.Contents() == [10, 20, 30, 40];
    var d0 := q.Dequeue();
    assert q.Contents() == [20, 30, 40];
    ok := q.Enqueue(50);
    assert q.Contents() == [20, 30, 40, 50];
    var d1 := q.Dequeue();
    assert q.Contents() == [30, 40, 50];
    var d2 := q.Dequeue();
    assert q.Contents() == [40, 50];
    var d3 := q.Dequeue();
    assert q.Contents() == [50];
    var d4 := q.Dequeue();
    var d5 := q.Dequeue();
    dequeued := [d0, d1, d2, d3, d4, d5];
    front := q.front;
    shown := q.Show();
  }
}
