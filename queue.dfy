/**
 * class Queue of CoreDataStructures/Classes/Queue.swift: a first-in first-out queue kept in an
 * array whose front is index 0.
 */
module Queues {
  import opened Wrappers

  class Queue {
    /** The stored values, front first. */
    var table: seq<int>

    /** size: the number of stored values. */
    function Size(): (n: nat)
      reads this
      ensures n == 0 <==> table == []
    {
      |table|
    }

    /** init(): an empty queue. */
    constructor ()
      ensures table == []
    {
      table := [];
    }

    /** init(head:): a queue holding one value. */
    constructor WithHead(head: int)
      ensures table == [head] && Size() == 1
    {
      table := [];
      table := table + [head];
    }

    /** add(_:): the value joins at the back; the size grows by one. */
    method Add(value: int)
      modifies this
      ensures table == old(table) + [value]
      ensures Size() == old(Size()) + 1 && value in table
    {
      table := table + [value];
    }

    /** remove(): takes the front value out; on an empty queue remove(at: 0) traps. */
    method Remove() returns (r: Option<int>)
      requires table != []
      modifies this
      ensures r == Some(old(table)[0]) && table == old(table)[1..]
      ensures Size() == old(Size()) - 1
    {
      r := Some(table[0]);
      table := table[1..];
    }

    /** clear(): the queue becomes empty. */
    method Clear()
      modifies this
      ensures table == [] && Size() == 0
    {
      table := [];
    }

    /** element(): the front value, left in place; on an empty queue table[0] traps. */
    method Element() returns (r: Option<int>)
      requires table != []
      ensures r == Some(table[0])
    {
      r := Some(table[0]);
    }

    /** values(): the stored values, front first, as many as the size. */
    method Values() returns (v: seq<int>)
      ensures v == table && |v| == Size()
    {
      v := table;
    }
  }

  /** Values added to a new queue come out of remove() in the order they went in. */
  method FirstInFirstOut(xs: seq<int>) returns (removed: seq<int>)
    ensures removed == xs
  {
    var q := new Queue();
    var i := 0;
    while i < |xs|
      invariant 0 <= i <= |xs| && q.table == xs[..i]
    {
      q.Add(xs[i]);
      assert xs[..i + 1] == xs[..i] + [xs[i]];
      i := i + 1;
    }
    removed := [];
    while q.table != []
      invariant |removed| <= |xs| && removed + q.table == xs
      decreases |q.table|
    {
      var r := q.Remove();
      removed := removed + [r.value];
    }
  }

  /**
   * The queue tests' fixture adds three values; remove() and element() then return the first,
   * and clear() leaves nothing.
   */
  method RemoveAfterThree(a: int, b: int, c: int) returns (front: Option<int>, removed: Option<int>, rest: seq<int>, cleared: seq<int>)
    ensures front == removed == Some(a) && rest == [b, c] && cleared == []
  {
    var q := new Queue();
    q.Add(a);
    q.Add(b);
    q.Add(c);
    front := q.Element();
    removed := q.Remove();
    rest := q.Values();
    q.Clear();
    cleared := q.Values();
  }
}
