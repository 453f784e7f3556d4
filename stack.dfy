/**
 * class Stack, in both drafts (Sources/CoreDataStructures/Stack.swift and
 * CoreDataStructures/Classes/Stack.swift, which hold the same code): a last-in first-out stack
 * kept in an array whose top is the last index.
 */
module Stacks {
  import opened Wrappers

  /** The values of `s` from the last to the first. */
  function Reverse(s: seq<int>): (r: seq<int>)
    ensures |r| == |s|
    ensures forall k :: 0 <= k < |s| ==> r[k] == s[|s| - 1 - k]
  {
    if s == [] then [] else [s[|s| - 1]] + Reverse(s[..|s| - 1])
  }

  class Stack {
    /** The stored values, bottom first. */
    var table: seq<int>

    /** size: the number of stored values. */
    function Size(): (n: nat)
      reads this
      ensures n == 0 <==> table == []
    {
      |table|
    }

    /** init(): an empty stack. */
    constructor ()
      ensures table == []
    {
      table := [];
    }

    /** init(top:): a stack holding one value. */
    constructor WithTop(top: int)
      ensures table == [top] && Size() == 1
    {
      table := [];
      table := table + [top];
    }

    /** empty(): whether no value is stored. */
    method Empty() returns (b: bool)
      ensures b <==> Size() == 0
    {
      b := table == [];
    }

    /**
     * push(_:): inserts at index `empty() ? 0 : count`, which is the count either way, so the
     * value goes on top.
     */
    method Push(value: int)
      modifies this
      ensures table == old(table) + [value]
      ensures Size() == old(Size()) + 1
    {
      var isEmpty := Empty();
      var index := if isEmpty then 0 else |table|;
      table := table[..index] + [value] + table[index..];
    }

    /** pop(): nil on an empty stack, which stays as it is; otherwise the top value, removed. */
    method Pop() returns (r: Option<int>)
      modifies this
      ensures old(table) == [] ==> r.None? && table == []
      ensures old(table) != [] ==> r == Some(old(table)[|old(table)| - 1]) && old(table) == table + [r.value]
    {
      var isEmpty := Empty();
      if isEmpty {
        r := None;
      } else {
        r := Some(table[|table| - 1]);
        table := table[..|table| - 1];
      }
    }

    /** peek(): the top value, left in place; on an empty stack table[count - 1] traps. */
    method Peek() returns (r: Option<int>)
      requires table != []
      ensures r == Some(table[|table| - 1])
    {
      r := Some(table[|table| - 1]);
    }

    /** values(): the stored values, bottom first, as many as the size. */
    method Values() returns (v: seq<int>)
      ensures v == table && |v| == Size()
    {
      v := table;
    }
  }

  /**
   * Values pushed on a new stack come off pop() in reverse order; after that the stack is
   * empty and pop() returns nil.
   */
  method LastInFirstOut(xs: seq<int>) returns (popped: seq<int>, isEmpty: bool, extra: Option<int>)
    ensures popped == Reverse(xs) && isEmpty && extra.None?
  {
    var st := new Stack();
    var i := 0;
    while i < |xs|
      invariant 0 <= i <= |xs| && st.table == xs[..i]
    {
      st.Push(xs[i]);
      assert xs[..i + 1] == xs[..i] + [xs[i]];
      i := i + 1;
    }
    assert xs[..|xs|] == xs;
    popped := [];
    while st.table != []
      invariant |st.table| <= |xs| && st.table == xs[..|st.table|]
      invariant popped == Reverse(xs[|st.table|..])
      decreases |st.table|
    {
      ghost var n := |st.table|;
      var r := st.Pop();
      assert xs[n - 1..] == [xs[n - 1]] + xs[n..];
      ReverseSnoc(xs[n..], xs[n - 1]);
      popped := popped + [r.value];
    }
    isEmpty := st.Empty();
    extra := st.Pop();
  }

  /** Reversing a sequence with one more value in front puts that value last. */
  lemma ReverseSnoc(s: seq<int>, x: int)
    ensures Reverse([x] + s) == Reverse(s) + [x]
  {
  }

  /**
   * The stack tests' fixture pushes three values; peek() and pop() then return the last of
   * them, and three pops leave the stack empty.
   */
  method PeekPopAfterThree(a: int, b: int, c: int) returns (top: Option<int>, first: Option<int>, isEmpty: bool)
    ensures top == first == Some(c) && isEmpty
  {
    var st := new Stack();
    st.Push(a);
    st.Push(b);
    st.Push(c);
    top := st.Peek();
    first := st.Pop();
    var second := st.Pop();
    var third := st.Pop();
    isEmpty := st.Empty();
  }
}
