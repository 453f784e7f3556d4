/**
 * class LinkedList of Sources/CoreDataStructures/LinkedList.swift: a doubly linked list with
 * head, tail and count. The node objects live in an arena (a sequence of cells addressed by
 * position); a link is the position of the cell it points to, and a node updated in place is
 * the cell at its position replaced.
 */
module LinkedLists {
  import opened Wrappers

  /** A node: its value and the positions of its predecessor and successor. */
  datatype Cell = Cell(value: int, previous: Option<nat>, next: Option<nat>)

  /** The list's stored state: the arena, head, tail and the stored count. */
  datatype Links = Links(nodes: seq<Cell>, head: Option<nat>, tail: Option<nat>, count: int)

  // ================================================================ the arena

  /**
   * Links stay inside the arena and point forward in creation order: a successor was created
   * later and a predecessor earlier. Every operation of the list keeps this, so every walk
   * along the links ends.
   */
  predicate Forwards(nodes: seq<Cell>)
  {
    LinksAhead(nodes) && LinksBehind(nodes)
  }

  /** Every successor link points to a later cell of the arena. */
  predicate LinksAhead(nodes: seq<Cell>)
  {
    forall i :: 0 <= i < |nodes| && nodes[i].next.Some? ==> i < nodes[i].next.value < |nodes|
  }

  /** Every predecessor link points to an earlier cell. */
  predicate LinksBehind(nodes: seq<Cell>)
  {
    forall i :: 0 <= i < |nodes| && nodes[i].previous.Some? ==> nodes[i].previous.value < i
  }

  /** The arena is well formed and head and tail point into it; the count never goes negative. */
  predicate WellLinked(s: Links)
  {
    && Forwards(s.nodes)
    && (s.head.Some? ==> s.head.value < |s.nodes|)
    && (s.tail.Some? ==> s.tail.value < |s.nodes|)
    && s.count >= 0
  }

  /** The positions visited from cell `i` along the successor links, up to the last cell. */
  function Path(nodes: seq<Cell>, i: nat): (p: seq<nat>)
    requires LinksAhead(nodes) && i < |nodes|
    ensures |p| >= 1 && p[0] == i
    ensures forall k :: 0 <= k < |p| ==> p[k] < |nodes|
    ensures forall k :: 0 <= k < |p| ==> i <= p[k]
    decreases |nodes| - i
  {
    if nodes[i].next.None? then [i] else [i] + Path(nodes, nodes[i].next.value)
  }

  /** Along a walk, each cell's successor is the next cell of the walk, and the last has none. */
  lemma {:induction false} PathNext(nodes: seq<Cell>, i: nat, k: nat)
    requires LinksAhead(nodes) && i < |nodes| && k < |Path(nodes, i)|
    ensures var p := Path(nodes, i); nodes[p[k]].next == if k + 1 < |p| then Some(p[k + 1]) else None
    decreases |nodes| - i
  {
    if k > 0 {
      PathNext(nodes, nodes[i].next.value, k - 1);
    }
  }

  /** A walk visits cells in increasing position, so never one twice. */
  lemma {:induction false} PathIncreasing(nodes: seq<Cell>, i: nat, a: nat, b: nat)
    requires LinksAhead(nodes) && i < |nodes| && a < b < |Path(nodes, i)|
    ensures Path(nodes, i)[a] < Path(nodes, i)[b]
    decreases |nodes| - i
  {
    if a > 0 {
      PathIncreasing(nodes, nodes[i].next.value, a - 1, b - 1);
    } else {
      assert Path(nodes, i)[b] == Path(nodes, nodes[i].next.value)[b - 1];
    }
  }

  /** The cells reachable from the head, in list order. */
  function Chain(s: Links): (c: seq<nat>)
    requires WellLinked(s)
    ensures forall k :: 0 <= k < |c| ==> c[k] < |s.nodes|
    ensures s.head.None? <==> c == []
  {
    if s.head.None? then [] else Path(s.nodes, s.head.value)
  }

  /** Along the chain, each cell's successor is the next cell of the chain, and the last has none. */
  lemma ChainNext(s: Links, k: nat)
    requires WellLinked(s) && k < |Chain(s)|
    ensures s.nodes[Chain(s)[k]].next == if k + 1 < |Chain(s)| then Some(Chain(s)[k + 1]) else None
  {
    PathNext(s.nodes, s.head.value, k);
  }

  /** The values from the head along the successor links: what all() returns. */
  function Values(s: Links): (v: seq<int>)
    requires WellLinked(s)
    ensures |v| == |Chain(s)|
    ensures forall k :: 0 <= k < |v| ==> v[k] == s.nodes[Chain(s)[k]].value
  {
    ValuesAt(s.nodes, Chain(s))
  }

  /** The values of the cells at positions `c`, in that order. */
  function ValuesAt(nodes: seq<Cell>, c: seq<nat>): (v: seq<int>)
    requires forall k :: 0 <= k < |c| ==> c[k] < |nodes|
    ensures |v| == |c|
    ensures forall k :: 0 <= k < |c| ==> v[k] == nodes[c[k]].value
  {
    if c == [] then [] else [nodes[c[0]].value] + ValuesAt(nodes, c[1..])
  }

  /**
   * A list in the shape the class means to keep: the count is the number of reachable
   * cells, the tail is the last of them, and the predecessor links mirror the successor links.
   */
  ghost predicate Proper(s: Links)
  {
    && WellLinked(s)
    && var c := Chain(s);
    && |c| == s.count
    && (c == [] ==> s.tail.None?)
    && (c != [] ==> s.tail == Some(c[|c| - 1]) && s.nodes[c[0]].previous.None?)
    && (forall k :: 0 <= k < |c| && s.nodes[c[k]].next.Some? ==> s.nodes[s.nodes[c[k]].next.value].previous == Some(c[k]))
  }

  // ================================================================ initial states

  /** init(): no nodes. */
  function Empty(): (s: Links)
    ensures Proper(s) && Values(s) == []
  {
    Links([], None, None, 0)
  }

  /** init(_:) as written: a head node holding `first`, count one, and no tail. */
  function FirstOnly(first: int): (s: Links)
    ensures WellLinked(s) && Values(s) == [first] && s.count == 1 && s.tail.None?
  {
    Links([Cell(first, None, None)], Some(0), None, 1)
  }

  /** init(_:_:): two linked nodes. */
  function Pair(first: int, last: int): (s: Links)
    ensures Proper(s) && Values(s) == [first, last]
  {
    var s := Links([Cell(first, None, Some(1)), Cell(last, Some(0), None)], Some(0), Some(1), 2);
    assert Path(s.nodes, 1) == [1];
    assert Chain(s) == [0, 1];
    s
  }

  /** The evidently intended init(_:): the single node is both head and tail. */
  function Single(first: int): (s: Links)
    ensures Proper(s) && Values(s) == [first]
  {
    Links([Cell(first, None, None)], Some(0), Some(0), 1)
  }

  // ================================================================ linkLast

  /**
   * linkLast(_:): a new cell after the old tail becomes the tail; the old tail's successor
   * becomes the new cell, or, with no tail, the new cell becomes the head. The count grows.
   */
  function LinkLast(s: Links, item: int): (r: Links)
    requires WellLinked(s)
    ensures WellLinked(r) && |r.nodes| == |s.nodes| + 1
    ensures r.tail == Some(|s.nodes|) && r.count == s.count + 1
  {
    var n := |s.nodes|;
    var nodes :=
      if s.tail.None? then s.nodes
      else s.nodes[s.tail.value := s.nodes[s.tail.value].(next := Some(n))];
    Links(nodes + [Cell(item, s.tail, None)], if s.tail.None? then Some(n) else s.head, Some(n), s.count + 1)
  }

  // ================================================================ find(_ index:)

  function NextOrSelf(nodes: seq<Cell>, i: nat): (j: nat)
    requires LinksAhead(nodes) && i < |nodes|
    ensures j < |nodes|
  {
    if nodes[i].next.Some? then nodes[i].next.value else i
  }

  function PreviousOrSelf(nodes: seq<Cell>, i: nat): (j: nat)
    requires Forwards(nodes) && i < |nodes|
    ensures j < |nodes|
  {
    if nodes[i].previous.Some? then nodes[i].previous.value else i
  }

  /** The cell reached after `k` steps forward from `i`, staying put at the last cell. */
  function Forward(nodes: seq<Cell>, i: nat, k: nat): (j: nat)
    requires LinksAhead(nodes) && i < |nodes|
    ensures j < |nodes|
  {
    if k == 0 then i else NextOrSelf(nodes, Forward(nodes, i, k - 1))
  }

  /** The cell reached after `k` steps backward from `i`, staying put at the first cell. */
  function Backward(nodes: seq<Cell>, i: nat, k: nat): (j: nat)
    requires Forwards(nodes) && i < |nodes|
    ensures j < |nodes|
  {
    if k == 0 then i else PreviousOrSelf(nodes, Backward(nodes, i, k - 1))
  }

  /** find(_ index:) force-unwraps the head when it walks forward and the tail otherwise. */
  predicate CanFindIndex(s: Links, index: int)
  {
    if index < s.count / 2 then s.head.Some? else s.tail.Some?
  }

  /**
   * find(_ index:): below count >> 1 it walks `index` steps forward from the head, otherwise
   * count - 1 - index steps backward from the tail (no step when that is not positive).
   */
  function FindIndex(s: Links, index: int): (n: nat)
    requires WellLinked(s) && CanFindIndex(s, index)
    ensures n < |s.nodes|
  {
    if index < s.count / 2 then Forward(s.nodes, s.head.value, if index < 0 then 0 else index)
    else Backward(s.nodes, s.tail.value, if s.count - 1 - index < 0 then 0 else s.count - 1 - index)
  }

  /** isValidIndex(_:): as written, the count itself is accepted. */
  predicate IsValidIndex(s: Links, index: int)
  {
    0 <= index <= s.count
  }

  /** get(_:): the value of the node find(_ index:) reaches, nil outside isValidIndex. */
  function Get(s: Links, index: int): (r: Option<int>)
    requires WellLinked(s) && (IsValidIndex(s, index) ==> CanFindIndex(s, index))
    ensures r.Some? <==> IsValidIndex(s, index)
  {
    if IsValidIndex(s, index) then Some(s.nodes[FindIndex(s, index)].value) else None
  }

  /** set(_:value:): overwrites the value of that node only. */
  function Set(s: Links, index: int, value: int): (r: Links)
    requires WellLinked(s) && (IsValidIndex(s, index) ==> CanFindIndex(s, index))
    ensures WellLinked(r) && |r.nodes| == |s.nodes|
    ensures r.head == s.head && r.tail == s.tail && r.count == s.count
  {
    if IsValidIndex(s, index) then
      var n := FindIndex(s, index);
      s.(nodes := s.nodes[n := s.nodes[n].(value := value)])
    else s
  }

  /** The evidently intended index check: a position of one of the count nodes. */
  predicate InRange(s: Links, index: int)
  {
    0 <= index < s.count
  }

  /** get(_:) with the intended index check. */
  function GetInRange(s: Links, index: int): (r: Option<int>)
    requires WellLinked(s) && (InRange(s, index) ==> CanFindIndex(s, index))
    ensures r.Some? <==> InRange(s, index)
  {
    if InRange(s, index) then Some(s.nodes[FindIndex(s, index)].value) else None
  }

  // ================================================================ find(_ element:)

  /**
   * find(_ element:): checks at most `k` cells from `i`, returning the first holding `e` and
   * stopping at the last cell.
   */
  function Scan(nodes: seq<Cell>, i: nat, k: int, e: int): (r: Option<nat>)
    requires LinksAhead(nodes) && i < |nodes|
    ensures r.Some? ==> r.value < |nodes| && nodes[r.value].value == e
    decreases if k < 0 then 0 else k
  {
    if k <= 0 then None
    else if nodes[i].value == e then Some(i)
    else if nodes[i].next.None? then None
    else Scan(nodes, nodes[i].next.value, k - 1, e)
  }

  /** find(_ element:) from the head, checking at most count cells; it traps on a nil head. */
  function Find(s: Links, e: int): (r: Option<nat>)
    requires WellLinked(s) && s.head.Some?
    ensures r.Some? ==> r.value < |s.nodes| && s.nodes[r.value].value == e
  {
    Scan(s.nodes, s.head.value, s.count, e)
  }

  // ================================================================ unlink

  /**
   * unlink(node:): the predecessor's successor becomes the node's successor and the
   * successor's predecessor the node's predecessor. Head, tail and count stay as they are.
   */
  function Unlink(s: Links, d: nat): (r: Links)
    requires WellLinked(s) && d < |s.nodes|
    ensures WellLinked(r) && |r.nodes| == |s.nodes|
    ensures r.head == s.head && r.tail == s.tail && r.count == s.count
  {
    var c := s.nodes[d];
    var n1 :=
      if c.previous.Some? then s.nodes[c.previous.value := s.nodes[c.previous.value].(next := c.next)]
      else s.nodes;
    var n2 :=
      if c.next.Some? then n1[c.next.value := n1[c.next.value].(previous := c.previous)]
      else n1;
    s.(nodes := n2)
  }

  /**
   * What unlink(node:) changes in one cell: the predecessor takes over the node's successor
   * and the successor its predecessor; values and all other links stay.
   */
  lemma UnlinkAt(s: Links, d: nat, x: nat)
    requires WellLinked(s) && d < |s.nodes| && x < |s.nodes|
    ensures var r := Unlink(s, d).nodes;
      && r[x].value == s.nodes[x].value
      && r[x].next == (if s.nodes[d].previous == Some(x) then s.nodes[d].next else s.nodes[x].next)
      && r[x].previous == (if s.nodes[d].next == Some(x) then s.nodes[d].previous else s.nodes[x].previous)
  {
  }

  /**
   * The evidently intended unlink: as unlink(node:), and besides a removed head passes the
   * head on to its successor, a removed tail passes the tail back to its predecessor, and the
   * count drops by one.
   */
  function Detach(s: Links, d: nat): (r: Links)
    requires WellLinked(s) && d < |s.nodes|
    ensures WellLinked(r) && r.nodes == Unlink(s, d).nodes
  {
    Unlink(s, d).(
      head := if s.head == Some(d) then s.nodes[d].next else s.head,
      tail := if s.tail == Some(d) then s.nodes[d].previous else s.tail,
      count := if s.count > 0 then s.count - 1 else 0)
  }

  // ================================================================ the class

  class LinkedList {
    var nodes: seq<Cell>
    var head: Option<nat>
    var tail: Option<nat>
    var count: int

    function State(): Links
      reads this
    {
      Links(nodes, head, tail, count)
    }

    ghost predicate Valid()
      reads this
    {
      WellLinked(State())
    }

    /** init(): an empty list. */
    constructor ()
      ensures Valid() && State() == Empty()
    {
      nodes, head, tail, count := [], None, None, 0;
    }

    /** init(_:): one node, which is the head but not the tail. */
    constructor WithFirst(first: int)
      ensures Valid() && State() == FirstOnly(first)
    {
      nodes, head, tail, count := [Cell(first, None, None)], Some(0), None, 1;
    }

    /** init(_:_:): two nodes linked to each other. */
    constructor WithFirstAndLast(first: int, last: int)
      ensures Valid() && State() == Pair(first, last)
    {
      nodes := [Cell(first, None, Some(1)), Cell(last, Some(0), None)];
      head, tail, count := Some(0), Some(1), 2;
    }

    /** add(_:) and linkLast(_:): always true. */
    method Add(element: int) returns (b: bool)
      requires Valid()
      modifies this
      ensures Valid() && b
      ensures State() == LinkLast(old(State()), element)
    {
      var n := |nodes|;
      var last := tail;
      tail := Some(n);
      if last.None? {
        nodes := nodes + [Cell(element, last, None)];
        head := Some(n);
      } else {
        nodes := nodes[last.value := nodes[last.value].(next := Some(n))] + [Cell(element, last, None)];
      }
      count := count + 1;
      b := true;
    }

    /** find(_ index:): the two walks, as loops. */
    method FindIndexOf(index: int) returns (n: nat)
      requires Valid() && CanFindIndex(State(), index)
      ensures n == FindIndex(State(), index)
    {
      if index < count / 2 {
        var position := 0;
        n := head.value;
        while position < index
          invariant 0 <= position && (index >= 0 ==> position <= index)
          invariant index < 0 ==> position == 0
          invariant n == Forward(nodes, head.value, position)
        {
          n := NextOrSelf(nodes, n);
          position := position + 1;
        }
      } else {
        var position := count - 1;
        n := tail.value;
        while position > index
          invariant position <= count - 1 && (position < count - 1 ==> index <= position)
          invariant n == Backward(nodes, tail.value, count - 1 - position)
        {
          n := PreviousOrSelf(nodes, n);
          position := position - 1;
        }
      }
    }

    /** find(_ element:): the loop over at most count nodes from the head. */
    method FindElement(e: int) returns (r: Option<nat>)
      requires Valid() && head.Some?
      ensures r == Find(State(), e)
    {
      var current: nat := head.value;
      var position := 1;
      while position <= count
        invariant 1 <= position && current < |nodes|
        invariant Find(State(), e) == Scan(nodes, current, count - position + 1, e)
        decreases count - position
      {
        if nodes[current].value == e {
          return Some(current);
        }
        if nodes[current].next.None? {
          return None;
        }
        current := nodes[current].next.value;
        position := position + 1;
      }
      return None;
    }

    /** unlink(node:): finds the first node holding the node's value and relinks around it. */
    method UnlinkNode(node: nat) returns (r: Option<int>)
      requires Valid() && head.Some? && node < |nodes|
      modifies this
      ensures Valid()
      ensures var d := Find(old(State()), old(nodes[node].value));
        && (d.None? ==> r.None? && State() == old(State()))
        && (d.Some? ==> r == Some(old(nodes[node].value)) && State() == Unlink(old(State()), d.value))
    {
      var deleted := FindElement(nodes[node].value);
      if deleted.None? {
        return None;
      }
      var d := deleted.value;
      var c := nodes[d];
      if c.previous.Some? {
        nodes := nodes[c.previous.value := nodes[c.previous.value].(next := c.next)];
      }
      if c.next.Some? {
        nodes := nodes[c.next.value := nodes[c.next.value].(previous := c.previous)];
      }
      return Some(c.value);
    }

    /** remove(_:): nil when no node holds `element`; it traps on a nil head. */
    method Remove(element: int) returns (r: Option<int>)
      requires Valid() && head.Some?
      modifies this
      ensures Valid()
      ensures var d := Find(old(State()), element);
        && (d.None? ==> r.None? && State() == old(State()))
        && (d.Some? ==> r == Some(element) && State() == Unlink(old(State()), d.value))
    {
      var found := FindElement(element);
      if found.None? {
        return None;
      }
      r := UnlinkNode(found.value);
    }

    /** get(_:). */
    method GetAt(index: int) returns (r: Option<int>)
      requires Valid() && (IsValidIndex(State(), index) ==> CanFindIndex(State(), index))
      ensures r == Get(State(), index)
    {
      if 0 <= index <= count {
        var n := FindIndexOf(index);
        r := Some(nodes[n].value);
      } else {
        r := None;
      }
    }

    /** set(_:value:): returns the previous value. */
    method SetAt(index: int, value: int) returns (r: Option<int>)
      requires Valid() && (IsValidIndex(State(), index) ==> CanFindIndex(State(), index))
      modifies this
      ensures Valid()
      ensures r == Get(old(State()), index)
      ensures State() == Set(old(State()), index, value)
    {
      if 0 <= index <= count {
        var n := FindIndexOf(index);
        r := Some(nodes[n].value);
        nodes := nodes[n := nodes[n].(value := value)];
      } else {
        r := None;
      }
    }

    /** size(): the number of successor links followed from the head. */
    method Size() returns (n: nat)
      requires Valid()
      ensures n == if head.None? then 0 else |Chain(State())| - 1
    {
      n := 0;
      if head.None? {
        return;
      }
      var current: nat := head.value;
      ChainNext(State(), 0);
      while nodes[current].next.Some?
        invariant n < |Chain(State())| && current == Chain(State())[n]
        invariant nodes[current].next == if n + 1 < |Chain(State())| then Some(Chain(State())[n + 1]) else None
        decreases |nodes| - current
      {
        ChainNext(State(), n + 1);
        n := n + 1;
        current := nodes[current].next.value;
      }
    }

    /** The evidently intended size(): the number of nodes, which is the count in a list in shape. */
    method CountNodes() returns (n: nat)
      requires Valid()
      ensures n == |Values(State())|
      ensures Proper(State()) ==> n == count
    {
      n := 0;
      var current: Option<nat> := head;
      while current.Some?
        invariant n <= |Chain(State())|
        invariant current.Some? <==> n < |Chain(State())|
        invariant current.Some? ==> current.value == Chain(State())[n]
        decreases |Chain(State())| - n
      {
        ChainNext(State(), n);
        current := nodes[current.value].next;
        n := n + 1;
      }
    }

    /** all(): the values from the head along the successor links. */
    method All() returns (values: seq<int>)
      requires Valid()
      ensures values == Values(State())
    {
      values := [];
      if head.None? {
        return;
      }
      var c := Chain(State());
      ghost var v := Values(State());
      var current: Option<nat> := head;
      var k := 0;
      while current.Some?
        invariant k <= |c| && values == v[..k]
        invariant current.Some? <==> k < |c|
        invariant current.Some? ==> current.value == c[k]
        decreases |c| - k
      {
        ChainNext(State(), k);
        PrefixSnoc(v, k);
        values := values + [nodes[current.value].value];
        current := nodes[current.value].next;
        k := k + 1;
      }
      assert v[..|v|] == v;
    }

    /** contains(_:): whether find(_ element:) finds a node; it traps on a nil head. */
    method Contains(element: int) returns (b: bool)
      requires Valid() && head.Some?
      ensures b <==> Find(State(), element).Some?
    {
      var found := FindElement(element);
      b := found.Some?;
    }

    /** clear(): drops head and tail; the count stays. */
    method Clear()
      requires Valid()
      modifies this
      ensures Valid() && nodes == old(nodes) && count == old(count)
      ensures head.None? && tail.None? && Values(State()) == []
    {
      head, tail := None, None;
    }
  }

  // ================================================================ lemmas

  /** A walk that meets the same successor links from `i` on visits the same cells. */
  lemma {:induction false} PathAgree(nodes: seq<Cell>, nodes': seq<Cell>, i: nat)
    requires LinksAhead(nodes) && LinksAhead(nodes') && |nodes'| == |nodes| && i < |nodes|
    requires forall x :: i <= x < |nodes| ==> nodes'[x].next == nodes[x].next
    ensures Path(nodes', i) == Path(nodes, i)
    decreases |nodes| - i
  {
    if nodes[i].next.Some? {
      PathAgree(nodes, nodes', nodes[i].next.value);
    }
  }

  /** The arena with a new cell linked after cell `t`. */
  function Extended(nodes: seq<Cell>, t: nat, x: int): (r: seq<Cell>)
    requires Forwards(nodes) && t < |nodes|
    ensures Forwards(r) && |r| == |nodes| + 1
    ensures r[t].next == Some(|nodes|) && r[|nodes|] == Cell(x, Some(t), None)
  {
    var r := nodes[t := nodes[t].(next := Some(|nodes|))] + [Cell(x, Some(t), None)];
    assert forall k :: 0 <= k < |nodes| && k != t ==> r[k] == nodes[k];
    r
  }

  /** Linking a new cell after the last cell of a walk extends the walk by that cell. */
  lemma {:induction false} PathExtend(nodes: seq<Cell>, i: nat, t: nat, x: int)
    requires Forwards(nodes) && i < |nodes| && t < |nodes|
    requires var p := Path(nodes, i); p[|p| - 1] == t
    ensures Path(Extended(nodes, t, x), i) == Path(nodes, i) + [|nodes|]
    decreases |nodes| - i
  {
    var nodes' := Extended(nodes, t, x);
    var n := |nodes|;
    if i == t {
      PathNext(nodes, i, |Path(nodes, i)| - 1);
      PathExtendHere(nodes, t, x);
    } else {
      var j := nodes[i].next.value;
      var q := Path(nodes, j);
      assert Path(nodes, i) == [i] + q;
      assert q[|q| - 1] == t;
      PathExtend(nodes, j, t, x);
      assert nodes'[i] == nodes[i];
      assert Path(nodes', i) == [i] + (q + [n]);
      assert [i] + (q + [n]) == ([i] + q) + [n];
    }
  }

  lemma PathExtendHere(nodes: seq<Cell>, t: nat, x: int)
    requires Forwards(nodes) && t < |nodes| && nodes[t].next.None?
    ensures Path(Extended(nodes, t, x), t) == [t, |nodes|]
  {
    var nodes' := Extended(nodes, t, x);
    assert Path(nodes', |nodes|) == [|nodes|];
  }

  /** Linking a cell after the tail appends its value, and the list stays in shape. */
  lemma LinkLastKeepsProper(s: Links, x: int)
    requires Proper(s)
    ensures Proper(LinkLast(s, x))
    ensures Values(LinkLast(s, x)) == Values(s) + [x]
  {
    var r := LinkLast(s, x);
    var c := Chain(s);
    var n := |s.nodes|;
    if s.tail.None? {
      assert Path(r.nodes, n) == [n];
      assert Chain(r) == [n];
    } else {
      var t := s.tail.value;
      assert r.nodes == Extended(s.nodes, t, x);
      PathExtend(s.nodes, s.head.value, t, x);
      var c' := Chain(r);
      assert c' == c + [n];
      forall k | 0 <= k < |c'| && r.nodes[c'[k]].next.Some?
        ensures r.nodes[r.nodes[c'[k]].next.value].previous == Some(c'[k])
      {
        LinkLastMirror(s, x, k);
      }
      ValuesAtExtend(s.nodes, r.nodes, c, x);
    }
  }

  /** After linking a cell after the tail, every predecessor link still mirrors its successor link. */
  lemma LinkLastMirror(s: Links, x: int, k: nat)
    requires Proper(s) && s.tail.Some? && k <= |Chain(s)|
    ensures var c' := Chain(s) + [|s.nodes|]; var r := LinkLast(s, x).nodes;
      r[c'[k]].next.Some? ==> k + 1 < |c'| && r[c'[k]].next == Some(c'[k + 1]) && r[c'[k + 1]].previous == Some(c'[k])
  {
    var c := Chain(s);
    if k + 1 < |c| {
      ChainIncreasing(s, k, |c| - 1);
      ChainNext(s, k);
      PreviousOnProper(s, k + 1);
    }
  }

  /** Reading the values along a sequence of positions extended by a new last cell. */
  lemma ValuesAtExtend(nodes: seq<Cell>, nodes': seq<Cell>, c: seq<nat>, x: int)
    requires |nodes'| == |nodes| + 1 && forall m :: 0 <= m < |c| ==> c[m] < |nodes|
    requires forall y :: 0 <= y < |nodes| ==> nodes'[y].value == nodes[y].value
    requires nodes'[|nodes|].value == x
    ensures ValuesAt(nodes', c + [|nodes|]) == ValuesAt(nodes, c) + [x]
  {
    var c' := c + [|nodes|];
    var v, v' := ValuesAt(nodes, c), ValuesAt(nodes', c');
    forall m | 0 <= m < |c'|
      ensures v'[m] == (v + [x])[m]
    {
      if m < |c| {
        assert c'[m] == c[m];
      }
    }
  }

  /** Stepping forward from a cell follows its walk. */
  lemma {:induction false} ForwardOnPath(nodes: seq<Cell>, i: nat, k: nat)
    requires LinksAhead(nodes) && i < |nodes| && k < |Path(nodes, i)|
    ensures Forward(nodes, i, k) == Path(nodes, i)[k]
  {
    if k > 0 {
      ForwardOnPath(nodes, i, k - 1);
      PathNext(nodes, i, k - 1);
    }
  }

  /** Stepping backward from the tail follows the chain backwards. */
  lemma {:induction false} BackwardOnChain(s: Links, k: nat)
    requires Proper(s) && k < |Chain(s)|
    ensures Backward(s.nodes, s.tail.value, k) == Chain(s)[|Chain(s)| - 1 - k]
  {
    if k > 0 {
      BackwardOnChain(s, k - 1);
      ChainNext(s, |Chain(s)| - 1 - k);
    }
  }

  /** From whichever end it starts, find(_ index:) reaches the node at that position. */
  lemma FindIndexOnProper(s: Links, index: int)
    requires Proper(s) && 0 <= index < s.count
    ensures CanFindIndex(s, index)
    ensures FindIndex(s, index) == Chain(s)[index]
  {
    if index < s.count / 2 {
      ForwardOnPath(s.nodes, s.head.value, index);
    } else {
      BackwardOnChain(s, s.count - 1 - index);
    }
  }

  /** Inside the list, get(_:) returns the value at that position. */
  lemma GetOnProper(s: Links, index: int)
    requires Proper(s) && 0 <= index < s.count
    ensures CanFindIndex(s, index)
    ensures Get(s, index) == GetInRange(s, index) == Some(Values(s)[index])
  {
    FindIndexOnProper(s, index);
  }

  /**
   * get(_:) as written accepts the count as an index: on a non-empty list it then walks no
   * step back from the tail and returns the last value instead of nil, and on an empty list
   * it unwraps the nil tail. The intended check returns nil.
   */
  lemma GetPastTheEnd(s: Links)
    requires Proper(s)
    ensures IsValidIndex(s, s.count) && GetInRange(s, s.count).None?
    ensures s.count == 0 ==> !CanFindIndex(s, 0)
    ensures s.count > 0 ==> CanFindIndex(s, s.count) && Get(s, s.count) == Some(Values(s)[s.count - 1])
  {
    if s.count > 0 {
      assert s.tail.value == Chain(s)[s.count - 1];
    }
  }

  /** set(_:value:) inside the list replaces the value at that position and nothing else. */
  lemma SetOnProper(s: Links, index: int, value: int)
    requires Proper(s) && 0 <= index < s.count
    ensures CanFindIndex(s, index)
    ensures Proper(Set(s, index, value))
    ensures Values(Set(s, index, value)) == Values(s)[index := value]
  {
    FindIndexOnProper(s, index);
    WriteValue(s, index, value);
  }

  /** Overwriting the value of the cell at one position of the chain. */
  lemma WriteValue(s: Links, index: nat, value: int)
    requires Proper(s) && index < |Chain(s)|
    ensures var d := Chain(s)[index];
      var r := s.(nodes := s.nodes[d := s.nodes[d].(value := value)]);
      Proper(r) && Values(r) == Values(s)[index := value]
  {
    var c := Chain(s);
    var d := c[index];
    var nodes' := s.nodes[d := s.nodes[d].(value := value)];
    assert SameLinks(s.nodes, nodes');
    SameLinksKeepShape(s, nodes');
    forall k | 0 <= k < |c| && k != index
      ensures c[k] != d
    {
      ChainIncreasing(s, k, index);
    }
    ValuesAtWrite(s.nodes, c, index, value);
  }

  /** Overwriting the value of the cell at one position of `c`, which no other position names. */
  lemma ValuesAtWrite(nodes: seq<Cell>, c: seq<nat>, index: nat, value: int)
    requires index < |c| && forall m :: 0 <= m < |c| ==> c[m] < |nodes|
    requires forall m :: 0 <= m < |c| && m != index ==> c[m] != c[index]
    ensures var nodes' := nodes[c[index] := nodes[c[index]].(value := value)];
      ValuesAt(nodes', c) == ValuesAt(nodes, c)[index := value]
  {
  }

  /** Two arenas with the same links, whatever the values. */
  predicate SameLinks(a: seq<Cell>, b: seq<Cell>)
  {
    |a| == |b| && forall k :: 0 <= k < |a| ==> a[k].next == b[k].next && a[k].previous == b[k].previous
  }

  /** Changing values only keeps the chain and the shape of the list. */
  lemma SameLinksKeepShape(s: Links, nodes': seq<Cell>)
    requires WellLinked(s) && SameLinks(s.nodes, nodes')
    ensures WellLinked(s.(nodes := nodes'))
    ensures Chain(s.(nodes := nodes')) == Chain(s)
    ensures Proper(s) ==> Proper(s.(nodes := nodes'))
  {
    if s.head.Some? {
      PathAgree(s.nodes, nodes', s.head.value);
    }
  }

  /** The chain never visits a cell twice. */
  lemma ChainIncreasing(s: Links, a: nat, b: nat)
    requires WellLinked(s) && a < |Chain(s)| && b < |Chain(s)| && a != b
    ensures Chain(s)[a] != Chain(s)[b]
  {
    if a < b {
      PathIncreasing(s.nodes, s.head.value, a, b);
    } else {
      PathIncreasing(s.nodes, s.head.value, b, a);
    }
  }

  /**
   * find(_ element:) over a walk no longer than its step budget finds something exactly when
   * some cell of the walk holds `e`.
   */
  lemma {:induction false} ScanOnPath(nodes: seq<Cell>, i: nat, k: int, e: int)
    requires LinksAhead(nodes) && i < |nodes| && |Path(nodes, i)| <= k
    ensures Scan(nodes, i, k, e).None? <==> forall m :: 0 <= m < |Path(nodes, i)| ==> nodes[Path(nodes, i)[m]].value != e
    decreases |nodes| - i
  {
    var p := Path(nodes, i);
    if nodes[i].value == e {
      assert nodes[p[0]].value == e;
    } else if nodes[i].next.Some? {
      var n := nodes[i].next.value;
      var q := Path(nodes, n);
      assert p == [i] + q;
      ScanOnPath(nodes, n, k - 1, e);
      if Scan(nodes, n, k - 1, e).Some? {
        var m :| 0 <= m < |q| && nodes[q[m]].value == e;
        assert nodes[p[m + 1]].value == e;
      }
    }
  }

  /** ... and then it finds the first such cell. */
  lemma {:induction false} ScanFindsFirst(nodes: seq<Cell>, i: nat, k: int, e: int, j: nat)
    requires LinksAhead(nodes) && i < |nodes| && |Path(nodes, i)| <= k
    requires j < |Path(nodes, i)| && nodes[Path(nodes, i)[j]].value == e
    requires forall m :: 0 <= m < j ==> nodes[Path(nodes, i)[m]].value != e
    ensures Scan(nodes, i, k, e) == Some(Path(nodes, i)[j])
    decreases |nodes| - i
  {
    if j > 0 {
      assert nodes[Path(nodes, i)[0]].value != e;
      var n := nodes[i].next.value;
      var q := Path(nodes, n);
      assert Path(nodes, i) == [i] + q;
      forall m | 0 <= m < j - 1
        ensures nodes[q[m]].value != e
      {
        assert q[m] == Path(nodes, i)[m + 1];
      }
      ScanFindsFirst(nodes, n, k - 1, e, j - 1);
    }
  }

  /**
   * On a list in shape, find(_ element:) finds a node exactly when `e` is one of the values,
   * and then the node at the first position holding it; contains(_:) says the same.
   */
  lemma FindOnProper(s: Links, e: int, j: nat)
    requires Proper(s) && s.head.Some?
    ensures Find(s, e).None? <==> e !in Values(s)
    ensures j < |Values(s)| && Values(s)[j] == e && e !in Values(s)[..j] ==> Find(s, e) == Some(Chain(s)[j])
  {
    ScanOnPath(s.nodes, s.head.value, s.count, e);
    var v := Values(s);
    if e in v {
      var m :| 0 <= m < |v| && v[m] == e;
      assert s.nodes[Chain(s)[m]].value == e;
    }
    if j < |Values(s)| && Values(s)[j] == e && e !in Values(s)[..j] {
      forall m | 0 <= m < j
        ensures s.nodes[Chain(s)[m]].value != e
      {
        assert Values(s)[..j][m] == Values(s)[m];
      }
      ScanFindsFirst(s.nodes, s.head.value, s.count, e, j);
    }
  }

  /** Walks over arenas whose successor links differ only in skipping one cell. */
  lemma PathSkip(nodes: seq<Cell>, nodes': seq<Cell>, i: nat, j: nat, a: nat)
    requires LinksAhead(nodes) && LinksAhead(nodes') && |nodes'| == |nodes| && i < |nodes|
    requires j + 1 < |Path(nodes, i)| && Path(nodes, i)[j] == a
    requires nodes[a].next.Some? && nodes'[a].next == nodes[nodes[a].next.value].next
    requires forall x :: 0 <= x < |nodes| && x != a ==> nodes'[x].next == nodes[x].next
    ensures var p := Path(nodes, i); Path(nodes', i) == p[..j + 1] + p[j + 2..]
  {
    PathSkips(nodes, nodes', i, j, a);
    SkipSlices(Path(nodes, i), j);
  }

  /** `q` without its entry at position j + 1. */
  function Skip(q: seq<nat>, j: nat): (r: seq<nat>)
    requires j + 1 < |q|
    decreases j
  {
    if j == 0 then [q[0]] + q[2..] else [q[0]] + Skip(q[1..], j - 1)
  }

  lemma {:induction false} SkipSlices(q: seq<nat>, j: nat)
    requires j + 1 < |q|
    ensures Skip(q, j) == q[..j + 1] + q[j + 2..]
    decreases j
  {
    if j > 0 {
      SkipSlices(q[1..], j - 1);
      assert q[1..][..j] + q[1..][j + 1..] == q[1..j + 1] + q[j + 2..];
      assert q[..j + 1] == [q[0]] + q[1..j + 1];
    }
  }

  lemma {:induction false} PathSkips(nodes: seq<Cell>, nodes': seq<Cell>, i: nat, j: nat, a: nat)
    requires LinksAhead(nodes) && LinksAhead(nodes') && |nodes'| == |nodes| && i < |nodes|
    requires j + 1 < |Path(nodes, i)| && Path(nodes, i)[j] == a
    requires nodes[a].next.Some? && nodes'[a].next == nodes[nodes[a].next.value].next
    requires forall x :: 0 <= x < |nodes| && x != a ==> nodes'[x].next == nodes[x].next
    ensures Path(nodes', i) == Skip(Path(nodes, i), j)
    decreases |nodes| - i
  {
    if j == 0 {
      PathSkipHere(nodes, nodes', i);
    } else {
      var b := PathStep(nodes, i);
      assert i != a by {
        PathIncreasing(nodes, i, 0, j);
      }
      var b' := PathStep(nodes', i);
      var q := Path(nodes, b);
      assert q[j - 1] == a;
      PathSkips(nodes, nodes', b, j - 1, a);
      SkipCons(i, q, j);
      calc {
        Path(nodes', i);
        [i] + Path(nodes', b);
        [i] + Skip(q, j - 1);
        Skip([i] + q, j);
        Skip(Path(nodes, i), j);
      }
    }
  }

  lemma SkipCons(x: nat, q: seq<nat>, j: nat)
    requires 0 < j && j < |q|
    ensures Skip([x] + q, j) == [x] + Skip(q, j - 1)
  {
    assert ([x] + q)[1..] == q;
  }

  /** A walk of more than one cell is its first cell followed by the walk from the second. */
  lemma PathStep(nodes: seq<Cell>, i: nat) returns (b: nat)
    requires LinksAhead(nodes) && i < |nodes| && nodes[i].next.Some?
    ensures b == nodes[i].next.value && b < |nodes|
    ensures Path(nodes, i) == [i] + Path(nodes, b)
  {
    b := nodes[i].next.value;
  }

  /** The base case of PathSkip: the cell after the first is skipped. */
  lemma PathSkipHere(nodes: seq<Cell>, nodes': seq<Cell>, i: nat)
    requires LinksAhead(nodes) && LinksAhead(nodes') && |nodes'| == |nodes| && i < |nodes|
    requires nodes[i].next.Some? && nodes'[i].next == nodes[nodes[i].next.value].next
    requires forall x :: 0 <= x < |nodes| && x != i ==> nodes'[x].next == nodes[x].next
    ensures Path(nodes', i) == [i] + Path(nodes, i)[2..]
  {
    var b := PathStep(nodes, i);
    if nodes[b].next.None? {
      PathEnd(nodes, b);
      PathEnd(nodes', i);
      DropTwo(i, b, []);
    } else {
      var c := PathStep(nodes, b);
      PathAgree(nodes, nodes', c);
      var c' := PathStep(nodes', i);
      DropTwo(i, b, Path(nodes, c));
    }
  }

  /** A walk from a cell without a successor is that cell alone. */
  lemma PathEnd(nodes: seq<Cell>, i: nat)
    requires LinksAhead(nodes) && i < |nodes| && nodes[i].next.None?
    ensures Path(nodes, i) == [i]
  {
  }

  lemma DropTwo(x: nat, y: nat, r: seq<nat>)
    ensures ([x] + ([y] + r))[2..] == r
  {
  }

  /** The predecessor link of a cell of the chain, in a list in shape. */
  lemma PreviousOnProper(s: Links, k: nat)
    requires Proper(s) && k < |Chain(s)|
    ensures s.nodes[Chain(s)[k]].previous == if k == 0 then None else Some(Chain(s)[k - 1])
  {
    if k > 0 {
      ChainNext(s, k - 1);
    }
  }

  /**
   * unlink(node:) as written, on the head: the head still points at the node, so nothing
   * leaves the list.
   */
  lemma UnlinkHeadKeepsValues(s: Links)
    requires Proper(s) && s.head.Some?
    ensures Values(Unlink(s, s.head.value)) == Values(s)
  {
    var r := Unlink(s, s.head.value);
    PreviousOnProper(s, 0);
    PathAgree(s.nodes, r.nodes, s.head.value);
  }

  /**
   * unlink(node:) as written, on a later node: the node leaves the chain, but the count keeps
   * counting it, so the list is no longer in shape.
   */
  lemma UnlinkLaterDropsValue(s: Links, k: nat)
    requires Proper(s) && 0 < k < |Chain(s)|
    ensures var r := Unlink(s, Chain(s)[k]);
      && Values(r) == Values(s)[..k] + Values(s)[k + 1..]
      && r.count == |Values(s)| == |Values(r)| + 1
      && !Proper(r)
  {
    UnlinkChain(s, k);
  }

  /** Unlinking the cell at position k > 0 cuts exactly that cell out of the chain. */
  lemma UnlinkChain(s: Links, k: nat)
    requires Proper(s) && 0 < k < |Chain(s)|
    ensures var r := Unlink(s, Chain(s)[k]);
      && Chain(r) == Chain(s)[..k] + Chain(s)[k + 1..]
      && Values(r) == Values(s)[..k] + Values(s)[k + 1..]
  {
    var c := Chain(s);
    var r := Unlink(s, c[k]);
    PreviousOnProper(s, k);
    ChainNext(s, k - 1);
    forall x | 0 <= x < |s.nodes|
      ensures r.nodes[x].value == s.nodes[x].value
      ensures x != c[k - 1] ==> r.nodes[x].next == s.nodes[x].next
    {
      UnlinkAt(s, c[k], x);
    }
    UnlinkAt(s, c[k], c[k - 1]);
    PathSkip(s.nodes, r.nodes, s.head.value, k - 1, c[k - 1]);
    assert Chain(r) == Path(r.nodes, s.head.value);
    ValuesAtSkip(s.nodes, r.nodes, c, k);
  }

  /** Reading the same values along a sequence of positions with one position left out. */
  lemma ValuesAtSkip(nodes: seq<Cell>, nodes': seq<Cell>, c: seq<nat>, k: nat)
    requires |nodes'| == |nodes| && k < |c| && forall m :: 0 <= m < |c| ==> c[m] < |nodes|
    requires forall x :: 0 <= x < |nodes| ==> nodes'[x].value == nodes[x].value
    ensures ValuesAt(nodes', c[..k] + c[k + 1..]) == ValuesAt(nodes, c)[..k] + ValuesAt(nodes, c)[k + 1..]
  {
    var c' := c[..k] + c[k + 1..];
    var v, v' := ValuesAt(nodes, c), ValuesAt(nodes', c');
    forall m | 0 <= m < |c'|
      ensures v'[m] == (v[..k] + v[k + 1..])[m]
    {
      if m >= k {
        assert c'[m] == c[m + 1];
      }
    }
  }

  /** The intended unlink removes the value at position k and keeps the list in shape. */
  lemma DetachKeepsProper(s: Links, k: nat)
    requires Proper(s) && k < |Chain(s)|
    ensures var r := Detach(s, Chain(s)[k]);
      Proper(r) && Values(r) == Values(s)[..k] + Values(s)[k + 1..]
  {
    var c := Chain(s);
    var d := c[k];
    var r := Detach(s, d);
    PreviousOnProper(s, k);
    ChainNext(s, k);
    if k == 0 {
      DetachHead(s);
    } else {
      UnlinkChain(s, k);
      DetachLater(s, k);
    }
  }

  lemma DetachHead(s: Links)
    requires Proper(s) && s.head.Some?
    ensures var r := Detach(s, s.head.value);
      Proper(r) && Values(r) == Values(s)[1..]
  {
    var c := Chain(s);
    var r := Detach(s, c[0]);
    ChainNext(s, 0);
    if |c| == 1 {
      assert r.head.None? && r.tail.None? && r.count == 0;
    } else {
      DetachHeadChain(s);
      var c' := Chain(r);
      forall m | 0 <= m < |c'| && r.nodes[c'[m]].next.Some?
        ensures r.nodes[r.nodes[c'[m]].next.value].previous == Some(c'[m])
      {
        DetachHeadMirror(s, m);
      }
      ValuesAtSkip(s.nodes, r.nodes, c, 0);
      assert c[..0] + c[1..] == c[1..];
    }
  }

  /** Detaching the head of a list of two or more: the chain starts at the second cell. */
  lemma DetachHeadChain(s: Links)
    requires Proper(s) && |Chain(s)| > 1
    ensures var c := Chain(s); var r := Detach(s, c[0]);
      && Chain(r) == c[1..] && r.count == |c| - 1 && r.tail == Some(c[|c| - 1])
      && r.nodes[c[1]].previous.None?
  {
    var c := Chain(s);
    var r := Detach(s, c[0]);
    PreviousOnProper(s, 0);
    ChainNext(s, 0);
    PathNext(s.nodes, c[0], 0);
    assert c == [c[0]] + Path(s.nodes, c[1]);
    PathAgree(s.nodes, r.nodes, c[1]);
    assert r.head == Some(c[1]);
  }

  /** ... and past the new head every predecessor link still mirrors its successor link. */
  lemma DetachHeadMirror(s: Links, m: nat)
    requires Proper(s) && m + 1 < |Chain(s)|
    ensures var c := Chain(s); var r := Detach(s, c[0]);
      r.nodes[c[m + 1]].next.Some? ==>
        m + 2 < |c| && r.nodes[c[m + 1]].next == Some(c[m + 2]) && r.nodes[c[m + 2]].previous == Some(c[m + 1])
  {
    var c := Chain(s);
    ChainNext(s, 0);
    ChainNext(s, m + 1);
    if m + 2 < |c| {
      ChainIncreasing(s, 1, m + 2);
      ChainIncreasing(s, 0, m + 1);
      PreviousOnProper(s, m + 2);
    }
  }

  lemma DetachLater(s: Links, k: nat)
    requires Proper(s) && 0 < k < |Chain(s)|
    requires Chain(Unlink(s, Chain(s)[k])) == Chain(s)[..k] + Chain(s)[k + 1..]
    ensures Proper(Detach(s, Chain(s)[k]))
  {
    var c := Chain(s);
    var r := Detach(s, c[k]);
    DetachLaterEnds(s, k);
    var c' := Chain(r);
    forall m | 0 <= m < |c'| && r.nodes[c'[m]].next.Some?
      ensures r.nodes[r.nodes[c'[m]].next.value].previous == Some(c'[m])
    {
      DetachLaterMirror(s, k, m);
    }
  }

  /** Detaching a later cell: the chain, count, tail and first cell are as a list in shape needs. */
  lemma DetachLaterEnds(s: Links, k: nat)
    requires Proper(s) && 0 < k < |Chain(s)|
    requires Chain(Unlink(s, Chain(s)[k])) == Chain(s)[..k] + Chain(s)[k + 1..]
    ensures var c := Chain(s); var r := Detach(s, c[k]); var c' := c[..k] + c[k + 1..];
      && Chain(r) == c' && r.count == |c'|
      && r.tail == Some(c'[|c'| - 1]) && r.nodes[c'[0]].previous.None?
  {
    var c := Chain(s);
    ChainIncreasing(s, 0, k);
    DetachLaterTail(s, k);
    PreviousOnProper(s, 0);
    if k + 1 < |c| {
      ChainIncreasing(s, 0, k + 1);
    }
  }

  lemma DetachLaterTail(s: Links, k: nat)
    requires Proper(s) && 0 < k < |Chain(s)|
    ensures var c := Chain(s); var r := Detach(s, c[k]);
      r.tail == Some(if k == |c| - 1 then c[k - 1] else c[|c| - 1])
  {
    var c := Chain(s);
    PreviousOnProper(s, k);
    if k < |c| - 1 {
      ChainIncreasing(s, k, |c| - 1);
    }
  }

  /** ... and every predecessor link of the new chain mirrors its successor link. */
  lemma DetachLaterMirror(s: Links, k: nat, m: nat)
    requires Proper(s) && 0 < k < |Chain(s)| && m + 1 < |Chain(s)|
    ensures var c := Chain(s); var r := Detach(s, c[k]); var c' := c[..k] + c[k + 1..];
      r.nodes[c'[m]].next.Some? ==>
        m + 1 < |c'| && r.nodes[c'[m]].next == Some(c'[m + 1]) && r.nodes[c'[m + 1]].previous == Some(c'[m])
  {
    var c := Chain(s);
    SkipIndex(c, k, m);
    if m + 2 < |c| {
      SkipIndex(c, k, m + 1);
    }
    if m < k - 1 {
      MirrorBefore(s, k, m);
    } else if m == k - 1 {
      MirrorAround(s, k);
    } else {
      MirrorAfter(s, k, m + 1);
    }
  }

  /** The entries of a sequence with the entry at position k left out. */
  lemma SkipIndex(c: seq<nat>, k: nat, m: nat)
    requires k < |c| && m + 1 < |c|
    ensures (c[..k] + c[k + 1..])[m] == if m < k then c[m] else c[m + 1]
  {
  }

  /** Before the detached cell the links are untouched. */
  lemma MirrorBefore(s: Links, k: nat, m: nat)
    requires Proper(s) && 0 < k < |Chain(s)| && m + 1 < k
    ensures var c := Chain(s); var r := Detach(s, c[k]);
      r.nodes[c[m]].next == Some(c[m + 1]) && r.nodes[c[m + 1]].previous == Some(c[m])
  {
    var c := Chain(s);
    PreviousOnProper(s, k);
    ChainNext(s, k);
    ChainNext(s, m);
    ChainIncreasing(s, m, k - 1);
    PreviousOnProper(s, m + 1);
    if k + 1 < |c| {
      ChainIncreasing(s, m + 1, k + 1);
    }
  }

  /** Around the detached cell its predecessor and successor now point at each other. */
  lemma MirrorAround(s: Links, k: nat)
    requires Proper(s) && 0 < k < |Chain(s)|
    ensures var c := Chain(s); var r := Detach(s, c[k]);
      && r.nodes[c[k - 1]].next == (if k + 1 < |c| then Some(c[k + 1]) else None)
      && (k + 1 < |c| ==> r.nodes[c[k + 1]].previous == Some(c[k - 1]))
  {
    var c := Chain(s);
    PreviousOnProper(s, k);
    ChainNext(s, k);
    if k + 1 < |c| {
      ChainIncreasing(s, k - 1, k + 1);
    }
  }

  /** After the detached cell the links are untouched. */
  lemma MirrorAfter(s: Links, k: nat, m: nat)
    requires Proper(s) && 0 < k < m < |Chain(s)|
    ensures var c := Chain(s); var r := Detach(s, c[k]);
      && r.nodes[c[m]].next == (if m + 1 < |c| then Some(c[m + 1]) else None)
      && (m + 1 < |c| ==> r.nodes[c[m + 1]].previous == Some(c[m]))
  {
    var c := Chain(s);
    PreviousOnProper(s, k);
    ChainNext(s, k);
    ChainNext(s, m);
    ChainIncreasing(s, m, k - 1);
    if m + 1 < |c| {
      PreviousOnProper(s, m + 1);
      ChainIncreasing(s, m + 1, k + 1);
    }
  }

  // ================================================================ findings

  /**
   * init(_:) as written leaves the tail nil, so the first add(_:) makes the new node the head
   * and the first value is lost.
   */
  lemma FirstThenAddLosesFirst(first: int, item: int)
    ensures var r := LinkLast(FirstOnly(first), item);
      Values(r) == [item] && r.count == 2 && !Proper(r)
  {
    var r := LinkLast(FirstOnly(first), item);
    assert Path(r.nodes, 1) == [1];
  }

  /** With the head also the tail, add(_:) keeps the first value and appends the second. */
  lemma SingleThenAdd(first: int, item: int)
    ensures Proper(LinkLast(Single(first), item))
    ensures Values(LinkLast(Single(first), item)) == [first, item]
  {
    LinkLastKeepsProper(Single(first), item);
  }

  /**
   * clear() as written keeps the count: the list holds no value but is not in shape, and with
   * a count of two or more get(0) passes the index check and then unwraps the nil head.
   */
  lemma ClearKeepsCount(s: Links)
    requires Proper(s) && s.count >= 2
    ensures var r := s.(head := None, tail := None);
      && WellLinked(r) && Values(r) == [] && !Proper(r)
      && IsValidIndex(r, 0) && !CanFindIndex(r, 0)
  {
  }

  /** The evidently intended clear(): no nodes reachable and a count of zero. */
  function Cleared(s: Links): (r: Links)
    requires WellLinked(s)
    ensures Proper(r) && Values(r) == []
    ensures forall index :: GetInRange(r, index).None?
  {
    s.(head := None, tail := None, count := 0)
  }

  // ================================================================ scenarios

  /** The list after add(_:) of each of `xs` in turn. */
  function AddAll(s: Links, xs: seq<int>): (r: Links)
    requires WellLinked(s)
    ensures WellLinked(r)
  {
    if xs == [] then s else LinkLast(AddAll(s, xs[..|xs| - 1]), xs[|xs| - 1])
  }

  /** Adding values one by one appends them all, in order, and keeps the list in shape. */
  lemma {:induction false} AddAllKeepsProper(s: Links, xs: seq<int>)
    requires Proper(s)
    ensures Proper(AddAll(s, xs)) && Values(AddAll(s, xs)) == Values(s) + xs
  {
    if xs != [] {
      var init, last := xs[..|xs| - 1], xs[|xs| - 1];
      SnocAssoc(Values(s), xs, init, last);
      AddAllKeepsProper(s, init);
      LinkLastKeepsProper(AddAll(s, init), last);
    }
  }

  lemma SnocAssoc(v: seq<int>, xs: seq<int>, init: seq<int>, last: int)
    requires xs != [] && init == xs[..|xs| - 1] && last == xs[|xs| - 1]
    ensures v + xs == (v + init) + [last]
  {
    assert xs == init + [last];
  }

  /** add(_:) for each of `xs` in turn, as the tests' forEach does; every call returns true. */
  method AddEach(list: LinkedList, xs: seq<int>) returns (added: seq<bool>)
    requires list.Valid()
    modifies list
    ensures list.Valid() && list.State() == AddAll(old(list.State()), xs)
    ensures |added| == |xs| && forall k :: 0 <= k < |added| ==> added[k]
  {
    ghost var before := list.State();
    added := [];
    var i := 0;
    while i < |xs|
      invariant 0 <= i <= |xs| && |added| == i
      invariant forall k :: 0 <= k < i ==> added[k]
      invariant list.Valid() && list.State() == AddAll(before, xs[..i])
    {
      var b := list.Add(xs[i]);
      assert xs[..i + 1][..i] == xs[..i];
      added := added + [b];
      i := i + 1;
    }
    assert xs[..|xs|] == xs;
  }

  /** all() after adding `xs` to a new list returns `xs`. */
  method AddThenAll(xs: seq<int>) returns (values: seq<int>)
    ensures values == xs
  {
    var list := new LinkedList();
    var _ := AddEach(list, xs);
    AddAllKeepsProper(Empty(), xs);
    values := list.All();
  }

  /**
   * get(_:) for every index from 0 to count - 1 after adding `xs` to a new list returns `xs`;
   * the closed range 0...count - 1 needs at least one value.
   */
  method AddThenGetEach(xs: seq<int>) returns (result: seq<int>)
    requires |xs| > 0
    ensures result == xs
  {
    var list := new LinkedList();
    var _ := AddEach(list, xs);
    AddAllKeepsProper(Empty(), xs);
    ghost var s := list.State();
    GetEachOnProper(s, xs);
    result := [];
    var index := 0;
    while index <= |xs| - 1
      invariant 0 <= index <= |xs| && result == xs[..index]
      invariant list.Valid() && list.State() == s
    {
      var r := list.GetAt(index);
      PrefixSnoc(xs, index);
      result := result + [r.value];
      index := index + 1;
    }
    PrefixSnoc(xs, |xs| - 1);
  }

  /** In a list in shape holding `xs`, get(_:) at every index of `xs` returns its value. */
  lemma GetEachOnProper(s: Links, xs: seq<int>)
    requires Proper(s) && Values(s) == xs
    ensures forall index :: 0 <= index < |xs| ==> CanFindIndex(s, index) && Get(s, index) == Some(xs[index])
  {
    forall index | 0 <= index < |xs|
      ensures CanFindIndex(s, index) && Get(s, index) == Some(xs[index])
    {
      GetOnProper(s, index);
    }
  }

  lemma PrefixSnoc(xs: seq<int>, index: nat)
    requires index < |xs|
    ensures xs[..index] + [xs[index]] == xs[..index + 1]
    ensures xs[..|xs|] == xs
  {
  }

  /**
   * After adding `xs` to a new list every add(_:) has returned true and all() returns `xs`,
   * but size() returns one less than the number of values.
   */
  method AddThenSize(xs: seq<int>) returns (added: seq<bool>, size: nat, values: seq<int>)
    requires |xs| > 0
    ensures |added| == |xs| && forall k :: 0 <= k < |added| ==> added[k]
    ensures values == xs && size == |xs| - 1
  {
    var list := new LinkedList();
    added := AddEach(list, xs);
    AddAllKeepsProper(Empty(), xs);
    size := list.Size();
    values := list.All();
  }
}
