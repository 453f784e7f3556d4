/**
 * class BinarySearchTree of BinarySearchTree.swift: a root node, the table of values put
 * and not removed (in insertion order) and its count, with the public operations.
 */
module Bst {
  import opened Wrappers
  import opened Nodes
  import opened SearchTrees

  // ================================================================ the value table

  predicate Distinct(s: seq<int>)
  {
    forall i, j :: 0 <= i < j < |s| ==> s[i] != s[j]
  }

  lemma DistinctTail(s: seq<int>)
    requires Distinct(s) && s != []
    ensures s[0] !in s[1..] && Distinct(s[1..])
  {
    forall k | 0 <= k < |s[1..]| ensures s[1..][k] != s[0] {
      assert s[1..][k] == s[k + 1];
    }
  }

  /** `table.filter({$0 != v})`: the elements other than `v`, in order. */
  function Without(s: seq<int>, v: int): (r: seq<int>)
    ensures forall x :: x in r <==> x in s && x != v
    ensures Distinct(s) ==> Distinct(r)
    ensures v !in s ==> r == s
  {
    if s == [] then []
    else
      assert s == [s[0]] + s[1..];
      var t := Without(s[1..], v);
      if s[0] == v then t
      else
        assert Distinct(s) ==> Distinct([s[0]] + t) by {
          if Distinct(s) {
            DistinctTail(s);
            DistinctCons(s[0], t);
          }
        }
        [s[0]] + t
  }

  lemma DistinctAt(s: seq<int>, i: nat)
    requires Distinct(s) && i < |s|
    ensures s[i] !in s[..i]
  {
    forall k | 0 <= k < i ensures s[..i][k] != s[i] {
      assert s[..i][k] == s[k];
    }
  }

  lemma DistinctCons(x: int, s: seq<int>)
    requires Distinct(s) && x !in s
    ensures Distinct([x] + s)
  {
    var r := [x] + s;
    forall i, j | 0 <= i < j < |r| ensures r[i] != r[j] {
      assert r[j] == s[j - 1];
      if i > 0 {
        assert r[i] == s[i - 1];
      }
    }
  }

  /** `table.index(where: {$0 == v})!`: the position of the first `v`. */
  function FirstIndex(s: seq<int>, v: int): (i: nat)
    requires v in s
    ensures i < |s| && s[i] == v && v !in s[..i]
  {
    if s[0] == v then 0
    else
      var k := FirstIndex(s[1..], v);
      assert s[..k + 1] == [s[0]] + s[1..][..k];
      k + 1
  }

  /** `table.remove(at: table.index(where: {$0 == v})!)`: drops the first `v`. */
  function RemoveFirst(s: seq<int>, v: int): (r: seq<int>)
    requires v in s
    ensures |r| == |s| - 1
    ensures multiset(r) == multiset(s) - multiset{v}
    ensures Distinct(s) ==> Distinct(r) && v !in r
    ensures forall x :: x != v ==> (x in r <==> x in s)
  {
    var i := FirstIndex(s, v);
    assert s == s[..i] + [v] + s[i + 1..];
    var r := s[..i] + s[i + 1..];
    assert Distinct(s) ==> Distinct(r) && v !in r by {
      if Distinct(s) {
        forall a, b | 0 <= a < b < |r| ensures r[a] != r[b] {
          var a', b' := if a < i then a else a + 1, if b < i then b else b + 1;
          assert r[a] == s[a'] && r[b] == s[b'];
        }
        forall a | 0 <= a < |r| ensures r[a] != v {
          if a < i {
            assert r[a] == s[..i][a];
          } else {
            assert r[a] == s[a + 1];
          }
        }
      }
    }
    assert forall x :: x in r <==> x in multiset(r);
    assert forall x :: x in s <==> x in multiset(s);
    r
  }

  predicate SortedAsc(s: seq<int>)
  {
    forall i, j :: 0 <= i < j < |s| ==> s[i] <= s[j]
  }

  lemma SortedCons(x: int, s: seq<int>)
    requires SortedAsc(s) && forall y :: y in s ==> x <= y
    ensures SortedAsc([x] + s)
  {
    var r := [x] + s;
    forall i, j | 0 <= i < j < |r| ensures r[i] <= r[j] {
      assert r[j] == s[j - 1] && s[j - 1] in s;
      if i > 0 {
        assert r[i] == s[i - 1];
      }
    }
  }

  lemma SortedHeadIsLeast(s: seq<int>)
    requires SortedAsc(s) && s != []
    ensures SortedAsc(s[1..]) && forall y :: y in s[1..] ==> s[0] <= y
  {
    forall y | y in s[1..] ensures s[0] <= y {
      var j :| 0 <= j < |s[1..]| && s[1..][j] == y;
      assert s[j + 1] == y;
    }
  }

  /** Inserts `x` before the first larger element. */
  function InsertSorted(s: seq<int>, x: int): (r: seq<int>)
    ensures multiset(r) == multiset(s) + multiset{x}
    ensures forall y :: y in r <==> y in s || y == x
    ensures SortedAsc(s) ==> SortedAsc(r)
    ensures Distinct(s) && x !in s ==> Distinct(r)
  {
    if s == [] || x <= s[0] then
      assert SortedAsc(s) ==> SortedAsc([x] + s) by {
        if SortedAsc(s) && s != [] {
          SortedHeadIsLeast(s);
          SortedCons(x, s);
        }
      }
      assert Distinct(s) && x !in s ==> Distinct([x] + s) by {
        if Distinct(s) && x !in s {
          DistinctCons(x, s);
        }
      }
      [x] + s
    else
      assert s == [s[0]] + s[1..];
      var t := InsertSorted(s[1..], x);
      assert SortedAsc(s) ==> SortedAsc([s[0]] + t) by {
        if SortedAsc(s) {
          SortedHeadIsLeast(s);
          SortedCons(s[0], t);
        }
      }
      assert Distinct(s) && x !in s ==> Distinct([s[0]] + t) by {
        if Distinct(s) && x !in s {
          DistinctTail(s);
          DistinctCons(s[0], t);
        }
      }
      [s[0]] + t
  }

  /** `table.sort()`: the same elements in ascending order. */
  function Sort(s: seq<int>): (r: seq<int>)
    ensures multiset(r) == multiset(s) && SortedAsc(r)
    ensures |r| == |s| && forall y :: y in r <==> y in s
    ensures Distinct(s) ==> Distinct(r)
  {
    if s == [] then []
    else
      assert s == [s[0]] + s[1..];
      assert Distinct(s) ==> Distinct(s[1..]) && s[0] !in s[1..] by {
        if Distinct(s) {
          DistinctTail(s);
        }
      }
      InsertSorted(Sort(s[1..]), s[0])
  }

  // ================================================================ a node's neighbours

  /** children(parent:): the left and right child links of a node. */
  function Children(n: Tree): (r: (Tree, Tree))
    requires n.Node?
    ensures Size(n) == 1 + Size(r.0) + Size(r.1)
    ensures Ordered(n) ==>
      (forall x :: x in Keys(r.0) ==> x < n.value.value) && (forall x :: x in Keys(r.1) ==> n.value.value < x)
  {
    (n.left, n.right)
  }

  /**
   * sibling(node:): looks up the node holding `v`, follows its parent link to the node
   * holding the parent's value, and returns that node's other child; nil for an absent value
   * or a node without parent.
   */
  function Sibling(t: Tree, v: int): (r: Tree)
    requires AllValued(t) && t.Node?
  {
    var n := Search(t, v);
    if n.Nil? || n.parent.None? then Nil
    else
      var p := Search(t, n.parent.value);
      if p.Nil? then Nil
      else if p.left.Node? && p.left.value == Some(v) then p.right
      else p.left
  }

  /** With exact parent links, the parent-link lookup finds the node that has the found node as a child. */
  lemma {:induction false} ParentLookup(t: Tree, v: int, p: Option<int>)
    requires Ordered(t) && ParentsExact(t, p)
    requires Search(t, v).Node? && t.value != Some(v)
    ensures Search(t, v).parent.Some?
    ensures var q := Search(t, Search(t, v).parent.value);
      q.Node? && (q.left == Search(t, v) || q.right == Search(t, v))
  {
    var x := t.value.value;
    var c := if v < x then t.left else t.right;
    assert Search(t, v) == Search(c, v);
    if c.value == Some(v) {
      assert Search(t, x) == t;
    } else {
      ParentLookup(c, v, t.value);
      var pv := Search(c, v).parent.value;
      assert Search(c, pv).Node?;
      assert pv in Keys(c);
      assert Search(t, pv) == Search(c, pv);
    }
  }

  /**
   * While parent links are exact, the sibling of a node below the root is the other child
   * of its parent, and the root has none.
   */
  lemma SiblingIsOtherChild(t: Tree, v: int)
    requires Ordered(t) && t.Node? && ParentsExact(t, None) && v in Keys(t)
    ensures AllValued(t)
    ensures t.value == Some(v) ==> Sibling(t, v).Nil?
    ensures t.value != Some(v) ==>
      && Search(t, v).parent.Some?
      && Search(t, Search(t, v).parent.value).Node?
      && var n, s, q := Search(t, v), Sibling(t, v), Search(t, Search(t, v).parent.value);
        (q.left == n && q.right == s) || (q.right == n && q.left == s)
  {
    if t.value != Some(v) {
      ParentLookup(t, v, None);
      var n := Search(t, v);
      var q := Search(t, n.parent.value);
      if q.right == n && q.left.Node? {
        // q's children lie on either side of q's value, so they hold different values
        assert Ordered(q);
        assert q.left.value.Some? && q.left.value.value in Keys(q.left);
        assert v in Keys(q.right);
      }
    }
  }

  // ================================================================ set

  /** The tree's shape: its nodes and how they hang together, without values or parent links. */
  function Shape(t: Tree): Tree
  {
    if t.Nil? then Nil else Node(None, Shape(t.left), Shape(t.right), None)
  }

  /** `b` is `a` with every `from` replaced by `to`, position by position. */
  predicate Relabelled(a: seq<Option<int>>, b: seq<Option<int>>, from: int, to: int)
  {
    |a| == |b| && forall i :: 0 <= i < |a| ==> b[i] == if a[i] == Some(from) then Some(to) else a[i]
  }

  lemma RelabelledJoin(a: seq<Option<int>>, b: seq<Option<int>>, x: Option<int>, y: Option<int>,
                       c: seq<Option<int>>, d: seq<Option<int>>, from: int, to: int)
    requires Relabelled(a, b, from, to) && Relabelled(c, d, from, to)
    requires y == if x == Some(from) then Some(to) else x
    ensures Relabelled(a + [x] + c, b + [y] + d, from, to)
  {
    var ac, bd := a + [x] + c, b + [y] + d;
    forall i | 0 <= i < |ac|
      ensures bd[i] == if ac[i] == Some(from) then Some(to) else ac[i]
    {
      if i < |a| {
        assert ac[i] == a[i] && bd[i] == b[i];
      } else if i > |a| {
        assert ac[i] == c[i - |a| - 1] && bd[i] == d[i - |a| - 1];
      }
    }
  }

  /**
   * Every occurrence of `from` as a value or a parent link becomes `to`: the shape and every
   * other value stay as they were, and the children of the renamed node still point at it.
   */
  function Rename(t: Tree, from: int, to: int): (r: Tree)
    ensures Size(r) == Size(t) && Shape(r) == Shape(t)
    ensures Relabelled(Inorder(t), Inorder(r), from, to)
    ensures AllValued(t) ==> AllValued(r)
    ensures from !in Keys(t) ==> Keys(r) == Keys(t)
    ensures Ordered(t) && from in Keys(t) ==> Keys(r) == Keys(t) - {from} + {to}
  {
    if t.Nil? then Nil
    else
      var v := if t.value == Some(from) then Some(to) else t.value;
      var l, g := Rename(t.left, from, to), Rename(t.right, from, to);
      RelabelledJoin(Inorder(t.left), Inorder(l), t.value, v, Inorder(t.right), Inorder(g), from, to);
      Node(v, l, g, if t.parent == Some(from) then Some(to) else t.parent)
  }

  /**
   * set(_:value:) on the node graph: throws DuplicateValueError when `v` is already found,
   * returns nil when the node holding `node` is not found, and otherwise overwrites that
   * node's value in place (its children keep pointing at it) and returns the previous
   * value. Neither the position of the node nor the table is updated.
   */
  function SetValue(t: Tree, node: int, v: int): (r: Result<(Tree, Option<int>), TreeError>)
    requires Ordered(t) && t.Node?
    ensures Search(t, v).Node? <==> r == Err(DuplicateValueError)
    ensures r.Ok? && r.value.1.None? <==> node !in Keys(t) && v !in Keys(t)
    ensures r.Ok? && r.value.1.None? ==> r.value.0 == t
    ensures r.Ok? && r.value.1.Some? ==>
      && r.value.1 == Some(node) && Keys(r.value.0) == Keys(t) - {node} + {v}
      && Shape(r.value.0) == Shape(t) && Relabelled(Inorder(t), Inorder(r.value.0), node, v)
  {
    if Search(t, v).Node? then Err(DuplicateValueError)
    else if Search(t, node).Nil? then Ok((t, None))
    else Ok((Rename(t, node, v), Some(node)))
  }

  /** set can break the ordering: in the tree 2(1, 3), setting the node 1 to 5 puts 5 left of 2. */
  lemma SetValueCanBreakOrder()
    ensures var t := Node(Some(2), Node(Some(1), Nil, Nil, Some(2)), Node(Some(3), Nil, Nil, Some(2)), None);
      Ordered(t) && SetValue(t, 1, 5).Ok? && !Ordered(SetValue(t, 1, 5).value.0)
  {
    var t := Node(Some(2), Node(Some(1), Nil, Nil, Some(2)), Node(Some(3), Nil, Nil, Some(2)), None);
    assert Keys(t.left) == {1} && Keys(t.right) == {3};
    var u := SetValue(t, 1, 5).value.0;
    assert Keys(u.left) == {5};
  }

  lemma {:induction false} SearchedNodeHasParent(t: Tree, v: int, above: set<int>)
    requires AllValued(t) && LinksUp(t, above)
    requires Search(t, v).Node?
    requires above != {} || t.value != Some(v)
    ensures Search(t, v).parent.Some?
  {
    var x := t.value.value;
    if x != v {
      if v < x {
        SearchedNodeHasParent(t.left, v, above + {x});
      } else {
        SearchedNodeHasParent(t.right, v, above + {x});
      }
    }
  }

  // ================================================================ the class

  class BinarySearchTree {
    /** root_node: never nil; valueless exactly while the tree is empty. */
    var root: Tree
    /** The values put and not removed, in insertion order. */
    var table: seq<int>
    /** Kept equal to the table's length by the table's observer. */
    var count: int

    /**
     * The object invariant: a valueless root has no links and the table is empty;
     * otherwise the tree is ordered, parent links point upward, the root's value is in the
     * table, and every table value is in the tree. Removed values may stay in the tree.
     */
    ghost predicate Valid()
      reads this
    {
      && root.Node?
      && (root.value.None? ==> IsLeaf(root) && IsRoot(root) && table == [])
      && (root.value.Some? ==> Ordered(root) && LinksUp(root, {}) && root.value.value in table)
      && Distinct(table)
      && (forall x :: x in table ==> x in Keys(root))
      && count == |table|
    }

    /** No delete has redirected a parent link. */
    ghost predicate LinksExact()
      reads this
    {
      ParentsExact(root, None)
    }

    /** init(): an empty tree with a valueless root. */
    constructor ()
      ensures Valid() && LinksExact()
      ensures root == EmptyNode() && table == [] && count == 0
    {
      root := EmptyNode();
      table := [];
      count := 0;
    }

    /** init(rootNodeValue:): a single root node holding `v`. */
    constructor WithRoot(v: int)
      ensures Valid() && LinksExact()
      ensures root == NewNode(Some(v)) && table == [v] && count == 1
    {
      root := NewNode(Some(v));
      table := [v];
      count := 1;
      LeafOrdered(v, None);
    }

    /** get(_:): the node holding `v`, nil when absent; the search traps on a valueless root. */
    function Get(v: int): (r: Tree)
      reads this
      requires Valid() && root.value.Some?
      ensures r.Nil? <==> v !in Keys(root)
      ensures r.Node? ==> r.value == Some(v)
      ensures v in table ==> r.Node?
    {
      Search(root, v)
    }

    /**
     * put(_:): throws NilRootError on a valueless root and DuplicateValueError when `v` is in
     * the table; otherwise inserts `v`, appending it to the table only when a new node was
     * attached. A removed value is still in the tree, so putting it again changes nothing.
     */
    method Put(v: int) returns (o: Outcome<TreeError>)
      requires Valid()
      modifies this
      ensures Valid()
      ensures old(root.value.None?) ==> o == Fail(NilRootError) && unchanged(this)
      ensures old(root.value.Some?) && v in old(table) ==> o == Fail(DuplicateValueError) && unchanged(this)
      ensures old(root.value.Some?) && v !in old(table) ==>
        && o == Pass
        && root == Insert(old(root), v)
        && table == old(table) + (if v in old(Keys(root)) then [] else [v])
      ensures o.Pass? ==> Keys(root) == old(Keys(root)) + {v}
      ensures old(LinksExact()) ==> LinksExact()
    {
      if root.value.None? {
        return Fail(NilRootError);
      }
      if v in table {
        return Fail(DuplicateValueError);
      }
      InsertKeepsLinksUp(root, v, {});
      if old(LinksExact()) {
        InsertKeepsParentsExact(root, v, None);
      }
      var attached := Search(root, v).Nil?;
      root := Insert(root, v);
      if attached {
        table := table + [v];
        count := |table|;
      }
      return Pass;
    }

    /**
     * remove(_:): throws InvalidNodeError when no node holds `v`. Otherwise the found node's
     * children are relinked to its parent and `v` leaves the table, but the node stays
     * attached, so every value stays in the tree. It traps on a valueless root, on the root
     * (no parent to unwrap) and on a value in the tree but no longer in the table.
     */
    method Remove(v: int) returns (r: Result<Tree, TreeError>)
      requires Valid() && root.value.Some?
      requires v in Keys(root) ==> root.value != Some(v) && v in table
      modifies this
      ensures Valid()
      ensures v !in old(Keys(root)) ==> r == Err(InvalidNodeError) && unchanged(this)
      ensures v in old(Keys(root)) ==>
        && root == Unlink(old(root), v)
        && table == RemoveFirst(old(table), v)
        && r == Ok(Search(root, v))
      ensures Keys(root) == old(Keys(root)) && v !in table
    {
      if Search(root, v).Nil? {
        return Err(InvalidNodeError);
      }
      SearchedNodeHasParent(root, v, {});
      UnlinkKeepsLinksUp(root, v, {});
      root := Unlink(root, v);
      table := RemoveFirst(table, v);
      count := |table|;
      r := Ok(Search(root, v));
    }

    /**
     * Assigning `root_node` a new node holding `v`: its observer (resetRoot) restarts the
     * table with `v` and puts back every other old value, in table order.
     */
    method SetRoot(v: int)
      requires Valid()
      modifies this
      ensures Valid() && LinksExact()
      ensures root == InsertAll(NewNode(Some(v)), Without(old(table), v))
      ensures table == [v] + Without(old(table), v)
      ensures forall x :: x in Keys(root) <==> x == v || x in old(table)
    {
      var rest := Without(table, v);
      root := NewNode(Some(v));
      table := [v];
      count := 1;
      LeafOrdered(v, None);
      PutAll(rest);
    }

    /** The `forEach` of resetRoot: puts the values one by one; none of them is in the tree yet. */
    method PutAll(values: seq<int>)
      requires Valid() && LinksExact() && root.value.Some?
      requires Distinct(values) && forall x :: x in values ==> x !in Keys(root)
      modifies this
      ensures Valid() && LinksExact() && root.value == old(root.value)
      ensures root == InsertAll(old(root), values) && table == old(table) + values
    {
      var i := 0;
      while i < |values|
        invariant 0 <= i <= |values|
        invariant Valid() && LinksExact() && root.value == old(root.value)
        invariant root == InsertAll(old(root), values[..i])
        invariant table == old(table) + values[..i]
      {
        var x := values[i];
        DistinctAt(values, i);
        assert x !in table;
        assert x !in Keys(root);
        PrefixStep(old(table), values, i);
        InsertAllSnoc(old(root), values[..i], x);
        var o := Put(x);
        assert o.Pass?;
        i := i + 1;
      }
      assert values[..i] == values;
    }

    /**
     * balance(): sorts the table and makes the value at index count/2 the new root, which
     * re-inserts the others in ascending order (traps on an empty table). The floating
     * point round-up is applied after an integer division and changes nothing.
     */
    method Balance()
      requires Valid() && |table| > 0
      modifies this
      ensures Valid() && LinksExact()
      ensures var s := Sort(old(table)); var m := s[|s| / 2];
        && root == InsertAll(NewNode(Some(m)), Without(s, m))
        && table == [m] + Without(s, m)
      ensures forall x :: x in Keys(root) <==> x in old(table)
      ensures multiset(table) == multiset(old(table))
    {
      var index := count / 2;
      ghost var s := Sort(table);
      table := Sort(table);
      count := |table|;
      SetRoot(table[index]);
      WithoutOfDistinct(s, s[index], index);
    }

    /** size(): the table's length. */
    function Size(): (n: int)
      reads this
      requires Valid()
      ensures n == |table| && n >= 0
      ensures n == 0 <==> root.value.None?
    {
      count
    }

    /** isEmpty(): the table is empty, which happens exactly when the root is valueless. */
    function IsEmpty(): (b: bool)
      reads this
      requires Valid()
      ensures b <==> table == []
      ensures b <==> root.value.None?
    {
      count == 0
    }

    /** root(). */
    function RootNode(): (n: Tree)
      reads this
      requires Valid()
      ensures n.Node? && n.parent.None?
      ensures n.value.Some? <==> table != []
    {
      root
    }

    /** values(): the table, which lists distinct values, each held by a node of the tree. */
    function Values(): (s: seq<int>)
      reads this
      requires Valid()
      ensures Distinct(s) && forall x :: x in s ==> x in Keys(root)
      ensures |s| == count
    {
      table
    }

    /** all(): a fresh unlinked node for each table value, in table order. */
    function All(): (s: seq<Tree>)
      reads this
      requires Valid()
      ensures |s| == |table|
      ensures forall i :: 0 <= i < |s| ==> s[i] == NewNode(Some(table[i]))
    {
      var t := table;
      seq(|t|, i requires 0 <= i < |t| => NewNode(Some(t[i])))
    }

    /** max(): the rightmost node, which holds the largest value still linked into the tree. */
    function Max(): (n: Tree)
      reads this
      requires Valid()
      ensures n.Node? && n.right.Nil?
      ensures root.value.Some? ==> n.value.Some? && n.value.value in Keys(root)
                                   && forall x :: x in Keys(root) ==> x <= n.value.value
    {
      Maximum(root)
    }

    /** min(): the leftmost node, which holds the smallest value still linked into the tree. */
    function Min(): (n: Tree)
      reads this
      requires Valid()
      ensures n.Node? && n.left.Nil?
      ensures root.value.Some? ==> n.value.Some? && n.value.value in Keys(root)
                                   && forall x :: x in Keys(root) ==> n.value.value <= x
    {
      Minimum(root)
    }

    /** height(_:): the height of the subtree under the node holding `v`; 0 when absent. */
    function HeightOf(v: int): (h: nat)
      reads this
      requires Valid() && root.value.Some?
      ensures h == 0 <==> v !in Keys(root)
      ensures h <= SearchTrees.Size(root)
    {
      HeightBounds(Search(root, v));
      SubtreeSize(root, v);
      Height(Search(root, v))
    }

    /**
     * depth(_:): the parent links followed from the node holding `v` to a node without
     * parent: 0 for the root and for an absent value, never more than the node's level, and
     * exactly its level while no delete has redirected a link.
     */
    function DepthOf(v: int): (d: nat)
      reads this
      requires Valid() && root.value.Some?
      ensures AllValued(root)
      ensures v == root.value.value || v !in Keys(root) ==> d == 0
      ensures d <= |Ancestors(root, v)|
      ensures LinksExact() && v in Keys(root) ==> d == |Ancestors(root, v)|
    {
      DepthOfRootAndAbsent(root, v);
      DepthWalkBound(Ancestors(root, v), Search(root, v));
      DepthCountsEdges(root, v);
      Depth(root, v)
    }

    /** preorder(operation:): the values in the order the operation is applied, root first. */
    function PreorderValues(): (s: seq<Option<int>>)
      reads this
      requires Valid()
      ensures |s| == SearchTrees.Size(root) && s[0] == root.value
    {
      TraversalsVisitEachNodeOnce(root);
      SearchTrees.Preorder(root)
    }

    /** inorder(operation:): the values in ascending order, including removed values still linked. */
    function InorderValues(): (s: seq<Option<int>>)
      reads this
      requires Valid()
      ensures |s| == SearchTrees.Size(root)
      ensures root.value.Some? ==> Ascending(s) && forall x :: x in Keys(root) <==> Some(x) in s
      ensures root.value.None? ==> s == [None]
    {
      TraversalsVisitEachNodeOnce(root);
      if root.value.Some? then
        OrderedIffInorderAscending(root);
        InorderLists(root);
        SearchTrees.Inorder(root)
      else
        SearchTrees.Inorder(root)
    }

    /** postorder(operation:): the values in the order the operation is applied, root last. */
    function PostorderValues(): (s: seq<Option<int>>)
      reads this
      requires Valid()
      ensures |s| == SearchTrees.Size(root) && s[|s| - 1] == root.value
    {
      TraversalsVisitEachNodeOnce(root);
      SearchTrees.Postorder(root)
    }
  }

  lemma {:induction false} InsertAllSnoc(t: Tree, s: seq<int>, x: int)
    requires t.Node? && AllValued(t)
    ensures InsertAll(t, s + [x]) == Insert(InsertAll(t, s), x)
    decreases |s|
  {
    if s == [] {
      assert ([] + [x])[1..] == [];
    } else {
      assert (s + [x])[1..] == s[1..] + [x];
      InsertAllSnoc(Insert(t, s[0]), s[1..], x);
    }
  }

  /** Without on a distinct sequence removes exactly the element at the position of `v`. */
  lemma WithoutOfDistinct(s: seq<int>, v: int, i: nat)
    requires Distinct(s) && i < |s| && s[i] == v
    ensures multiset([v] + Without(s, v)) == multiset(s)
  {
    assert s == s[..i] + [v] + s[i + 1..];
    DistinctAt(s, i);
    var after := s[i + 1..];
    forall k | 0 <= k < |after| ensures after[k] != v {
      assert after[k] == s[i + 1 + k];
    }
    WithoutSplit(s[..i], v, s[i + 1..]);
  }

  lemma {:induction false} WithoutSplit(a: seq<int>, v: int, b: seq<int>)
    requires v !in a && v !in b
    ensures Without(a + [v] + b, v) == a + b
  {
    if a == [] {
      assert ([v] + b)[1..] == b;
    } else {
      var s := a + [v] + b;
      assert s[0] == a[0] != v;
      assert s[1..] == a[1..] + [v] + b;
      WithoutSplit(a[1..], v, b);
      calc {
        Without(s, v);
        [a[0]] + Without(s[1..], v);
        [a[0]] + (a[1..] + b);
        { ConsTail(a, b); }
        a + b;
      }
    }
  }

  lemma PrefixStep(t: seq<int>, s: seq<int>, i: nat)
    requires i < |s|
    ensures s[..i + 1] == s[..i] + [s[i]]
    ensures t + s[..i + 1] == (t + s[..i]) + [s[i]]
  {
    assert s[..i + 1] == s[..i] + [s[i]];
  }

  lemma ConsTail(a: seq<int>, b: seq<int>)
    requires a != []
    ensures [a[0]] + (a[1..] + b) == a + b
  {
    assert a == [a[0]] + a[1..];
  }

  lemma {:induction false} SubtreeSize(t: Tree, v: int)
    requires AllValued(t)
    ensures SearchTrees.Size(Search(t, v)) <= SearchTrees.Size(t)
  {
    if t.Node? && t.value.value != v {
      if v < t.value.value {
        SubtreeSize(t.left, v);
      } else {
        SubtreeSize(t.right, v);
      }
    }
  }
}
