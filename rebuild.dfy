/**
 * What balance() of BinarySearchTree.swift builds, and what it evidently intends to build.
 * balance() makes the median of the sorted values the root and re-inserts the others in
 * ascending order, so each side of the root grows into a chain. The evidently intended
 * rebuild keeps the same root and splits each side around its own median in turn, which
 * gives a height-balanced tree.
 */
module Rebuild {
  import opened Wrappers
  import opened Nodes
  import opened SearchTrees
  import opened HeightBalance
  import opened Bst

  // ================================================================ sorting is determined

  /** Two ascending arrangements of the same values are the same sequence. */
  lemma {:induction false} SortedUnique(a: seq<int>, b: seq<int>)
    requires SortedAsc(a) && SortedAsc(b) && multiset(a) == multiset(b)
    ensures a == b
    decreases |a|
  {
    assert |a| == |multiset(a)| == |b|;
    if a != [] {
      assert a[0] in multiset(b) && b[0] in multiset(a);
      assert a[0] == b[0];
      assert a == [a[0]] + a[1..] && b == [b[0]] + b[1..];
      assert multiset(a) == multiset{a[0]} + multiset(a[1..]);
      assert multiset(b) == multiset{b[0]} + multiset(b[1..]);
      assert multiset(a[1..]) == multiset(a) - multiset{a[0]};
      SortedHeadIsLeast(a);
      SortedHeadIsLeast(b);
      SortedUnique(a[1..], b[1..]);
    }
  }

  /** `table.sort()` yields the one ascending arrangement of the table's values. */
  lemma SortIsTheSortedPermutation(t: seq<int>, s: seq<int>)
    requires SortedAsc(s) && multiset(t) == multiset(s)
    ensures Sort(t) == s
  {
    SortedUnique(Sort(t), s);
  }

  // ================================================================ balance(), as written

  /**
   * The table of a search tree made with init(rootNodeValue: 44) after put(17), put(78),
   * put(32), put(33) and put(50): each put appends its value.
   */
  function TestTable(): seq<int>
  {
    [44, 17, 78, 32, 33, 50]
  }

  lemma TestTableIsAscendingOnceSorted()
    ensures SortedAsc([17, 32, 33, 44, 50, 78])
  {
  }

  lemma TestTableValues()
    ensures multiset(TestTable()) == multiset([17, 32, 33, 44, 50, 78])
  {
  }

  lemma TestTableSorts()
    ensures Sort(TestTable()) == [17, 32, 33, 44, 50, 78]
  {
    TestTableIsAscendingOnceSorted();
    TestTableValues();
    SortIsTheSortedPermutation(TestTable(), [17, 32, 33, 44, 50, 78]);
  }

  lemma WithoutMedian()
    ensures Without([17, 32, 33, 44, 50, 78], 44) == [17, 32, 33, 50, 78]
  {
    assert [17, 32, 33, 44, 50, 78] == [17, 32, 33] + [44] + [50, 78];
    WithoutSplit([17, 32, 33], 44, [50, 78]);
  }

  /** The left side of the rebuilt test tree: 17, with 32 and then 33 as right children. */
  function TestLeft(): Tree
  {
    Node(Some(17), Nil, Node(Some(32), Nil, Node(Some(33), Nil, Nil, Some(32)), Some(17)), Some(44))
  }

  lemma TestLeftSide()
    ensures InsertAll(NewNode(Some(44)), [17, 32, 33]) == Node(Some(44), TestLeft(), Nil, None)
  {
    var n := NewNode(Some(44));
    var t1 := Node(Some(44), Node(Some(17), Nil, Nil, Some(44)), Nil, None);
    var t2 := Node(Some(44), Node(Some(17), Nil, Node(Some(32), Nil, Nil, Some(17)), Some(44)), Nil, None);
    assert Insert(n, 17) == t1;
    assert Insert(t1, 32) == t2;
    assert Insert(t2, 33) == Node(Some(44), TestLeft(), Nil, None);
    assert InsertAll(n, [17]) == t1;
    InsertAllSnoc(n, [17], 32);
    assert [17] + [32] == [17, 32];
    InsertAllSnoc(n, [17, 32], 33);
    assert [17, 32] + [33] == [17, 32, 33];
  }

  /** A value greater than the top value goes to the right, leaving the left side as it was. */
  lemma InsertRightKeepsLeft(t: Tree, v: int)
    requires t.Node? && AllValued(t) && t.value.value < v
    ensures Insert(t, v).left == t.left && Insert(t, v).value == t.value
  {
  }

  lemma {:induction false} InsertAllAppend(t: Tree, a: seq<int>, b: seq<int>)
    requires t.Node? && AllValued(t)
    ensures InsertAll(t, a + b) == InsertAll(InsertAll(t, a), b)
    decreases |a|
  {
    if a == [] {
      assert a + b == b;
    } else {
      assert (a + b)[1..] == a[1..] + b;
      InsertAllAppend(Insert(t, a[0]), a[1..], b);
    }
  }

  /** Values all greater than the top value leave its left side as it was. */
  lemma {:induction false} InsertAllRightKeepsLeft(t: Tree, s: seq<int>)
    requires t.Node? && AllValued(t) && forall x :: x in s ==> t.value.value < x
    ensures InsertAll(t, s).left == t.left
    decreases |s|
  {
    if s != [] {
      assert s[0] in s && forall x :: x in s[1..] ==> x in s;
      InsertRightKeepsLeft(t, s[0]);
      InsertAllRightKeepsLeft(Insert(t, s[0]), s[1..]);
    }
  }

  lemma TestLeftStays(a: seq<int>, b: seq<int>)
    requires a == [17, 32, 33] && b == [50, 78]
    ensures InsertAll(NewNode(Some(44)), a + b).left == TestLeft()
  {
    var n := NewNode(Some(44));
    var t3 := InsertAll(n, a);
    assert t3.left == TestLeft() && t3.value == Some(44) by {
      TestLeftSide();
    }
    InsertAllRightKeepsLeft(t3, b);
    InsertAllAppend(n, a, b);
  }

  lemma TestLeftIsUnbalanced()
    ensures !IsBalanced(TestLeft())
  {
    assert Height(TestLeft().right) == 2;
  }

  lemma TestTreeIsUnbalanced()
    ensures !Balanced(InsertAll(NewNode(Some(44)), [17, 32, 33, 50, 78]))
  {
    assert [17, 32, 33, 50, 78] == [17, 32, 33] + [50, 78];
    TestLeftStays([17, 32, 33], [50, 78]);
    TestLeftIsUnbalanced();
  }

  /**
   * balance() on that table installs 44 as the root and re-inserts 17, 32, 33, 50, 78 in
   * that order: 17 gets no left child and a right chain of height two, so the tree is not
   * height-balanced.
   */
  lemma BalanceOfTestTableIsUnbalanced()
    ensures var s := Sort(TestTable()); var m := s[|s| / 2];
      m == 44 && !Balanced(InsertAll(NewNode(Some(m)), Without(s, m)))
  {
    TestTableSorts();
    MedianRebuildIsUnbalanced(Sort(TestTable()));
  }

  lemma MedianRebuildIsUnbalanced(s: seq<int>)
    requires s == [17, 32, 33, 44, 50, 78]
    ensures s[|s| / 2] == 44 && !Balanced(InsertAll(NewNode(Some(44)), Without(s, 44)))
  {
    WithoutMedian();
    TestTreeIsUnbalanced();
  }

  // ================================================================ the intended rebuild

  /** Strictly ascending. */
  predicate Increasing(s: seq<int>)
  {
    forall i, j :: 0 <= i < j < |s| ==> s[i] < s[j]
  }

  /** The values as present node values. */
  function Somes(s: seq<int>): (r: seq<Option<int>>)
    ensures |r| == |s| && forall i :: 0 <= i < |s| ==> r[i] == Some(s[i])
  {
    seq(|s|, i requires 0 <= i < |s| => Some(s[i]))
  }

  /**
   * The median of `s` (index |s| / 2, the index balance() uses) at the root, and each side
   * built the same way from the values before and after it; the top node links to `p`.
   */
  function Build(s: seq<int>, p: Option<int>): (r: Tree)
    ensures r.Nil? <==> s == []
    ensures r.Node? ==> r.value == Some(s[|s| / 2]) && r.parent == p
    ensures AllValued(r)
    ensures Inorder(r) == Somes(s)
    decreases |s|
  {
    if s == [] then Nil
    else
      var m := |s| / 2;
      SomesSplit(s, m);
      Node(Some(s[m]), Build(s[..m], Some(s[m])), Build(s[m + 1..], Some(s[m])), p)
  }

  lemma SomesSplit(s: seq<int>, m: nat)
    requires m < |s|
    ensures Somes(s) == Somes(s[..m]) + [Some(s[m])] + Somes(s[m + 1..])
  {
  }

  /** Number of binary digits of `n`: the height of the tree Build makes from `n` values. */
  function Bits(n: nat): nat
  {
    if n == 0 then 0 else 1 + Bits(n / 2)
  }

  lemma {:induction false} BitsMonotone(a: nat, b: nat)
    requires a <= b
    ensures Bits(a) <= Bits(b)
  {
    if a > 0 {
      BitsMonotone(a / 2, b / 2);
    }
  }

  lemma {:induction false} BitsStep(k: nat)
    ensures Bits(k + 1) <= Bits(k) + 1
  {
    if k > 0 && (k + 1) / 2 != k / 2 {
      assert (k + 1) / 2 == k / 2 + 1;
      BitsStep(k / 2);
    }
  }

  /** The two sides of Build differ by at most one value, and so by at most one in height. */
  lemma SidesDifferByOne(n: nat, m: nat, k: nat)
    requires n > 0 && m == n / 2 && k == n - 1 - m
    ensures Bits(k) <= Bits(m) <= Bits(k) + 1
    ensures Bits(n) == 1 + Bits(m)
  {
    BitsMonotone(k, m);
    BitsMonotone(m, k + 1);
    BitsStep(k);
  }

  /** Build is height-balanced at every node, and |s| values make it Bits(|s|) high. */
  lemma {:induction false} BuildIsBalanced(s: seq<int>, p: Option<int>)
    ensures Balanced(Build(s, p))
    ensures Height(Build(s, p)) == Bits(|s|)
    decreases |s|
  {
    if s == [] {
      assert Build(s, p) == Nil;
    } else {
      var n, m := |s|, |s| / 2;
      var left, right := s[..m], s[m + 1..];
      var l, r := Build(left, Some(s[m])), Build(right, Some(s[m]));
      assert Build(s, p) == Node(Some(s[m]), l, r, p);
      BuildIsBalanced(left, Some(s[m]));
      BuildIsBalanced(right, Some(s[m]));
      SidesDifferByOne(n, |left|, |right|);
    }
  }

  /** Every child of Build links to its parent. */
  lemma {:induction false} BuildIsExact(s: seq<int>, p: Option<int>)
    ensures ParentsExact(Build(s, p), p)
    decreases |s|
  {
    if s != [] {
      var m := |s| / 2;
      BuildIsExact(s[..m], Some(s[m]));
      BuildIsExact(s[m + 1..], Some(s[m]));
    }
  }

  /** Built from strictly ascending values, the tree is ordered and holds exactly those values. */
  lemma BuildIsOrdered(s: seq<int>, p: Option<int>)
    requires Increasing(s)
    ensures Ordered(Build(s, p))
    ensures forall x :: x in Keys(Build(s, p)) <==> x in s
  {
    var t := Build(s, p);
    assert Ascending(Somes(s));
    OrderedIffInorderAscending(t);
    InorderLists(t);
    forall x ensures Some(x) in Somes(s) <==> x in s {
      if x in s {
        var i :| 0 <= i < |s| && s[i] == x;
        assert Somes(s)[i] == Some(x);
      }
    }
  }

  /**
   * The corrected balance(): the sorted table built by Build. The root is the value balance()
   * installs, sorted[count / 2].
   */
  function BalancedRebuild(table: seq<int>): (r: Tree)
    ensures table != [] ==> r.Node? && r.value == Some(Sort(table)[|table| / 2])
    ensures table == [] ==> r.Nil?
  {
    Build(Sort(table), None)
  }

  /**
   * For any table of distinct values the corrected rebuild is ordered, height-balanced at
   * every node, exactly linked, holds exactly the table's values and is Bits(count) high.
   */
  lemma RebuildIsBalanced(table: seq<int>)
    requires Distinct(table)
    ensures var r := BalancedRebuild(table);
      && Balanced(r) && Ordered(r) && ParentsExact(r, None)
      && (forall x :: x in Keys(r) <==> x in table)
      && Height(r) == Bits(|table|)
  {
    var s := Sort(table);
    assert Increasing(s) by {
      forall i, j | 0 <= i < j < |s| ensures s[i] < s[j] {
        assert s[i] <= s[j] && s[i] != s[j];
      }
    }
    BuildIsBalanced(s, None);
    BuildIsExact(s, None);
    BuildIsOrdered(s, None);
  }
}
