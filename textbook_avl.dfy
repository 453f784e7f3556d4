/**
 * class AVLTree of CoreDataStructures/Classes/AVLTree.swift: a binary search tree whose put
 * rebalances from the new node up to the root.
 */
module TextbookAvl {
  import opened Wrappers
  import opened Nodes
  import opened SearchTrees
  import opened HeightBalance
  import opened Bst
  import opened Rebalancing
  import opened InsertionBalance

  class AvlTree {
    /** The binary search tree the class extends. */
    const base: BinarySearchTree

    /**
     * The tree of a valid search tree, with exact parent links, balanced at every node, and
     * holding no value that is not in the table (this class never unlinks a node).
     */
    ghost predicate Valid()
      reads this, base
    {
      && base.Valid() && base.LinksExact()
      && Balanced(base.root)
      && (forall x :: x in Keys(base.root) ==> x in base.table)
    }

    /** init(): an empty tree. */
    constructor ()
      ensures Valid() && fresh(base)
      ensures base.root == EmptyNode() && base.table == []
    {
      base := new BinarySearchTree();
    }

    /** init(rootNodeValue:), inherited: a single root node. */
    constructor WithRoot(v: int)
      ensures Valid() && fresh(base)
      ensures base.root == NewNode(Some(v)) && base.table == [v]
    {
      base := new BinarySearchTree.WithRoot(v);
    }

    /**
     * put(_:): the search tree's put, whose errors propagate before anything is rebalanced;
     * then the search for `v` finds the new leaf and rebalance climbs from it to the root.
     * The result is balanced, ordered, holds the old values and `v`, and is at most one higher.
     */
    method Put(v: int) returns (o: Outcome<TreeError>)
      requires Valid()
      modifies base
      ensures Valid()
      ensures old(base.root.value.None?) ==> o == Fail(NilRootError) && unchanged(base)
      ensures old(base.root.value.Some?) && v in old(base.table) ==> o == Fail(DuplicateValueError) && unchanged(base)
      ensures old(base.root.value.Some?) && v !in old(base.table) ==>
        && o == Pass
        && base.table == old(base.table) + [v]
        && var (n, path) := Focus(Insert(old(base.root), v), v);
          AllValued(n) && PathValued(path) && base.root == RebalanceUp(n, path)
      ensures o.Pass? ==>
        && Keys(base.root) == old(Keys(base.root)) + {v}
        && old(Height(base.root)) <= Height(base.root) <= old(Height(base.root)) + 1
    {
      ghost var before, oldTable := base.root, base.table;
      assert forall x :: x in oldTable <==> x in Keys(before);
      o := base.Put(v);
      if o.Pass? {
        assert v !in Keys(before) && base.table == oldTable + [v];
        assert forall x :: x in base.table <==> x in Keys(before) || x == v;
        var (n, path) := Focus(base.root, v);
        var t := Rebalance(n, path);
        RebalancedRoot(before, v, base.table);
        base.root := t;
        assert forall x :: x in base.table ==> x in Keys(base.root);
        assert base.Valid();
      }
    }
  }

  /** The rebalanced tree after a put satisfies the invariant with the new table. */
  lemma RebalancedRoot(before: Tree, v: int, table: seq<int>)
    requires before.Node? && before.value.Some? && Ordered(before) && Balanced(before)
    requires ParentsExact(before, None) && v !in Keys(before)
    requires forall x :: x in table <==> x in Keys(before) || x == v
    ensures var (n, path) := Focus(Insert(before, v), v);
      && AllValued(n) && PathValued(path)
      && var t := RebalanceUp(n, path);
        && t.Node? && t.value.Some? && t.value.value in table
        && Ordered(t) && LinksUp(t, {}) && ParentsExact(t, None) && Balanced(t)
        && Keys(t) == Keys(before) + {v}
        && (forall x :: x in Keys(t) <==> x in table)
        && Height(before) <= Height(t) <= Height(before) + 1
  {
    InsertThenRebalance(before, v);
    var (n, path) := Focus(Insert(before, v), v);
    var t := RebalanceUp(n, path);
    ExactLinksPointUp(t, None, {});
  }

  // ================================================================ put, as written

  /** The subtrees beside the path are balanced. */
  ghost predicate PathBalanced(path: seq<Crumb>)
  {
    forall i :: 0 <= i < |path| ==> Balanced(path[i].Sibling())
  }

  /** The subtrees beside the path to any subtree of a balanced tree are balanced. */
  lemma {:induction false} BalancedBeside(t: Tree, path: seq<Crumb>)
    requires Balanced(Plug(t, path))
    ensures PathBalanced(path)
    decreases |path|
  {
    if path != [] {
      var inner := Plug(t, path[1..]);
      AttachFacts(path[0], inner);
      ReparentKeepsBalance(inner, Some(path[0].value));
      BalancedBeside(t, path[1..]);
      assert forall i :: 1 <= i < |path| ==> path[i] == path[1..][i - 1];
    }
  }

  /**
   * The climb as written ends exactly when the tree it climbs is balanced: it stops at the
   * first unbalanced node on the path, and every other node lies beside the path.
   */
  lemma {:induction false} AsWrittenEndsIffBalanced(t: Tree, up: seq<Crumb>)
    requires AllValued(t) && PathValued(up) && Balanced(t) && PathBalanced(up)
    ensures RebalanceUpAsWritten(t, up).Some? <==> Balanced(Plug(t, up))
    decreases |up|
  {
    if up != [] {
      var rest, c := up[..|up| - 1], up[|up| - 1];
      var n := Attach(c, t);
      assert up == rest + [c];
      PlugSnoc(t, rest, c);
      AttachFacts(c, t);
      assert Balanced(c.Sibling());
      if IsBalanced(n) {
        assert PathValued(rest) && PathBalanced(rest) by {
          assert forall i :: 0 <= i < |rest| ==> rest[i] == up[i];
        }
        AsWrittenEndsIffBalanced(n, rest);
      } else {
        assert !Balanced(Plug(t, up)) by {
          if Balanced(Plug(n, rest)) {
            BalancedInside(n, rest);
          }
        }
      }
    }
  }

  /**
   * put(_:) as written: on a balanced search tree, the put of an absent value ends exactly
   * when the plain insertion leaves the tree balanced, and then leaves that insertion as it
   * is. Whenever a node must be restructured, the put traps at line 133.
   */
  lemma PutAsWrittenEndsIffBalanced(t: Tree, v: int)
    requires t.Node? && Ordered(t) && Balanced(t) && ParentsExact(t, None) && v !in Keys(t)
    ensures var (n, path) := Focus(Insert(t, v), v);
      && AllValued(n) && PathValued(path)
      && (RebalanceUpAsWritten(n, path).Some? <==> Balanced(Insert(t, v)))
      && (RebalanceUpAsWritten(n, path).Some? ==> RebalanceUpAsWritten(n, path).value == Insert(t, v))
  {
    InsertFocus(t, v);
    var (n, path) := Focus(Insert(t, v), v);
    BalancedBeside(Nil, path);
    LeafGrown(n);
    AsWrittenEndsIffBalanced(n, path);
  }

  /** The tree of the draft's own test after putting 17, 78 and 32 into a tree rooted at 44. */
  function TestTree(): Tree
  {
    Node(Some(44),
      Node(Some(17), Nil, Node(Some(32), Nil, Nil, Some(17)), Some(44)),
      Node(Some(78), Nil, Nil, Some(44)),
      None)
  }

  /**
   * The draft's own test (Example/Tests/AVLTestCase.swift): 44, then 17, 78 and 32 need no
   * restructuring, and the put of 33 leaves 17 with heights 0 and 2, so the put traps.
   */
  lemma TestPutTraps()
    ensures InsertAll(NewNode(Some(44)), [17, 78, 32]) == TestTree()
    ensures Ordered(TestTree()) && Balanced(TestTree()) && ParentsExact(TestTree(), None)
    ensures var (n, path) := Focus(Insert(TestTree(), 33), 33);
      AllValued(n) && PathValued(path) && RebalanceUpAsWritten(n, path) == None
  {
    var n := NewNode(Some(44));
    var t1 := Node(Some(44), Node(Some(17), Nil, Nil, Some(44)), Nil, None);
    var t2 := Node(Some(44), Node(Some(17), Nil, Nil, Some(44)), Node(Some(78), Nil, Nil, Some(44)), None);
    assert Insert(n, 17) == t1;
    assert Insert(t1, 78) == t2;
    assert Insert(t2, 32) == TestTree();
    assert InsertAll(n, [17]) == t1;
    InsertAllSnoc(n, [17], 78);
    assert [17] + [78] == [17, 78];
    InsertAllSnoc(n, [17, 78], 32);
    assert [17, 78] + [32] == [17, 78, 32];
    InsertAllKeepsParentsExact(n, [17, 78, 32], None);
    var t := TestTree();
    assert Keys(t) == {44, 17, 32, 78};
    var u := Insert(t, 33);
    assert u.left.right.right == Node(Some(33), Nil, Nil, Some(32));
    assert Height(u.left.left) == 0 && Height(u.left.right) == 2;
    assert !Balanced(u);
    PutAsWrittenEndsIffBalanced(t, 33);
  }

  // ================================================================ remove, as written

  /**
   * One turn of rebalance's loop as remove starts it: the node is replaced by a fresh copy of
   * its parent (value, children and parent link). With no parent, every part of the copy
   * is nil.
   */
  function ClimbCopy(root: Tree, n: Tree): (r: Tree)
    requires AllValued(root) && n.Node?
    ensures r.Node?
    ensures n.parent.None? ==> r == EmptyNode()
    ensures n.parent.Some? && Search(root, n.parent.value).Node? ==> r.value == n.parent
  {
    if n.parent.None? then EmptyNode()
    else
      var p := Search(root, n.parent.value);
      if p.Nil? then EmptyNode() else Node(p.value, p.left, p.right, p.parent)
  }

  /** The node the loop holds after `k` turns. */
  function Climb(root: Tree, n: Tree, k: nat): (r: Tree)
    requires AllValued(root) && n.Node?
    ensures r.Node?
  {
    if k == 0 then n else ClimbCopy(root, Climb(root, n, k - 1))
  }

  /**
   * remove(_:) hands rebalance a fresh node holding the sibling's value, with no parent.
   * The first turn turns it into a valueless node without links, which is balanced, so it is
   * never restructured, and which every later turn copies again. Its value never equals the
   * root's, so the loop condition holds after every number of turns: the loop does not end.
   */
  lemma {:induction false} RemoveWalkNeverEnds(root: Tree, sibling: int, k: nat)
    requires root.Node? && AllValued(root) && root.value != Some(sibling)
    ensures var n := Climb(root, NewNode(Some(sibling)), k);
      && n.value != root.value
      && IsBalanced(n)
      && (k > 0 ==> n == EmptyNode())
  {
    if k > 0 {
      RemoveWalkNeverEnds(root, sibling, k - 1);
    }
  }
}
