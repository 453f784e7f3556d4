/**
 * Why the rebalance loop of the textbook AVL draft (CoreDataStructures/Classes/AVLTree.swift)
 * restores the height-balance property after an insertion.
 *
 * The loop climbs from the new leaf. Below the node it has reached, the tree is balanced
 * again, and that subtree is at most one taller than it was before the insertion. When it
 * did grow, it is the new leaf itself, or its children differ in height. One restructure at
 * the first unbalanced ancestor brings that subtree back to its old height.
 */
module InsertionBalance {
  import opened Wrappers
  import opened Nodes
  import opened SearchTrees
  import opened HeightBalance
  import opened Rebalancing

  /** The balance factor: left height minus right height. */
  function Factor(n: Tree): int
    requires n.Node?
  {
    Height(n.left) - Height(n.right)
  }

  /**
   * `cur` is what an insertion below made of the subtree `o`: balanced, and either as high
   * as `o` or one higher. When it is higher it is the new leaf (o was absent) or leans to
   * one side.
   */
  ghost predicate Grown(o: Tree, cur: Tree)
  {
    && AllValued(cur) && Balanced(cur)
    && (|| Height(cur) == Height(o)
        || (&& Height(cur) == Height(o) + 1
            && cur.Node?
            && ((o.Nil? && IsLeaf(cur)) || Factor(cur) != 0)))
  }

  /** A trinode whose four subtrees are balanced and fit together is balanced. */
  lemma TrinodeBalanced(a: int, b: int, c: int, t0: Tree, t1: Tree, t2: Tree, t3: Tree, p: Option<int>)
    requires Balanced(t0) && Balanced(t1) && Balanced(t2) && Balanced(t3)
    requires -1 <= Height(t0) - Height(t1) <= 1 && -1 <= Height(t2) - Height(t3) <= 1
    requires -1 <= Max(Height(t0), Height(t1)) - Max(Height(t2), Height(t3)) <= 1
    ensures Balanced(Trinode(a, b, c, t0, t1, t2, t3, p))
    ensures Height(Trinode(a, b, c, t0, t1, t2, t3, p))
         == 2 + Max(Max(Height(t0), Height(t1)), Max(Height(t2), Height(t3)))
  {
    ReparentKeepsBalance(t0, Some(a));
    ReparentKeepsBalance(t1, Some(a));
    ReparentKeepsBalance(t2, Some(c));
    ReparentKeepsBalance(t3, Some(c));
    var l := Node(Some(a), Reparent(t0, Some(a)), Reparent(t1, Some(a)), Some(b));
    var g := Node(Some(c), Reparent(t2, Some(c)), Reparent(t3, Some(c)), Some(b));
    assert Height(l) == 1 + Max(Height(t0), Height(t1));
    assert Height(g) == 1 + Max(Height(t2), Height(t3));
    assert Balanced(l) && Balanced(g);
    assert Trinode(a, b, c, t0, t1, t2, t3, p) == Node(Some(b), l, g, p);
  }

  /**
   * The subtree in focus grew on the left of its parent z while z's right subtree is two
   * lower: fixing z restructures it and gives a balanced subtree as high as z was before the insertion.
   */
  lemma FixLeftHeavy(z: Tree, onLeft: bool, h: nat)
    requires z.Node? && AllValued(z) && z.left.Node?
    requires Balanced(z.left) && Balanced(z.right)
    requires h >= 1 && Height(z.left) == h + 1 && Height(z.right) == h - 1
    requires Factor(z.left) != 0
    ensures Balanced(Fix(z, onLeft)) && Height(Fix(z, onLeft)) == h + 1
  {
    assert !IsBalanced(z);
    assert TallerIsLeft(z, onLeft) == true;
    assert TallerIsLeft(z.left, true) == (Factor(z.left) > 0);
    RestructureLeftHeavy(z, h);
  }

  lemma RestructureLeftHeavy(z: Tree, h: nat)
    requires z.Node? && AllValued(z) && z.left.Node?
    requires Balanced(z.left) && Balanced(z.right)
    requires h >= 1 && Height(z.left) == h + 1 && Height(z.right) == h - 1
    requires Factor(z.left) != 0
    ensures var xLeft := Factor(z.left) > 0;
      && (if xLeft then z.left.left else z.left.right).Node?
      && Balanced(Restructure(z, true, xLeft))
      && Height(Restructure(z, true, xLeft)) == h + 1
  {
    var y := z.left;
    var xLeft := Factor(y) > 0;
    var x := if xLeft then y.left else y.right;
    assert Height(x) == h;
    var xv, yv, zv := x.value.value, y.value.value, z.value.value;
    if xLeft {
      assert Restructure(z, true, true) == Trinode(xv, yv, zv, x.left, x.right, y.right, z.right, z.parent);
      TrinodeBalanced(xv, yv, zv, x.left, x.right, y.right, z.right, z.parent);
    } else {
      assert Restructure(z, true, false) == Trinode(yv, xv, zv, y.left, x.left, x.right, z.right, z.parent);
      TrinodeBalanced(yv, xv, zv, y.left, x.left, x.right, z.right, z.parent);
    }
  }

  /** The mirror image: the subtree in focus grew on the right. */
  lemma FixRightHeavy(z: Tree, onLeft: bool, h: nat)
    requires z.Node? && AllValued(z) && z.right.Node?
    requires Balanced(z.left) && Balanced(z.right)
    requires h >= 1 && Height(z.right) == h + 1 && Height(z.left) == h - 1
    requires Factor(z.right) != 0
    ensures Balanced(Fix(z, onLeft)) && Height(Fix(z, onLeft)) == h + 1
  {
    assert !IsBalanced(z);
    assert TallerIsLeft(z, onLeft) == false;
    assert TallerIsLeft(z.right, false) == (Factor(z.right) > 0);
    RestructureRightHeavy(z, h);
  }

  lemma RestructureRightHeavy(z: Tree, h: nat)
    requires z.Node? && AllValued(z) && z.right.Node?
    requires Balanced(z.left) && Balanced(z.right)
    requires h >= 1 && Height(z.right) == h + 1 && Height(z.left) == h - 1
    requires Factor(z.right) != 0
    ensures var xLeft := Factor(z.right) > 0;
      && (if xLeft then z.right.left else z.right.right).Node?
      && Balanced(Restructure(z, false, xLeft))
      && Height(Restructure(z, false, xLeft)) == h + 1
  {
    var y := z.right;
    var xLeft := Factor(y) > 0;
    var x := if xLeft then y.left else y.right;
    assert Height(x) == h;
    var xv, yv, zv := x.value.value, y.value.value, z.value.value;
    if xLeft {
      assert Restructure(z, false, true) == Trinode(zv, xv, yv, z.left, x.left, x.right, y.right, z.parent);
      TrinodeBalanced(zv, xv, yv, z.left, x.left, x.right, y.right, z.parent);
    } else {
      assert Restructure(z, false, false) == Trinode(zv, yv, xv, z.left, y.left, x.left, x.right, z.parent);
      TrinodeBalanced(zv, yv, xv, z.left, y.left, x.left, x.right, z.parent);
    }
  }

  /**
   * One turn of the loop after an insertion: if the parent was balanced before the
   * insertion, then the parent rebuilt around the grown subtree and fixed is in turn a
   * grown version of the old parent.
   */
  lemma FixAfterInsert(c: Crumb, o: Tree, cur: Tree, onLeft: bool)
    requires AllValued(o) && AllValued(c.Sibling()) && Balanced(Attach(c, o))
    requires Grown(o, cur)
    ensures Grown(Attach(c, o), Fix(Attach(c, cur), onLeft))
  {
    var n := Attach(c, cur);
    AttachFacts(c, o);
    AttachFacts(c, cur);
    if IsBalanced(n) {
      assert Fix(n, onLeft) == n;
      assert Balanced(n);
    } else {
      FixUnbalanced(c, o, cur, onLeft);
    }
  }

  /** The case where the grown focus unbalances its parent: one restructure. */
  lemma FixUnbalanced(c: Crumb, o: Tree, cur: Tree, onLeft: bool)
    requires AllValued(o) && AllValued(c.Sibling()) && Balanced(Attach(c, o))
    requires Grown(o, cur) && !IsBalanced(Attach(c, cur))
    ensures Balanced(Fix(Attach(c, cur), onLeft))
    ensures Height(Fix(Attach(c, cur), onLeft)) == Height(Attach(c, o))
  {
    var n := Attach(c, cur);
    var h := Height(o);
    UnbalancedShape(c, o, cur);
    if c.FromLeft? {
      FixLeftHeavy(n, onLeft, h);
    } else {
      FixRightHeavy(n, onLeft, h);
    }
  }

  /** Only a grown focus beside a sibling two lower unbalances the parent. */
  lemma UnbalancedShape(c: Crumb, o: Tree, cur: Tree)
    requires AllValued(o) && AllValued(c.Sibling()) && Balanced(Attach(c, o))
    requires Grown(o, cur) && !IsBalanced(Attach(c, cur))
    ensures var n, h := Attach(c, cur), Height(o);
      && h >= 1 && AllValued(n) && Balanced(n.left) && Balanced(n.right)
      && Height(Attach(c, o)) == h + 1
      && (c.FromLeft? ==> n.left.Node? && Height(n.left) == h + 1 && Height(n.right) == h - 1 && Factor(n.left) != 0)
      && (c.FromRight? ==> n.right.Node? && Height(n.right) == h + 1 && Height(n.left) == h - 1 && Factor(n.right) != 0)
  {
    GrownTooHigh(c, o, cur);
    AttachFacts(c, cur);
    ReparentKeepsBalance(cur, Some(c.value));
  }

  /** The heights behind UnbalancedShape. */
  lemma GrownTooHigh(c: Crumb, o: Tree, cur: Tree)
    requires AllValued(o) && AllValued(c.Sibling()) && Balanced(Attach(c, o))
    requires Grown(o, cur) && !IsBalanced(Attach(c, cur))
    ensures Height(cur) == Height(o) + 1 && Height(c.Sibling()) == Height(o) - 1
    ensures Height(Attach(c, o)) == Height(o) + 1
    ensures Balanced(cur) && Balanced(c.Sibling()) && cur.Node? && o.Node? && Factor(cur) != 0
  {
    var s, h := c.Sibling(), Height(o);
    AttachFacts(c, o);
    AttachFacts(c, cur);
    assert -1 <= h - Height(s) <= 1;
    assert !(-1 <= Height(cur) - Height(s) <= 1);
  }

  /** The parent rebuilt from a crumb: its two children, height and balance. */
  lemma AttachFacts(c: Crumb, t: Tree)
    ensures var n := Attach(c, t);
      && (c.FromLeft? ==> n.left == Reparent(t, Some(c.value)) && n.right == c.Sibling())
      && (c.FromRight? ==> n.right == Reparent(t, Some(c.value)) && n.left == c.Sibling())
      && Height(n) == 1 + Max(Height(t), Height(c.Sibling()))
      && (IsBalanced(n) <==> -1 <= Height(t) - Height(c.Sibling()) <= 1)
      && (Balanced(n) <==> IsBalanced(n) && Balanced(t) && Balanced(c.Sibling()))
      && (AllValued(t) && AllValued(c.Sibling()) ==> AllValued(n))
  {
    ReparentKeepsBalance(t, Some(c.value));
  }

  /** A subtree of a balanced tree is balanced. */
  lemma {:induction false} BalancedInside(t: Tree, path: seq<Crumb>)
    requires Balanced(Plug(t, path))
    ensures Balanced(t)
    decreases |path|
  {
    if path != [] {
      var inner := Plug(t, path[1..]);
      ReparentKeepsBalance(inner, Some(path[0].value));
      BalancedInside(t, path[1..]);
    }
  }

  /**
   * The loop keeps its invariant up to the root: started on a grown version of the subtree
   * `o` of a balanced tree, it ends with a balanced tree at most one higher.
   */
  lemma {:induction false} RebalanceKeepsBalance(o: Tree, cur: Tree, up: seq<Crumb>)
    requires AllValued(o) && PathValued(up) && Balanced(Plug(o, up))
    requires Grown(o, cur)
    ensures Grown(Plug(o, up), RebalanceUp(cur, up))
    decreases |up|
  {
    if up != [] {
      var rest, c := up[..|up| - 1], up[|up| - 1];
      assert up == rest + [c];
      PlugSnoc(o, rest, c);
      assert AllValued(c.Sibling());
      assert PathValued(rest);
      BalancedInside(Attach(c, o), rest);
      FixAfterInsert(c, o, cur, OnLeft(rest));
      RebalanceKeepsBalance(Attach(c, o), Fix(Attach(c, cur), OnLeft(rest)), rest);
    }
  }

  // ================================================================ the insertion path

  /** An insertion puts a leaf where the search for the value stopped. */
  lemma {:induction false} InsertIsPlug(t: Tree, v: int)
    requires t.Node? && AllValued(t) && ExactBelow(t) && Search(t, v).Nil?
    ensures Insert(t, v) == Plug(NewNode(Some(v)), Focus(t, v).1)
  {
    var x := t.value.value;
    var leaf := NewNode(Some(v));
    if v < x && t.left.Node? {
      ExactIsExactBelow(t.left, t.value);
      InsertIsPlug(t.left, v);
      InsertKeepsParentsExact(t.left, v, t.value);
    } else if v > x && t.right.Node? {
      ExactIsExactBelow(t.right, t.value);
      InsertIsPlug(t.right, v);
      InsertKeepsParentsExact(t.right, v, t.value);
    }
  }

  /**
   * After an insertion the search for the new value climbs the same path the failed search
   * took, and finds a leaf.
   */
  lemma {:induction false} FocusInsert(t: Tree, v: int)
    requires t.Node? && AllValued(t) && Search(t, v).Nil?
    ensures var (n, path) := Focus(Insert(t, v), v);
      && n.Node? && n.value == Some(v) && IsLeaf(n)
      && path == Focus(t, v).1
  {
    var x := t.value.value;
    if v < x && t.left.Node? {
      FocusInsert(t.left, v);
    } else if v > x && t.right.Node? {
      FocusInsert(t.right, v);
    }
  }

  /** Two valued trees with the same in-order sequence hold the same values, and one is ordered iff the other is. */
  lemma SameInorder(a: Tree, b: Tree)
    requires AllValued(a) && AllValued(b) && Inorder(a) == Inorder(b)
    ensures Keys(a) == Keys(b)
    ensures Ordered(a) <==> Ordered(b)
  {
    assert Keys(a) == Keys(b) by {
      InorderLists(a);
      InorderLists(b);
      forall x
        ensures x in Keys(a) <==> x in Keys(b)
      {
        assert x in Keys(a) <==> Some(x) in Inorder(a);
      }
    }
    OrderedIffInorderAscending(a);
    OrderedIffInorderAscending(b);
  }

  /**
   * put followed by rebalance: inserting an absent value into a balanced search tree with
   * exact parent links and rebalancing from the new leaf gives a balanced search tree holding
   * the old values and the new one, with exact parent links.
   */
  lemma InsertThenRebalance(t: Tree, v: int)
    requires t.Node? && Ordered(t) && Balanced(t) && ParentsExact(t, None) && v !in Keys(t)
    ensures var t1 := Insert(t, v);
      var (n, path) := Focus(t1, v);
      && AllValued(n) && PathValued(path)
      && var r := RebalanceUp(n, path);
        && Balanced(r) && Ordered(r) && Keys(r) == Keys(t) + {v}
        && ParentsExact(r, None)
        && Height(t) <= Height(r) <= Height(t) + 1
  {
    var t1 := Insert(t, v);
    var (n, path) := Focus(t1, v);
    InsertFocus(t, v);
    RebalanceKeepsBalance(Nil, n, path);
    var r := RebalanceUp(n, path);
    SameInorder(r, t1);
    RebalanceExact(n, path);
  }

  /**
   * After put the search for the new value stops at the new leaf; the path to it is the path
   * the search took in the old tree, which ends at the empty place the leaf filled.
   */
  lemma InsertFocus(t: Tree, v: int)
    requires t.Node? && Ordered(t) && ParentsExact(t, None) && v !in Keys(t)
    ensures var (n, path) := Focus(Insert(t, v), v);
      && n.Node? && n.value == Some(v) && IsLeaf(n) && Grown(Nil, n) && PathValued(path)
      && Plug(Nil, path) == t && Plug(n, path) == Insert(t, v)
      && ExactBelow(n) && PathExact(path) && path != [] && path[0].parent.None?
  {
    var t1 := Insert(t, v);
    InsertKeepsParentsExact(t, v, None);
    ExactIsExactBelow(t, None);
    ExactIsExactBelow(t1, None);
    FocusInsert(t, v);
    var (n0, path0) := Focus(t, v);
    assert n0 == Nil;
    assert Plug(n0, path0) == t;
    LeafGrown(Focus(t1, v).0);
  }

  /** A new leaf is a subtree that grew from nothing by one level. */
  lemma LeafGrown(n: Tree)
    requires n.Node? && n.value.Some? && IsLeaf(n)
    ensures Grown(Nil, n)
  {
    assert Height(n) == 1;
    assert Balanced(n);
  }

  /** The loop leaves exact parent links, with the root's link empty. */
  lemma RebalanceExact(n: Tree, path: seq<Crumb>)
    requires AllValued(n) && PathValued(path) && ExactBelow(n) && PathExact(path)
    requires path != [] && path[0].parent.None?
    ensures ParentsExact(RebalanceUp(n, path), None)
  {
  }
}
