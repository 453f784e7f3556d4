/**
 * The height-balance property of AVL trees (the doc comment of AVLTree.swift): at every node
 * the heights of the two children differ by at most one.
 */
module HeightBalance {
  import opened Nodes
  import opened SearchTrees

  /**
   * isBalanced(_:): the balance factor, left height minus right height with an absent child
   * counting 0, lies in [-1, 1].
   */
  predicate IsBalanced(n: Tree)
    requires n.Node?
  {
    -1 <= Height(n.left) - Height(n.right) <= 1
  }

  /** Every node satisfies isBalanced. */
  ghost predicate Balanced(t: Tree)
  {
    t.Nil? || (IsBalanced(t) && Balanced(t.left) && Balanced(t.right))
  }

  lemma ReparentKeepsBalance(t: Tree, p: Wrappers.Option<int>)
    ensures Balanced(Reparent(t, p)) <==> Balanced(t)
  {
  }

  /**
   * A height-balanced tree is logarithmically high: a tree of height h has at least
   * 2^(h/2) - 1 nodes.
   */
  lemma {:induction false} BalancedHeightIsLogarithmic(t: Tree)
    requires Balanced(t) && AllValued(t)
    ensures Pow2(Height(t) / 2) <= Size(t) + 1
  {
    if t.Node? {
      BalancedHeightIsLogarithmic(t.left);
      BalancedHeightIsLogarithmic(t.right);
      var h := Height(t);
      if h >= 2 {
        // both children are at least h - 2 high
        var lo := if Height(t.left) < Height(t.right) then t.left else t.right;
        var hi := if Height(t.left) < Height(t.right) then t.right else t.left;
        assert Height(hi) == h - 1 && Height(lo) >= h - 2;
        PowMonotone((h - 2) / 2, Height(lo) / 2);
        PowMonotone((h - 2) / 2, Height(hi) / 2);
        assert Pow2(h / 2) == 2 * Pow2((h - 2) / 2);
      }
    }
  }
}
