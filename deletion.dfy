/**
 * The deletion that BinarySearchTree.remove evidently intends: the value leaves the tree, not
 * only the table. A node with at most one child is replaced by that child; a node with two
 * children takes the value of its in-order successor, which is cut out of the right subtree.
 */
module Deletion {
  import opened Wrappers
  import opened Nodes
  import opened SearchTrees

  /**
   * Cuts the leftmost node out of a non-empty tree, returning its value and what is left;
   * the leftmost node's right subtree takes its place.
   */
  function RemoveMin(t: Tree): (r: (int, Tree))
    requires t.Node? && AllValued(t)
    ensures AllValued(r.1)
    ensures r.1.Node? ==> r.1.parent == t.parent
    ensures Inorder(t) == [Some(r.0)] + Inorder(r.1)
  {
    if t.left.Nil? then
      ReparentKeepsContents(t.right, t.parent);
      (t.value.value, Reparent(t.right, t.parent))
    else
      var (m, l) := RemoveMin(t.left);
      (m, t.(left := l))
  }

  /**
   * Deletes `v` from the tree. An ordered tree stays ordered and loses exactly `v`, so a
   * search for `v` afterwards finds nothing.
   */
  function Delete(t: Tree, v: int): (r: Tree)
    requires AllValued(t)
    ensures AllValued(r)
    ensures r.Node? ==> t.Node? && r.parent == t.parent
  {
    if t.Nil? then Nil
    else
      var x := t.value.value;
      if v < x then t.(left := Delete(t.left, v))
      else if v > x then t.(right := Delete(t.right, v))
      else if t.left.Nil? then Reparent(t.right, t.parent)
      else if t.right.Nil? then Reparent(t.left, t.parent)
      else
        var (m, rest) := RemoveMin(t.right);
        Node(Some(m), Reparent(t.left, Some(m)), Reparent(rest, Some(m)), t.parent)
  }

  /** The leftmost value is the least, and what is left is ordered and holds the others. */
  lemma {:induction false} RemoveMinKeepsOrder(t: Tree)
    requires t.Node? && Ordered(t)
    ensures var (m, rest) := RemoveMin(t);
      && m in Keys(t) && Ordered(rest)
      && (forall x :: x in Keys(t) ==> m <= x)
      && (forall x :: x in Keys(rest) <==> x in Keys(t) && x != m)
  {
    if t.left.Nil? {
      ReparentKeepsContents(t.right, t.parent);
    } else {
      RemoveMinKeepsOrder(t.left);
    }
  }

  /** An ordered tree stays ordered and loses exactly `v`. */
  lemma {:induction false} DeleteKeepsOrder(t: Tree, v: int)
    requires Ordered(t)
    ensures Ordered(Delete(t, v))
    ensures forall x :: x in Keys(Delete(t, v)) <==> x in Keys(t) && x != v
  {
    if t.Node? {
      var x := t.value.value;
      if v < x {
        DeleteKeepsOrder(t.left, v);
      } else if v > x {
        DeleteKeepsOrder(t.right, v);
      } else if t.left.Nil? {
        ReparentKeepsContents(t.right, t.parent);
      } else if t.right.Nil? {
        ReparentKeepsContents(t.left, t.parent);
      } else {
        var (m, rest) := RemoveMin(t.right);
        RemoveMinKeepsOrder(t.right);
        ReparentKeepsContents(t.left, Some(m));
        ReparentKeepsContents(rest, Some(m));
      }
    }
  }

  /** After the corrected delete the value cannot be found any more; the other values can. */
  lemma DeleteThenSearch(t: Tree, v: int, y: int)
    requires Ordered(t)
    ensures Search(Delete(t, v), v).Nil?
    ensures y != v ==> (Search(Delete(t, v), y).Node? <==> Search(t, y).Node?)
  {
    DeleteKeepsOrder(t, v);
    SearchFindsKeys(t, y);
    SearchFindsKeys(Delete(t, v), v);
    SearchFindsKeys(Delete(t, v), y);
  }

  /** In an ordered tree the search finds exactly the values of the tree. */
  lemma {:induction false} SearchFindsKeys(t: Tree, v: int)
    requires Ordered(t)
    ensures Search(t, v).Node? <==> v in Keys(t)
  {
    if t.Node? && t.value.value != v {
      SearchFindsKeys(t.left, v);
      SearchFindsKeys(t.right, v);
    }
  }

  /** Giving the top node a new parent link keeps every link below it exact. */
  lemma ReparentKeepsExact(t: Tree, p: Option<int>, q: Option<int>)
    requires ParentsExact(t, p)
    ensures ParentsExact(Reparent(t, q), q)
  {
  }

  lemma {:induction false} RemoveMinKeepsExact(t: Tree, p: Option<int>)
    requires t.Node? && AllValued(t) && ParentsExact(t, p)
    ensures ParentsExact(RemoveMin(t).1, p)
  {
    if t.left.Nil? {
      ReparentKeepsExact(t.right, t.value, p);
    } else {
      RemoveMinKeepsExact(t.left, t.value);
    }
  }

  /** The corrected delete keeps every parent link exact, which the as-written one does not. */
  lemma {:induction false} DeleteKeepsExact(t: Tree, v: int, p: Option<int>)
    requires AllValued(t) && ParentsExact(t, p)
    ensures ParentsExact(Delete(t, v), p)
  {
    if t.Node? {
      var x := t.value.value;
      if v < x {
        DeleteKeepsExact(t.left, v, t.value);
      } else if v > x {
        DeleteKeepsExact(t.right, v, t.value);
      } else if t.left.Nil? {
        ReparentKeepsExact(t.right, t.value, p);
      } else if t.right.Nil? {
        ReparentKeepsExact(t.left, t.value, p);
      } else {
        var (m, rest) := RemoveMin(t.right);
        RemoveMinKeepsExact(t.right, t.value);
        ReparentKeepsExact(t.left, t.value, Some(m));
        ReparentKeepsExact(rest, t.value, Some(m));
      }
    }
  }
}
