/**
 * The node of a binary tree (class Node of Tree.swift) and the errors tree operations throw.
 */
module Nodes {
  import opened Wrappers

  /** The errors a tree operation throws (enum TreeError). */
  datatype TreeError = DuplicateValueError | InvalidNodeError | NilRootError

  /**
   * A node together with the subtree its child links reach; `Nil` is an absent link.
   * A node's value is optional, as in the source, where only a freshly made root lacks one.
   * The parent link is recorded as the parent's value: values are unique within one tree,
   * so the value names the parent node.
   */
  datatype Tree = Nil | Node(value: Option<int>, left: Tree, right: Tree, parent: Option<int>)

  // ---------------------------------------------------------------- constructors

  /** `init()`: a valueless node with no links. */
  function EmptyNode(): (n: Tree)
    ensures n.Node? && n.value.None?
    ensures IsLeaf(n) && IsRoot(n)
  {
    Node(None, Nil, Nil, None)
  }

  /** `init(value:)`: a node holding `value`, with no links. */
  function NewNode(value: Option<int>): (n: Tree)
    ensures n.Node? && n.value == value
    ensures IsLeaf(n) && IsRoot(n)
  {
    Node(value, Nil, Nil, None)
  }

  /** `init(value:left:right:)`: the children are linked, the parent is not. */
  function NodeWithChildren(value: Option<int>, left: Tree, right: Tree): (n: Tree)
    ensures n.Node? && n.value == value && IsRoot(n)
    ensures IsLeaf(n) <==> left.Nil? && right.Nil?
  {
    Node(value, left, right, None)
  }

  /** `init(value:left:right:parent:)`; `parent` is the parent's value, or None for no parent. */
  function LinkedNode(value: Option<int>, left: Tree, right: Tree, parent: Option<int>): (n: Tree)
    ensures n.Node? && n.value == value
    ensures IsRoot(n) <==> parent.None?
    ensures IsLeaf(n) <==> left.Nil? && right.Nil?
  {
    Node(value, left, right, parent)
  }

  // ---------------------------------------------------------------- comparison

  /**
   * `==` on nodes. It looks at the values only. A valueless node never equals a valued one;
   * comparing two valueless nodes force-unwraps nil and traps, hence the precondition.
   */
  function Equal(lhs: Tree, rhs: Tree): (r: bool)
    requires lhs.Node? && rhs.Node?
    requires lhs.value.Some? || rhs.value.Some?
    ensures r <==> lhs.value == rhs.value
  {
    if lhs.value.None? && rhs.value.Some? then false
    else if rhs.value.None? && lhs.value.Some? then false
    else lhs.value.value == rhs.value.value
  }

  /** `>` on nodes: compares the (force-unwrapped) values. */
  function Greater(lhs: Tree, rhs: Tree): bool
    requires lhs.Node? && rhs.Node? && lhs.value.Some? && rhs.value.Some?
  {
    lhs.value.value > rhs.value.value
  }

  /** `<` on nodes: compares the (force-unwrapped) values. */
  function Less(lhs: Tree, rhs: Tree): bool
    requires lhs.Node? && rhs.Node? && lhs.value.Some? && rhs.value.Some?
  {
    lhs.value.value < rhs.value.value
  }

  /** Equality ignores the links: two nodes with the same value are equal wherever they sit. */
  lemma EqualIgnoresLinks(v: int, l1: Tree, r1: Tree, p1: Option<int>, l2: Tree, r2: Tree, p2: Option<int>)
    ensures Equal(Node(Some(v), l1, r1, p1), Node(Some(v), l2, r2, p2))
  {
  }

  /** On valued nodes exactly one of `<`, `==`, `>` holds, and `<` is `>` flipped. */
  lemma ComparisonTrichotomy(a: Tree, b: Tree)
    requires a.Node? && b.Node? && a.value.Some? && b.value.Some?
    ensures Less(a, b) <==> Greater(b, a)
    ensures Less(a, b) || Equal(a, b) || Greater(a, b)
    ensures !(Less(a, b) && Equal(a, b)) && !(Less(a, b) && Greater(a, b)) && !(Equal(a, b) && Greater(a, b))
  {
  }

  // ---------------------------------------------------------------- link predicates

  /** `isParent()`: at least one child. */
  predicate IsParent(n: Tree)
    requires n.Node?
  {
    n.left != Nil || n.right != Nil
  }

  /** `isChild()`: has a parent. */
  predicate IsChild(n: Tree)
    requires n.Node?
  {
    n.parent != None
  }

  /** `isRoot()`: has no parent. */
  predicate IsRoot(n: Tree)
    requires n.Node?
  {
    n.parent == None
  }

  /** `isLeaf()`: no children. */
  predicate IsLeaf(n: Tree)
    requires n.Node?
  {
    n.left == Nil && n.right == Nil
  }

  /** A node is a leaf exactly when it is not a parent, and a root exactly when it is not a child. */
  lemma LinkPredicatesComplement(n: Tree)
    requires n.Node?
    ensures IsLeaf(n) <==> !IsParent(n)
    ensures IsRoot(n) <==> !IsChild(n)
  {
  }
}
