/**
 * The height bookkeeping and the bottom-up rebalance loop of the textbook AVL draft
 * (CoreDataStructures/Classes/AVLTree.swift).
 *
 * The draft calls `restructure`, which none of its files defines; it is taken here from the
 * trinode restructuring of Goodrich and Tamassia, Data Structures and Algorithms in Java,
 * 5th edition, chapter 10, the book the draft cites.
 *
 * The draft reads a child's height as height(child.value), a search from the root followed by
 * a height computation; in an ordered tree that search finds the child itself
 * (SearchTrees.ChildLookup), so heights are read here directly from the child.
 * The loop walks from a node up to the root. The path it climbs is kept as a zipper: the
 * node in focus plus one crumb per ancestor, root first.
 */
module Rebalancing {
  import opened Wrappers
  import opened Nodes
  import opened SearchTrees
  import opened HeightBalance

  // ================================================================ AVL nodes and heights

  /** class AVLNode: a node with a stored height. */
  datatype AvlNode = AvlNode(node: Tree, height: int)

  /** AVLNode's init(): a valueless node of height 0. */
  function NewAvlNode(): (a: AvlNode)
    ensures a.node.Node? && a.node.value.None? && IsLeaf(a.node) && IsRoot(a.node)
    ensures a.height == 0
  {
    AvlNode(EmptyNode(), 0)
  }

  /** AVLNode's init(value:): a node holding `value`, height 0. */
  function NewAvlNodeWithValue(value: Option<int>): (a: AvlNode)
    ensures a.node.Node? && a.node.value == value && IsLeaf(a.node) && IsRoot(a.node)
    ensures a.height == 0
  {
    AvlNode(NewNode(value), 0)
  }

  /**
   * setHeight(_:): stores 1 + the larger child height, an absent child counting 0; the stored
   * value is the true height of the node's subtree.
   */
  function SetHeight(a: AvlNode): (r: AvlNode)
    requires a.node.Node? && AllValued(a.node)
    ensures r.node == a.node && r.height == Height(a.node) && r.height >= 1
  {
    a.(height := 1 + Max(Height(a.node.left), Height(a.node.right)))
  }

  /**
   * taller_child(_:), as a side: true for the left child. The strictly taller child wins; on a
   * tie the left child is taken when the node is the root or its parent's left child
   * (`onLeft`), and the right child otherwise.
   */
  function TallerIsLeft(n: Tree, onLeft: bool): (left: bool)
    requires n.Node?
    ensures Height(n.left) > Height(n.right) ==> left
    ensures Height(n.left) < Height(n.right) ==> !left
    ensures Height(n.left) == Height(n.right) ==> left == onLeft
  {
    var lh, rh := Height(n.left), Height(n.right);
    if lh > rh then true
    else if rh > lh then false
    else onLeft
  }

  /** taller_child(_:): the chosen child, force-unwrapped, so it must exist. */
  function TallerChild(n: Tree, onLeft: bool): (c: Tree)
    requires n.Node? && (if TallerIsLeft(n, onLeft) then n.left else n.right).Node?
    ensures c.Node? && (c == n.left || c == n.right)
    ensures Height(c) == Max(Height(n.left), Height(n.right))
  {
    if TallerIsLeft(n, onLeft) then n.left else n.right
  }

  // ================================================================ trinode restructuring

  /** The restructured subtree b(a(t0, t1), c(t2, t3)) hanging from `p`, every parent link set. */
  function Trinode(a: int, b: int, c: int, t0: Tree, t1: Tree, t2: Tree, t3: Tree, p: Option<int>): (r: Tree)
    ensures r.Node? && r.value == Some(b) && r.parent == p
    ensures Inorder(r) == Inorder(t0) + [Some(a)] + Inorder(t1) + [Some(b)] + Inorder(t2) + [Some(c)] + Inorder(t3)
    ensures AllValued(t0) && AllValued(t1) && AllValued(t2) && AllValued(t3) ==> AllValued(r)
    ensures ExactBelow(t0) && ExactBelow(t1) && ExactBelow(t2) && ExactBelow(t3) ==> ExactBelow(r)
  {
    var l := Node(Some(a), Reparent(t0, Some(a)), Reparent(t1, Some(a)), Some(b));
    var g := Node(Some(c), Reparent(t2, Some(c)), Reparent(t3, Some(c)), Some(b));
    assert Inorder(l) == Inorder(t0) + [Some(a)] + Inorder(t1) by {
      ReparentKeepsContents(t0, Some(a));
      ReparentKeepsContents(t1, Some(a));
    }
    assert Inorder(g) == Inorder(t2) + [Some(c)] + Inorder(t3) by {
      ReparentKeepsContents(t2, Some(c));
      ReparentKeepsContents(t3, Some(c));
    }
    assert ExactBelow(t0) && ExactBelow(t1) && ExactBelow(t2) && ExactBelow(t3) ==> ExactBelow(Node(Some(b), l, g, p)) by {
      ReparentExact(t0, Some(a));
      ReparentExact(t1, Some(a));
      ReparentExact(t2, Some(c));
      ReparentExact(t3, Some(c));
    }
    assert AllValued(t0) && AllValued(t1) && AllValued(t2) && AllValued(t3) ==> AllValued(l) && AllValued(g);
    Node(Some(b), l, g, p)
  }

  /** Parent links are exact below the top node (the top node's own link is not looked at). */
  ghost predicate ExactBelow(t: Tree)
  {
    t.Nil? || (ParentsExact(t.left, t.value) && ParentsExact(t.right, t.value))
  }

  /**
   * restructure(x) (Goodrich and Tamassia): `z` is the unbalanced node, y its child on the
   * `yLeft` side and x y's child on the `xLeft` side. Listing x, y, z in order as a, b, c and
   * their four other subtrees in order as T0..T3, the subtree at z is replaced by
   * b(a(T0, T1), c(T2, T3)), which takes z's place under z's parent. The in-order sequence,
   * hence the ordering, is unchanged.
   */
  function Restructure(z: Tree, yLeft: bool, xLeft: bool): (r: Tree)
    requires z.Node? && AllValued(z)
    requires (if yLeft then z.left else z.right).Node?
    requires var y := if yLeft then z.left else z.right; (if xLeft then y.left else y.right).Node?
    ensures r.Node? && AllValued(r) && r.parent == z.parent
    ensures Inorder(r) == Inorder(z)
    ensures ExactBelow(z) ==> ExactBelow(r)
  {
    var y := if yLeft then z.left else z.right;
    var x := if xLeft then y.left else y.right;
    assert AllValued(y) && AllValued(x);
    assert AllValued(x.left) && AllValued(x.right) && AllValued(y.left) && AllValued(y.right);
    var xv, yv, zv := x.value.value, y.value.value, z.value.value;
    if yLeft && xLeft then
      InorderLeftLeft(z, y, x);
      ExactAfterReparent(z, y, x);
      Trinode(xv, yv, zv, x.left, x.right, y.right, z.right, z.parent)
    else if yLeft then
      InorderLeftRight(z, y, x);
      ExactAfterReparent(z, y, x);
      Trinode(yv, xv, zv, y.left, x.left, x.right, z.right, z.parent)
    else if xLeft then
      InorderRightLeft(z, y, x);
      ExactAfterReparent(z, y, x);
      Trinode(zv, xv, yv, z.left, x.left, x.right, y.right, z.parent)
    else
      InorderRightRight(z, y, x);
      ExactAfterReparent(z, y, x);
      Trinode(zv, yv, xv, z.left, y.left, x.left, x.right, z.parent)
  }

  lemma Assoc<T>(a: seq<T>, b: seq<T>, c: seq<T>)
    ensures a + (b + c) == a + b + c
  {
  }

  // The in-order sequence of z, split around x, y and z as restructure lists them, one lemma per shape.

  lemma InorderLeftLeft(z: Tree, y: Tree, x: Tree)
    requires z.Node? && y.Node? && x.Node? && z.left == y && y.left == x
    ensures Inorder(z) == Inorder(x.left) + [x.value] + Inorder(x.right) + [y.value] + Inorder(y.right) + [z.value] + Inorder(z.right)
  {
    assert Inorder(x) == Inorder(x.left) + [x.value] + Inorder(x.right);
  }

  lemma InorderLeftRight(z: Tree, y: Tree, x: Tree)
    requires z.Node? && y.Node? && x.Node? && z.left == y && y.right == x
    ensures Inorder(z) == Inorder(y.left) + [y.value] + Inorder(x.left) + [x.value] + Inorder(x.right) + [z.value] + Inorder(z.right)
  {
    var xl, xr, p := Inorder(x.left), Inorder(x.right), Inorder(y.left) + [y.value];
    assert Inorder(y) == p + (xl + [x.value] + xr);
    Assoc(p, xl + [x.value], xr);
    Assoc(p, xl, [x.value]);
  }

  lemma InorderRightLeft(z: Tree, y: Tree, x: Tree)
    requires z.Node? && y.Node? && x.Node? && z.right == y && y.left == x
    ensures Inorder(z) == Inorder(z.left) + [z.value] + Inorder(x.left) + [x.value] + Inorder(x.right) + [y.value] + Inorder(y.right)
  {
    var xl, xr, yr, p := Inorder(x.left), Inorder(x.right), Inorder(y.right), Inorder(z.left) + [z.value];
    assert Inorder(z) == p + (xl + [x.value] + xr + [y.value] + yr);
    Assoc(p, xl + [x.value] + xr + [y.value], yr);
    Assoc(p, xl + [x.value] + xr, [y.value]);
    Assoc(p, xl + [x.value], xr);
    Assoc(p, xl, [x.value]);
  }

  lemma InorderRightRight(z: Tree, y: Tree, x: Tree)
    requires z.Node? && y.Node? && x.Node? && z.right == y && y.right == x
    ensures Inorder(z) == Inorder(z.left) + [z.value] + Inorder(y.left) + [y.value] + Inorder(x.left) + [x.value] + Inorder(x.right)
  {
    var xs := Inorder(x.left) + [x.value] + Inorder(x.right);
    var ys := Inorder(y.left) + [y.value] + xs;
    assert Inorder(y) == ys;
  }

  /** With exact links below z, every subtree hanging from x, y or z is exact below its top. */
  lemma ExactAfterReparent(z: Tree, y: Tree, x: Tree)
    requires z.Node? && y.Node? && x.Node?
    requires y == z.left || y == z.right
    requires x == y.left || x == y.right
    ensures ExactBelow(z) ==>
      && ExactBelow(z.left) && ExactBelow(z.right) && ExactBelow(y.left) && ExactBelow(y.right)
      && ExactBelow(x.left) && ExactBelow(x.right)
  {
    if ExactBelow(z) {
      ExactIsExactBelow(z.left, z.value);
      ExactIsExactBelow(z.right, z.value);
      ExactIsExactBelow(y.left, y.value);
      ExactIsExactBelow(y.right, y.value);
      ExactIsExactBelow(x.left, x.value);
      ExactIsExactBelow(x.right, x.value);
    }
  }

  lemma ExactIsExactBelow(t: Tree, p: Option<int>)
    ensures ParentsExact(t, p) ==> ExactBelow(t)
  {
  }

  /**
   * Lines 126-135 of the loop body: a balanced node is left alone; otherwise the subtree is
   * restructured at taller_child(taller_child(node)). `onLeft` says whether the node is the
   * root or its parent's left child, for the tie-break of the first taller_child; the second
   * is asked of a child whose side is known.
   */
  function Fix(n: Tree, onLeft: bool): (r: Tree)
    requires n.Node? && AllValued(n)
    ensures r.Node? && AllValued(r) && r.parent == n.parent
    ensures Inorder(r) == Inorder(n)
    ensures ExactBelow(n) ==> ExactBelow(r)
    ensures IsBalanced(n) ==> r == n
  {
    if IsBalanced(n) then n
    else
      var yLeft := TallerIsLeft(n, onLeft);
      var y := TallerChild(n, onLeft);
      var xLeft := TallerIsLeft(y, yLeft);
      var x := TallerChild(y, yLeft);
      Restructure(n, yLeft, xLeft)
  }

  // ================================================================ the path to the root

  /**
   * One step of the path to the root: the parent's value, the subtree on the other side and
   * the parent's own parent link. FromLeft: the focus is the parent's left child.
   */
  datatype Crumb =
    | FromLeft(value: int, right: Tree, parent: Option<int>)
    | FromRight(value: int, left: Tree, parent: Option<int>)
  {
    function Sibling(): Tree
    {
      if FromLeft? then right else left
    }
  }

  /** Rebuilds the parent from a crumb and the subtree in focus, pointing the focus at its parent. */
  function Attach(c: Crumb, t: Tree): (r: Tree)
    ensures r.Node? && r.value == Some(c.value) && r.parent == c.parent
  {
    match c
    case FromLeft(x, right, p) => Node(Some(x), Reparent(t, Some(x)), right, p)
    case FromRight(x, left, p) => Node(Some(x), left, Reparent(t, Some(x)), p)
  }

  /** The whole tree around the focus `t`; `path` lists the crumbs root first. */
  function Plug(t: Tree, path: seq<Crumb>): (r: Tree)
    ensures path != [] ==> r.Node? && r.parent == path[0].parent
    ensures path == [] ==> r == t
  {
    if path == [] then t else Attach(path[0], Plug(t, path[1..]))
  }

  /** Every node of the subtrees beside the path holds a value. */
  ghost predicate PathValued(path: seq<Crumb>)
  {
    forall i :: 0 <= i < |path| ==> AllValued(path[i].Sibling())
  }

  /** The subtrees beside the path have exact links under their crumb. */
  ghost predicate PathExact(path: seq<Crumb>)
  {
    forall i :: 0 <= i < |path| ==> ParentsExact(path[i].Sibling(), Some(path[i].value))
  }

  /**
   * The search path to `v`: the node the search stops at (Nil when `v` is absent) and the
   * crumbs of the nodes it passes, root first.
   */
  function Focus(t: Tree, v: int): (r: (Tree, seq<Crumb>))
    requires AllValued(t)
    ensures r.0 == Search(t, v)
    ensures AllValued(r.0) && PathValued(r.1)
    ensures r.1 != [] ==> t.Node? && r.1[0].parent == t.parent
    ensures ExactBelow(t) ==> ExactBelow(r.0) && PathExact(r.1) && Plug(r.0, r.1) == t
  {
    if t.Nil? || t.value.value == v then (t, [])
    else
      var x := t.value.value;
      var c := if v < x then FromLeft(x, t.right, t.parent) else FromRight(x, t.left, t.parent);
      var sub := if v < x then t.left else t.right;
      var (n, p) := Focus(sub, v);
      assert ExactBelow(t) ==> ExactBelow(sub) && Reparent(sub, Some(x)) == sub by {
        ExactIsExactBelow(sub, t.value);
      }
      assert Plug(n, [c] + p) == Attach(c, Plug(n, p)) by {
        assert ([c] + p)[1..] == p;
      }
      (n, [c] + p)
  }

  /** Plugging into a longer path is attaching to the innermost crumb first. */
  lemma {:induction false} PlugSnoc(t: Tree, path: seq<Crumb>, c: Crumb)
    ensures Plug(t, path + [c]) == Plug(Attach(c, t), path)
    decreases |path|
  {
    if path == [] {
      assert ([] + [c])[1..] == [];
    } else {
      assert (path + [c])[1..] == path[1..] + [c];
      PlugSnoc(t, path[1..], c);
    }
  }

  // ================================================================ the rebalance loop

  /** Whether the last node of the path is the root or its parent's left child. */
  function OnLeft(path: seq<Crumb>): bool
  {
    path == [] || path[|path| - 1].FromLeft?
  }

  /** What the loop computes from the focus `t` and the crumbs `up` still above it. */
  function RebalanceUp(t: Tree, up: seq<Crumb>): (r: Tree)
    requires AllValued(t) && PathValued(up)
    ensures AllValued(r)
    ensures Inorder(r) == Inorder(Plug(t, up))
    ensures ExactBelow(t) && PathExact(up) ==> ExactBelow(r)
    ensures up == [] ==> r == t
    ensures up != [] ==> r.Node? && r.parent == up[0].parent
    decreases |up|
  {
    if up == [] then t
    else
      var rest := up[..|up| - 1];
      var c := up[|up| - 1];
      var n := Attach(c, t);
      assert up == rest + [c];
      PlugSnoc(t, rest, c);
      PlugSameInorder(Fix(n, OnLeft(rest)), n, rest);
      assert AllValued(c.Sibling());
      assert ExactBelow(t) && PathExact(up) ==> ExactBelow(n) by {
        if ExactBelow(t) && PathExact(up) {
          ReparentExact(t, Some(c.value));
        }
      }
      RebalanceUp(Fix(n, OnLeft(rest)), rest)
  }

  /**
   * rebalance(_:): from the node in focus, climbs parent by parent until the root and
   * restructures every ancestor found unbalanced.
   */
  method Rebalance(node: Tree, path: seq<Crumb>) returns (t: Tree)
    requires AllValued(node) && PathValued(path)
    ensures t == RebalanceUp(node, path)
  {
    var cur, up := node, path;
    while up != []
      invariant AllValued(cur) && PathValued(up)
      invariant RebalanceUp(cur, up) == RebalanceUp(node, path)
      decreases |up|
    {
      var parent := Attach(up[|up| - 1], cur);
      up := up[..|up| - 1];
      cur := Fix(parent, OnLeft(up));
    }
    return cur;
  }

  // ================================================================ the loop as written

  /**
   * Where a node the loop handles comes from: a node of the tree, which the search tree's put
   * and init make with Node(value:) (BinarySearchTree.swift:47, 287), or an AVLNode copy.
   */
  datatype Origin = Stored | Copied

  /**
   * The child on one side of a node. AVLNode's 4-argument init replaces its left child by a
   * copy, which does the same to its own left child, but keeps the right child it was given
   * (AVLTree.swift:36-45); the children of a node of the tree are nodes of the tree.
   */
  function ChildOrigin(o: Origin, left: bool): (r: Origin)
    ensures r == Copied <==> o == Copied && left
  {
    if o == Copied && left then Copied else Stored
  }

  /**
   * The node restructure(x) leaves as the right child of its result, c of a < b < c, when the
   * loop's copy of the unbalanced node is at line 129 and x is taller_child(taller_child(copy)).
   * restructure reaches y and z through x's parent links, which point at nodes of the tree:
   * c is z when y is z's left child, y when x is the left child of a right child y, and x when
   * both are right children, the right child of a right child. It is a node of the tree in
   * every case, so the cast `as! AVLNode` at line 91, which line 133 reaches, fails.
   */
  function RestructuredRight(yLeft: bool, xLeft: bool): (c: Origin)
    ensures c == Stored
  {
    var y := ChildOrigin(Copied, yLeft);
    var x := ChildOrigin(y, xLeft);
    if yLeft then Stored
    else if xLeft then Stored
    else x
  }

  /**
   * rebalance(_:) as written: the climb of RebalanceUp until the first node Fix would
   * restructure. There restructure runs and line 133 casts its result's right child, a node of
   * the tree (RestructuredRight), to AVLNode, which traps: None. When nothing needs
   * restructuring, the loop only copies nodes, so the tree stays the one it was given.
   */
  function RebalanceUpAsWritten(t: Tree, up: seq<Crumb>): (r: Option<Tree>)
    requires AllValued(t) && PathValued(up)
    ensures r.Some? ==> r.value == Plug(t, up) && r.value == RebalanceUp(t, up)
    decreases |up|
  {
    if up == [] then Some(t)
    else
      var rest := up[..|up| - 1];
      var c := up[|up| - 1];
      var n := Attach(c, t);
      assert up == rest + [c];
      assert AllValued(c.Sibling());
      if !IsBalanced(n) then None
      else
        PlugSnoc(t, rest, c);
        RebalanceUpAsWritten(n, rest)
  }

  lemma {:induction false} PlugSameInorder(a: Tree, b: Tree, path: seq<Crumb>)
    requires Inorder(a) == Inorder(b)
    ensures Inorder(Plug(a, path)) == Inorder(Plug(b, path))
    decreases |path|
  {
    if path != [] {
      PlugSameInorder(a, b, path[1..]);
    }
  }

  lemma ReparentExact(t: Tree, p: Option<int>)
    ensures ExactBelow(t) ==> ParentsExact(Reparent(t, p), p)
  {
  }
}
