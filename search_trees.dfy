/**
 * The recursive operations of BinarySearchTree.swift over the node graph: search, insert,
 * delete, minimum, maximum, height, depth and the three traversals, with the invariants
 * they keep.
 */
module SearchTrees {
  import opened Wrappers
  import opened Nodes

  // ================================================================ contents and invariants

  /** The values held by the nodes of `t`. */
  ghost function Keys(t: Tree): set<int>
  {
    match t
    case Nil => {}
    case Node(v, l, r, _) => (if v.Some? then {v.value} else {}) + Keys(l) + Keys(r)
  }

  /** Every node of `t` holds a value. */
  predicate AllValued(t: Tree)
  {
    t.Nil? || (t.value.Some? && AllValued(t.left) && AllValued(t.right))
  }

  /**
   * The BST property: every node holds a value, greater than every value in its left
   * subtree and less than every value in its right subtree (so no value occurs twice).
   */
  ghost predicate Ordered(t: Tree)
  {
    t.Nil? ||
    (&& AllValued(t)
     && Ordered(t.left) && Ordered(t.right)
     && (forall x :: x in Keys(t.left) ==> x < t.value.value)
     && (forall x :: x in Keys(t.right) ==> t.value.value < x))
  }

  /** A single node holding `v` is ordered; hanging from nothing its links are exact. */
  lemma LeafOrdered(v: int, p: Option<int>)
    ensures Keys(Node(Some(v), Nil, Nil, p)) == {v}
    ensures Ordered(Node(Some(v), Nil, Nil, p)) && ParentsExact(Node(Some(v), Nil, Nil, p), p)
    ensures p.None? ==> LinksUp(Node(Some(v), Nil, Nil, p), {})
  {
    assert Keys(Nil) == {} && AllValued(Nil) && Ordered(Nil);
  }

  /** Number of nodes. */
  function Size(t: Tree): nat
  {
    if t.Nil? then 0 else 1 + Size(t.left) + Size(t.right)
  }

  /** Sets the parent link of the top node of `t`. */
  function Reparent(t: Tree, p: Option<int>): (r: Tree)
    ensures r.Nil? <==> t.Nil?
    ensures r.Node? ==> r.parent == p
    ensures Height(r) == Height(t)
    ensures AllValued(t) ==> AllValued(r)
  {
    if t.Nil? then Nil else t.(parent := p)
  }

  /** Re-pointing the top node's parent link changes neither the values nor their order. */
  lemma ReparentKeepsContents(t: Tree, p: Option<int>)
    ensures Skeleton(Reparent(t, p)) == Skeleton(t)
    ensures Keys(Reparent(t, p)) == Keys(t) && Size(Reparent(t, p)) == Size(t)
    ensures Inorder(Reparent(t, p)) == Inorder(t)
    ensures Ordered(t) ==> Ordered(Reparent(t, p))
  {
  }

  /**
   * Parent links point upward: the top node has no parent link when `above` is empty, and
   * otherwise every node's link names one of its proper ancestors (`above` collects their values).
   * This is what insert and delete keep; delete may skip a generation.
   */
  ghost predicate LinksUp(t: Tree, above: set<int>)
  {
    t.Nil? ||
    (&& t.value.Some?
     && (if above == {} then t.parent.None? else t.parent.Some? && t.parent.value in above)
     && LinksUp(t.left, above + {t.value.value})
     && LinksUp(t.right, above + {t.value.value}))
  }

  /** Parent links are exact: the top node links to `p`, and every child links to its own parent. */
  ghost predicate ParentsExact(t: Tree, p: Option<int>)
  {
    t.Nil? || (t.parent == p && ParentsExact(t.left, t.value) && ParentsExact(t.right, t.value))
  }

  lemma {:induction false} ExactLinksPointUp(t: Tree, p: Option<int>, above: set<int>)
    requires AllValued(t) && ParentsExact(t, p)
    requires p.None? <==> above == {}
    requires p.Some? ==> p.value in above
    ensures LinksUp(t, above)
  {
    if t.Node? {
      ExactLinksPointUp(t.left, t.value, above + {t.value.value});
      ExactLinksPointUp(t.right, t.value, above + {t.value.value});
    }
  }

  /** The tree with every parent link erased: the child structure and the values. */
  function Skeleton(t: Tree): (r: Tree)
    ensures Size(r) == Size(t)
  {
    if t.Nil? then Nil else Node(t.value, Skeleton(t.left), Skeleton(t.right), None)
  }

  // ================================================================ search

  /**
   * search(indexNode:value:): nil on an absent subtree, the node when its value is `v`,
   * otherwise the search goes on left when `v` is smaller and right when it is larger.
   * Every visited value is force-unwrapped, hence `AllValued`.
   */
  function Search(t: Tree, v: int): (r: Tree)
    requires AllValued(t)
    ensures r.Nil? || (r.value == Some(v) && v in Keys(t) && AllValued(r))
    ensures Ordered(t) ==> (r.Node? <==> v in Keys(t))
    ensures Ordered(t) ==> Ordered(r)
    ensures Keys(r) <= Keys(t)
  {
    if t.Nil? then Nil
    else if t.value.value == v then t
    else if v < t.value.value then Search(t.left, v)
    else if v > t.value.value then Search(t.right, v)
    else Nil
  }

  /**
   * The AVL code reads a child's height as height(child.value): a search from the root for
   * the child's value, then the height of what it finds. In an ordered tree that search finds
   * the child itself, so the lookup gives the child's own height.
   */
  lemma {:induction false} ChildLookup(t: Tree, x: int)
    requires Ordered(t) && Search(t, x).Node?
    ensures var n := Search(t, x);
      && (n.left.Node? ==> n.left.value.Some? && Search(t, n.left.value.value) == n.left)
      && (n.right.Node? ==> n.right.value.Some? && Search(t, n.right.value.value) == n.right)
  {
    var n := Search(t, x);
    if t.value.value == x {
      assert t.left.Node? ==> t.left.value.value in Keys(t.left);
      assert t.right.Node? ==> t.right.value.value in Keys(t.right);
    } else {
      var c := if x < t.value.value then t.left else t.right;
      ChildLookup(c, x);
      assert n == Search(c, x);
      assert Keys(n) <= Keys(c);
    }
  }

  // ================================================================ insert

  /**
   * insert(node:presentNode:): descends from `t` (never nil) and attaches a new node holding
   * `v` at the first empty left slot (when `v` is smaller) or right slot (when larger), with its
   * parent link set. When a node already holds `v` nothing is attached.
   */
  function Insert(t: Tree, v: int): (r: Tree)
    requires t.Node? && AllValued(t)
    ensures r.Node? && AllValued(r) && r.value == t.value && r.parent == t.parent
    ensures Keys(r) == Keys(t) + {v}
    ensures Search(t, v).Node? ==> r == t
    ensures Search(t, v).Nil? ==> Size(r) == Size(t) + 1
    ensures Ordered(t) ==> Ordered(r)
  {
    var x := t.value.value;
    if v < x then
      if t.left.Nil? then t.(left := Node(Some(v), Nil, Nil, Some(x)))
      else t.(left := Insert(t.left, v))
    else if v > x then
      if t.right.Nil? then t.(right := Node(Some(v), Nil, Nil, Some(x)))
      else t.(right := Insert(t.right, v))
    else t
  }

  /** After an insert the search for `v` finds a node holding `v`. */
  lemma {:induction false} InsertThenSearch(t: Tree, v: int)
    requires t.Node? && AllValued(t)
    ensures Search(Insert(t, v), v).Node?
  {
    var x := t.value.value;
    if v < x && t.left.Node? {
      InsertThenSearch(t.left, v);
    } else if v > x && t.right.Node? {
      InsertThenSearch(t.right, v);
    }
  }

  lemma {:induction false} InsertKeepsLinksUp(t: Tree, v: int, above: set<int>)
    requires t.Node? && AllValued(t) && LinksUp(t, above)
    ensures LinksUp(Insert(t, v), above)
  {
    var x := t.value.value;
    if v < x && t.left.Node? {
      InsertKeepsLinksUp(t.left, v, above + {x});
    } else if v > x && t.right.Node? {
      InsertKeepsLinksUp(t.right, v, above + {x});
    }
  }

  lemma {:induction false} InsertKeepsParentsExact(t: Tree, v: int, p: Option<int>)
    requires t.Node? && AllValued(t) && ParentsExact(t, p)
    ensures ParentsExact(Insert(t, v), p)
  {
    var x := t.value.value;
    if v < x && t.left.Node? {
      InsertKeepsParentsExact(t.left, v, t.value);
    } else if v > x && t.right.Node? {
      InsertKeepsParentsExact(t.right, v, t.value);
    }
  }

  /** Inserts the values of `s` one after another, in order. */
  function InsertAll(t: Tree, s: seq<int>): (r: Tree)
    requires t.Node? && AllValued(t)
    ensures r.Node? && AllValued(r) && r.value == t.value && r.parent == t.parent
    ensures forall x :: x in Keys(r) <==> x in Keys(t) || x in s
    ensures Ordered(t) ==> Ordered(r)
    decreases |s|
  {
    if s == [] then t else InsertAll(Insert(t, s[0]), s[1..])
  }

  lemma {:induction false} InsertAllKeepsParentsExact(t: Tree, s: seq<int>, p: Option<int>)
    requires t.Node? && AllValued(t) && ParentsExact(t, p)
    ensures ParentsExact(InsertAll(t, s), p)
    decreases |s|
  {
    if s != [] {
      InsertKeepsParentsExact(t, s[0], p);
      InsertAllKeepsParentsExact(Insert(t, s[0]), s[1..], p);
    }
  }

  // ================================================================ delete, as written

  /**
   * delete(indexNode:value:) as the source writes it: when the node holding `v` is found, its
   * children's parent links are redirected to its own parent, and nothing else changes: the
   * parent's child slot still holds the node. The parent is force-unwrapped and the table
   * updated by the caller, BinarySearchTree.Remove.
   */
  function Unlink(t: Tree, v: int): (r: Tree)
    requires AllValued(t)
    ensures Skeleton(r) == Skeleton(t)
    ensures AllValued(r) && Keys(r) == Keys(t)
    ensures Ordered(t) ==> Ordered(r)
    ensures Search(t, v).Node? ==> Search(r, v).Node?
  {
    if t.Nil? then Nil
    else if t.value.value == v then
      ReparentKeepsContents(t.left, t.parent);
      ReparentKeepsContents(t.right, t.parent);
      t.(left := Reparent(t.left, t.parent), right := Reparent(t.right, t.parent))
    else if v < t.value.value then t.(left := Unlink(t.left, v))
    else if v > t.value.value then t.(right := Unlink(t.right, v))
    else t
  }

  lemma {:induction false} UnlinkKeepsLinksUp(t: Tree, v: int, above: set<int>)
    requires AllValued(t) && LinksUp(t, above)
    requires Search(t, v).Node? ==> Search(t, v).parent.Some?
    ensures LinksUp(Unlink(t, v), above)
  {
    if t.Node? {
      var x := t.value.value;
      if x == v {
        ReparentKeepsLinksUp(t.left, t.parent, above + {x});
        ReparentKeepsLinksUp(t.right, t.parent, above + {x});
      } else if v < x {
        UnlinkKeepsLinksUp(t.left, v, above + {x});
      } else if v > x {
        UnlinkKeepsLinksUp(t.right, v, above + {x});
      }
    }
  }

  /** A subtree whose top is linked to any node above it still has its links pointing up. */
  lemma ReparentKeepsLinksUp(t: Tree, p: Option<int>, above: set<int>)
    requires LinksUp(t, above) && p.Some? && p.value in above
    ensures LinksUp(Reparent(t, p), above)
  {
  }

  // ================================================================ minimum and maximum

  /** minimum(_:): follows left links until there is none. */
  function Minimum(t: Tree): (r: Tree)
    requires t.Node?
    ensures r.Node? && r.left.Nil?
    ensures Ordered(t) ==> r.value.Some? && r.value.value in Keys(t)
    ensures Ordered(t) ==> forall x :: x in Keys(t) ==> r.value.value <= x
  {
    if t.left.Nil? then t else Minimum(t.left)
  }

  /** maximum(_:): follows right links until there is none. */
  function Maximum(t: Tree): (r: Tree)
    requires t.Node?
    ensures r.Node? && r.right.Nil?
    ensures Ordered(t) ==> r.value.Some? && r.value.value in Keys(t)
    ensures Ordered(t) ==> forall x :: x in Keys(t) ==> x <= r.value.value
  {
    if t.right.Nil? then t else Maximum(t.right)
  }

  // ================================================================ height

  function Max(a: int, b: int): int
  {
    if a < b then b else a
  }

  /** height(_:): 0 for an absent or valueless node, otherwise 1 + the larger child height. */
  function Height(t: Tree): (h: nat)
    ensures AllValued(t) ==> (h == 0 <==> t.Nil?)
  {
    if t.Nil? || t.value.None? then 0 else 1 + Max(Height(t.left), Height(t.right))
  }

  function Pow2(n: nat): nat
  {
    if n == 0 then 1 else 2 * Pow2(n - 1)
  }

  /**
   * The height counts the nodes on a longest downward path: a tree of height h has at least
   * h and fewer than 2^h nodes.
   */
  lemma {:induction false} HeightBounds(t: Tree)
    requires AllValued(t)
    ensures Height(t) <= Size(t) < Pow2(Height(t))
  {
    if t.Node? {
      HeightBounds(t.left);
      HeightBounds(t.right);
      PowMonotone(Height(t.left), Height(t) - 1);
      PowMonotone(Height(t.right), Height(t) - 1);
    }
  }

  lemma {:induction false} PowMonotone(a: nat, b: nat)
    requires a <= b
    ensures Pow2(a) <= Pow2(b)
    decreases b
  {
    if a < b {
      PowMonotone(a, b - 1);
    }
  }

  // ================================================================ depth

  /**
   * The nodes the search for `v` passes before it reaches the node holding `v`: that
   * node's ancestors, root first.
   */
  function Ancestors(t: Tree, v: int): (a: seq<Tree>)
    requires AllValued(t)
    ensures forall i :: 0 <= i < |a| ==> a[i].Node? && a[i].value.Some?
  {
    if t.Nil? || t.value.value == v then []
    else if v < t.value.value then [t] + Ancestors(t.left, v)
    else [t] + Ancestors(t.right, v)
  }

  /** The last position in `s` of a node holding `p`, or -1. */
  function LastIndexOf(s: seq<Tree>, p: int): (k: int)
    ensures -1 <= k < |s|
    ensures k >= 0 ==> s[k].Node? && s[k].value == Some(p)
    ensures k < 0 ==> forall i :: 0 <= i < |s| ==> !(s[i].Node? && s[i].value == Some(p))
  {
    if s == [] then -1
    else if s[|s| - 1].Node? && s[|s| - 1].value == Some(p) then |s| - 1
    else LastIndexOf(s[..|s| - 1], p)
  }

  /**
   * depth(_:_:): counts the parent links followed from `n` until a node without parent.
   * `above` holds the nodes above `n`, root first; following a parent link reaches the one
   * holding the parent's value.
   */
  function DepthWalk(above: seq<Tree>, n: Tree): nat
    decreases |above|
  {
    if n.Nil? || n.parent.None? then 0
    else
      var k := LastIndexOf(above, n.parent.value);
      if k < 0 then 0 else 1 + DepthWalk(above[..k], above[k])
  }

  /** depth(_:) of the tree rooted at `t`: the walk from the node get(v) returns; 0 when absent. */
  function Depth(t: Tree, v: int): nat
    requires AllValued(t)
  {
    DepthWalk(Ancestors(t, v), Search(t, v))
  }

  /** The root has depth 0, and so has an absent value. */
  lemma DepthOfRootAndAbsent(t: Tree, v: int)
    requires Ordered(t) && t.Node? && t.parent.None?
    ensures AllValued(t) && Depth(t, t.value.value) == 0
    ensures AllValued(t) && (v !in Keys(t) ==> Depth(t, v) == 0)
  {
  }

  /** Each step of the walk goes strictly up, so a depth never exceeds the number of ancestors. */
  lemma {:induction false} DepthWalkBound(above: seq<Tree>, n: Tree)
    ensures DepthWalk(above, n) <= |above|
    decreases |above|
  {
    if n.Node? && n.parent.Some? {
      var k := LastIndexOf(above, n.parent.value);
      if k >= 0 {
        DepthWalkBound(above[..k], above[k]);
      }
    }
  }

  /** `a` is a chain of exact parent links hanging from `p`: each node links to the one before it. */
  ghost predicate ExactChain(a: seq<Tree>, p: Option<int>)
  {
    && (forall i :: 0 <= i < |a| ==> a[i].Node?)
    && (|a| > 0 ==> a[0].parent == p)
    && (forall i :: 0 < i < |a| ==> a[i].parent == a[i - 1].value)
  }

  lemma {:induction false} DepthWalkOnExactChain(a: seq<Tree>, n: Tree)
    requires ExactChain(a, None)
    requires forall i :: 0 <= i < |a| ==> a[i].value.Some?
    requires n.Node? && n.parent == (if a == [] then None else a[|a| - 1].value)
    ensures DepthWalk(a, n) == |a|
    decreases |a|
  {
    if a != [] {
      var k := LastIndexOf(a, n.parent.value);
      assert k == |a| - 1;
      DepthWalkOnExactChain(a[..k], a[k]);
    }
  }

  lemma {:induction false} AncestorsExact(t: Tree, v: int, p: Option<int>)
    requires AllValued(t) && ParentsExact(t, p) && Search(t, v).Node?
    ensures ExactChain(Ancestors(t, v), p)
    ensures var a := Ancestors(t, v);
      Search(t, v).parent == (if a == [] then p else a[|a| - 1].value)
  {
    var x := t.value.value;
    if x != v {
      var c := if v < x then t.left else t.right;
      AncestorsExact(c, v, t.value);
      var a := Ancestors(c, v);
      assert Ancestors(t, v) == [t] + a;
    }
  }

  /**
   * While parent links are exact (no delete has redirected them), the depth of a present
   * value is the number of edges from the root down to its node.
   */
  lemma DepthCountsEdges(t: Tree, v: int)
    requires Ordered(t)
    ensures AllValued(t)
    ensures ParentsExact(t, None) && v in Keys(t) ==> Depth(t, v) == |Ancestors(t, v)|
  {
    if ParentsExact(t, None) && v in Keys(t) {
      AncestorsExact(t, v, None);
      DepthWalkOnExactChain(Ancestors(t, v), Search(t, v));
    }
  }

  // ================================================================ traversals

  /** preorder(_:operation:): the values of the visited nodes, node before left before right. */
  function Preorder(t: Tree): seq<Option<int>>
  {
    if t.Nil? then [] else [t.value] + Preorder(t.left) + Preorder(t.right)
  }

  /** inorder(_:operation:): left, node, right. */
  function Inorder(t: Tree): seq<Option<int>>
  {
    if t.Nil? then [] else Inorder(t.left) + [t.value] + Inorder(t.right)
  }

  /** postorder(_:operation:): left, right, node. */
  function Postorder(t: Tree): seq<Option<int>>
  {
    if t.Nil? then [] else Postorder(t.left) + Postorder(t.right) + [t.value]
  }

  /** Each traversal visits every node exactly once: the three visit the same multiset of Size(t) nodes. */
  lemma {:induction false} TraversalsVisitEachNodeOnce(t: Tree)
    ensures |Preorder(t)| == |Inorder(t)| == |Postorder(t)| == Size(t)
    ensures multiset(Preorder(t)) == multiset(Inorder(t)) == multiset(Postorder(t))
  {
    if t.Node? {
      TraversalsVisitEachNodeOnce(t.left);
      TraversalsVisitEachNodeOnce(t.right);
    }
  }

  /** Strictly ascending sequence of present values. */
  ghost predicate Ascending(s: seq<Option<int>>)
  {
    && (forall i :: 0 <= i < |s| ==> s[i].Some?)
    && (forall i, j :: 0 <= i < j < |s| ==> s[i].value < s[j].value)
  }

  /** The in-order sequence lists exactly the values of a valued tree. */
  lemma {:induction false} InorderLists(t: Tree)
    requires AllValued(t)
    ensures forall i :: 0 <= i < |Inorder(t)| ==> Inorder(t)[i].Some?
    ensures forall x :: x in Keys(t) <==> Some(x) in Inorder(t)
  {
    if t.Node? {
      InorderLists(t.left);
      InorderLists(t.right);
    }
  }

  /** Joining two ascending sequences around a value between them gives an ascending sequence. */
  lemma AscendingJoin(l: seq<Option<int>>, x: int, r: seq<Option<int>>)
    requires Ascending(l) && Ascending(r)
    requires forall y :: Some(y) in l ==> y < x
    requires forall y :: Some(y) in r ==> x < y
    ensures Ascending(l + [Some(x)] + r)
  {
    var s := l + [Some(x)] + r;
    forall i, j | 0 <= i < j < |s| ensures s[i].Some? && s[j].Some? && s[i].value < s[j].value {
      if j < |l| {
        assert s[i] == l[i] && s[j] == l[j];
      } else if j == |l| {
        assert s[i] == l[i] && l[i] in l;
      } else if i < |l| {
        assert s[i] == l[i] && l[i] in l;
        assert s[j] == r[j - |l| - 1] && r[j - |l| - 1] in r;
      } else if i == |l| {
        assert s[j] == r[j - |l| - 1] && r[j - |l| - 1] in r;
      } else {
        assert s[i] == r[i - |l| - 1] && s[j] == r[j - |l| - 1];
      }
    }
  }

  /** The parts of an ascending sequence split around a value are ascending and on either side of it. */
  lemma AscendingSplit(l: seq<Option<int>>, x: Option<int>, r: seq<Option<int>>)
    requires Ascending(l + [x] + r)
    ensures x.Some? && Ascending(l) && Ascending(r)
    ensures forall y :: Some(y) in l ==> y < x.value
    ensures forall y :: Some(y) in r ==> x.value < y
  {
    var s := l + [x] + r;
    assert s[|l|] == x;
    forall i | 0 <= i < |l| ensures l[i].Some? && l[i].value < x.value {
      assert s[i] == l[i];
    }
    forall i | 0 <= i < |r| ensures r[i].Some? && x.value < r[i].value {
      assert s[|l| + 1 + i] == r[i];
    }
    forall i, j | 0 <= i < j < |l| ensures l[i].value < l[j].value {
      assert s[i] == l[i] && s[j] == l[j];
    }
    forall i, j | 0 <= i < j < |r| ensures r[i].value < r[j].value {
      assert s[|l| + 1 + i] == r[i] && s[|l| + 1 + j] == r[j];
    }
  }

  /** The BST property holds exactly when the in-order traversal is strictly ascending. */
  lemma {:induction false} OrderedIffInorderAscending(t: Tree)
    ensures Ordered(t) <==> Ascending(Inorder(t))
  {
    if t.Node? {
      OrderedIffInorderAscending(t.left);
      OrderedIffInorderAscending(t.right);
      var l, r := Inorder(t.left), Inorder(t.right);
      assert Inorder(t) == l + [t.value] + r;
      if Ordered(t) {
        InorderLists(t.left);
        InorderLists(t.right);
        AscendingJoin(l, t.value.value, r);
      }
      if Ascending(Inorder(t)) {
        AscendingSplit(l, t.value, r);
        ValuedFromInorder(t.left);
        ValuedFromInorder(t.right);
        InorderLists(t.left);
        InorderLists(t.right);
      }
    }
  }

  /** A tree whose in-order sequence holds only present values has a value at every node. */
  lemma {:induction false} ValuedFromInorder(t: Tree)
    requires forall i :: 0 <= i < |Inorder(t)| ==> Inorder(t)[i].Some?
    ensures AllValued(t)
  {
    if t.Node? {
      var l, r := Inorder(t.left), Inorder(t.right);
      assert Inorder(t) == l + [t.value] + r;
      assert Inorder(t)[|l|] == t.value;
      forall i | 0 <= i < |l| ensures l[i].Some? { assert Inorder(t)[i] == l[i]; }
      forall i | 0 <= i < |r| ensures r[i].Some? { assert Inorder(t)[|l| + 1 + i] == r[i]; }
      ValuedFromInorder(t.left);
      ValuedFromInorder(t.right);
    }
  }
}
