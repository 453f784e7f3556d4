/**
 * class AVLTree of Sources/CoreDataStructures/AVLTree.swift: a binary search tree whose put
 * and remove delegate to the search tree and then rebuild it around its median value with
 * balance().
 *
 * Class AvlTree below is the rebuild as intended: resetRoot puts the old values back with the
 * search tree's own put. As written, that put is dispatched to the override, which calls
 * balance() again; PutCall and RemoveCall model that re-entry and show it never ends.
 */
module RebuildAvl {
  import opened Wrappers
  import opened Nodes
  import opened SearchTrees
  import opened Bst
  import opened Rebuild

  class AvlTree {
    /** The binary search tree the class extends. */
    const base: BinarySearchTree

    /**
     * A valid search tree whose values are exactly the table's: every rebuild puts back the
     * table and nothing else, so a removed value does not linger in the tree.
     */
    ghost predicate Valid()
      reads this, base
    {
      && base.Valid()
      && (forall x :: x in Keys(base.root) <==> x in base.table)
    }

    /** init(): an empty tree. */
    constructor ()
      ensures Valid() && fresh(base)
      ensures base.root == EmptyNode() && base.table == []
    {
      base := new BinarySearchTree();
    }

    /** init(rootNodeValue:), inherited: a single root node. */
    constructor WithRoot(v: int)
      ensures Valid() && fresh(base)
      ensures base.root == NewNode(Some(v)) && base.table == [v]
    {
      base := new BinarySearchTree.WithRoot(v);
    }

    /**
     * put(_:): the search tree's errors propagate before balance() runs and change nothing.
     * Otherwise the values are the old ones and `v`, rebuilt around the median of the
     * sorted values.
     */
    method Put(v: int) returns (o: Outcome<TreeError>)
      requires Valid()
      modifies base
      ensures Valid()
      ensures old(base.root.value.None?) ==> o == Fail(NilRootError) && unchanged(base)
      ensures old(base.root.value.Some?) && v in old(base.table) ==> o == Fail(DuplicateValueError) && unchanged(base)
      ensures old(base.root.value.Some?) && v !in old(base.table) ==>
        && o == Pass
        && multiset(base.table) == multiset(old(base.table)) + multiset{v}
        && (forall x :: x in Keys(base.root) <==> x in old(Keys(base.root)) || x == v)
        && var s := Sort(old(base.table) + [v]); var m := s[|s| / 2];
          base.root == InsertAll(NewNode(Some(m)), Without(s, m))
    {
      ghost var oldTable, oldKeys := base.table, Keys(base.root);
      o := base.Put(v);
      if o.Pass? {
        assert v !in oldKeys && base.table == oldTable + [v];
        assert multiset(base.table) == multiset(oldTable) + multiset{v};
        base.Balance();
      }
    }

    /**
     * remove(_:): InvalidNodeError propagates before balance() runs and changes nothing.
     * Otherwise the node holding `v` is returned and the remaining values are rebuilt, so
     * `v` is gone from the tree as well as from the table. The search tree's remove traps on
     * a valueless root and on the root's own value.
     */
    method Remove(v: int) returns (r: Result<Tree, TreeError>)
      requires Valid() && base.root.value.Some?
      requires v in Keys(base.root) ==> base.root.value != Some(v)
      modifies base
      ensures Valid()
      ensures v !in old(Keys(base.root)) ==> r == Err(InvalidNodeError) && unchanged(base)
      ensures v in old(Keys(base.root)) ==>
        && r.Ok? && r.value.Node? && r.value.value == Some(v)
        && multiset(base.table) == multiset(old(base.table)) - multiset{v}
        && (forall x :: x in Keys(base.root) <==> x in old(Keys(base.root)) && x != v)
        && var s := Sort(RemoveFirst(old(base.table), v)); var m := s[|s| / 2];
          base.root == InsertAll(NewNode(Some(m)), Without(s, m))
    {
      ghost var oldTable, oldKeys := base.table, Keys(base.root);
      r := base.Remove(v);
      if r.Ok? {
        assert v in oldTable && base.table == RemoveFirst(oldTable, v);
        assert base.root.value.value in base.table;
        ghost var table := base.table;
        base.Balance();
        assert forall x :: x in Keys(base.root) <==> x in table;
      }
    }
  }

  // ================================================================ put and remove, as written

  /**
   * The call resetRoot makes once balance() has rebuilt a table: the sorted table `s` gets the
   * root m = s[|s| / 2], the table becomes [m], and the least value other than m is put back
   * first. None when no other value is left to put back.
   */
  function Reentry(s: seq<int>): (next: Option<(seq<int>, int)>)
    requires s != []
    ensures next.Some? ==> next.value.0 == [s[|s| / 2]] && next.value.1 in s && next.value.1 != s[|s| / 2]
  {
    var m := s[|s| / 2];
    var rest := Without(s, m);
    if rest == [] then None else Some(([m], rest[0]))
  }

  /**
   * One call of the overriding put(_:) as written, on a valid tree whose table is `table` (the
   * root holds a value exactly when the table is not empty). The search tree's put throws
   * NilRootError or DuplicateValueError and the call returns: None. Otherwise balance() sorts
   * the table and sets root_node, whose didSet runs resetRoot, and resetRoot's first put is
   * dispatched to this override again before the call returns: Some of the table and the
   * value of that nested call.
   */
  function PutCall(table: seq<int>, v: int): (next: Option<(seq<int>, int)>)
    ensures table == [] || v in table ==> next.None?
    ensures next.Some? ==> |next.value.0| == 1 && next.value.1 !in next.value.0
  {
    if table == [] || v in table then None
    else Reentry(Sort(table + [v]))
  }

  /**
   * One call of the overriding remove(_:) as written, on a valid tree with table `table`, whose
   * values are the tree's. An absent value throws InvalidNodeError and the call returns: None.
   * Otherwise the value leaves the table, balance() rebuilds the rest and resetRoot's first put
   * is dispatched to the overriding put: Some of that nested call, None when nothing is put
   * back. The search tree's remove traps on the root's value, which the table always holds, so
   * a removed value leaves at least one other behind.
   */
  function RemoveCall(table: seq<int>, v: int): (next: Option<(seq<int>, int)>)
    requires v in table ==> |table| >= 2
    ensures v !in table ==> next.None?
    ensures next.Some? ==> |next.value.0| == 1 && next.value.1 !in next.value.0
  {
    if v !in table then None
    else Reentry(Sort(RemoveFirst(table, v)))
  }

  /** A sorted table of two or more distinct values puts back its least value first. */
  lemma ReentryPutsLeastBack(s: seq<int>)
    requires SortedAsc(s) && Distinct(s) && |s| >= 2
    ensures Reentry(s) == Some(([s[|s| / 2]], s[0])) && s[0] < s[|s| / 2]
  {
    var m := s[|s| / 2];
    assert s[0] <= m && s[0] != m;
    assert s == [s[0]] + s[1..];
  }

  /** A one-value table [m] receiving a smaller w: the nested call is put(w) on [m] again. */
  lemma PairCallsItself(m: int, w: int)
    requires w < m
    ensures PutCall([m], w) == Some(([m], w))
  {
    assert [m] + [w] == [m, w];
    assert SortedAsc([w, m]) && multiset([m, w]) == multiset([w, m]);
    SortIsTheSortedPermutation([m, w], [w, m]);
    ReentryPutsLeastBack([w, m]);
  }

  /**
   * put(_:) as written never returns once past the search tree's checks: it re-enters put with
   * a one-value table, and that call re-enters put with the very same table and value, so the
   * recursion repeats without end.
   */
  lemma PutRecursesForever(table: seq<int>, v: int)
    requires Distinct(table) && table != [] && v !in table
    ensures PutCall(table, v).Some?
    ensures var (t, w) := PutCall(table, v).value; PutCall(t, w) == Some((t, w))
  {
    var s := Sort(table + [v]);
    assert Distinct(table + [v]) by {
      assert forall i :: 0 <= i < |table| ==> (table + [v])[i] == table[i];
    }
    assert table[0] in s && v in s && table[0] != v;
    ReentryPutsLeastBack(s);
    PairCallsItself(s[|s| / 2], s[0]);
  }

  /**
   * remove(_:) as written returns exactly when at most one value remains; otherwise its
   * nested put re-enters itself with the same table and value without end.
   */
  lemma RemoveRecursesForever(table: seq<int>, v: int)
    requires Distinct(table) && v in table && |table| >= 2
    ensures RemoveCall(table, v).Some? <==> |table| >= 3
    ensures RemoveCall(table, v).Some? ==> var (t, w) := RemoveCall(table, v).value; PutCall(t, w) == Some((t, w))
  {
    var s := Sort(RemoveFirst(table, v));
    if |s| >= 2 {
      ReentryPutsLeastBack(s);
      PairCallsItself(s[|s| / 2], s[0]);
    } else {
      assert Without(s, s[0]) == [];
    }
  }

  /** AVLTree(44) and then put(17): the nested call is put(17) on the table [44], forever. */
  lemma PutSeventeenCallsItself()
    ensures PutCall([44], 17) == Some(([44], 17))
  {
    PairCallsItself(44, 17);
  }
}
