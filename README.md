# CoreDataStructures in Dafny

This project models the core of the Swift library CoreDataStructures and proves properties of the model. The core covers:

- the binary tree node (`Node`, Tree.swift);
- the binary search tree (`BinarySearchTree`): search, insert, delete, minimum and maximum, height, depth, the three traversals, the value table and its `balance()` rebuild;
- the two AVL drafts that extend it:
  - CoreDataStructures/Classes/AVLTree.swift rebalances bottom-up with `taller_child` and a trinode `restructure`;
  - Sources/CoreDataStructures/AVLTree.swift calls `balance()` after every `put` and `remove`. As written, `balance()` puts the values back through the overriding `put`, which calls `balance()` again without end;
- the doubly linked list (`LinkedList`), the array-backed `Queue` and the array-backed `Stack`. The two `Stack` files hold the same code.

Values are `int`, standing in for the generic `Comparable`/`Equatable` element type. A Swift trap, such as a force-unwrapped nil or an out-of-range array index, is a precondition of the member that would trap. A thrown error becomes a `Result` or `Outcome` value.

Modules, one per file:

- `Wrappers`: `Option`, `Result`, `Outcome`.
- `Nodes`: the node datatype. A node is a value `Tree`, and its parent link is recorded as the parent's value. Values are unique in one tree, so the value names the parent node. Also the comparison operators and the link predicates.
- `SearchTrees`: the recursive operations of the search tree as functions over `Tree`, with the invariants they keep:
  - `Ordered`: the search-tree property;
  - `ParentsExact`: every parent link is exact;
  - `LinksUp`: every parent link names some ancestor. This is all a delete as written keeps.
- `Bst`: class `BinarySearchTree`, with fields `root`, `table` and `count`, and its public operations as methods and functions.
- `HeightBalance`: `isBalanced` and the height-balance property, with the logarithmic height bound.
- `Rebalancing`: the textbook draft's heights, `taller_child`, the trinode restructuring and the `rebalance` loop. The loop is a method with a `while` loop over the path to the root, kept as a zipper.
- `InsertionBalance`: why the loop restores balance after an insertion.
- `TextbookAvl`: class `AvlTree` of the textbook draft, with `put` as intended. Also the `put` as written, which traps at the first restructure, and the `remove`, which never ends.
- `RebuildAvl`: class `AvlTree` of the rebuild draft as intended. Also the recursion of its `put` and `remove` as written.
- `Deletion`: the corrected delete, with in-order successor promotion.
- `Rebuild`: what `balance()` builds (chains), and the corrected median-split rebuild.
- `LinkedLists`: the list's node graph as an arena of cells addressed by position, the operations as functions on it, and class `LinkedList`, whose loops (`find`, `size`, `all`) are methods with invariants.
- `Queues`, `Stacks`: the two array-backed classes.

Where the code does not do what its own doc comments promise, the model states the code as written and adds a correction that keeps the promise (see Findings):

- The doc comment of `delete` (CoreDataStructures/Classes/BinarySearchTree.swift:78-79) says a found value is removed from the tree. The code only re-points the node's children, so the value stays. The correction removes the node and promotes the in-order successor of a node with two children.
- The doc comment of `balance()` (CoreDataStructures/Classes/BinarySearchTree.swift:347-351) says it restores O(log n) height, with the heights of the two child subtrees of every node differing by at most one. The code re-inserts the sorted values in ascending order under the median, which builds chains. The correction builds each side around its own median.

## Model

| member | source | states |
|---|---|---|
| Nodes.EmptyNode | CoreDataStructures/Classes/Tree.swift:66-71 | a valueless node with no links, which is both a leaf and a root |
| Nodes.NewNode | CoreDataStructures/Classes/Tree.swift:73-78 | a node holding the given value, a leaf and a root |
| Nodes.NodeWithChildren | CoreDataStructures/Classes/Tree.swift:79-84 | a root holding the value; it is a leaf exactly when both children are absent |
| Nodes.LinkedNode | CoreDataStructures/Classes/Tree.swift:86-91 | a root exactly when no parent is given, a leaf exactly when no child is given |
| Nodes.Equal | CoreDataStructures/Classes/Tree.swift:94-102 | `==` holds exactly when the two values are equal; a valueless node never equals a valued one; two valueless nodes trap |
| Nodes.EqualIgnoresLinks | CoreDataStructures/Classes/Tree.swift:94-102 | two nodes with the same value are equal whatever their links |
| Nodes.ComparisonTrichotomy | CoreDataStructures/Classes/Tree.swift:104-110 | on valued nodes exactly one of `<`, `==`, `>` holds, and `<` is `>` with the operands swapped |
| Nodes.LinkPredicatesComplement | CoreDataStructures/Classes/Tree.swift:113-116 | `isLeaf` is the negation of `isParent`, and `isRoot` the negation of `isChild` |
| SearchTrees.Search | CoreDataStructures/Classes/BinarySearchTree.swift:62-76 | the result is nil or a node holding the value; in an ordered tree it is found exactly when the tree holds it; the found subtree is ordered and holds only values of the tree |
| SearchTrees.ChildLookup | CoreDataStructures/Classes/AVLTree.swift:113-118 | reading a child's height as `height(child.value)` searches from the root and finds that very child in an ordered tree |
| SearchTrees.Insert | CoreDataStructures/Classes/BinarySearchTree.swift:114-132 | the root keeps its value and parent; the values become the old ones plus the new value; nothing changes when the value is already there, else the tree gains one node; order is kept |
| SearchTrees.InsertThenSearch | CoreDataStructures/Classes/BinarySearchTree.swift:114-132 | after insert the search for the value finds a node |
| SearchTrees.InsertKeepsLinksUp | CoreDataStructures/Classes/BinarySearchTree.swift:114-132 | insert keeps every parent link pointing at an ancestor |
| SearchTrees.InsertKeepsParentsExact | CoreDataStructures/Classes/BinarySearchTree.swift:114-132 | insert sets the new node's parent link, so exact links stay exact |
| SearchTrees.InsertAll | CoreDataStructures/Classes/BinarySearchTree.swift:141-150 | putting values one by one: the values are the old ones plus the inserted ones, and order is kept |
| SearchTrees.InsertAllKeepsParentsExact | CoreDataStructures/Classes/BinarySearchTree.swift:141-150 | re-inserting values keeps every parent link exact |
| SearchTrees.Unlink | CoreDataStructures/Classes/BinarySearchTree.swift:86-104 | delete as written: the child structure and the values are unchanged, order is kept, and the value is still found |
| SearchTrees.UnlinkKeepsLinksUp | CoreDataStructures/Classes/BinarySearchTree.swift:86-104 | after the children are re-pointed at the grandparent, every parent link still names an ancestor |
| SearchTrees.Minimum | CoreDataStructures/Classes/BinarySearchTree.swift:170-172 | the leftmost node has no left child and, in an ordered tree, holds the least value |
| SearchTrees.Maximum | CoreDataStructures/Classes/BinarySearchTree.swift:159-161 | the rightmost node has no right child and, in an ordered tree, holds the greatest value |
| SearchTrees.Height | CoreDataStructures/Classes/BinarySearchTree.swift:181-188 | in a valued tree the height is 0 exactly for the empty tree |
| SearchTrees.HeightBounds | CoreDataStructures/Classes/BinarySearchTree.swift:181-188 | a tree of height h has at least h and fewer than 2^h nodes |
| SearchTrees.DepthOfRootAndAbsent | CoreDataStructures/Classes/BinarySearchTree.swift:326-329 | the root and an absent value have depth 0 |
| SearchTrees.DepthWalkBound | CoreDataStructures/Classes/BinarySearchTree.swift:197-204 | the parent walk never counts more edges than the node has ancestors |
| SearchTrees.DepthCountsEdges | CoreDataStructures/Classes/BinarySearchTree.swift:326-329 | with exact parent links, the depth of a present value is the number of edges from the root to its node |
| SearchTrees.TraversalsVisitEachNodeOnce | CoreDataStructures/Classes/BinarySearchTree.swift:213-259 | preorder, inorder and postorder each visit every node once: same length, equal to the size, and the same multiset |
| SearchTrees.OrderedIffInorderAscending | CoreDataStructures/Classes/BinarySearchTree.swift:249-259 | the search-tree property holds exactly when the in-order traversal is strictly ascending |
| Bst.Without | CoreDataStructures/Classes/BinarySearchTree.swift:143 | `table.filter`: exactly the other elements, distinctness kept, unchanged when the value is absent |
| Bst.FirstIndex | CoreDataStructures/Classes/BinarySearchTree.swift:94 | `index(where:)!`: a position of the value with no earlier occurrence |
| Bst.RemoveFirst | CoreDataStructures/Classes/BinarySearchTree.swift:94-95 | one element shorter, the multiset minus that value; on distinct elements the value is gone and the rest stay |
| Bst.Sort | CoreDataStructures/Classes/BinarySearchTree.swift:356 | `table.sort()`: a permutation in ascending order |
| Bst.Children | CoreDataStructures/Classes/BinarySearchTree.swift:262-264 | the two children account for every other node; in an ordered node they lie below and above its value |
| Bst.ParentLookup | CoreDataStructures/Classes/BinarySearchTree.swift:266-269 | with exact links, looking up a non-root node's parent value finds the node that has it as a child |
| Bst.SiblingIsOtherChild | CoreDataStructures/Classes/BinarySearchTree.swift:266-269 | `sibling` is nil for the root and otherwise the parent's other child |
| Bst.Rename | CoreDataStructures/Classes/BinarySearchTree.swift:279 | overwriting a node's value keeps the tree's shape and size; in the in-order sequence exactly the renamed value changes, and every other value stays |
| Bst.SetValue | CoreDataStructures/Classes/BinarySearchTree.swift:275-282 | DuplicateValueError exactly when the new value is found; nil and an unchanged tree exactly when the node's value is absent; otherwise the previous value is returned, the shape is kept, and the node holding it now holds the new value while every other node keeps its own |
| Bst.SetValueCanBreakOrder | CoreDataStructures/Classes/BinarySearchTree.swift:275-282 | an ordered tree and a `set` after which it is not ordered |
| Bst.SearchedNodeHasParent | CoreDataStructures/Classes/BinarySearchTree.swift:90-91 | delete's force-unwrap of the parent succeeds for every node below the root |
| Bst.BinarySearchTree.constructor | CoreDataStructures/Classes/BinarySearchTree.swift:30-40 | a valueless root, an empty table, count 0 |
| Bst.BinarySearchTree.WithRoot | CoreDataStructures/Classes/BinarySearchTree.swift:46-50 | one root node holding the value, the table holding it, count 1 |
| Bst.BinarySearchTree.Get | CoreDataStructures/Classes/BinarySearchTree.swift:271-273 | nil exactly when no node holds the value, else the node holding it; every table value is found |
| Bst.BinarySearchTree.Put | CoreDataStructures/Classes/BinarySearchTree.swift:284-289 | NilRootError and DuplicateValueError change nothing; otherwise the tree is the insert and the table gains the value when a node was attached; the invariant is kept |
| Bst.BinarySearchTree.Remove | CoreDataStructures/Classes/BinarySearchTree.swift:291-296 | InvalidNodeError for an absent value, changing nothing; otherwise the found node, the table without the value, and every value still in the tree |
| Bst.BinarySearchTree.SetRoot | CoreDataStructures/Classes/BinarySearchTree.swift:141-150 | assigning a new root restarts the table with it and re-inserts every other old value, in table order |
| Bst.BinarySearchTree.PutAll | CoreDataStructures/Classes/BinarySearchTree.swift:146 | the `forEach` of puts: the tree is the values inserted in order and the table gains them |
| Bst.BinarySearchTree.Balance | CoreDataStructures/Classes/BinarySearchTree.swift:352-358 | the root becomes sorted[count / 2], the others are re-inserted in ascending order, and the values and the table's multiset are unchanged |
| Bst.BinarySearchTree.Size | CoreDataStructures/Classes/BinarySearchTree.swift:298-300 | the table's length, 0 exactly when the root is valueless |
| Bst.BinarySearchTree.IsEmpty | CoreDataStructures/Classes/BinarySearchTree.swift:302-304 | true exactly when the table is empty, which is when the root is valueless |
| Bst.BinarySearchTree.RootNode | CoreDataStructures/Classes/BinarySearchTree.swift:306-308 | a node without parent, valued exactly when the table is not empty |
| Bst.BinarySearchTree.Values | CoreDataStructures/Classes/BinarySearchTree.swift:322-324 | distinct values, each held by a node, as many as the count |
| Bst.BinarySearchTree.All | CoreDataStructures/Classes/BinarySearchTree.swift:318-320 | a fresh unlinked node for each table value, in order |
| Bst.BinarySearchTree.Max | CoreDataStructures/Classes/BinarySearchTree.swift:310-312 | a node without right child holding a value of the tree |
| Bst.BinarySearchTree.Min | CoreDataStructures/Classes/BinarySearchTree.swift:314-316 | a node without left child holding a value of the tree |
| Bst.BinarySearchTree.HeightOf | CoreDataStructures/Classes/BinarySearchTree.swift:331-333 | 0 exactly for an absent value, never more than the size |
| Bst.BinarySearchTree.DepthOf | CoreDataStructures/Classes/BinarySearchTree.swift:326-329 | 0 for the root and absent values, at most the node's level, and exactly its level while links are exact |
| Bst.BinarySearchTree.PreorderValues | CoreDataStructures/Classes/BinarySearchTree.swift:335-337 | one entry per node, the root first |
| Bst.BinarySearchTree.InorderValues | CoreDataStructures/Classes/BinarySearchTree.swift:343-345 | one entry per node, strictly ascending, listing exactly the tree's values |
| Bst.BinarySearchTree.PostorderValues | CoreDataStructures/Classes/BinarySearchTree.swift:339-341 | one entry per node, the root last |
| HeightBalance.BalancedHeightIsLogarithmic | CoreDataStructures/Classes/AVLTree.swift:12-17 | a height-balanced tree of height h has at least 2^(h/2) - 1 nodes |
| Rebalancing.NewAvlNode | CoreDataStructures/Classes/AVLTree.swift:25-28 | a valueless unlinked node of height 0 |
| Rebalancing.NewAvlNodeWithValue | CoreDataStructures/Classes/AVLTree.swift:29-32 | a node holding the value, unlinked, height 0 |
| Rebalancing.SetHeight | CoreDataStructures/Classes/AVLTree.swift:87-92 | the stored height is the node's true height, at least 1 |
| Rebalancing.TallerIsLeft | CoreDataStructures/Classes/AVLTree.swift:94-111 | the strictly taller side wins; a tie goes to the side the node itself is on, left for the root |
| Rebalancing.TallerChild | CoreDataStructures/Classes/AVLTree.swift:94-111 | the chosen child is one of the two and has the larger height |
| Rebalancing.Restructure | CoreDataStructures/Classes/AVLTree.swift:129-130 | trinode restructuring keeps the in-order sequence, the parent link and exact links below |
| Rebalancing.Fix | CoreDataStructures/Classes/AVLTree.swift:126-135 | as intended: a balanced node is left alone; otherwise restructuring at the taller grandchild keeps the in-order sequence and the links |
| Rebalancing.Focus | CoreDataStructures/Classes/AVLTree.swift:141-142 | the node `get` finds and the path to it, which plugs back into the tree |
| Rebalancing.RebalanceUp | CoreDataStructures/Classes/AVLTree.swift:124-136 | as intended: climbing to the root keeps the whole tree's in-order sequence and exact links |
| Rebalancing.Rebalance | CoreDataStructures/Classes/AVLTree.swift:120-137 | as intended: the loop computes RebalanceUp |
| Rebalancing.ChildOrigin | CoreDataStructures/Classes/AVLTree.swift:33-46 | a child is a copy exactly when it is the left child of a copy: the 4-argument init copies the left child and keeps the right one |
| Rebalancing.RestructuredRight | CoreDataStructures/Classes/AVLTree.swift:129-133 | in all four trinode cases the right child of the restructured result, which line 133 casts to AVLNode, is a node of the tree, not a copy |
| Rebalancing.RebalanceUpAsWritten | CoreDataStructures/Classes/AVLTree.swift:120-137 | the loop as written: when it ends, nothing was restructured, and the tree is both the one it was given and what RebalanceUp gives; it traps at the first restructure |
| InsertionBalance.TrinodeBalanced | CoreDataStructures/Classes/AVLTree.swift:128-134 | a trinode over balanced subtrees whose heights fit is balanced, one higher than its taller side |
| InsertionBalance.FixLeftHeavy | CoreDataStructures/Classes/AVLTree.swift:127-135 | a node whose left side grew two above its right is fixed to a balanced subtree of its old height |
| InsertionBalance.FixRightHeavy | CoreDataStructures/Classes/AVLTree.swift:127-135 | the mirror image for the right side |
| InsertionBalance.UnbalancedShape | CoreDataStructures/Classes/AVLTree.swift:127 | after an insertion only a grown side two above its sibling unbalances a node |
| InsertionBalance.FixUnbalanced | CoreDataStructures/Classes/AVLTree.swift:127-135 | one restructure at the first unbalanced ancestor gives a balanced subtree of the old height |
| InsertionBalance.FixAfterInsert | CoreDataStructures/Classes/AVLTree.swift:124-136 | one turn of the loop keeps its invariant: balanced, and at most one higher than before the insertion |
| InsertionBalance.RebalanceKeepsBalance | CoreDataStructures/Classes/AVLTree.swift:120-137 | the loop keeps its invariant up to the root |
| InsertionBalance.InsertIsPlug | CoreDataStructures/Classes/BinarySearchTree.swift:114-132 | insert puts a leaf where the failed search stopped |
| InsertionBalance.FocusInsert | CoreDataStructures/Classes/AVLTree.swift:141-142 | after the insert, `get` finds the new leaf along the old search path |
| InsertionBalance.InsertFocus | CoreDataStructures/Classes/AVLTree.swift:141-142 | the path to the new leaf plugs back into the old tree and the new one, with exact links |
| InsertionBalance.RebalanceExact | CoreDataStructures/Classes/AVLTree.swift:120-137 | the loop leaves exact parent links with an unlinked root |
| InsertionBalance.InsertThenRebalance | CoreDataStructures/Classes/AVLTree.swift:139-144 | put followed by rebalance gives a balanced search tree with exact links, holding the old values and the new one, at most one higher |
| TextbookAvl.AvlTree.constructor | CoreDataStructures/Classes/AVLTree.swift:18-19 | the inherited init(): an empty tree, balanced |
| TextbookAvl.AvlTree.WithRoot | CoreDataStructures/Classes/AVLTree.swift:18-19 | the inherited init(rootNodeValue:): one node |
| TextbookAvl.AvlTree.Put | CoreDataStructures/Classes/AVLTree.swift:139-144 | as intended: the search tree's errors change nothing; otherwise the rebalanced tree is balanced and ordered, holds the old values and the new one, and is at most one higher |
| TextbookAvl.RebalancedRoot | CoreDataStructures/Classes/AVLTree.swift:139-144 | the rebalanced tree satisfies the class invariant with the new table |
| TextbookAvl.AsWrittenEndsIffBalanced | CoreDataStructures/Classes/AVLTree.swift:120-137 | the loop as written ends exactly when the tree it climbs is height-balanced |
| TextbookAvl.PutAsWrittenEndsIffBalanced | CoreDataStructures/Classes/AVLTree.swift:139-144 | put as written ends exactly when the plain insertion leaves the tree height-balanced, and then leaves that insertion as it is; whenever a restructure is needed it traps |
| TextbookAvl.TestPutTraps | Example/Tests/AVLTestCase.swift:24-37 | the puts of 17, 78 and 32 into 44 give an ordered, balanced tree, and the put of 33 then traps |
| TextbookAvl.ClimbCopy | CoreDataStructures/Classes/AVLTree.swift:125 | a turn of the loop replaces the node by a copy of its parent, or by a valueless node when there is none |
| TextbookAvl.RemoveWalkNeverEnds | CoreDataStructures/Classes/AVLTree.swift:146-154 | from the parentless node `remove` hands over, the loop's node never holds the root's value after any number of turns |
| RebuildAvl.AvlTree.constructor | Sources/CoreDataStructures/AVLTree.swift:19 | the inherited init(): an empty tree |
| RebuildAvl.AvlTree.WithRoot | Sources/CoreDataStructures/AVLTree.swift:19 | the inherited init(rootNodeValue:): one node |
| RebuildAvl.AvlTree.Put | Sources/CoreDataStructures/AVLTree.swift:54-57 | as intended, with resetRoot putting back through the search tree's own put: errors change nothing; otherwise the values are the old ones and the new one, rebuilt by `balance()` around the median |
| RebuildAvl.AvlTree.Remove | Sources/CoreDataStructures/AVLTree.swift:59-63 | as intended, like Put: InvalidNodeError changes nothing; otherwise the node is returned and the value leaves both the table and the tree, which is rebuilt |
| RebuildAvl.Reentry | CoreDataStructures/Classes/BinarySearchTree.swift:141-150 | after balance() the table is the median alone, and the value resetRoot puts back first is another value of the sorted table |
| RebuildAvl.PutCall | Sources/CoreDataStructures/AVLTree.swift:54-57 | put as written: the search tree's errors return at once; otherwise the nested put that resetRoot makes, on a one-value table and a value not in it |
| RebuildAvl.RemoveCall | Sources/CoreDataStructures/AVLTree.swift:59-63 | remove as written: an absent value returns at once; otherwise the nested put that resetRoot makes, on a one-value table and a value not in it |
| RebuildAvl.ReentryPutsLeastBack | CoreDataStructures/Classes/BinarySearchTree.swift:141-150 | with two or more distinct values, resetRoot first puts back the least value, which lies below the median |
| RebuildAvl.PairCallsItself | Sources/CoreDataStructures/AVLTree.swift:54-57 | put(w) on the table [m] with w < m makes the nested call put(w) on [m] again |
| RebuildAvl.PutRecursesForever | Sources/CoreDataStructures/AVLTree.swift:54-57 | every put of a new value into a non-empty tree makes a nested put that repeats itself without end |
| RebuildAvl.RemoveRecursesForever | Sources/CoreDataStructures/AVLTree.swift:59-63 | remove returns exactly when at most one value remains; otherwise its nested put repeats itself without end |
| RebuildAvl.PutSeventeenCallsItself | Sources/CoreDataStructures/AVLTree.swift:54-57 | put(17) into the tree 44 makes the nested call put(17) into the tree 44 |
| Deletion.RemoveMin | CoreDataStructures/Classes/BinarySearchTree.swift:86-104 | the leftmost value comes out, and the in-order sequence is that value followed by the rest |
| Deletion.RemoveMinKeepsOrder | CoreDataStructures/Classes/BinarySearchTree.swift:86-104 | the removed minimum is the least value, and the rest is ordered and holds every other value |
| Deletion.Delete | CoreDataStructures/Classes/BinarySearchTree.swift:86-104 | the corrected delete keeps every node valued and the root's parent link |
| Deletion.DeleteKeepsOrder | CoreDataStructures/Classes/BinarySearchTree.swift:86-104 | the corrected delete keeps the order and removes exactly the value |
| Deletion.DeleteThenSearch | CoreDataStructures/Classes/BinarySearchTree.swift:86-104 | after the corrected delete the value is not found and every other value is found as before |
| Deletion.SearchFindsKeys | CoreDataStructures/Classes/BinarySearchTree.swift:62-76 | in an ordered tree the search finds exactly the held values |
| Deletion.DeleteKeepsExact | CoreDataStructures/Classes/BinarySearchTree.swift:86-104 | the corrected delete keeps every parent link exact |
| Rebuild.SortedUnique | CoreDataStructures/Classes/BinarySearchTree.swift:356 | two ascending arrangements of the same multiset are equal |
| Rebuild.SortIsTheSortedPermutation | CoreDataStructures/Classes/BinarySearchTree.swift:356 | `sort()` yields the one ascending arrangement of the table |
| Rebuild.TestTableSorts | CoreDataStructures/Classes/BinarySearchTree.swift:356 | the table of a search tree holding 44, 17, 78, 32, 33 and 50 sorts to 17, 32, 33, 44, 50, 78 |
| Rebuild.BalanceOfTestTableIsUnbalanced | CoreDataStructures/Classes/BinarySearchTree.swift:352-358 | `balance()` on that search tree makes 44 the root and gives a tree that is not height-balanced |
| Rebuild.MedianRebuildIsUnbalanced | CoreDataStructures/Classes/BinarySearchTree.swift:352-358 | the median 44 at the root with the others re-inserted in ascending order is not balanced |
| Rebuild.Build | CoreDataStructures/Classes/BinarySearchTree.swift:352-358 | the median-split rebuild: the root is s[count / 2], every node valued, in-order exactly the input |
| Rebuild.BuildIsBalanced | CoreDataStructures/Classes/BinarySearchTree.swift:352-358 | the median-split rebuild is balanced at every node, with height the bit length of the count |
| Rebuild.BuildIsExact | CoreDataStructures/Classes/BinarySearchTree.swift:352-358 | every child of the rebuild links to its parent |
| Rebuild.BuildIsOrdered | CoreDataStructures/Classes/BinarySearchTree.swift:352-358 | built from ascending values, the rebuild is ordered and holds exactly those values |
| Rebuild.BalancedRebuild | CoreDataStructures/Classes/BinarySearchTree.swift:352-358 | the corrected `balance()` keeps the root `balance()` installs, sorted[count / 2] |
| Rebuild.RebuildIsBalanced | CoreDataStructures/Classes/BinarySearchTree.swift:352-358 | for distinct values the corrected rebuild is ordered, balanced, exactly linked, holds exactly the values and has logarithmic height |
| LinkedLists.Path | Sources/CoreDataStructures/LinkedList.swift:145-160 | the walk along successor links starts at the given cell, stays in the arena and only moves forward |
| LinkedLists.PathNext | Sources/CoreDataStructures/LinkedList.swift:145-160 | along the walk each cell's successor is the next cell, and the last has none |
| LinkedLists.Chain | Sources/CoreDataStructures/LinkedList.swift:203-212 | the cells reachable from the head; empty exactly when there is no head |
| LinkedLists.ChainNext | Sources/CoreDataStructures/LinkedList.swift:203-212 | along the chain each cell's successor is the next cell, and the last has none |
| LinkedLists.ChainIncreasing | Sources/CoreDataStructures/LinkedList.swift:203-212 | the chain never visits a cell twice |
| LinkedLists.Values | Sources/CoreDataStructures/LinkedList.swift:203-212 | one value per reachable cell, in list order |
| LinkedLists.Empty | Sources/CoreDataStructures/LinkedList.swift:17-19 | a list in shape with no values |
| LinkedLists.FirstOnly | Sources/CoreDataStructures/LinkedList.swift:20-23 | init(_:) as written: one value, count one, no tail |
| LinkedLists.Pair | Sources/CoreDataStructures/LinkedList.swift:25-31 | a list in shape holding the two values |
| LinkedLists.Single | Sources/CoreDataStructures/LinkedList.swift:20-23 | the intended init(_:): a list in shape holding the one value |
| LinkedLists.LinkLast | Sources/CoreDataStructures/LinkedList.swift:68-80 | a new cell becomes the tail and the count grows by one |
| LinkedLists.LinkLastKeepsProper | Sources/CoreDataStructures/LinkedList.swift:68-80 | on a list in shape, linkLast appends the value and keeps the shape |
| LinkedLists.Forward | Sources/CoreDataStructures/LinkedList.swift:126-132 | the forward walk of find(_ index:) stays in the arena |
| LinkedLists.Backward | Sources/CoreDataStructures/LinkedList.swift:134-141 | the backward walk of find(_ index:) stays in the arena |
| LinkedLists.ForwardOnPath | Sources/CoreDataStructures/LinkedList.swift:126-132 | k forward steps reach the k-th cell of the walk |
| LinkedLists.BackwardOnChain | Sources/CoreDataStructures/LinkedList.swift:134-141 | k backward steps from the tail reach the k-th cell from the end |
| LinkedLists.FindIndex | Sources/CoreDataStructures/LinkedList.swift:123-143 | find(_ index:) returns a cell of the arena |
| LinkedLists.FindIndexOnProper | Sources/CoreDataStructures/LinkedList.swift:123-143 | from either end, find(_ index:) reaches the cell at that position of the list |
| LinkedLists.Get | Sources/CoreDataStructures/LinkedList.swift:188-190 | a value exactly when isValidIndex accepts the index |
| LinkedLists.GetInRange | Sources/CoreDataStructures/LinkedList.swift:188-190 | the intended get: a value exactly for positions 0 to count - 1 |
| LinkedLists.GetOnProper | Sources/CoreDataStructures/LinkedList.swift:188-190 | inside the list both gets return the value at that position |
| LinkedLists.GetPastTheEnd | Sources/CoreDataStructures/LinkedList.swift:162-164 | the count passes isValidIndex; get then returns the last value, or traps on an empty list, where the intended get returns nil |
| LinkedLists.GetEachOnProper | Sources/CoreDataStructures/LinkedList.swift:188-190 | on a list holding xs, get at every index of xs returns its value |
| LinkedLists.Set | Sources/CoreDataStructures/LinkedList.swift:192-201 | set changes no link, head, tail or count |
| LinkedLists.SetOnProper | Sources/CoreDataStructures/LinkedList.swift:192-201 | inside the list set replaces the value at that position only and keeps the shape |
| LinkedLists.Scan | Sources/CoreDataStructures/LinkedList.swift:145-160 | a found cell holds the element |
| LinkedLists.Find | Sources/CoreDataStructures/LinkedList.swift:145-160 | a found cell holds the element |
| LinkedLists.ScanOnPath | Sources/CoreDataStructures/LinkedList.swift:145-160 | within its step budget the scan finds nothing exactly when no cell of the walk holds the element |
| LinkedLists.ScanFindsFirst | Sources/CoreDataStructures/LinkedList.swift:145-160 | the scan returns the first cell of the walk holding the element |
| LinkedLists.FindOnProper | Sources/CoreDataStructures/LinkedList.swift:145-160 | on a list in shape, find fails exactly when the element is not among the values, else returns the first cell holding it |
| LinkedLists.Unlink | Sources/CoreDataStructures/LinkedList.swift:94-109 | unlink as written keeps head, tail and count |
| LinkedLists.UnlinkAt | Sources/CoreDataStructures/LinkedList.swift:97-103 | only the predecessor's successor and the successor's predecessor change |
| LinkedLists.UnlinkChain | Sources/CoreDataStructures/LinkedList.swift:94-109 | unlinking a cell after the head cuts exactly it out of the chain and the values |
| LinkedLists.UnlinkHeadKeepsValues | Sources/CoreDataStructures/LinkedList.swift:94-109 | unlinking the head leaves every value in the list |
| LinkedLists.UnlinkLaterDropsValue | Sources/CoreDataStructures/LinkedList.swift:94-109 | unlinking a later cell drops its value but not the count, so the list is out of shape |
| LinkedLists.Detach | Sources/CoreDataStructures/LinkedList.swift:94-109 | the intended unlink changes the same links as unlink |
| LinkedLists.DetachKeepsProper | Sources/CoreDataStructures/LinkedList.swift:94-109 | the intended unlink removes exactly the value at that position and keeps the list in shape |
| LinkedLists.FirstThenAddLosesFirst | Sources/CoreDataStructures/LinkedList.swift:20-23 | after init(_:) and one add, only the added value is reachable, with count 2 |
| LinkedLists.SingleThenAdd | Sources/CoreDataStructures/LinkedList.swift:20-23 | with the intended init(_:), an add keeps the first value and appends the second |
| LinkedLists.ClearKeepsCount | Sources/CoreDataStructures/LinkedList.swift:222-225 | after clear the list holds no value but keeps its count, so get(0) passes the index check and traps |
| LinkedLists.Cleared | Sources/CoreDataStructures/LinkedList.swift:222-225 | the intended clear: a list in shape with no values, where every get returns nil |
| LinkedLists.AddAllKeepsProper | Sources/CoreDataStructures/LinkedList.swift:177-179 | adding values one by one appends them all in order and keeps the shape |
| LinkedLists.LinkedList.constructor | Sources/CoreDataStructures/LinkedList.swift:17-19 | the state is the empty list |
| LinkedLists.LinkedList.WithFirst | Sources/CoreDataStructures/LinkedList.swift:20-23 | the state is init(_:) as written |
| LinkedLists.LinkedList.WithFirstAndLast | Sources/CoreDataStructures/LinkedList.swift:25-31 | the state is the two linked nodes |
| LinkedLists.LinkedList.Add | Sources/CoreDataStructures/LinkedList.swift:177-179 | returns true, and the new state is linkLast of the old one |
| LinkedLists.LinkedList.FindIndexOf | Sources/CoreDataStructures/LinkedList.swift:123-143 | the two loops reach the cell FindIndex names |
| LinkedLists.LinkedList.FindElement | Sources/CoreDataStructures/LinkedList.swift:145-160 | the loop returns what Find returns |
| LinkedLists.LinkedList.UnlinkNode | Sources/CoreDataStructures/LinkedList.swift:94-109 | nil and no change when the value is not found; otherwise the value, with the first cell holding it unlinked |
| LinkedLists.LinkedList.Remove | Sources/CoreDataStructures/LinkedList.swift:181-186 | nil and no change when the element is not found; otherwise the element, with its first cell unlinked |
| LinkedLists.LinkedList.GetAt | Sources/CoreDataStructures/LinkedList.swift:188-190 | returns Get of the state |
| LinkedLists.LinkedList.SetAt | Sources/CoreDataStructures/LinkedList.swift:192-201 | returns the previous value, and the new state is Set of the old one |
| LinkedLists.LinkedList.Size | Sources/CoreDataStructures/LinkedList.swift:167-175 | counts the successor links from the head: one less than the reachable cells, and 0 without a head |
| LinkedLists.LinkedList.CountNodes | Sources/CoreDataStructures/LinkedList.swift:167-175 | the intended size: the number of reachable values, which is the count in a list in shape |
| LinkedLists.LinkedList.All | Sources/CoreDataStructures/LinkedList.swift:203-212 | the loop collects the values along the chain |
| LinkedLists.LinkedList.Contains | Sources/CoreDataStructures/LinkedList.swift:214-216 | true exactly when find(_ element:) finds a cell |
| LinkedLists.LinkedList.Clear | Sources/CoreDataStructures/LinkedList.swift:222-225 | head and tail become nil, cells and count stay, and no value is reachable |
| LinkedLists.AddEach | Example/Tests/LinkedListTestCase.swift:28-33 | each add returns true, and the state is every value appended |
| LinkedLists.AddThenAll | Example/Tests/LinkedListTestCase.swift:52-57 | all() after adding xs to a new list returns xs |
| LinkedLists.AddThenGetEach | Example/Tests/LinkedListTestCase.swift:35-43 | get over 0...count - 1 after adding xs returns xs |
| LinkedLists.AddThenSize | Sources/CoreDataStructures/LinkedList.swift:167-175 | after adding xs, all() returns xs but size() returns one less than its length |
| Queues.Queue.Size | CoreDataStructures/Classes/Queue.swift:14 | 0 exactly when the queue is empty |
| Queues.Queue.constructor | CoreDataStructures/Classes/Queue.swift:21-22 | an empty queue |
| Queues.Queue.WithHead | CoreDataStructures/Classes/Queue.swift:30-32 | a queue holding the one value |
| Queues.Queue.Add | CoreDataStructures/Classes/Queue.swift:43-45 | the value joins at the back and the size grows by one |
| Queues.Queue.Remove | CoreDataStructures/Classes/Queue.swift:52-54 | returns the front value and leaves the rest; traps on an empty queue |
| Queues.Queue.Clear | CoreDataStructures/Classes/Queue.swift:61-63 | the queue becomes empty |
| Queues.Queue.Element | CoreDataStructures/Classes/Queue.swift:70-72 | returns the front value without removing it |
| Queues.Queue.Values | CoreDataStructures/Classes/Queue.swift:79-81 | the values front first, as many as the size |
| Queues.FirstInFirstOut | CoreDataStructures/Classes/Queue.swift:43-54 | values added to a new queue come out of remove in the same order |
| Queues.RemoveAfterThree | Example/Tests/QueueTestCase.swift:52-59 | after the fixture's three adds, element and remove return the first value, two stay, and clear leaves none |
| Stacks.Stack.Size | Sources/CoreDataStructures/Stack.swift:14 | 0 exactly when the stack is empty; the same code in CoreDataStructures/Classes/Stack.swift at line 14 |
| Stacks.Stack.constructor | Sources/CoreDataStructures/Stack.swift:21 | an empty stack; the same code in CoreDataStructures/Classes/Stack.swift at lines 17 |
| Stacks.Stack.WithTop | Sources/CoreDataStructures/Stack.swift:26-28 | a stack holding the one value; the same code in CoreDataStructures/Classes/Stack.swift at lines 19-21 |
| Stacks.Stack.Empty | Sources/CoreDataStructures/Stack.swift:38-40 | true exactly when the size is 0; the same code in CoreDataStructures/Classes/Stack.swift at lines 25-27 |
| Stacks.Stack.Push | Sources/CoreDataStructures/Stack.swift:48-51 | the value goes on top and the size grows by one; the same code in CoreDataStructures/Classes/Stack.swift at lines 29-32 |
| Stacks.Stack.Pop | Sources/CoreDataStructures/Stack.swift:58-61 | nil on an empty stack, which stays empty; otherwise the top value, removed; the same code in CoreDataStructures/Classes/Stack.swift at lines 34-37 |
| Stacks.Stack.Peek | Sources/CoreDataStructures/Stack.swift:68-70 | the top value, left in place; traps on an empty stack; the same code in CoreDataStructures/Classes/Stack.swift at lines 39-41 |
| Stacks.Stack.Values | Sources/CoreDataStructures/Stack.swift:77-79 | the values bottom first, as many as the size; the same code in CoreDataStructures/Classes/Stack.swift at lines 43-45 |
| Stacks.LastInFirstOut | Sources/CoreDataStructures/Stack.swift:48-61 | values pushed on a new stack pop off in reverse order, after which it is empty and pop returns nil |
| Stacks.PeekPopAfterThree | Tests/CoreDataStructuresTests/StackTestCase.swift:31-60 | after the fixture's three pushes, peek and pop return the last value, and three pops empty the stack |

## Left out

- Generic element types: values are `int`. Comparison and equality are those of integers.
- Object identity and aliasing of tree nodes: a node is a value, and its parent link is the parent's value. `Node.==` compares values only, so the two agree in every tree whose values are distinct. The search tree keeps its values distinct.
- Rebalancing.Restructure: the textbook draft calls `restructure`, which no file of the repository defines. It is taken from the trinode restructuring of Goodrich and Tamassia, chapter 10, the book the draft cites.
- The rotations `rightRotate` and `leftRotate` (CoreDataStructures/Classes/AVLTree.swift:54-85): nothing calls them.
- The copy constructors of `AVLNode` (CoreDataStructures/Classes/AVLTree.swift:33-51): they are modelled only by the copy a loop turn makes (TextbookAvl.ClimbCopy).
- The stored `height` field: the draft never reads it back. It reads heights through `height(value)`, so the model computes heights.
- The textbook draft's `remove` (CoreDataStructures/Classes/AVLTree.swift:146-154): line 147 force-unwraps `get(value)` and `sibling(node:)`, so it traps on an absent value, and on a node without a sibling, before the search tree can throw InvalidNodeError. Otherwise its rebalance never ends (finding 3), so no balance property is stated for it.
- TextbookAvl.AvlTree.Put: states the put as intended, with the textbook restructure completing the climb. As written, the put traps at line 133, through the cast at line 91, as soon as a node needs restructuring (finding 10). That behaviour is modelled by Rebalancing.RebalanceUpAsWritten and TextbookAvl.PutAsWrittenEndsIffBalanced. The put is also stated only for trees whose parent links are all exact; no method of that class unlinks a node.
- Rebalancing.Fix: states the restructure as intended. As written, the loop traps at line 133 right after the first restructure (finding 10).
- Rebalancing.RebalanceUp: climbs past restructured nodes as intended. As written, the climb stops with a trap at the first one (Rebalancing.RebalanceUpAsWritten).
- Rebalancing.Rebalance: the loop as intended, computing RebalanceUp. As written, the loop traps at its first restructure (finding 10).
- RebuildAvl.AvlTree.Put: resetRoot puts the old values back with the search tree's own put. As written, that put is dispatched to the overriding put, which calls `balance()` again, so the put never returns (finding 9, RebuildAvl.PutRecursesForever).
- RebuildAvl.AvlTree.Remove: as for Put. As written, a remove that leaves two or more values never returns (finding 9, RebuildAvl.RemoveRecursesForever).
- The floating-point round-up in `balance()`: it is applied after an integer division and changes nothing. `balance()` is modelled with the integer index.
- `sibling`, `set` and `children` are modelled on the node graph only (Bst.SiblingIsOtherChild, Bst.SetValue, Bst.Children), not as methods of the class.
- Bst.BinarySearchTree.Remove: traps are preconditions. These are a valueless root, removing the root (nil parent force-unwrapped) and a value linked in the tree but already out of the table.
- The BinarySearchTree under Sources/CoreDataStructures: it is not part of this model. The rebuild draft is modelled over the one in CoreDataStructures/Classes.
- LinkedList's stubs `addAll`, `linkFirst`, `linkBefore` and `indexOf` (always 0), and `sort`: `sort` sorts through a caller-supplied closure and then calls the empty `addAll`.
- LinkedList's nodes live in an arena: a list never shares nodes with another object. Cells that leave the list stay in the arena.
- The protocol files (BinaryTree.swift, List.swift, Map.swift), the example app and `debugDescription`: they carry no behaviour of the core.
- Integers are unbounded: Swift's `Int` overflow traps are not modelled, since no count here comes near them.

## Findings

| source | as written | input that shows it | evidently intended | confidence | as-written member | corrected member |
|---|---|---|---|---|---|---|
| CoreDataStructures/Classes/BinarySearchTree.swift:86-104 | delete only re-points the found node's children at its parent; the parent's child slot still holds the node, so the value stays in the tree | remove(1) on the tree 2(1(0), 3): 1 is still found by get(1) | the value leaves the tree, as the doc comment at lines 78-79 says; a node with two children is replaced by its in-order successor | not executed | SearchTrees.Unlink | Deletion.DeleteThenSearch |
| CoreDataStructures/Classes/BinarySearchTree.swift:352-358 | balance() makes the median the root and re-inserts the others in ascending order, which builds chains | a search tree made with init(rootNodeValue: 44), then put(17), put(78), put(32), put(33) and put(50), then balance() once: 17 gets no left child and a right chain of height two | a height-balanced tree, as the doc comment at lines 347-351 says: each side is rebuilt around its own median | not executed | Rebuild.BalanceOfTestTableIsUnbalanced | Rebuild.RebuildIsBalanced |
| CoreDataStructures/Classes/AVLTree.swift:146-154 | remove hands rebalance a new node without parent; the loop copies its nil parent into a valueless node forever and never reaches the root's value | any remove of a non-root value with a sibling | remove ends with the value gone from the tree and the tree still ordered | not executed | TextbookAvl.RemoveWalkNeverEnds | Deletion.DeleteKeepsOrder |
| Sources/CoreDataStructures/LinkedList.swift:162-164 | isValidIndex accepts index == count | get(1) on the list [5] returns 5; get(0) on an empty list unwraps a nil tail | only 0 <= index < count is valid, and get returns nil otherwise | not executed | LinkedLists.GetPastTheEnd | LinkedLists.GetOnProper |
| Sources/CoreDataStructures/LinkedList.swift:167-175 | size() counts successor links, one less than the nodes | size() on the list [1, 2] returns 1 | the number of nodes | not executed | LinkedLists.AddThenSize | LinkedLists.LinkedList.CountNodes |
| Sources/CoreDataStructures/LinkedList.swift:20-23 | init(_:) sets the head but not the tail, so the next add makes the new node the head and the first value is lost | init(1) then add(2): all() returns [2] | the single node is both head and tail | not executed | LinkedLists.FirstThenAddLosesFirst | LinkedLists.SingleThenAdd |
| Sources/CoreDataStructures/LinkedList.swift:94-109 | unlink re-links the neighbours but keeps head, tail and count: a removed head stays in the list, and a removed later node leaves the count too high | remove(1) on [1, 2] keeps [1, 2]; remove(2) on [1, 2] leaves [1] with count 2 | a removed head or tail passes on its role, and the count drops by one | not executed | LinkedLists.UnlinkLaterDropsValue | LinkedLists.DetachKeepsProper |
| Sources/CoreDataStructures/LinkedList.swift:222-225 | clear() drops head and tail but keeps the count | clear() on [1, 2] then get(0): the index check passes and the nil head is unwrapped | the count becomes 0 | not executed | LinkedLists.ClearKeepsCount | LinkedLists.Cleared |
| Sources/CoreDataStructures/AVLTree.swift:54-63 | put and remove call balance(). Its assignment to root_node runs resetRoot (CoreDataStructures/Classes/BinarySearchTree.swift:30, 146), whose put is dispatched to this overriding put, which calls balance() again, so the recursion never ends | AVLTree(rootNodeValue: 44), then put(17): the nested call is put(17) on the tree 44, again and again. Likewise remove(v) whenever two or more values remain | put and remove end with the values rebuilt once around the median | not executed | RebuildAvl.PutRecursesForever | RebuildAvl.AvlTree.Put |
| CoreDataStructures/Classes/AVLTree.swift:129-133 | after restructure, line 131 copies the result with the 4-argument init, which keeps the original right child (line 43). Line 133 passes that node, a plain Node that put made, to setHeight, whose `as! AVLNode` (line 91) traps | the draft's test (Example/Tests/AVLTestCase.swift:24-37): 44, then 17, 78 and 32, then put(33): 17 has heights 0 and 2, restructure runs, and line 133 traps | put restores the height-balance property and keeps the tree ordered | not executed | TextbookAvl.PutAsWrittenEndsIffBalanced | InsertionBalance.InsertThenRebalance |
