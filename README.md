# Linked binary trees and three sorting routines, in Dafny

This project models two groups of routines from a Java collection of data
structures and algorithms, and proves what each promises.

**The linked binary tree and the binary search tree.** `BinaryTreeNode`,
`BinaryTree` and `BinarySearchTree` are modelled on the heap.

- A `Node` class (module `BinaryTreeNodes`) has an element and two nullable links.
- A `BinaryTree` class (module `BinaryTrees`) has a root reference and a stored node count.
- A ghost `Shape` records which node sits at which position. The predicate
  `Linked` ties the heap to that shape, and `Distinct` says every node is
  owned once.
- `Abs` maps a shape to a `Tree` value (module `Trees`). This is where the
  traversal orders, sizes and heights are defined.
- The search-tree methods (module `BinarySearchTrees`) walk with `current`
  and `parent` references and rewire links with `SetLeft`/`SetRight`.
  Each one is proved to leave the tree standing for a function of module
  `SearchTrees` applied to the old tree value.
- The functions of `SearchTrees` are proved, by induction, to:
  - keep the search-tree order (left strictly less, right greater or equal);
  - keep or change the in-order sequence as stated;
  - change the node count as follows:
    - `Insert` adds one node;
    - `RemoveMin`, `RemoveMax` and `Replace` remove one;
    - a `Remove` whose ordered search succeeds removes one;
    - a `Remove` whose search fails changes nothing;
    - `RemoveAll` lowers the count by the element's number of occurrences.

**The sorting routines.** Insertion sort, selection sort and quicksort work
in place on the prefix `A[0..n)` of an `int` array.

- Each in-place routine is proved to leave that prefix sorted and a
  permutation of its old contents. Cells from `n` on are untouched, and the
  same array is returned.
- The stack variant of insertion sort and the queue variant of selection
  sort use `seq<int>` for their stacks, queues and lists. A stack's top is
  its first element, and a queue's front is its first element.
- Module `Sorting` gives an independent reference sort. `Sorting.IsSort`
  shows that any sorted permutation equals it, so all five routines compute
  the same result.

Where the code and its documentation disagree, the model makes one of these
choices:

- **One set of fields.** The Java `BinarySearchTree` redeclares private
  `root` and `numberOfNodes` fields that shadow those of `BinaryTree`. With
  that duplicated state, the queries of the base class never see an
  insertion. The model gives the search tree the base tree's single root
  and count, as the documentation of both classes intends. The search-tree
  operations are module-level methods over a `BinaryTree`.
- **The three-argument constructor, modelled as written.** The constructor
  `BinaryTree(element, left, right)` records `1 + left.size() + right.size()`
  nodes. It links only fresh copies of the two subtrees' root elements.
  `BinaryTrees.ComposeCount` shows that the record matches the tree built
  exactly when both subtrees have at most one node.
- **Quicksort's undeclared names.** `n_l`, `n_s` and `n_e` in
  `QuickSort.java` are read as `n_larger`, `n_smaller` and `n_equal`, as the
  declarations and the pseudocode in the file's header say.

Model conventions:

- Elements are mathematical integers. `compareTo` is integer comparison,
  and `equals` is integer equality.
- The two exception types are the `Error` alternatives `EmptyCollection`
  and `ElementNotFound` of a `Result` (module `Failures`).
- The traversals return a `seq` in visiting order.
- The level-order traversal of an empty tree returns `[None]`, the list
  holding one null.
- Every node of a shape is allocated, by lemma `BinaryTreeNodes.NodesAllocated`.
  Constructors and methods that allocate new nodes do not restate that
  earlier trees are untouched. A caller that keeps an older tree valid across
  such a call (for example, when passing it to `Compose`) calls
  `NodesAllocated` on that tree's shape first.

## Model

| member | source | states |
|---|---|---|
| BinaryTreeNodes.Node.constructor | BinaryTreeNode.java:27-32 | a new node holds the given element and both its links are null |
| BinaryTreeNodes.Node.NumberOfDescendants | BinaryTreeNode.java:38-49 | the number of descendants is the node count of the node's subtree minus one, so zero for a childless node; it reads only that subtree's nodes |
| BinaryTreeNodes.Node.SetElement | BinaryTreeNode.java:83-86 | the element becomes the argument; both links are unchanged |
| BinaryTreeNodes.Node.SetLeft | BinaryTreeNode.java:93-96 | the left link becomes the argument; the element and the right link are unchanged |
| BinaryTreeNodes.Node.SetRight | BinaryTreeNode.java:103-106 | the right link becomes the argument; the element and the left link are unchanged |
| BinaryTreeNodes.NodesCount | BinaryTree.java:15 | with single ownership, the number of distinct reachable nodes is the node count of the tree value |
| BinaryTrees.BinaryTree.constructor | BinaryTree.java:20-24 | an empty, valid tree with count 0 |
| BinaryTrees.BinaryTree.WithRoot | BinaryTree.java:30-34 | a valid tree of one fresh node holding the element, count 1 |
| BinaryTrees.BinaryTree.Compose | BinaryTree.java:43-53 | a valid tree whose root holds the element and whose children are fresh copies of the subtrees' roots; count `1 + left + right`, which is the real node count exactly when both subtrees have at most one node |
| BinaryTrees.BinaryTree.LinkRootCopies | BinaryTree.java:45-52 | the new root is linked to fresh one-node copies of the non-empty subtrees' root elements only |
| BinaryTrees.ComposeCount | BinaryTree.java:46-52 | the copied-roots tree has `1 + size(left) + size(right)` nodes if and only if both subtrees have at most one node |
| BinaryTrees.BinaryTree.GetRoot | BinaryTree.java:60-66 | EmptyCollection for an empty tree, otherwise the root element |
| BinaryTrees.BinaryTree.Size | BinaryTree.java:72-75 | the stored count, never negative; on a counted tree it equals the number of reachable nodes and the length of the in-order sequence |
| BinaryTrees.BinaryTree.IsEmpty | BinaryTree.java:81-84 | true exactly when the tree value is empty |
| BinaryTrees.BinaryTree.Contains | BinaryTree.java:92-95 | true exactly when some reachable element equals the target |
| BinaryTrees.BinaryTree.FindNode | BinaryTree.java:104-118 | true exactly when the target occurs somewhere in the subtree, not only where the search order would put it |
| BinaryTrees.BinaryTree.Height | BinaryTree.java:124-127 | the height of the tree value, between -1 and the node count minus one |
| BinaryTrees.BinaryTree.FindHeight | BinaryTree.java:134-140 | -1 for null, otherwise one more than the larger child height, i.e. the height of the subtree's value |
| Trees.HeightBounds | BinaryTree.java:134-140 | every height lies between -1 and size minus one, and is -1 exactly for the empty tree |
| BinaryTrees.BinaryTree.IteratorPreOrder | BinaryTree.java:146-152 | the list is the pre-order sequence of the tree value |
| BinaryTrees.BinaryTree.Preorder | BinaryTree.java:160-168 | appends the subtree's pre-order sequence to the list it is given |
| BinaryTrees.BinaryTree.IteratorInOrder | BinaryTree.java:174-180 | the list is the in-order sequence |
| BinaryTrees.BinaryTree.Inorder | BinaryTree.java:188-196 | appends the subtree's in-order sequence to the list it is given |
| BinaryTrees.BinaryTree.IteratorPostOrder | BinaryTree.java:202-208 | the list is the post-order sequence |
| BinaryTrees.BinaryTree.Postorder | BinaryTree.java:216-224 | appends the subtree's post-order sequence to the list it is given |
| Trees.TraversalsAgree | BinaryTree.java:160-224 | pre-, in- and post-order each have the node count as length and hold the same multiset; pre-order starts and post-order ends with the root |
| BinaryTrees.BinaryTree.IteratorLevelOrder | BinaryTree.java:230-258 | `[None]` for an empty tree, otherwise the level order of the tree value computed by the FIFO queue of nodes |
| Trees.LevelOrderFacts | BinaryTree.java:240-254 | the level order has one entry per node, the same multiset as in-order, and starts with the root followed by the queue of its present children |
| Trees.LevelByLevel | BinaryTree.java:244-254 | with any queue behind them, the elements of a queue of subtrees are emitted first, in queue order, and their present children, left before right, are queued after what followed |
| Trees.LevelOrderFromSize | BinaryTree.java:244-254 | the queue loop emits one entry per node of the queue |
| Trees.LevelOrderFromElems | BinaryTree.java:244-254 | the queue loop emits exactly the elements of the queue |
| BinarySearchTrees.EmptySearchTree | BinarySearchTree.java:24-27 | a fresh empty tree that is valid, counted and a search tree |
| BinarySearchTrees.SingletonSearchTree | BinarySearchTree.java:34-37 | a fresh one-node search tree holding the element |
| SearchTrees.InOrderSorted | BinarySearchTree.java:61-81 | the in-order sequence of a search tree is non-decreasing |
| SearchTrees.InsertElems | BinarySearchTree.java:44-84 | ordered insertion adds one node, holding the element, to the multiset |
| SearchTrees.InsertKeepsOrder | BinarySearchTree.java:58-82 | ordered insertion keeps left < node <= right |
| SearchTrees.InsertOnlyAdds | BinarySearchTree.java:44-84 | every element after the insertion was there before or is the inserted one |
| SearchTrees.InsertInOrder | BinarySearchTree.java:61-81 | on a search tree the in-order sequence becomes the old one with the element inserted after every element not larger than it |
| BinarySearchTrees.InsertFacts | BinarySearchTree.java:44-84 | insertion adds one node and, on a search tree, keeps the order and places the element after every one not larger |
| BinarySearchTrees.LinkLeaf | BinarySearchTree.java:63-77 | linking the new leaf at the free link found makes the shape one node larger and stand for the ordered insertion at that position |
| BinarySearchTrees.AddElement | BinarySearchTree.java:44-84 | the tree becomes the ordered insertion of the element, the count goes up by one, counted stays counted, the new node is the only new one, and a search tree keeps its order with the element inserted in order |
| SearchTrees.FindCorrect | BinarySearchTree.java:326-344 | on a search tree the ordered search finds `x` exactly when `x` occurs |
| BinarySearchTrees.FindAgain | BinarySearchTree.java:326-344 | returns a reachable node holding the target, or null exactly when the ordered search fails |
| BinarySearchTrees.Find | BinarySearchTree.java:308-317 | the target when the ordered search succeeds, otherwise ElementNotFound (also for an empty tree) |
| BinarySearchTrees.Contains | BinarySearchTree.java:289-300 | true exactly when the ordered search succeeds, i.e. when `find` does not fail |
| BinarySearchTrees.ContainsOnSearchTree | BinarySearchTree.java:289-344 | on a search tree the ordered search finds the target exactly when it occurs, and agrees with the base tree's equality search |
| SearchTrees.MinSplit | BinarySearchTree.java:172-199 | the leftmost element opens the in-order sequence, and unlinking that node drops exactly it and one node |
| SearchTrees.MaxSplit | BinarySearchTree.java:206-233 | the rightmost element closes the in-order sequence, and unlinking that node drops exactly it and one node |
| SearchTrees.MinMaxBounds | BinarySearchTree.java:240-281 | on a search tree, the leftmost element is a least and the rightmost a greatest element |
| SearchTrees.RemoveMinKeepsOrder | BinarySearchTree.java:172-199 | unlinking the leftmost node keeps the search-tree order |
| SearchTrees.RemoveMaxKeepsOrder | BinarySearchTree.java:206-233 | unlinking the rightmost node keeps the search-tree order |
| BinarySearchTrees.ExtremeFacts | BinarySearchTree.java:172-233 | unlinking the leftmost (rightmost) node drops the first (last) in-order element and one node, and keeps a search tree a search tree |
| BinarySearchTrees.ExtremeBounds | BinarySearchTree.java:240-281 | the leftmost and rightmost elements open and close the in-order sequence, and bound every element of a search tree |
| BinarySearchTrees.ExtremeLeast | BinarySearchTree.java:172-233 | on a search tree the leftmost element is no larger, and the rightmost no smaller, than any element |
| BinarySearchTrees.Spine | BinarySearchTree.java:188-194 | following the links on one side ends at the extreme node, with its parent and the path to it, and giving the parent that node's other child unlinks it |
| BinarySearchTrees.Bypass | BinarySearchTree.java:196 | giving the parent the other child of a node whose link on that side is null removes exactly that node from the shape; the same step unlinks the rightmost node at BinarySearchTree.java line 230 and the in-order successor at line 381 |
| BinarySearchTrees.RemoveMin | BinarySearchTree.java:172-199 | EmptyCollection and nothing changed on an empty tree; otherwise the leftmost element, the first in order, is returned and dropped from the front of the in-order sequence, the count goes down by one, and on a search tree the result is the least element and the tree stays a search tree |
| BinarySearchTrees.RemoveMax | BinarySearchTree.java:206-233 | EmptyCollection and nothing changed on an empty tree; otherwise the rightmost element, the last in order, is returned and dropped from the back of the in-order sequence, the count goes down by one, and on a search tree the result is the greatest element and the tree stays a search tree |
| BinarySearchTrees.FindMin | BinarySearchTree.java:240-257 | EmptyCollection on an empty tree, otherwise the leftmost element, which is the first in-order element and on a search tree the least |
| BinarySearchTrees.FindMax | BinarySearchTree.java:264-281 | EmptyCollection on an empty tree, otherwise the rightmost element, which is the last in-order element and on a search tree the greatest |
| SearchTrees.ReplaceInOrder | BinarySearchTree.java:353-388 | the replacement subtree lists exactly the removed node's left subtree and then its right subtree, in order |
| SearchTrees.ReplaceSize | BinarySearchTree.java:353-388 | the replacement subtree has exactly one node fewer than the subtree rooted at the removed node |
| SearchTrees.ReplaceKeepsOrder | BinarySearchTree.java:365-384 | on a search tree the replacement by the in-order successor is a search tree |
| BinarySearchTrees.Replacement | BinarySearchTree.java:353-388 | null for a leaf, the only child for one child, otherwise the leftmost node of the right subtree given the node's subtrees; the shape returned lacks exactly the removed node and stands for the replacement value |
| BinarySearchTrees.Promote | BinarySearchTree.java:367-384 | when the successor lies below the right child, it is unlinked from its parent and becomes the root, with the removed node's left subtree and the right subtree without the successor |
| BinarySearchTrees.Detach | BinarySearchTree.java:119-127 | the parent's link that led to the found node (the side the descent took) gets the node's replacement; exactly that node leaves the shape |
| BinarySearchTrees.Hang | BinarySearchTree.java:121-124 | the parent's chosen link gets the replacement subtree, and the whole shape stands for the old value with that child replaced |
| SearchTrees.RemoveSize | BinarySearchTree.java:92-144 | deletion removes one node exactly when the ordered search succeeds, and changes nothing otherwise |
| SearchTrees.RemoveInOrder | BinarySearchTree.java:100-128 | on a search tree, deletion drops the first occurrence of the target from the in-order sequence |
| SearchTrees.RemoveKeepsOrder | BinarySearchTree.java:100-128 | deletion keeps the search-tree order |
| SearchTrees.RemoveKeepsElements | BinarySearchTree.java:92-144 | on a search tree, deletion introduces no element that was not there before |
| BinarySearchTrees.RemoveFacts | BinarySearchTree.java:92-144 | deletion is the identity when the search fails, removes one node when it succeeds, and on a search tree keeps the order and drops the first occurrence in order |
| BinarySearchTrees.RemoveElement | BinarySearchTree.java:92-144 | ElementNotFound with nothing changed on an empty tree or a failed descent; otherwise the target is returned, the tree becomes the ordered deletion, the count goes down by one, and a search tree stays one with the first occurrence gone from the in-order sequence |
| SearchTrees.Scenario | BinarySearchTree.java:353-388 | inserting 5, 3, 8, 1, 4, 7, 9 gives in-order 1, 3, 4, 5, 7, 8, 9 with minimum 1 and maximum 9; removing 5 then leaves 7 at the root and the in-order sequence 1, 3, 4, 7, 8, 9 |
| SearchTrees.RemoveAllCorrect | BinarySearchTree.java:152-165 | on a search tree, repeated deletion keeps the order, drops every occurrence of the target and nothing else, and lowers the size by the number of occurrences |
| BinarySearchTrees.RemoveAllOccurrences | BinarySearchTree.java:152-165 | ElementNotFound and nothing changed when the target is not found; otherwise the tree becomes the repeated deletion and, on a search tree, no occurrence is left, the others keep their order, and the count drops by the number of occurrences |
| InsertionSort.Inserted | InsertionSort.java:92-96 | after the shift and the placement, the first `i + 1` cells are sorted and a rearrangement of what they held, and the rest is unchanged |
| InsertionSort.InsertNext | InsertionSort.java:89-96 | one outer pass turns a sorted prefix of length `i` into a sorted rearrangement of length `i + 1` and leaves the other cells alone |
| InsertionSort.SortInPlace | InsertionSort.java:86-99 | returns the same array; `A[0..n)` becomes a sorted permutation of itself and the cells from `n` on are unchanged; nothing changes for `n <= 1` |
| InsertionSort.Pushed | InsertionSort.java:67-71 | putting `x` below the elements smaller than it keeps a sorted stack sorted and adds `x` to its elements |
| InsertionSort.PushInOrder | InsertionSort.java:67-71 | popping the smaller elements onto `temp`, pushing `x` and popping `temp` back gives a sorted stack holding the old elements and `x` |
| InsertionSort.SortUsingStacks | InsertionSort.java:61-78 | returns the same array; the pops write a sorted permutation of `A[0..n)` there and the rest is unchanged |
| SelectionSort.Swapped | SelectionSort.java:113-115 | swapping a least cell of `[i..n)` into position `i` extends the sorted, bounded prefix by one and keeps the multiset |
| SelectionSort.SortInPlace | SelectionSort.java:103-119 | returns the same array; `A[0..n)` becomes a sorted permutation of itself and the cells from `n` on are unchanged; nothing changes for `n <= 1` |
| SelectionSort.TakeSmallest | SelectionSort.java:73-88 | one pass takes out a least element, and the list shrinks by one and keeps the other elements |
| SelectionSort.StageStep | SelectionSort.java:72-89 | appending a least remaining element keeps `sorted` sorted, no larger than any remaining element, and the two together a rearrangement of the input |
| SelectionSort.SortUsingQueues | SelectionSort.java:67-95 | the returned list is a sorted permutation of the input list |
| QuickSort.Partition | QuickSort.java:54-66 | the three fresh arrays of length `n` hold, in order, the elements of `A[0..n)` below, equal to and above the pivot `A[0]`; the counts add up to `n`, and the outer two are below `n` |
| QuickSort.PartsMultiset | QuickSort.java:62-66 | the three parts together hold exactly the elements of the prefix |
| QuickSort.PartsSides | QuickSort.java:62-66 | the smaller part lies below the pivot and the larger part above it |
| QuickSort.PartsEqual | QuickSort.java:60-66 | the equal part is the pivot repeated, and it is not empty because the pivot occurs |
| QuickSort.PartsLength | QuickSort.java:62-66 | the lengths of the three parts add up to the length of the prefix |
| QuickSort.Combined | QuickSort.java:68-74 | sorted rearrangements of the smaller and larger parts around the equal part make a sorted sequence with the same elements |
| QuickSort.SortedParts | QuickSort.java:68-74 | once the outer parts are sorted, the three parts laid out in order are a sorted permutation of the prefix |
| QuickSort.CopyInto | QuickSort.java:72 | a copy loop writes `src[0..m)` into `A[i..i + m)`, leaves every other cell alone and ends with the index `i + m` |
| QuickSort.CopyBack | QuickSort.java:71-74 | the three copy loops lay the smaller, equal and larger parts out over `A[0..n)` in that order, leaving the rest |
| QuickSort.QuickSort | QuickSort.java:50-79 | returns the same array; `A[0..n)` becomes a sorted permutation of itself and the cells from `n` on are unchanged; nothing changes for `n <= 1` |
| Sorting.SortCorrect | QuickSort.java:8-10 | the reference sort is a sorted permutation of its input |
| Sorting.IsSort | QuickSort.java:8-10 | every sorted permutation of a sequence is the reference sort, so the results of all five sorting routines are determined by their input |

## Left out

- The getters `getElement`, `getLeft` and `getRight` of BinaryTreeNode.java:55-76: the model reads the node's fields directly, which is what each getter returns.
- Java `Iterator` objects and laziness: each traversal returns its list as a `seq`.
- `toString` of `BinaryTree`: it depends on the list type's string formatting, which is not part of this model.
- The list, stack and queue types and the two exception classes: they are `seq` values and `Result`/`Outcome` alternatives, not modelled internally.
- Generic elements, the `Comparable` cast and its `ClassCastException`, and null elements: elements are integers.
- Overflow of `int` counters and array cells: integers are unbounded.
- The inheritance machinery and the shadowed second copy of `root` and `numberOfNodes` in `BinarySearchTree`: one shared pair is modelled, so the as-written inconsistencies are not reproduced.
- The reference comparison at BinarySearchTree.java:121 is modelled as the side the descent took, not as an object `equals` call.
- Inner loops as separate methods: `InsertNext`, `PushInOrder`, `TakeSmallest`, `Partition`, `CopyInto` and `CopyBack` are loops of the Java routines, factored out as methods with their own contracts; the structure of the loops is kept.
- SelectionSort.SortUsingQueues: takes the list as a value and returns the new one; the Java method empties and refills the same list object, and that aliasing is not modelled.
- SelectionSort.TakeSmallest: states the multiset and the bound, not the order in which the remaining elements are put back.
- Out-of-range lengths: every sort requires `n <= A.Length` (`InsertionSort.SortInPlace` also accepts any `n <= 1`). For a larger `n` the Java routines throw `ArrayIndexOutOfBoundsException`, and `Sort_InPlace` of InsertionSort.java:86-99 has by then sorted part of the array. That exception path is not modelled.
- Time-complexity claims of the sorting documentation.
