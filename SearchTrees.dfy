/** The ordered operations of the search tree, on tree values: insertion,
    ordered search, minimum and maximum extraction, deletion with structural
    replacement, and removal of all occurrences. Keys that compare equal to a
    node's key live in its right subtree. */
module SearchTrees {
  import opened Trees
  import opened Sequences
  import opened Failures

  /** The search-tree ordering: every element of a node's left subtree is
      strictly less than the node's element, every element of its right
      subtree is greater than or equal to it. */
  ghost predicate IsBST(t: Tree) {
    match t
    case Leaf => true
    case Node(l, k, r) =>
      IsBST(l) && IsBST(r) &&
      (forall y | y in InOrder(l) :: y < k) &&
      (forall y | y in InOrder(r) :: k <= y)
  }

  /** A search tree lists its elements in non-decreasing order. */
  lemma {:induction false} InOrderSorted(t: Tree)
    requires IsBST(t)
    ensures Sorted(InOrder(t))
  {
    match t
    case Leaf =>
    case Node(l, k, r) =>
      InOrderSorted(l);
      InOrderSorted(r);
      SortedAround(InOrder(l), k, InOrder(r));
  }

  // ----- Insertion -----

  /** Ordered insertion: strictly smaller keys go left, all others right, and
      the new element becomes a leaf at the first free link. */
  function Insert(t: Tree, x: int): Tree {
    match t
    case Leaf => Node(Leaf, x, Leaf)
    case Node(l, k, r) => if x < k then Node(Insert(l, x), k, r) else Node(l, k, Insert(r, x))
  }

  /** Insertion adds exactly one node, holding `x`. */
  lemma {:induction false} InsertElems(t: Tree, x: int)
    ensures multiset(InOrder(Insert(t, x))) == multiset(InOrder(t)) + multiset{x}
    ensures Size(Insert(t, x)) == Size(t) + 1
  {
    match t
    case Leaf =>
    case Node(l, k, r) =>
      if x < k { InsertElems(l, x); } else { InsertElems(r, x); }
  }

  /** Insertion adds no element other than `x`. */
  lemma InsertOnlyAdds(t: Tree, x: int)
    ensures forall y | y in InOrder(Insert(t, x)) :: y in InOrder(t) || y == x
  {
    InsertElems(t, x);
    forall y | y in InOrder(Insert(t, x)) ensures y in InOrder(t) || y == x {
      assert y in multiset(InOrder(Insert(t, x)));
    }
  }

  /** Insertion keeps the search-tree ordering. */
  lemma {:induction false} InsertKeepsOrder(t: Tree, x: int)
    requires IsBST(t)
    ensures IsBST(Insert(t, x))
  {
    match t
    case Leaf =>
    case Node(l, k, r) =>
      if x < k {
        InsertKeepsOrder(l, x);
        InsertOnlyAdds(l, x);
      } else {
        InsertKeepsOrder(r, x);
        InsertOnlyAdds(r, x);
      }
  }

  /** On a search tree, insertion puts `x` into the in-order sequence after
      every element not larger than `x`: equal keys go to the right. */
  lemma {:induction false} InsertInOrder(t: Tree, x: int)
    requires IsBST(t)
    ensures InOrder(Insert(t, x)) == SortedInsert(InOrder(t), x)
  {
    match t
    case Leaf =>
    case Node(l, k, r) =>
      if x < k {
        InsertInOrder(l, x);
        SortedInsertBefore(InOrder(l), [k] + InOrder(r), x);
        assert InOrder(t) == InOrder(l) + ([k] + InOrder(r));
      } else {
        InsertInOrder(r, x);
        SortedInsertAfter(InOrder(l) + [k], InOrder(r), x);
      }
  }

  /** Inserting a sequence of elements one after another. */
  function InsertAll(t: Tree, xs: seq<int>): Tree
    decreases |xs|
  {
    if xs == [] then t else InsertAll(Insert(t, xs[0]), xs[1..])
  }

  // ----- Ordered search -----

  /** Ordered search: equal stops, smaller goes left, larger goes right, and a
      missing link ends the search without a result. */
  function Find(t: Tree, x: int): Option<int> {
    match t
    case Leaf => None
    case Node(l, k, r) =>
      if x == k then Some(k) else if x < k then Find(l, x) else Find(r, x)
  }

  /** On a search tree, the ordered search finds `x` exactly when some node holds it. */
  lemma {:induction false} FindCorrect(t: Tree, x: int)
    requires IsBST(t)
    ensures Find(t, x) == if x in InOrder(t) then Some(x) else None
  {
    match t
    case Leaf =>
    case Node(l, k, r) =>
      if x < k {
        FindCorrect(l, x);
        assert x !in InOrder(r);
      } else if x > k {
        FindCorrect(r, x);
        assert x !in InOrder(l);
      }
  }

  // ----- Minimum and maximum -----

  /** The element of the leftmost node. */
  function MinKey(t: Tree): int
    requires t.Node?
  {
    if t.left.Leaf? then t.key else MinKey(t.left)
  }

  /** The element of the rightmost node. */
  function MaxKey(t: Tree): int
    requires t.Node?
  {
    if t.right.Leaf? then t.key else MaxKey(t.right)
  }

  /** The tree with its leftmost node unlinked; that node's right subtree
      takes its place. */
  function RemoveMin(t: Tree): Tree
    requires t.Node?
  {
    if t.left.Leaf? then t.right else Node(RemoveMin(t.left), t.key, t.right)
  }

  /** The tree with its rightmost node unlinked; that node's left subtree
      takes its place. */
  function RemoveMax(t: Tree): Tree
    requires t.Node?
  {
    if t.right.Leaf? then t.left else Node(t.left, t.key, RemoveMax(t.right))
  }

  /** The leftmost node comes first in order, and unlinking it drops exactly
      that first element. */
  lemma {:induction false} MinSplit(t: Tree)
    requires t.Node?
    ensures InOrder(t) == [MinKey(t)] + InOrder(RemoveMin(t))
    ensures Size(RemoveMin(t)) == Size(t) - 1
  {
    if t.left.Node? {
      MinSplit(t.left);
    }
  }

  /** The rightmost node comes last in order, and unlinking it drops exactly
      that last element. */
  lemma {:induction false} MaxSplit(t: Tree)
    requires t.Node?
    ensures InOrder(t) == InOrder(RemoveMax(t)) + [MaxKey(t)]
    ensures Size(RemoveMax(t)) == Size(t) - 1
  {
    if t.right.Node? {
      MaxSplit(t.right);
    }
  }

  /** On a search tree the leftmost element is a least and the rightmost a
      greatest element. */
  lemma MinMaxBounds(t: Tree)
    requires IsBST(t) && t.Node?
    ensures forall y | y in InOrder(t) :: MinKey(t) <= y <= MaxKey(t)
  {
    InOrderSorted(t);
    MinSplit(t);
    MaxSplit(t);
    var s := InOrder(t);
    forall y | y in s ensures MinKey(t) <= y <= MaxKey(t) {
      var i :| 0 <= i < |s| && s[i] == y;
      assert s[0] == MinKey(t) && s[|s| - 1] == MaxKey(t);
    }
  }

  /** Removing elements keeps the search-tree ordering, provided the remaining
      elements sit where they sat. */
  lemma SubtreeBound(u: Tree, v: Tree, k: int)
    requires forall y | y in InOrder(u) :: y in InOrder(v)
    ensures (forall y | y in InOrder(v) :: y < k) ==> (forall y | y in InOrder(u) :: y < k)
    ensures (forall y | y in InOrder(v) :: k <= y) ==> (forall y | y in InOrder(u) :: k <= y)
  {
  }

  /** Unlinking the leftmost node keeps the search-tree ordering. */
  lemma {:induction false} RemoveMinKeepsOrder(t: Tree)
    requires IsBST(t) && t.Node?
    ensures IsBST(RemoveMin(t))
  {
    if t.left.Node? {
      RemoveMinKeepsOrder(t.left);
      MinSplit(t.left);
      SubtreeBound(RemoveMin(t.left), t.left, t.key);
    }
  }

  /** Unlinking the rightmost node keeps the search-tree ordering. */
  lemma {:induction false} RemoveMaxKeepsOrder(t: Tree)
    requires IsBST(t) && t.Node?
    ensures IsBST(RemoveMax(t))
  {
    if t.right.Node? {
      RemoveMaxKeepsOrder(t.right);
      MaxSplit(t.right);
      SubtreeBound(RemoveMax(t.right), t.right, t.key);
    }
  }

  // ----- Deletion -----

  /** What takes a deleted node's place: nothing for a leaf, the only child
      for a node with one child, otherwise the in-order successor (the
      leftmost node of the right subtree), unlinked from where it was and
      given the deleted node's two subtrees. */
  function Replace(t: Tree): Tree
    requires t.Node?
  {
    if t.left.Leaf? && t.right.Leaf? then Leaf
    else if t.right.Leaf? then t.left
    else if t.left.Leaf? then t.right
    else Node(t.left, MinKey(t.right), RemoveMin(t.right))
  }

  /** The replacement lists exactly the deleted node's two subtrees, left
      then right, in order. */
  lemma ReplaceInOrder(t: Tree)
    requires t.Node?
    ensures InOrder(Replace(t)) == InOrder(t.left) + InOrder(t.right)
  {
    if t.left.Node? && t.right.Node? {
      MinSplit(t.right);
    }
  }

  /** The replacement has one node fewer than the subtree it replaces. */
  lemma ReplaceSize(t: Tree)
    requires t.Node?
    ensures Size(Replace(t)) == Size(t) - 1
  {
    ReplaceInOrder(t);
    TraversalLengths(Replace(t));
    TraversalLengths(t.left);
    TraversalLengths(t.right);
  }

  /** On a search tree the replacement is a search tree. */
  lemma ReplaceKeepsOrder(t: Tree)
    requires IsBST(t) && t.Node?
    ensures IsBST(Replace(t))
  {
    if t.left.Node? && t.right.Node? {
      var r := t.right;
      MinSplit(r);
      MinMaxBounds(r);
      RemoveMinKeepsOrder(r);
      assert MinKey(r) in InOrder(r);
      SubtreeBound(RemoveMin(r), r, MinKey(r));
    }
  }

  /** Deletion of the first node that the ordered descent finds equal to `x`;
      the tree is unchanged when the descent reaches a missing link. */
  function Remove(t: Tree, x: int): Tree {
    match t
    case Leaf => Leaf
    case Node(l, k, r) =>
      if x == k then Replace(t)
      else if x < k then Node(Remove(l, x), k, r)
      else Node(l, k, Remove(r, x))
  }

  /** Deletion removes one node exactly when the ordered search succeeds, and
      changes nothing otherwise. */
  lemma {:induction false} RemoveSize(t: Tree, x: int)
    ensures Find(t, x).None? ==> Remove(t, x) == t
    ensures Size(Remove(t, x)) == if Find(t, x).Some? then Size(t) - 1 else Size(t)
  {
    match t
    case Leaf =>
    case Node(l, k, r) =>
      if x == k {
        ReplaceInOrder(t);
        TraversalsAgree(Replace(t));
        TraversalsAgree(l);
        TraversalsAgree(r);
      } else if x < k {
        RemoveSize(l, x);
      } else {
        RemoveSize(r, x);
      }
  }

  /** On a search tree, deletion drops the first occurrence of `x` from the
      in-order sequence and keeps everything else in place. */
  lemma {:induction false} RemoveInOrder(t: Tree, x: int)
    requires IsBST(t)
    ensures InOrder(Remove(t, x)) == RemoveFirst(InOrder(t), x)
  {
    match t
    case Leaf =>
    case Node(l, k, r) =>
      var a, b := InOrder(l), InOrder(r);
      assert InOrder(t) == a + ([k] + b);
      RemoveFirstConcat(a, [k] + b, x);
      if x == k {
        ReplaceInOrder(t);
        assert x !in a;
        assert ([k] + b)[0] == k;
      } else if x < k {
        RemoveInOrder(l, x);
        if x !in a {
          RemoveFirstAbsent(a, x);
          assert x !in [k] + b;
          RemoveFirstAbsent([k] + b, x);
        }
      } else {
        RemoveInOrder(r, x);
        assert x !in a;
        assert ([k] + b)[0] == k && ([k] + b)[1..] == b;
      }
  }

  /** Deletion only drops elements. */
  lemma RemoveKeepsElements(t: Tree, x: int)
    requires IsBST(t)
    ensures forall y | y in InOrder(Remove(t, x)) :: y in InOrder(t)
  {
    RemoveInOrder(t, x);
    RemoveFirstElems(InOrder(t), x);
    forall y | y in InOrder(Remove(t, x)) ensures y in InOrder(t) {
      assert y in multiset(InOrder(Remove(t, x)));
    }
  }

  /** Deletion keeps the search-tree ordering. */
  lemma {:induction false} RemoveKeepsOrder(t: Tree, x: int)
    requires IsBST(t)
    ensures IsBST(Remove(t, x))
  {
    match t
    case Leaf =>
    case Node(l, k, r) =>
      if x == k {
        ReplaceKeepsOrder(t);
      } else if x < k {
        RemoveKeepsOrder(l, x);
        RemoveKeepsElements(l, x);
        SubtreeBound(Remove(l, x), l, k);
      } else {
        RemoveKeepsOrder(r, x);
        RemoveKeepsElements(r, x);
        SubtreeBound(Remove(r, x), r, k);
      }
  }

  /** Deletion repeated until the ordered search fails. */
  function RemoveAll(t: Tree, x: int): Tree
    decreases Size(t)
  {
    if Find(t, x).None? then t
    else
      RemoveSize(t, x);
      RemoveAll(Remove(t, x), x)
  }

  /** On a search tree, repeated deletion drops every occurrence of `x` and
      nothing else: no element equal to `x` is left, the rest keep their
      order, and the node count drops by the number of occurrences. */
  lemma {:induction false} RemoveAllCorrect(t: Tree, x: int)
    requires IsBST(t)
    ensures IsBST(RemoveAll(t, x))
    ensures InOrder(RemoveAll(t, x)) == Without(InOrder(t), x)
    ensures x !in InOrder(RemoveAll(t, x))
    ensures Size(RemoveAll(t, x)) == Size(t) - multiset(InOrder(t))[x]
    decreases Size(t)
  {
    FindCorrect(t, x);
    WithoutFacts(InOrder(t), x);
    TraversalsAgree(t);
    if Find(t, x).None? {
      WithoutAbsent(InOrder(t), x);
    } else {
      RemoveSize(t, x);
      RemoveKeepsOrder(t, x);
      RemoveInOrder(t, x);
      RemoveAllCorrect(Remove(t, x), x);
      WithoutRemoveFirst(InOrder(t), x);
      TraversalsAgree(RemoveAll(t, x));
    }
  }

  // ----- A worked scenario -----

  /** Inserting 5, 3, 8, 1, 4, 7, 9 gives the in-order sequence 1..9 without
      2 and 6; deleting the root 5, which has two children, promotes its
      in-order successor 7 to the root. */
  lemma Scenario()
    ensures InOrder(InsertAll(Leaf, [5, 3, 8, 1, 4, 7, 9])) == [1, 3, 4, 5, 7, 8, 9]
    ensures Remove(InsertAll(Leaf, [5, 3, 8, 1, 4, 7, 9]), 5).key == 7
    ensures InOrder(Remove(InsertAll(Leaf, [5, 3, 8, 1, 4, 7, 9]), 5)) == [1, 3, 4, 7, 8, 9]
    ensures MinKey(InsertAll(Leaf, [5, 3, 8, 1, 4, 7, 9])) == 1
    ensures MaxKey(InsertAll(Leaf, [5, 3, 8, 1, 4, 7, 9])) == 9
  {
    var t := InsertAll(Leaf, [5, 3, 8, 1, 4, 7, 9]);
    var l := Node(Node(Leaf, 1, Leaf), 3, Node(Leaf, 4, Leaf));
    var r := Node(Node(Leaf, 7, Leaf), 8, Node(Leaf, 9, Leaf));
    assert t == Node(l, 5, r);
  }
}
