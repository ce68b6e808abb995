/** The search tree on the linked structure: the methods of the search
    tree walk down with `current`/`parent` references and rewire links, and
    each is proved to leave the tree standing for the corresponding function
    of module SearchTrees applied to the old tree value. The search tree
    shares the root and the node count of the base tree. */
module BinarySearchTrees {
  import opened Failures
  import opened Trees
  import opened Sequences
  import SearchTrees
  import opened BinaryTreeNodes
  import opened Paths
  import opened BinaryTrees

  /** The invariant the search-tree operations keep: a well-linked tree whose
      stored count is its node count and whose elements are in search-tree
      order. */
  ghost predicate IsSearchTree(tree: BinaryTree)
    reads tree, tree.Repr()
  {
    tree.Valid() && tree.Counted() && SearchTrees.IsBST(tree.Model())
  }

  /** An empty search tree. */
  method EmptySearchTree() returns (tree: BinaryTree)
    ensures IsSearchTree(tree) && tree.Model() == Leaf && fresh(tree)
  {
    tree := new BinaryTree();
  }

  /** A search tree holding only `element`. */
  method SingletonSearchTree(element: int) returns (tree: BinaryTree)
    ensures IsSearchTree(tree) && tree.Model() == Node(Leaf, element, Leaf)
    ensures fresh(tree) && fresh(tree.Repr())
  {
    tree := new BinaryTree.WithRoot(element);
  }

  /** Ordered insertion: a new leaf holding `element` is linked at the first
      free link of the descent, left for strictly smaller, right otherwise. */
  method AddElement(tree: BinaryTree, element: int)
    requires tree.Valid()
    modifies tree, tree.Repr()
    ensures tree.Valid()
    ensures tree.Model() == SearchTrees.Insert(old(tree.Model()), element)
    ensures tree.numberOfNodes == old(tree.numberOfNodes) + 1
    ensures old(tree.Counted()) ==> tree.Counted()
    ensures fresh(tree.Repr() - old(tree.Repr())) && old(tree.Repr()) <= tree.Repr()
    ensures SearchTrees.IsBST(old(tree.Model())) ==>
      SearchTrees.IsBST(tree.Model()) &&
      InOrder(tree.Model()) == SortedInsert(InOrder(old(tree.Model())), element)
  {
    NodesAllocated(tree.shape);
    var node := new Node(element);
    if tree.IsEmpty() {
      tree.root := node;
      tree.numberOfNodes := tree.numberOfNodes + 1;
      tree.shape := Cell(Nil, node, element, Nil);
      assert tree.Repr() == {node};
      assert tree.Valid();
      InsertFacts(Leaf, element);
      return;
    }
    ghost var s0 := tree.shape;
    var current := tree.root;
    ghost var p: Path := [];
    ghost var s1: Shape;
    while true
      invariant ValidPath(s0, p) && At(s0, p).Cell? && At(s0, p).node == current
      invariant SearchTrees.Insert(Abs(s0), element) ==
        PutT(s0, p, SearchTrees.Insert(Abs(At(s0, p)), element))
      invariant tree.shape == s0 && unchanged(tree) && tree.Valid()
      invariant node.element == element && node.left == null && node.right == null
      decreases Size(Abs(At(s0, p)))
    {
      ghost var c := At(s0, p);
      LinkedAt(s0, p);
      AtFacts(s0, p);
      if element < current.element {
        if current.left == null {
          s1 := LinkLeaf(current, node, false, s0, p);
          break;
        }
        Extend(s0, p, false, SearchTrees.Insert(Abs(c.l), element));
        current := current.left;
        p := p + [false];
      } else {
        if current.right == null {
          s1 := LinkLeaf(current, node, true, s0, p);
          break;
        }
        Extend(s0, p, true, SearchTrees.Insert(Abs(c.r), element));
        current := current.right;
        p := p + [true];
      }
    }
    tree.shape := s1;
    tree.numberOfNodes := tree.numberOfNodes + 1;
    InsertFacts(Abs(s0), element);
  }

  /** What ordered insertion of `x` does to the tree value `t`: one node
      more, and on a search tree the order kept and `x` placed after every
      element not greater than it. */
  lemma InsertFacts(t: Tree, x: int)
    ensures Size(SearchTrees.Insert(t, x)) == Size(t) + 1
    ensures SearchTrees.IsBST(t) ==>
      SearchTrees.IsBST(SearchTrees.Insert(t, x)) &&
      InOrder(SearchTrees.Insert(t, x)) == SortedInsert(InOrder(t), x)
  {
    SearchTrees.InsertElems(t, x);
    if SearchTrees.IsBST(t) {
      SearchTrees.InsertKeepsOrder(t, x);
      SearchTrees.InsertInOrder(t, x);
    }
  }

  /** Links the fresh leaf `node` below `current`, the node at the end of
      path `p`, on the side where ordered insertion found a free link;
      `s1` is the shape afterwards. */
  method LinkLeaf(current: Node, node: Node, right: bool, ghost s0: Shape, ghost p: Path)
    returns (ghost s1: Shape)
    requires ValidPath(s0, p) && Linked(s0) && Distinct(s0)
    requires At(s0, p).Cell? && At(s0, p).node == current
    requires if right then current.right == null else current.left == null
    requires right <==> !(node.element < current.element)
    requires node !in NodesOf(s0) && node.left == null && node.right == null
    modifies current
    ensures Linked(s1) && Distinct(s1) && Root(s1) == Root(s0)
    ensures NodesOf(s1) == NodesOf(s0) + {node}
    ensures Abs(s1) == PutT(s0, p, SearchTrees.Insert(Abs(At(s0, p)), node.element))
    ensures node.element == old(node.element)
  {
    ghost var c := At(s0, p);
    NodesAllocated(s0);
    LinkedSplit(s0, p);
    AtFacts(s0, p);
    ghost var leaf := Cell(Nil, node, node.element, Nil);
    ghost var u;
    if right {
      current.SetRight(node);
      u := Cell(c.l, current, c.key, leaf);
      assert Linked(c.l);
    } else {
      current.SetLeft(node);
      u := Cell(leaf, current, c.key, c.r);
      assert Linked(c.r);
    }
    Graft(s0, p, u);
    s1 := Put(s0, p, u);
  }

  /** The child of a present node's shape on one side. */
  function Side(s: Shape, right: bool): Shape
    requires s.Cell?
  {
    if right then s.r else s.l
  }

  /** The tree value of a present node's shape with the child on one side
      replaced by `t`. */
  ghost function WithChild(c: Shape, right: bool, t: Tree): Tree
    requires c.Cell?
  {
    if right then Node(Abs(c.l), c.key, t) else Node(t, c.key, Abs(c.r))
  }

  /** Unlinks `current`, the child of `parent` on side `right`, whose link on
      that same side is null: `parent` is given the other child of `current`
      instead. `s1` is the shape afterwards. */
  method Bypass(parent: Node, current: Node, right: bool, ghost s: Shape, ghost qp: Path)
    returns (ghost s1: Shape)
    requires ValidPath(s, qp) && Linked(s) && Distinct(s)
    requires At(s, qp).Cell? && At(s, qp).node == parent
    requires Side(At(s, qp), right).Cell? && Side(At(s, qp), right).node == current
    requires (if right then current.right else current.left) == null
    modifies parent
    ensures Linked(s1) && Distinct(s1) && Root(s1) == Root(s)
    ensures NodesOf(s1) == NodesOf(s) - {current}
    ensures Abs(s1) == PutT(s, qp, WithChild(At(s, qp), right, Abs(Side(Side(At(s, qp), right), !right))))
    ensures current.element == old(current.element)
  {
    ghost var pc := At(s, qp);
    ghost var c := Side(pc, right);
    ghost var rest := Side(c, !right);
    NodesAllocated(s);
    LinkedSplit(s, qp);
    AtFacts(s, qp);
    assert Linked(c) && Linked(rest) && Linked(pc.l) && Linked(pc.r);
    ghost var u;
    if right {
      parent.SetRight(current.left);
      u := Cell(pc.l, parent, pc.key, rest);
    } else {
      parent.SetLeft(current.right);
      u := Cell(rest, parent, pc.key, pc.r);
    }
    assert NodesOf(c) == {current} + NodesOf(rest);
    assert NodesOf(u) == NodesOf(pc) - {current};
    Graft(s, qp, u);
    Exchanged(NodesOf(s), NodesOf(pc), NodesOf(u), current);
    s1 := Put(s, qp, u);
  }

  /** The node that takes the place of a deleted `node`: none for a leaf,
      the only child for a node with one child, and otherwise the leftmost
      node of the right subtree: when that is the right child itself it is
      given the deleted node's left subtree, otherwise it is unlinked from
      its parent and given the deleted node's two subtrees. `s1` is the shape
      of the returned subtree. */
  method Replacement(node: Node, ghost s: Shape) returns (res: Node?, ghost s1: Shape)
    requires s.Cell? && s.node == node && Linked(s) && Distinct(s)
    modifies NodesOf(s)
    ensures Linked(s1) && Distinct(s1) && Root(s1) == res
    ensures NodesOf(s1) == NodesOf(s) - {node}
    ensures Abs(s1) == SearchTrees.Replace(Abs(s))
    ensures unchanged(node)
  {
    NodesAllocated(s);
    if node.left == null && node.right == null {
      return null, Nil;
    }
    if node.left != null && node.right == null {
      return node.left, s.l;
    }
    if node.left == null && node.right != null {
      return node.right, s.r;
    }
    ghost var r := s.r;
    var current := node.right;
    if current.left == null {
      // the descent along the left spine stops at once: the right child is
      // the successor and keeps its own right subtree
      assert s.l.Cell? && r.Cell? && r.l == Nil;
      current.SetLeft(node.left);
      s1 := Cell(s.l, current, r.key, r.r);
      assert Abs(r).left == Leaf;
      assert SearchTrees.MinKey(Abs(r)) == r.key;
      assert SearchTrees.RemoveMin(Abs(r)) == Abs(r.r);
      assert Abs(s) == Node(Abs(s.l), s.key, Abs(r));
      assert Abs(s1) == SearchTrees.Replace(Abs(s));
    } else {
      var parent;
      ghost var qp;
      parent, current, qp := Spine(node.right, false, r);
      s1 := Promote(node, parent, current, s, qp);
    }
    res := current;
  }

  /** The two-children case of Replacement when the in-order successor
      `current` lies deeper than the right child of `node`: `parent`, the node
      at path `qp` of the right subtree, is given the right subtree of
      `current`, and `current` is given both subtrees of `node`. */
  method Promote(node: Node, parent: Node, current: Node, ghost s: Shape, ghost qp: Path)
    returns (ghost s1: Shape)
    requires s.Cell? && s.node == node && Linked(s) && Distinct(s) && s.r.Cell?
    requires ValidPath(s.r, qp) && At(s.r, qp).Cell? && At(s.r, qp).node == parent
    requires At(s.r, qp).l.Cell? && At(s.r, qp).l.node == current && current.left == null
    requires current.element == SearchTrees.MinKey(Abs(s.r))
    requires SearchTrees.RemoveMin(Abs(s.r)) ==
      PutT(s.r, qp, WithChild(At(s.r, qp), false, Abs(At(s.r, qp).l.r)))
    modifies NodesOf(s)
    ensures Linked(s1) && Distinct(s1) && Root(s1) == current
    ensures NodesOf(s1) == NodesOf(s) - {node}
    ensures Abs(s1) == Node(Abs(s.l), SearchTrees.MinKey(Abs(s.r)), SearchTrees.RemoveMin(Abs(s.r)))
    ensures unchanged(node)
  {
    ghost var r := s.r;
    NodesAllocated(s);
    AtFacts(r, qp);
    ghost var r1 := Bypass(parent, current, false, r, qp);
    current.SetLeft(node.left);
    current.SetRight(node.right);
    s1 := Cell(s.l, current, current.element, r1);
  }

  /** Ordered deletion of the first node found equal to `target`: the root
      is replaced by its replacement, any other node's spot in its parent is
      given the replacement. Fails with ElementNotFound, changing nothing, on
      an empty tree or when the descent reaches a missing link. */
  method RemoveElement(tree: BinaryTree, target: int) returns (r: Result<int>)
    requires tree.Valid() && tree.Counted()
    modifies tree, tree.Repr()
    ensures tree.Valid() && tree.Counted() && tree.Repr() <= old(tree.Repr())
    ensures SearchTrees.Find(old(tree.Model()), target).None? ==>
      r == Err(ElementNotFound) && unchanged(tree)
    ensures SearchTrees.Find(old(tree.Model()), target).Some? ==>
      r == Ok(target) &&
      tree.Model() == SearchTrees.Remove(old(tree.Model()), target) &&
      tree.numberOfNodes == old(tree.numberOfNodes) - 1
    ensures SearchTrees.IsBST(old(tree.Model())) ==>
      SearchTrees.IsBST(tree.Model()) &&
      InOrder(tree.Model()) == RemoveFirst(InOrder(old(tree.Model())), target)
  {
    if tree.IsEmpty() {
      return Err(ElementNotFound);
    }
    ghost var s0 := tree.shape;
    var current := tree.root;
    if target == tree.root.element {
      ghost var s1;
      var res;
      res, s1 := Replacement(tree.root, s0);
      tree.root, tree.shape, tree.numberOfNodes := res, s1, tree.numberOfNodes - 1;
      RemoveFacts(Abs(s0), target);
      return Ok(current.element);
    }
    ghost var d := !(target < current.element);
    if target < current.element {
      current := current.left;
    } else {
      current := current.right;
    }
    var parent := tree.root;
    ghost var p: Path := [];
    NodesAllocated(s0);
    Extend(s0, p, d, SearchTrees.Remove(Abs(Side(s0, d)), target));
    while current != null
      invariant ValidPath(s0, p) && At(s0, p).Cell? && At(s0, p).node == parent
      invariant ValidPath(s0, p + [d]) && At(s0, p + [d]) == Side(At(s0, p), d)
      invariant current == Root(At(s0, p + [d]))
      invariant SearchTrees.Remove(Abs(s0), target) ==
        PutT(s0, p + [d], SearchTrees.Remove(Abs(At(s0, p + [d])), target))
      invariant SearchTrees.Find(Abs(s0), target) == SearchTrees.Find(Abs(At(s0, p + [d])), target)
      invariant tree.shape == s0 && unchanged(tree) && unchanged(NodesOf(s0))
      decreases Size(Abs(At(s0, p + [d])))
    {
      ghost var q := p + [d];
      LinkedAt(s0, q);
      if target == current.element {
        ghost var c := At(s0, q);
        Extend(s0, p, d, SearchTrees.Replace(Abs(c)));
        assert SearchTrees.Remove(Abs(c), target) == SearchTrees.Replace(Abs(c));
        ghost var s1 := Detach(parent, current, d, s0, p);
        assert Abs(s1) == SearchTrees.Remove(Abs(s0), target);
        tree.shape, tree.numberOfNodes := s1, tree.numberOfNodes - 1;
        RemoveFacts(Abs(s0), target);
        return Ok(current.element);
      }
      ghost var e := !(target < current.element);
      Extend(s0, q, e, SearchTrees.Remove(Abs(Side(At(s0, q), e)), target));
      parent, p, d := current, q, e;
      if target < current.element {
        current := current.left;
      } else {
        current := current.right;
      }
    }
    RemoveFacts(Abs(s0), target);
    return Err(ElementNotFound);
  }

  /** What the deletion of `x` does to the tree value `t`: one node fewer
      exactly when the ordered search succeeds, nothing changed otherwise,
      and on a search tree the order kept and the first `x` in order gone. */
  lemma RemoveFacts(t: Tree, x: int)
    ensures SearchTrees.Find(t, x).None? ==> SearchTrees.Remove(t, x) == t
    ensures Size(SearchTrees.Remove(t, x)) == if SearchTrees.Find(t, x).Some? then Size(t) - 1 else Size(t)
    ensures SearchTrees.IsBST(t) ==>
      SearchTrees.IsBST(SearchTrees.Remove(t, x)) &&
      InOrder(SearchTrees.Remove(t, x)) == RemoveFirst(InOrder(t), x)
  {
    SearchTrees.RemoveSize(t, x);
    if SearchTrees.IsBST(t) {
      SearchTrees.RemoveKeepsOrder(t, x);
      SearchTrees.RemoveInOrder(t, x);
    }
  }

  /** Deletes `current`, the child of `parent` on side `right`: the parent's
      link that leads to `current` is given the replacement of `current`.
      `s1` is the shape afterwards. */
  method Detach(parent: Node, current: Node, ghost right: bool, ghost s: Shape, ghost p: Path)
    returns (ghost s1: Shape)
    requires ValidPath(s, p) && Linked(s) && Distinct(s)
    requires At(s, p).Cell? && At(s, p).node == parent
    requires Side(At(s, p), right).Cell? && Side(At(s, p), right).node == current
    modifies NodesOf(s)
    ensures Linked(s1) && Distinct(s1) && Root(s1) == Root(s)
    ensures NodesOf(s1) == NodesOf(s) - {current}
    ensures Abs(s1) == PutT(s, p, WithChild(At(s, p), right, SearchTrees.Replace(Abs(Side(At(s, p), right)))))
    ensures current.element == old(current.element)
  {
    ghost var pc := At(s, p);
    ghost var c := Side(pc, right);
    NodesAllocated(s);
    LinkedSplit(s, p);
    AtFacts(s, p);
    assert Linked(pc.l) && Linked(pc.r);
    var toLeft := current == parent.left;
    assert toLeft == !right by {
      assert current in NodesOf(c) && NodesOf(pc.l) !! NodesOf(pc.r);
    }
    var res;
    ghost var c1;
    res, c1 := Replacement(current, c);
    assert parent.element == pc.key && parent.left == Root(pc.l) && parent.right == Root(pc.r);
    assert LinkedAbove(s, p) && Linked(Side(pc, !right));
    s1 := Hang(parent, res, toLeft, s, p, c1);
  }

  /** Gives `parent`, the node at path `p`, the subtree `c1` rooted at `res`
      in place of its left child when `toLeft` and of its right child
      otherwise; `s1` is the shape afterwards. */
  method Hang(parent: Node, res: Node?, toLeft: bool, ghost s: Shape, ghost p: Path, ghost c1: Shape)
    returns (ghost s1: Shape)
    requires ValidPath(s, p) && Distinct(s) && LinkedAbove(s, p)
    requires At(s, p).Cell? && At(s, p).node == parent && Side(At(s, p), !toLeft).Cell?
    requires parent.element == At(s, p).key
    requires parent.left == Root(At(s, p).l) && parent.right == Root(At(s, p).r)
    requires Linked(Side(At(s, p), toLeft))
    requires Linked(c1) && Distinct(c1) && Root(c1) == res
    requires NodesOf(c1) == NodesOf(Side(At(s, p), !toLeft)) - {Side(At(s, p), !toLeft).node}
    modifies parent
    ensures Linked(s1) && Distinct(s1) && Root(s1) == Root(s)
    ensures NodesOf(s1) == NodesOf(s) - {Side(At(s, p), !toLeft).node}
    ensures Abs(s1) == PutT(s, p, WithChild(At(s, p), !toLeft, Abs(c1)))
  {
    ghost var pc := At(s, p);
    AtFacts(s, p);
    NodesAllocated(s);
    NodesAllocated(c1);
    assert parent !in NodesOf(c1) && parent !in NodesOf(Side(pc, toLeft));
    ghost var u;
    assert Distinct(pc.l) && Distinct(pc.r) && NodesOf(pc.l) !! NodesOf(pc.r);
    if toLeft {
      parent.SetLeft(res);
      u := Cell(c1, parent, pc.key, pc.r);
      assert Linked(c1) && Linked(pc.r);
    } else {
      parent.SetRight(res);
      u := Cell(pc.l, parent, pc.key, c1);
      assert Linked(c1) && Linked(pc.l);
    }
    assert Linked(u) && Distinct(u);
    assert NodesOf(u) == NodesOf(pc) - {Side(pc, !toLeft).node};
    Graft(s, p, u);
    Exchanged(NodesOf(s), NodesOf(pc), NodesOf(u), Side(pc, !toLeft).node);
    s1 := Put(s, p, u);
  }

  /** Replacing a part of a set of nodes by that part less `x` takes `x`
      out of the whole. */
  lemma Exchanged(all: set<Node>, part: set<Node>, rest: set<Node>, x: Node)
    requires part <= all && x in part && rest == part - {x}
    ensures (all - part) + rest == all - {x}
  {
  }

  /** No element of `s` is smaller than `x`. */
  ghost predicate NoneBelow(x: int, s: seq<int>) {
    forall y | y in s :: x <= y
  }

  /** No element of `s` is larger than `x`. */
  ghost predicate NoneAbove(x: int, s: seq<int>) {
    forall y | y in s :: y <= x
  }

  /** On a search tree the leftmost element is a least and the rightmost a
      greatest element. */
  lemma ExtremeLeast(t: Tree)
    requires t.Node?
    ensures SearchTrees.IsBST(t) ==> NoneBelow(SearchTrees.MinKey(t), InOrder(t))
    ensures SearchTrees.IsBST(t) ==> NoneAbove(SearchTrees.MaxKey(t), InOrder(t))
  {
    if SearchTrees.IsBST(t) {
      SearchTrees.MinMaxBounds(t);
    }
  }

  /** Unlinks the leftmost node and returns its element: the root itself
      when it has no left child (its right subtree becomes the tree),
      otherwise the end of the left spine, whose parent is given its right
      subtree. Fails with EmptyCollection on an empty tree. */
  method RemoveMin(tree: BinaryTree) returns (r: Result<int>)
    requires tree.Valid() && tree.Counted()
    modifies tree, tree.Repr()
    ensures tree.Valid() && tree.Counted() && tree.Repr() <= old(tree.Repr())
    ensures old(tree.Model()).Leaf? ==> r == Err(EmptyCollection) && unchanged(tree)
    ensures old(tree.Model()).Node? ==>
      r.Ok? && r.value == SearchTrees.MinKey(old(tree.Model())) &&
      tree.Model() == SearchTrees.RemoveMin(old(tree.Model())) &&
      InOrder(old(tree.Model())) == [r.value] + InOrder(tree.Model()) &&
      tree.numberOfNodes == old(tree.numberOfNodes) - 1
    ensures SearchTrees.IsBST(old(tree.Model())) ==> SearchTrees.IsBST(tree.Model())
    ensures r.Ok? && SearchTrees.IsBST(old(tree.Model())) ==> NoneBelow(r.value, InOrder(old(tree.Model())))
  {
    if tree.IsEmpty() {
      return Err(EmptyCollection);
    }
    ghost var s0 := tree.shape;
    ExtremeLeast(Abs(s0));
    var current := tree.root;
    if tree.root.left == null {
      assert s0.l == Nil && Linked(s0.r) && Distinct(s0.r);
      assert tree.numberOfNodes == Size(Abs(s0)) == 1 + Size(Abs(s0.r));
      ExtremeFacts(Abs(s0));
      tree.root := tree.root.right;
      tree.numberOfNodes := tree.numberOfNodes - 1;
      tree.shape := s0.r;
      return Ok(current.element);
    }
    var parent;
    ghost var qp;
    NodesAllocated(s0);
    parent, current, qp := Spine(tree.root, false, s0);
    AtFacts(s0, qp);
    ghost var s1 := Bypass(parent, current, false, s0, qp);
    tree.shape := s1;
    tree.numberOfNodes := tree.numberOfNodes - 1;
    ExtremeFacts(Abs(s0));
    return Ok(current.element);
  }

  /** Unlinks the rightmost node and returns its element, the mirror image
      of RemoveMin. Fails with EmptyCollection on an empty tree. */
  method RemoveMax(tree: BinaryTree) returns (r: Result<int>)
    requires tree.Valid() && tree.Counted()
    modifies tree, tree.Repr()
    ensures tree.Valid() && tree.Counted() && tree.Repr() <= old(tree.Repr())
    ensures old(tree.Model()).Leaf? ==> r == Err(EmptyCollection) && unchanged(tree)
    ensures old(tree.Model()).Node? ==>
      r.Ok? && r.value == SearchTrees.MaxKey(old(tree.Model())) &&
      tree.Model() == SearchTrees.RemoveMax(old(tree.Model())) &&
      InOrder(old(tree.Model())) == InOrder(tree.Model()) + [r.value] &&
      tree.numberOfNodes == old(tree.numberOfNodes) - 1
    ensures SearchTrees.IsBST(old(tree.Model())) ==> SearchTrees.IsBST(tree.Model())
    ensures r.Ok? && SearchTrees.IsBST(old(tree.Model())) ==> NoneAbove(r.value, InOrder(old(tree.Model())))
  {
    if tree.IsEmpty() {
      return Err(EmptyCollection);
    }
    ghost var s0 := tree.shape;
    ExtremeLeast(Abs(s0));
    var current := tree.root;
    if tree.root.right == null {
      assert s0.r == Nil && Linked(s0.l) && Distinct(s0.l);
      assert tree.numberOfNodes == Size(Abs(s0)) == 1 + Size(Abs(s0.l));
      ExtremeFacts(Abs(s0));
      tree.root := tree.root.left;
      tree.numberOfNodes := tree.numberOfNodes - 1;
      tree.shape := s0.l;
      return Ok(current.element);
    }
    var parent;
    ghost var qp;
    NodesAllocated(s0);
    parent, current, qp := Spine(tree.root, true, s0);
    AtFacts(s0, qp);
    ghost var s1 := Bypass(parent, current, true, s0, qp);
    tree.shape := s1;
    tree.numberOfNodes := tree.numberOfNodes - 1;
    ExtremeFacts(Abs(s0));
    return Ok(current.element);
  }

  /** Unlinking the extreme node on side `right` (the rightmost when `right`,
      otherwise the leftmost) of the tree value `t`. */
  function Unlinked(t: Tree, right: bool): Tree
    requires t.Node?
  {
    if right then SearchTrees.RemoveMax(t) else SearchTrees.RemoveMin(t)
  }

  /** The element of the extreme node on side `right`. */
  function Extreme(t: Tree, right: bool): int
    requires t.Node?
  {
    if right then SearchTrees.MaxKey(t) else SearchTrees.MinKey(t)
  }

  /** Follows the links on side `right` from `top`, whose link on that side
      is present, to the last node of that spine, keeping the node before it
      as `parent`; `qp` is the path to `parent`. Giving `parent` the other
      child of `current` unlinks the extreme node. */
  method Spine(top: Node, right: bool, ghost s: Shape) returns (parent: Node, current: Node, ghost qp: Path)
    requires s.Cell? && s.node == top && Linked(s)
    requires (if right then top.right else top.left) != null
    ensures ValidPath(s, qp) && At(s, qp).Cell? && At(s, qp).node == parent
    ensures Side(At(s, qp), right).Cell? && Side(At(s, qp), right).node == current
    ensures (if right then current.right else current.left) == null
    ensures current.element == Extreme(Abs(s), right)
    ensures Unlinked(Abs(s), right) ==
      PutT(s, qp, WithChild(At(s, qp), right, Abs(Side(Side(At(s, qp), right), !right))))
  {
    parent := top;
    qp := [];
    current := if right then top.right else top.left;
    Extend(s, qp, right, Unlinked(Abs(Side(s, right)), right));
    while (if right then current.right else current.left) != null
      invariant Linked(s) && ValidPath(s, qp) && At(s, qp).Cell? && At(s, qp).node == parent
      invariant ValidPath(s, qp + [right]) && At(s, qp + [right]) == Side(At(s, qp), right)
      invariant At(s, qp + [right]).Cell? && At(s, qp + [right]).node == current
      invariant Unlinked(Abs(s), right) == PutT(s, qp + [right], Unlinked(Abs(At(s, qp + [right])), right))
      invariant Extreme(Abs(s), right) == Extreme(Abs(At(s, qp + [right])), right)
      decreases Size(Abs(At(s, qp + [right])))
    {
      ghost var q := qp + [right];
      LinkedAt(s, q);
      Extend(s, q, right, Unlinked(Abs(Side(At(s, q), right)), right));
      parent, qp := current, q;
      current := if right then current.right else current.left;
    }
    ghost var c := At(s, qp + [right]);
    LinkedAt(s, qp + [right]);
    Extend(s, qp, right, Abs(Side(c, !right)));
  }

  /** What unlinking the leftmost or the rightmost node does to the tree
      value `t`: the in-order sequence loses its first or its last element,
      there is one node fewer, and a search tree stays a search tree. */
  lemma ExtremeFacts(t: Tree)
    requires t.Node?
    ensures InOrder(t) == [SearchTrees.MinKey(t)] + InOrder(SearchTrees.RemoveMin(t))
    ensures InOrder(t) == InOrder(SearchTrees.RemoveMax(t)) + [SearchTrees.MaxKey(t)]
    ensures Size(SearchTrees.RemoveMin(t)) == Size(t) - 1
    ensures Size(SearchTrees.RemoveMax(t)) == Size(t) - 1
    ensures SearchTrees.IsBST(t) ==>
      SearchTrees.IsBST(SearchTrees.RemoveMin(t)) && SearchTrees.IsBST(SearchTrees.RemoveMax(t))
  {
    SearchTrees.MinSplit(t);
    SearchTrees.MaxSplit(t);
    if SearchTrees.IsBST(t) {
      SearchTrees.RemoveMinKeepsOrder(t);
      SearchTrees.RemoveMaxKeepsOrder(t);
    }
  }

  /** The element of the leftmost node, found by following left links from
      the root: the first element in order and, on a search tree, the least.
      Fails with EmptyCollection on an empty tree. */
  method FindMin(tree: BinaryTree) returns (r: Result<int>)
    requires tree.Valid()
    ensures tree.Model().Leaf? ==> r == Err(EmptyCollection)
    ensures tree.Model().Node? ==>
      r == Ok(SearchTrees.MinKey(tree.Model())) && r.value == InOrder(tree.Model())[0]
    ensures r.Ok? && SearchTrees.IsBST(tree.Model()) ==>
      forall y | y in InOrder(tree.Model()) :: r.value <= y
  {
    if tree.IsEmpty() {
      return Err(EmptyCollection);
    }
    ghost var s := tree.shape;
    ExtremeBounds(Abs(s));
    if tree.root.left == null {
      assert s.l == Nil && tree.root.element == s.key;
      assert SearchTrees.MinKey(Abs(s)) == s.key;
      return Ok(tree.root.element);
    }
    var current := tree.root;
    ghost var p: Path := [];
    while current.left != null
      invariant Linked(s) && ValidPath(s, p) && At(s, p).Cell? && At(s, p).node == current
      invariant SearchTrees.MinKey(Abs(s)) == SearchTrees.MinKey(Abs(At(s, p)))
      decreases Size(Abs(At(s, p)))
    {
      LinkedAt(s, p);
      Extend(s, p, false, Leaf);
      current := current.left;
      p := p + [false];
    }
    LinkedAt(s, p);
    return Ok(current.element);
  }

  /** The element of the rightmost node, found by following right links
      from the root: the last element in order and, on a search tree, the
      greatest. Fails with EmptyCollection on an empty tree. */
  method FindMax(tree: BinaryTree) returns (r: Result<int>)
    requires tree.Valid()
    ensures tree.Model().Leaf? ==> r == Err(EmptyCollection)
    ensures tree.Model().Node? ==>
      r == Ok(SearchTrees.MaxKey(tree.Model())) &&
      r.value == InOrder(tree.Model())[|InOrder(tree.Model())| - 1]
    ensures r.Ok? && SearchTrees.IsBST(tree.Model()) ==>
      forall y | y in InOrder(tree.Model()) :: y <= r.value
  {
    if tree.IsEmpty() {
      return Err(EmptyCollection);
    }
    ghost var s := tree.shape;
    ExtremeBounds(Abs(s));
    if tree.root.right == null {
      assert s.r == Nil && tree.root.element == s.key;
      assert SearchTrees.MaxKey(Abs(s)) == s.key;
      return Ok(tree.root.element);
    }
    var current := tree.root;
    ghost var p: Path := [];
    while current.right != null
      invariant Linked(s) && ValidPath(s, p) && At(s, p).Cell? && At(s, p).node == current
      invariant SearchTrees.MaxKey(Abs(s)) == SearchTrees.MaxKey(Abs(At(s, p)))
      decreases Size(Abs(At(s, p)))
    {
      LinkedAt(s, p);
      Extend(s, p, true, Leaf);
      current := current.right;
      p := p + [true];
    }
    LinkedAt(s, p);
    return Ok(current.element);
  }

  /** The leftmost and rightmost elements open and close the in-order
      sequence, and on a search tree they bound every element. */
  lemma ExtremeBounds(t: Tree)
    requires t.Node?
    ensures InOrder(t)[0] == SearchTrees.MinKey(t)
    ensures InOrder(t)[|InOrder(t)| - 1] == SearchTrees.MaxKey(t)
    ensures SearchTrees.IsBST(t) ==>
      forall y | y in InOrder(t) :: SearchTrees.MinKey(t) <= y <= SearchTrees.MaxKey(t)
  {
    SearchTrees.MinSplit(t);
    SearchTrees.MaxSplit(t);
    if SearchTrees.IsBST(t) {
      SearchTrees.MinMaxBounds(t);
    }
  }

  /** The node the ordered search from `node` stops at: one holding
      `target`, or null when the search would follow a missing link. */
  function FindAgain(target: int, node: Node, ghost s: Shape): (found: Node?)
    requires s.Cell? && s.node == node && Linked(s)
    reads NodesOf(s)
    ensures found == null <==> SearchTrees.Find(Abs(s), target).None?
    ensures found != null ==> found in NodesOf(s) && found.element == target
    decreases s
  {
    if target == node.element then node
    else if target < node.element && node.left != null then FindAgain(target, node.left, s.l)
    else if target > node.element && node.right != null then FindAgain(target, node.right, s.r)
    else null
  }

  /** The element the ordered search finds equal to `target`, or
      ElementNotFound on an empty tree or when the search fails. */
  function Find(tree: BinaryTree, target: int): (r: Result<int>)
    requires tree.Valid()
    reads tree, tree.Repr()
    ensures r.Ok? <==> SearchTrees.Find(tree.Model(), target).Some?
    ensures r.Ok? ==> r.value == target
    ensures r.Err? ==> r.error == ElementNotFound
  {
    if tree.IsEmpty() then Err(ElementNotFound)
    else
      var node := FindAgain(target, tree.root, tree.shape);
      if node != null then Ok(node.element) else Err(ElementNotFound)
  }

  /** Whether the ordered search finds `target`. */
  function Contains(tree: BinaryTree, target: int): (b: bool)
    requires tree.Valid()
    reads tree, tree.Repr()
    ensures b <==> SearchTrees.Find(tree.Model(), target).Some?
  {
    Find(tree, target).Ok?
  }

  /** On a search tree the ordered search is exact: it finds `target`
      exactly when some node holds it, so it agrees with the equality search
      of the base tree. */
  lemma ContainsOnSearchTree(tree: BinaryTree, target: int)
    requires IsSearchTree(tree)
    ensures Contains(tree, target) <==> target in InOrder(tree.Model())
    ensures Contains(tree, target) == tree.Contains(target)
    ensures Find(tree, target) == if target in InOrder(tree.Model()) then Ok(target) else Err(ElementNotFound)
  {
    SearchTrees.FindCorrect(tree.Model(), target);
  }

  /** Deletes the first node the ordered search finds equal to `target`,
      failing with ElementNotFound if there is none; then repeats the
      deletion until the tree is empty or a deletion fails. */
  method RemoveAllOccurrences(tree: BinaryTree, target: int) returns (r: Outcome)
    requires tree.Valid() && tree.Counted()
    modifies tree, tree.Repr()
    ensures tree.Valid() && tree.Counted() && tree.Repr() <= old(tree.Repr())
    ensures SearchTrees.Find(old(tree.Model()), target).None? ==>
      r == Fail(ElementNotFound) && unchanged(tree)
    ensures SearchTrees.Find(old(tree.Model()), target).Some? ==>
      r == Pass && tree.Model() == SearchTrees.RemoveAll(old(tree.Model()), target)
    ensures SearchTrees.IsBST(old(tree.Model())) ==>
      SearchTrees.IsBST(tree.Model()) &&
      InOrder(tree.Model()) == Without(InOrder(old(tree.Model())), target) &&
      tree.numberOfNodes == old(tree.numberOfNodes) - multiset(InOrder(old(tree.Model())))[target]
  {
    ghost var t0 := tree.Model();
    if SearchTrees.IsBST(t0) {
      SearchTrees.RemoveAllCorrect(t0, target);
    }
    var first := RemoveElement(tree, target);
    if first.Err? {
      return Fail(first.error);
    }
    while !tree.IsEmpty()
      invariant tree.Valid() && tree.Counted() && tree.Repr() <= old(tree.Repr())
      invariant SearchTrees.RemoveAll(tree.Model(), target) == SearchTrees.RemoveAll(t0, target)
      decreases tree.numberOfNodes
    {
      var next := RemoveElement(tree, target);
      if next.Err? {
        break;
      }
    }
    return Pass;
  }
}
