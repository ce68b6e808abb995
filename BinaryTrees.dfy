/** The linked binary tree: a root reference and a stored node count, with
    the queries and the four traversal orders of the base tree. */
module BinaryTrees {
  import opened Failures
  import opened Trees
  import opened BinaryTreeNodes

  /** The root-only copy that the composing constructor links for a subtree. */
  function RootCopy(t: Tree): Tree {
    if t.Leaf? then Leaf else Node(Leaf, t.key, Leaf)
  }

  /** The composing constructor records `1 + size(left) + size(right)` nodes
      but links only root copies, so the record matches the tree it builds
      exactly when neither subtree has more than one node. */
  lemma ComposeCount(lt: Tree, e: int, rt: Tree)
    ensures Size(Node(RootCopy(lt), e, RootCopy(rt))) == 1 + Size(lt) + Size(rt)
        <==> Size(lt) <= 1 && Size(rt) <= 1
  {
    if lt.Node? { assert Size(lt) >= 1; }
    if rt.Node? { assert Size(rt) >= 1; }
  }

  class BinaryTree {
    var root: Node?
    var numberOfNodes: int
    /** Which nodes are reachable from `root`, and where. */
    ghost var shape: Shape

    /** The reachable nodes. */
    ghost function Repr(): set<Node>
      reads this
    {
      NodesOf(shape)
    }

    /** The tree value the linked structure stands for. */
    ghost function Model(): Tree
      reads this
    {
      Abs(shape)
    }

    /** The heap invariant every constructor establishes: the root is the top
        of the shape, the nodes are linked as the shape says and owned once,
        and the count is zero exactly when there is no root. */
    ghost predicate Valid()
      reads this, Repr()
    {
      root == Root(shape) && Linked(shape) && Distinct(shape) &&
      numberOfNodes >= 0 && (numberOfNodes == 0 <==> root == null)
    }

    /** The stored count is the number of nodes. */
    ghost predicate Counted()
      reads this
    {
      numberOfNodes == Trees.Size(Abs(shape))
    }

    /** An empty tree. */
    constructor ()
      ensures Valid() && Counted()
      ensures Model() == Leaf && numberOfNodes == 0
    {
      root := null;
      numberOfNodes := 0;
      shape := Nil;
    }

    /** A tree of one node holding `element`. */
    constructor WithRoot(element: int)
      ensures Valid() && Counted() && fresh(Repr())
      ensures Model() == Node(Leaf, element, Leaf) && numberOfNodes == 1
    {
      var node := new Node(element);
      root := node;
      numberOfNodes := 1;
      shape := Cell(Nil, node, element, Nil);
      new;
      assert shape == Cell(Nil, node, element, Nil);
      assert NodesOf(shape) == {node};
      assert Repr() == {node};
    }

    /** A new root holding `element` whose children are fresh copies of the
        two given trees' root elements (absent for an empty tree). The count
        recorded is `1 + leftSubtree.size() + rightSubtree.size()`. */
    constructor Compose(element: int, leftSubtree: BinaryTree, rightSubtree: BinaryTree)
      requires leftSubtree.Valid() && rightSubtree.Valid()
      ensures Valid() && fresh(Repr())
      ensures numberOfNodes == 1 + leftSubtree.numberOfNodes + rightSubtree.numberOfNodes
      ensures Model() == Node(RootCopy(leftSubtree.Model()), element, RootCopy(rightSubtree.Model()))
      ensures leftSubtree.Counted() && rightSubtree.Counted() ==>
        (Counted() <==> leftSubtree.numberOfNodes <= 1 && rightSubtree.numberOfNodes <= 1)
    {
      var count := 1 + leftSubtree.Size() + rightSubtree.Size();
      ghost var lt, rt := leftSubtree.Model(), rightSubtree.Model();
      assert leftSubtree.Counted() ==> leftSubtree.numberOfNodes == Trees.Size(lt);
      assert rightSubtree.Counted() ==> rightSubtree.numberOfNodes == Trees.Size(rt);
      ComposeCount(lt, element, rt);
      var top, s := LinkRootCopies(element, leftSubtree.IsEmpty(), leftSubtree.GetRoot(),
                                   rightSubtree.IsEmpty(), rightSubtree.GetRoot(), lt, rt);
      root := top;
      numberOfNodes := count;
      shape := s;
    }

    /** A fresh node holding `element`, given as children fresh nodes holding
        the root elements of the non-empty subtrees among `lt` and `rt`. */
    static method LinkRootCopies(element: int, leftEmpty: bool, leftRoot: Result<int>,
                                 rightEmpty: bool, rightRoot: Result<int>, ghost lt: Tree, ghost rt: Tree)
      returns (top: Node, ghost s: Shape)
      requires leftEmpty <==> lt == Leaf
      requires lt.Node? ==> leftRoot == Ok(lt.key)
      requires rightEmpty <==> rt == Leaf
      requires rt.Node? ==> rightRoot == Ok(rt.key)
      ensures Linked(s) && Distinct(s) && Root(s) == top && fresh(NodesOf(s))
      ensures Abs(s) == Node(RootCopy(lt), element, RootCopy(rt))
    {
      top := new Node(element);
      ghost var ls, rs := Nil, Nil;
      if !leftEmpty {
        var copy := new Node(leftRoot.value);
        top.SetLeft(copy);
        ls := Cell(Nil, copy, leftRoot.value, Nil);
        assert NodesOf(ls) == {copy};
      }
      assert Abs(ls) == RootCopy(lt);
      if !rightEmpty {
        var copy := new Node(rightRoot.value);
        assert copy !in NodesOf(ls);
        top.SetRight(copy);
        rs := Cell(Nil, copy, rightRoot.value, Nil);
        assert NodesOf(rs) == {copy} && Linked(rs);
      }
      assert Abs(rs) == RootCopy(rt);
      assert Linked(ls) && Distinct(ls) && Distinct(rs);
      s := Cell(ls, top, element, rs);
    }

    /** The root element, or EmptyCollection when there is no root. */
    function GetRoot(): (r: Result<int>)
      reads this, Repr()
      requires Valid()
      ensures Model().Leaf? ==> r == Err(EmptyCollection)
      ensures Model().Node? ==> r == Ok(Model().key)
    {
      if root == null then Err(EmptyCollection) else Ok(root.element)
    }

    /** The stored count, read without a traversal; on a counted tree it is
        the number of reachable nodes and of in-order elements. */
    function Size(): (n: int)
      reads this, Repr()
      requires Valid()
      ensures n >= 0
      ensures Counted() ==> n == |Repr()| && n == |InOrder(Model())|
    {
      NodesCount(shape);
      TraversalsAgree(Abs(shape));
      numberOfNodes
    }

    /** Whether the stored count is zero: exactly when there is no node. */
    function IsEmpty(): (b: bool)
      reads this, Repr()
      requires Valid()
      ensures b <==> Model() == Leaf
    {
      numberOfNodes == 0
    }

    /** Whether some reachable node's element equals `target`. */
    function Contains(target: int): (b: bool)
      reads this, Repr()
      requires Valid()
      ensures b <==> target in InOrder(Model())
    {
      FindNode(target, root, shape)
    }

    /** Depth-first search by equality, left subtree before right subtree. */
    static function FindNode(target: int, node: Node?, ghost s: Shape): (b: bool)
      requires Linked(s) && Root(s) == node
      reads NodesOf(s)
      ensures b <==> target in InOrder(Abs(s))
      decreases s
    {
      if node == null then false
      else if node.element == target then true
      else if FindNode(target, node.left, s.l) then true
      else FindNode(target, node.right, s.r)
    }

    /** The height: -1 for an empty tree, 0 for a single node, and never more
        than one less than the node count. */
    function Height(): (h: int)
      reads this, Repr()
      requires Valid()
      ensures h == Trees.Height(Model())
      ensures -1 <= h <= Trees.Size(Model()) - 1
    {
      HeightBounds(Abs(shape));
      FindHeight(root, shape)
    }

    /** Height of the subtree at `node`, recursively. */
    static function FindHeight(node: Node?, ghost s: Shape): (h: int)
      requires Linked(s) && Root(s) == node
      reads NodesOf(s)
      ensures h == Trees.Height(Abs(s))
      decreases s
    {
      if node == null then -1
      else Max(FindHeight(node.left, s.l), FindHeight(node.right, s.r)) + 1
    }

    /** The elements in pre-order. */
    method IteratorPreOrder() returns (list: seq<int>)
      requires Valid()
      ensures list == PreOrder(Model())
    {
      list := Preorder(root, shape, []);
    }

    /** Appends the pre-order of the subtree at `node` to `list`. */
    static method Preorder(node: Node?, ghost s: Shape, list: seq<int>) returns (result: seq<int>)
      requires Linked(s) && Root(s) == node
      ensures result == list + PreOrder(Abs(s))
      decreases s
    {
      if node == null {
        return list;
      }
      assert Linked(s.l) && Linked(s.r);
      NodesAllocated(s.r);
      result := list + [node.element];
      result := Preorder(node.left, s.l, result);
      result := Preorder(node.right, s.r, result);
    }

    /** The elements in in-order. */
    method IteratorInOrder() returns (list: seq<int>)
      requires Valid()
      ensures list == InOrder(Model())
    {
      list := Inorder(root, shape, []);
    }

    /** Appends the in-order of the subtree at `node` to `list`. */
    static method Inorder(node: Node?, ghost s: Shape, list: seq<int>) returns (result: seq<int>)
      requires Linked(s) && Root(s) == node
      ensures result == list + InOrder(Abs(s))
      decreases s
    {
      if node == null {
        return list;
      }
      assert Linked(s.l) && Linked(s.r);
      NodesAllocated(s.r);
      result := Inorder(node.left, s.l, list);
      result := result + [node.element];
      result := Inorder(node.right, s.r, result);
    }

    /** The elements in post-order. */
    method IteratorPostOrder() returns (list: seq<int>)
      requires Valid()
      ensures list == PostOrder(Model())
    {
      list := Postorder(root, shape, []);
    }

    /** Appends the post-order of the subtree at `node` to `list`. */
    static method Postorder(node: Node?, ghost s: Shape, list: seq<int>) returns (result: seq<int>)
      requires Linked(s) && Root(s) == node
      ensures result == list + PostOrder(Abs(s))
      decreases s
    {
      if node == null {
        return list;
      }
      assert Linked(s.l) && Linked(s.r);
      NodesAllocated(s.r);
      result := Postorder(node.left, s.l, list);
      result := Postorder(node.right, s.r, result);
      result := result + [node.element];
    }

    /** The elements in level order, read off a FIFO queue of nodes seeded
        with the root. An empty tree gives the one-entry list holding the
        absent marker. */
    method IteratorLevelOrder() returns (list: seq<Option<int>>)
      requires Valid()
      ensures Model() == Leaf ==> list == [None]
      ensures Model().Node? ==> list == Marked(LevelOrder(Model()))
    {
      list := [];
      if IsEmpty() {
        list := [None] + list;
      } else {
        var current := root;
        var queue: seq<Node> := [current];
        ghost var pending: seq<Shape> := [shape];
        ghost var emitted: seq<int> := [];
        ghost var all := LevelOrder(Model());
        assert Values(pending) == [Model()];
        while queue != []
          invariant |queue| == |pending|
          invariant forall i | 0 <= i < |pending| ::
            pending[i].Cell? && queue[i] == pending[i].node && Linked(pending[i])
          invariant emitted + LevelOrderFrom(Values(pending)) == all
          invariant list == Marked(emitted)
          decreases |all| - |emitted|
        {
          current := queue[0];
          ghost var c, before, queueBefore, emittedBefore := pending[0], pending, queue, emitted;
          assert Linked(c) && Linked(c.l) && Linked(c.r);
          queue := queue[1..];
          pending := pending[1..];
          list := list + [Some(current.element)];
          emitted := emitted + [current.element];
          if current.left != null {
            queue := queue + [current.left];
            pending := pending + [c.l];
          }
          if current.right != null {
            queue := queue + [current.right];
            pending := pending + [c.r];
          }
          assert pending == before[1..] + Children(c);
          forall i | 0 <= i < |pending|
            ensures pending[i].Cell? && queue[i] == pending[i].node && Linked(pending[i])
          {
            if i < |before| - 1 {
              assert pending[i] == before[i + 1] && queue[i] == queueBefore[i + 1];
            }
          }
          Dequeue(before, pending);
          assert emitted + LevelOrderFrom(Values(pending)) == emittedBefore + LevelOrderFrom(Values(before));
          assert list == Marked(emitted);
        }
        assert Values(pending) == [];
      }
    }

    /** Dequeuing the front shape and enqueueing its present children emits
        the front key and leaves the rest of the level order to the new
        queue. */
    static lemma Dequeue(before: seq<Shape>, after: seq<Shape>)
      requires before != [] && before[0].Cell? && after == before[1..] + Children(before[0])
      ensures LevelOrderFrom(Values(before)) == [before[0].key] + LevelOrderFrom(Values(after))
    {
      LevelOrderStep(Values(before));
      ValuesStep(before);
    }

    /** The present children of a node's shape, left before right. */
    static ghost function Children(c: Shape): seq<Shape>
      requires c.Cell?
    {
      (if c.l.Cell? then [c.l] else []) + (if c.r.Cell? then [c.r] else [])
    }

    /** Dequeuing the front shape and enqueueing its present children, seen
        on tree values. */
    static lemma ValuesStep(q: seq<Shape>)
      requires q != [] && q[0].Cell?
      ensures Values(q)[0] == Abs(q[0])
      ensures Values(q[1..] + Children(q[0])) ==
        Values(q)[1..] + Present(Abs(q[0].l)) + Present(Abs(q[0].r))
    {
      var c := q[0];
      var a, b := Values(q[1..] + Children(c)), Values(q)[1..] + Present(Abs(c.l)) + Present(Abs(c.r));
      assert |a| == |b|;
      forall i | 0 <= i < |a| ensures a[i] == b[i] {
        if i < |q| - 1 {
          assert (q[1..] + Children(c))[i] == q[i + 1];
        }
      }
    }

    /** Each element wrapped as a present entry. */
    static function Marked(s: seq<int>): (r: seq<Option<int>>)
      ensures |r| == |s|
    {
      seq(|s|, i requires 0 <= i < |s| => Some(s[i]))
    }

    /** The tree values of a queue of shapes. */
    static ghost function Values(q: seq<Shape>): (ts: seq<Tree>)
      ensures |ts| == |q| && forall i | 0 <= i < |q| :: ts[i] == Abs(q[i])
    {
      seq(|q|, i requires 0 <= i < |q| => Abs(q[i]))
    }
  }
}
