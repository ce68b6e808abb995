/** The linked node of a binary tree, and the ghost `Shape` that records
    which nodes form a tree and where: the bridge between the heap and the
    tree values of module Trees. */
module BinaryTreeNodes {
  import opened Trees

  /** A node: one element and two optional child links. */
  class Node {
    var element: int
    var left: Node?
    var right: Node?

    /** A fresh node holds the given element and has no children. */
    constructor (element: int)
      ensures this.element == element && left == null && right == null
    {
      this.element := element;
      this.left := null;
      this.right := null;
    }

    /** Replaces the element; the links stay. */
    method SetElement(element: int)
      modifies this
      ensures this.element == element
      ensures left == old(left) && right == old(right)
    {
      this.element := element;
    }

    /** Replaces the left link; the element and the right link stay. */
    method SetLeft(node: Node?)
      modifies this
      ensures left == node
      ensures element == old(element) && right == old(right)
    {
      this.left := node;
    }

    /** Replaces the right link; the element and the left link stay. */
    method SetRight(node: Node?)
      modifies this
      ensures right == node
      ensures element == old(element) && left == old(left)
    {
      this.right := node;
    }

    /** Number of nodes below this one: for each present child, one for the
        child plus the child's own descendants. `s` is the ghost shape of the
        subtree rooted here and only bounds the recursion. */
    function NumberOfDescendants(ghost s: Shape): (n: int)
      requires s.Cell? && s.node == this && Linked(s)
      reads NodesOf(s)
      ensures n == Size(Abs(s)) - 1
      decreases s
    {
      var fromLeft := if left != null then 1 + left.NumberOfDescendants(s.l) else 0;
      var fromRight := if right != null then 1 + right.NumberOfDescendants(s.r) else 0;
      fromLeft + fromRight
    }
  }

  /** The ghost picture of a linked subtree: for each position, the node that
      sits there and the element it holds. */
  datatype Shape = Nil | Cell(l: Shape, node: Node, key: int, r: Shape)

  /** The reference at the top of a shape (null for an absent subtree). */
  function Root(s: Shape): Node? {
    if s.Nil? then null else s.node
  }

  /** The nodes of a shape. */
  function NodesOf(s: Shape): set<Node> {
    match s
    case Nil => {}
    case Cell(l, n, _, r) => NodesOf(l) + {n} + NodesOf(r)
  }

  /** No node occurs at two positions: every subtree has a single owner and
      the structure is acyclic. */
  predicate Distinct(s: Shape) {
    match s
    case Nil => true
    case Cell(l, n, _, r) =>
      Distinct(l) && Distinct(r) &&
      n !in NodesOf(l) && n !in NodesOf(r) && NodesOf(l) !! NodesOf(r)
  }

  /** The heap agrees with the shape: each node holds the recorded element and
      its links point at the roots of the recorded subtrees. */
  ghost predicate Linked(s: Shape)
    reads NodesOf(s)
  {
    match s
    case Nil => true
    case Cell(l, n, k, r) =>
      n.element == k && n.left == Root(l) && n.right == Root(r) && Linked(l) && Linked(r)
  }

  /** The tree value a shape stands for. */
  function Abs(s: Shape): Tree {
    match s
    case Nil => Leaf
    case Cell(l, _, k, r) => Node(Abs(l), k, Abs(r))
  }

  /** With single ownership, the number of distinct reachable nodes is the
      node count of the tree value. */
  lemma {:induction false} NodesCount(s: Shape)
    requires Distinct(s)
    ensures |NodesOf(s)| == Size(Abs(s))
  {
    match s
    case Nil =>
    case Cell(l, n, _, r) =>
      NodesCount(l);
      NodesCount(r);
      assert NodesOf(l) !! {n};
      assert (NodesOf(l) + {n}) !! NodesOf(r);
  }

  /** Every node of a shape is allocated, so a call that changes no allocated
      object leaves the links of the shape as they were. */
  lemma {:induction false} NodesAllocated(s: Shape)
    ensures forall n | n in NodesOf(s) :: allocated(n)
  {
    if s.Cell? {
      NodesAllocated(s.l);
      NodesAllocated(s.r);
    }
  }
}
