/** The value behind a linked binary tree: the shape and elements reachable
    from a root reference, with the measures and traversal orders the base
    tree offers. Keys are integers. */
module Trees {

  /** An absent subtree (a null link) or a node with its two subtrees. */
  datatype Tree = Leaf | Node(left: Tree, key: int, right: Tree)

  /** Number of nodes. */
  function Size(t: Tree): nat {
    match t
    case Leaf => 0
    case Node(l, _, r) => Size(l) + 1 + Size(r)
  }

  function Max(a: int, b: int): int {
    if a < b then b else a
  }

  /** Height: -1 for an absent subtree, otherwise one more than the higher child. */
  function Height(t: Tree): int {
    match t
    case Leaf => -1
    case Node(l, _, r) => Max(Height(l), Height(r)) + 1
  }

  /** Node, then left subtree, then right subtree. */
  function PreOrder(t: Tree): seq<int> {
    match t
    case Leaf => []
    case Node(l, k, r) => [k] + PreOrder(l) + PreOrder(r)
  }

  /** Left subtree, then node, then right subtree. */
  function InOrder(t: Tree): seq<int> {
    match t
    case Leaf => []
    case Node(l, k, r) => InOrder(l) + [k] + InOrder(r)
  }

  /** Left subtree, then right subtree, then node. */
  function PostOrder(t: Tree): seq<int> {
    match t
    case Leaf => []
    case Node(l, k, r) => PostOrder(l) + PostOrder(r) + [k]
  }

  /** The height of any tree lies between -1 and one less than its node count,
      and it is -1 exactly for the empty tree. */
  lemma {:induction false} HeightBounds(t: Tree)
    ensures -1 <= Height(t) <= Size(t) - 1
    ensures Height(t) == -1 <==> t == Leaf
  {
    match t
    case Leaf =>
    case Node(l, _, r) =>
      HeightBounds(l);
      HeightBounds(r);
  }

  /** Each depth-first order emits every node exactly once: the three orders
      have the node count as length and hold the same elements; pre-order
      starts and post-order ends with the root. */
  lemma TraversalsAgree(t: Tree)
    ensures |PreOrder(t)| == Size(t) && |InOrder(t)| == Size(t) && |PostOrder(t)| == Size(t)
    ensures multiset(PreOrder(t)) == multiset(InOrder(t)) == multiset(PostOrder(t))
    ensures t.Node? ==> PreOrder(t)[0] == t.key && PostOrder(t)[Size(t) - 1] == t.key
  {
    TraversalLengths(t);
    TraversalElems(t);
  }

  /** The three depth-first orders have the node count as length. */
  lemma {:induction false} TraversalLengths(t: Tree)
    ensures |PreOrder(t)| == Size(t) && |InOrder(t)| == Size(t) && |PostOrder(t)| == Size(t)
  {
    if t.Node? {
      TraversalLengths(t.left);
      TraversalLengths(t.right);
    }
  }

  /** The three depth-first orders hold the same elements, each as often. */
  lemma {:induction false} TraversalElems(t: Tree)
    ensures multiset(PreOrder(t)) == multiset(InOrder(t)) == multiset(PostOrder(t))
  {
    match t
    case Leaf =>
    case Node(l, k, r) =>
      TraversalElems(l);
      TraversalElems(r);
      var ml, mr := multiset(InOrder(l)), multiset(InOrder(r));
      assert multiset(PreOrder(t)) == multiset{k} + ml + mr;
      assert multiset(InOrder(t)) == ml + multiset{k} + mr;
      assert multiset(PostOrder(t)) == ml + mr + multiset{k};
  }

  // ----- Level order -----

  /** The queue entry for a child link: nothing for a null link. */
  function Present(t: Tree): seq<Tree> {
    if t.Leaf? then [] else [t]
  }

  /** Total number of nodes in a queue of subtrees. */
  function ForestSize(f: seq<Tree>): nat {
    if f == [] then 0 else Size(f[0]) + ForestSize(f[1..])
  }

  /** All elements of a queue of subtrees. */
  function ForestElems(f: seq<Tree>): multiset<int> {
    if f == [] then multiset{} else multiset(InOrder(f[0])) + ForestElems(f[1..])
  }

  lemma PresentForest(t: Tree)
    ensures ForestSize(Present(t)) == Size(t)
    ensures ForestElems(Present(t)) == multiset(InOrder(t))
  {
    if t.Node? {
      assert [t][1..] == [];
    }
  }

  lemma {:induction false} ForestAppend(a: seq<Tree>, b: seq<Tree>)
    ensures ForestSize(a + b) == ForestSize(a) + ForestSize(b)
    ensures ForestElems(a + b) == ForestElems(a) + ForestElems(b)
  {
    if a == [] {
      assert a + b == b;
    } else {
      assert (a + b)[1..] == a[1..] + b;
      ForestAppend(a[1..], b);
    }
  }

  /** Dequeuing a node and enqueueing its present children leaves one node
      less in the queue. */
  lemma QueueSize(q: seq<Tree>)
    requires q != [] && q[0].Node?
    ensures ForestSize(q[1..] + Present(q[0].left) + Present(q[0].right)) == ForestSize(q) - 1
  {
    var t := q[0];
    var c := Present(t.left) + Present(t.right);
    assert q[1..] + Present(t.left) + Present(t.right) == q[1..] + c;
    ForestAppend(q[1..], c);
    ForestAppend(Present(t.left), Present(t.right));
    PresentForest(t.left);
    PresentForest(t.right);
  }

  /** Dequeuing a node and enqueueing its present children leaves the same
      elements in the queue apart from the dequeued one. */
  lemma QueueElems(q: seq<Tree>)
    requires q != [] && q[0].Node?
    ensures ForestElems(q[1..] + Present(q[0].left) + Present(q[0].right)) + multiset{q[0].key} == ForestElems(q)
  {
    var t := q[0];
    var c := Present(t.left) + Present(t.right);
    assert q[1..] + Present(t.left) + Present(t.right) == q[1..] + c;
    ForestAppend(q[1..], c);
    ForestAppend(Present(t.left), Present(t.right));
    PresentForest(t.left);
    PresentForest(t.right);
  }

  /** Breadth-first emission driven by a FIFO queue of subtrees: dequeue the
      front, emit its element, enqueue its present children left before right. */
  function LevelOrderFrom(q: seq<Tree>): seq<int>
    decreases ForestSize(q), |q|
  {
    if q == [] then []
    else
      match q[0]
      case Leaf => LevelOrderFrom(q[1..])
      case Node(l, k, r) =>
        QueueSize(q);
        [k] + LevelOrderFrom(q[1..] + Present(l) + Present(r))
  }

  /** Level order of a whole tree: the queue is seeded with the root. */
  function LevelOrder(t: Tree): seq<int> {
    LevelOrderFrom([t])
  }

  /** Elements at the roots of a queue, front to back. */
  function Roots(f: seq<Tree>): seq<int> {
    if f == [] then []
    else (if f[0].Leaf? then [] else [f[0].key]) + Roots(f[1..])
  }

  /** The present children of a queue's entries, in queue order, left before right. */
  function Kids(f: seq<Tree>): seq<Tree> {
    if f == [] then []
    else (if f[0].Leaf? then [] else Present(f[0].left) + Present(f[0].right)) + Kids(f[1..])
  }

  /** One step of the queue loop. */
  lemma LevelOrderStep(q: seq<Tree>)
    requires q != []
    ensures LevelOrderFrom(q) ==
      if q[0].Leaf? then LevelOrderFrom(q[1..])
      else [q[0].key] + LevelOrderFrom(q[1..] + Present(q[0].left) + Present(q[0].right))
  {
  }

  /** One step of the queue loop in terms of Roots and Kids: the front's
      element (if any) is emitted and its present children join the back. */
  lemma Front(q: seq<Tree>)
    requires q != []
    ensures LevelOrderFrom(q) == Roots([q[0]]) + LevelOrderFrom(q[1..] + Kids([q[0]]))
  {
    var t := q[0];
    OneRootKids(t);
    LevelOrderStep(q);
    if t.Node? {
      assert q[1..] + Present(t.left) + Present(t.right) == q[1..] + Kids([t]);
    } else {
      assert q[1..] + Kids([t]) == q[1..];
    }
  }

  /** Roots and kids of a one-entry queue. */
  lemma OneRootKids(t: Tree)
    ensures Roots([t]) == if t.Leaf? then [] else [t.key]
    ensures Kids([t]) == if t.Leaf? then [] else Present(t.left) + Present(t.right)
  {
    assert [t][1..] == [];
  }

  /** The queue discipline works level by level: whatever is queued behind
      `f`, all of `f`'s elements are emitted first, in queue order, and the
      next queue holds what followed plus `f`'s children, left before right. */
  lemma {:induction false} LevelByLevel(f: seq<Tree>, g: seq<Tree>)
    ensures LevelOrderFrom(f + g) == Roots(f) + LevelOrderFrom(g + Kids(f))
    decreases |f|
  {
    if f == [] {
      assert f + g == g && g + Kids(f) == g;
    } else {
      var f', k := f[1..], Kids([f[0]]);
      Shift(f, g);
      LevelByLevel(f', g + k);
      RootsKidsCons(f);
      assert (g + k) + Kids(f') == g + Kids(f);
    }
  }

  /** One step of the queue loop on `f + g`: the front of `f` is dequeued and
      its present children join the queue behind `g`. */
  lemma Shift(f: seq<Tree>, g: seq<Tree>)
    requires f != []
    ensures LevelOrderFrom(f + g) == Roots([f[0]]) + LevelOrderFrom(f[1..] + (g + Kids([f[0]])))
  {
    Front(f + g);
    assert (f + g)[0] == f[0] && (f + g)[1..] == f[1..] + g;
    assert (f[1..] + g) + Kids([f[0]]) == f[1..] + (g + Kids([f[0]]));
  }

  /** Roots and kids of a non-empty queue split at its front. */
  lemma RootsKidsCons(f: seq<Tree>)
    requires f != []
    ensures Roots(f) == Roots([f[0]]) + Roots(f[1..])
    ensures Kids(f) == Kids([f[0]]) + Kids(f[1..])
  {
    assert [f[0]][1..] == [];
  }

  /** Level order emits one entry per node of the queue. */
  lemma {:induction false} LevelOrderFromSize(q: seq<Tree>)
    ensures |LevelOrderFrom(q)| == ForestSize(q)
    decreases ForestSize(q), |q|
  {
    if q != [] {
      LevelOrderStep(q);
      var t := q[0];
      if t.Leaf? {
        LevelOrderFromSize(q[1..]);
      } else {
        QueueSize(q);
        LevelOrderFromSize(q[1..] + Present(t.left) + Present(t.right));
      }
    }
  }

  /** Level order emits exactly the elements of the queue. */
  lemma {:induction false} LevelOrderFromElems(q: seq<Tree>)
    ensures multiset(LevelOrderFrom(q)) == ForestElems(q)
    decreases ForestSize(q), |q|
  {
    if q != [] {
      LevelOrderStep(q);
      var t := q[0];
      if t.Leaf? {
        LevelOrderFromElems(q[1..]);
      } else {
        var q' := q[1..] + Present(t.left) + Present(t.right);
        QueueSize(q);
        QueueElems(q);
        LevelOrderFromElems(q');
        assert LevelOrderFrom(q) == [t.key] + LevelOrderFrom(q');
      }
    }
  }

  /** Level order of a non-empty tree has one entry per node, holds the same
      elements as the other orders, starts with the root and then runs the
      queue of the root's present children. */
  lemma LevelOrderFacts(t: Tree)
    ensures |LevelOrder(t)| == Size(t)
    ensures multiset(LevelOrder(t)) == multiset(InOrder(t))
    ensures t.Node? ==> LevelOrder(t) == [t.key] + LevelOrderFrom(Present(t.left) + Present(t.right))
  {
    LevelOrderFromSize([t]);
    LevelOrderFromElems([t]);
    assert [t][1..] == [];
    if t.Node? {
      assert [t][1..] + Present(t.left) + Present(t.right) == Present(t.left) + Present(t.right);
    }
  }
}
