/** Positions inside a shape, and what happens to the heap picture when the
    subtree at one position is replaced. The search-tree methods walk down a
    path with `current`/`parent` references and rewire one or a few nodes at
    its end; these lemmas say that the rest of the tree is untouched. */
module Paths {
  import opened Trees
  import opened BinaryTreeNodes

  /** A path from the root: `false` follows a left link, `true` a right link. */
  type Path = seq<bool>

  /** Every step of `p` leaves from a present node. */
  predicate ValidPath(s: Shape, p: Path)
    decreases |p|
  {
    p == [] || (s.Cell? && ValidPath(if p[0] then s.r else s.l, p[1..]))
  }

  /** The subtree at the end of `p`. */
  function At(s: Shape, p: Path): Shape
    requires ValidPath(s, p)
    decreases |p|
  {
    if p == [] then s else At(if p[0] then s.r else s.l, p[1..])
  }

  /** `s` with the subtree at the end of `p` replaced by `u`. */
  function Put(s: Shape, p: Path, u: Shape): Shape
    requires ValidPath(s, p)
    decreases |p|
  {
    if p == [] then u
    else if p[0] then Cell(s.l, s.node, s.key, Put(s.r, p[1..], u))
    else Cell(Put(s.l, p[1..], u), s.node, s.key, s.r)
  }

  /** The tree value of `s` with the subtree at the end of `p` replaced by `t`. */
  function PutT(s: Shape, p: Path, t: Tree): Tree
    requires ValidPath(s, p)
    decreases |p|
  {
    if p == [] then t
    else if p[0] then Node(Abs(s.l), s.key, PutT(s.r, p[1..], t))
    else Node(PutT(s.l, p[1..], t), s.key, Abs(s.r))
  }

  /** The tree value after a replacement is the tree value with the subtree's
      value replaced. */
  lemma {:induction false} AbsPut(s: Shape, p: Path, u: Shape)
    requires ValidPath(s, p)
    ensures Abs(Put(s, p, u)) == PutT(s, p, Abs(u))
    decreases |p|
  {
    if p != [] {
      AbsPut(if p[0] then s.r else s.l, p[1..], u);
    }
  }

  /** One more step down from a present node: the new position is the child,
      and replacing the child is replacing the node by one with a new child. */
  lemma {:induction false} Extend(s: Shape, p: Path, d: bool, t: Tree)
    requires ValidPath(s, p) && At(s, p).Cell?
    ensures ValidPath(s, p + [d])
    ensures At(s, p + [d]) == if d then At(s, p).r else At(s, p).l
    ensures PutT(s, p + [d], t) ==
      var c := At(s, p);
      PutT(s, p, if d then Node(Abs(c.l), c.key, t) else Node(t, c.key, Abs(c.r)))
    decreases |p|
  {
    if p == [] {
      assert [] + [d] == [d] && [d][1..] == [];
    } else {
      assert (p + [d])[0] == p[0] && (p + [d])[1..] == p[1..] + [d];
      Extend(if p[0] then s.r else s.l, p[1..], d, t);
    }
  }

  /** What the subtree at a position is made of. */
  lemma {:induction false} AtFacts(s: Shape, p: Path)
    requires ValidPath(s, p) && Distinct(s)
    ensures NodesOf(At(s, p)) <= NodesOf(s)
    ensures Distinct(At(s, p))
    ensures p != [] && s.Cell? ==> s.node !in NodesOf(At(s, p))
    decreases |p|
  {
    if p != [] {
      AtFacts(if p[0] then s.r else s.l, p[1..]);
    }
  }

  /** The heap agrees with every subtree of a shape it agrees with. */
  lemma {:induction false} LinkedAt(s: Shape, p: Path)
    requires ValidPath(s, p) && Linked(s)
    ensures Linked(At(s, p))
    decreases |p|
  {
    if p != [] {
      LinkedAt(if p[0] then s.r else s.l, p[1..]);
    }
  }

  /** A replacement with the same top node keeps the top of the whole shape. */
  lemma RootPut(s: Shape, p: Path, u: Shape)
    requires ValidPath(s, p) && Root(u) == Root(At(s, p))
    ensures Root(Put(s, p, u)) == Root(s)
  {
  }

  /** The nodes after a replacement: those outside the replaced subtree, plus
      those of the new one. */
  lemma {:induction false} NodesPut(s: Shape, p: Path, u: Shape)
    requires ValidPath(s, p) && Distinct(s)
    ensures NodesOf(Put(s, p, u)) == (NodesOf(s) - NodesOf(At(s, p))) + NodesOf(u)
    decreases |p|
  {
    if p != [] {
      var c := if p[0] then s.r else s.l;
      NodesPut(c, p[1..], u);
      AtFacts(c, p[1..]);
    }
  }

  /** A replacement keeps single ownership when the new subtree has it and
      shares no node with the rest of the tree. */
  lemma {:induction false} DistinctPut(s: Shape, p: Path, u: Shape)
    requires ValidPath(s, p) && Distinct(s) && Distinct(u)
    requires NodesOf(u) !! (NodesOf(s) - NodesOf(At(s, p)))
    ensures Distinct(Put(s, p, u))
    decreases |p|
  {
    if p != [] {
      var c := if p[0] then s.r else s.l;
      AtFacts(c, p[1..]);
      DistinctPut(c, p[1..], u);
      NodesPut(c, p[1..], u);
    }
  }

  /** The heap agrees with everything of `s` outside the subtree at the end
      of `p`: every node on the path holds its element and links to the
      recorded children, and every subtree hanging off the path is linked. It
      reads only the nodes outside that subtree, so rewiring nodes inside the
      subtree leaves it true. */
  ghost predicate LinkedAbove(s: Shape, p: Path)
    requires ValidPath(s, p) && Distinct(s)
    reads NodesOf(s) - NodesOf(At(s, p))
    decreases |p|
  {
    p == [] ||
    (AtFacts(if p[0] then s.r else s.l, p[1..]);
     s.node.element == s.key && s.node.left == Root(s.l) && s.node.right == Root(s.r) &&
     if p[0] then Linked(s.l) && LinkedAbove(s.r, p[1..])
     else Linked(s.r) && LinkedAbove(s.l, p[1..]))
  }

  /** A linked shape is linked above any position and below it. */
  lemma {:induction false} LinkedSplit(s: Shape, p: Path)
    requires ValidPath(s, p) && Distinct(s) && Linked(s)
    ensures LinkedAbove(s, p) && Linked(At(s, p))
    decreases |p|
  {
    if p != [] {
      LinkedSplit(if p[0] then s.r else s.l, p[1..]);
    }
  }

  /** A shape linked above a position, with a linked subtree put there that
      keeps the position's top node, is linked. */
  lemma {:induction false} LinkedJoin(s: Shape, p: Path, u: Shape)
    requires ValidPath(s, p) && Distinct(s) && LinkedAbove(s, p)
    requires Linked(u) && Root(u) == Root(At(s, p))
    ensures Linked(Put(s, p, u))
    decreases |p|
  {
    if p != [] {
      var c := if p[0] then s.r else s.l;
      AtFacts(c, p[1..]);
      LinkedJoin(c, p[1..], u);
      RootPut(c, p[1..], u);
    }
  }

  /** Everything a method needs after rewiring the subtree at the end of `p`
      into `u`: the tree is linked, owned once, has the same top node, stands
      for the old tree value with the subtree's value replaced, and is made
      of the nodes outside the old subtree plus those of `u`. */
  lemma Graft(s: Shape, p: Path, u: Shape)
    requires ValidPath(s, p) && Distinct(s) && LinkedAbove(s, p)
    requires Linked(u) && Distinct(u) && Root(u) == Root(At(s, p))
    requires NodesOf(u) !! (NodesOf(s) - NodesOf(At(s, p)))
    ensures Linked(Put(s, p, u)) && Distinct(Put(s, p, u))
    ensures Root(Put(s, p, u)) == Root(s)
    ensures Abs(Put(s, p, u)) == PutT(s, p, Abs(u))
    ensures NodesOf(Put(s, p, u)) == (NodesOf(s) - NodesOf(At(s, p))) + NodesOf(u)
  {
    LinkedJoin(s, p, u);
    DistinctPut(s, p, u);
    RootPut(s, p, u);
    AbsPut(s, p, u);
    NodesPut(s, p, u);
  }
}
