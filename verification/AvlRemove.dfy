/** Removal of a node from the list. */
module AvlRemove {
  import opened AvlShape
  import opened AvlBalance
  import opened AvlRotate
  import opened AvlList
  import opened AvlInsert

  /** Stores top in the pointer of parent (or of the list) that held node. */
  method ReplaceInParent(list: List, node: Node, parent: Node?, top: Node?, ghost c: Ctx, ghost h: int, ghost s: int,
      ghost S: set<Node>)
    requires CNodes(c) <= S && CDistinct(c) && node !in CNodes(c)
    requires list.Around(c, node, h, s) && parent == Above(c, null)
    modifies list`root, NodeSet(parent)`left, NodeSet(parent)`right
    ensures list.Around(c, top, h, s)
  {
    if c.InR? && c.l.Br? { assert c.l.n in CNodes(c); }
    if parent == null {
      list.SetSlot(AtRoot, node, top, c, h, s, S);
    } else if parent.left == node {
      list.SetSlot(AtLeft(parent), node, top, c, h, s, S);
    } else {
      list.SetSlot(AtRight(parent), node, top, c, h, s, S);
    }
  }

  /** The tree u hangs below p instead of q. */
  method Rehang(child: Node?, ghost u: Tree, ghost q: Node?, p: Node?, ghost S: set<Node>)
    requires child == Root(u) && Linked(u, q) && Distinct(u) && Nodes(u) <= S
    modifies NodeSet(child)`parent
    ensures Linked(u, p)
  {
    Inner(u);
    if child != null {
      assert Nodes(u.l) <= Nodes(u) && Nodes(u.r) <= Nodes(u);
      child.parent := p;
    }
  }

  /** One node less from parent up to the root. */
  method ShrinkAbove(list: List, parent: Node?, ghost hole: Node?, ghost c: Ctx, ghost h: int, ghost s: int,
      ghost S: set<Node>)
    requires list.Around(c, hole, h, s) && CNodes(c) <= S && CDistinct(c) && parent == Above(c, null)
    modifies Spine(c)`branchSize
    ensures list.Around(c, hole, h, s - 1)
  {
    SpineInNodes(c);
    list.LinkedParents(c, hole);
    list.WalkSizes(parent, -1, c, s, S);
  }

  /** The same two steps, with the tree t in the hole left as it is. */
  method ShrinkAround(list: List, parent: Node?, ghost c: Ctx, ghost t: Tree, ghost h: int, ghost s: int,
      ghost S: set<Node>)
    requires list.Around(c, Root(t), h, s) && CNodes(c) <= S && CDistinct(c) && parent == Above(c, null)
    requires Linked(t, parent) && Nodes(t) <= S && Nodes(t) !! CNodes(c)
    modifies Spine(c)`branchSize
    ensures list.Around(c, Root(t), h, s - 1) && Linked(t, parent)
  {
    SpineInNodes(c);
    ShrinkAbove(list, parent, Root(t), c, h, s, S);
  }

  method ReplaceAround(list: List, node: Node, parent: Node?, top: Node?, ghost c: Ctx, ghost t: Tree, ghost h: int,
      ghost s: int, ghost S: set<Node>)
    requires CNodes(c) <= S && CDistinct(c) && node !in CNodes(c)
    requires list.Around(c, node, h, s) && parent == Above(c, null) && top == Root(t)
    requires Linked(t, parent) && Nodes(t) <= S && Nodes(t) !! CNodes(c)
    modifies list`root, NodeSet(parent)`left, NodeSet(parent)`right
    ensures list.Around(c, top, h, s) && Linked(t, parent)
  {
    assert parent != null ==> parent in CNodes(c);
    ReplaceInParent(list, node, parent, top, c, h, s, S);
  }

  method ReplaceAndShrink(list: List, node: Node, parent: Node?, top: Node?, ghost c: Ctx, ghost t: Tree, ghost h: int,
      ghost s: int, ghost S: set<Node>)
    requires CNodes(c) <= S && CDistinct(c) && node !in CNodes(c)
    requires list.Around(c, node, h, s) && parent == Above(c, null) && top == Root(t)
    requires Linked(t, parent) && Nodes(t) <= S && Nodes(t) !! CNodes(c)
    modifies list`root, NodeSet(parent)`left, NodeSet(parent)`right, Spine(c)`branchSize
    ensures list.Around(c, top, h, s - 1) && Linked(t, parent)
  {
    ReplaceAround(list, node, parent, top, c, t, h, s, S);
    ShrinkAround(list, parent, c, t, h, s, S);
  }

  /** w is a node whose only branch is u. */
  ghost predicate OnlyChild(w: Tree, node: Node, u: Tree) {
    w == Br(Leaf, node, u) || w == Br(u, node, Leaf)
  }

  lemma {:induction false} OnlyShape(c: Ctx, w: Tree, node: Node, u: Tree, S: set<Node>)
    requires OnlyChild(w, node, u) && Avl(Plug(c, w)) && Distinct(Plug(c, w)) && S == Nodes(Plug(c, w))
    ensures List.Shape(c, u, H(u) + 1, S) && H(w) == H(u) + 1 && Size(w) == Size(u) + 1
    ensures node in S && node !in CNodes(c) && node !in Nodes(u) && (u.Br? ==> u.n !in CNodes(c))
    ensures Nodes(Plug(c, u)) == S - {node} && Distinct(Plug(c, u))
  {
    hide CDistinct;
    PlugNodes(c, w);
    PlugNodes(c, u);
    PlugAvl(c, w);
  }

  lemma {:induction false} OnlyLinked(list: List, c: Ctx, w: Tree, node: Node, u: Tree)
    requires list.Valid() && list.tree == Plug(c, w) && OnlyChild(w, node, u)
    ensures list.Around(c, node, H(u) + 1, Size(u) + 1) && Linked(u, node) && node.parent == Above(c, null)
    ensures CNodes(c) <= list.nodes && Spine(c) <= CNodes(c) && Hung(c) <= CNodes(c)
  {
    PlugNodes(c, w);
    PlugAvl(c, w);
    PlugLinked(c, w, null);
    SpineInNodes(c);
    assert H(w) == H(u) + 1 && Size(w) == Size(u) + 1;
  }

  lemma {:induction false} ShapeSets(c: Ctx, t: Tree, h: int, S: set<Node>)
    requires List.Shape(c, t, h, S)
    ensures Spine(c) <= S && NodeSet(Root(t)) <= S && NodeSet(Above(c, null)) <= S
    ensures Spine(c) <= CNodes(c) && Hung(c) <= CNodes(c) && (t.Br? ==> t.n !in CNodes(c))
  {
    SpineInNodes(c);
  }

  /** child takes the place of node, its parent, and the sizes above shrink. */
  method Bypass(list: List, node: Node, child: Node?, ghost c: Ctx, ghost u: Tree, ghost S: set<Node>)
    requires List.Shape(c, u, H(u) + 1, S) && node in S && node !in CNodes(c) && node !in Nodes(u)
    requires list.Around(c, node, H(u) + 1, Size(u) + 1) && Linked(u, node) && node.parent == Above(c, null)
    requires child == Root(u)
    modifies list`root, S`left, S`right, S`parent, S`branchSize
    ensures list.Pending(c, u, H(u) + 1, S)
    ensures node.parent == Above(c, null)
  {
    hide Hung, H, Size;
    ShapeSets(c, u, H(u) + 1, S);
    var parent := node.parent;
    Rehang(child, u, node, parent, S);
    ReplaceAndShrink(list, node, parent, child, c, u, H(u) + 1, Size(u) + 1, S);
  }

  /** Rebalances from parent if there is one. */
  method RestoreAfterRemoval(list: List, child: Node?, parent: Node?, ghost c: Ctx, ghost t: Tree, ghost S: set<Node>)
    requires list.Pending(c, t, H(t) + 1, S) && child == Root(t) && parent == Above(c, null)
    modifies list`root, S
    ensures list.root == Root(Fix(c, t)) && Linked(Fix(c, t), null)
    ensures forall n :: n in S ==> n.value == old(n.value)
  {
    if parent == null {
      list.Finished(c, t, H(t) + 1, S);
    } else {
      list.Rebalance(child, -1, parent, c, t, H(t) + 1, S);
    }
  }

  /** The repaired tree: AVL, on the same nodes and in the same order as before the repair. */
  lemma {:induction false} Repaired(c: Ctx, t: Tree, h: int)
    requires Avl(t) && CAvl(c, h) && Near(H(t), h) && Distinct(Plug(c, t))
    ensures Avl(Fix(c, t)) && Distinct(Fix(c, t)) && Nodes(Fix(c, t)) == Nodes(Plug(c, t))
    ensures InOrder(Fix(c, t)) == Before(c) + InOrder(t) + After(c)
  {
    FixSame(c, t);
    PlugOrder(c, t);
    FixAvl(c, t, h);
  }

  /** A node without a left or without a right child is replaced by its other child. */
  method RemoveOnly(list: List, node: Node, child: Node?, ghost c: Ctx, ghost w: Tree, ghost u: Tree)
    requires list.Valid() && list.tree == Plug(c, w)
    requires OnlyChild(w, node, u) && child == Root(u)
    modifies list, list.nodes
    ensures list.Valid() && list.nodes == old(list.nodes) - {node}
    ensures list.Order() == Before(c) + InOrder(u) + After(c)
    ensures forall n :: n in old(list.nodes) ==> n.value == old(n.value)
  {
    hide H, Nodes, Linked;
    ghost var S := list.nodes;
    OnlyLinked(list, c, w, node, u);
    OnlyShape(c, w, node, u, S);
    Bypass(list, node, child, c, u, S);
    RestoreAfterRemoval(list, child, node.parent, c, u, S);
    Repaired(c, u, H(u) + 1);
    Commit(list, Fix(c, u), S - {node});
  }
}
