/** The sequential list stored in an AVL tree. */
module AvlList {
  import opened AvlShape
  import opened AvlBalance
  import opened AvlRotate
  import opened AvlSubtree

  /** The pointer that holds a node: the list's root or a child field of its parent. */
  datatype Slot = AtRoot | AtLeft(p: Node) | AtRight(p: Node)

  class List {
    var root: Node?
    ghost var tree: Tree
    ghost var nodes: set<Node>

    /** A list over a tree that is already complete; Leaf makes the empty list. */
    constructor (root: Node?, ghost tree: Tree)
      requires root == Root(tree) && Distinct(tree) && Avl(tree) && Linked(tree, null)
      ensures Valid() && this.tree == tree
    {
      this.root, this.tree, this.nodes := root, tree, Nodes(tree);
    }

    /** The invariant of the list: the tree is AVL and exact in every field of every node. */
    ghost predicate Valid()
      reads this, nodes
    {
      && nodes == Nodes(tree) && root == Root(tree) && Distinct(tree)
      && Avl(tree) && Linked(tree, null)
    }

    /** The nodes of the list, in list order. */
    ghost function Order(): seq<Node>
      reads this
    {
      InOrder(tree)
    }

    /** The context is exact in pointers, balances and sizes around a hole of height h and size s. */
    ghost predicate Around(up: Ctx, hole: Node?, h: int, s: int)
      reads this, CNodes(up), Spine(up), Hung(up)
    {
      CLinked(up, hole, null) && CBal(up, h) && CSize(up, s) && root == CRoot(up, hole)
    }

    /** The slot that holds node, found from its parent; the source's abort is unreachable. */
    method FindSlot(node: Node, ghost up: Ctx) returns (slot: Slot)
      requires node.parent == Above(up, null) && CLinked(up, node, null)
      ensures up.Top? ==> slot == AtRoot
      ensures up.InL? ==> slot == AtLeft(up.n)
      ensures up.InR? && Root(up.l) != node ==> slot == AtRight(up.n)
    {
      if node.parent == null {
        slot := AtRoot;
      } else if node.parent.left == node {
        slot := AtLeft(node.parent);
      } else if node.parent.right == node {
        slot := AtRight(node.parent);
      } else {
        assert false;
      }
    }

    /** Stores top in the slot that held node. */
    method SetSlot(slot: Slot, node: Node?, top: Node?, ghost up: Ctx, ghost h: int, ghost s: int, ghost S: set<Node>)
      requires CNodes(up) <= S && CDistinct(up)
      requires Around(up, node, h, s)
      requires up.Top? ==> slot == AtRoot
      requires up.InL? ==> slot == AtLeft(up.n)
      requires up.InR? ==> slot == AtRight(up.n)
      modifies this`root, NodeSet(Above(up, null))`left, NodeSet(Above(up, null))`right
      ensures Around(up, top, h, s)
    {
      if !up.Top? { SpineInNodes(up.up); }
      match slot
      case AtRoot => root := top;
      case AtLeft(p) => p.left := top;
      case AtRight(p) => p.right := top;
    }

    /** The nodes of l-node-r and of up are distinct, and all of them are in S. */
    static ghost predicate Apart(l: Tree, node: Node, r: Tree, up: Ctx, S: set<Node>) {
      && Nodes(Br(l, node, r)) <= S && CNodes(up) <= S
      && Distinct(Br(l, node, r)) && CDistinct(up) && Nodes(Br(l, node, r)) !! CNodes(up)
    }

    /** The two branches of node hang exactly below it, and node hangs exactly below up. */
    static ghost predicate Hangs(l: Tree, node: Node, r: Tree, up: Ctx)
      reads node, Nodes(l), Nodes(r)
    {
      && node.left == Root(l) && node.right == Root(r) && Linked(l, node) && Linked(r, node)
      && node.parent == Above(up, null) && node.branchSize == Size(l) + 1 + Size(r)
    }

    static ghost predicate Focus(l: Tree, node: Node, r: Tree, up: Ctx, S: set<Node>)
      reads node, Nodes(l), Nodes(r)
    {
      Apart(l, node, r, up, S) && Hangs(l, node, r, up)
    }

    lemma {:induction false} FocusSlot(l: Tree, node: Node, r: Tree, up: Ctx, S: set<Node>)
      requires Focus(l, node, r, up, S)
      ensures up.InR? ==> Root(up.l) != node
      ensures Spine(up) <= CNodes(up) && Hung(up) <= CNodes(up)
      ensures Nodes(Br(l, node, r)) !! CNodes(up) && node in Nodes(Br(l, node, r)) && node !in Nodes(l)
          && node !in Nodes(r)
    {
      SpineInNodes(up);
      if up.InR? && up.l.Br? { assert up.l.n in CNodes(up); }
    }

    /** The balance of node changes, and nothing else. */
    method SetBalance(node: Node, balance: int, ghost l: Tree, ghost r: Tree, ghost up: Ctx, ghost h: int, ghost s: int,
        ghost S: set<Node>)
      requires Focus(l, node, r, up, S) && Around(up, node, h, s)
      modifies node`balance
      ensures Focus(l, node, r, up, S) && Around(up, node, h, s) && node.balance == balance
    {
      FocusSlot(l, node, r, up, S);
      node.balance := balance;
    }

    /** The branches of node differ in height by two: rotate and store the new subtree's root. */
    method RotateAt(hd: int, balanceDiff: int, node: Node, ghost l: Tree, ghost r: Tree, ghost up: Ctx,
                    ghost h: int, ghost s: int, ghost S: set<Node>) returns (top: Node, newDiff: int)
      requires Focus(l, node, r, up, S) && Around(up, node, h, s)
      requires Avl(l) && Avl(r) && H(r) - H(l) == (if balanceDiff < 0 then -2 else 2)
      modifies this`root, S
      ensures top == Root(Rebuild(l, node, r)) && Linked(Rebuild(l, node, r), Above(up, null))
      ensures Around(up, top, h, s)
      ensures newDiff == H(Rebuild(l, node, r)) - HeightBefore(hd, Max(H(l), H(r)))
      ensures forall n :: n in S ==> n.value == old(n.value)
    {
      hide Distinct, CDistinct, Linked, H, InOrder;
      FocusSlot(l, node, r, up, S);
      RebuildKeeps(l, node, r);
      var slot := FindSlot(node, up);
      top, newDiff := RotateSubtree(hd, balanceDiff, node, l, r, S);
      SetSlot(slot, node, top, up, h, s, S);
    }

    /** How far the balance of node moves, as rebalance computes it. */
    function BalanceDiff(child: Node?, hd: int, node: Node): int
      reads node
    {
      if node.left != null || node.right != null then (if child == node.right then hd else -hd) else -node.balance
    }

    /** The hole heights before and after: one branch changed by hd, the one child is the root of. */
    ghost predicate Moved(child: Node?, hd: int, l: Tree, r: Tree, oldL: int, oldR: int) {
      && hd in {-1, 1} && Near(oldL, oldR)
      && ((child == Root(l) && H(l) == oldL + hd && H(r) == oldR)
          || (child == Root(r) && H(l) == oldL && H(r) == oldR + hd))
    }

    /** The new balance is right, and h, the height before, explains each way height_diff is set. */
    ghost predicate Explained(previousBalance: int, balanceDiff: int, hd: int, l: Tree, r: Tree, h: int) {
      && H(r) - H(l) == previousBalance + balanceDiff
      && Near(previousBalance, 0) && Near(balanceDiff, 0) && (previousBalance == 0 ==> balanceDiff != 0)
      && (!Near(H(l), H(r)) ==> HeightBefore(hd, Max(H(l), H(r))) == h)
      && (Near(H(l), H(r)) && hd < 0 ==> 1 + Max(H(l), H(r)) - h == (if previousBalance == 0 then 0 else -1))
      && (Near(H(l), H(r)) && hd >= 0 ==> 1 + Max(H(l), H(r)) - h == (if H(l) == H(r) then 0 else 1))
    }

    lemma {:induction false} DiffFact(child: Node?, hd: int, node: Node, l: Tree, r: Tree, oldL: int, oldR: int,
        up: Ctx, S: set<Node>)
      requires Moved(child, hd, l, r, oldL, oldR) && node.balance == oldR - oldL
      requires Focus(l, node, r, up, S)
      ensures Explained(node.balance, BalanceDiff(child, hd, node), hd, l, r, 1 + Max(oldL, oldR))
    {
      Members(l, node, r);
      if l.Br? { assert H(l) > 0; } else { assert H(l) == 0; }
      if r.Br? { assert H(r) > 0; } else { assert H(r) == 0; }
    }

    lemma {:induction false} Stays(l: Tree, node: Node, r: Tree, up: Ctx, S: set<Node>)
      requires Focus(l, node, r, up, S) && node.balance == H(r) - H(l) && Near(H(l), H(r))
      ensures Rebuild(l, node, r) == Br(l, node, r) && Linked(Rebuild(l, node, r), Above(up, null))
    {
      Hang(l, node, r, Above(up, null));
    }

    /** The second half of a round: the balance of node is already updated. */
    method Settle(previousBalance: int, balanceDiff: int, hd: int, node: Node, ghost l: Tree, ghost r: Tree,
                  ghost up: Ctx, ghost h: int, ghost S: set<Node>) returns (top: Node, newDiff: int)
      requires Focus(l, node, r, up, S) && Around(up, node, h, Size(Br(l, node, r)))
      requires Avl(l) && Avl(r) && node.balance == H(r) - H(l)
      requires Explained(previousBalance, balanceDiff, hd, l, r, h)
      modifies this`root, S
      ensures top == Root(Rebuild(l, node, r)) && Linked(Rebuild(l, node, r), Above(up, null))
      ensures Around(up, top, h, Size(Br(l, node, r)))
      ensures newDiff == H(Rebuild(l, node, r)) - h
      ensures forall n :: n in S ==> n.value == old(n.value)
    {
      if balanceDiff == previousBalance {
        top, newDiff := RotateAt(hd, balanceDiff, node, l, r, up, h, Size(Br(l, node, r)), S);
      } else {
        Stays(l, node, r, up, S);
        top := node;
        if hd < 0 {
          newDiff := if previousBalance == 0 then 0 else -1;
        } else {
          newDiff := if node.balance == 0 then 0 else 1;
        }
      }
    }

    /** One round of rebalance at node, whose branches l and r had the heights oldL and oldR
        before one of them changed by hd. */
    method Step(child: Node?, hd: int, node: Node, ghost l: Tree, ghost r: Tree, ghost oldL: int, ghost oldR: int,
                ghost up: Ctx, ghost S: set<Node>) returns (top: Node, newDiff: int)
      requires Focus(l, node, r, up, S)
      requires Avl(l) && Avl(r) && Moved(child, hd, l, r, oldL, oldR) && node.balance == oldR - oldL
      requires Around(up, node, 1 + Max(oldL, oldR), Size(Br(l, node, r)))
      modifies this`root, S
      ensures top == Root(Rebuild(l, node, r)) && Linked(Rebuild(l, node, r), Above(up, null))
      ensures Around(up, top, 1 + Max(oldL, oldR), Size(Br(l, node, r)))
      ensures newDiff == H(Rebuild(l, node, r)) - (1 + Max(oldL, oldR))
      ensures forall n :: n in S ==> n.value == old(n.value)
    {
      ghost var h, s := 1 + Max(oldL, oldR), Size(Br(l, node, r));
      DiffFact(child, hd, node, l, r, oldL, oldR, up, S);
      var previousBalance := node.balance;
      var balanceDiff := BalanceDiff(child, hd, node);
      SetBalance(node, node.balance + balanceDiff, l, r, up, h, s, S);
      top, newDiff := Settle(previousBalance, balanceDiff, hd, node, l, r, up, h, S);
    }

    /** The shape between two rounds: t fills the hole of the AVL context c, where c still
        expects the height h. */
    static ghost predicate Shape(c: Ctx, t: Tree, h: int, S: set<Node>) {
      && Nodes(t) <= S && CNodes(c) <= S && Distinct(t) && CDistinct(c) && Nodes(t) !! CNodes(c)
      && Avl(t) && CAvl(c, h) && Near(H(t), h)
    }

    /** The state between two rounds: t hangs exactly below c, whose balances expect the height h. */
    ghost predicate Pending(c: Ctx, t: Tree, h: int, S: set<Node>)
      reads this, S, Nodes(t), CNodes(c), Spine(c), Hung(c)
    {
      Shape(c, t, h, S) && Linked(t, Above(c, null)) && Around(c, Root(t), h, Size(t))
    }

    static ghost function LeftOf(c: Ctx, t: Tree): Tree requires !c.Top? { if c.InL? then t else c.l }
    static ghost function RightOf(c: Ctx, t: Tree): Tree requires !c.Top? { if c.InL? then c.r else t }
    static ghost function LeftH(c: Ctx, h: int): int requires !c.Top? { if c.InL? then h else H(c.l) }
    static ghost function RightH(c: Ctx, h: int): int requires !c.Top? { if c.InL? then H(c.r) else h }

    lemma {:induction false} ShapeUp(c: Ctx, t: Tree, h: int, S: set<Node>, child: Node?, hd: int)
      requires !c.Top? && Shape(c, t, h, S)
      requires child == Root(t) && H(t) == h + hd && hd in {-1, 1}
      ensures Moved(child, hd, LeftOf(c, t), RightOf(c, t), LeftH(c, h), RightH(c, h))
      ensures Shape(c.up, Rebuild(LeftOf(c, t), c.n, RightOf(c, t)), 1 + Max(LeftH(c, h), RightH(c, h)), S)
      ensures Fix(c, t) == Fix(c.up, Rebuild(LeftOf(c, t), c.n, RightOf(c, t)))
      ensures Size(Rebuild(LeftOf(c, t), c.n, RightOf(c, t))) == Size(Br(LeftOf(c, t), c.n, RightOf(c, t)))
      ensures Avl(LeftOf(c, t)) && Avl(RightOf(c, t))
    {
      hide H, InOrder;
      RebuildKeeps(LeftOf(c, t), c.n, RightOf(c, t));
      RebuildNear(LeftOf(c, t), c.n, RightOf(c, t), LeftH(c, h), RightH(c, h));
    }

    lemma {:induction false} ShapeFocus(c: Ctx, t: Tree, h: int, S: set<Node>)
      requires Shape(c, t, h, S) && !c.Top?
      ensures Apart(LeftOf(c, t), c.n, RightOf(c, t), c.up, S)
      ensures NodeSet(Above(c.up, null)) <= S
    {
    }

    lemma {:induction false} AroundLeft(n: Node, r: Tree, up: Ctx, hole: Node?, h: int, s: int)
      requires Around(InL(n, r, up), hole, h, s)
      ensures Around(up, n, 1 + Max(h, H(r)), s + 1 + Size(r))
      ensures n.left == hole && n.right == Root(r) && Linked(r, n) && n.branchSize == s + 1 + Size(r)
      ensures n.balance == H(r) - h && n.parent == Above(up, null)
    {
    }

    lemma {:induction false} AroundRight(l: Tree, n: Node, up: Ctx, hole: Node?, h: int, s: int)
      requires Around(InR(l, n, up), hole, h, s)
      ensures Around(up, n, 1 + Max(H(l), h), Size(l) + 1 + s)
      ensures n.left == Root(l) && n.right == hole && Linked(l, n) && n.branchSize == Size(l) + 1 + s
      ensures n.balance == h - H(l) && n.parent == Above(up, null)
    {
    }

    lemma {:induction false} HangsLeft(n: Node, r: Tree, up: Ctx, t: Tree, h: int)
      requires Around(InL(n, r, up), Root(t), h, Size(t)) && Linked(t, n)
      ensures Around(up, n, 1 + Max(h, H(r)), Size(Br(t, n, r)))
      ensures Hangs(t, n, r, up) && n.balance == H(r) - h
    {
      AroundLeft(n, r, up, Root(t), h, Size(t));
    }

    lemma {:induction false} HangsRight(l: Tree, n: Node, up: Ctx, t: Tree, h: int)
      requires Around(InR(l, n, up), Root(t), h, Size(t)) && Linked(t, n)
      ensures Around(up, n, 1 + Max(H(l), h), Size(Br(l, n, t)))
      ensures Hangs(l, n, t, up) && n.balance == h - H(l)
    {
      AroundRight(l, n, up, Root(t), h, Size(t));
    }

    lemma {:induction false} PendingFocus(c: Ctx, t: Tree, h: int, S: set<Node>)
      requires Pending(c, t, h, S) && !c.Top?
      ensures Focus(LeftOf(c, t), c.n, RightOf(c, t), c.up, S)
      ensures Around(c.up, c.n, 1 + Max(LeftH(c, h), RightH(c, h)), Size(Br(LeftOf(c, t), c.n, RightOf(c, t))))
      ensures c.n.balance == RightH(c, h) - LeftH(c, h)
    {
      ShapeFocus(c, t, h, S);
      if c.InL? {
        HangsLeft(c.n, c.r, c.up, t, h);
      } else {
        HangsRight(c.l, c.n, c.up, t, h);
      }
    }

    /** One round of the rebalance loop: the hole moves up past one node. */
    method Round(child: Node?, hd: int, node: Node, ghost c: Ctx, ghost t: Tree, ghost h: int, ghost S: set<Node>)
      returns (top: Node, newDiff: int, ghost t': Tree, ghost h': int)
      requires !c.Top? && node == c.n && child == Root(t) && Pending(c, t, h, S) && H(t) == h + hd && hd in {-1, 1}
      modifies this`root, S
      ensures Pending(c.up, t', h', S) && top == Root(t')
      ensures newDiff == H(t') - h' && Fix(c, t) == Fix(c.up, t')
      ensures forall n :: n in S ==> n.value == old(n.value)
    {
      hide Linked, Fix, Nodes;
      PendingFocus(c, t, h, S);
      ShapeFocus(c, t, h, S);
      ShapeUp(c, t, h, S, child, hd);
      ghost var l, r, oldL, oldR := LeftOf(c, t), RightOf(c, t), LeftH(c, h), RightH(c, h);
      t', h' := Rebuild(l, node, r), 1 + Max(oldL, oldR);
      top, newDiff := Step(child, hd, node, l, r, oldL, oldR, c.up, S);
    }

    /** Restores balance after the subtree below parent has changed height by hd. */
    method Rebalance(node0: Node?, hd0: int, parent0: Node, ghost c: Ctx, ghost t: Tree, ghost h: int,
        ghost S: set<Node>)
      requires Pending(c, t, h, S) && H(t) == h + hd0 && hd0 in {-1, 1}
      requires node0 == Root(t) && Above(c, null) == parent0
      modifies this`root, S
      ensures root == Root(Fix(c, t)) && Linked(Fix(c, t), null) && Avl(Fix(c, t))
      ensures forall n :: n in S ==> n.value == old(n.value)
    {
      FixAvl(c, t, h);
      var node: Node?, heightDiff: int, parent: Node := node0, hd0, parent0;
      ghost var cc, tt, hh := c, t, h;
      while true
        invariant Pending(cc, tt, hh, S) && H(tt) == hh + heightDiff && heightDiff in {-1, 1}
        invariant node == Root(tt) && Above(cc, null) == parent
        invariant Fix(cc, tt) == Fix(c, t)
        invariant forall n :: n in S ==> n.value == old(n.value)
        decreases cc
      {
        var child := node;
        node, heightDiff, tt, hh := Round(child, heightDiff, parent, cc, tt, hh, S);
        cc := cc.up;
        if heightDiff == 0 {
          Finished(cc, tt, hh, S);
          break;
        }
        if node.parent == null {
          Finished(cc, tt, hh, S);
          break;
        }
        parent := node.parent;
      }
    }

    lemma {:induction false} Finished(c: Ctx, t: Tree, h: int, S: set<Node>)
      requires Pending(c, t, h, S) && (H(t) == h || c.Top?)
      ensures root == Root(Fix(c, t)) && Linked(Fix(c, t), null)
    {
      PlugAvl(c, t);
      if !c.Top? {
        FixStops(c, t);
        PlugLinked(c, t, null);
      }
    }

    /** The parent pointers along the spine. */
    static ghost predicate Parents(c: Ctx)
      reads Spine(c)`parent
    {
      !c.Top? ==> c.n.parent == Above(c.up, null) && Parents(c.up)
    }

    lemma {:induction false} LinkedParents(c: Ctx, hole: Node?)
      requires CLinked(c, hole, null)
      ensures Parents(c)
      decreases c
    {
      if !c.Top? { LinkedParents(c.up, c.n); }
    }

    /** The first frame of a context, alone. */
    static ghost function Frame(c: Ctx): Ctx
      requires !c.Top?
    {
      if c.InL? then InL(c.n, c.r, Top) else InR(c.l, c.n, Top)
    }

    lemma {:induction false} ComposeFrame(done: Ctx, c: Ctx)
      requires !c.Top?
      ensures Compose(Compose(done, Frame(c)), c.up) == Compose(done, c)
      decreases done
    {
      if !done.Top? { ComposeFrame(done.up, c); }
    }

    lemma {:induction false} FrameSize(done: Ctx, c: Ctx, s: int)
      requires !c.Top?
      ensures CSz(Compose(done, Frame(c)), s) == CSz(Frame(c), CSz(done, s))
      decreases done
    {
      match done
      case Top =>
      case InL(n, r, up) => FrameSize(up, c, s + 1 + Size(r));
      case InR(l, n, up) => FrameSize(up, c, Size(l) + 1 + s);
    }

    lemma {:induction false} ComposeTop(c: Ctx)
      ensures Compose(c, Top) == c
      decreases c
    {
      if !c.Top? { ComposeTop(c.up); }
    }

    lemma {:induction false} WalkJoin(done: Ctx, c: Ctx, s: int, delta: int)
      requires !c.Top? && CSize(done, s + delta) && c.n.branchSize == CSz(Frame(c), CSz(done, s + delta))
      ensures CSize(Compose(done, Frame(c)), s + delta)
    {
      ComposeSize(done, Frame(c), s + delta);
    }

    /** One step of the walk: the first frame of c moves over to done. */
    method WalkOne(p: Node, delta: int, ghost done: Ctx, ghost c: Ctx, ghost s: int, ghost S: set<Node>)
      requires !c.Top? && p == c.n && Spine(done) <= S && Spine(c) <= S && p !in Spine(done) && p !in Spine(c.up)
      requires CSize(done, s + delta) && CSize(c, CSz(done, s))
      modifies p`branchSize
      ensures CSize(Compose(done, Frame(c)), s + delta) && CSize(c.up, CSz(Compose(done, Frame(c)), s))
    {
      SizeShift(done, s, delta);
      FrameSize(done, c, s);
      assert CSize(c.up, CSz(Frame(c), CSz(done, s)));
      p.branchSize := p.branchSize + delta;
      WalkJoin(done, c, s, delta);
    }

    /** Adds delta to the branch sizes from p up to the root. */
    method WalkSizes(p0: Node?, delta: int, ghost c: Ctx, ghost s: int, ghost S: set<Node>)
      requires p0 == Above(c, null) && Parents(c) && CNodes(c) <= S && CDistinct(c)
      requires CSize(c, s)
      modifies Spine(c)`branchSize
      ensures CSize(c, s + delta)
    {
      var p := p0;
      ghost var cc, done := c, Top;
      while p != null
        invariant p == Above(cc, null) && Parents(cc) && c == Compose(done, cc)
        invariant CSize(done, s + delta) && CSize(cc, CSz(done, s))
        decreases cc
      {
        ComposeFrame(done, cc);
        ComposeNodes(done, cc);
        SpineInNodes(cc.up);
        SpineInNodes(done);
        WalkOne(p, delta, done, cc, s, S);
        p := p.parent;
        done := Compose(done, Frame(cc));
        cc := cc.up;
      }
      ComposeTop(done);
    }
  }
}
