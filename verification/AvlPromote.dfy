/** Removal of a node with two children: its predecessor moves into its place. */
module AvlPromote {
  import opened Sequences
  import opened AvlShape
  import opened AvlBalance
  import opened AvlRotate
  import opened AvlList
  import opened AvlWalk
  import opened AvlInsert
  import opened AvlRemove

  /** The left branch l of the removed node: its rightmost node is subst, with left branch a.
      Either subst is the root of l (i is Top), or i1 leads from the root's right branch to subst. */
  datatype Pred = Pred(l: Tree, i: Ctx, i1: Ctx, a: Tree, subst: Node) {
    ghost predicate Fits() {
      && l.Br? && l == Plug(i, Br(a, subst, Leaf)) && After(i) == []
      && (i.Top? ==> subst == l.n)
      && (!i.Top? ==> i == Compose(i1, InR(l.l, l.n, Top)) && i.InR?)
    }
  }

  /** Descends to the predecessor of node. */
  method FindSubst(list: List, node: Node, ghost l: Tree, ghost r: Tree, ghost c: Ctx)
      returns (subst: Node, ghost p: Pred)
    requires list.Valid() && list.tree == Plug(c, Br(l, node, r)) && l.Br?
    ensures |InOrder(l)| > 0 && subst == InOrder(l)[|InOrder(l)| - 1]
    ensures p.Fits() && p.l == l && p.subst == subst
    ensures list.tree == Plug(Compose(p.i, InL(node, r, c)), Br(p.a, subst, Leaf))
  {
    hide List.Valid, Size;
    ghost var o := InL(node, r, c);
    At(list, c, Br(l, node, r));
    subst := node.left;
    ghost var i, i1, t := Top, Top, l;
    At(list, o, l);
    while subst.right != null
      invariant list.tree == Plug(Compose(i, o), t) && Root(t) == subst && subst.right == Root(t.r)
      invariant l == Plug(i, t) && After(i) == []
      invariant i.Top? ==> subst == l.n && t == l
      invariant !i.Top? ==> i == Compose(i1, InR(l.l, l.n, Top)) && i.InR?
      decreases t
    {
      i1 := if i.Top? then Top else InR(t.l, subst, i1);
      i, t := InR(t.l, subst, i), t.r;
      subst := subst.right;
      At(list, Compose(i, o), t);
    }
    p := Pred(l, i, i1, t.l, subst);
    PredOrder(p);
  }

  ghost function Whole(p: Pred, node: Node, r: Tree, c: Ctx): Tree {
    Plug(c, Br(p.l, node, r))
  }

  /** The context of a once subst stands in the place of node. */
  ghost function Moved(p: Pred, r: Tree, c: Ctx): Ctx {
    Compose(p.i, InL(p.subst, r, c))
  }

  lemma {:induction false} PredNodes(p: Pred)
    requires p.Fits()
    ensures Nodes(p.l) == Nodes(Plug(p.i, p.a)) + {p.subst}
    ensures Distinct(p.l) ==> Distinct(Plug(p.i, p.a)) && p.subst !in Nodes(Plug(p.i, p.a))
  {
    PlugNodes(p.i, Br(p.a, p.subst, Leaf));
    PlugNodes(p.i, p.a);
  }

  lemma {:induction false} PredOrder(p: Pred)
    requires p.Fits()
    ensures InOrder(p.l) == Before(p.i) + InOrder(p.a) + [p.subst]
  {
    PlugOrder(p.i, Br(p.a, p.subst, Leaf));
  }

  lemma {:induction false} PredAvl(p: Pred)
    requires p.Fits()
    ensures H(p.l) == CH(p.i, H(p.a) + 1)
    ensures Avl(p.l) ==> Avl(p.a) && CAvl(p.i, H(p.a) + 1)
  {
    PlugAvl(p.i, Br(p.a, p.subst, Leaf));
  }

  lemma {:induction false} MovedNodes(p: Pred, node: Node, r: Tree, c: Ctx)
    requires p.Fits() && Distinct(Whole(p, node, r, c))
    ensures Nodes(Plug(Moved(p, r, c), p.a)) == Nodes(Whole(p, node, r, c)) - {node}
    ensures Distinct(Plug(Moved(p, r, c), p.a))
  {
    PredNodes(p);
    var l' := Plug(p.i, p.a);
    PlugNodes(c, Br(p.l, node, r));
    PlugNodes(c, Br(l', p.subst, r));
    ComposeFacts(p.i, InL(p.subst, r, c), p.a);
  }

  lemma {:induction false} MovedOrder(p: Pred, node: Node, r: Tree, c: Ctx)
    requires p.Fits()
    ensures Before(Moved(p, r, c)) + InOrder(p.a) + After(Moved(p, r, c))
         == Before(c) + InOrder(p.l) + (InOrder(r) + After(c))
  {
    PredOrder(p);
    ComposeFacts(p.i, InL(p.subst, r, c), p.a);
  }

  lemma {:induction false} MovedAvl(p: Pred, node: Node, r: Tree, c: Ctx)
    requires p.Fits() && Avl(Whole(p, node, r, c))
    ensures Avl(p.a) && CAvl(Moved(p, r, c), H(p.a) + 1)
  {
    var o, h := InL(p.subst, r, c), CH(p.i, H(p.a) + 1);
    PlugAvl(c, Br(p.l, node, r));
    assert Avl(p.l) && Avl(r) && Near(H(p.l), H(r)) && CAvl(c, 1 + Max(H(p.l), H(r)));
    PredAvl(p);
    assert CAvl(o, h);
    ComposeAvl(p.i, o, H(p.a) + 1);
  }

  /** The parts of the tree lie apart from each other. */
  ghost predicate Apart(p: Pred, node: Node, r: Tree, c: Ctx, S: set<Node>) {
    && p.Fits() && node in S && p.subst in S && Nodes(p.a) <= S && CNodes(p.i) <= S && Nodes(r) <= S && CNodes(c) <= S
    && node != p.subst && node !in Nodes(p.a) && node !in CNodes(p.i) && node !in Nodes(r) && node !in CNodes(c)
    && p.subst !in CNodes(p.i) && p.subst !in Nodes(p.a) && p.subst !in Nodes(r) && p.subst !in CNodes(c)
    && Distinct(p.a) && CDistinct(p.i) && Distinct(r) && CDistinct(c)
    && Nodes(p.a) !! CNodes(p.i) && Nodes(p.a) !! Nodes(r) && Nodes(p.a) !! CNodes(c)
    && CNodes(p.i) !! Nodes(r) && CNodes(p.i) !! CNodes(c) && Nodes(r) !! CNodes(c)
  }

  lemma {:induction false} WholeApart(p: Pred, node: Node, r: Tree, c: Ctx, S: set<Node>)
    requires p.Fits() && Distinct(Whole(p, node, r, c)) && Nodes(Whole(p, node, r, c)) == S
    ensures Apart(p, node, r, c, S)
  {
    PredNodes(p);
    PlugNodes(p.i, p.a);
    PlugNodes(c, Br(p.l, node, r));
  }

  /** The height the left branch had, and its size without subst. */
  ghost function LeftHeight(p: Pred): int { CH(p.i, H(p.a) + 1) }
  ghost function LeftSize(p: Pred): int { CSz(p.i, Size(p.a)) }

  /** The old left branch without subst is exact below the node q. */
  ghost predicate LeftPart(p: Pred, q: Node)
    reads Nodes(p.a), CNodes(p.i), Spine(p.i), Hung(p.i)
  {
    && p.Fits() && CLinked(p.i, Root(p.a), q) && Linked(p.a, Above(p.i, p.subst))
    && CBal(p.i, H(p.a) + 1) && CSize(p.i, Size(p.a))
  }

  /** The node n, which has its own or the removed node's measures, is exact but for its left branch. */
  ghost predicate RightPart(list: List, p: Pred, n: Node, r: Tree, c: Ctx)
    reads list, n, Nodes(r), CNodes(c), Spine(c), Hung(c)
  {
    && r.Br? && n.right == r.n && Linked(r, n) && n.parent == Above(c, null)
    && n.balance == H(r) - LeftHeight(p) && n.branchSize == LeftSize(p) + 1 + Size(r)
    && list.Around(c, n, 1 + Max(LeftHeight(p), H(r)), LeftSize(p) + 1 + Size(r))
  }

  /** The left branch is detached from subst but still hangs below node. */
  ghost predicate Loose(list: List, p: Pred, node: Node, r: Tree, c: Ctx)
    reads list, node, p.subst, Nodes(p.a), CNodes(p.i), Spine(p.i), Hung(p.i), Nodes(r), CNodes(c), Spine(c), Hung(c)
  {
    && LeftPart(p, node) && RightPart(list, p, node, r, c) && node.left == p.l.n
    && (p.i.Top? ==> p.subst.left == Root(p.a))
  }

  /** A composed context is exact exactly when its two parts are. */
  lemma {:induction false} AroundCompose(list: List, i: Ctx, o: Ctx, hole: Node?, h: int, s: int)
    ensures list.Around(Compose(i, o), hole, h, s)
       <==> CLinked(i, hole, Above(o, null)) && CBal(i, h) && CSize(i, s) &&
            list.Around(o, CRoot(i, hole), CH(i, h), CSz(i, s))
  {
    ComposeLinked(i, o, hole, null);
    ComposeBal(i, o, h);
    ComposeSize(i, o, s);
    ComposeRoot(i, o, hole);
  }

  lemma {:induction false} Loosen(list: List, p: Pred, node: Node, r: Tree, c: Ctx)
    requires p.Fits() && r.Br?
    requires list.Around(Compose(p.i, InL(node, r, c)), if p.i.Top? then p.subst else Root(p.a), H(p.a) + 1, Size(p.a))
    requires Linked(p.a, Above(p.i, p.subst)) && (p.i.Top? ==> p.subst.left == Root(p.a))
    ensures Loose(list, p, node, r, c)
  {
    var hole := if p.i.Top? then p.subst else Root(p.a);
    AroundCompose(list, p.i, InL(node, r, c), hole, H(p.a) + 1, Size(p.a));
    PredRoot(p, hole);
    list.AroundLeft(node, r, c, p.l.n, LeftHeight(p), LeftSize(p));
  }

  lemma {:induction false} PredRoot(p: Pred, hole: Node?)
    requires p.Fits() && (p.i.Top? ==> hole == p.subst)
    ensures CRoot(p.i, hole) == p.l.n
  {
    if !p.i.Top? { ComposeRoot(p.i1, InR(p.l.l, p.l.n, Top), hole); }
  }

  lemma {:induction false} ComposeRoot(i: Ctx, o: Ctx, hole: Node?)
    ensures CRoot(Compose(i, o), hole) == CRoot(o, CRoot(i, hole))
    decreases i
  {
    if !i.Top? { ComposeRoot(i.up, o, i.n); }
  }

  /** subst stands exactly in the place of node. */
  ghost predicate Tight(list: List, p: Pred, r: Tree, c: Ctx)
    reads list, p.subst, Nodes(p.a), CNodes(p.i), Spine(p.i), Hung(p.i), Nodes(r), CNodes(c), Spine(c), Hung(c)
  {
    LeftPart(p, p.subst) && RightPart(list, p, p.subst, r, c) && p.subst.left == CRoot(p.i, Root(p.a))
  }

  lemma {:induction false} Tighten(list: List, p: Pred, r: Tree, c: Ctx)
    requires Tight(list, p, r, c)
    ensures list.Around(Moved(p, r, c), Root(p.a), H(p.a) + 1, Size(p.a))
    ensures Linked(p.a, Above(Moved(p, r, c), null))
  {
    AroundCompose(list, p.i, InL(p.subst, r, c), Root(p.a), H(p.a) + 1, Size(p.a));
  }

  /** subst takes over the left branch of node. */
  method TakeLeft(node: Node, subst: Node, ghost p: Pred, ghost S: set<Node>)
    requires p.Fits() && !p.i.Top? && subst == p.subst && node.left == p.l.n
    requires CLinked(p.i, Root(p.a), node) && CDistinct(p.i) && CNodes(p.i) <= S && subst !in CNodes(p.i)
        && node != subst
    modifies subst`left, NodeSet(node.left)`parent
    ensures CLinked(p.i, Root(p.a), subst) && subst.left == CRoot(p.i, Root(p.a)) == p.l.n
    ensures p.l.n in CNodes(p.i)
  {
    ghost var x := InR(p.l.l, p.l.n, Top);
    ComposeLinked(p.i1, x, Root(p.a), node);
    ComposeNodes(p.i1, x);
    PredRoot(p, Root(p.a));
    SpineInNodes(p.i1);
    subst.left := node.left;
    subst.left.parent := subst;
    ComposeLinked(p.i1, x, Root(p.a), subst);
  }

  /** subst takes over the right branch, balance, size and parent of node. */
  method TakeFields(node: Node, subst: Node, parent: Node?, ghost r: Tree, ghost S: set<Node>)
    requires Linked(r, node) && Distinct(r) && r.Br? && node.right == r.n && Nodes(r) <= S
    requires subst !in Nodes(r) && node != subst && node !in Nodes(r)
    modifies subst`right, subst`balance, subst`branchSize, subst`parent, NodeSet(node.right)`parent
    ensures subst.right == r.n && Linked(r, subst) && subst.parent == parent
    ensures subst.balance == node.balance && subst.branchSize == node.branchSize
  {
    subst.right := node.right;
    Rehang(subst.right, r, node, subst, S);
    subst.balance := node.balance;
    subst.branchSize := node.branchSize;
    subst.parent := parent;
  }

  /** subst takes over everything of node except its left branch. */
  method TakePlace(list: List, node: Node, subst: Node, parent: Node?, ghost r: Tree, ghost c: Ctx, ghost h: int,
      ghost s: int, ghost S: set<Node>)
    requires Linked(r, node) && Distinct(r) && r.Br? && node.right == r.n && Nodes(r) <= S && parent == Above(c, null)
    requires list.Around(c, node, h, s) && CDistinct(c) && CNodes(c) <= S && node !in CNodes(c)
    requires subst !in Nodes(r) && subst !in CNodes(c) && node != subst && Nodes(r) !! CNodes(c) && node !in Nodes(r)
    modifies subst`right, subst`balance, subst`branchSize, subst`parent, NodeSet(node.right)`parent
    modifies list`root, NodeSet(parent)`left, NodeSet(parent)`right
    ensures subst.right == r.n && Linked(r, subst) && subst.parent == parent
    ensures subst.balance == node.balance && subst.branchSize == node.branchSize
    ensures list.Around(c, subst, h, s)
  {
    SpineInNodes(c);
    assert r.n in Nodes(r);
    assert parent != null ==> parent in CNodes(c);
    TakeFields(node, subst, parent, r, S);
    ReplaceInParent(list, node, parent, subst, c, h, s, S);
  }

  /** The nodes that the move writes to, other than subst, and where they are not. */
  lemma {:induction false} ApartPoints(p: Pred, node: Node, r: Tree, c: Ctx, S: set<Node>)
    requires Apart(p, node, r, c, S) && r.Br?
    ensures r.n in S && r.n !in CNodes(p.i) && r.n !in Nodes(p.a)
    ensures !c.Top? ==> c.n in S && c.n !in CNodes(p.i) && c.n !in Nodes(p.a) && c.n !in Nodes(r)
    ensures Spine(p.i) <= CNodes(p.i) && Hung(p.i) <= CNodes(p.i) && Spine(c) <= CNodes(c) && Hung(c) <= CNodes(c)
  {
    SpineInNodes(c);
    SpineInNodes(p.i);
  }

  /** The first half of moving subst; far tells that it was not node's own left child. */
  method TakeOverLeft(node: Node, subst: Node, far: bool, ghost p: Pred, ghost r: Tree, ghost c: Ctx,
      ghost S: set<Node>)
    requires Apart(p, node, r, c, S) && r.Br? && subst == p.subst && far == !p.i.Top?
    requires LeftPart(p, node) && node.left == p.l.n && (p.i.Top? ==> p.subst.left == Root(p.a))
    modifies subst`left, CNodes(p.i)`parent
    ensures LeftPart(p, subst) && subst.left == CRoot(p.i, Root(p.a))
  {
    ApartPoints(p, node, r, c, S);
    if far {
      PredIn(p);
      TakeLeft(node, subst, p, S);
    }
  }

  lemma {:induction false} PredIn(p: Pred)
    requires p.Fits() && !p.i.Top?
    ensures p.l.n in CNodes(p.i)
  {
    ComposeNodes(p.i1, InR(p.l.l, p.l.n, Top));
  }

  method TakeOverRest(list: List, node: Node, subst: Node, parent: Node?, ghost p: Pred, ghost r: Tree, ghost c: Ctx,
      ghost S: set<Node>)
    requires Apart(p, node, r, c, S) && subst == p.subst && parent == node.parent
    requires LeftPart(p, subst) && RightPart(list, p, node, r, c) && subst.left == CRoot(p.i, Root(p.a))
    modifies subst`right, subst`balance, subst`branchSize, subst`parent, NodeSet(node.right)`parent
    modifies list`root, NodeSet(parent)`left, NodeSet(parent)`right
    ensures Tight(list, p, r, c)
  {
    hide Linked, Hung, Nodes;
    ApartPoints(p, node, r, c, S);
    TakePlace(list, node, subst, parent, r, c, 1 + Max(LeftHeight(p), H(r)), LeftSize(p) + 1 + Size(r), S);
  }

  /** subst moves into the place of node. */
  method TakeOver(list: List, node: Node, subst: Node, parent: Node?, far: bool, ghost p: Pred, ghost r: Tree,
      ghost c: Ctx, ghost S: set<Node>)
    requires Apart(p, node, r, c, S) && Loose(list, p, node, r, c) && subst == p.subst && parent == node.parent
        && far == !p.i.Top?
    modifies list`root, S`left, S`right, S`parent, S`balance, S`branchSize
    ensures Tight(list, p, r, c)
  {
    ApartPoints(p, node, r, c, S);
    TakeOverLeft(node, subst, far, p, r, c, S);
    TakeOverRest(list, node, subst, parent, p, r, c, S);
  }

  /** What hangs in the hole that subst leaves: its left branch, or subst itself if near. */
  ghost function HoleOf(p: Pred): Node? {
    if p.i.Top? then p.subst else Root(p.a)
  }

  /** Unless subst is node's own left child, its left branch takes its place. */
  method Detach(list: List, node: Node, subst: Node, substParent: Node, child: Node?, ghost p: Pred, ghost o: Ctx,
      ghost S: set<Node>)
    requires p.Fits() && subst == p.subst && child == Root(p.a) && substParent == Above(p.i, node) && o.InL?
        && o.n == node
    requires (substParent == node) == p.i.Top?
    requires CDistinct(Compose(p.i, o)) && CNodes(Compose(p.i, o)) <= S && Nodes(p.a) <= S && Distinct(p.a)
    requires Nodes(p.a) !! CNodes(Compose(p.i, o)) && subst !in CNodes(Compose(p.i, o))
    requires list.Around(Compose(p.i, o), subst, H(p.a) + 1, Size(p.a) + 1) && Linked(p.a, subst)
    modifies NodeSet(child)`parent, substParent`right
    ensures list.Around(Compose(p.i, o), HoleOf(p), H(p.a) + 1, Size(p.a) + 1) && Linked(p.a, Above(p.i, subst))
  {
    ghost var full := Compose(p.i, o);
    SpineInNodes(full);
    if substParent != node {
      assert full.n == substParent;
      assert child != null ==> child in Nodes(p.a);
      Rehang(child, p.a, subst, substParent, S);
      DetachSlot(list, subst, substParent, child, p, full, S);
    }
  }

  method DetachSlot(list: List, subst: Node, substParent: Node, child: Node?, ghost p: Pred, ghost full: Ctx,
      ghost S: set<Node>)
    requires full.InR? && substParent == full.n && child == Root(p.a)
    requires CDistinct(full) && CNodes(full) <= S && Nodes(p.a) <= S && Nodes(p.a) !! CNodes(full)
    requires list.Around(full, subst, H(p.a) + 1, Size(p.a) + 1) && Linked(p.a, substParent)
    modifies substParent`right
    ensures list.Around(full, child, H(p.a) + 1, Size(p.a) + 1) && Linked(p.a, substParent)
  {
    SpineInNodes(full.up);
    substParent.right := child;
  }

  /** What the valid list says about the parts around subst. */
  lemma {:induction false} PredLinked(list: List, p: Pred, node: Node, r: Tree, c: Ctx, S: set<Node>)
    requires list.Valid() && list.tree == Whole(p, node, r, c) && S == list.nodes && p.Fits() && r.Br?
    requires list.tree == Plug(Compose(p.i, InL(node, r, c)), Br(p.a, p.subst, Leaf))
    ensures Apart(p, node, r, c, S)
    ensures list.Around(Compose(p.i, InL(node, r, c)), p.subst, H(p.a) + 1, Size(p.a) + 1)
    ensures Linked(p.a, p.subst) && p.subst.left == Root(p.a) && p.subst.parent == Above(p.i, node)
    ensures (p.subst.parent == node) == p.i.Top?
    ensures node.parent == Above(c, null)
  {
    var full, t := Compose(p.i, InL(node, r, c)), Br(p.a, p.subst, Leaf);
    WholeApart(p, node, r, c, S);
    PlugLinked(full, t, null);
    PlugAvl(full, t);
    assert H(t) == H(p.a) + 1 && Size(t) == Size(p.a) + 1;
    At(list, c, Br(p.l, node, r));
  }

  lemma {:induction false} FullApart(p: Pred, node: Node, r: Tree, c: Ctx, S: set<Node>)
    requires Apart(p, node, r, c, S)
    ensures CDistinct(Compose(p.i, InL(node, r, c))) && CNodes(Compose(p.i, InL(node, r, c))) <= S
    ensures Nodes(p.a) !! CNodes(Compose(p.i, InL(node, r, c))) && p.subst !in CNodes(Compose(p.i, InL(node, r, c)))
    ensures Spine(Compose(p.i, InL(node, r, c))) <= CNodes(Compose(p.i, InL(node, r, c)))
    ensures Above(Compose(p.i, InL(node, r, c)), null) == Above(p.i, node)
  {
    ComposeNodes(p.i, InL(node, r, c));
    SpineInNodes(Compose(p.i, InL(node, r, c)));
  }

  /** subst leaves its place and the sizes above it shrink: the left branch is loose. */
  method Release(list: List, node: Node, subst: Node, substParent: Node, child: Node?, ghost p: Pred, ghost r: Tree,
      ghost c: Ctx, ghost S: set<Node>)
    requires Apart(p, node, r, c, S) && r.Br? && subst == p.subst && child == Root(p.a)
        && substParent == Above(p.i, node)
    requires (substParent == node) == p.i.Top?
    requires list.Around(Compose(p.i, InL(node, r, c)), subst, H(p.a) + 1, Size(p.a) + 1)
    requires Linked(p.a, subst) && subst.left == Root(p.a)
    modifies S`parent, S`right, S`branchSize
    ensures Loose(list, p, node, r, c)
  {
    ghost var full := Compose(p.i, InL(node, r, c));
    FullApart(p, node, r, c, S);
    Detach(list, node, subst, substParent, child, p, InL(node, r, c), S);
    ShrinkAbove(list, substParent, HoleOf(p), full, H(p.a) + 1, Size(p.a) + 1, S);
    Loosen(list, p, node, r, c);
  }

  /** The new shape is AVL but for the hole, where it expects one level more. */
  lemma {:induction false} MovedShape(p: Pred, node: Node, r: Tree, c: Ctx, S: set<Node>)
    requires p.Fits() && Avl(Whole(p, node, r, c)) && Distinct(Whole(p, node, r, c)) && Nodes(Whole(p, node, r, c)) == S
    ensures List.Shape(Moved(p, r, c), p.a, H(p.a) + 1, S)
    ensures Nodes(Plug(Moved(p, r, c), p.a)) == S - {node} && Distinct(Plug(Moved(p, r, c), p.a))
  {
    MovedNodes(p, node, r, c);
    MovedAvl(p, node, r, c);
    PlugNodes(Moved(p, r, c), p.a);
  }

  /** Puts subst in the place of node and its left branch in the place of subst. */
  method Promote(list: List, node: Node, subst: Node, child: Node?, ghost p: Pred, ghost r: Tree, ghost c: Ctx,
      ghost S: set<Node>)
    returns (above: Node)
    requires Apart(p, node, r, c, S) && r.Br? && subst == p.subst && child == subst.left == Root(p.a)
        && Linked(p.a, subst)
    requires list.Around(Compose(p.i, InL(node, r, c)), subst, H(p.a) + 1, Size(p.a) + 1)
    requires subst.parent == Above(p.i, node) && (subst.parent == node) == p.i.Top? && node.parent == Above(c, null)
    modifies list`root, S`left, S`right, S`parent, S`balance, S`branchSize
    ensures list.Around(Moved(p, r, c), child, H(p.a) + 1, Size(p.a)) && Linked(p.a, Above(Moved(p, r, c), null))
    ensures above == Above(Moved(p, r, c), null)
  {
    var parent, substParent := node.parent, subst.parent;
    Release(list, node, subst, substParent, child, p, r, c, S);
    TakeOver(list, node, subst, parent, substParent != node, p, r, c, S);
    Tighten(list, p, r, c);
    above := if substParent != node then substParent else subst;
  }

  /** Replaces node, which has two children, by its predecessor. */
  method RemoveInner(list: List, node: Node, ghost l: Tree, ghost r: Tree, ghost c: Ctx)
    requires list.Valid() && list.tree == Plug(c, Br(l, node, r)) && l.Br? && r.Br?
    modifies list, list.nodes
    ensures list.Valid() && list.nodes == old(list.nodes) - {node}
    ensures list.Order() == Before(c) + InOrder(l) + (InOrder(r) + After(c))
    ensures forall n :: n in old(list.nodes) ==> n.value == old(n.value)
  {
    hide Distinct, Apart, Plug, Before, CSize, Avl, CDistinct, CBal, CLinked, CAvl, Spine;
    ghost var S := list.nodes;
    var subst; ghost var p;
    subst, p := FindSubst(list, node, l, r, c);
    PredLinked(list, p, node, r, c, S);
    MovedShape(p, node, r, c, S);
    var child := subst.left;
    var above := Promote(list, node, subst, child, p, r, c, S);
    RestoreAfterRemoval(list, child, above, Moved(p, r, c), p.a, S);
    Repaired(Moved(p, r, c), p.a, H(p.a) + 1);
    Commit(list, Fix(Moved(p, r, c), p.a), S - {node});
    MovedOrder(p, node, r, c);
  }

  /** Takes node out of the list; every other node stays, keeps its value and its relative place. */
  method RemoveNode(list: List, node: Node)
    requires list.Valid() && node in list.nodes
    modifies list, list.nodes
    ensures list.Valid() && list.nodes == old(list.nodes) - {node}
    ensures forall k :: 0 <= k < |old(list.Order())| && old(list.Order())[k] == node ==>
      list.Order() == Without(old(list.Order()), k)
    ensures forall n :: n in old(list.nodes) ==> n.value == old(n.value)
  {
    hide After, Linked, Distinct, Nodes;
    ghost var c, t := Locate(Top, list.tree, node);
    ghost var l, r := t.l, t.r;
    At(list, c, t);
    RemovalOrder(list.tree, c, t);
    if node.left == null {
      RemoveOnly(list, node, node.right, c, t, r);
    } else if node.right == null {
      RemoveOnly(list, node, node.left, c, t, l);
    } else {
      RemoveInner(list, node, l, r, c);
    }
  }

  lemma {:induction false} RemovalOrder(tree: Tree, c: Ctx, t: Tree)
    requires tree == Plug(c, t) && t.Br? && Distinct(tree)
    ensures forall k :: 0 <= k < |InOrder(tree)| && InOrder(tree)[k] == t.n ==>
      Without(InOrder(tree), k) == Before(c) + InOrder(t.l) + (InOrder(t.r) + After(c))
  {
    var before, rest := Before(c) + InOrder(t.l), InOrder(t.r) + After(c);
    PlugOrder(c, t);
    Regroup(Before(c), InOrder(t.l), t.n, InOrder(t.r), After(c));
    HoleIndex(tree, before, [t.n] + rest, |before|);
    WithoutMiddle(before, t.n, rest);
  }

  lemma {:induction false} Regroup<T>(a: seq<T>, l: seq<T>, n: T, r: seq<T>, b: seq<T>)
    ensures a + (l + [n] + r) + b == (a + l) + ([n] + (r + b))
  {
  }

  lemma {:induction false} WithoutMiddle<T>(a: seq<T>, n: T, b: seq<T>)
    ensures Without(a + ([n] + b), |a|) == a + b
  {
  }
}
