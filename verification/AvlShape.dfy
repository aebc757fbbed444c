/** The shape of a tree of list nodes, as ghost data: trees, one-hole contexts and
    the heap predicates that tie them to the mutable nodes. */
module AvlShape {

  /** An opaque element address; the list only stores it or hands it to the caller's functions. */
  type Elt = nat

  /** A list node, updated in place by every list operation. */
  class Node {
    var left: Node?
    var right: Node?
    var parent: Node?
    var balance: int
    var branchSize: int
    var value: Elt

    /** A fresh leaf node, not yet attached. */
    constructor (elt: Elt)
      ensures left == null && right == null && parent == null
      ensures balance == 0 && branchSize == 1 && value == elt
    {
      left, right, parent := null, null, null;
      balance, branchSize, value := 0, 1, elt;
    }
  }

  datatype Tree = Leaf | Br(l: Tree, n: Node, r: Tree)

  /** A tree with a hole; the innermost frame comes first. */
  datatype Ctx = Top | InL(n: Node, r: Tree, up: Ctx) | InR(l: Tree, n: Node, up: Ctx)

  // ---------------------------------------------------------------- trees

  function Max(a: int, b: int): int { if a < b then b else a }

  ghost function H(t: Tree): nat {
    match t case Leaf => 0 case Br(l, _, r) => 1 + Max(H(l), H(r))
  }

  ghost function Size(t: Tree): nat {
    match t case Leaf => 0 case Br(l, _, r) => Size(l) + 1 + Size(r)
  }

  ghost function Root(t: Tree): Node? {
    match t case Leaf => null case Br(_, n, _) => n
  }

  ghost function Nodes(t: Tree): set<Node> {
    match t case Leaf => {} case Br(l, n, r) => Nodes(l) + {n} + Nodes(r)
  }

  ghost function InOrder(t: Tree): seq<Node> {
    match t case Leaf => [] case Br(l, n, r) => InOrder(l) + [n] + InOrder(r)
  }

  ghost predicate Distinct(t: Tree) {
    match t
    case Leaf => true
    case Br(l, n, r) =>
      Distinct(l) && Distinct(r) && n !in Nodes(l) && n !in Nodes(r) && Nodes(l) !! Nodes(r)
  }

  ghost predicate Near(a: int, b: int) { -1 <= a - b <= 1 }

  /** The AVL condition: the heights of the two branches of every node differ by at most one. */
  ghost predicate Avl(t: Tree) {
    match t case Leaf => true case Br(l, _, r) => Avl(l) && Avl(r) && Near(H(l), H(r))
  }

  /** What check_invariants accepts, apart from the bound on the balances: parent links,
      branch sizes and stored balances are exact everywhere. */
  ghost predicate Linked(t: Tree, p: Node?)
    reads Nodes(t)
  {
    match t
    case Leaf => true
    case Br(l, n, r) =>
      && n.left == Root(l) && n.right == Root(r) && n.parent == p
      && n.balance == H(r) - H(l) && n.branchSize == Size(t)
      && Linked(l, n) && Linked(r, n)
  }

  // ------------------------------------------------------------- contexts

  ghost function Plug(c: Ctx, t: Tree): Tree {
    match c
    case Top => t
    case InL(n, r, up) => Plug(up, Br(t, n, r))
    case InR(l, n, up) => Plug(up, Br(l, n, t))
  }

  /** The node just above the hole; p stands above the whole context. */
  ghost function Above(c: Ctx, p: Node?): Node? {
    if c.Top? then p else c.n
  }

  ghost function Spine(c: Ctx): set<Node> {
    match c case Top => {} case InL(n, _, up) => {n} + Spine(up) case InR(_, n, up) => {n} + Spine(up)
  }

  ghost function CNodes(c: Ctx): set<Node> {
    match c
    case Top => {}
    case InL(n, r, up) => {n} + Nodes(r) + CNodes(up)
    case InR(l, n, up) => {n} + Nodes(l) + CNodes(up)
  }

  /** The nodes of the trees that hang off the spine. */
  ghost function Hung(c: Ctx): set<Node> {
    match c case Top => {} case InL(_, r, up) => Nodes(r) + Hung(up) case InR(l, _, up) => Nodes(l) + Hung(up)
  }

  ghost predicate CDistinct(c: Ctx) {
    match c
    case Top => true
    case InL(n, t, up) => Distinct(t) && CDistinct(up) && n !in Nodes(t) && n !in CNodes(up) && Nodes(t) !! CNodes(up)
    case InR(t, n, up) => Distinct(t) && CDistinct(up) && n !in Nodes(t) && n !in CNodes(up) && Nodes(t) !! CNodes(up)
  }

  ghost function Before(c: Ctx): seq<Node> {
    match c
    case Top => []
    case InL(n, r, up) => Before(up)
    case InR(l, n, up) => Before(up) + InOrder(l) + [n]
  }

  ghost function After(c: Ctx): seq<Node> {
    match c
    case Top => []
    case InL(n, r, up) => [n] + InOrder(r) + After(up)
    case InR(l, n, up) => After(up)
  }

  /** The root pointer of the plugged tree when the hole's root is hole. */
  ghost function CRoot(c: Ctx, hole: Node?): Node? {
    match c case Top => hole case InL(n, _, up) => CRoot(up, n) case InR(_, n, up) => CRoot(up, n)
  }

  /** The height and the size of the plugged tree. */
  ghost function CH(c: Ctx, h: int): int {
    match c case Top => h case InL(_, r, up) => CH(up, 1 + Max(h, H(r))) case InR(l, _, up) => CH(up, 1 + Max(H(l), h))
  }

  ghost function CSz(c: Ctx, s: int): int {
    match c case Top => s case InL(_, r, up) => CSz(up, s + 1 + Size(r)) case InR(l, _, up) => CSz(up, Size(l) + 1 + s)
  }

  /** The pointers of the context, when the hole holds the pointer hole. */
  ghost predicate CLinked(c: Ctx, hole: Node?, p: Node?)
    reads CNodes(c)`left, CNodes(c)`right, CNodes(c)`parent, Hung(c)
  {
    match c
    case Top => true
    case InL(n, r, up) =>
      n.left == hole && n.right == Root(r) && n.parent == Above(up, p) && Linked(r, n) && CLinked(up, n, p)
    case InR(l, n, up) =>
      n.left == Root(l) && n.right == hole && n.parent == Above(up, p) && Linked(l, n) && CLinked(up, n, p)
  }

  /** The balances stored along the spine fit a hole of height h. */
  ghost predicate CBal(c: Ctx, h: int)
    reads Spine(c)`balance
  {
    match c
    case Top => true
    case InL(n, r, up) => n.balance == H(r) - h && CBal(up, 1 + Max(h, H(r)))
    case InR(l, n, up) => n.balance == h - H(l) && CBal(up, 1 + Max(H(l), h))
  }

  /** The sizes stored along the spine fit a hole of s nodes. */
  ghost predicate CSize(c: Ctx, s: int)
    reads Spine(c)`branchSize
  {
    match c
    case Top => true
    case InL(n, r, up) => n.branchSize == s + 1 + Size(r) && CSize(up, s + 1 + Size(r))
    case InR(l, n, up) => n.branchSize == Size(l) + 1 + s && CSize(up, Size(l) + 1 + s)
  }

  /** The context is AVL around a hole of height h. */
  ghost predicate CAvl(c: Ctx, h: int) {
    match c
    case Top => true
    case InL(n, r, up) => Avl(r) && Near(h, H(r)) && CAvl(up, 1 + Max(h, H(r)))
    case InR(l, n, up) => Avl(l) && Near(H(l), h) && CAvl(up, 1 + Max(H(l), h))
  }

  ghost function Compose(inner: Ctx, outer: Ctx): Ctx {
    match inner
    case Top => outer
    case InL(n, r, up) => InL(n, r, Compose(up, outer))
    case InR(l, n, up) => InR(l, n, Compose(up, outer))
  }

  // --------------------------------------------------- plugging and splitting

  lemma {:induction false} SpineInNodes(c: Ctx)
    ensures Spine(c) <= CNodes(c) && Hung(c) <= CNodes(c)
    ensures CDistinct(c) ==> Spine(c) !! Hung(c)
    decreases c
  {
    if !c.Top? { SpineInNodes(c.up); }
  }

  /** The content t of a hole, and the context around it, are exact in pointers, balances and sizes. */
  ghost predicate Exact(c: Ctx, t: Tree, p: Node?)
    reads CNodes(c), Nodes(t), Spine(c), Hung(c)
  {
    CLinked(c, Root(t), p) && CBal(c, H(t)) && CSize(c, Size(t)) && Linked(t, Above(c, p))
  }

  lemma {:induction false} ExactStepL(t: Tree, n: Node, r: Tree, up: Ctx, p: Node?)
    ensures Exact(InL(n, r, up), t, p) <==> Exact(up, Br(t, n, r), p)
  {
  }

  lemma {:induction false} ExactStepR(l: Tree, n: Node, t: Tree, up: Ctx, p: Node?)
    ensures Exact(InR(l, n, up), t, p) <==> Exact(up, Br(l, n, t), p)
  {
  }

  /** A tree is exact throughout exactly when the hole's content and the context are. */
  lemma {:induction false} PlugLinked(c: Ctx, t: Tree, p: Node?)
    ensures Linked(Plug(c, t), p) <==> Exact(c, t, p)
    decreases c
  {
    match c
    case Top =>
    case InL(n, r, up) =>
      PlugLinked(up, Br(t, n, r), p);
      ExactStepL(t, n, r, up, p);
    case InR(l, n, up) =>
      PlugLinked(up, Br(l, n, t), p);
      ExactStepR(l, n, t, up, p);
  }

  lemma {:induction false} PlugAvl(c: Ctx, t: Tree)
    ensures Avl(Plug(c, t)) <==> CAvl(c, H(t)) && Avl(t)
    ensures H(Plug(c, t)) == CH(c, H(t)) && Size(Plug(c, t)) == CSz(c, Size(t))
    ensures Root(Plug(c, t)) == CRoot(c, Root(t))
    decreases c
  {
    match c
    case Top =>
    case InL(n, r, up) => PlugAvl(up, Br(t, n, r));
    case InR(l, n, up) => PlugAvl(up, Br(l, n, t));
  }

  lemma {:induction false} PlugNodes(c: Ctx, t: Tree)
    ensures Nodes(Plug(c, t)) == Nodes(t) + CNodes(c)
    ensures Distinct(Plug(c, t)) <==> Distinct(t) && CDistinct(c) && Nodes(t) !! CNodes(c)
    decreases c
  {
    match c
    case Top =>
    case InL(n, r, up) => PlugNodes(up, Br(t, n, r));
    case InR(l, n, up) => PlugNodes(up, Br(l, n, t));
  }

  lemma {:induction false} PlugOrder(c: Ctx, t: Tree)
    ensures InOrder(Plug(c, t)) == Before(c) + InOrder(t) + After(c)
    decreases c
  {
    match c
    case Top =>
    case InL(n, r, up) => PlugOrder(up, Br(t, n, r));
    case InR(l, n, up) => PlugOrder(up, Br(l, n, t));
  }

  lemma {:induction false} ComposeFacts(i: Ctx, o: Ctx, t: Tree)
    ensures Plug(Compose(i, o), t) == Plug(o, Plug(i, t))
    ensures Before(Compose(i, o)) == Before(o) + Before(i)
    ensures After(Compose(i, o)) == After(i) + After(o)
    decreases i
  {
    match i
    case Top =>
    case InL(n, r, up) => ComposeFacts(up, o, Br(t, n, r));
    case InR(l, n, up) => ComposeFacts(up, o, Br(l, n, t));
  }

  lemma {:induction false} ComposeNodes(i: Ctx, o: Ctx)
    ensures CNodes(Compose(i, o)) == CNodes(i) + CNodes(o) && Spine(Compose(i, o)) == Spine(i) + Spine(o)
    ensures CDistinct(Compose(i, o)) <==> CDistinct(i) && CDistinct(o) && CNodes(i) !! CNodes(o)
    decreases i
  {
    match i
    case Top =>
    case InL(n, r, up) => ComposeNodes(up, o);
    case InR(l, n, up) => ComposeNodes(up, o);
  }

  lemma {:induction false} ComposeLinked(i: Ctx, o: Ctx, hole: Node?, p: Node?)
    ensures CLinked(Compose(i, o), hole, p)
       <==> CLinked(i, hole, Above(o, p)) && CLinked(o, CRoot(i, hole), p)
    decreases i
  {
    match i
    case Top =>
    case InL(n, r, up) => ComposeLinked(up, o, n, p);
    case InR(l, n, up) => ComposeLinked(up, o, n, p);
  }

  lemma {:induction false} ComposeBal(i: Ctx, o: Ctx, h: int)
    ensures CBal(Compose(i, o), h) <==> CBal(i, h) && CBal(o, CH(i, h))
    decreases i
  {
    match i
    case Top =>
    case InL(n, r, up) => ComposeBal(up, o, 1 + Max(h, H(r)));
    case InR(l, n, up) => ComposeBal(up, o, 1 + Max(H(l), h));
  }

  lemma {:induction false} ComposeSize(i: Ctx, o: Ctx, s: int)
    ensures CSize(Compose(i, o), s) <==> CSize(i, s) && CSize(o, CSz(i, s))
    decreases i
  {
    match i
    case Top =>
    case InL(n, r, up) => ComposeSize(up, o, s + 1 + Size(r));
    case InR(l, n, up) => ComposeSize(up, o, Size(l) + 1 + s);
  }

  lemma {:induction false} ComposeAvl(i: Ctx, o: Ctx, h: int)
    ensures CAvl(Compose(i, o), h) <==> CAvl(i, h) && CAvl(o, CH(i, h))
    decreases i
  {
    match i
    case Top =>
    case InL(n, r, up) => ComposeAvl(up, o, 1 + Max(h, H(r)));
    case InR(l, n, up) => ComposeAvl(up, o, 1 + Max(H(l), h));
  }

  /** Every node of a tree is the root of the content of some hole. */
  lemma {:induction false} Locate(c: Ctx, t: Tree, n: Node) returns (c': Ctx, t': Tree)
    requires n in Nodes(t)
    ensures Plug(c', t') == Plug(c, t) && t'.Br? && t'.n == n
    decreases t
  {
    if t.n == n {
      c', t' := c, t;
    } else if n in Nodes(t.l) {
      c', t' := Locate(InL(t.n, t.r, c), t.l, n);
    } else {
      c', t' := Locate(InR(t.l, t.n, c), t.r, n);
    }
  }

  lemma {:induction false} InOrderNodes(t: Tree)
    ensures |InOrder(t)| == Size(t)
    ensures forall n :: n in Nodes(t) <==> n in InOrder(t)
    decreases t
  {
    if t.Br? {
      InOrderNodes(t.l);
      InOrderNodes(t.r);
    }
  }

  lemma {:induction false} SizeShift(c: Ctx, s: int, delta: int)
    ensures CSz(c, s + delta) == CSz(c, s) + delta
    decreases c
  {
    match c
    case Top =>
    case InL(n, r, up) => SizeShift(up, s + 1 + Size(r), delta);
    case InR(l, n, up) => SizeShift(up, Size(l) + 1 + s, delta);
  }
}
