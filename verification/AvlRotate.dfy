/** The four rotation shapes of rebalance, in place on the nodes. For each shape, the method
    named ...Links makes the assignments of the source; the other proves that the rotated
    subtree is exact again, given the trees that hang below the rotated nodes. */
module AvlRotate {
  import opened AvlShape

  ghost function NodeSet(n: Node?): set<Node> {
    if n == null then {} else {n}
  }

  function SizeOf(n: Node?): int
    reads n
  {
    if n != null then n.branchSize else 0
  }

  lemma {:induction false} RootSize(t: Tree, p: Node?)
    requires Linked(t, p)
    ensures SizeOf(Root(t)) == Size(t)
  {
  }

  lemma {:induction false} Hang(l: Tree, n: Node, r: Tree, p: Node?)
    requires n.left == Root(l) && n.right == Root(r) && n.parent == p
    requires n.balance == H(r) - H(l) && n.branchSize == Size(l) + 1 + Size(r)
    requires Linked(l, n) && Linked(r, n)
    ensures Linked(Br(l, n, r), p)
  {
  }

  /** The node n is not part of t. */
  ghost predicate Off(n: Node?, t: Tree) {
    n == null || n !in Nodes(t)
  }

  lemma {:induction false} Members(a: Tree, x: Node, b: Tree)
    requires Distinct(Br(a, x, b))
    ensures Off(x, a) && Off(x, b) && Off(Root(a), b) && Off(Root(b), a)
    ensures Root(a) != x && Root(b) != x && Distinct(a) && Distinct(b)
    ensures Root(a) != null ==> Root(a) != Root(b)
    ensures forall m :: m in Nodes(Br(a, x, b)) <==> m in Nodes(a) || m == x || m in Nodes(b)
  {
  }

  /** What is off a tree is off its branches. */
  lemma {:induction false} OffBranches(n: Node?, a: Tree, x: Node, b: Tree)
    requires Off(n, Br(a, x, b))
    ensures Off(n, a) && Off(n, b) && n != x && (n != null ==> n != Root(a) && n != Root(b))
  {
  }

  /** The inner nodes of a tree differ from its root. */
  lemma {:induction false} Inner(t: Tree)
    requires Distinct(t)
    ensures t.Br? ==> Off(t.n, t.l) && Off(t.n, t.r)
  {
  }

  lemma {:induction false} InnerOff(n: Node?, t: Tree)
    requires Off(n, t)
    ensures t.Br? ==> Off(n, t.l) && Off(n, t.r)
  {
  }

  /** The hung trees t and u lie apart from each other. */
  lemma {:induction false} DisjointOff(t: Tree, u: Tree)
    requires Nodes(t) !! Nodes(u)
    ensures Off(Root(t), u) && Off(Root(u), t) && (Root(t) != null ==> Root(t) != Root(u))
  {
  }

  method SingleRightLinks(node: Node, nodeleft: Node)
    requires node.left == nodeleft && nodeleft.left != null && node != nodeleft
    requires nodeleft.right !in {node, nodeleft} && node.right !in {node, nodeleft}
        && nodeleft.left !in {node, nodeleft}
    modifies node, nodeleft, NodeSet(nodeleft.right)`parent
    ensures node.left == old(nodeleft.right) && node.right == old(node.right) && node.parent == nodeleft
    ensures nodeleft.left == old(nodeleft.left) && nodeleft.right == node && nodeleft.parent == old(node.parent)
    ensures node.left != null ==> node.left.parent == node
    ensures nodeleft.balance == old(nodeleft.balance) + 1 && node.balance == -nodeleft.balance
    ensures node.branchSize == old(SizeOf(nodeleft.right) + 1 + SizeOf(node.right))
    ensures nodeleft.branchSize == old(SizeOf(nodeleft.left)) + 1 + node.branchSize
    ensures node.value == old(node.value) && nodeleft.value == old(nodeleft.value)
  {
    var outer, inner, noderight := nodeleft.left, nodeleft.right, node.right;
    node.left := inner;
    nodeleft.right := node;
    nodeleft.parent := node.parent;
    node.parent := nodeleft;
    if inner != null { inner.parent := node; }
    nodeleft.balance := nodeleft.balance + 1;
    node.balance := -nodeleft.balance;
    node.branchSize := SizeOf(inner) + 1 + SizeOf(noderight);
    nodeleft.branchSize := outer.branchSize + 1 + node.branchSize;
  }

  method SingleRight(node: Node, nodeleft: Node, ghost a: Tree, ghost b: Tree, ghost c: Tree, ghost S: set<Node>)
    requires Nodes(a) <= S && Nodes(b) <= S && Nodes(c) <= S
    requires Distinct(Br(Br(a, nodeleft, b), node, c))
    requires node.left == nodeleft && node.right == Root(c) && Linked(c, node)
    requires nodeleft.left == Root(a) && nodeleft.right == Root(b) && Linked(a, nodeleft) && Linked(b, nodeleft)
    requires nodeleft.balance == H(b) - H(a)
    requires H(b) <= H(a) <= H(b) + 1 && H(a) == H(c) + 1
    modifies node, nodeleft, NodeSet(Root(b))`parent
    ensures Linked(Br(a, nodeleft, Br(b, node, c)), old(node.parent))
    ensures node.value == old(node.value) && nodeleft.value == old(nodeleft.value)
    ensures nodeleft.balance == old(nodeleft.balance) + 1
  {
    Members(Br(a, nodeleft, b), node, c);
    Members(a, nodeleft, b);
    OffBranches(node, a, nodeleft, b);
    OffBranches(Root(c), a, nodeleft, b);
    DisjointOff(c, Br(a, nodeleft, b));
    Inner(b); InnerOff(node, b); InnerOff(nodeleft, b);
    RootSize(a, nodeleft); RootSize(b, nodeleft); RootSize(c, node);
    SingleRightLinks(node, nodeleft);
    assert Linked(a, nodeleft);
    assert Linked(b, node);
    assert Linked(c, node);
  }

  method SingleLeftLinks(node: Node, noderight: Node)
    requires node.right == noderight && noderight.right != null && node != noderight
    requires noderight.left !in {node, noderight} && node.left !in {node, noderight}
        && noderight.right !in {node, noderight}
    modifies node, noderight, NodeSet(noderight.left)`parent
    ensures node.right == old(noderight.left) && node.left == old(node.left) && node.parent == noderight
    ensures noderight.right == old(noderight.right) && noderight.left == node && noderight.parent == old(node.parent)
    ensures node.right != null ==> node.right.parent == node
    ensures noderight.balance == old(noderight.balance) - 1 && node.balance == -noderight.balance
    ensures node.branchSize == old(SizeOf(noderight.left) + 1 + SizeOf(node.left))
    ensures noderight.branchSize == old(SizeOf(noderight.right)) + 1 + node.branchSize
    ensures node.value == old(node.value) && noderight.value == old(noderight.value)
  {
    var outer, inner, nodeleft := noderight.right, noderight.left, node.left;
    node.right := inner;
    noderight.left := node;
    noderight.parent := node.parent;
    node.parent := noderight;
    if inner != null { inner.parent := node; }
    noderight.balance := noderight.balance - 1;
    node.balance := -noderight.balance;
    node.branchSize := SizeOf(inner) + 1 + SizeOf(nodeleft);
    noderight.branchSize := outer.branchSize + 1 + node.branchSize;
  }

  method SingleLeft(node: Node, noderight: Node, ghost a: Tree, ghost b: Tree, ghost c: Tree, ghost S: set<Node>)
    requires Nodes(a) <= S && Nodes(b) <= S && Nodes(c) <= S
    requires Distinct(Br(a, node, Br(b, noderight, c)))
    requires node.right == noderight && node.left == Root(a) && Linked(a, node)
    requires noderight.right == Root(c) && noderight.left == Root(b) && Linked(c, noderight) && Linked(b, noderight)
    requires noderight.balance == H(c) - H(b)
    requires H(b) <= H(c) <= H(b) + 1 && H(c) == H(a) + 1
    modifies node, noderight, NodeSet(Root(b))`parent
    ensures Linked(Br(Br(a, node, b), noderight, c), old(node.parent))
    ensures node.value == old(node.value) && noderight.value == old(noderight.value)
    ensures noderight.balance == old(noderight.balance) - 1
  {
    Members(a, node, Br(b, noderight, c));
    Members(b, noderight, c);
    OffBranches(node, b, noderight, c);
    OffBranches(Root(a), b, noderight, c);
    DisjointOff(a, Br(b, noderight, c));
    Inner(b); InnerOff(node, b); InnerOff(noderight, b);
    RootSize(a, node); RootSize(b, noderight); RootSize(c, noderight);
    SingleLeftLinks(node, noderight);
    assert Linked(a, node);
    assert Linked(b, node);
    assert Linked(c, noderight);
  }

  lemma {:induction false} RootsOff(a: Tree, x: Node, b: Tree, u: Tree)
    requires Nodes(Br(a, x, b)) !! Nodes(u)
    ensures Off(x, u) && Off(Root(a), u) && Off(Root(b), u)
  {
  }

  /** n is none of the three rotated nodes. */
  ghost predicate Outside(n: Node?, x: Node, m: Node, y: Node) {
    n != x && n != m && n != y
  }

  lemma {:induction false} DoubleApartL(a: Tree, x: Node, b: Tree, m: Node, c: Tree, y: Node, d: Tree)
    requires Distinct(Br(Br(a, x, b), m, Br(c, y, d)))
    ensures Off(x, a) && Off(m, a) && Off(y, a) && Off(Root(b), a) && Off(Root(c), a)
    ensures Off(x, b) && Off(m, b) && Off(y, b) && Off(Root(c), b) && Distinct(b)
    ensures x != m && x != y
  {
    Members(Br(a, x, b), m, Br(c, y, d));
    Members(a, x, b);
    RootsOff(c, y, d, Br(a, x, b));
    OffBranches(m, a, x, b); OffBranches(y, a, x, b); OffBranches(Root(c), a, x, b);
  }

  lemma {:induction false} DoubleApartR(a: Tree, x: Node, b: Tree, m: Node, c: Tree, y: Node, d: Tree)
    requires Distinct(Br(Br(a, x, b), m, Br(c, y, d)))
    ensures Off(x, d) && Off(m, d) && Off(y, d) && Off(Root(b), d) && Off(Root(c), d)
    ensures Off(x, c) && Off(m, c) && Off(y, c) && Off(Root(b), c) && Distinct(c)
    ensures m != y
  {
    Members(Br(a, x, b), m, Br(c, y, d));
    Members(c, y, d);
    RootsOff(a, x, b, Br(c, y, d));
    OffBranches(m, c, y, d); OffBranches(x, c, y, d); OffBranches(Root(b), c, y, d);
  }

  lemma {:induction false} OffRoots(x: Node, m: Node, y: Node, t: Tree)
    requires Off(x, t) && Off(m, t) && Off(y, t)
    ensures Outside(Root(t), x, m, y)
  {
  }

  /** The pointers of a double rotation around node: m, the inner grandchild, comes out on
      top of x and y. */
  method DoubleLinks(node: Node, x: Node, m: Node, y: Node)
    requires node in {x, y} && x != m && x != y && m != y
    requires Outside(m.left, x, m, y) && Outside(m.right, x, m, y) && Outside(x.left, x, m, y)
        && Outside(y.right, x, m, y)
    requires m.left != null ==> m.left != m.right
    modifies x`right, y`left, m`left, m`right, x`parent, m`parent, y`parent, NodeSet(m.left)`parent,
        NodeSet(m.right)`parent
    ensures x.right == old(m.left) && x.parent == m && y.left == old(m.right) && y.parent == m
    ensures m.left == x && m.right == y && m.parent == old(node.parent)
    ensures x.right != null ==> x.right.parent == x
    ensures y.left != null ==> y.left.parent == y
  {
    var L, R := m.left, m.right;
    x.right := L;
    y.left := R;
    m.left := x;
    m.right := y;
    m.parent := node.parent;
    if L != null { L.parent := x; }
    if R != null { R.parent := y; }
    x.parent := m;
    y.parent := m;
  }

  /** The balances and sizes of a double rotation, after its pointers are set. */
  method DoubleMeasures(x: Node, m: Node, y: Node)
    requires x != m && x != y && m != y
    requires Outside(x.left, x, m, y) && Outside(x.right, x, m, y) && Outside(y.left, x, m, y)
        && Outside(y.right, x, m, y)
    modifies x`balance, y`balance, m`balance, x`branchSize, y`branchSize, m`branchSize
    ensures x.balance == old(if m.balance > 0 then -1 else 0)
    ensures y.balance == old(if m.balance < 0 then 1 else 0)
    ensures m.balance == 0
    ensures x.branchSize == old(SizeOf(x.left) + 1 + SizeOf(x.right))
    ensures y.branchSize == old(SizeOf(y.left) + 1 + SizeOf(y.right))
    ensures m.branchSize == x.branchSize + 1 + y.branchSize
  {
    x.balance := if m.balance > 0 then -1 else 0;
    y.balance := if m.balance < 0 then 1 else 0;
    m.balance := 0;
    x.branchSize := SizeOf(x.left) + 1 + SizeOf(x.right);
    y.branchSize := SizeOf(y.left) + 1 + SizeOf(y.right);
    m.branchSize := x.branchSize + 1 + y.branchSize;
  }

  /** After the double rotation the hung trees are exact below their new parents. */
  method DoubleRelink(node: Node, x: Node, m: Node, y: Node, ghost a: Tree, ghost b: Tree, ghost c: Tree, ghost d: Tree,
      ghost S: set<Node>)
    requires Nodes(a) <= S && Nodes(b) <= S && Nodes(c) <= S && Nodes(d) <= S
    requires Distinct(Br(Br(a, x, b), m, Br(c, y, d)))
    requires node in {x, y}
    requires x.left == Root(a) && y.right == Root(d) && m.left == Root(b) && m.right == Root(c)
    requires Linked(a, x) && Linked(b, m) && Linked(c, m) && Linked(d, y)
    modifies x`right, y`left, m`left, m`right, x`parent, m`parent, y`parent
    modifies NodeSet(Root(b))`parent, NodeSet(Root(c))`parent
    ensures Linked(a, x) && Linked(b, x) && Linked(c, y) && Linked(d, y)
    ensures x.right == Root(b) && x.parent == m && y.left == Root(c) && y.parent == m
    ensures m.left == x && m.right == y && m.parent == old(node.parent)
  {
    DoubleApartL(a, x, b, m, c, y, d);
    DoubleApartR(a, x, b, m, c, y, d);
    OffRoots(x, m, y, a); OffRoots(x, m, y, b); OffRoots(x, m, y, c); OffRoots(x, m, y, d);
    Inner(b); InnerOff(x, b); InnerOff(m, b); InnerOff(y, b); InnerOff(Root(c), b);
    Inner(c); InnerOff(x, c); InnerOff(m, c); InnerOff(y, c); InnerOff(Root(b), c);
    DoubleLinks(node, x, m, y);
  }

  /** The fields of a double rotation. */
  method DoubleHung(node: Node, x: Node, m: Node, y: Node, ghost a: Tree, ghost b: Tree, ghost c: Tree, ghost d: Tree,
      ghost S: set<Node>)
    requires Nodes(a) <= S && Nodes(b) <= S && Nodes(c) <= S && Nodes(d) <= S
    requires Distinct(Br(Br(a, x, b), m, Br(c, y, d)))
    requires node in {x, y}
    requires x.left == Root(a) && y.right == Root(d) && m.left == Root(b) && m.right == Root(c)
    requires Linked(a, x) && Linked(b, m) && Linked(c, m) && Linked(d, y)
    modifies x, m, y, NodeSet(Root(b))`parent, NodeSet(Root(c))`parent
    ensures Linked(a, x) && Linked(b, x) && Linked(c, y) && Linked(d, y)
    ensures x.left == Root(a) && x.right == Root(b) && x.parent == m
    ensures y.left == Root(c) && y.right == Root(d) && y.parent == m
    ensures m.left == x && m.right == y && m.parent == old(node.parent)
    ensures x.balance == old(if m.balance > 0 then -1 else 0)
    ensures y.balance == old(if m.balance < 0 then 1 else 0)
    ensures m.balance == 0
    ensures x.branchSize == Size(a) + 1 + Size(b)
    ensures y.branchSize == Size(c) + 1 + Size(d)
    ensures m.branchSize == x.branchSize + 1 + y.branchSize
    ensures x.value == old(x.value) && m.value == old(m.value) && y.value == old(y.value)
  {
    DoubleApartL(a, x, b, m, c, y, d);
    DoubleApartR(a, x, b, m, c, y, d);
    OffRoots(x, m, y, a); OffRoots(x, m, y, b); OffRoots(x, m, y, c); OffRoots(x, m, y, d);
    DoubleRelink(node, x, m, y, a, b, c, d, S);
    RootSize(a, x); RootSize(b, x); RootSize(c, y); RootSize(d, y);
    DoubleMeasures(x, m, y);
  }

  method Double(node: Node, x: Node, m: Node, y: Node, ghost a: Tree, ghost b: Tree, ghost c: Tree, ghost d: Tree,
      ghost S: set<Node>)
    requires Nodes(a) <= S && Nodes(b) <= S && Nodes(c) <= S && Nodes(d) <= S
    requires Distinct(Br(Br(a, x, b), m, Br(c, y, d)))
    requires node in {x, y}
    requires x.left == Root(a) && y.right == Root(d) && m.left == Root(b) && m.right == Root(c)
    requires Linked(a, x) && Linked(b, m) && Linked(c, m) && Linked(d, y)
    requires m.balance == H(c) - H(b) && Near(H(b), H(c))
    requires H(a) == H(d) == Max(H(b), H(c))
    modifies x, m, y, NodeSet(Root(b))`parent, NodeSet(Root(c))`parent
    ensures Linked(Br(Br(a, x, b), m, Br(c, y, d)), old(node.parent))
    ensures x.value == old(x.value) && m.value == old(m.value) && y.value == old(y.value)
  {
    DoubleHung(node, x, m, y, a, b, c, d, S);
    Hang(a, x, b, m);
    Hang(c, y, d, m);
    Hang(Br(a, x, b), m, Br(c, y, d), m.parent);
  }
}
