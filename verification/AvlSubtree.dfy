/** Rotations of a whole subtree, with the height change they report. */
module AvlSubtree {
  import opened AvlShape
  import opened AvlBalance
  import opened AvlRotate

  /** The height before the step of a subtree whose branches now differ by two. */
  ghost function HeightBefore(hd: int, taller: int): int {
    if hd < 0 then taller + 1 else taller
  }

  lemma {:induction false} Parts(a: Tree, x: Node, b: Tree)
    ensures Nodes(a) <= Nodes(Br(a, x, b)) && Nodes(b) <= Nodes(Br(a, x, b)) && x in Nodes(Br(a, x, b))
    ensures NodeSet(Root(a)) <= Nodes(Br(a, x, b)) && NodeSet(Root(b)) <= Nodes(Br(a, x, b))
  {
  }

  method RotateRight(node: Node, nodeleft: Node, hd: int, ghost a: Tree, ghost b: Tree, ghost c: Tree,
      ghost S: set<Node>) returns (newDiff: int)
    requires Nodes(Br(Br(a, nodeleft, b), node, c)) <= S && Distinct(Br(Br(a, nodeleft, b), node, c))
    requires node.left == nodeleft && node.right == Root(c) && Linked(Br(a, nodeleft, b), node) && Linked(c, node)
    requires Avl(Br(a, nodeleft, b)) && Avl(c) && H(Br(a, nodeleft, b)) == H(c) + 2 && H(b) <= H(a)
    modifies Nodes(Br(Br(a, nodeleft, b), node, c))
    ensures Linked(Br(a, nodeleft, Br(b, node, c)), old(node.parent))
    ensures newDiff == H(Br(a, nodeleft, Br(b, node, c))) - HeightBefore(hd, H(Br(a, nodeleft, b)))
    ensures forall n :: n in Nodes(Br(Br(a, nodeleft, b), node, c)) ==> n.value == old(n.value)
  {
    Parts(Br(a, nodeleft, b), node, c);
    Parts(a, nodeleft, b);
    SingleRightAvl(a, nodeleft, b, node, c);
    SingleRight(node, nodeleft, a, b, c, S);
    newDiff := if hd < 0 then nodeleft.balance - 1 else nodeleft.balance;
  }

  method RotateLeft(node: Node, noderight: Node, hd: int, ghost a: Tree, ghost b: Tree, ghost c: Tree,
      ghost S: set<Node>) returns (newDiff: int)
    requires Nodes(Br(a, node, Br(b, noderight, c))) <= S && Distinct(Br(a, node, Br(b, noderight, c)))
    requires node.right == noderight && node.left == Root(a) && Linked(Br(b, noderight, c), node) && Linked(a, node)
    requires Avl(Br(b, noderight, c)) && Avl(a) && H(Br(b, noderight, c)) == H(a) + 2 && H(b) <= H(c)
    modifies Nodes(Br(a, node, Br(b, noderight, c)))
    ensures Linked(Br(Br(a, node, b), noderight, c), old(node.parent))
    ensures newDiff == H(Br(Br(a, node, b), noderight, c)) - HeightBefore(hd, H(Br(b, noderight, c)))
    ensures forall n :: n in Nodes(Br(a, node, Br(b, noderight, c))) ==> n.value == old(n.value)
  {
    Parts(a, node, Br(b, noderight, c));
    Parts(b, noderight, c);
    SingleLeftAvl(a, node, b, noderight, c);
    SingleLeft(node, noderight, a, b, c, S);
    newDiff := if hd < 0 then -noderight.balance - 1 else -noderight.balance;
  }

  method RotateTwice(node: Node, x: Node, m: Node, y: Node, ghost a: Tree, ghost b: Tree, ghost c: Tree, ghost d: Tree,
      ghost S: set<Node>)
    requires Nodes(Br(Br(a, x, b), m, Br(c, y, d))) <= S && Distinct(Br(Br(a, x, b), m, Br(c, y, d)))
    requires node in {x, y}
    requires x.left == Root(a) && y.right == Root(d) && Linked(Br(b, m, c), if node == x then y else x)
    requires Linked(a, x) && Linked(d, y)
    requires Near(H(b), H(c)) && H(a) == H(d) == Max(H(b), H(c))
    modifies Nodes(Br(Br(a, x, b), m, Br(c, y, d)))
    ensures Linked(Br(Br(a, x, b), m, Br(c, y, d)), old(node.parent))
    ensures forall n :: n in Nodes(Br(Br(a, x, b), m, Br(c, y, d))) ==> n.value == old(n.value)
  {
    Parts(Br(a, x, b), m, Br(c, y, d));
    Parts(a, x, b);
    Parts(c, y, d);
    Double(node, x, m, y, a, b, c, d, S);
  }

  /** The balance of node is -2: rotate from left to right. */
  method RotateFromLeft(node: Node, hd: int, ghost l: Tree, ghost r: Tree, ghost S: set<Node>)
      returns (top: Node, newDiff: int)
    requires Nodes(Br(l, node, r)) <= S && Distinct(Br(l, node, r))
    requires node.left == Root(l) && node.right == Root(r) && Linked(l, node) && Linked(r, node)
    requires Avl(l) && Avl(r) && H(l) == H(r) + 2
    modifies Nodes(Br(l, node, r))
    ensures top == Root(Rebuild(l, node, r)) && Linked(Rebuild(l, node, r), old(node.parent))
    ensures newDiff == H(Rebuild(l, node, r)) - HeightBefore(hd, H(l))
    ensures forall n :: n in Nodes(Br(l, node, r)) ==> n.value == old(n.value)
  {
    RebuildKeeps(l, node, r);
    var nodeleft := node.left;
    assert l == Br(l.l, nodeleft, l.r);
    if nodeleft.balance <= 0 {
      newDiff := RotateRight(node, nodeleft, hd, l.l, l.r, r, S);
      top := nodeleft;
    } else {
      var nodeleftright := nodeleft.right;
      ghost var m := l.r;
      assert m == Br(m.l, nodeleftright, m.r);
      DoubleAvl(l.l, nodeleft, m.l, nodeleftright, m.r, node, r);
      RotateTwice(node, nodeleft, nodeleftright, node, l.l, m.l, m.r, r, S);
      top := nodeleftright;
      newDiff := if hd < 0 then -1 else 0;
    }
  }

  /** The balance of node is 2: rotate from right to left. */
  method RotateFromRight(node: Node, hd: int, ghost l: Tree, ghost r: Tree, ghost S: set<Node>)
      returns (top: Node, newDiff: int)
    requires Nodes(Br(l, node, r)) <= S && Distinct(Br(l, node, r))
    requires node.left == Root(l) && node.right == Root(r) && Linked(l, node) && Linked(r, node)
    requires Avl(l) && Avl(r) && H(r) == H(l) + 2
    modifies Nodes(Br(l, node, r))
    ensures top == Root(Rebuild(l, node, r)) && Linked(Rebuild(l, node, r), old(node.parent))
    ensures newDiff == H(Rebuild(l, node, r)) - HeightBefore(hd, H(r))
    ensures forall n :: n in Nodes(Br(l, node, r)) ==> n.value == old(n.value)
  {
    RebuildKeeps(l, node, r);
    var noderight := node.right;
    assert r == Br(r.l, noderight, r.r);
    if noderight.balance >= 0 {
      newDiff := RotateLeft(node, noderight, hd, l, r.l, r.r, S);
      top := noderight;
    } else {
      var noderightleft := noderight.left;
      ghost var m := r.l;
      assert m == Br(m.l, noderightleft, m.r);
      DoubleAvl(l, node, m.l, noderightleft, m.r, noderight, r.r);
      RotateTwice(node, node, noderightleft, noderight, l, m.l, m.r, r.r, S);
      top := noderightleft;
      newDiff := if hd < 0 then -1 else 0;
    }
  }

  /** The branches of node differ in height by two: rotate from the higher side. */
  method RotateSubtree(hd: int, balanceDiff: int, node: Node, ghost l: Tree, ghost r: Tree, ghost S: set<Node>)
      returns (top: Node, newDiff: int)
    requires Nodes(Br(l, node, r)) <= S && Distinct(Br(l, node, r))
    requires node.left == Root(l) && node.right == Root(r) && Linked(l, node) && Linked(r, node)
    requires Avl(l) && Avl(r) && H(r) - H(l) == (if balanceDiff < 0 then -2 else 2)
    modifies Nodes(Br(l, node, r))
    ensures top == Root(Rebuild(l, node, r)) && Linked(Rebuild(l, node, r), old(node.parent))
    ensures newDiff == H(Rebuild(l, node, r)) - HeightBefore(hd, Max(H(l), H(r)))
    ensures forall n :: n in Nodes(Br(l, node, r)) ==> n.value == old(n.value)
  {
    if balanceDiff < 0 {
      top, newDiff := RotateFromLeft(node, hd, l, r, S);
    } else {
      top, newDiff := RotateFromRight(node, hd, l, r, S);
    }
  }
}
