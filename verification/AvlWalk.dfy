/** Moving through the tree: leftmost and rightmost node, neighbours, node at a position. */
module AvlWalk {
  import opened AvlShape
  import opened AvlList

  /** What the fields of a node say about the subtree it is the root of. */
  lemma {:induction false} At(list: List, c: Ctx, t: Tree)
    requires list.Valid() && list.tree == Plug(c, t) && t.Br?
    ensures t.n.left == Root(t.l) && t.n.right == Root(t.r) && t.n.parent == Above(c, null)
    ensures t.n.branchSize == Size(t)
    ensures t.l.Br? ==> t.l.n.branchSize == Size(t.l)
    ensures t.r.Br? ==> t.r.n.branchSize == Size(t.r)
  {
    PlugLinked(c, t, null);
    assert Linked(t.l, t.n) && Linked(t.r, t.n);
  }

  /** Descends to the left as far as possible. */
  method Leftmost(list: List, start: Node, ghost c: Ctx, ghost t: Tree)
      returns (node: Node, ghost c': Ctx, ghost t': Tree)
    requires list.Valid() && list.tree == Plug(c, t) && Root(t) == start
    ensures list.tree == Plug(c', t') && Root(t') == node && t'.l == Leaf
    ensures Before(c') == Before(c)
  {
    node, c', t' := start, c, t;
    At(list, c, t);
    while node.left != null
      invariant list.tree == Plug(c', t') && Root(t') == node && node.left == Root(t'.l)
      invariant Before(c') == Before(c)
      decreases t'
    {
      c', t' := InL(node, t'.r, c'), t'.l;
      node := node.left;
      At(list, c', t');
    }
  }

  /** Descends to the right as far as possible. */
  method Rightmost(list: List, start: Node, ghost c: Ctx, ghost t: Tree)
      returns (node: Node, ghost c': Ctx, ghost t': Tree)
    requires list.Valid() && list.tree == Plug(c, t) && Root(t) == start
    ensures list.tree == Plug(c', t') && Root(t') == node && t'.r == Leaf
    ensures After(c') == After(c)
  {
    node, c', t' := start, c, t;
    At(list, c, t);
    while node.right != null
      invariant list.tree == Plug(c', t') && Root(t') == node && node.right == Root(t'.r)
      invariant After(c') == After(c)
      decreases t'
    {
      c', t' := InR(t'.l, node, c'), t'.r;
      node := node.right;
      At(list, c', t');
    }
  }

  /** Where an index of the in-order sequence falls. */
  lemma {:induction false} OrderSplit(t: Tree, p: nat)
    requires p < Size(t)
    ensures |InOrder(t)| == Size(t) && |InOrder(t.l)| == Size(t.l)
    ensures p < Size(t.l) ==> InOrder(t)[p] == InOrder(t.l)[p]
    ensures p == Size(t.l) ==> InOrder(t)[p] == t.n
    ensures p > Size(t.l) ==>
      p - Size(t.l) - 1 < Size(t.r) == |InOrder(t.r)| && InOrder(t)[p] == InOrder(t.r)[p - Size(t.l) - 1]
  {
    InOrderNodes(t.l);
    InOrderNodes(t.r);
  }

  lemma {:induction false} Member(t: Tree, i: nat)
    requires i < Size(t)
    ensures i < |InOrder(t)| && InOrder(t)[i] in Nodes(t)
    decreases t
  {
    OrderSplit(t, i);
    if i < Size(t.l) {
      Member(t.l, i);
    } else if i > Size(t.l) {
      Member(t.r, i - Size(t.l) - 1);
    }
  }

  /** No node occurs twice in the list. */
  lemma {:induction false} OrderDistinct(t: Tree, i: nat, j: nat)
    requires Distinct(t) && i < j < Size(t) == |InOrder(t)|
    ensures InOrder(t)[i] != InOrder(t)[j]
    decreases t
  {
    OrderSplit(t, i);
    OrderSplit(t, j);
    var k := Size(t.l);
    if j < k {
      OrderDistinct(t.l, i, j);
    } else if i > k {
      OrderDistinct(t.r, i - k - 1, j - k - 1);
    } else {
      if i < k { Member(t.l, i); }
      if j > k { Member(t.r, j - k - 1); }
    }
  }

  /** The position of a node is determined. */
  lemma {:induction false} PositionUnique(t: Tree, i: nat, j: nat)
    requires Distinct(t) && i < |InOrder(t)| && j < |InOrder(t)| && InOrder(t)[i] == InOrder(t)[j]
    ensures i == j
  {
    InOrderNodes(t);
    if i < j { OrderDistinct(t, i, j); } else if j < i { OrderDistinct(t, j, i); }
  }

  /** The node at a position, found from the branch sizes. */
  method NodeAt(list: List, position0: nat) returns (node: Node)
    requires list.Valid() && position0 < |list.Order()|
    ensures node == list.Order()[position0]
  {
    hide InOrder;
    InOrderNodes(list.tree);
    node := list.root;
    var position := position0;
    ghost var c, t := Top, list.tree;
    while true
      invariant list.tree == Plug(c, t) && Root(t) == node
      invariant 0 <= position < Size(t) == |InOrder(t)|
      invariant list.Order()[position0] == InOrder(t)[position]
      decreases t
    {
      At(list, c, t);
      OrderSplit(t, position);
      if node.left != null {
        if position < node.left.branchSize {
          c, t := InL(node, t.r, c), t.l;
          node := node.left;
          continue;
        }
        position := position - node.left.branchSize;
      }
      if position == 0 {
        break;
      }
      position := position - 1;
      c, t := InR(t.l, node, c), t.r;
      node := node.right;
    }
  }

  /** The values stored in a tree, in list order. */
  ghost function ValuesOf(t: Tree): seq<Elt>
    reads Nodes(t)`value
  {
    match t case Leaf => [] case Br(l, n, r) => ValuesOf(l) + [n.value] + ValuesOf(r)
  }

  lemma {:induction false} ValuesAt(t: Tree, k: nat)
    requires k < Size(t)
    ensures |ValuesOf(t)| == Size(t) == |InOrder(t)| && ValuesOf(t)[k] == InOrder(t)[k].value
    decreases t
  {
    OrderSplit(t, k);
    ValuesLength(t.l);
    ValuesLength(t.r);
    if k < Size(t.l) {
      ValuesAt(t.l, k);
    } else if k > Size(t.l) {
      ValuesAt(t.r, k - Size(t.l) - 1);
    }
  }

  lemma {:induction false} ValuesLength(t: Tree)
    ensures |ValuesOf(t)| == Size(t) == |InOrder(t)|
    decreases t
  {
    if t.Br? {
      ValuesLength(t.l);
      ValuesLength(t.r);
    }
  }
}
