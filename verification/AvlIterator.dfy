/** In-order neighbours and iterators over the list. */
module AvlIterator {
  import opened AvlShape
  import opened AvlList
  import opened AvlWalk

  /** Where the node of the subtree t below c stands in the list. */
  lemma {:induction false} PositionOf(list: List, c: Ctx, t: Tree, k: nat)
    requires list.Valid() && list.tree == Plug(c, t) && t.Br?
    requires k < |list.Order()| && list.Order()[k] == t.n
    ensures k == |Before(c)| + |InOrder(t.l)|
    ensures list.Order() == Before(c) + InOrder(t.l) + [t.n] + InOrder(t.r) + After(c)
  {
    PlugOrder(c, t);
    var i := |Before(c)| + |InOrder(t.l)|;
    assert list.Order()[i] == t.n;
    PositionUnique(list.tree, k, i);
  }

  /** The element at an index, or null past the end. */
  ghost function AtOrNull(s: seq<Node>, k: nat): Node? {
    if k < |s| then s[k] else null
  }

  /** Climbs while node is a right child; ends at a left child or at the root. */
  method ClimbRight(list: List, start: Node, ghost c: Ctx, ghost t: Tree)
      returns (node: Node, ghost c': Ctx, ghost t': Tree)
    requires list.Valid() && list.tree == Plug(c, t) && Root(t) == start && t.r == Leaf
    ensures list.tree == Plug(c', t') && Root(t') == node && !c'.InR?
    ensures |Before(c')| + |InOrder(t')| == |Before(c)| + |InOrder(t)|
  {
    node, c', t' := start, c, t;
    At(list, c, t);
    while node.parent != null && node.parent.right == node
      invariant list.tree == Plug(c', t') && Root(t') == node && node.parent == Above(c', null)
      invariant |Before(c')| + |InOrder(t')| == |Before(c)| + |InOrder(t)|
      decreases c'
    {
      ParentSide(list, c', t');
      c', t' := c'.up, Br(c'.l, c'.n, t');
      node := node.parent;
      At(list, c', t');
    }
    if node.parent != null { ParentSide(list, c', t'); }
  }

  /** A node is the right child of its parent exactly when its frame says so. */
  lemma {:induction false} ParentSide(list: List, c: Ctx, t: Tree)
    requires list.Valid() && list.tree == Plug(c, t) && t.Br? && !c.Top?
    ensures c.InR? <==> c.n.right == t.n
    ensures c.InL? <==> c.n.left == t.n
  {
    PlugNodes(c, t);
    if c.InL? {
      At(list, c.up, Br(t, c.n, c.r));
    } else {
      At(list, c.up, Br(c.l, c.n, t));
    }
  }

  /** The node after node in the list, or null. */
  method NextNode(list: List, node0: Node) returns (next: Node?)
    requires list.Valid() && node0 in list.nodes
    ensures forall k :: 0 <= k < |list.Order()| && list.Order()[k] == node0 ==> next == AtOrNull(list.Order(), k + 1)
  {
    ghost var c, t := Locate(Top, list.tree, node0);
    At(list, c, t);
    forall k | 0 <= k < |list.Order()| && list.Order()[k] == node0
      ensures k == |Before(c)| + |InOrder(t.l)|
      ensures list.Order() == Before(c) + InOrder(t.l) + [t.n] + InOrder(t.r) + After(c)
    {
      PositionOf(list, c, t, k);
    }
    var node := node0;
    if node.right != null {
      node, c, t := Leftmost(list, node.right, InR(t.l, node, c), t.r);
      PlugOrder(c, t);
      next := node;
    } else {
      node, c, t := ClimbRight(list, node, c, t);
      At(list, c, t);
      PlugOrder(c, t);
      next := node.parent;
    }
  }

  /** Climbs while node is a left child; ends at a right child or at the root. */
  method ClimbLeft(list: List, start: Node, ghost c: Ctx, ghost t: Tree)
      returns (node: Node, ghost c': Ctx, ghost t': Tree)
    requires list.Valid() && list.tree == Plug(c, t) && Root(t) == start && t.l == Leaf
    ensures list.tree == Plug(c', t') && Root(t') == node && !c'.InL?
    ensures |Before(c')| == |Before(c)|
  {
    node, c', t' := start, c, t;
    At(list, c, t);
    while node.parent != null && node.parent.left == node
      invariant list.tree == Plug(c', t') && Root(t') == node && node.parent == Above(c', null)
      invariant |Before(c')| == |Before(c)|
      decreases c'
    {
      ParentSide(list, c', t');
      c', t' := c'.up, Br(t', c'.n, c'.r);
      node := node.parent;
      At(list, c', t');
    }
    if node.parent != null { ParentSide(list, c', t'); }
  }

  /** The node before node in the list, or null. */
  method PreviousNode(list: List, node0: Node) returns (previous: Node?)
    requires list.Valid() && node0 in list.nodes
    ensures forall k :: 0 <= k < |list.Order()| && list.Order()[k] == node0 ==>
      previous == (if k == 0 then null else list.Order()[k - 1])
  {
    ghost var c, t := Locate(Top, list.tree, node0);
    At(list, c, t);
    forall k | 0 <= k < |list.Order()| && list.Order()[k] == node0
      ensures k == |Before(c)| + |InOrder(t.l)|
      ensures list.Order() == Before(c) + InOrder(t.l) + [t.n] + InOrder(t.r) + After(c)
    {
      PositionOf(list, c, t, k);
    }
    var node := node0;
    if node.left != null {
      node, c, t := Rightmost(list, node.left, InL(node, t.r, c), t.l);
      PlugOrder(c, t);
      previous := node;
    } else {
      node, c, t := ClimbLeft(list, node, c, t);
      At(list, c, t);
      PlugOrder(c, t);
      previous := node.parent;
    }
  }

  /** An iterator: p is the next node to yield, q the node to stop at; null is past the end. */
  class Iterator {
    var p: Node?
    var q: Node?

    constructor (p: Node?, q: Node?)
      ensures this.p == p && this.q == q
    {
      this.p, this.q := p, q;
    }

    /** The iterator is about to yield index i and stops at index j. */
    ghost predicate On(list: List, i: nat, j: nat)
      reads this, list
    {
      i <= j <= |list.Order()| && p == AtOrNull(list.Order(), i) && q == AtOrNull(list.Order(), j)
    }

    /** Yields one element, unless the end is reached. */
    method Next(list: List, ghost i: nat, ghost j: nat) returns (more: bool, elt: Elt, node: Node?)
      requires list.Valid() && On(list, i, j)
      modifies this
      ensures more == (i < j)
      ensures more ==> node == list.Order()[i] && elt == node.value && On(list, i + 1, j)
      ensures !more ==> On(list, i, j)
      ensures q == old(q)
    {
      Ends(list, i, j);
      if p != q {
        InOrderNodes(list.tree);
        node := p;
        elt := node.value;
        more := true;
        var next := NextNode(list, node);
        p := next;
      } else {
        more, elt, node := false, 0, null;
      }
    }

    lemma {:induction false} Ends(list: List, i: nat, j: nat)
      requires list.Valid() && On(list, i, j)
      ensures p == q <==> i == j
      ensures p != q ==> p != null && p in list.Order()
    {
      InOrderNodes(list.tree);
      if i < j < |list.Order()| { OrderDistinct(list.tree, i, j); }
    }
  }

  /** An iterator over the whole list. */
  method NewIterator(list: List) returns (it: Iterator)
    requires list.Valid()
    ensures fresh(it) && it.On(list, 0, |list.Order()|)
  {
    var node: Node? := list.root;
    ghost var c, t := Top, list.tree;
    if node != null {
      node, c, t := Leftmost(list, node, Top, list.tree);
      PlugOrder(c, t);
    }
    it := new Iterator(node, null);
  }

  /** An iterator over the indices from start up to end. */
  method NewIteratorFromTo(list: List, start: nat, end: nat) returns (it: Iterator)
    requires list.Valid() && start <= end <= |list.Order()|
    ensures fresh(it) && it.On(list, start, end)
  {
    InOrderNodes(list.tree);
    var count := if list.root != null then list.root.branchSize else 0;
    if list.root != null { At(list, Top, list.tree); }
    var p: Node?, q: Node? := null, null;
    if start < count { p := NodeAt(list, start); }
    if end < count { q := NodeAt(list, end); }
    it := new Iterator(p, q);
  }

  /** Draining an iterator over start..end yields exactly that slice of the list, in order. */
  method Drain(list: List, start: nat, end: nat) returns (out: seq<Node>)
    requires list.Valid() && start <= end <= |list.Order()|
    ensures out == list.Order()[start..end]
  {
    var it := NewIteratorFromTo(list, start, end);
    out := [];
    ghost var i := start;
    while true
      invariant start <= i <= end && it.On(list, i, end) && fresh(it)
      invariant list.Valid() && list.Order() == old(list.Order())
      invariant out == list.Order()[start..i]
      decreases end - i
    {
      var more, elt, node := it.Next(list, i, end);
      if !more { break; }
      out := out + [node];
      i := i + 1;
    }
  }
}
