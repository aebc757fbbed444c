/** Insertion into the list: first, last, before a node, after a node, at an index. */
module AvlInsert {
  import opened AvlShape
  import opened AvlBalance
  import opened AvlRotate
  import opened AvlList
  import opened AvlWalk

  /** A node that hangs nowhere yet. */
  ghost predicate IsFresh(n: Node)
    reads n
  {
    n.left == null && n.right == null && n.balance == 0 && n.branchSize == 1
  }

  /** The subtree that the innermost frame of c makes with the new leaf. */
  ghost function Grown(c: Ctx, newNode: Node): Tree
    requires !c.Top?
  {
    if c.InL? then Br(Br(Leaf, newNode, Leaf), c.n, c.r) else Br(c.l, c.n, Br(Leaf, newNode, Leaf))
  }

  /** The height the subtree of the innermost frame had around an empty hole. */
  ghost function OldHeight(c: Ctx): int
    requires !c.Top?
  {
    1 + (if c.InL? then H(c.r) else H(c.l))
  }

  /** The new leaf hangs below its parent, whose balance is updated; the sizes expect s nodes there. */
  ghost predicate Attached(list: List, c: Ctx, newNode: Node, s: int)
    reads list, newNode, CNodes(c), Spine(c), Hung(c)
  {
    && !c.Top? && IsFresh(newNode) && newNode.parent == c.n
    && CLinked(c, newNode, null) && CSize(c, s) && CBal(c.up, OldHeight(c))
    && c.n.balance == (if c.InL? then H(c.r) - 1 else 1 - H(c.l))
    && list.root == CRoot(c, newNode)
  }

  /** Hangs newNode into the empty hole of c and updates the balance of its parent. */
  method Attach(list: List, node: Node, onLeft: bool, newNode: Node, ghost c: Ctx, ghost S: set<Node>)
    requires !c.Top? && onLeft == c.InL? && node == c.n && CNodes(c) <= S && CDistinct(c) && newNode !in CNodes(c)
    requires IsFresh(newNode) && list.Around(c, null, 0, 0)
    modifies node`left, node`right, node`balance, newNode`parent
    ensures Attached(list, c, newNode, 0)
  {
    SpineInNodes(c.up);
    if onLeft {
      node.left := newNode;
      node.balance := node.balance - 1;
    } else {
      node.right := newNode;
      node.balance := node.balance + 1;
    }
    newNode.parent := node;
  }

  /** Walks the sizes up from the new leaf's parent. */
  method Resize(list: List, node: Node, newNode: Node, ghost c: Ctx, ghost S: set<Node>)
    requires Attached(list, c, newNode, 0) && node == c.n
    requires CNodes(c) <= S && CDistinct(c) && newNode in S && newNode !in CNodes(c)
    modifies Spine(c)`branchSize
    ensures Attached(list, c, newNode, 1)
  {
    SpineInNodes(c);
    list.LinkedParents(c, newNode);
    list.WalkSizes(node, 1, c, 0, S);
  }

  lemma {:induction false} GrownShape(c: Ctx, newNode: Node, S: set<Node>)
    requires !c.Top? && CNodes(c) <= S && CDistinct(c) && newNode in S && newNode !in CNodes(c)
    requires CAvl(c, 0)
    ensures List.Shape(c.up, Grown(c, newNode), OldHeight(c), S)
    ensures H(Grown(c, newNode)) == OldHeight(c) + (if (if c.InL? then c.r else c.l).Leaf? then 1 else 0)
  {
    var leaf := Br(Leaf, newNode, Leaf);
    assert Nodes(leaf) == {newNode} && H(leaf) == 1;
    if c.InL? {
      assert c.r.Br? ==> H(c.r) == 1;
    } else {
      assert c.l.Br? ==> H(c.l) == 1;
    }
  }

  lemma {:induction false} GrownLinked(list: List, c: Ctx, newNode: Node)
    requires Attached(list, c, newNode, 1)
    ensures Linked(Grown(c, newNode), Above(c.up, null))
    ensures list.Around(c.up, c.n, OldHeight(c), Size(Grown(c, newNode)))
  {
    assert Linked(Leaf, newNode);
    Hang(Leaf, newNode, Leaf, c.n);
  }

  lemma {:induction false} Opened(list: List, c: Ctx)
    requires list.Valid() && list.tree == Plug(c, Leaf)
    ensures CNodes(c) == list.nodes && CDistinct(c) && CAvl(c, 0) && list.Around(c, null, 0, 0)
    ensures Spine(c) <= CNodes(c)
  {
    PlugNodes(c, Leaf);
    PlugAvl(c, Leaf);
    PlugLinked(c, Leaf, null);
    SpineInNodes(c);
  }

  /** The repaired tree holds the old nodes and the new one, in order. */
  lemma {:induction false} GrownNodes(c: Ctx, newNode: Node)
    requires !c.Top? && CDistinct(c) && newNode !in CNodes(c)
    ensures Nodes(Fix(c.up, Grown(c, newNode))) == CNodes(c) + {newNode}
    ensures Distinct(Fix(c.up, Grown(c, newNode)))
  {
    FixSame(c.up, Grown(c, newNode));
    PlugNodes(c, Br(Leaf, newNode, Leaf));
  }

  lemma {:induction false} GrownOrder(c: Ctx, newNode: Node)
    requires !c.Top?
    ensures InOrder(Fix(c.up, Grown(c, newNode))) == Before(c) + [newNode] + After(c)
  {
    FixSame(c.up, Grown(c, newNode));
    PlugOrder(c, Br(Leaf, newNode, Leaf));
    assert InOrder(Br(Leaf, newNode, Leaf)) == [newNode];
  }

  lemma {:induction false} GrownAvl(c: Ctx, newNode: Node)
    requires !c.Top? && CDistinct(c) && newNode !in CNodes(c) && CAvl(c, 0)
    ensures Avl(Fix(c.up, Grown(c, newNode)))
  {
    GrownShape(c, newNode, CNodes(c) + {newNode});
    FixAvl(c.up, Grown(c, newNode), OldHeight(c));
  }

  /** Hangs newNode below node and walks the sizes: only the balances above node are pending. */
  method Place(list: List, node: Node, onLeft: bool, newNode: Node, ghost c: Ctx, ghost S: set<Node>)
    requires list.Valid() && list.tree == Plug(c, Leaf)
    requires !c.Top? && onLeft == c.InL? && node == c.n
    requires IsFresh(newNode) && newNode !in list.nodes && S == list.nodes + {newNode}
    modifies list.nodes, newNode`parent
    ensures list.Pending(c.up, Grown(c, newNode), OldHeight(c), S)
    ensures forall n :: n in S ==> n.value == old(n.value)
    ensures node.left == (if onLeft then newNode else old(node.left))
    ensures node.right == (if onLeft then old(node.right) else newNode)
  {
    hide Distinct, Hung, CDistinct, Size, Plug, CBal;
    Opened(list, c);
    Attach(list, node, onLeft, newNode, c, S);
    Resize(list, node, newNode, c, S);
    GrownShape(c, newNode, S);
    GrownLinked(list, c, newNode);
  }

  /** Rebalances above node if its subtree has grown. */
  method Restore(list: List, node: Node, heightInc: bool, ghost c: Ctx, ghost t: Tree, ghost h: int, ghost S: set<Node>)
    requires list.Pending(c, t, h, S) && Root(t) == node
    requires H(t) == h + (if heightInc then 1 else 0)
    modifies list`root, S
    ensures list.root == Root(Fix(c, t)) && Linked(Fix(c, t), null)
    ensures forall n :: n in S ==> n.value == old(n.value)
  {
    if heightInc && node.parent != null {
      list.Rebalance(node, 1, node.parent, c, t, h, S);
    } else {
      list.Finished(c, t, h, S);
    }
  }

  /** Makes t the list's tree. */
  ghost method Commit(list: List, t: Tree, S: set<Node>)
    requires list.root == Root(t) && Linked(t, null) && Avl(t) && Distinct(t) && Nodes(t) == S
    modifies list`tree, list`nodes
    ensures list.Valid() && list.tree == t && list.nodes == S
  {
    list.tree := t;
    list.nodes := S;
  }

  /** Inserts newNode in the empty hole of c below node: the tree becomes the one Fix computes. */
  method InsertAt(list: List, node: Node, onLeft: bool, newNode: Node, ghost c: Ctx)
    requires list.Valid() && list.tree == Plug(c, Leaf)
    requires !c.Top? && onLeft == c.InL? && node == c.n
    requires IsFresh(newNode) && newNode !in list.nodes
    modifies list, list.nodes, newNode
    ensures list.Valid() && list.nodes == old(list.nodes) + {newNode}
    ensures list.Order() == Before(c) + [newNode] + After(c)
    ensures forall n :: n in list.nodes ==> n.value == old(n.value)
  {
    ghost var S, t := list.nodes + {newNode}, Grown(c, newNode);
    Opened(list, c);
    GrownNodes(c, newNode);
    GrownOrder(c, newNode);
    GrownAvl(c, newNode);
    GrownShape(c, newNode, S);
    Place(list, node, onLeft, newNode, c, S);
    var heightInc := if onLeft then node.right == null else node.left == null;
    Restore(list, node, heightInc, c.up, t, OldHeight(c), S);
    Commit(list, Fix(c.up, t), S);
  }

  /** A new node for elt, if memory for it is granted. */
  method NewNode(elt: Elt, granted: bool) returns (n: Node?)
    ensures n != null <==> granted
    ensures n != null ==> fresh(n) && IsFresh(n) && n.parent == null && n.value == elt
  {
    n := null;
    if granted {
      n := new Node(elt);
    }
  }

  method AddFirst(list: List, elt: Elt, granted: bool) returns (newNode: Node?)
    requires list.Valid()
    modifies list, list.nodes
    ensures list.Valid() && fresh(list.nodes - old(list.nodes))
    ensures newNode != null <==> granted
    ensures newNode == null ==> list.Order() == old(list.Order())
    ensures newNode != null ==> fresh(newNode) && newNode.value == elt && list.Order() == [newNode] + old(list.Order())
    ensures forall n :: n in old(list.nodes) ==> n.value == old(n.value)
  {
    newNode := NewNode(elt, granted);
    if newNode == null { return; }
    if list.root == null {
      FirstNode(list, newNode);
    } else {
      ghost var c, t;
      var node;
      node, c, t := Leftmost(list, list.root, Top, list.tree);
      ghost var cc := InL(node, t.r, c);
      PlugOrder(cc, Leaf);
      InsertAt(list, node, true, newNode, cc);
    }
  }

  /** The list was empty: the new node becomes the root. */
  method FirstNode(list: List, newNode: Node)
    requires list.Valid() && list.root == null && IsFresh(newNode)
    modifies list, newNode`parent
    ensures list.Valid() && list.Order() == [newNode] && list.nodes == {newNode}
  {
    list.root := newNode;
    newNode.parent := null;
    list.tree := Br(Leaf, newNode, Leaf);
    list.nodes := {newNode};
    Hang(Leaf, newNode, Leaf, null);
    assert InOrder(list.tree) == [newNode];
  }

  /** x inserted at index k of s. */
  function Inserted<T>(s: seq<T>, k: nat, x: T): seq<T>
    requires k <= |s|
  {
    s[..k] + [x] + s[k..]
  }

  method AddLast(list: List, elt: Elt, granted: bool) returns (newNode: Node?)
    requires list.Valid()
    modifies list, list.nodes
    ensures list.Valid() && fresh(list.nodes - old(list.nodes))
    ensures newNode != null <==> granted
    ensures newNode == null ==> list.Order() == old(list.Order())
    ensures newNode != null ==> fresh(newNode) && newNode.value == elt && list.Order() == old(list.Order()) + [newNode]
    ensures forall n :: n in old(list.nodes) ==> n.value == old(n.value)
  {
    newNode := NewNode(elt, granted);
    if newNode == null { return; }
    if list.root == null {
      FirstNode(list, newNode);
    } else {
      ghost var c, t;
      var node;
      node, c, t := Rightmost(list, list.root, Top, list.tree);
      ghost var cc := InR(t.l, node, c);
      PlugOrder(cc, Leaf);
      InsertAt(list, node, false, newNode, cc);
    }
  }

  /** The hole just before node: in its empty left branch, or after its predecessor. */
  method HoleBefore(list: List, node: Node) returns (parent: Node, onLeft: bool, ghost c: Ctx)
    requires list.Valid() && node in list.nodes
    ensures list.tree == Plug(c, Leaf) && !c.Top? && c.n == parent && onLeft == c.InL?
    ensures |After(c)| > 0 && After(c)[0] == node
  {
    ghost var c0, t := Locate(Top, list.tree, node);
    At(list, c0, t);
    c := InL(node, t.r, c0);
    if node.left == null {
      parent, onLeft := node, true;
    } else {
      ghost var t';
      parent, c, t' := Rightmost(list, node.left, c, t.l);
      c, onLeft := InR(t'.l, parent, c), false;
    }
  }

  /** The hole just after node: in its empty right branch, or before its successor. */
  method HoleAfter(list: List, node: Node) returns (parent: Node, onLeft: bool, ghost c: Ctx)
    requires list.Valid() && node in list.nodes
    ensures list.tree == Plug(c, Leaf) && !c.Top? && c.n == parent && onLeft == c.InL?
    ensures |Before(c)| > 0 && Before(c)[|Before(c)| - 1] == node
  {
    ghost var c0, t := Locate(Top, list.tree, node);
    At(list, c0, t);
    c := InR(t.l, node, c0);
    if node.right == null {
      parent, onLeft := node, false;
    } else {
      ghost var t';
      parent, c, t' := Leftmost(list, node.right, c, t.r);
      c, onLeft := InL(parent, t'.r, c), true;
    }
  }

  /** The new node comes to stand just before node. */
  method AddBefore(list: List, node: Node, elt: Elt, granted: bool) returns (newNode: Node?)
    requires list.Valid() && node in list.nodes
    modifies list, list.nodes
    ensures list.Valid() && fresh(list.nodes - old(list.nodes))
    ensures newNode != null <==> granted
    ensures newNode == null ==> list.Order() == old(list.Order())
    ensures newNode != null ==> fresh(newNode) && newNode.value == elt
    ensures newNode != null ==> forall k :: 0 <= k < |old(list.Order())| && old(list.Order())[k] == node ==>
      list.Order() == Inserted(old(list.Order()), k, newNode)
    ensures forall n :: n in old(list.nodes) ==> n.value == old(n.value)
  {
    newNode := NewNode(elt, granted);
    if newNode == null { return; }
    var parent, onLeft; ghost var c;
    parent, onLeft, c := HoleBefore(list, node);
    PlugOrder(c, Leaf);
    HoleIndex(list.tree, Before(c), After(c), |Before(c)|);
    InsertAt(list, parent, onLeft, newNode, c);
  }

  /** The new node comes to stand just after node. */
  method AddAfter(list: List, node: Node, elt: Elt, granted: bool) returns (newNode: Node?)
    requires list.Valid() && node in list.nodes
    modifies list, list.nodes
    ensures list.Valid() && fresh(list.nodes - old(list.nodes))
    ensures newNode != null <==> granted
    ensures newNode == null ==> list.Order() == old(list.Order())
    ensures newNode != null ==> fresh(newNode) && newNode.value == elt
    ensures newNode != null ==> forall k :: 0 <= k < |old(list.Order())| && old(list.Order())[k] == node ==>
      list.Order() == Inserted(old(list.Order()), k + 1, newNode)
    ensures forall n :: n in old(list.nodes) ==> n.value == old(n.value)
  {
    newNode := NewNode(elt, granted);
    if newNode == null { return; }
    var parent, onLeft; ghost var c;
    parent, onLeft, c := HoleAfter(list, node);
    PlugOrder(c, Leaf);
    HoleIndex(list.tree, Before(c), After(c), |Before(c)| - 1);
    InsertAt(list, parent, onLeft, newNode, c);
  }

  /** The node at index i of the order occurs nowhere else in it. */
  lemma {:induction false} HoleIndex(t: Tree, before: seq<Node>, after: seq<Node>, i: nat)
    requires Distinct(t) && InOrder(t) == before + after && i < |before| + |after|
    ensures forall k :: 0 <= k < |InOrder(t)| && InOrder(t)[k] == InOrder(t)[i] ==> k == i
  {
    forall k | 0 <= k < |InOrder(t)| && InOrder(t)[k] == InOrder(t)[i] ensures k == i {
      PositionUnique(t, k, i);
    }
  }

  /** Inserts elt at a position up to the length of the list. */
  method AddAt(list: List, position: nat, elt: Elt, granted: bool) returns (newNode: Node?)
    requires list.Valid() && position <= |list.Order()|
    modifies list, list.nodes
    ensures list.Valid() && fresh(list.nodes - old(list.nodes))
    ensures newNode != null <==> granted
    ensures newNode == null ==> list.Order() == old(list.Order())
    ensures newNode != null ==> fresh(newNode) && newNode.value == elt
    ensures newNode != null ==> list.Order() == Inserted(old(list.Order()), position, newNode)
    ensures forall n :: n in old(list.nodes) ==> n.value == old(n.value)
  {
    var count := Count(list);
    if position == count {
      newNode := AddLast(list, elt, granted);
    } else {
      var node := NodeAt(list, position);
      InOrderNodes(list.tree);
      newNode := AddBefore(list, node, elt, granted);
    }
  }

  /** The number of elements, read from the root. */
  method Count(list: List) returns (count: int)
    requires list.Valid()
    ensures count == |list.Order()|
  {
    InOrderNodes(list.tree);
    if list.root != null {
      At(list, Top, list.tree);
      count := list.root.branchSize;
    } else {
      count := 0;
    }
  }
}
