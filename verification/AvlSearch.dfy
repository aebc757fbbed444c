/** Searching and freeing with an explicit stack of fixed capacity. */
module AvlSearch {
  import opened AvlShape
  import opened AvlList
  import opened AvlWalk
  import opened AvlCheck

  /** An entry of the traversal stack: a node, and whether the walk is in its right branch. */
  datatype Item = Item(node: Node?, rightp: int)

  /** The stack holds the spine of c, outermost node first. */
  ghost predicate StackOk(c: Ctx, s: seq<Item>) {
    if c.Top? then s == []
    else |s| > 0 && s[|s| - 1].node == c.n && (s[|s| - 1].rightp != 0 <==> c.InR?) && StackOk(c.up, s[..|s| - 1])
  }

  lemma {:induction false} StackDepth(c: Ctx, t: Tree, s: seq<Item>)
    requires StackOk(c, s)
    ensures |s| + H(t) <= H(Plug(c, t))
    decreases c
  {
    match c
    case Top =>
    case InL(n, r, up) => StackDepth(up, Br(t, n, r), s[..|s| - 1]);
    case InR(l, n, up) => StackDepth(up, Br(l, n, t), s[..|s| - 1]);
  }

  /** The stack never overflows on a list that fits into memory. */
  lemma {:induction false} StackFits(list: List, c: Ctx, t: Tree, s: seq<Item>)
    requires list.Valid() && list.tree == Plug(c, t) && FitsMemory(list.tree) && StackOk(c, s)
    ensures |s| <= MAXHEIGHT && (t.Br? ==> |s| < MAXHEIGHT)
  {
    StackDepth(c, t, s);
    HeightBound(list.tree);
  }

  /** Descends on left branches, pushing every node passed. */
  method Descend(list: List, stack: array<Item>, sp0: nat, start: Node?, ghost c: Ctx, ghost t: Tree)
    returns (sp: nat, ghost c': Ctx)
    requires list.Valid() && list.tree == Plug(c, t) && Root(t) == start && FitsMemory(list.tree)
    requires stack.Length == MAXHEIGHT && sp0 <= MAXHEIGHT && StackOk(c, stack[..sp0])
    modifies stack
    ensures list.tree == Plug(c', Leaf) && sp <= MAXHEIGHT && StackOk(c', stack[..sp])
    ensures Before(c') == Before(c)
  {
    var node := start;
    sp, c' := sp0, c;
    ghost var t' := t;
    while node != null
      invariant list.tree == Plug(c', t') && Root(t') == node && list.Valid()
      invariant sp <= MAXHEIGHT && StackOk(c', stack[..sp]) && Before(c') == Before(c)
      decreases t'
    {
      At(list, c', t');
      StackFits(list, c', t', stack[..sp]);
      ghost var below := stack[..sp];
      stack[sp] := Item(node, 0);
      assert stack[..sp + 1][..sp] == below;
      c', t' := InL(node, t'.r, c'), t'.l;
      node := node.left;
      sp := sp + 1;
    }
  }

  /** Pops finished nodes; stops at a node whose left branch is finished, or when the stack is empty. */
  method Climb(list: List, stack: array<Item>, sp0: nat, ghost c: Ctx)
      returns (found: bool, sp: nat, ghost c': Ctx, ghost t': Tree)
    requires list.Valid() && list.tree == Plug(c, Leaf)
    requires stack.Length == MAXHEIGHT && sp0 <= MAXHEIGHT && StackOk(c, stack[..sp0])
    ensures list.tree == Plug(c', t')
    ensures |Before(c')| + |InOrder(t')| == |Before(c)|
    ensures found ==> sp < MAXHEIGHT && c'.InL? && stack[sp].node == c'.n && StackOk(c'.up, stack[..sp])
    ensures !found ==> c' == Top
  {
    sp, c', t' := sp0, c, Leaf;
    found := false;
    while sp > 0
      invariant list.tree == Plug(c', t') && sp <= MAXHEIGHT && StackOk(c', stack[..sp])
      invariant |Before(c')| + |InOrder(t')| == |Before(c)|
      decreases sp
    {
      sp := sp - 1;
      assert stack[..sp + 1][..sp] == stack[..sp];
      if stack[sp].rightp == 0 {
        return true, sp, c', t';
      }
      c', t' := c'.up, Br(c'.l, c'.n, t');
    }
  }

  lemma {:induction false} Visit(list: List, c: Ctx, t: Tree, index: nat)
    requires list.Valid() && list.tree == Plug(c, t) && c.InL? && index == |Before(c)| + |InOrder(t)|
    ensures index < Size(list.tree) == |list.Order()| && list.Order()[index] == c.n
    ensures c.n.right == Root(c.r) && c.n in list.nodes
  {
    PlugOrder(c, t);
    InOrderNodes(list.tree);
    PlugNodes(c, t);
    At(list, c.up, Br(t, c.n, c.r));
  }

  /** The walk is about to enter the subtree t below c, having passed index elements. */
  ghost predicate Entering(list: List, stack: array<Item>, sp: int, node: Node?, index: int, c: Ctx, t: Tree)
    reads list, list.nodes, stack
  {
    && list.Valid() && FitsMemory(list.tree) && list.tree == Plug(c, t) && Root(t) == node
    && stack.Length == MAXHEIGHT && 0 <= sp <= MAXHEIGHT && StackOk(c, stack[..sp]) && index == |Before(c)|
  }

  /** The walk stands at node, the element at the given index; its left branch t is done. */
  ghost predicate Standing(list: List, stack: array<Item>, sp: int, node: Node, index: int, c: Ctx, t: Tree)
    reads list, list.nodes, stack
  {
    && list.Valid() && FitsMemory(list.tree) && list.tree == Plug(c, t) && c.InL? && c.n == node
    && stack.Length == MAXHEIGHT && 0 <= sp < MAXHEIGHT && stack[sp].node == node && StackOk(c.up, stack[..sp])
    && index == |Before(c)| + |InOrder(t)|
  }

  /** Descends and climbs to the node that comes next in list order. */
  method Advance(list: List, stack: array<Item>, sp0: nat, start: Node?, ghost index: nat, ghost c: Ctx, ghost t: Tree)
    returns (node: Node?, sp: nat, ghost c': Ctx, ghost t': Tree)
    requires Entering(list, stack, sp0, start, index, c, t)
    modifies stack
    ensures node != null ==> Standing(list, stack, sp, node, index, c', t')
    ensures node == null ==> index == Size(list.tree)
  {
    var found;
    sp, c' := Descend(list, stack, sp0, start, c, t);
    found, sp, c', t' := Climb(list, stack, sp, c');
    InOrderNodes(list.tree);
    PlugOrder(c', t');
    if found {
      node := stack[sp].node;
    } else {
      node := null;
    }
  }

  lemma {:induction false} Seen(list: List, stack: array<Item>, sp: nat, node: Node, index: nat, c: Ctx, t: Tree)
    requires Standing(list, stack, sp, node, index, c, t)
    ensures index < Size(list.tree) == |list.Order()| == |ValuesOf(list.tree)|
    ensures list.Order()[index] == node && node.value == ValuesOf(list.tree)[index]
  {
    Visit(list, c, t, index);
    ValuesAt(list.tree, index);
  }

  /** Goes on into the right branch of the node at which the walk stands. */
  method GoRight(list: List, stack: array<Item>, sp0: nat, node0: Node, ghost index: nat, ghost c: Ctx, ghost t: Tree)
    returns (node: Node?, sp: nat, ghost c': Ctx, ghost t': Tree)
    requires Standing(list, stack, sp0, node0, index, c, t)
    modifies stack
    ensures Entering(list, stack, sp, node, index + 1, c', t') && c' == InR(t, node0, c.up)
  {
    Visit(list, c, t, index);
    ghost var below := stack[..sp0];
    stack[sp0] := stack[sp0].(rightp := 1);
    assert stack[..sp0 + 1][..sp0] == below;
    c', t' := InR(t, c.n, c.up), c.r;
    node := node0.right;
    sp := sp0 + 1;
  }

  /** From the node at which the walk stands to the next one. */
  method Resume(list: List, stack: array<Item>, sp0: nat, node0: Node, ghost index: nat, ghost c: Ctx, ghost t: Tree)
    returns (node: Node?, sp: nat, ghost c': Ctx, ghost t': Tree)
    requires Standing(list, stack, sp0, node0, index, c, t)
    modifies stack
    ensures node != null ==> Standing(list, stack, sp, node, index + 1, c', t')
    ensures node == null ==> index + 1 == Size(list.tree)
  {
    node, sp, c', t' := GoRight(list, stack, sp0, node0, index, c, t);
    node, sp, c', t' := Advance(list, stack, sp, node, index + 1, c', t');
  }

  /** The comparison of the list: the caller's function, or pointer equality if there is none. */
  datatype Equality = Pointer | Custom(equals: (Elt, Elt) -> bool) {
    predicate Holds(a: Elt, b: Elt) {
      if Pointer? then a == b else equals(a, b)
    }
  }

  /** No value before index k matches. */
  ghost predicate NoneBefore(values: seq<Elt>, eq: Equality, elt: Elt, k: nat) {
    forall j :: 0 <= j < k && j < |values| ==> !eq.Holds(elt, values[j])
  }

  /** Index at is the leftmost match among the first end elements. */
  ghost predicate FirstMatch(values: seq<Elt>, eq: Equality, elt: Elt, end: nat, at: nat) {
    at < |values| && at < end && eq.Holds(elt, values[at]) && NoneBefore(values, eq, elt, at)
  }

  /** Searches the elements from index 0 on, up to end. The element at index 0 is looked at even
      when end is 0. */
  method SearchTo(list: List, end: nat, eq: Equality, elt: Elt) returns (res: Node?, at: nat)
    requires list.Valid() && FitsMemory(list.tree) && end <= Size(list.tree)
    ensures res == null ==> NoneBefore(ValuesOf(list.tree), eq, elt, if end == 0 then 1 else end)
    ensures res != null ==> FirstMatch(ValuesOf(list.tree), eq, elt, if end == 0 then 1 else end, at)
    ensures res != null ==> at < |list.Order()| && list.Order()[at] == res
  {
    var stack := new Item[MAXHEIGHT];
    ghost var values := ValuesOf(list.tree);
    ValuesLength(list.tree);
    res, at := SearchLoop(list, stack, end, eq, elt, values);
  }

  method SearchLoop(list: List, stack: array<Item>, end: nat, eq: Equality, elt: Elt, ghost values: seq<Elt>)
      returns (res: Node?, at: nat)
    requires list.Valid() && FitsMemory(list.tree) && end <= Size(list.tree) && stack.Length == MAXHEIGHT
    requires values == ValuesOf(list.tree) && |values| == Size(list.tree)
    modifies stack
    ensures res == null ==> NoneBefore(values, eq, elt, if end == 0 then 1 else end)
    ensures res != null ==> FirstMatch(values, eq, elt, if end == 0 then 1 else end, at)
    ensures res != null ==> at < |list.Order()| && list.Order()[at] == res
  {
    hide ValuesOf, Distinct, Standing, InOrder;
    assert stack[..0] == [];
    var sp: nat, node: Node?, index: nat := 0, list.root, 0;
    ghost var c, t := Top, list.tree;
    node, sp, c, t := Advance(list, stack, sp, node, index, c, t);
    while node != null
      invariant node != null ==> Standing(list, stack, sp, node, index, c, t)
      invariant node == null ==> index == |values|
      invariant NoneBefore(values, eq, elt, index) && (index > 0 ==> index < end)
      invariant values == ValuesOf(list.tree)
      decreases |values| - index
    {
      Seen(list, stack, sp, node, index, c, t);
      if eq.Holds(elt, node.value) {
        return node, index;
      }
      index := index + 1;
      if index >= end {
        return null, 0;
      }
      node, sp, c, t := Resume(list, stack, sp, node, index - 1, c, t);
    }
    return null, 0;
  }
}
