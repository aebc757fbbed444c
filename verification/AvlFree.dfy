/** Removal of an element by value, and freeing the whole list in post-order. */
module AvlFree {
  import opened Sequences
  import opened AvlShape
  import opened AvlList
  import opened AvlWalk
  import opened AvlCheck
  import opened AvlSearch
  import opened AvlInsert
  import opened AvlPromote

  /** Removes the first element equal to elt, if there is one. */
  method RemoveElt(list: List, eq: Equality, elt: Elt) returns (removed: bool, ghost at: nat)
    requires list.Valid() && FitsMemory(list.tree)
    modifies list, list.nodes
    ensures list.Valid()
    ensures !removed ==>
      list.Order() == old(list.Order()) && NoneBefore(old(ValuesOf(list.tree)), eq, elt, |old(list.Order())|)
    ensures removed ==> FirstMatch(old(ValuesOf(list.tree)), eq, elt, |old(list.Order())|, at)
    ensures removed ==> at < |old(list.Order())| && list.Order() == Without(old(list.Order()), at)
    ensures forall n :: n in old(list.nodes) ==> n.value == old(n.value)
  {
    removed, at := false, 0;
    ValuesLength(list.tree);
    if list.root != null {
      var count := Count(list);
      var node;
      node, at := SearchTo(list, count, eq, elt);
      if node != null {
        InOrderNodes(list.tree);
        RemoveNode(list, node);
        removed := true;
      }
    }
  }

  ghost predicate Finds(values: seq<Elt>, eq: Equality, elt: Elt, end: nat) {
    exists at: nat :: FirstMatch(values, eq, elt, end, at)
  }

  /** The element at index 0 is tested even for an empty range: the search keeps its promise for
      the range from 0 up to end exactly when the range is not empty or that element differs. */
  lemma {:induction false} EmptyRange(values: seq<Elt>, eq: Equality, elt: Elt, end: nat)
    requires end <= |values|
    ensures (Finds(values, eq, elt, if end == 0 then 1 else end) <==> Finds(values, eq, elt, end))
       <==> (end > 0 || values == [] || !eq.Holds(elt, values[0]))
  {
    if end == 0 && values != [] && eq.Holds(elt, values[0]) {
      assert FirstMatch(values, eq, elt, 1, 0);
    }
  }

  ghost function PostOrder(t: Tree): seq<Node> {
    match t case Leaf => [] case Br(l, n, r) => PostOrder(l) + PostOrder(r) + [n]
  }

  /** The nodes that the post-order walk has finished when it stands at the hole of c. */
  ghost function Finished(c: Ctx): seq<Node> {
    match c case Top => [] case InL(_, _, up) => Finished(up) case InR(l, _, up) => Finished(up) + PostOrder(l)
  }

  lemma {:induction false} FinishedApart(c: Ctx, t: Tree, n: Node)
    requires Distinct(Plug(c, t)) && n in Nodes(t) + Spine(c)
    ensures n !in Finished(c)
    decreases c
  {
    match c
    case Top =>
    case InL(m, r, up) =>
      PlugNodes(up, Br(t, m, r));
      FinishedApart(up, Br(t, m, r), n);
    case InR(l, m, up) =>
      PlugNodes(up, Br(l, m, t));
      SpineInNodes(up);
      PostOrderNodes(l, n);
      FinishedApart(up, Br(l, m, t), n);
  }

  lemma {:induction false} PostOrderNodes(t: Tree, n: Node)
    ensures n in PostOrder(t) <==> n in Nodes(t)
    decreases t
  {
    if t.Br? {
      PostOrderNodes(t.l, n);
      PostOrderNodes(t.r, n);
    }
  }

  /** Every node is freed once: post-order has no repetitions. */
  lemma {:induction false} PostOrderDistinct(t: Tree, i: nat, j: nat)
    requires Distinct(t) && i < j < |PostOrder(t)|
    ensures PostOrder(t)[i] != PostOrder(t)[j]
    decreases t
  {
    var a, b := PostOrder(t.l), PostOrder(t.r);
    var p := PostOrder(t);
    if j < |a| {
      PostOrderDistinct(t.l, i, j);
    } else if |a| <= i && j < |a| + |b| {
      PostOrderDistinct(t.r, i - |a|, j - |a|);
    } else {
      PostOrderNodes(t.l, p[i]);
      PostOrderNodes(t.r, p[i]);
      PostOrderNodes(t.r, p[j]);
    }
  }

  /** Both children of a node come before it. */
  lemma {:induction false} ChildrenFirst(t: Tree, p: Node?, i: nat)
    requires Linked(t, p) && i < |PostOrder(t)|
    ensures var order := PostOrder(t);
            && (order[i].left != null ==> order[i].left in order[..i])
            && (order[i].right != null ==> order[i].right in order[..i])
    decreases t
  {
    var a, b, order := PostOrder(t.l), PostOrder(t.r), PostOrder(t);
    if i < |a| {
      ChildrenFirst(t.l, t.n, i);
      assert order[..i] == a[..i];
    } else if i < |a| + |b| {
      ChildrenFirst(t.r, t.n, i - |a|);
      assert order[..i] == a + b[..i - |a|];
    } else {
      assert order[..i] == a + b;
      if t.l.Br? { assert a[|a| - 1] == t.n.left; }
      if t.r.Br? { assert b[|b| - 1] == t.n.right; }
    }
  }

  /** Nothing that the walk still touches has been freed. */
  lemma {:induction false} NotFreed(list: List, c: Ctx, t: Tree, n: Node)
    requires list.Valid() && list.tree == Plug(c, t)
    ensures n in Spine(c) ==> n !in Finished(c) + PostOrder(t)
    ensures n in Nodes(t) ==> n !in Finished(c)
  {
    PlugNodes(c, t);
    SpineInNodes(c);
    PostOrderNodes(t, n);
    if n in Nodes(t) + Spine(c) { FinishedApart(c, t, n); }
  }

  /** Descends on left branches, reading no node that has been freed. */
  method DescendFreeing(list: List, stack: array<Item>, sp0: nat, start: Node?, ghost c: Ctx, ghost t: Tree,
      ghost freed: seq<Node>)
    returns (sp: nat, ghost c': Ctx)
    requires Entering(list, stack, sp0, start, |Before(c)|, c, t) && freed == Finished(c)
    modifies stack
    ensures list.tree == Plug(c', Leaf) && sp <= MAXHEIGHT && StackOk(c', stack[..sp])
    ensures freed == Finished(c') && Before(c') == Before(c)
  {
    var node := start;
    sp, c' := sp0, c;
    ghost var t' := t;
    while node != null
      invariant Entering(list, stack, sp, node, |Before(c)|, c', t')
      invariant freed == Finished(c') && Before(c') == Before(c)
      decreases t'
    {
      At(list, c', t');
      StackFits(list, c', t', stack[..sp]);
      NotFreed(list, c', t', node);
      assert node !in freed;
      ghost var below := stack[..sp];
      stack[sp] := Item(node, 0);
      assert stack[..sp + 1][..sp] == below;
      c', t' := InL(node, t'.r, c'), t'.l;
      node := node.left;
      sp := sp + 1;
    }
  }

  /** Pops and frees finished nodes; stops at a node whose right branch is still to do. */
  method ClimbFreeing(list: List, stack: array<Item>, sp0: nat, ghost c: Ctx, freed0: seq<Node>)
    returns (node: Node?, sp: nat, ghost c': Ctx, ghost t': Tree, freed: seq<Node>)
    requires list.Valid() && list.tree == Plug(c, Leaf) && freed0 == Finished(c)
    requires stack.Length == MAXHEIGHT && sp0 <= MAXHEIGHT && StackOk(c, stack[..sp0])
    ensures list.tree == Plug(c', t') && freed == Finished(c') + PostOrder(t')
    ensures node != null ==>
      sp < MAXHEIGHT && c'.InL? && c'.n == node && stack[sp].node == node && StackOk(c'.up, stack[..sp])
    ensures node != null ==> node !in freed
    ensures |Before(c')| + |InOrder(t')| == |Before(c)|
    ensures node == null ==> c' == Top
  {
    sp, c', t', freed := sp0, c, Leaf, freed0;
    while true
      invariant list.tree == Plug(c', t') && sp <= MAXHEIGHT && StackOk(c', stack[..sp])
      invariant freed == Finished(c') + PostOrder(t') && |Before(c')| + |InOrder(t')| == |Before(c)|
      decreases sp
    {
      if sp == 0 {
        return null, sp, c', t', freed;
      }
      sp := sp - 1;
      assert stack[..sp + 1][..sp] == stack[..sp];
      node := stack[sp].node;
      NotFreed(list, c', t', node);
      if stack[sp].rightp == 0 {
        return node, sp, c', t', freed;
      }
      freed := freed + [node];
      c', t' := c'.up, Br(c'.l, c'.n, t');
    }
  }

  /** Goes down and up to the next node whose left branch is done, freeing on the way. */
  method AdvanceFreeing(list: List, stack: array<Item>, sp0: nat, start: Node?, ghost index: nat, ghost c: Ctx,
      ghost t: Tree, freed0: seq<Node>)
    returns (node: Node?, sp: nat, ghost c': Ctx, ghost t': Tree, freed: seq<Node>)
    requires Entering(list, stack, sp0, start, index, c, t) && freed0 == Finished(c)
    modifies stack
    ensures node != null ==> Standing(list, stack, sp, node, index, c', t') && node !in freed && index < Size(list.tree)
    ensures node != null ==> freed == Finished(c') + PostOrder(t')
    ensures node == null ==> freed == PostOrder(list.tree)
  {
    sp, c' := DescendFreeing(list, stack, sp0, start, c, t, freed0);
    node, sp, c', t', freed := ClimbFreeing(list, stack, sp, c', freed0);
    if node != null { Visit(list, c', t', index); }
  }

  method ResumeFreeing(list: List, stack: array<Item>, sp0: nat, node0: Node, ghost index: nat, ghost c: Ctx,
      ghost t: Tree, freed0: seq<Node>)
    returns (node: Node?, sp: nat, ghost c': Ctx, ghost t': Tree, freed: seq<Node>)
    requires Standing(list, stack, sp0, node0, index, c, t) && freed0 == Finished(c) + PostOrder(t)
    modifies stack
    ensures node != null ==>
      Standing(list, stack, sp, node, index + 1, c', t') && node !in freed && index + 1 < Size(list.tree)
    ensures node != null ==> freed == Finished(c') + PostOrder(t')
    ensures node == null ==> freed == PostOrder(list.tree)
  {
    node, sp, c', t' := GoRight(list, stack, sp0, node0, index, c, t);
    node, sp, c', t', freed := AdvanceFreeing(list, stack, sp, node, index + 1, c', t', freed0);
  }

  /** Frees every node of the list once, children before their parent, and uses none after that. */
  method FreeList(list: List) returns (freed: seq<Node>)
    requires list.Valid() && FitsMemory(list.tree)
    ensures freed == PostOrder(list.tree)
  {
    var stack := new Item[MAXHEIGHT];
    assert stack[..0] == [];
    var node: Node?, sp: nat := list.root, 0;
    ghost var c, t, index: nat := Top, list.tree, 0;
    node, sp, c, t, freed := AdvanceFreeing(list, stack, sp, node, index, c, t, []);
    while node != null
      invariant node != null ==>
        Standing(list, stack, sp, node, index, c, t) && node !in freed && index < Size(list.tree)
      invariant node != null ==> freed == Finished(c) + PostOrder(t)
      invariant node == null ==> freed == PostOrder(list.tree)
      decreases Size(list.tree) - index, node != null
    {
      node, sp, c, t, freed := ResumeFreeing(list, stack, sp, node, index, c, t, freed);
      index := index + 1;
    }
  }
}
