/** Searching from a start index above 0: what the traversal leaves out, and what it looks at beyond the end. */
module AvlSearchFrom {
  import opened AvlShape
  import opened AvlList
  import opened AvlWalk
  import opened AvlCheck
  import opened AvlSearch

  /** An index relative to what comes before, or 0. */
  function Rel(start: nat, before: nat): nat { if start > before then start - before else 0 }

  /** The number of elements in the subtrees that the walk passes over, because all of them come before start. */
  ghost function Skipped(t: Tree, start: nat): nat {
    if t.Leaf? then 0
    else if Size(t) <= start then Size(t)
    else Skipped(t.l, start) + Skipped(t.r, Rel(start, Size(t.l) + 1))
  }

  /** The elements before the hole that have been passed over. */
  ghost function SkippedBefore(c: Ctx, start: nat): nat {
    match c
    case Top => 0
    case InL(_, _, up) => SkippedBefore(up, start)
    case InR(l, _, up) => SkippedBefore(up, start) + Skipped(l, Rel(start, |Before(up)|))
  }

  /** None of the subtrees on the way to the hole has been passed over. */
  ghost predicate Entered(c: Ctx, t: Tree, start: nat) {
    match c
    case Top => true
    case InL(n, r, up) => Size(Br(t, n, r)) > Rel(start, |Before(up)|) && Entered(up, Br(t, n, r), start)
    case InR(l, n, up) => Size(Br(l, n, t)) > Rel(start, |Before(up)|) && Entered(up, Br(l, n, t), start)
  }

  /** The stack items of right branches hold how far the index is shifted there. */
  ghost predicate Offsets(c: Ctx, s: seq<Item>) {
    c.Top? || (|s| > 0 && (c.InR? ==> s[|s| - 1].rightp == Size(c.l) + 1) && Offsets(c.up, s[..|s| - 1]))
  }

  lemma {:induction false} SkippedNone(t: Tree)
    ensures Skipped(t, 0) == 0
    decreases t
  {
    if t.Br? {
      SkippedNone(t.l);
      SkippedNone(t.r);
    }
  }

  lemma {:induction false} BeforeRight(l: Tree, n: Node, up: Ctx)
    ensures |Before(InR(l, n, up))| == |Before(up)| + Size(l) + 1
  {
    InOrderNodes(l);
  }

  /** Once the walk is at the element before start, it passes over nothing more. */
  lemma {:induction false} NothingLater(c: Ctx, t: Tree, start: nat)
    requires Entered(c, t, start) && |Before(c)| + Size(t) + 1 >= start
    ensures Skipped(Plug(c, t), start) == SkippedBefore(c, start) + Skipped(t, Rel(start, |Before(c)|))
    decreases c
  {
    match c
    case Top =>
    case InL(n, r, up) =>
      SkippedNone(r);
      NothingLater(up, Br(t, n, r), start);
    case InR(l, n, up) =>
      BeforeRight(l, n, up);
      NothingLater(up, Br(l, n, t), start);
  }

  /** The walk is about to enter the subtree t, having looked at index elements. */
  ghost predicate EnteringFrom(list: List, stack: array<Item>, sp: int, node: Node?, s: int, index: int, start: nat,
      c: Ctx,
      t: Tree)
    reads list, list.nodes, stack
  {
    && list.Valid() && FitsMemory(list.tree) && list.tree == Plug(c, t) && Root(t) == node
    && stack.Length == MAXHEIGHT && 0 <= sp <= MAXHEIGHT && StackOk(c, stack[..sp]) && Offsets(c, stack[..sp])
    && Entered(c, t, start) && s == Rel(start, |Before(c)|) && index + SkippedBefore(c, start) == |Before(c)|
  }

  /** The walk has left the subtree t. */
  ghost predicate Leaving(list: List, stack: array<Item>, sp: int, s: int, index: int, start: nat, c: Ctx, t: Tree)
    reads list, list.nodes, stack
  {
    && list.Valid() && FitsMemory(list.tree) && list.tree == Plug(c, t)
    && stack.Length == MAXHEIGHT && 0 <= sp <= MAXHEIGHT && StackOk(c, stack[..sp]) && Offsets(c, stack[..sp])
    && Entered(c, t, start) && s == Max(start - |Before(c)|, Size(t))
    && index + SkippedBefore(c, start) + Skipped(t, Rel(start, |Before(c)|)) == |Before(c)| + Size(t)
  }

  /** The walk stands at node, the element at the index at; its left branch t is done. */
  ghost predicate StandingFrom(list: List, stack: array<Item>, sp: int, node: Node, s: int, index: int, start: nat,
      c: Ctx,
      t: Tree, at: int)
    reads list, list.nodes, stack
  {
    && 0 <= sp < MAXHEIGHT && Leaving(list, stack, sp + 1, s, index, start, c, t) && c.InL? && c.n == node
    && at == |Before(c)| + Size(t)
  }

  /** Passes over the subtree, or pushes its root and enters the left branch. */
  lemma {:induction false} LeaveSkipped(list: List, stack: array<Item>, sp: int, node: Node?, s: int, index: int,
      start: nat,
      c: Ctx, t: Tree)
    requires EnteringFrom(list, stack, sp, node, s, index, start, c, t) && (t.Leaf? || Size(t) <= s)
    ensures Leaving(list, stack, sp, s, index, start, c, t)
    ensures t.Leaf? || |Before(c)| + Size(t) <= start
  {
  }

  method DescendFrom(list: List, stack: array<Item>, sp0: nat, node0: Node?, s: int, ghost index: int, ghost start: nat,
      ghost c0: Ctx, ghost t0: Tree)
    returns (sp: nat, ghost c: Ctx, ghost t: Tree)
    requires EnteringFrom(list, stack, sp0, node0, s, index, start, c0, t0)
    modifies stack
    ensures Leaving(list, stack, sp, s, index, start, c, t)
    ensures |Before(c)| == |Before(c0)| && (t.Leaf? || |Before(c)| + Size(t) <= start)
  {
    var node := node0;
    sp, c, t := sp0, c0, t0;
    while node != null && node.branchSize > s
      invariant EnteringFrom(list, stack, sp, node, s, index, start, c, t) && Before(c) == Before(c0)
      decreases t
    {
      node, sp := Push(list, stack, sp, node, s, index, start, c, t);
      c, t := InL(t.n, t.r, c), t.l;
    }
    if node != null { At(list, c, t); }
    LeaveSkipped(list, stack, sp, node, s, index, start, c, t);
  }

  method Push(list: List, stack: array<Item>, sp0: nat, node0: Node, s: int, ghost index: int, ghost start: nat,
      ghost c: Ctx, ghost t: Tree)
    returns (node: Node?, sp: nat)
    requires EnteringFrom(list, stack, sp0, node0, s, index, start, c, t) && node0.branchSize > s
    modifies stack
    ensures t.Br? && EnteringFrom(list, stack, sp, node, s, index, start, InL(t.n, t.r, c), t.l)
  {
    At(list, c, t);
    StackFits(list, c, t, stack[..sp0]);
    ghost var below := stack[..sp0];
    stack[sp0] := Item(node0, 0);
    assert stack[..sp0 + 1][..sp0] == below;
    node := node0.left;
    sp := sp0 + 1;
  }

  /** The right branch t of a node is done, and with it the subtree of the node. */
  lemma {:induction false} LeaveRight(list: List, stack: array<Item>, sp: nat, s: int, index: int, start: nat, c: Ctx,
      t: Tree)
    requires Leaving(list, stack, sp + 1, s, index, start, c, t) && c.InR?
    ensures stack[sp].rightp == Size(c.l) + 1
    ensures Leaving(list, stack, sp, s + Size(c.l) + 1, index, start, c.up, Br(c.l, c.n, t))
    ensures |Before(c.up)| + Size(Br(c.l, c.n, t)) == |Before(c)| + Size(t)
  {
    assert stack[..sp + 1][..sp] == stack[..sp];
    BeforeRight(c.l, c.n, c.up);
  }

  lemma {:induction false} StackTop(list: List, stack: array<Item>, sp: nat, s: int, index: int, start: nat, c: Ctx,
      t: Tree)
    requires Leaving(list, stack, sp, s, index, start, c, t)
    ensures sp == 0 <==> c.Top?
    ensures sp > 0 ==> stack[sp - 1].node == c.n && (stack[sp - 1].rightp != 0 <==> c.InR?)
  {
  }

  /** Pops finished nodes; stops at a node whose left branch is finished, or when the stack is empty. */
  method ClimbFrom(list: List, stack: array<Item>, sp0: nat, s0: int, ghost index: int, ghost start: nat, ghost c0: Ctx,
      ghost t0: Tree)
    returns (node: Node?, sp: nat, s: int, ghost c: Ctx, ghost t: Tree)
    requires Leaving(list, stack, sp0, s0, index, start, c0, t0)
    ensures |Before(c)| + Size(t) == |Before(c0)| + Size(t0)
    ensures node != null ==> StandingFrom(list, stack, sp, node, s, index, start, c, t, |Before(c)| + Size(t))
    ensures node == null ==> c == Top && t == list.tree && Leaving(list, stack, sp, s, index, start, c, t)
  {
    hide StackOk, Offsets, Entered, Plug, Skipped, SkippedBefore, Before;
    sp, s, c, t := sp0, s0, c0, t0;
    while true
      invariant Leaving(list, stack, sp, s, index, start, c, t)
      invariant |Before(c)| + Size(t) == |Before(c0)| + Size(t0)
      decreases sp
    {
      StackTop(list, stack, sp, s, index, start, c, t);
      if sp == 0 {
        AtTop(list, c, t);
        return null, sp, s, c, t;
      }
      sp := sp - 1;
      if stack[sp].rightp == 0 {
        return stack[sp].node, sp, s, c, t;
      }
      LeaveRight(list, stack, sp, s, index, start, c, t);
      s := s + stack[sp].rightp;
      c, t := c.up, Br(c.l, c.n, t);
    }
  }

  lemma {:induction false} AtTop(list: List, c: Ctx, t: Tree)
    requires list.tree == Plug(c, t) && c.Top?
    ensures t == list.tree
  {
  }

  /** Goes on to the next node that is looked at: elements that are passed over come before start. */
  method AdvanceFrom(list: List, stack: array<Item>, sp0: nat, node0: Node?, s0: int, ghost index: int,
      ghost start: nat, ghost c0: Ctx, ghost t0: Tree)
    returns (node: Node?, sp: nat, s: int, ghost c: Ctx, ghost t: Tree, ghost at: nat)
    requires EnteringFrom(list, stack, sp0, node0, s0, index, start, c0, t0)
    modifies stack
    ensures at == |Before(c0)| || |Before(c0)| <= at <= start
    ensures node != null ==> StandingFrom(list, stack, sp, node, s, index, start, c, t, at)
    ensures node == null ==> at == Size(list.tree)
  {
    sp, c, t := DescendFrom(list, stack, sp0, node0, s0, index, start, c0, t0);
    node, sp, s, c, t := ClimbFrom(list, stack, sp, s0, index, start, c, t);
    at := |Before(c)| + Size(t);
  }

  /** The node at which the walk stands is the one at its index; nothing is passed over any more once
      that has come to start. */
  lemma {:induction false} SeenFrom(list: List, stack: array<Item>, sp: nat, node: Node, s: int, index: int, start: nat,
      c: Ctx, t: Tree, at: nat)
    requires StandingFrom(list, stack, sp, node, s, index, start, c, t, at)
    ensures at < Size(list.tree) == |list.Order()| == |ValuesOf(list.tree)|
    ensures list.Order()[at] == node && node.value == ValuesOf(list.tree)[at]
    ensures s <= Size(t) <==> at >= start
    ensures index <= at && (at + 1 >= start ==> index + Skipped(list.tree, start) == at)
  {
    InOrderNodes(t);
    Visit(list, c, t, at);
    ValuesAt(list.tree, at);
    if at + 1 >= start { NothingLater(c, t, start); }
  }

  /** The left branch of the node at which the walk stands. */
  lemma {:induction false} LeftOf(list: List, stack: array<Item>, sp: nat, node: Node, s: int, index: int, start: nat,
      c: Ctx, t: Tree, at: nat)
    requires StandingFrom(list, stack, sp, node, s, index, start, c, t, at)
    ensures node in list.nodes && node.left == Root(t) && (t.Br? ==> t.n.branchSize == Size(t))
    ensures (if node.left != null then node.left.branchSize else 0) == Size(t)
    ensures node.right == Root(c.r) && node == c.n && stack[sp].node == node
  {
    At(list, c.up, Br(t, c.n, c.r));
    PlugNodes(c, t);
    StackTop(list, stack, sp + 1, s, index, start, c, t);
  }

  /** Goes on into the right branch of the node at which the walk stands. */
  method GoRightFrom(list: List, stack: array<Item>, sp0: nat, node0: Node, s0: int, leftSize: int, ghost s1: int,
      ghost index: int, ghost start: nat, ghost c0: Ctx, ghost t0: Tree, ghost at: nat)
    returns (node: Node?, sp: nat, s: int, ghost c: Ctx, ghost t: Tree)
    requires StandingFrom(list, stack, sp0, node0, s1, index, start, c0, t0, at)
    requires s0 == (if s1 <= Size(t0) then Size(t0) + 1 else s1) && leftSize == Size(t0) + 1
    modifies stack
    ensures EnteringFrom(list, stack, sp, node, s, index + 1, start, c, t) && |Before(c)| == at + 1
  {
    LeftOf(list, stack, sp0, node0, s1, index, start, c0, t0, at);
    BeforeRight(t0, node0, c0.up);
    ghost var below := stack[..sp0];
    assert stack[..sp0 + 1][..sp0] == below;
    stack[sp0] := stack[sp0].(rightp := leftSize);
    assert stack[..sp0 + 1][..sp0] == below;
    c, t := InR(t0, node0, c0.up), c0.r;
    s := s0 - leftSize;
    node := node0.right;
    sp := sp0 + 1;
  }

  /** No value from index j up to k matches. */
  ghost predicate NoneWithin(values: seq<Elt>, eq: Equality, elt: Elt, j: nat, k: nat) {
    forall i :: j <= i < k && i < |values| ==> !eq.Holds(elt, values[i])
  }

  /** Index at is the leftmost match from index j up to k. */
  ghost predicate FirstWithin(values: seq<Elt>, eq: Equality, elt: Elt, j: nat, k: nat, at: nat) {
    j <= at < k && at < |values| && eq.Holds(elt, values[at]) && NoneWithin(values, eq, elt, j, at)
  }

  /** Where the search really stops: elements passed over do not count. */
  ghost function Stop(t: Tree, start: nat, end: nat): nat {
    if end + Skipped(t, start) < Size(t) then end + Skipped(t, start) else Size(t)
  }

  lemma {:induction false} EnterRoot(list: List, stack: array<Item>, start: nat)
    requires list.Valid() && FitsMemory(list.tree) && stack.Length == MAXHEIGHT && start > 0
    ensures EnteringFrom(list, stack, 0, list.root, start, 0, start, Top, list.tree)
  {
    assert stack[..0] == [];
  }

  /** One more value that does not match, or comes before start, and values before start that are passed over. */
  lemma {:induction false} NoneMore(values: seq<Elt>, eq: Equality, elt: Elt, start: nat, at: nat, next: nat)
    requires NoneWithin(values, eq, elt, start, at) && at < |values|
    requires at >= start ==> !eq.Holds(elt, values[at])
    requires next == at + 1 || next <= start
    ensures NoneWithin(values, eq, elt, start, next)
  {
  }

  /** The node looked at is the last one. */
  lemma {:induction false} StopsHere(values: seq<Elt>, eq: Equality, elt: Elt, start: nat, end: nat, at: nat,
      index: nat,
      t: Tree)
    requires NoneWithin(values, eq, elt, start, at) && at < |values| == Size(t) && start <= end
    requires at >= start ==> !eq.Holds(elt, values[at])
    requires index <= at && index + 1 == end && (at + 1 >= start ==> index + Skipped(t, start) == at)
    ensures NoneWithin(values, eq, elt, start, Stop(t, start, end))
  {
  }

  /** Searches the elements from start on, which is not 0; index is what gl_tree_indexof_from_to returns. */
  method SearchFrom(list: List, start: nat, end: nat, eq: Equality, elt: Elt)
    returns (res: Node?, index: int, ghost at: nat)
    requires list.Valid() && FitsMemory(list.tree) && 0 < start <= end <= Size(list.tree)
    ensures res == null ==> NoneWithin(ValuesOf(list.tree), eq, elt, start, Stop(list.tree, start, end)) && index == -1
    ensures res != null ==> FirstWithin(ValuesOf(list.tree), eq, elt, start, Stop(list.tree, start, end), at)
    ensures res != null ==>
      at < |list.Order()| && list.Order()[at] == res && index == at - Skipped(list.tree, start)
  {
    var stack := new Item[MAXHEIGHT];
    res, index, at := SearchFromLoop(list, stack, start, end, eq, elt);
  }

  method SearchFromLoop(list: List, stack: array<Item>, start: nat, end: nat, eq: Equality, elt: Elt)
    returns (res: Node?, index: int, ghost at: nat)
    requires list.Valid() && FitsMemory(list.tree) && 0 < start <= end <= Size(list.tree) && stack.Length == MAXHEIGHT
    modifies stack
    ensures res == null ==> NoneWithin(ValuesOf(list.tree), eq, elt, start, Stop(list.tree, start, end)) && index == -1
    ensures res != null ==> FirstWithin(ValuesOf(list.tree), eq, elt, start, Stop(list.tree, start, end), at)
    ensures res != null ==>
      at < |list.Order()| && list.Order()[at] == res && index == at - Skipped(list.tree, start)
  {
    hide StandingFrom, EnteringFrom, Skipped, ValuesOf, Size, Linked;
    ghost var c, t, values := Top, list.tree, ValuesOf(list.tree);
    EnterRoot(list, stack, start);
    ValuesLength(list.tree);
    var node, sp: nat, s := list.root, 0, start;
    index := 0;
    node, sp, s, c, t, at := AdvanceFrom(list, stack, sp, node, s, index, start, c, t);
    while node != null
      invariant node != null ==> StandingFrom(list, stack, sp, node, s, index, start, c, t, at) && 0 <= index < end
      invariant NoneWithin(values, eq, elt, start, at) && (node == null ==> at == Size(list.tree))
      invariant values == ValuesOf(list.tree)
      decreases Size(list.tree) - at
    {
      SeenFrom(list, stack, sp, node, s, index, start, c, t, at);
      LeftOf(list, stack, sp, node, s, index, start, c, t, at);
      ghost var s1, at1 := s, at;
      var leftSize := (if node.left != null then node.left.branchSize else 0) + 1;
      if s < leftSize {
        if eq.Holds(elt, node.value) { return node, index, at; }
        s := leftSize;
      }
      index := index + 1;
      if index >= end {
        StopsHere(values, eq, elt, start, end, at, index - 1, list.tree);
        return null, -1, at;
      }
      node, sp, s, c, t := GoRightFrom(list, stack, sp, node, s, leftSize, s1, index - 1, start, c, t, at);
      node, sp, s, c, t, at := AdvanceFrom(list, stack, sp, node, s, index, start, c, t);
      NoneMore(values, eq, elt, start, at1, at);
    }
    return null, -1, at;
  }

  ghost predicate FindsWithin(values: seq<Elt>, eq: Equality, elt: Elt, j: nat, k: nat) {
    exists at: nat :: FirstWithin(values, eq, elt, j, k, at)
  }

  lemma {:induction false} FirstExists(values: seq<Elt>, eq: Equality, elt: Elt, j: nat, k: nat)
    ensures FindsWithin(values, eq, elt, j, k) <==> !NoneWithin(values, eq, elt, j, k)
    decreases k
  {
    if k > j && !NoneWithin(values, eq, elt, j, k) {
      FirstExists(values, eq, elt, j, k - 1);
      if NoneWithin(values, eq, elt, j, k - 1) {
        assert FirstWithin(values, eq, elt, j, k, k - 1);
      } else {
        var at: nat :| FirstWithin(values, eq, elt, j, k - 1, at);
        assert FirstWithin(values, eq, elt, j, k, at);
      }
    }
  }

  /** The first node in list order has a right branch. */
  ghost predicate FirstHasRight(t: Tree) {
    t.Br? && if t.l.Leaf? then t.r.Br? else FirstHasRight(t.l)
  }

  /** The walk passes over nothing exactly if start is 0, or 1 with a right branch of the first node. */
  lemma {:induction false} SkippedExactly(t: Tree, start: nat)
    requires Avl(t)
    ensures Skipped(t, start) == 0 <==> t.Leaf? || start == 0 || (start == 1 && FirstHasRight(t))
    decreases t
  {
    if t.Br? && start == 0 {
      SkippedNone(t);
    } else if t.Br? && Size(t) > start {
      SkippedExactly(t.l, start);
      SkippedExactly(t.r, Rel(start, Size(t.l) + 1));
      SkippedNone(t.r);
      assert t.r.Br? ==> Size(t.r) >= 1;
    }
  }

  /** The search stops at the end exactly if nothing is passed over, or the end is that of the list. */
  lemma {:induction false} StopExactly(t: Tree, start: nat, end: nat)
    requires Avl(t) && start <= end <= Size(t)
    ensures Stop(t, start, end) == end <==>
      end == Size(t) || start == 0 || (start == 1 && FirstHasRight(t))
  {
    SkippedExactly(t, start);
  }

  /** How far the searches look: the element at index 0 is looked at even for an empty range. */
  ghost function LooksTo(t: Tree, start: nat, end: nat): nat {
    if end == 0 then 1 else Stop(t, start, end)
  }

  /** The searches find what the range has, and nothing else, for all values, comparisons and elements
      exactly if the range ends with the list, or is not empty and starts at 0, or starts at 1 where the
      first node has a right branch. Otherwise they find an element that is only at the end index. */
  lemma {:induction false} PromiseExactly(t: Tree, start: nat, end: nat)
    requires Avl(t) && start <= end <= Size(t)
    ensures (forall values, eq, elt :: |values| == Size(t) ==>
              (FindsWithin(values, eq, elt, start, LooksTo(t, start, end)) <==>
               FindsWithin(values, eq, elt, start, end)))
       <==> end == Size(t) || (start == 0 && end > 0) || (start == 1 && FirstHasRight(t))
  {
    StopExactly(t, start, end);
    var k := LooksTo(t, start, end);
    if end < Size(t) && k != end {
      var values := seq(Size(t), i => if i == end then 1 else 0);
      FirstExists(values, Pointer, 1, start, k);
      FirstExists(values, Pointer, 1, start, end);
      assert !NoneWithin(values, Pointer, 1, start, k) by { assert Pointer.Holds(1, values[end]); }
      assert NoneWithin(values, Pointer, 1, start, end);
    }
  }

  /** Both searches by traversal. The element is the leftmost match among those that are looked at; its
      index comes out right exactly if nothing is passed over. */
  method SearchFromTo(list: List, start: nat, end: nat, eq: Equality, elt: Elt)
    returns (res: Node?, index: int, ghost at: nat)
    requires list.Valid() && FitsMemory(list.tree) && start <= end <= Size(list.tree)
    ensures var stop := LooksTo(list.tree, start, end);
            && (res == null ==> NoneWithin(ValuesOf(list.tree), eq, elt, start, stop) && index == -1)
            && (res != null ==> FirstWithin(ValuesOf(list.tree), eq, elt, start, stop, at))
    ensures res != null ==> at < |list.Order()| && list.Order()[at] == res
    ensures res != null ==> (index == at <==> start == 0 || (start == 1 && FirstHasRight(list.tree)))
  {
    SkippedExactly(list.tree, start);
    if start == 0 {
      var i;
      res, i := SearchTo(list, end, eq, elt);
      index, at := if res == null then -1 else i, i;
    } else {
      res, index, at := SearchFrom(list, start, end, eq, elt);
    }
  }
}
