/** The sorted-list operations: search, windowed search, index, insertion and removal. */
module AvlSorted {
  import opened Sequences
  import opened AvlShape
  import opened AvlList
  import opened AvlWalk
  import opened AvlInsert
  import opened AvlPromote

  type Compare = (Elt, Elt) -> int

  /** The comparison is a total preorder, given by signs. */
  ghost predicate Preorder(cmp: Compare) {
    && (forall x, y :: cmp(x, y) < 0 <==> cmp(y, x) > 0)
    && (forall x, y, z :: cmp(x, y) <= 0 && cmp(y, z) <= 0 ==> cmp(x, z) <= 0)
  }

  ghost predicate Sorted(values: seq<Elt>, cmp: Compare) {
    forall i, j :: 0 <= i < j < |values| ==> cmp(values[i], values[j]) <= 0
  }

  /** Along the list the comparison with elt goes from negative over zero to positive. */
  ghost predicate Rising(values: seq<Elt>, cmp: Compare, elt: Elt) {
    forall i, j :: 0 <= i < j < |values| ==>
      (cmp(values[i], elt) >= 0 ==> cmp(values[j], elt) >= 0) && (cmp(values[i], elt) > 0 ==> cmp(values[j], elt) > 0)
  }

  lemma {:induction false} SortedRises(values: seq<Elt>, cmp: Compare, elt: Elt)
    requires Preorder(cmp) && Sorted(values, cmp)
    ensures Rising(values, cmp, elt)
  {
    forall i, j | 0 <= i < j < |values|
      ensures cmp(values[i], elt) >= 0 ==> cmp(values[j], elt) >= 0
      ensures cmp(values[i], elt) > 0 ==> cmp(values[j], elt) > 0
    {
      RisesAt(cmp, values[i], values[j], elt);
    }
  }

  lemma {:induction false} RisesAt(cmp: Compare, x: Elt, y: Elt, elt: Elt)
    requires Preorder(cmp) && cmp(x, y) <= 0
    ensures cmp(x, elt) >= 0 ==> cmp(y, elt) >= 0
    ensures cmp(x, elt) > 0 ==> cmp(y, elt) > 0
  {
    if cmp(y, elt) <= 0 {
      assert cmp(x, elt) <= 0;
    }
  }

  /** Index at is the leftmost element equal to elt within the window. */
  ghost predicate FirstEqual(values: seq<Elt>, cmp: Compare, elt: Elt, low: int, high: int, at: int) {
    && low <= at < high && 0 <= at < |values| && cmp(values[at], elt) == 0
    && forall j :: low <= j < at && 0 <= j ==> cmp(values[j], elt) < 0
  }

  ghost predicate NoEqual(values: seq<Elt>, cmp: Compare, elt: Elt, low: int, high: int) {
    forall j :: low <= j < high && 0 <= j < |values| ==> cmp(values[j], elt) != 0
  }

  /** Elements of the window left of index b are smaller than elt. */
  ghost predicate LeftSmaller(values: seq<Elt>, cmp: Compare, elt: Elt, low: int, b: int) {
    forall j :: low <= j < b && 0 <= j < |values| ==> cmp(values[j], elt) < 0
  }

  /** Elements of the window from index e on are greater than elt. */
  ghost predicate RightGreater(values: seq<Elt>, cmp: Compare, elt: Elt, high: int, e: int) {
    forall j :: e <= j < high && 0 <= j < |values| ==> cmp(values[j], elt) > 0
  }

  lemma {:induction false} StepRight(values: seq<Elt>, cmp: Compare, elt: Elt, low: int, i: int)
    requires Rising(values, cmp, elt) && 0 <= i < |values| && cmp(values[i], elt) < 0
    ensures LeftSmaller(values, cmp, elt, low, i + 1)
  {
  }

  lemma {:induction false} StepLeft(values: seq<Elt>, cmp: Compare, elt: Elt, high: int, i: int)
    requires Rising(values, cmp, elt) && 0 <= i < |values| && cmp(values[i], elt) > 0
    ensures RightGreater(values, cmp, elt, high, i)
  {
  }

  /** In a sorted list nothing left of an equal element is greater. */
  lemma {:induction false} NotGreater(values: seq<Elt>, cmp: Compare, elt: Elt, i: int, at: int)
    requires Rising(values, cmp, elt) && 0 <= i < at < |values| && cmp(values[at], elt) == 0
    ensures cmp(values[i], elt) <= 0
  {
  }

  /** The index of the root of the subtree t below c. */
  lemma {:induction false} RootOrder(c: Ctx, t: Tree)
    requires t.Br?
    ensures |Before(c)| + Size(t) <= |InOrder(Plug(c, t))|
    ensures InOrder(Plug(c, t))[|Before(c)| + Size(t.l)] == t.n
    ensures |Before(InR(t.l, t.n, c))| == |Before(c)| + Size(t.l) + 1
  {
    PlugOrder(c, t);
    InOrderNodes(t.l);
    InOrderNodes(t);
  }

  /** The index of the root of the subtree t below c, its value, and what its fields hold. */
  lemma {:induction false} RootIndex(list: List, c: Ctx, t: Tree)
    requires list.Valid() && list.tree == Plug(c, t) && t.Br?
    ensures |Before(c)| + Size(t) <= |ValuesOf(list.tree)| == |list.Order()|
    ensures ValuesOf(list.tree)[|Before(c)| + Size(t.l)] == t.n.value && list.Order()[|Before(c)| + Size(t.l)] == t.n
    ensures |Before(InR(t.l, t.n, c))| == |Before(c)| + Size(t.l) + 1
    ensures t.n.left == Root(t.l) && t.n.right == Root(t.r) && LeftSize(t.n) == Size(t.l)
  {
    RootOrder(c, t);
    ValuesLength(list.tree);
    ValuesAt(list.tree, |Before(c)| + Size(t.l));
    At(list, c, t);
  }

  function LeftSize(n: Node): int
    reads n, n.left
  {
    if n.left != null then n.left.branchSize else 0
  }

  /** The leftmost element equal to elt, in a sorted list. The source's abort is unreachable. */
  method SearchSorted(list: List, cmp: Compare, elt: Elt) returns (res: Node?, ghost at: nat)
    requires list.Valid() && Rising(ValuesOf(list.tree), cmp, elt)
    ensures res == null ==> NoEqual(ValuesOf(list.tree), cmp, elt, 0, |ValuesOf(list.tree)|)
    ensures res != null ==> FirstEqual(ValuesOf(list.tree), cmp, elt, 0, |ValuesOf(list.tree)|, at)
    ensures res != null ==> at < |list.Order()| && list.Order()[at] == res
  {
    ghost var values := ValuesOf(list.tree);
    ValuesLength(list.tree);
    var node := list.root;
    ghost var c, t := Top, list.tree;
    at := 0;
    while node != null
      invariant list.tree == Plug(c, t) && Root(t) == node
      invariant |Before(c)| + Size(t) <= |values|
      invariant LeftSmaller(values, cmp, elt, 0, |Before(c)|)
      invariant RightGreater(values, cmp, elt, |values|, |Before(c)| + Size(t))
      decreases t
    {
      RootIndex(list, c, t);
      ghost var i := |Before(c)| + Size(t.l);
      var sign := cmp(node.value, elt);
      if sign < 0 {
        StepRight(values, cmp, elt, 0, i);
        c, t := InR(t.l, node, c), t.r;
        node := node.right;
      } else if sign > 0 {
        StepLeft(values, cmp, elt, |values|, i);
        c, t := InL(node, t.r, c), t.l;
        node := node.left;
      } else {
        res, at := LeftmostEqual(list, cmp, elt, node, i, InL(node, t.r, c), t.l);
        return;
      }
    }
    res := null;
  }

  /** The second phase of the search: found is equal to elt, and so is no element left of t. */
  method LeftmostEqual(list: List, cmp: Compare, elt: Elt, found0: Node, ghost at0: nat, ghost c0: Ctx, ghost t0: Tree)
      returns (found: Node, ghost at: nat)
    requires list.Valid() && Rising(ValuesOf(list.tree), cmp, elt) && list.tree == Plug(c0, t0)
    requires at0 == |Before(c0)| + Size(t0) < |ValuesOf(list.tree)| == |list.Order()|
    requires list.Order()[at0] == found0 && cmp(ValuesOf(list.tree)[at0], elt) == 0
    requires found0.left == Root(t0)
    requires LeftSmaller(ValuesOf(list.tree), cmp, elt, 0, |Before(c0)|)
    ensures FirstEqual(ValuesOf(list.tree), cmp, elt, 0, |ValuesOf(list.tree)|, at)
    ensures at < |list.Order()| && list.Order()[at] == found
  {
    hide ValuesOf, Rising, Distinct, Linked;
    ghost var values := ValuesOf(list.tree);
    found, at := found0, at0;
    var node := found0.left;
    ghost var c, t := c0, t0;
    while node != null
      invariant list.tree == Plug(c, t) && Root(t) == node
      invariant at == |Before(c)| + Size(t) < |values| && list.Order()[at] == found && cmp(values[at], elt) == 0
      invariant LeftSmaller(values, cmp, elt, 0, |Before(c)|)
      decreases t
    {
      RootIndex(list, c, t);
      ghost var i := |Before(c)| + Size(t.l);
      var sign := cmp(node.value, elt);
      NotGreater(values, cmp, elt, i, at);
      if sign < 0 {
        StepRight(values, cmp, elt, 0, i);
        c, t := InR(t.l, node, c), t.r;
        node := node.right;
      } else if sign > 0 {
        assert false;
      } else {
        found, at := node, i;
        c, t := InL(node, t.r, c), t.l;
        node := node.left;
      }
    }
  }

  /** The leftmost element equal to elt within the indices from low0 up to high0. */
  method SearchSortedFromTo(list: List, cmp: Compare, low0: nat, high0: nat, elt: Elt)
      returns (res: Node?, ghost at: nat)
    requires list.Valid() && Rising(ValuesOf(list.tree), cmp, elt) && low0 <= high0 <= Size(list.tree)
    ensures res == null ==> NoEqual(ValuesOf(list.tree), cmp, elt, low0, high0)
    ensures res != null ==> FirstEqual(ValuesOf(list.tree), cmp, elt, low0, high0, at)
    ensures res != null ==> at < |list.Order()| && list.Order()[at] == res
  {
    hide Rising, ValuesOf, InOrder, Avl, Linked, Distinct, Nodes;
    ghost var values := ValuesOf(list.tree);
    ValuesLength(list.tree);
    var node, low: int, high: int := list.root, low0, high0;
    ghost var c, t, b := Top, list.tree, 0;
    at := 0;
    while node != null
      invariant list.tree == Plug(c, t) && Root(t) == node && b == |Before(c)|
      invariant b + Size(t) <= |values| && 0 <= low <= high
      invariant b + high == high0 && low == Max(low0 - b, 0)
      invariant LeftSmaller(values, cmp, elt, low0, b)
      invariant RightGreater(values, cmp, elt, high0, b + Size(t))
      decreases t
    {
      RootIndex(list, c, t);
      ghost var i := b + Size(t.l);
      var leftSize := LeftSize(node);
      if low > leftSize {
        low, high := low - (leftSize + 1), high - (leftSize + 1);
        c, t, b := InR(t.l, node, c), t.r, i + 1;
        node := node.right;
      } else if high <= leftSize {
        c, t := InL(node, t.r, c), t.l;
        node := node.left;
      } else {
        var sign := cmp(node.value, elt);
        if sign < 0 {
          StepRight(values, cmp, elt, low0, i);
          low, high := 0, high - (leftSize + 1);
          c, t, b := InR(t.l, node, c), t.r, i + 1;
          node := node.right;
        } else if sign > 0 {
          StepLeft(values, cmp, elt, high0, i);
          c, t := InL(node, t.r, c), t.l;
          node := node.left;
        } else {
          res, at := LeftmostEqualFrom(list, cmp, elt, low, node, low0, i, InL(node, t.r, c), t.l);
          return;
        }
      }
    }
    res := null;
  }

  /** The second phase of the windowed search. */
  method LeftmostEqualFrom(list: List, cmp: Compare, elt: Elt, lowIn: int, found0: Node, ghost low0: nat,
      ghost at0: nat, ghost c0: Ctx, ghost t0: Tree)
    returns (found: Node, ghost at: nat)
    requires list.Valid() && Rising(ValuesOf(list.tree), cmp, elt) && list.tree == Plug(c0, t0)
    requires low0 <= at0 == |Before(c0)| + Size(t0) < |ValuesOf(list.tree)| == |list.Order()|
    requires list.Order()[at0] == found0 && cmp(ValuesOf(list.tree)[at0], elt) == 0 && found0.left == Root(t0)
    requires 0 <= lowIn && lowIn == Max(low0 - |Before(c0)|, 0)
    requires LeftSmaller(ValuesOf(list.tree), cmp, elt, low0, |Before(c0)|)
    ensures FirstEqual(ValuesOf(list.tree), cmp, elt, low0, at0 + 1, at)
    ensures at < |list.Order()| && list.Order()[at] == found
  {
    hide CSz, ValuesOf, Distinct, Linked, Rising, InOrder, Nodes, H;
    ghost var values := ValuesOf(list.tree);
    found, at := found0, at0;
    var node, low := found0.left, lowIn;
    ghost var c, t, b := c0, t0, |Before(c0)|;
    while node != null
      invariant list.tree == Plug(c, t) && Root(t) == node && b == |Before(c)|
      invariant low0 <= at == b + Size(t) <= at0 && list.Order()[at] == found && cmp(values[at], elt) == 0
      invariant 0 <= low && low == Max(low0 - b, 0)
      invariant LeftSmaller(values, cmp, elt, low0, b)
      decreases t
    {
      RootIndex(list, c, t);
      ghost var i := b + Size(t.l);
      NotGreater(values, cmp, elt, i, at);
      var leftSize := LeftSize(node);
      if low > leftSize {
        low := low - (leftSize + 1);
        c, t, b := InR(t.l, node, c), t.r, i + 1;
        node := node.right;
      } else {
        var sign := cmp(node.value, elt);
        if sign < 0 {
          StepRight(values, cmp, elt, low0, i);
          low := 0;
          c, t, b := InR(t.l, node, c), t.r, i + 1;
          node := node.right;
        } else if sign > 0 {
          assert false;
        } else {
          found, at := node, i;
          c, t := InL(node, t.r, c), t.l;
          node := node.left;
        }
      }
    }
  }

  /** The index of the leftmost element equal to elt, or -1. */
  method IndexOfSorted(list: List, cmp: Compare, elt: Elt) returns (index: int)
    requires list.Valid() && Rising(ValuesOf(list.tree), cmp, elt)
    ensures index == -1 ==> NoEqual(ValuesOf(list.tree), cmp, elt, 0, |ValuesOf(list.tree)|)
    ensures index != -1 ==> FirstEqual(ValuesOf(list.tree), cmp, elt, 0, |ValuesOf(list.tree)|, index)
  {
    ghost var values := ValuesOf(list.tree);
    ValuesLength(list.tree);
    var node, position := list.root, 0;
    ghost var c, t := Top, list.tree;
    while node != null
      invariant list.tree == Plug(c, t) && Root(t) == node && position == |Before(c)|
      invariant |Before(c)| + Size(t) <= |values|
      invariant LeftSmaller(values, cmp, elt, 0, |Before(c)|)
      invariant RightGreater(values, cmp, elt, |values|, |Before(c)| + Size(t))
      decreases t
    {
      RootIndex(list, c, t);
      ghost var i := |Before(c)| + Size(t.l);
      var sign := cmp(node.value, elt);
      if sign < 0 {
        StepRight(values, cmp, elt, 0, i);
        position := position + LeftSize(node) + 1;
        c, t := InR(t.l, node, c), t.r;
        node := node.right;
      } else if sign > 0 {
        StepLeft(values, cmp, elt, |values|, i);
        c, t := InL(node, t.r, c), t.l;
        node := node.left;
      } else {
        index := LeftmostIndex(list, cmp, elt, node, position, i, InL(node, t.r, c), t.l);
        return;
      }
    }
    index := -1;
  }

  /** The second phase of the index search. */
  method LeftmostIndex(list: List, cmp: Compare, elt: Elt, found0: Node, position0: int, ghost at0: nat, ghost c0: Ctx,
      ghost t0: Tree) returns (foundPosition: int)
    requires list.Valid() && Rising(ValuesOf(list.tree), cmp, elt) && list.tree == Plug(c0, t0)
    requires position0 == |Before(c0)| && at0 == |Before(c0)| + Size(t0) < |ValuesOf(list.tree)|
    requires cmp(ValuesOf(list.tree)[at0], elt) == 0 && found0.left == Root(t0) && LeftSize(found0) == Size(t0)
    requires LeftSmaller(ValuesOf(list.tree), cmp, elt, 0, |Before(c0)|)
    ensures FirstEqual(ValuesOf(list.tree), cmp, elt, 0, |ValuesOf(list.tree)|, foundPosition)
  {
    hide Avl, ValuesOf, Rising, Linked, InOrder;
    ghost var values := ValuesOf(list.tree);
    var position := position0;
    foundPosition := position + LeftSize(found0);
    var node := found0.left;
    ghost var c, t, at := c0, t0, at0;
    while node != null
      invariant list.tree == Plug(c, t) && Root(t) == node && position == |Before(c)|
      invariant foundPosition == at == position + Size(t) < |values| && cmp(values[at], elt) == 0
      invariant LeftSmaller(values, cmp, elt, 0, position)
      decreases t
    {
      RootIndex(list, c, t);
      ghost var i := position + Size(t.l);
      NotGreater(values, cmp, elt, i, at);
      var leftSize := LeftSize(node);
      var sign := cmp(node.value, elt);
      if sign < 0 {
        StepRight(values, cmp, elt, 0, i);
        position := position + leftSize + 1;
        c, t := InR(t.l, node, c), t.r;
        node := node.right;
      } else if sign > 0 {
        assert false;
      } else {
        foundPosition := position + leftSize;
        at := i;
        c, t := InL(node, t.r, c), t.l;
        node := node.left;
      }
    }
  }

  /** Values follow the order of the nodes. */
  lemma {:induction false} ValuesAlong(t: Tree)
    ensures |ValuesOf(t)| == |InOrder(t)|
    ensures forall k :: 0 <= k < |InOrder(t)| ==> ValuesOf(t)[k] == InOrder(t)[k].value
  {
    ValuesLength(t);
    forall k | 0 <= k < |InOrder(t)| ensures ValuesOf(t)[k] == InOrder(t)[k].value { ValuesAt(t, k); }
  }

  /** Where elt belongs: nothing before k is greater, nothing from k on is smaller. */
  ghost predicate Belongs(values: seq<Elt>, cmp: Compare, elt: Elt, k: nat) {
    && k <= |values|
    && (forall j :: 0 <= j < k ==> cmp(values[j], elt) <= 0)
    && (forall j :: k <= j < |values| ==> cmp(values[j], elt) >= 0)
  }

  lemma {:induction false} InsertedSorted(values: seq<Elt>, cmp: Compare, elt: Elt, k: nat)
    requires Preorder(cmp) && Sorted(values, cmp) && Belongs(values, cmp, elt, k)
    ensures Sorted(Inserted(values, k, elt), cmp)
  {
    var after := Inserted(values, k, elt);
    forall i, j | 0 <= i < j < |after| ensures cmp(after[i], after[j]) <= 0 {
      var i', j' := if i > k then i - 1 else i, if j > k then j - 1 else j;
      if i == k {
        assert cmp(values[j'], elt) >= 0;
      } else if j != k {
        assert cmp(values[i'], values[j']) <= 0;
      }
    }
  }

  /** The place where the sorted insertion hangs the new node. */
  datatype Place = First | BeforeNode(node: Node) | AfterNode(node: Node)

  /** The search for the place of elt has come to node, the root of t, with b elements before the
      subtree: they are not greater, and those after it not smaller. */
  ghost predicate Placing(list: List, cmp: Compare, elt: Elt, node: Node, c: Ctx, t: Tree, b: nat)
    reads list, list.nodes
  {
    && list.Valid() && list.tree == Plug(c, t) && Root(t) == node && b == |Before(c)|
    && var values := ValuesOf(list.tree);
       && b + Size(t) <= |values| == |list.Order()|
       && LeftSmaller(values, cmp, elt, 0, b) && RightGreater(values, cmp, elt, |values|, b + Size(t))
  }

  /** The node of a step of the search. */
  lemma {:induction false} PlacingAt(list: List, cmp: Compare, elt: Elt, node: Node, c: Ctx, t: Tree, b: nat)
    requires Placing(list, cmp, elt, node, c, t, b)
    ensures t.Br? && t.n == node && node in list.nodes
    ensures b + Size(t.l) < |list.Order()| == |ValuesOf(list.tree)| && list.Order()[b + Size(t.l)] == node
    ensures node.left == Root(t.l) && node.right == Root(t.r)
    ensures ValuesOf(list.tree)[b + Size(t.l)] == node.value
  {
    RootIndex(list, c, t);
    PlugNodes(c, t);
  }

  lemma {:induction false} PlacingRight(list: List, cmp: Compare, elt: Elt, node: Node, c: Ctx, t: Tree, b: nat)
    requires Placing(list, cmp, elt, node, c, t, b) && Rising(ValuesOf(list.tree), cmp, elt)
    requires t.Br? && cmp(node.value, elt) < 0
    ensures t.r == Leaf ==> Belongs(ValuesOf(list.tree), cmp, elt, b + Size(t.l) + 1)
    ensures t.r != Leaf ==> Placing(list, cmp, elt, t.r.n, InR(t.l, node, c), t.r, b + Size(t.l) + 1)
  {
    RootIndex(list, c, t);
    StepRight(ValuesOf(list.tree), cmp, elt, 0, b + Size(t.l));
  }

  lemma {:induction false} PlacingLeft(list: List, cmp: Compare, elt: Elt, node: Node, c: Ctx, t: Tree, b: nat)
    requires Placing(list, cmp, elt, node, c, t, b) && Rising(ValuesOf(list.tree), cmp, elt)
    requires t.Br? && cmp(node.value, elt) > 0
    ensures t.l == Leaf ==> Belongs(ValuesOf(list.tree), cmp, elt, b)
    ensures t.l != Leaf ==> Placing(list, cmp, elt, t.l.n, InL(node, t.r, c), t.l, b)
  {
    RootIndex(list, c, t);
    StepLeft(ValuesOf(list.tree), cmp, elt, |ValuesOf(list.tree)|, b + Size(t.l));
  }

  lemma {:induction false} PlacingStart(list: List, cmp: Compare, elt: Elt)
    requires list.Valid() && list.root != null
    ensures Placing(list, cmp, elt, list.root, Top, list.tree, 0)
  {
    ValuesLength(list.tree);
  }

  /** Finds where elt belongs in a sorted list. */
  method FindPlace(list: List, cmp: Compare, elt: Elt) returns (place: Place, ghost k: nat)
    requires list.Valid() && Rising(ValuesOf(list.tree), cmp, elt) && list.root != null
    ensures Belongs(ValuesOf(list.tree), cmp, elt, k) && |ValuesOf(list.tree)| == |list.Order()|
    ensures place.BeforeNode? ==> place.node in list.nodes && k < |list.Order()| && list.Order()[k] == place.node
    ensures place.AfterNode? ==> place.node in list.nodes && 0 < k && list.Order()[k - 1] == place.node
    ensures !place.First?
  {
    hide Placing, Plug, ValuesOf;
    PlacingStart(list, cmp, elt);
    var node: Node := list.root;
    ghost var c, t, b: nat := Top, list.tree, 0;
    while true
      invariant Placing(list, cmp, elt, node, c, t, b)
      decreases t
    {
      PlacingAt(list, cmp, elt, node, c, t, b);
      var sign := cmp(node.value, elt);
      if sign < 0 {
        PlacingRight(list, cmp, elt, node, c, t, b);
        if node.right == null {
          return AfterNode(node), b + Size(t.l) + 1;
        }
        c, t, b := InR(t.l, node, c), t.r, b + Size(t.l) + 1;
        node := node.right;
      } else if sign > 0 {
        PlacingLeft(list, cmp, elt, node, c, t, b);
        if node.left == null {
          return BeforeNode(node), b + Size(t.l);
        }
        c, t := InL(node, t.r, c), t.l;
        node := node.left;
      } else {
        EqualBelongs(ValuesOf(list.tree), cmp, elt, b + Size(t.l));
        return BeforeNode(node), b + Size(t.l);
      }
    }
  }

  lemma {:induction false} EqualBelongs(values: seq<Elt>, cmp: Compare, elt: Elt, i: nat)
    requires Rising(values, cmp, elt) && i < |values| && cmp(values[i], elt) == 0
    ensures Belongs(values, cmp, elt, i)
  {
  }

  /** The values after an insertion: the old ones, with elt at index k. */
  lemma {:induction false} InsertedValues(t: Tree, order: seq<Node>, before: seq<Elt>, k: nat, newNode: Node, elt: Elt)
    requires k <= |order| == |before| && InOrder(t) == Inserted(order, k, newNode) && newNode.value == elt
    requires forall j :: 0 <= j < |order| ==> order[j].value == before[j]
    ensures ValuesOf(t) == Inserted(before, k, elt)
  {
    ValuesAlong(t);
    forall j | 0 <= j < |before| + 1 ensures ValuesOf(t)[j] == Inserted(before, k, elt)[j] {
      if j < k { assert order[j].value == before[j]; } else if j > k { assert order[j - 1].value == before[j - 1]; }
    }
  }

  /** The nodes of a list are the elements of its order. */
  lemma {:induction false} OrderIn(list: List)
    requires list.Valid()
    ensures |ValuesOf(list.tree)| == |list.Order()|
    ensures forall j :: 0 <= j < |list.Order()| ==>
      list.Order()[j] in list.nodes && list.Order()[j].value == ValuesOf(list.tree)[j]
  {
    ValuesAlong(list.tree);
    InOrderNodes(list.tree);
    forall j | 0 <= j < |list.Order()| ensures list.Order()[j] in list.nodes { Member(list.tree, j); }
  }

  /** Hangs the new node in its place. */
  method AddPlaced(list: List, place: Place, elt: Elt, granted: bool, ghost k: nat) returns (newNode: Node?)
    requires list.Valid() && k <= |list.Order()| == |ValuesOf(list.tree)|
    requires place.First? ==> k == 0
    requires place.BeforeNode? ==> place.node in list.nodes && k < |list.Order()| && list.Order()[k] == place.node
    requires place.AfterNode? ==> place.node in list.nodes && 0 < k && list.Order()[k - 1] == place.node
    modifies list, list.nodes
    ensures list.Valid()
    ensures newNode != null <==> granted
    ensures newNode == null ==> list.Order() == old(list.Order())
    ensures newNode != null ==>
      fresh(newNode) && newNode.value == elt && list.Order() == Inserted(old(list.Order()), k, newNode)
    ensures forall n :: n in old(list.nodes) ==> n.value == old(n.value)
  {
    match place {
      case First => newNode := AddFirst(list, elt, granted);
      case AfterNode(node) => newNode := AddAfter(list, node, elt, granted);
      case BeforeNode(node) => newNode := AddBefore(list, node, elt, granted);
    }
  }

  /** Inserts elt into a sorted list: the list stays sorted and has exactly one node more. */
  method AddSorted(list: List, cmp: Compare, elt: Elt, granted: bool) returns (newNode: Node?, ghost k: nat)
    requires list.Valid() && Preorder(cmp) && Sorted(ValuesOf(list.tree), cmp)
    modifies list, list.nodes
    ensures list.Valid() && k <= |old(list.Order())| == |old(ValuesOf(list.tree))|
    ensures newNode != null <==> granted
    ensures newNode == null ==> list.Order() == old(list.Order())
    ensures newNode != null ==> fresh(newNode) && list.Order() == Inserted(old(list.Order()), k, newNode)
    ensures ValuesOf(list.tree)
         == (if newNode == null then old(ValuesOf(list.tree)) else Inserted(old(ValuesOf(list.tree)), k, elt))
    ensures Sorted(ValuesOf(list.tree), cmp)
  {
    hide Rising, Avl, Linked;
    ghost var before, order := ValuesOf(list.tree), list.Order();
    SortedRises(before, cmp, elt);
    OrderIn(list);
    var place := First;
    k := 0;
    if list.root != null {
      place, k := FindPlace(list, cmp, elt);
    }
    InsertedSorted(before, cmp, elt, k);
    newNode := AddPlaced(list, place, elt, granted, k);
    KeptOrInserted(list, order, before, k, newNode, elt);
  }

  lemma {:induction false} KeptOrInserted(list: List, order: seq<Node>, before: seq<Elt>, k: nat, newNode: Node?,
      elt: Elt)
    requires list.Valid() && k <= |order| == |before|
    requires forall j :: 0 <= j < |order| ==> order[j].value == before[j]
    requires newNode == null ==> list.Order() == order
    requires newNode != null ==> newNode.value == elt && list.Order() == Inserted(order, k, newNode)
    ensures ValuesOf(list.tree) == (if newNode == null then before else Inserted(before, k, elt))
  {
    if newNode == null {
      ValuesAlong(list.tree);
    } else {
      InsertedValues(list.tree, order, before, k, newNode, elt);
    }
  }

  /** Removes the leftmost element equal to elt; the list stays sorted. */
  method RemoveSorted(list: List, cmp: Compare, elt: Elt) returns (removed: bool, ghost at: nat)
    requires list.Valid() && Preorder(cmp) && Sorted(ValuesOf(list.tree), cmp)
    modifies list, list.nodes
    ensures list.Valid() && Sorted(ValuesOf(list.tree), cmp)
    ensures !removed ==>
      list.Order() == old(list.Order()) && NoEqual(old(ValuesOf(list.tree)), cmp, elt, 0, |old(list.Order())|)
    ensures removed ==> FirstEqual(old(ValuesOf(list.tree)), cmp, elt, 0, |old(list.Order())|, at)
    ensures removed ==> at < |old(list.Order())| == |old(ValuesOf(list.tree))|
    ensures removed ==>
      list.Order() == Without(old(list.Order()), at) && ValuesOf(list.tree) == Without(old(ValuesOf(list.tree)), at)
  {
    hide Preorder, ValuesOf;
    ghost var before, order := ValuesOf(list.tree), list.Order();
    SortedRises(before, cmp, elt);
    OrderIn(list);
    var node;
    node, at := SearchSorted(list, cmp, elt);
    removed := node != null;
    if removed {
      RemoveNode(list, node);
      WithoutValues(list.tree, order, before, at);
    }
  }

  lemma {:induction false} WithoutValues(t: Tree, order: seq<Node>, before: seq<Elt>, at: nat)
    requires at < |order| == |before| && InOrder(t) == Without(order, at)
    requires forall j :: 0 <= j < |order| && j != at ==> order[j].value == before[j]
    ensures ValuesOf(t) == Without(before, at)
  {
    ValuesAlong(t);
    forall j | 0 <= j < |before| - 1 ensures ValuesOf(t)[j] == Without(before, at)[j] {
      if j < at { assert order[j].value == before[j]; } else { assert order[j + 1].value == before[j + 1]; }
    }
  }
}
