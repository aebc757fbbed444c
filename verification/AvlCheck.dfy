/** The debugging check of the AVL list, the Fibonacci bound and the traversal stack's capacity. */
module AvlCheck {
  import opened AvlShape
  import opened AvlRotate
  import opened AvlList

  /** What check_invariants does: abort, or return the height. */
  datatype Verdict = Abort | Height(h: nat)

  /** The child pointers have the shape t, whatever the other fields hold. */
  ghost predicate Shaped(t: Tree)
    reads Nodes(t)
  {
    t.Br? ==> t.n.left == Root(t.l) && t.n.right == Root(t.r) && Shaped(t.l) && Shaped(t.r)
  }

  /** The recursive check of the subtree below node, which has the shape t. */
  function CheckInvariants(node: Node, parent: Node?, ghost t: Tree): (v: Verdict)
    requires Shaped(t) && Root(t) == node
    reads Nodes(t)
    decreases t
  {
    var left := if node.left != null then CheckInvariants(node.left, node, t.l) else Height(0);
    if left.Abort? then Abort else
    var right := if node.right != null then CheckInvariants(node.right, node, t.r) else Height(0);
    if right.Abort? then Abort else
    var balance := right.h - left.h;
    if node.parent != parent then Abort
    else if node.branchSize != SizeOf(node.left) + 1 + SizeOf(node.right) then Abort
    else if !(-1 <= balance <= 1) then Abort
    else if node.balance != balance then Abort
    else Height(1 + Max(left.h, right.h))
  }

  /** The check accepts exactly the trees that are AVL and exact in every field, and then
      returns the height. */
  lemma {:induction false} CheckExact(node: Node, parent: Node?, t: Tree)
    requires Shaped(t) && Root(t) == node
    ensures CheckInvariants(node, parent, t) == (if Linked(t, parent) && Avl(t) then Height(H(t)) else Abort)
    decreases t
  {
    if t.l.Br? { CheckExact(t.l.n, node, t.l); }
    if t.r.Br? { CheckExact(t.r.n, node, t.r); }
    if Linked(t.l, node) && Linked(t.r, node) {
      RootSize(t.l, node);
      RootSize(t.r, node);
    }
  }

  /** Every valid list passes the check. */
  lemma {:induction false} ValidPasses(list: List)
    requires list.Valid() && list.root != null
    ensures Shaped(list.tree) && Root(list.tree) == list.root
    ensures CheckInvariants(list.root, null, list.tree) == Height(H(list.tree))
  {
    LinkedShaped(list.tree, null);
    CheckExact(list.root, null, list.tree);
  }

  lemma {:induction false} LinkedShaped(t: Tree, p: Node?)
    requires Linked(t, p)
    ensures Shaped(t)
    decreases t
  {
    if t.Br? {
      LinkedShaped(t.l, t.n);
      LinkedShaped(t.r, t.n);
    }
  }

  // ------------------------------------------------------- the height bound

  ghost function Fib(n: nat): nat {
    if n < 2 then n else Fib(n - 1) + Fib(n - 2)
  }

  lemma {:induction false} FibStart()
    ensures Fib(0) == 0 && Fib(1) == 1
  {
  }

  lemma {:induction false} FibNext(n: nat)
    ensures Fib(n + 2) == Fib(n + 1) + Fib(n)
  {
  }

  lemma {:induction false} FibMonotone(m: nat, n: nat)
    requires m <= n
    ensures Fib(m) <= Fib(n)
    decreases n - m
  {
    if m < n {
      FibMonotone(m + 1, n);
    }
  }

  /** An AVL tree of height h has at least F(h+2) - 1 nodes. */
  lemma {:induction false} FibonacciBound(t: Tree)
    requires Avl(t)
    ensures Size(t) + 1 >= Fib(H(t) + 2)
    decreases t
  {
    hide Fib;
    FibStart();
    FibNext(H(t));
    if t.Br? {
      FibonacciBound(t.l);
      FibonacciBound(t.r);
      var h := H(t);
      FibMonotone(h, H(t.l) + 2);
      FibMonotone(h, H(t.r) + 2);
    }
  }

  /** ... and at most 2^h - 1 nodes. */
  lemma {:induction false} PowerBound(t: Tree)
    ensures Size(t) + 1 <= Pow2(H(t))
    decreases t
  {
    if t.Br? {
      PowerBound(t.l);
      PowerBound(t.r);
      Pow2Monotone(H(t.l), H(t) - 1);
      Pow2Monotone(H(t.r), H(t) - 1);
    }
  }

  ghost function Pow2(n: nat): nat {
    if n == 0 then 1 else 2 * Pow2(n - 1)
  }

  lemma {:induction false} Pow2Monotone(m: nat, n: nat)
    requires m <= n
    ensures Pow2(m) <= Pow2(n)
    decreases n - m
  {
    if m < n {
      Pow2Monotone(m + 1, n);
    }
  }

  const MAXHEIGHT := 83
  const NODE_BYTES := 48
  const ADDRESS_SPACE := 0x1_0000_0000_0000_0000

  /** The nodes of the tree fit into a 64-bit address space. */
  ghost predicate FitsMemory(t: Tree) {
    Size(t) * NODE_BYTES <= ADDRESS_SPACE
  }

  lemma {:induction false} FourOn(n: nat)
    ensures Fib(n + 4) == 3 * Fib(n + 1) + 2 * Fib(n) && Fib(n + 5) == 5 * Fib(n + 1) + 3 * Fib(n)
  {
  }

  lemma {:induction false} TwelveOn(n: nat)
    ensures Fib(n + 12) == 144 * Fib(n + 1) + 89 * Fib(n) && Fib(n + 13) == 233 * Fib(n + 1) + 144 * Fib(n)
  {
    hide Fib;
    FourOn(n);
    FourOn(n + 4);
    FourOn(n + 8);
  }

  /** F(86) is 420196140727489673. */
  lemma {:induction false} LargeFib(n: nat)
    requires n >= 86
    ensures Fib(n) >= 420196140727489673
  {
    hide Fib;
    FibStart();
    TwelveOn(0);
    TwelveOn(12);
    TwelveOn(24);
    TwelveOn(36);
    TwelveOn(48);
    TwelveOn(60);
    TwelveOn(72);
    FibNext(84);
    FibMonotone(86, n);
  }

  /** A traversal stack of MAXHEIGHT entries suffices for every list that fits into memory. */
  lemma {:induction false} HeightBound(t: Tree)
    requires Avl(t) && FitsMemory(t)
    ensures H(t) <= MAXHEIGHT
  {
    hide Fib;
    if H(t) > MAXHEIGHT {
      LargeFib(H(t) + 2);
      FibonacciBound(t);
      assert false;
    }
  }
}
