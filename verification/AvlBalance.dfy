/** The balancing step of the AVL list as a function on tree shapes, and what it preserves. */
module AvlBalance {
  import opened AvlShape

  /** The subtree that takes the place of l-n-r once the height of l or r has changed by one. */
  ghost function Rebuild(l: Tree, n: Node, r: Tree): Tree {
    if H(l) == H(r) + 2 then
      if H(l.r) <= H(l.l) then Br(l.l, l.n, Br(l.r, n, r))
      else Br(Br(l.l, l.n, l.r.l), l.r.n, Br(l.r.r, n, r))
    else if H(r) == H(l) + 2 then
      if H(r.l) <= H(r.r) then Br(Br(l, n, r.l), r.n, r.r)
      else Br(Br(l, n, r.l.l), r.l.n, Br(r.l.r, r.n, r.r))
    else Br(l, n, r)
  }

  /** Rebuilding every frame from the hole up to the root. */
  ghost function Fix(c: Ctx, t: Tree): Tree {
    match c
    case Top => t
    case InL(n, r, up) => Fix(up, Rebuild(t, n, r))
    case InR(l, n, up) => Fix(up, Rebuild(l, n, t))
  }

  // A rotation re-associates two adjacent nodes; a double rotation does so twice.
  lemma {:induction false} RotateKeeps(a: Tree, x: Node, b: Tree, y: Node, c: Tree)
    ensures InOrder(Br(Br(a, x, b), y, c)) == InOrder(Br(a, x, Br(b, y, c)))
    ensures Nodes(Br(Br(a, x, b), y, c)) == Nodes(Br(a, x, Br(b, y, c)))
    ensures Size(Br(Br(a, x, b), y, c)) == Size(Br(a, x, Br(b, y, c)))
  {
  }

  lemma {:induction false} RotateDistinct(a: Tree, x: Node, b: Tree, y: Node, c: Tree)
    ensures Distinct(Br(Br(a, x, b), y, c)) <==> Distinct(Br(a, x, Br(b, y, c)))
  {
    var l, r := Br(a, x, b), Br(b, y, c);
    assert Nodes(l) == Nodes(a) + {x} + Nodes(b) && Nodes(r) == Nodes(b) + {y} + Nodes(c);
    assert Distinct(Br(l, y, c)) <==>
      Distinct(l) && Distinct(c) && y !in Nodes(l) && y !in Nodes(c) && Nodes(l) !! Nodes(c);
    assert Distinct(Br(a, x, r)) <==>
      Distinct(a) && Distinct(r) && x !in Nodes(a) && x !in Nodes(r) && Nodes(a) !! Nodes(r);
  }

  /** Two trees hold the same nodes in the same order. */
  ghost predicate Same(t: Tree, u: Tree) {
    InOrder(t) == InOrder(u) && Nodes(t) == Nodes(u) && Size(t) == Size(u) && (Distinct(t) <==> Distinct(u))
  }

  lemma {:induction false} RotateSame(a: Tree, x: Node, b: Tree, y: Node, c: Tree)
    ensures Same(Br(Br(a, x, b), y, c), Br(a, x, Br(b, y, c)))
  {
    RotateKeeps(a, x, b, y, c);
    RotateDistinct(a, x, b, y, c);
  }

  lemma {:induction false} SameLeft(l: Tree, l': Tree, n: Node, r: Tree)
    requires Same(l, l')
    ensures Same(Br(l, n, r), Br(l', n, r))
  {
  }

  lemma {:induction false} SameRight(l: Tree, n: Node, r: Tree, r': Tree)
    requires Same(r, r')
    ensures Same(Br(l, n, r), Br(l, n, r'))
  {
  }

  lemma {:induction false} RebuildKeeps(l: Tree, n: Node, r: Tree)
    ensures Same(Rebuild(l, n, r), Br(l, n, r))
  {
    if H(l) == H(r) + 2 {
      if H(l.r) <= H(l.l) {
        RotateSame(l.l, l.n, l.r, n, r);
      } else {
        var left := Br(l.l, l.n, l.r.l);
        RotateSame(l.l, l.n, l.r.l, l.r.n, l.r.r);
        SameLeft(l, Br(left, l.r.n, l.r.r), n, r);
        RotateSame(left, l.r.n, l.r.r, n, r);
      }
    } else if H(r) == H(l) + 2 {
      if H(r.l) <= H(r.r) {
        RotateSame(l, n, r.l, r.n, r.r);
      } else {
        var right := Br(r.l.r, r.n, r.r);
        RotateSame(r.l.l, r.l.n, r.l.r, r.n, r.r);
        SameRight(l, n, r, Br(r.l.l, r.l.n, right));
        RotateSame(l, n, r.l.l, r.l.n, right);
      }
    }
  }

  lemma {:induction false} SingleRightAvl(a: Tree, x: Node, b: Tree, y: Node, c: Tree)
    requires Avl(Br(a, x, b)) && Avl(c) && H(Br(a, x, b)) == H(c) + 2 && H(b) <= H(a)
    ensures Avl(Br(a, x, Br(b, y, c)))
    ensures H(Br(a, x, Br(b, y, c))) == (if H(a) == H(b) then H(c) + 3 else H(c) + 2)
  {
  }

  lemma {:induction false} SingleLeftAvl(a: Tree, x: Node, b: Tree, y: Node, c: Tree)
    requires Avl(a) && Avl(Br(b, y, c)) && H(Br(b, y, c)) == H(a) + 2 && H(b) <= H(c)
    ensures Avl(Br(Br(a, x, b), y, c))
    ensures H(Br(Br(a, x, b), y, c)) == (if H(c) == H(b) then H(a) + 3 else H(a) + 2)
  {
  }

  lemma {:induction false} DoubleAvl(a: Tree, x: Node, b: Tree, m: Node, c: Tree, y: Node, d: Tree)
    requires Avl(a) && Avl(d) && Avl(Br(b, m, c)) && H(a) == H(d) && H(Br(b, m, c)) == H(a) + 1
    ensures Avl(Br(Br(a, x, b), m, Br(c, y, d)))
    ensures H(Br(Br(a, x, b), m, Br(c, y, d))) == H(a) + 2
  {
  }

  /** Heights differing by at most two are brought back within one, and the height of the
      result is that of the old tree or one off. */
  lemma {:induction false} RebuildAvl(l: Tree, n: Node, r: Tree)
    requires Avl(l) && Avl(r) && -2 <= H(l) - H(r) <= 2
    ensures Avl(Rebuild(l, n, r))
    ensures Max(H(l), H(r)) <= H(Rebuild(l, n, r)) <= 1 + Max(H(l), H(r))
  {
    if H(l) == H(r) + 2 {
      if H(l.r) <= H(l.l) {
        SingleRightAvl(l.l, l.n, l.r, n, r);
      } else {
        DoubleAvl(l.l, l.n, l.r.l, l.r.n, l.r.r, n, r);
      }
    } else if H(r) == H(l) + 2 {
      if H(r.l) <= H(r.r) {
        SingleLeftAvl(l, n, r.l, r.n, r.r);
      } else {
        DoubleAvl(l, n, r.l.l, r.l.n, r.l.r, r.n, r.r);
      }
    }
  }

  /** One branch has moved by at most one from AVL heights oldL and oldR: Rebuild repairs. */
  lemma {:induction false} RebuildNear(l: Tree, n: Node, r: Tree, oldL: int, oldR: int)
    requires Avl(l) && Avl(r) && Near(oldL, oldR)
    requires (Near(H(l), oldL) && H(r) == oldR) || (H(l) == oldL && Near(H(r), oldR))
    ensures Avl(Rebuild(l, n, r)) && Near(H(Rebuild(l, n, r)), 1 + Max(oldL, oldR))
  {
    RebuildAvl(l, n, r);
    if Near(H(l), H(r)) {
      assert Rebuild(l, n, r) == Br(l, n, r);
    }
  }

  /** One frame of Fix: the rebuilt subtree and the height that the rest expects. */
  ghost function UpTree(c: Ctx, t: Tree): Tree
    requires !c.Top?
  {
    if c.InL? then Rebuild(t, c.n, c.r) else Rebuild(c.l, c.n, t)
  }

  ghost function UpHeight(c: Ctx, h: int): int
    requires !c.Top?
  {
    if c.InL? then 1 + Max(h, H(c.r)) else 1 + Max(H(c.l), h)
  }

  lemma {:induction false} FixStep(c: Ctx, t: Tree, h: int)
    requires !c.Top? && Avl(t) && CAvl(c, h) && Near(H(t), h)
    ensures Avl(UpTree(c, t)) && CAvl(c.up, UpHeight(c, h)) && Near(H(UpTree(c, t)), UpHeight(c, h))
    ensures CH(c, h) == CH(c.up, UpHeight(c, h)) && Fix(c, t) == Fix(c.up, UpTree(c, t))
  {
    if c.InL? {
      RebuildNear(t, c.n, c.r, h, H(c.r));
    } else {
      RebuildNear(c.l, c.n, t, H(c.l), h);
    }
  }

  /** A hole content one higher or lower than the AVL context expects is repaired by Fix. */
  lemma {:induction false} FixAvl(c: Ctx, t: Tree, h: int)
    requires Avl(t) && CAvl(c, h) && Near(H(t), h)
    ensures Avl(Fix(c, t)) && Near(H(Fix(c, t)), CH(c, h))
    decreases c
  {
    if !c.Top? {
      FixStep(c, t, h);
      FixAvl(c.up, UpTree(c, t), UpHeight(c, h));
    }
  }

  lemma {:induction false} PlugSame(c: Ctx, t: Tree, u: Tree)
    requires Same(t, u)
    ensures Same(Plug(c, t), Plug(c, u))
    decreases c
  {
    match c
    case Top =>
    case InL(n, r, up) =>
      SameLeft(t, u, n, r);
      PlugSame(up, Br(t, n, r), Br(u, n, r));
    case InR(l, n, up) =>
      SameRight(l, n, t, u);
      PlugSame(up, Br(l, n, t), Br(l, n, u));
  }

  /** Fix never changes the sequence of nodes. */
  lemma {:induction false} FixSame(c: Ctx, t: Tree)
    ensures Same(Fix(c, t), Plug(c, t))
    decreases c
  {
    match c
    case Top =>
    case InL(n, r, up) =>
      RebuildKeeps(t, n, r);
      FixSame(up, Rebuild(t, n, r));
      PlugSame(up, Rebuild(t, n, r), Br(t, n, r));
    case InR(l, n, up) =>
      RebuildKeeps(l, n, t);
      FixSame(up, Rebuild(l, n, t));
      PlugSame(up, Rebuild(l, n, t), Br(l, n, t));
  }

  /** Once the height is back to what the context expects, nothing above changes. */
  lemma {:induction false} FixStops(c: Ctx, t: Tree)
    requires CAvl(c, H(t))
    ensures Fix(c, t) == Plug(c, t)
    decreases c
  {
    match c
    case Top =>
    case InL(n, r, up) => FixStops(up, Br(t, n, r));
    case InR(l, n, up) => FixStops(up, Br(l, n, t));
  }
}
