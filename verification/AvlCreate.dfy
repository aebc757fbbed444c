/** Building a list from an array of elements. */
module AvlCreate {
  import opened Memory
  import opened AvlShape
  import opened AvlRotate
  import opened AvlList
  import opened AvlWalk
  import opened AvlInsert
  import opened AvlRemove
  import opened AvlCheck
  import opened AvlFree

  /** Bitwise and of two natural numbers. */
  function And(a: nat, b: nat): nat {
    if a == 0 || b == 0 then 0 else (if a % 2 == 1 && b % 2 == 1 then 1 else 0) + 2 * And(a / 2, b / 2)
  }

  /** The number of binary digits. */
  ghost function Digits(n: nat): nat {
    if n == 0 then 0 else 1 + Digits(n / 2)
  }

  ghost predicate IsPowerOfTwo(n: nat) {
    exists k: nat :: Pow2(k) == n
  }

  /** n & (n - 1) is zero exactly for the powers of two. */
  lemma {:induction false} AndPower(n: nat)
    requires n > 0
    ensures And(n, n - 1) == 0 <==> IsPowerOfTwo(n)
    decreases n
  {
    if n == 1 {
      assert Pow2(0) == 1;
    } else if n % 2 == 0 {
      AndPower(n / 2);
      assert And(n, n - 1) == 2 * And(n / 2, n / 2 - 1);
      if IsPowerOfTwo(n / 2) {
        var k: nat :| Pow2(k) == n / 2;
        assert Pow2(k + 1) == n;
      }
      if IsPowerOfTwo(n) {
        var k: nat :| Pow2(k) == n;
        assert Pow2(k - 1) == n / 2;
      }
    } else {
      AndSelf(n / 2);
      assert And(n, n - 1) == 2 * (n / 2);
      OddPower(n);
    }
  }

  /** An odd number above one is no power of two. */
  lemma {:induction false} OddPower(n: nat)
    requires n % 2 == 1 && n > 1
    ensures !IsPowerOfTwo(n)
  {
    forall k: nat ensures Pow2(k) != n {
      if k > 0 { assert Pow2(k) == 2 * Pow2(k - 1); }
    }
  }

  lemma {:induction false} AndSelf(n: nat)
    ensures And(n, n) == n
    decreases n
  {
    if n > 0 { AndSelf(n / 2); }
  }

  /** The number of digits grows from n - 1 to n exactly at the powers of two. */
  lemma {:induction false} DigitsStep(n: nat)
    requires n > 0
    ensures Digits(n) == Digits(n - 1) + (if And(n, n - 1) == 0 then 1 else 0)
    decreases n
  {
    if n % 2 == 0 {
      DigitsStep(n / 2);
      assert (n - 1) / 2 == n / 2 - 1;
    } else {
      AndSelf(n / 2);
      assert (n - 1) / 2 == n / 2;
    }
  }

  lemma {:induction false} DigitsBound(n: nat)
    requires n > 0
    ensures Digits(n) > 0 && Pow2(Digits(n) - 1) <= n <= Pow2(Digits(n)) - 1
    decreases n
  {
    if n > 1 { DigitsBound(n / 2); }
  }

  /** The heights of the two halves differ exactly when the power-of-two test says so. */
  lemma {:induction false} Halves(count: nat)
    requires count > 0
    ensures Digits(count / 2) == Digits((count - 1) / 2) + (if count > 1 && And(count, count - 1) == 0 then 1 else 0)
    ensures Digits(count) == 1 + Digits(count / 2)
  {
    if count % 2 == 0 {
      DigitsStep(count / 2);
      assert (count - 1) / 2 == count / 2 - 1;
      assert And(count, count - 1) == 2 * And(count / 2, count / 2 - 1);
    } else {
      AndSelf(count / 2);
      assert (count - 1) / 2 == count / 2;
    }
  }

  /** A subtree built from scratch: exact, with the given contents and the least height. */
  ghost predicate Built(t: Tree, node: Node?, values: seq<Elt>, S: set<Node>)
    reads Nodes(t)
  {
    && Root(t) == node && Linked(t, null) && Avl(t) && Distinct(t) && Nodes(t) == S
    && ValuesOf(t) == values && Size(t) == |values| && H(t) == Digits(|values|)
  }

  /** All of S has been freed, each node once. */
  ghost predicate AllFreed(freed: seq<Node>, S: set<Node>) {
    && (forall n :: n in freed ==> n in S) && (forall n :: n in S ==> n in freed)
    && forall i, j :: 0 <= i < j < |freed| ==> freed[i] != freed[j]
  }

  lemma {:induction false} FreedMore(a: seq<Node>, A: set<Node>, b: seq<Node>, B: set<Node>)
    requires AllFreed(a, A) && AllFreed(b, B) && A !! B
    ensures AllFreed(a + b, A + B)
  {
    var c := a + b;
    forall i, j | 0 <= i < j < |c| ensures c[i] != c[j] {
      if i < |a| <= j { assert c[i] in a && c[j] in b; }
    }
  }

  lemma {:induction false} FreedTree(t: Tree)
    requires Distinct(t)
    ensures AllFreed(PostOrder(t), Nodes(t))
  {
    var p := PostOrder(t);
    forall n | n in p ensures n in Nodes(t) { PostOrderNodes(t, n); }
    forall n | n in Nodes(t) ensures n in p { PostOrderNodes(t, n); }
    forall i, j | 0 <= i < j < |p| ensures p[i] != p[j] { PostOrderDistinct(t, i, j); }
  }

  /** Frees a subtree, children before their parent. */
  method FreeSubtree(node: Node, ghost t: Tree, ghost p: Node?, ghost S: set<Node>) returns (freed: seq<Node>)
    requires Root(t) == node && Linked(t, p) && Nodes(t) <= S
    ensures freed == PostOrder(t)
    decreases t
  {
    var a: seq<Node>, b: seq<Node> := [], [];
    if node.left != null { a := FreeSubtree(node.left, t.l, node, S); }
    if node.right != null { b := FreeSubtree(node.right, t.r, node, S); }
    freed := a + b + [node];
  }

  /** Of count requests one is refused: the first one or one of the others. */
  lemma {:induction false} RefusedFirst(memory: Answers, asked: nat, count: nat)
    requires count >= 1
    ensures Refused(memory, asked, asked + count) <==>
      !Granted(memory, asked) || Refused(memory, asked + 1, asked + 1 + (count - 1))
  {
  }

  /** Builds a subtree for count elements of contents from start on out of the nodes S. If the allocator
      refuses a request, it frees every node made so far and returns null. */
  method CreateSubtree(count: nat, contents: seq<Elt>, start: nat, memory: Answers, asked: nat)
      returns (node: Node?, now: nat, freed: seq<Node>, ghost t: Tree, ghost S: set<Node>)
    requires count >= 1 && start + count <= |contents|
    ensures node != null <==> !Refused(memory, asked, asked + count)
    ensures node != null ==> Built(t, node, contents[start..start + count], S) && freed == [] && now == asked + count
    ensures node == null ==> AllFreed(freed, S) && asked < now <= asked + count && !Granted(memory, now - 1)
    ensures fresh(S)
    decreases count, 1
  {
    hide Refused, Granted;
    RefusedFirst(memory, asked, count);
    freed, t, S, now := [], Leaf, {}, asked + 1;
    node := NewNode(contents[start + (count - 1) / 2], Granted(memory, asked));
    if node == null { return; }
    var ok, left, right; ghost var l, r, SL, SR;
    ok, left, right, now, freed, l, r, SL, SR := CreateBranches(count, contents, start, memory, now);
    S := SL + SR + {node};
    if !ok {
      FreedMore(freed, SL + SR, [node], {node});
      freed := freed + [node];
      node := null;
      return;
    }
    t := Br(l, node, r);
    Join(node, left, right, count, l, r, SL, SR, contents, start);
  }

  lemma {:induction false} SplitAt(s: seq<Elt>, a: nat, m: nat, b: nat)
    requires a <= m < b <= |s|
    ensures s[a..m] + [s[m]] + s[m + 1..b] == s[a..b]
  {
  }

  /** The two branches around the middle one of count elements; if the second one fails, the first one
      is freed. */
  method CreateBranches(count: nat, contents: seq<Elt>, start: nat, memory: Answers, asked: nat)
    returns (ok: bool, left: Node?, right: Node?, now: nat, freed: seq<Node>, ghost l: Tree, ghost r: Tree,
        ghost SL: set<Node>, ghost SR: set<Node>)
    requires count >= 1 && start + count <= |contents|
    ensures ok <==> !Refused(memory, asked, asked + count - 1)
    ensures ok ==> Built(l, left, contents[start..start + (count - 1) / 2], SL) && freed == []
    ensures ok ==> Built(r, right, contents[start + (count - 1) / 2 + 1..start + count], SR) && now == asked + count - 1
    ensures !ok ==> AllFreed(freed, SL + SR) && asked < now <= asked + count - 1 && !Granted(memory, now - 1)
    ensures SL !! SR && fresh(SL) && fresh(SR)
    decreases count, 0
  {
    hide Built;
    var half1, half2 := (count - 1) / 2, count / 2;
    right, r, SR := null, Leaf, {};
    left, now, freed, l, SL := CreateBranch(half1, contents, start, count, memory, asked);
    if half1 > 0 && left == null { return false, left, right, now, freed, l, r, SL, SR; }
    right, now, freed, r, SR := CreateBranch(half2, contents, start + half1 + 1, count, memory, now);
    ok := !(half2 > 0 && right == null);
    if !ok { freed := FreeLeft(left, freed, l, SL, SR); }
  }

  /** The right branch has failed, and what was made of it is freed; now the left one is. */
  method FreeLeft(left: Node?, freed0: seq<Node>, ghost l: Tree, ghost SL: set<Node>, ghost SR: set<Node>)
      returns (freed: seq<Node>)
    requires Root(l) == left && Linked(l, null) && Distinct(l) && Nodes(l) == SL && SL !! SR && AllFreed(freed0, SR)
    ensures AllFreed(freed, SL + SR)
  {
    freed := freed0;
    if left != null {
      var more := FreeSubtree(left, l, null, SL);
      FreedTree(l);
      FreedMore(freed0, SR, more, SL);
      freed := freed + more;
    }
  }

  /** A branch for count elements; none is built if there are no elements. */
  method CreateBranch(count: nat, contents: seq<Elt>, start: nat, ghost bound: nat, memory: Answers, asked: nat)
      returns (node: Node?, now: nat, freed: seq<Node>, ghost t: Tree, ghost S: set<Node>)
    requires start + count <= |contents| && count < bound
    ensures node != null || count == 0 <==> !Refused(memory, asked, asked + count)
    ensures node != null || count == 0 ==>
      Built(t, node, contents[start..start + count], S) && freed == [] && now == asked + count
    ensures node == null && count > 0 ==>
      AllFreed(freed, S) && asked < now <= asked + count && !Granted(memory, now - 1)
    ensures fresh(S)
    decreases count, 2
  {
    if count > 0 {
      node, now, freed, t, S := CreateSubtree(count, contents, start, memory, asked);
    } else {
      node, now, freed, t, S := null, asked, [], Leaf, {};
    }
  }

  /** Two built subtrees and an element between them, joined under node. */
  method Join(node: Node, left: Node?, right: Node?, count: nat, ghost l: Tree, ghost r: Tree, ghost SL: set<Node>,
      ghost SR: set<Node>,
              ghost contents: seq<Elt>, ghost start: nat)
    requires count >= 1 && start + count <= |contents| && node.value == contents[start + (count - 1) / 2]
        && node.parent == null
    requires Built(l, left, contents[start..start + (count - 1) / 2], SL)
        && Built(r, right, contents[start + (count - 1) / 2 + 1..start + count], SR)
    requires SL !! SR && node !in SL && node !in SR
    modifies node`left, node`right, node`balance, node`branchSize, NodeSet(left)`parent, NodeSet(right)`parent
    ensures Built(Br(l, node, r), node, contents[start..start + count], SL + SR + {node})
  {
    ghost var vl, vr := ValuesOf(l), ValuesOf(r);
    SplitAt(contents, start, start + (count - 1) / 2, start + count);
    assert vl + [node.value] + vr == contents[start..start + count];
    JoinShape(node, count, l, r, SL, SR);
    JoinFields(node, left, right, count, l, r, SL, SR);
    assert ValuesOf(l) == vl && ValuesOf(r) == vr;
  }

  lemma {:induction false} JoinShape(node: Node, count: nat, l: Tree, r: Tree, SL: set<Node>, SR: set<Node>)
    requires Avl(l) && Avl(r) && Distinct(l) && Distinct(r) && Nodes(l) <= SL && Nodes(r) <= SR
    requires SL !! SR && node !in SL && node !in SR && count >= 1
    requires Size(l) == (count - 1) / 2 && Size(r) == count / 2 && H(l) == Digits(Size(l)) && H(r) == Digits(Size(r))
    ensures Avl(Br(l, node, r)) && Distinct(Br(l, node, r)) && Nodes(Br(l, node, r)) <= SL + SR + {node}
    ensures Size(Br(l, node, r)) == count && H(Br(l, node, r)) == Digits(count)
    ensures H(r) - H(l) == (if count > 1 && And(count, count - 1) == 0 then 1 else 0)
  {
    Halves(count);
  }

  method JoinFields(node: Node, left: Node?, right: Node?, count: nat, ghost l: Tree, ghost r: Tree,
      ghost SL: set<Node>, ghost SR: set<Node>)
    requires left == Root(l) && right == Root(r) && Linked(l, null) && Linked(r, null) && Distinct(l) && Distinct(r)
    requires Nodes(l) <= SL && Nodes(r) <= SR && SL !! SR && node !in SL && node !in SR && node.parent == null
    requires H(r) - H(l) == (if count > 1 && And(count, count - 1) == 0 then 1 else 0) && count == Size(l) + 1 + Size(r)
    modifies node`left, node`right, node`balance, node`branchSize, NodeSet(left)`parent, NodeSet(right)`parent
    ensures Linked(Br(l, node, r), null)
  {
    JoinLinks(node, left, right, l, r, SL, SR);
    node.balance := if count > 1 && And(count, count - 1) == 0 then 1 else 0;
    node.branchSize := count;
    Hang(l, node, r, null);
  }

  method JoinLinks(node: Node, left: Node?, right: Node?, ghost l: Tree, ghost r: Tree, ghost SL: set<Node>,
      ghost SR: set<Node>)
    requires left == Root(l) && right == Root(r) && Linked(l, null) && Linked(r, null) && Distinct(l) && Distinct(r)
    requires Nodes(l) <= SL && Nodes(r) <= SR && SL !! SR && node !in SL && node !in SR
    modifies node`left, node`right, NodeSet(left)`parent, NodeSet(right)`parent
    ensures node.left == left && node.right == right && Linked(l, node) && Linked(r, node)
  {
    node.left := left;
    Rehang(left, l, null, node, SL);
    node.right := right;
    Rehang(right, r, null, node, SR);
  }

  /** Creates a list with the given contents: its tree has the least height for its size. It asks for
      the list and then for one node an element; if a request is refused, nothing is left. */
  method CreateList(contents: seq<Elt>, memory: Answers)
      returns (list: List?, freed: seq<Node>, ghost S: set<Node>)
    ensures list != null <==> !Refused(memory, 0, |contents| + 1)
    ensures list != null ==>
      fresh(list) && list.Valid() && ValuesOf(list.tree) == contents && Nodes(list.tree) == S && freed == []
    ensures list != null && |contents| > 0 ==>
      H(list.tree) > 0 && Pow2(H(list.tree) - 1) <= |contents| <= Pow2(H(list.tree)) - 1
    ensures list == null ==> AllFreed(freed, S)
    ensures fresh(S)
  {
    var root: Node? := null;
    ghost var t: Tree := Leaf;
    list, freed, S := null, [], {};
    if !Granted(memory, 0) { return; }
    if |contents| > 0 {
      var now;
      root, now, freed, t, S := CreateSubtree(|contents|, contents, 0, memory, 1);
      if root == null { return; }
      DigitsBound(|contents|);
      assert contents[0..|contents|] == contents;
    }
    list := new List(root, t);
  }
}
