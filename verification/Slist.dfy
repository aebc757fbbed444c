/** Singly linked lists that are relinked in place. */
module Slist {
  import opened SlistModel

  ghost function NodesOf(s: seq<Cell>): set<Node> {
    set i | 0 <= i < |s| :: s[i].node
  }

  ghost predicate Distinct(s: seq<Cell>) {
    forall i, j :: 0 <= i < j < |s| ==> s[i].node != s[j].node
  }

  ghost function FirstNode(s: seq<Cell>): Node? {
    if s == [] then null else s[0].node
  }

  ghost function LastNode(s: seq<Cell>): Node? {
    if s == [] then null else s[|s| - 1].node
  }

  /** The nodes hold their data and are linked in order; the link of the last one is not looked at. */
  ghost predicate Linked(s: seq<Cell>)
    reads NodesOf(s)
  {
    && (forall i :: 0 <= i < |s| ==> s[i].node.data == s[i].data)
    && (forall i :: 0 <= i < |s| - 1 ==> s[i].node.next == s[i + 1].node)
  }

  /** The list at p is s. */
  ghost predicate List(p: Node?, s: seq<Cell>)
    reads NodesOf(s)
  {
    p == FirstNode(s) && Distinct(s) && Linked(s) && (s != [] ==> s[|s| - 1].node.next == null)
  }

  lemma {:induction false} ListTail(p: Node?, s: seq<Cell>)
    requires List(p, s) && s != []
    ensures p != null && p in NodesOf(s) && p.data == s[0].data && List(p.next, s[1..])
    ensures NodesOf(s[1..]) == NodesOf(s) - {p} && p !in NodesOf(s[1..])
  {
    var t := s[1..];
    assert forall i :: 0 <= i < |t| ==> t[i] == s[i + 1];
    forall x | x in NodesOf(s) - {p} ensures x in NodesOf(t) {
      var i :| 0 <= i < |s| && s[i].node == x;
      assert t[i - 1].node == x;
    }
  }

  /** A list that is being built: its first node, and its last one, whose link is still to be set. */
  ghost predicate Building(head: Node?, last: Node?, m: seq<Cell>)
    reads NodesOf(m)
  {
    head == FirstNode(m) && last == LastNode(m) && Distinct(m) && Linked(m)
  }

  /** Sets the link after last, which is the head if nothing is built yet. */
  method SetLink(head: Node?, last: Node?, x: Node?) returns (h: Node?)
    modifies (if last == null then {} else {last})`next
    ensures last == null ==> h == x
    ensures last != null ==> h == head && last.next == x
  {
    h := head;
    if last == null {
      h := x;
    } else {
      last.next := x;
    }
  }

  lemma {:induction false} Extend(m: seq<Cell>, c: Cell)
    requires Distinct(m) && c.node !in NodesOf(m)
    ensures Distinct(m + [c]) && NodesOf(m + [c]) == NodesOf(m) + {c.node}
  {
    var n := m + [c];
    forall x | x in NodesOf(m) + {c.node} ensures x in NodesOf(n) {
      if x == c.node {
        assert n[|m|].node == x;
      } else {
        var i :| 0 <= i < |m| && m[i].node == x;
        assert n[i].node == x;
      }
    }
  }

  /** Adds the node c at the end of the list that is being built. */
  method Append(head: Node?, last: Node?, c: Node, ghost m: seq<Cell>) returns (h: Node?)
    requires Building(head, last, m) && c !in NodesOf(m)
    modifies (if last == null then {} else {last})`next
    ensures Building(h, c, m + [Cell(c, c.data)])
  {
    Extend(m, Cell(c, c.data));
    h := SetLink(head, last, c);
  }

  /** Ends the list that is being built. */
  method Close(head: Node?, last: Node?, ghost m: seq<Cell>) returns (h: Node?)
    requires Building(head, last, m)
    modifies (if last == null then {} else {last})`next
    ensures List(h, m)
  {
    h := SetLink(head, last, null);
  }

  /** The state of a merge: m is merged, l and r are left. */
  ghost predicate Merging(head: Node?, last: Node?, m: seq<Cell>, left: Node?, l: seq<Cell>, right: Node?, r: seq<Cell>)
    reads NodesOf(m), NodesOf(l), NodesOf(r)
  {
    && Building(head, last, m) && List(left, l) && List(right, r)
    && NodesOf(m) !! NodesOf(l) && NodesOf(m) !! NodesOf(r) && NodesOf(l) !! NodesOf(r)
  }

  /** The first node of left goes to the end of what is merged. */
  method TakeLeft(head: Node?, last: Node?, ghost m: seq<Cell>, left: Node, ghost l: seq<Cell>, right: Node?,
      ghost r: seq<Cell>)
    returns (h: Node?, rest: Node?)
    requires Merging(head, last, m, left, l, right, r) && l != []
    modifies NodesOf(m)`next
    ensures Merging(h, left, m + [l[0]], rest, l[1..], right, r)
    ensures NodesOf(m + [l[0]]) + NodesOf(l[1..]) == NodesOf(m) + NodesOf(l)
  {
    ListTail(left, l);
    Extend(m, l[0]);
    h := Append(head, last, left, m);
    rest := left.next;
  }

  lemma {:induction false} Swap(head: Node?, last: Node?, m: seq<Cell>, left: Node?, l: seq<Cell>, right: Node?,
      r: seq<Cell>)
    requires Merging(head, last, m, left, l, right, r)
    ensures Merging(head, last, m, right, r, left, l)
  {
  }

  /** One step of a merge: the head of left if it is not after that of right. */
  method MergeStep(head: Node?, last: Node?, ghost m: seq<Cell>, left: Node?, ghost l: seq<Cell>, right: Node?,
      ghost r: seq<Cell>, cmp: Compare)
    returns (h: Node?, t: Node?, ghost n: seq<Cell>, left1: Node?, ghost l1: seq<Cell>, right1: Node?,
        ghost r1: seq<Cell>)
    requires Merging(head, last, m, left, l, right, r) && (left != null || right != null)
    modifies NodesOf(m)`next
    ensures Merging(h, t, n, left1, l1, right1, r1) && |l1| + |r1| < |l| + |r|
    ensures n + Merged(l1, r1, cmp) == m + Merged(l, r, cmp)
    ensures NodesOf(n) + NodesOf(l1) + NodesOf(r1) == NodesOf(m) + NodesOf(l) + NodesOf(r)
  {
    hide NodesOf, Distinct;
    left1, l1, right1, r1 := left, l, right, r;
    if left != null && (right == null || AtMost(cmp, left.data, right.data)) {
      h, left1 := TakeLeft(head, last, m, left, l, right, r);
      t, n, l1 := left, m + [l[0]], l[1..];
      MergedOne(m, l[0], Merged(l[1..], r, cmp));
      if r == [] { MergedNone(l[1..], cmp); }
    } else {
      Swap(head, last, m, left, l, right, r);
      h, right1 := TakeLeft(head, last, m, right, r, left, l);
      t, n, r1 := right, m + [r[0]], r[1..];
      Swap(h, t, n, right1, r1, left1, l1);
      MergedOne(m, r[0], Merged(l, r[1..], cmp));
    }
  }

  lemma {:induction false} MergedOne(m: seq<Cell>, c: Cell, rest: seq<Cell>)
    ensures m + [c] + rest == m + ([c] + rest)
  {
  }

  lemma {:induction false} MergedNone(l: seq<Cell>, cmp: Compare)
    ensures Merged(l, [], cmp) == l
  {
  }

  /** Merges two sorted lists into one, with the nodes that they have. */
  method Merge(left: Node?, ghost l: seq<Cell>, right: Node?, ghost r: seq<Cell>, cmp: Compare) returns (new_: Node?)
    requires List(left, l) && List(right, r) && NodesOf(l) !! NodesOf(r)
    modifies NodesOf(l)`next, NodesOf(r)`next
    ensures List(new_, Merged(l, r, cmp)) && NodesOf(Merged(l, r, cmp)) == NodesOf(l) + NodesOf(r)
  {
    var last: Node? := null;
    new_ := null;
    ghost var m, l1, r1 := [], l, r;
    var p, q := left, right;
    MergeStart(left, l, right, r, cmp);
    while p != null || q != null
      invariant Merging(new_, last, m, p, l1, q, r1) && Progress(m, l1, r1, l, r, cmp)
      decreases |l1| + |r1|
    {
      new_, last, m, p, l1, q, r1 := MergeStep(new_, last, m, p, l1, q, r1, cmp);
    }
    MergeEnd(m, l1, r1, l, r, cmp);
    new_ := Close(new_, last, m);
  }

  /** What is merged, followed by the merge of what is left, is the merge of the lists. */
  ghost predicate Progress(m: seq<Cell>, l1: seq<Cell>, r1: seq<Cell>, l: seq<Cell>, r: seq<Cell>, cmp: Compare) {
    && m + Merged(l1, r1, cmp) == Merged(l, r, cmp)
    && NodesOf(m) + NodesOf(l1) + NodesOf(r1) == NodesOf(l) + NodesOf(r)
  }

  lemma {:induction false} MergeStart(left: Node?, l: seq<Cell>, right: Node?, r: seq<Cell>, cmp: Compare)
    requires List(left, l) && List(right, r) && NodesOf(l) !! NodesOf(r)
    ensures Merging(null, null, [], left, l, right, r) && Progress([], l, r, l, r, cmp)
  {
  }

  lemma {:induction false} MergeEnd(m: seq<Cell>, l1: seq<Cell>, r1: seq<Cell>, l: seq<Cell>, r: seq<Cell>,
      cmp: Compare)
    requires Progress(m, l1, r1, l, r, cmp) && l1 == [] && r1 == []
    ensures m == Merged(l, r, cmp) && NodesOf(m) == NodesOf(l) + NodesOf(r)
  {
    assert Merged(l1, r1, cmp) == [];
    assert m + [] == m;
  }

  /** The state of dealing a list out: a and b are dealt, s is left. */
  ghost predicate Dealing(left: Node?, leftLast: Node?, a: seq<Cell>, right: Node?, rightLast: Node?, b: seq<Cell>,
      list: Node?, s: seq<Cell>)
    reads NodesOf(a), NodesOf(b), NodesOf(s)
  {
    && Building(left, leftLast, a) && Building(right, rightLast, b) && List(list, s)
    && NodesOf(a) !! NodesOf(b) && NodesOf(a) !! NodesOf(s) && NodesOf(b) !! NodesOf(s)
  }

  /** The first node of the list goes to the end of what is dealt to the left. */
  method Deal(left: Node?, leftLast: Node?, ghost a: seq<Cell>, right: Node?, rightLast: Node?, ghost b: seq<Cell>,
      list: Node, ghost s: seq<Cell>)
    returns (h: Node?, rest: Node?)
    requires Dealing(left, leftLast, a, right, rightLast, b, list, s) && s != []
    modifies NodesOf(a)`next
    ensures Dealing(h, list, a + [s[0]], right, rightLast, b, rest, s[1..])
    ensures NodesOf(a + [s[0]]) + NodesOf(s[1..]) == NodesOf(a) + NodesOf(s)
  {
    ListTail(list, s);
    Extend(a, s[0]);
    rest := list.next;
    h := Append(left, leftLast, list, a);
  }

  lemma {:induction false} DealSwap(left: Node?, leftLast: Node?, a: seq<Cell>, right: Node?, rightLast: Node?,
      b: seq<Cell>, list: Node?, s: seq<Cell>)
    requires Dealing(left, leftLast, a, right, rightLast, b, list, s)
    ensures Dealing(right, rightLast, b, left, leftLast, a, list, s)
  {
  }

  /** What is dealt, followed by the halves of what is left, are the halves of the list. */
  ghost predicate Halves(a: seq<Cell>, b: seq<Cell>, t: seq<Cell>, s: seq<Cell>) {
    && a + Evens(t) == Evens(s) && b + Odds(t) == Odds(s)
    && NodesOf(a) + NodesOf(b) + NodesOf(t) == NodesOf(s)
  }

  lemma {:induction false} FirstTwo(t: seq<Cell>)
    requires t != []
    ensures |t| == 1 ==> Evens(t) == [t[0]] && Odds(t) == [] && Evens(t[1..]) == [] && Odds(t[1..]) == []
    ensures |t| > 1 ==> Evens(t) == [t[0]] + Evens(t[1..][1..]) && Odds(t) == [t[1]] + Odds(t[1..][1..])
  {
    if |t| > 1 { assert t[1..][1..] == t[2..]; }
  }

  lemma {:induction false} HalvesStep(a: seq<Cell>, b: seq<Cell>, t: seq<Cell>, s: seq<Cell>)
    requires t != [] && a + Evens(t) == Evens(s) && b + Odds(t) == Odds(s)
    ensures |t| == 1 ==> a + [t[0]] + Evens(t[1..]) == Evens(s) && b + Odds(t[1..]) == Odds(s)
    ensures |t| > 1 ==> a + [t[0]] + Evens(t[1..][1..]) == Evens(s) && b + [t[1]] + Odds(t[1..][1..]) == Odds(s)
  {
    FirstTwo(t);
    if |t| > 1 {
      MergedOne(a, t[0], Evens(t[1..][1..]));
      MergedOne(b, t[1], Odds(t[1..][1..]));
    } else {
      MergedOne(a, t[0], Evens(t[1..]));
    }
  }

  /** Deals one or two nodes, the first to the left and the second to the right. */
  method DealTwo(left: Node?, leftLast: Node?, ghost a: seq<Cell>, right: Node?, rightLast: Node?, ghost b: seq<Cell>,
      list: Node, ghost t: seq<Cell>, ghost s: seq<Cell>)
    returns (l: Node?, ll: Node?, ghost a1: seq<Cell>, r: Node?, rl: Node?, ghost b1: seq<Cell>, rest: Node?,
        ghost t1: seq<Cell>)
    requires Dealing(left, leftLast, a, right, rightLast, b, list, t) && t != [] && Halves(a, b, t, s)
    modifies NodesOf(a)`next, NodesOf(b)`next
    ensures Dealing(l, ll, a1, r, rl, b1, rest, t1) && |t1| < |t| && Halves(a1, b1, t1, s)
  {
    hide Linked, NodesOf, Evens;
    HalvesStep(a, b, t, s);
    l, rest := Deal(left, leftLast, a, right, rightLast, b, list, t);
    ll, a1, r, rl, b1, t1 := list, a + [t[0]], right, rightLast, b, t[1..];
    if rest != null {
      DealSwap(l, ll, a1, r, rl, b1, rest, t1);
      var list2 := rest;
      r, rest := Deal(right, rightLast, b, l, ll, a1, list2, t1);
      rl, b1, t1 := list2, b + [t1[0]], t1[1..];
      DealSwap(r, rl, b1, l, ll, a1, rest, t1);
    }
  }

  /** Breaks a list into two, dealing the nodes out in turn. */
  method Split(list: Node?, ghost s: seq<Cell>) returns (left: Node?, right: Node?)
    requires List(list, s)
    modifies NodesOf(s)`next
    ensures List(left, Evens(s)) && List(right, Odds(s)) && NodesOf(Evens(s)) !! NodesOf(Odds(s))
    ensures NodesOf(Evens(s)) + NodesOf(Odds(s)) == NodesOf(s)
  {
    var leftLast: Node?, rightLast: Node? := null, null;
    left, right := null, null;
    ghost var a, b, t := [], [], s;
    var p := list;
    while p != null
      invariant Dealing(left, leftLast, a, right, rightLast, b, p, t) && Halves(a, b, t, s)
      decreases |t|
    {
      left, leftLast, a, right, rightLast, b, p, t := DealTwo(left, leftLast, a, right, rightLast, b, p, t, s);
    }
    DealEnd(a, b, t, s);
    left, right := CloseBoth(left, leftLast, a, right, rightLast, b);
  }

  method CloseBoth(left: Node?, leftLast: Node?, ghost a: seq<Cell>, right: Node?, rightLast: Node?,
      ghost b: seq<Cell>) returns (l: Node?, r: Node?)
    requires Building(left, leftLast, a) && Building(right, rightLast, b) && NodesOf(a) !! NodesOf(b)
    modifies NodesOf(a)`next, NodesOf(b)`next
    ensures List(l, a) && List(r, b)
  {
    l := Close(left, leftLast, a);
    r := Close(right, rightLast, b);
  }

  lemma {:induction false} DealEnd(a: seq<Cell>, b: seq<Cell>, t: seq<Cell>, s: seq<Cell>)
    requires Halves(a, b, t, s) && t == []
    ensures a == Evens(s) && b == Odds(s) && NodesOf(a) + NodesOf(b) == NodesOf(s)
  {
    assert a + [] == a && b + [] == b;
  }

  /** Sorts a list in place: the same nodes, sorted. */
  method SortList(list: Node?, ghost s: seq<Cell>, cmp: Compare) returns (sorted: Node?)
    requires List(list, s)
    modifies NodesOf(s)`next
    ensures List(sorted, Sort(s, cmp)) && NodesOf(Sort(s, cmp)) == NodesOf(s)
    decreases |s|
  {
    if list == null || list.next == null { return list; }
    var left, right := Split(list, s);
    left := SortList(left, Evens(s), cmp);
    right := SortList(right, Odds(s), cmp);
    sorted := Merge(left, Sort(Evens(s), cmp), right, Sort(Odds(s), cmp), cmp);
  }
}
