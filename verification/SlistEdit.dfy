/** Reversing, joining, inserting into and removing from lists. */
module SlistEdit {
  import opened SlistModel
  import opened Slist

  function Reversed(s: seq<Cell>): (r: seq<Cell>)
    ensures |r| == |s|
  {
    if s == [] then [] else Reversed(s[1..]) + [s[0]]
  }

  lemma {:induction false} ReversedAt(s: seq<Cell>, i: nat)
    requires i < |s|
    ensures Reversed(s)[i] == s[|s| - 1 - i]
    decreases s
  {
    if i < |s| - 1 { ReversedAt(s[1..], i); }
  }

  lemma {:induction false} Prepended(p: Node, c: Cell, next: Node?, s: seq<Cell>)
    requires List(next, s) && p == c.node && p.data == c.data && p.next == next && p !in NodesOf(s)
    ensures List(p, [c] + s) && NodesOf([c] + s) == NodesOf(s) + {p}
  {
    var t := [c] + s;
    assert forall i :: 0 <= i < |s| ==> s[i] == t[i + 1];
    forall x | x in NodesOf(s) + {p} ensures x in NodesOf(t) {
      if x == p {
        assert t[0].node == x;
      } else {
        var i :| 0 <= i < |s| && s[i].node == x;
        assert t[i + 1].node == x;
      }
    }
  }

  /** Puts the first node of list in front of prev. */
  method Turn(prev: Node?, ghost a: seq<Cell>, list: Node, ghost t: seq<Cell>) returns (rest: Node?)
    requires List(prev, a) && List(list, t) && t != [] && NodesOf(a) !! NodesOf(t)
    modifies list`next
    ensures List(list, [t[0]] + a) && List(rest, t[1..]) && NodesOf([t[0]] + a) !! NodesOf(t[1..])
    ensures NodesOf([t[0]] + a) + NodesOf(t[1..]) == NodesOf(a) + NodesOf(t)
  {
    ListTail(list, t);
    rest := list.next;
    list.next := prev;
    Prepended(list, t[0], prev, a);
  }

  /** Reverses a list in place. */
  method Reverse(list: Node?, ghost s: seq<Cell>) returns (prev: Node?)
    requires List(list, s)
    modifies NodesOf(s)`next
    ensures List(prev, Reversed(s))
  {
    hide List, Reversed;
    prev := null;
    var p := list;
    ghost var a, t := [], s;
    ReversedEnds(list, s);
    while p != null
      invariant List(prev, a) && List(p, t) && NodesOf(a) !! NodesOf(t) && NodesOf(a) + NodesOf(t) == NodesOf(s)
      invariant Reversed(t) + a == Reversed(s)
      decreases |t|
    {
      ReversedNext(p, t, a);
      var next := Turn(prev, a, p, t);
      a, t := [t[0]] + a, t[1..];
      prev := p;
      p := next;
    }
    ReversedDone(p, t, a);
  }

  lemma {:induction false} ReversedEnds(p: Node?, s: seq<Cell>)
    ensures List(null, []) && NodesOf([]) == {} && Reversed(s) + [] == Reversed(s)
  {
  }

  lemma {:induction false} ReversedNext(p: Node, t: seq<Cell>, a: seq<Cell>)
    requires List(p, t)
    ensures t != [] && p in NodesOf(t) && Reversed(t[1..]) + ([t[0]] + a) == Reversed(t) + a
  {
    ListTail(p, t);
    assert Reversed(t[1..]) + [t[0]] + a == Reversed(t[1..]) + ([t[0]] + a);
  }

  lemma {:induction false} ReversedDone(p: Node?, t: seq<Cell>, a: seq<Cell>)
    requires List(p, t) && p == null
    ensures Reversed(t) + a == a
  {
  }

  /** The nodes of s are linked in order from p on, and the last one is linked to q. */
  ghost predicate Reaches(p: Node?, s: seq<Cell>, q: Node?)
    reads NodesOf(s)
  {
    p == FirstNode(s) && Distinct(s) && Linked(s) && (s != [] ==> s[|s| - 1].node.next == q)
  }

  /** The list s with the part after i replaced by t: what is left to check are the links around i. */
  lemma {:induction false} JoinedAt(p: Node?, s: seq<Cell>, q: Node?, t: seq<Cell>, z: Node?)
    requires Reaches(p, s, q) && s != [] && Reaches(q, t, z) && (t == [] ==> z == null)
    requires NodesOf(s) !! NodesOf(t)
    ensures Reaches(p, s + t, z)
  {
    var u := s + t;
    forall i, j | 0 <= i < j < |u| ensures u[i].node != u[j].node {
      if i < |s| <= j {
        assert s[i].node in NodesOf(s) && t[j - |s|].node in NodesOf(t);
      } else if i >= |s| {
        assert t[i - |s|].node != t[j - |s|].node;
      }
    }
  }

  /** The last node of a list. */
  method LastOf(list: Node, ghost s: seq<Cell>) returns (l: Node)
    requires List(list, s)
    ensures s != [] && l == s[|s| - 1].node
  {
    l := list;
    ghost var i := 0;
    while l.next != null
      invariant i < |s| && l == s[i].node
      decreases |s| - i
    {
      l := l.next;
      i := i + 1;
    }
    assert i + 1 < |s| ==> s[i].node.next == s[i + 1].node;
  }

  /** Attaches a list to the end of another one. */
  method Concat(list1: Node?, ghost s: seq<Cell>, list2: Node?, ghost t: seq<Cell>) returns (list: Node?)
    requires List(list1, s) && List(list2, t) && NodesOf(s) !! NodesOf(t)
    modifies NodesOf(s)`next
    ensures List(list, s + t)
  {
    assert s + [] == s && [] + t == t;
    if list2 == null { return list1; }
    if list1 == null { return list2; }
    var l := LastOf(list1, s);
    l.next := list2;
    JoinedAt(list1, s, list2, t, null);
    list := list1;
  }

  /** The first k nodes, and the list of the others. */
  lemma {:induction false} CutAt(p: Node?, s: seq<Cell>, k: nat)
    requires List(p, s) && 0 < k <= |s|
    ensures Distinct(s[..k]) && Linked(s[..k]) && FirstNode(s[..k]) == p && List(s[k - 1].node.next, s[k..])
    ensures NodesOf(s[..k]) !! NodesOf(s[k..]) && NodesOf(s[..k]) <= NodesOf(s) && NodesOf(s[k..]) <= NodesOf(s)
  {
    var a, b := s[..k], s[k..];
    assert forall i :: 0 <= i < |b| ==> b[i] == s[k + i];
    forall x | x in NodesOf(a) ensures x in NodesOf(s) {
      var i :| 0 <= i < k && s[i].node == x;
    }
    forall x | x in NodesOf(b) ensures x in NodesOf(s) && x !in NodesOf(a) {
      var i :| 0 <= i < |b| && b[i].node == x;
      assert s[k + i].node == x;
    }
  }

  /** The index of a node, or the length for what is no node of the list. */
  ghost predicate Position(s: seq<Cell>, before: Node?, k: nat) {
    k <= |s| && if k < |s| then before == s[k].node else before !in NodesOf(s)
  }

  /** The node before the one at k. */
  method Before(list: Node, ghost s: seq<Cell>, before: Node?, ghost k: nat) returns (iter: Node)
    requires List(list, s) && k > 0 && Position(s, before, k)
    ensures iter == s[k - 1].node
  {
    iter := list;
    ghost var i := 0;
    while iter.next != null && iter.next != before
      invariant i < k && iter == s[i].node
      decreases |s| - i
    {
      iter := iter.next;
      i := i + 1;
    }
    assert i + 1 < |s| ==> s[i].node.next == s[i + 1].node && s[i + 1].node in NodesOf(s);
  }

  /** Inserts data before the node at k, or at the end; what is no node of the list comes after the new
      node then, unless the list was empty. If memory is short, the list stays as it was. */
  method InsertBefore(list: Node?, ghost s: seq<Cell>, before: Node?, ghost k: nat, data: int,
      granted: bool)
    returns (r: Node?, ghost ent: Node?)
    requires List(list, s) && Position(s, before, k)
    modifies NodesOf(s)`next
    ensures ent != null <==> granted
    ensures ent == null ==> r == list && List(r, s)
    ensures ent != null ==> fresh(ent)
    ensures ent != null ==>
      Reaches(r, s[..k] + [Cell(ent, data)] + s[k..], if k == |s| && s != [] then before else null)
  {
    if !granted { return list, null; }
    var e := new Node(data);
    ent := e;
    if list == null {
      Prepended(e, Cell(e, data), null, []);
      assert s[..k] + [Cell(e, data)] + s[k..] == [Cell(e, data)] + [];
      return e, ent;
    }
    e.next := before;
    if before == list {
      Prepended(e, Cell(e, data), before, s);
      assert s[..k] + [Cell(e, data)] + s[k..] == [Cell(e, data)] + s;
      return e, ent;
    }
    InsertAfter(list, s, before, k, e);
    r := list;
  }

  /** Links a new node in before the one at k, which is not the first, or at the end. */
  method InsertAfter(list: Node, ghost s: seq<Cell>, before: Node?, ghost k: nat, e: Node)
    requires List(list, s) && k > 0 && Position(s, before, k)
    requires e !in NodesOf(s) && e.next == before
    modifies NodesOf(s)`next
    ensures Reaches(list, s[..k] + [Cell(e, e.data)] + s[k..], if k == |s| then before else null)
  {
    var iter := Before(list, s, before, k);
    ghost var c := Cell(e, e.data);
    CutAt(list, s, k);
    iter.next := e;
    if k < |s| {
      Prepended(e, c, before, s[k..]);
    } else {
      assert s[k..] == [] && [c] + s[k..] == [c];
    }
    JoinedAt(list, s[..k], e, [c] + s[k..], if k == |s| then before else null);
    assert s[..k] + [c] + s[k..] == s[..k] + ([c] + s[k..]);
  }

  /** Removes the first node with the given data, if there is one. */
  method Remove(list: Node?, ghost s: seq<Cell>, data: int) returns (r: Node?, ghost i: nat)
    requires List(list, s)
    modifies NodesOf(s)`next
    ensures i <= |s| && forall j :: 0 <= j < i ==> s[j].data != data
    ensures i == |s| ==> r == list && List(r, s)
    ensures i < |s| ==> s[i].data == data && List(r, s[..i] + s[i + 1..])
  {
    var prev: Node?, ent := null, list;
    i := 0;
    while ent != null && ent.data != data
      invariant i <= |s| && ent == (if i < |s| then s[i].node else null)
      invariant prev == (if i == 0 then null else s[i - 1].node)
      invariant forall j :: 0 <= j < i ==> s[j].data != data
      decreases |s| - i
    {
      prev := ent;
      ent := ent.next;
      i := i + 1;
    }
    r := list;
    if ent != null {
      r := Unlink(list, s, prev, ent, i);
    }
  }

  method Unlink(list: Node, ghost s: seq<Cell>, prev: Node?, ent: Node, ghost i: nat) returns (r: Node?)
    requires List(list, s) && i < |s| && ent == s[i].node && prev == (if i == 0 then null else s[i - 1].node)
    modifies NodesOf(s)`next
    ensures List(r, s[..i] + s[i + 1..])
  {
    CutAt(list, s, i + 1);
    if prev == null {
      r := ent.next;
      assert s[..0] + s[1..] == s[1..];
    } else {
      CutAt(list, s, i);
      TailOf(s[i..], s[i + 1..]);
      prev.next := ent.next;
      r := list;
      JoinedAt(list, s[..i], ent.next, s[i + 1..], null);
    }
  }

  lemma {:induction false} TailOf(a: seq<Cell>, b: seq<Cell>)
    requires a != [] && b == a[1..]
    ensures NodesOf(b) <= NodesOf(a)
  {
    forall x | x in NodesOf(b) ensures x in NodesOf(a) {
      var j :| 0 <= j < |b| && b[j].node == x;
      assert a[j + 1].node == x;
    }
  }
}
