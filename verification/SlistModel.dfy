/** Sorting a sequence of list elements by merging. */
module SlistModel {

  class Node {
    var data: int
    var next: Node?

    constructor (data: int)
      ensures this.data == data && next == null
    {
      this.data, next := data, null;
    }
  }

  /** A list element with its data. */
  datatype Cell = Cell(node: Node, data: int)

  /** Negative, zero or positive, as the first is before, equal to or after the second. */
  type Compare = (int, int) -> int

  predicate AtMost(cmp: Compare, a: int, b: int) { cmp(a, b) <= 0 }

  /** A total preorder. */
  ghost predicate Preorder(cmp: Compare) {
    && (forall a, b {:trigger AtMost(cmp, a, b)} :: AtMost(cmp, a, b) || AtMost(cmp, b, a))
    && (forall a, b, c {:trigger AtMost(cmp, a, b), AtMost(cmp, b, c)} ::
          AtMost(cmp, a, b) && AtMost(cmp, b, c) ==> AtMost(cmp, a, c))
  }

  ghost predicate Sorted(s: seq<Cell>, cmp: Compare) {
    forall i, j :: 0 <= i < j < |s| ==> AtMost(cmp, s[i].data, s[j].data)
  }

  function Merged(l: seq<Cell>, r: seq<Cell>, cmp: Compare): (m: seq<Cell>)
    ensures |m| == |l| + |r|
    decreases |l| + |r|
  {
    if l == [] then r
    else if r == [] then l
    else if AtMost(cmp, l[0].data, r[0].data) then [l[0]] + Merged(l[1..], r, cmp)
    else [r[0]] + Merged(l, r[1..], cmp)
  }

  function Evens(s: seq<Cell>): (e: seq<Cell>)
    ensures 2 * |e| == |s| || 2 * |e| == |s| + 1
    decreases s
  {
    if s == [] then [] else [s[0]] + (if |s| == 1 then [] else Evens(s[2..]))
  }

  function Odds(s: seq<Cell>): (o: seq<Cell>)
    ensures 2 * |o| == |s| || 2 * |o| + 1 == |s|
    decreases s
  {
    if |s| < 2 then [] else [s[1]] + Odds(s[2..])
  }

  function Sort(s: seq<Cell>, cmp: Compare): (r: seq<Cell>)
    ensures |r| == |s|
    decreases |s|
  {
    if |s| < 2 then s
    else
      Dealt(s);
      Merged(Sort(Evens(s), cmp), Sort(Odds(s), cmp), cmp)
  }

  /** Two elements change places exactly if the first one compares greater. */
  lemma {:induction false} SortTwo(a: Cell, b: Cell, cmp: Compare)
    ensures Sort([a, b], cmp) == if cmp(a.data, b.data) > 0 then [b, a] else [a, b]
  {
    var s := [a, b];
    assert s[2..] == [];
    assert Evens(s) == [a] && Odds(s) == [b];
    assert Sort(s, cmp) == Merged(Sort([a], cmp), Sort([b], cmp), cmp) == Merged([a], [b], cmp);
    assert [a][1..] == [] && [b][1..] == [];
    assert Merged([], [b], cmp) == [b] && Merged([a], [], cmp) == [a];
  }

  /** Every element goes to one of the halves. */
  lemma {:induction false} DealOnce(s: seq<Cell>)
    ensures |s| < 2 ==> Evens(s) == s && Odds(s) == []
    ensures |s| >= 2 ==> Evens(s) == [s[0]] + Evens(s[2..]) && Odds(s) == [s[1]] + Odds(s[2..])
    ensures |s| >= 2 ==> s == [s[0], s[1]] + s[2..]
  {
  }

  lemma {:induction false} DealtTwo(a: Cell, b: Cell, x: seq<Cell>, y: seq<Cell>, t: seq<Cell>)
    requires multiset(x) + multiset(y) == multiset(t)
    ensures multiset([a] + x) + multiset([b] + y) == multiset([a, b] + t)
  {
    assert multiset([a] + x) + multiset([b] + y) == multiset{a, b} + (multiset(x) + multiset(y));
    assert multiset([a, b] + t) == multiset{a, b} + multiset(t);
  }

  lemma {:induction false} Dealt(s: seq<Cell>)
    ensures multiset(Evens(s)) + multiset(Odds(s)) == multiset(s) && |Evens(s)| + |Odds(s)| == |s|
    decreases s
  {
    hide Evens, Odds;
    DealOnce(s);
    if |s| >= 2 {
      Dealt(s[2..]);
      DealtTwo(s[0], s[1], Evens(s[2..]), Odds(s[2..]), s[2..]);
    }
  }

  lemma {:induction false} ConsContents(a: Cell, m: seq<Cell>, s: seq<Cell>, t: seq<Cell>)
    requires multiset(m) == multiset(s) + multiset(t)
    ensures multiset([a] + m) == multiset([a] + s) + multiset(t)
  {
  }

  lemma {:induction false} MergedContents(l: seq<Cell>, r: seq<Cell>, cmp: Compare)
    ensures multiset(Merged(l, r, cmp)) == multiset(l) + multiset(r)
    decreases |l| + |r|
  {
    if l != [] && r != [] {
      if AtMost(cmp, l[0].data, r[0].data) {
        MergedContents(l[1..], r, cmp);
        ConsContents(l[0], Merged(l[1..], r, cmp), l[1..], r);
        assert l == [l[0]] + l[1..];
      } else {
        MergedContents(l, r[1..], cmp);
        ConsContents(r[0], Merged(l, r[1..], cmp), r[1..], l);
        assert r == [r[0]] + r[1..];
      }
    }
  }

  lemma {:induction false} SortedTail(s: seq<Cell>, cmp: Compare)
    requires s != [] && Sorted(s, cmp)
    ensures Sorted(s[1..], cmp) && forall x :: x in s[1..] ==> AtMost(cmp, s[0].data, x.data)
  {
  }

  lemma {:induction false} SortedCons(x: Cell, s: seq<Cell>, cmp: Compare)
    requires Sorted(s, cmp) && forall y :: y in s ==> AtMost(cmp, x.data, y.data)
    ensures Sorted([x] + s, cmp)
  {
  }

  /** Merging sorted lists gives a sorted list. */
  lemma {:induction false} MergedSorted(l: seq<Cell>, r: seq<Cell>, cmp: Compare)
    requires Preorder(cmp) && Sorted(l, cmp) && Sorted(r, cmp)
    ensures Sorted(Merged(l, r, cmp), cmp)
    decreases |l| + |r|
  {
    if l != [] && r != [] {
      SortedTail(l, cmp);
      SortedTail(r, cmp);
      if AtMost(cmp, l[0].data, r[0].data) {
        MergedSorted(l[1..], r, cmp);
        Least(l[0], l[1..], r, cmp);
        SortedCons(l[0], Merged(l[1..], r, cmp), cmp);
      } else {
        MergedSorted(l, r[1..], cmp);
        assert AtMost(cmp, r[0].data, l[0].data) by { assert !AtMost(cmp, l[0].data, r[0].data); }
        Least(r[0], r[1..], l, cmp);
        MergedContents(l, r[1..], cmp);
        MergedContents(r[1..], l, cmp);
        SameElements(r[0], Merged(r[1..], l, cmp), Merged(l, r[1..], cmp), cmp);
        SortedCons(r[0], Merged(l, r[1..], cmp), cmp);
      }
    }
  }

  lemma {:induction false} SameElements(x: Cell, a: seq<Cell>, b: seq<Cell>, cmp: Compare)
    requires multiset(a) == multiset(b) && forall y :: y in a ==> AtMost(cmp, x.data, y.data)
    ensures forall y :: y in b ==> AtMost(cmp, x.data, y.data)
  {
    forall y | y in b ensures y in a { assert y in multiset(b); }
  }

  lemma {:induction false} Least(x: Cell, l: seq<Cell>, r: seq<Cell>, cmp: Compare)
    requires Preorder(cmp) && (forall y :: y in l ==> AtMost(cmp, x.data, y.data))
    requires r != [] && AtMost(cmp, x.data, r[0].data) && forall y :: y in r[1..] ==> AtMost(cmp, r[0].data, y.data)
    ensures forall y :: y in Merged(l, r, cmp) ==> AtMost(cmp, x.data, y.data)
  {
    MergedContents(l, r, cmp);
    forall y | y in Merged(l, r, cmp) ensures AtMost(cmp, x.data, y.data) {
      assert y in multiset(l) + multiset(r);
      if y !in l {
        assert y in r;
        if y != r[0] {
          assert r == [r[0]] + r[1..];
          assert AtMost(cmp, r[0].data, y.data);
        }
      }
    }
  }

  /** The result of sorting is sorted, and has the same elements. */
  lemma {:induction false} SortSorts(s: seq<Cell>, cmp: Compare)
    ensures multiset(Sort(s, cmp)) == multiset(s)
    ensures Preorder(cmp) ==> Sorted(Sort(s, cmp), cmp)
    decreases |s|
  {
    if |s| >= 2 {
      Dealt(s);
      SortSorts(Evens(s), cmp);
      SortSorts(Odds(s), cmp);
      MergedContents(Sort(Evens(s), cmp), Sort(Odds(s), cmp), cmp);
      if Preorder(cmp) {
        MergedSorted(Sort(Evens(s), cmp), Sort(Odds(s), cmp), cmp);
      }
    }
  }
}
