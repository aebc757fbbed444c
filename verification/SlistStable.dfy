/** Exactly when sorting keeps the order of equal elements. */
module SlistStable {
  import opened SlistModel

  ghost predicate Different(s: seq<Cell>) {
    forall i, j :: 0 <= i < j < |s| ==> s[i] != s[j]
  }

  /** x comes before y. */
  ghost predicate Before(s: seq<Cell>, x: Cell, y: Cell) {
    exists i, j :: 0 <= i < j < |s| && s[i] == x && s[j] == y
  }

  predicate Equal(cmp: Compare, x: Cell, y: Cell) {
    AtMost(cmp, x.data, y.data) && AtMost(cmp, y.data, x.data)
  }

  /** The order in which repeated dealing puts two positions: a position that is dealt to the left
      comes first. */
  predicate Low(i: nat, j: nat)
    decreases i + j
  {
    if i == j then false
    else if i % 2 != j % 2 then i % 2 == 0
    else Low(i / 2, j / 2)
  }

  /** One of two positions comes first. */
  lemma {:induction false} LowTotal(i: nat, j: nat)
    requires i != j
    ensures Low(i, j) <==> !Low(j, i)
    decreases i + j
  {
    if i % 2 == j % 2 { LowTotal(i / 2, j / 2); }
  }

  /** The elements after the first two of each half. */
  lemma {:induction false} HalvesStep(s: seq<Cell>, k: nat)
    requires |s| >= 2
    ensures k < |Evens(s[2..])| ==> k + 1 < |Evens(s)| && Evens(s)[k + 1] == Evens(s[2..])[k]
    ensures k < |Odds(s[2..])| ==> k + 1 < |Odds(s)| && Odds(s)[k + 1] == Odds(s[2..])[k]
  {
  }

  lemma {:induction false} EvensAt(s: seq<Cell>, k: nat)
    requires k < |s|
    ensures if k % 2 == 0 then k / 2 < |Evens(s)| && Evens(s)[k / 2] == s[k]
            else k / 2 < |Odds(s)| && Odds(s)[k / 2] == s[k]
    decreases s
  {
    hide Evens, Odds;
    DealOnce(s);
    if k >= 2 {
      EvensAt(s[2..], k - 2);
      HalvesStep(s, k / 2 - 1);
      assert s[2..][k - 2] == s[k];
    }
  }

  lemma {:induction false} BeforeCons(c: Cell, s: seq<Cell>, x: Cell, y: Cell)
    ensures Before(s, x, y) ==> Before([c] + s, x, y)
    ensures y in s ==> Before([c] + s, c, y)
  {
    var t := [c] + s;
    if Before(s, x, y) {
      var i, j :| 0 <= i < j < |s| && s[i] == x && s[j] == y;
      assert t[i + 1] == x && t[j + 1] == y;
    }
    if y in s {
      var j :| 0 <= j < |s| && s[j] == y;
      assert t[0] == c && t[j + 1] == y;
    }
  }

  lemma {:induction false} BeforeTail(s: seq<Cell>, x: Cell, y: Cell)
    requires s != [] && Before(s, x, y)
    ensures if x == s[0] then y in s[1..] || Before(s[1..], x, y) else Before(s[1..], x, y)
  {
    var i, j :| 0 <= i < j < |s| && s[i] == x && s[j] == y;
    assert s[1..][j - 1] == y;
    if i > 0 { assert s[1..][i - 1] == x; }
  }

  lemma {:induction false} MergedHas(l: seq<Cell>, r: seq<Cell>, cmp: Compare, y: Cell)
    ensures y in l || y in r ==> y in Merged(l, r, cmp)
  {
    MergedContents(l, r, cmp);
    assert y in multiset(Merged(l, r, cmp)) <==> y in multiset(l) || y in multiset(r);
  }

  /** A merge keeps the order of the elements of the left list. */
  lemma {:induction false} LeftOrder(l: seq<Cell>, r: seq<Cell>, cmp: Compare, x: Cell, y: Cell)
    requires Before(l, x, y)
    ensures Before(Merged(l, r, cmp), x, y)
    decreases |l| + |r|
  {
    if r != [] {
      if AtMost(cmp, l[0].data, r[0].data) {
        var m := Merged(l[1..], r, cmp);
        BeforeTail(l, x, y);
        MergedHas(l[1..], r, cmp, y);
        BeforeCons(l[0], m, x, y);
        if Before(l[1..], x, y) { LeftOrder(l[1..], r, cmp, x, y); }
      } else {
        LeftOrder(l, r[1..], cmp, x, y);
        BeforeCons(r[0], Merged(l, r[1..], cmp), x, y);
      }
    }
  }

  /** A merge keeps the order of the elements of the right list. */
  lemma {:induction false} RightOrder(l: seq<Cell>, r: seq<Cell>, cmp: Compare, x: Cell, y: Cell)
    requires Before(r, x, y)
    ensures Before(Merged(l, r, cmp), x, y)
    decreases |l| + |r|
  {
    if l != [] {
      if AtMost(cmp, l[0].data, r[0].data) {
        RightOrder(l[1..], r, cmp, x, y);
        BeforeCons(l[0], Merged(l[1..], r, cmp), x, y);
      } else {
        var m := Merged(l, r[1..], cmp);
        BeforeTail(r, x, y);
        MergedHas(l, r[1..], cmp, y);
        BeforeCons(r[0], m, x, y);
        if Before(r[1..], x, y) { RightOrder(l, r[1..], cmp, x, y); }
      }
    }
  }

  /** A merge of sorted lists puts an element of the left one before those of the right one that are
      not smaller. */
  lemma {:induction false} LeftFirst(l: seq<Cell>, r: seq<Cell>, cmp: Compare, x: Cell, y: Cell)
    requires Preorder(cmp) && Sorted(l, cmp) && Sorted(r, cmp)
    requires x in l && y in r && AtMost(cmp, x.data, y.data)
    ensures Before(Merged(l, r, cmp), x, y)
    decreases |l| + |r|
  {
    SortedTail(l, cmp);
    SortedTail(r, cmp);
    assert l == [l[0]] + l[1..] && r == [r[0]] + r[1..];
    if AtMost(cmp, l[0].data, r[0].data) {
      var m := Merged(l[1..], r, cmp);
      MergedHas(l[1..], r, cmp, y);
      BeforeCons(l[0], m, x, y);
      if x != l[0] { LeftFirst(l[1..], r, cmp, x, y); }
    } else {
      NotHead(l, r, cmp, x, y);
      LeftFirst(l, r[1..], cmp, x, y);
      BeforeCons(r[0], Merged(l, r[1..], cmp), x, y);
    }
  }

  lemma {:induction false} NotHead(l: seq<Cell>, r: seq<Cell>, cmp: Compare, x: Cell, y: Cell)
    requires Preorder(cmp) && Sorted(l, cmp) && r != [] && x in l && y in r && AtMost(cmp, x.data, y.data)
    requires !AtMost(cmp, l[0].data, r[0].data)
    ensures y in r[1..]
  {
    assert AtMost(cmp, l[0].data, l[0].data);
    SortedTail(l, cmp);
    assert l == [l[0]] + l[1..] && r == [r[0]] + r[1..];
    assert AtMost(cmp, l[0].data, x.data);
    assert AtMost(cmp, l[0].data, y.data);
  }

  /** Sorting puts equal elements in the order of the dealing. */
  lemma {:induction false} EqualOrder(s: seq<Cell>, cmp: Compare, i: nat, j: nat)
    requires Preorder(cmp) && i < |s| && j < |s| && Low(i, j) && Equal(cmp, s[i], s[j])
    ensures Before(Sort(s, cmp), s[i], s[j])
    decreases |s|
  {
    var e, o := Evens(s), Odds(s);
    var l, r := Sort(e, cmp), Sort(o, cmp);
    EvensAt(s, i);
    EvensAt(s, j);
    if i % 2 != j % 2 {
      SortSorts(e, cmp);
      SortSorts(o, cmp);
      assert s[i] in multiset(l) && s[j] in multiset(r);
      LeftFirst(l, r, cmp, s[i], s[j]);
    } else if i % 2 == 0 {
      EqualOrder(e, cmp, i / 2, j / 2);
      LeftOrder(l, r, cmp, s[i], s[j]);
    } else {
      EqualOrder(o, cmp, i / 2, j / 2);
      RightOrder(l, r, cmp, s[i], s[j]);
    }
  }

  lemma {:induction false} LessFirst(t: seq<Cell>, cmp: Compare, x: Cell, y: Cell)
    requires Sorted(t, cmp) && x in multiset(t) && y in multiset(t)
    requires AtMost(cmp, x.data, y.data) && !AtMost(cmp, y.data, x.data)
    ensures Before(t, x, y)
  {
    var i :| 0 <= i < |t| && t[i] == x;
    var j :| 0 <= j < |t| && t[j] == y;
    assert i < j;
  }

  /** The sort orders by comparison, and equal elements by the order in which their indices are dealt out. */
  lemma {:induction false} SortOrder(s: seq<Cell>, cmp: Compare, i: nat, j: nat)
    requires Preorder(cmp) && i < |s| && j < |s| && AtMost(cmp, s[i].data, s[j].data)
    requires Low(i, j) || !AtMost(cmp, s[j].data, s[i].data)
    ensures Before(Sort(s, cmp), s[i], s[j])
  {
    hide Sort, Sorted, Before;
    if AtMost(cmp, s[j].data, s[i].data) {
      EqualOrder(s, cmp, i, j);
    } else {
      SortSorts(s, cmp);
      assert s[i] in multiset(s) && s[j] in multiset(s);
      LessFirst(Sort(s, cmp), cmp, s[i], s[j]);
    }
  }

  lemma {:induction false} SortDifferent(s: seq<Cell>, cmp: Compare)
    requires Different(s)
    ensures Different(Sort(s, cmp))
  {
    SortSorts(s, cmp);
    var t := Sort(s, cmp);
    forall i, j | 0 <= i < j < |t| ensures t[i] != t[j] {
      if t[i] == t[j] {
        Twice(t, i, j);
        Once(s, t[i]);
        assert false;
      }
    }
  }

  lemma {:induction false} Twice(s: seq<Cell>, i: nat, j: nat)
    requires i < j < |s| && s[i] == s[j]
    ensures multiset(s)[s[i]] >= 2
  {
    assert s == s[..j] + s[j..];
    assert s[i] in s[..j] && s[..j][i] == s[i];
    assert s[j] in s[j..] && s[j..][0] == s[j];
  }

  lemma {:induction false} Once(s: seq<Cell>, x: Cell)
    requires Different(s)
    ensures multiset(s)[x] <= 1
    decreases s
  {
    if s != [] {
      Once(s[1..], x);
      assert s == [s[0]] + s[1..];
      if x == s[0] { assert x !in s[1..]; }
    }
  }

  lemma {:induction false} OneOrder(s: seq<Cell>, x: Cell, y: Cell)
    requires Different(s) && Before(s, x, y)
    ensures !Before(s, y, x)
  {
  }

  /** Two positions with equal elements. */
  predicate Tied(s: seq<Cell>, cmp: Compare, i: nat, j: nat) {
    i < j < |s| && Equal(cmp, s[i], s[j])
  }

  ghost predicate Kept(s: seq<Cell>, cmp: Compare, i: nat, j: nat) {
    i < j < |s| && Before(Sort(s, cmp), s[i], s[j])
  }

  /** All equal elements keep their order. */
  ghost predicate Stable(s: seq<Cell>, cmp: Compare) {
    forall i, j :: Tied(s, cmp, i, j) ==> Kept(s, cmp, i, j)
  }

  /** Dealing puts all equal elements in their order. */
  ghost predicate DealtInOrder(s: seq<Cell>, cmp: Compare) {
    forall i, j :: Tied(s, cmp, i, j) ==> Low(i, j)
  }

  lemma {:induction false} PairExactly(s: seq<Cell>, cmp: Compare, i: nat, j: nat)
    requires Preorder(cmp) && Different(s) && Tied(s, cmp, i, j)
    ensures Kept(s, cmp, i, j) <==> Low(i, j)
  {
    LowTotal(i, j);
    if Low(i, j) {
      EqualOrder(s, cmp, i, j);
    } else {
      EqualOrder(s, cmp, j, i);
      SortDifferent(s, cmp);
      OneOrder(Sort(s, cmp), s[j], s[i]);
    }
  }

  /** Sorting is stable exactly if dealing puts equal elements in their order. */
  lemma {:induction false} StableExactly(s: seq<Cell>, cmp: Compare)
    requires Preorder(cmp) && Different(s)
    ensures Stable(s, cmp) <==> DealtInOrder(s, cmp)
  {
    forall i, j | Tied(s, cmp, i, j) ensures Kept(s, cmp, i, j) <==> Low(i, j) {
      PairExactly(s, cmp, i, j);
    }
  }

  /** Three equal elements are enough to see the order change. */
  lemma {:induction false} NotStable(a: Cell, b: Cell, c: Cell, cmp: Compare)
    requires Preorder(cmp) && Equal(cmp, a, b) && Equal(cmp, b, c) && Different([a, b, c])
    ensures Before(Sort([a, b, c], cmp), c, b) && !Stable([a, b, c], cmp)
  {
    var s := [a, b, c];
    assert Low(2, 1);
    EqualOrder(s, cmp, 2, 1);
    SortDifferent(s, cmp);
    OneOrder(Sort(s, cmp), c, b);
    assert Tied(s, cmp, 1, 2);
  }
}
