/** The contents of a hash table as plain data: for each bucket the sequence of its entries,
    the bucket head first. */
module HashModel {

  /** A user entry, as an address; 0 is NULL. */
  type Ptr = nat

  type Hasher = (Ptr, nat) -> nat

  type Comparator = (Ptr, Ptr) -> bool

  /** The bucket that the hasher selects in a table of n buckets. */
  function Slot(hash: Hasher, x: Ptr, n: nat): nat { hash(x, n) }

  type Buckets = seq<seq<Ptr>>

  /** The hasher stays within the table. */
  ghost predicate Within(hash: Hasher) {
    forall x, n :: n > 0 ==> Slot(hash, x, n) < n
  }

  /** All entries, with their multiplicity. */
  ghost function All(m: Buckets): multiset<Ptr> {
    if m == [] then multiset{} else multiset(m[0]) + All(m[1..])
  }

  /** The number of entries that are not bucket heads. */
  ghost function Overflow(m: Buckets): nat {
    if m == [] then 0 else (if m[0] == [] then 0 else |m[0]| - 1) + Overflow(m[1..])
  }

  /** The number of buckets that are not empty. */
  ghost function Used(m: Buckets): nat {
    if m == [] then 0 else (if m[0] == [] then 0 else 1) + Used(m[1..])
  }

  ghost function Entries(m: Buckets): nat {
    if m == [] then 0 else |m[0]| + Entries(m[1..])
  }

  /** Every entry is in the bucket that the hasher selects. */
  ghost predicate Placed(m: Buckets, hash: Hasher) {
    forall b, i :: 0 <= b < |m| && 0 <= i < |m[b]| ==> Slot(hash, m[b][i], |m|) == b
  }

  lemma {:induction false} Counts(m: Buckets)
    ensures Entries(m) == Used(m) + Overflow(m) == |All(m)|
    decreases m
  {
    if m != [] { Counts(m[1..]); }
  }

  /** Replacing one bucket changes the totals by that bucket's share. */
  lemma {:induction false} UpdateAll(m: Buckets, b: nat, s: seq<Ptr>)
    requires b < |m|
    ensures All(m[b := s]) + multiset(m[b]) == All(m) + multiset(s)
    decreases m
  {
    if b == 0 {
      assert m[b := s][1..] == m[1..];
    } else {
      var t := m[1..];
      UpdateAll(t, b - 1, s);
      assert m[b := s][1..] == t[b - 1 := s];
      assert All(m[b := s]) == multiset(m[0]) + All(t[b - 1 := s]);
      Shift(multiset(m[0]), All(t[b - 1 := s]), multiset(t[b - 1]), All(t), multiset(s));
    }
  }

  lemma {:induction false} Shift(x: multiset<Ptr>, a: multiset<Ptr>, p: multiset<Ptr>, b: multiset<Ptr>,
      q: multiset<Ptr>)
    requires a + p == b + q
    ensures (x + a) + p == (x + b) + q
  {
    assert (x + a) + p == x + (a + p);
    assert (x + b) + q == x + (b + q);
  }

  lemma {:induction false} UpdateCounts(m: Buckets, b: nat, s: seq<Ptr>)
    requires b < |m|
    ensures Used(m[b := s]) + (if m[b] == [] then 0 else 1) == Used(m) + (if s == [] then 0 else 1)
    ensures Overflow(m[b := s]) + (if m[b] == [] then 0 else |m[b]| - 1)
         == Overflow(m) + (if s == [] then 0 else |s| - 1)
    decreases m
  {
    if b == 0 {
      assert m[b := s][1..] == m[1..];
    } else {
      assert m[b := s][1..] == m[1..][b - 1 := s];
      UpdateCounts(m[1..], b - 1, s);
    }
  }

  lemma {:induction false} Empty(m: Buckets)
    requires forall b :: 0 <= b < |m| ==> m[b] == []
    ensures All(m) == multiset{} && Used(m) == 0 && Overflow(m) == 0
    decreases m
  {
    if m != [] { Empty(m[1..]); }
  }

  /** The multiplicity of an entry in the table is its multiplicity in its own bucket. */
  lemma {:induction false} Multiplicity(m: Buckets, x: Ptr, b: nat)
    requires b < |m|
    requires forall c :: 0 <= c < |m| && c != b ==> x !in m[c]
    ensures All(m)[x] == multiset(m[b])[x]
    decreases m
  {
    if b == 0 {
      Absent(m[1..], x);
    } else {
      Multiplicity(m[1..], x, b - 1);
    }
  }

  lemma {:induction false} Absent(m: Buckets, x: Ptr)
    requires forall c :: 0 <= c < |m| ==> x !in m[c]
    ensures All(m)[x] == 0
    decreases m
  {
    if m != [] { Absent(m[1..], x); }
  }

  lemma {:induction false} PlacedMultiplicity(m: Buckets, hash: Hasher, x: Ptr)
    requires Placed(m, hash) && |m| > 0 && Within(hash)
    ensures All(m)[x] == multiset(m[Slot(hash, x, |m|)])[x]
    ensures forall c :: 0 <= c < |m| && c != Slot(hash, x, |m|) ==> x !in m[c]
  {
    Multiplicity(m, x, Slot(hash, x, |m|));
  }

  /** Two placements over the same number of buckets, one holding no entry more often than the
      other: then no bucket is longer, and no more overflow entries are needed. */
  lemma {:induction false} FewerEntries(m: Buckets, o: Buckets, hash: Hasher)
    requires Placed(m, hash) && Placed(o, hash) && |m| == |o| && |m| > 0 && Within(hash)
    requires All(m) <= All(o)
    ensures forall b :: 0 <= b < |m| ==> |m[b]| <= |o[b]|
    ensures Overflow(m) <= Overflow(o)
  {
    forall b | 0 <= b < |m| ensures |m[b]| <= |o[b]| {
      forall x | x in m[b] ensures multiset(m[b])[x] <= multiset(o[b])[x] {
        PlacedMultiplicity(m, hash, x);
        PlacedMultiplicity(o, hash, x);
      }
      Included(multiset(m[b]), multiset(o[b]));
    }
    Pointwise(m, o);
  }

  lemma {:induction false} Included(a: multiset<Ptr>, b: multiset<Ptr>)
    requires forall x :: x in a ==> a[x] <= b[x]
    ensures |a| <= |b|
  {
    assert a <= b;
    assert b == a + (b - a);
  }

  lemma {:induction false} Pointwise(m: Buckets, o: Buckets)
    requires |m| == |o| && forall b :: 0 <= b < |m| ==> |m[b]| <= |o[b]|
    ensures Overflow(m) <= Overflow(o)
    decreases m
  {
    if m != [] { Pointwise(m[1..], o[1..]); }
  }

  /** d put behind the first entry of a bucket. */
  ghost function AfterHead(s: seq<Ptr>, d: Ptr): seq<Ptr>
    requires s != []
  {
    [s[0], d] + s[1..]
  }

  /** The model with one bucket replaced. */
  ghost function With(m: Buckets, b: nat, s: seq<Ptr>): Buckets
    requires b < |m|
  {
    m[b := s]
  }

  lemma {:induction false} PlacedWith(m: Buckets, hash: Hasher, b: nat, s: seq<Ptr>)
    requires Placed(m, hash) && b < |m| && forall x :: x in s ==> Slot(hash, x, |m|) == b
    ensures Placed(With(m, b, s), hash)
  {
  }

  lemma {:induction false} Cancel(x: multiset<Ptr>, p: multiset<Ptr>, y: multiset<Ptr>, q: multiset<Ptr>)
    requires x + p == y + (p + q)
    ensures x == y + q
  {
    forall e ensures x[e] == (y + q)[e] { assert (x + p)[e] == x[e] + p[e]; }
  }

  /** One bucket gains the entry d. */
  lemma {:induction false} Gained(m: Buckets, b: nat, s: seq<Ptr>, d: Ptr)
    requires b < |m| && multiset(s) == multiset(m[b]) + multiset{d}
    ensures All(With(m, b, s)) == All(m) + multiset{d}
  {
    UpdateAll(m, b, s);
    Cancel(All(With(m, b, s)), multiset(m[b]), All(m), multiset{d});
  }

  lemma {:induction false} AfterHeadGains(s: seq<Ptr>, d: Ptr)
    requires s != []
    ensures multiset(AfterHead(s, d)) == multiset(s) + multiset{d}
    ensures forall x :: x in AfterHead(s, d) ==> x == d || x in s
  {
    assert s == [s[0]] + s[1..];
  }

  lemma {:induction false} Pushed(m: Buckets, hash: Hasher, b: nat, d: Ptr)
    requires Placed(m, hash) && b < |m| && m[b] != [] && Slot(hash, d, |m|) == b
    ensures Placed(With(m, b, AfterHead(m[b], d)), hash)
    ensures All(With(m, b, AfterHead(m[b], d))) == All(m) + multiset{d}
    ensures Used(With(m, b, AfterHead(m[b], d))) == Used(m)
        && Overflow(With(m, b, AfterHead(m[b], d))) == Overflow(m) + 1
  {
    AfterHeadGains(m[b], d);
    Gained(m, b, AfterHead(m[b], d), d);
    UpdateCounts(m, b, AfterHead(m[b], d));
    PlacedWith(m, hash, b, AfterHead(m[b], d));
  }

  lemma {:induction false} Started(m: Buckets, hash: Hasher, b: nat, d: Ptr)
    requires Placed(m, hash) && b < |m| && m[b] == [] && Slot(hash, d, |m|) == b
    ensures Placed(With(m, b, [d]), hash)
    ensures All(With(m, b, [d])) == All(m) + multiset{d}
    ensures Used(With(m, b, [d])) == Used(m) + 1 && Overflow(With(m, b, [d])) == Overflow(m)
  {
    PlacedWith(m, hash, b, [d]);
    Gained(m, b, [d], d);
    UpdateCounts(m, b, [d]);
  }
}
