/** Creating a table, checking its counters, and walking through its entries. */
module HashWalk {
  import opened Memory
  import opened HashModel
  import opened HashSize
  import opened HashTable
  import opened HashFind
  import opened HashRehash
  import opened HashOperations

  /** A new table, or null if the tuning is not reasonable, there is no size for the request, or the
      allocator refuses the table or its buckets. */
  method Initialize(candidate: nat, tuning: Tuning, hash: Hasher, comparator: Comparator, memory: Answers, asked: nat)
      returns (table: Table?, now: nat)
    requires candidate <= SIZE_MAX && Within(hash) && Agreeing(hash, comparator)
    ensures table != null ==> fresh(table) && fresh(table.nodes) && Complete(table) && All(table.model) == multiset{}
    ensures table != null ==> table.hash == hash && table.comparator == comparator
    ensures table != null ==>
      Reasonable(tuning) && table.tuning == tuning && SizeFor(table.nBuckets, Request(candidate, tuning))
    ensures table != null <==>
      Reasonable(tuning) && !SizeFor(0, Request(candidate, tuning)) && !Refused(memory, asked, asked + 2)
    ensures asked < now
  {
    hide Refused;
    RefusedTwo(memory, asked);
    table, now := null, asked + 1;
    if !Granted(memory, asked) { return; }
    if !Reasonable(tuning) { return; }
    var n := ComputeBucketSize(candidate, tuning);
    if n == 0 { return; }
    now := asked + 2;
    var bucket := Calloc(n, Granted(memory, asked + 1));
    if !Granted(memory, asked + 1) { return; }
    table := new Table(bucket, hash, comparator, tuning, null, Nil);
  }

  /** As long as a table made for some number of entries has fewer, an insertion does not grow it. */
  lemma {:induction false} NoGrowthYet(table: Table, candidate: nat)
    requires Complete(table) && Reasonable(table.tuning) && !table.tuning.isNBuckets
    requires SizeFor(table.nBuckets, Request(candidate, table.tuning)) && table.nEntries < candidate
    ensures !WantsGrowth(table.nBucketsUsed, table.nBuckets, table.tuning)
  {
    Counts(table.model);
    RoomForCandidates(candidate, table.tuning, table.nBuckets, table.nBucketsUsed);
  }

  lemma {:induction false} RoomLeft(a: multiset<Ptr>, comparator: Comparator, s: set<Ptr>, entry: Ptr)
    requires Unmatched(a, comparator) && NoneMatches(a, comparator, entry)
    requires entry in s && forall x :: x in a ==> x in s
    ensures |a| < |s|
  {
    assert Matches(comparator, entry, entry);
    var t := multiset(s);
    assert a <= t - multiset{entry};
    assert t == a + (t - a) && entry in t - a;
    assert |t| == |s|;
  }

  /** An insertion into a table made for the number of elements of s, of which all entries are. */
  method InsertWithin(table: Table, candidate: nat, entry: Ptr, ghost s: set<Ptr>, memory: Answers, asked: nat)
      returns (r: int, now: nat)
    requires Complete(table) && Reasonable(table.tuning) && !table.tuning.isNBuckets
    requires SizeFor(table.nBuckets, Request(candidate, table.tuning))
    requires |s| <= candidate && entry in s && entry != 0 && forall x :: x in All(table.model) ==> x in s
    modifies table, table.nodes
    ensures Complete(table) && fresh(table.nodes - old(table.nodes))
    ensures table.bucket == old(table.bucket) && table.tuning == old(table.tuning)
    ensures All(table.model) == old(All(table.model)) + (if r == 1 then multiset{entry} else multiset{})
    ensures r == 0 <==> !NoneMatches(old(All(table.model)), table.comparator, entry)
    ensures asked <= now && r in {-1, 0, 1} && (r == -1 ==> Refused(memory, asked, now))
    ensures forall x :: x in All(table.model) ==> x in s
  {
    if NoneMatches(All(table.model), table.comparator, entry) {
      RoomLeft(All(table.model), table.comparator, s, entry);
      NoGrowthYet(table, candidate);
    }
    var matched;
    r, matched, now := InsertIfAbsent(table, entry, memory, asked);
  }

  /** Each of some entries matches one of a. */
  ghost predicate AllPresent(entries: seq<Ptr>, a: multiset<Ptr>, comparator: Comparator) {
    forall i :: 0 <= i < |entries| ==> !NoneMatches(a, comparator, entries[i])
  }

  lemma {:induction false} PresentNext(entries: seq<Ptr>, i: nat, a: multiset<Ptr>, b: multiset<Ptr>,
      comparator: Comparator, r: int)
    requires i < |entries| && AllPresent(entries[..i], a, comparator)
    requires r in {0, 1} && b == a + (if r == 1 then multiset{entries[i]} else multiset{})
    requires r == 0 <==> !NoneMatches(a, comparator, entries[i])
    ensures AllPresent(entries[..i + 1], b, comparator)
  {
    assert Matches(comparator, entries[i], entries[i]);
    forall j | 0 <= j <= i ensures !NoneMatches(b, comparator, entries[j]) {
      if j < i {
        assert entries[..i][j] == entries[j];
        var x :| x in a && Matches(comparator, entries[j], x);
        assert x in b;
      }
    }
  }

  /** One insertion of such a run, in which the first i entries have been dealt with. */
  method InsertNext(table: Table, candidate: nat, entries: seq<Ptr>, i: nat, ghost s: set<Ptr>, memory: Answers,
      ghost from: nat, asked: nat) returns (now: nat)
    requires Complete(table) && Reasonable(table.tuning) && !table.tuning.isNBuckets
    requires SizeFor(table.nBuckets, Request(candidate, table.tuning))
    requires |s| <= candidate && i < |entries| && entries[i] in s && entries[i] != 0
    requires (forall x :: x in All(table.model) ==> x in s) && from <= asked
    requires !Refused(memory, from, asked) ==> AllPresent(entries[..i], All(table.model), table.comparator)
    modifies table, table.nodes
    ensures Complete(table) && fresh(table.nodes - old(table.nodes))
    ensures table.bucket == old(table.bucket) && table.tuning == old(table.tuning)
    ensures (forall x :: x in All(table.model) ==> x in s) && asked <= now
    ensures !Refused(memory, from, now) ==> AllPresent(entries[..i + 1], All(table.model), table.comparator)
  {
    hide AllPresent, NoneMatches, Complete, Reasonable, SizeFor;
    ghost var a := All(table.model);
    var r;
    r, now := InsertWithin(table, candidate, entries[i], s, memory, asked);
    if !Refused(memory, from, now) {
      PresentNext(entries, i, a, All(table.model), table.comparator, r);
    }
  }

  /** A run of insertions into a table made for some number of entries: the buckets stay in place
      until that number of different entries has been inserted, and unless the allocator refuses a
      request, every entry is in the table afterwards, or one that matches. */
  method InsertRun(table: Table, candidate: nat, entries: seq<Ptr>, ghost s: set<Ptr>, memory: Answers, asked: nat)
      returns (now: nat)
    requires Complete(table) && Reasonable(table.tuning) && !table.tuning.isNBuckets
    requires SizeFor(table.nBuckets, Request(candidate, table.tuning))
    requires |s| <= candidate && 0 !in entries
    requires (forall x :: x in entries ==> x in s) && (forall x :: x in All(table.model) ==> x in s)
    modifies table, table.nodes
    ensures Complete(table) && table.bucket == old(table.bucket) && asked <= now
    ensures !Refused(memory, asked, now) ==> AllPresent(entries, All(table.model), table.comparator)
  {
    hide Table.StoredBut;
    now := asked;
    var i := 0;
    while i < |entries|
      invariant i <= |entries| && Complete(table) && forall x :: x in All(table.model) ==> x in s
      invariant table.bucket == old(table.bucket) && table.tuning == old(table.tuning)
      invariant fresh(table.nodes - old(table.nodes)) && asked <= now
      invariant !Refused(memory, asked, now) ==> AllPresent(entries[..i], All(table.model), table.comparator)
    {
      now := InsertNext(table, candidate, entries, i, s, memory, asked, now);
      i := i + 1;
    }
  }

  /** All entries in the order of the buckets, from the bucket b on. */
  ghost function Flat(m: Buckets, b: nat): seq<Ptr>
    requires b <= |m|
    decreases |m| - b
  {
    if b == |m| then [] else m[b] + Flat(m, b + 1)
  }

  lemma {:induction false} FlatContents(m: Buckets, b: nat)
    requires b <= |m|
    ensures multiset(Flat(m, b)) == All(m[b..]) && |Flat(m, b)| == Entries(m[b..])
    decreases |m| - b
  {
    if b < |m| {
      FlatContents(m, b + 1);
      assert m[b..][0] == m[b] && m[b..][1..] == m[b + 1..];
    }
  }

  /** The entries before the bucket b. */
  ghost function Before(m: Buckets, b: nat): seq<Ptr>
    requires b <= |m|
  {
    if b == 0 then [] else Before(m, b - 1) + m[b - 1]
  }

  lemma {:induction false} FlatSplit(m: Buckets, b: nat)
    requires b <= |m|
    ensures Flat(m, 0) == Before(m, b) + Flat(m, b)
    decreases b
  {
    if b > 0 {
      FlatSplit(m, b - 1);
      assert Before(m, b - 1) + (m[b - 1] + Flat(m, b)) == Before(m, b - 1) + m[b - 1] + Flat(m, b);
    }
  }

  /** Counts the overflow entries of a bucket. */
  method ChainLength(table: Table, b: nat) returns (n: nat)
    requires table.Memory() && |table.model| == |table.bucket| && b < |table.bucket| && table.model[b] != []
    ensures n + 1 == |table.model[b]|
  {
    assert BucketOk(table.bucket[b], table.chains[b], table.model[b]);
    n := 0;
    var cursor := table.bucket[b].next;
    ghost var rest := table.chains[b];
    while cursor != null
      invariant ListOk(cursor, rest) && n + |Data(rest)| + 1 == |table.model[b]|
      decreases rest
    {
      n := n + 1;
      cursor := cursor.next;
      rest := rest.rest;
    }
  }

  lemma {:induction false} CountOne(m: Buckets, b: nat)
    requires b < |m|
    ensures Used(m[b..]) == Used(m[b + 1..]) + (if m[b] == [] then 0 else 1)
    ensures Entries(m[b..]) == Entries(m[b + 1..]) + |m[b]|
  {
    assert m[b..][0] == m[b] && m[b..][1..] == m[b + 1..];
  }

  /** The check that a table makes of itself: it succeeds exactly if both counters are right. */
  method TableOk(table: Table) returns (ok: bool)
    requires table.Memory() && |table.model| == |table.bucket| == table.nBuckets
    ensures ok <==> table.nBucketsUsed == Used(table.model) && table.nEntries == Entries(table.model)
  {
    var used: nat, entries: nat := 0, 0;
    var b := 0;
    while b < table.nBuckets
      invariant b <= table.nBuckets
      invariant used + Used(table.model[b..]) == Used(table.model)
      invariant entries + Entries(table.model[b..]) == Entries(table.model)
    {
      CountOne(table.model, b);
      assert BucketOk(table.bucket[b], table.chains[b], table.model[b]);
      if table.bucket[b].data != 0 {
        var n := ChainLength(table, b);
        used := used + 1;
        entries := entries + 1 + n;
      }
      b := b + 1;
    }
    ok := used == table.nBucketsUsed && entries == table.nEntries;
  }

  /** A complete table passes its own check. */
  lemma {:induction false} CompletePasses(table: Table)
    requires Complete(table)
    ensures table.nBucketsUsed == Used(table.model) && table.nEntries == Entries(table.model)
  {
    Counts(table.model);
  }

  /** The first entry from the bucket b on, or NULL. */
  method FirstFrom(table: Table, b: nat) returns (data: Ptr)
    requires table.Valid() && b <= table.nBuckets
    ensures data == (if Flat(table.model, b) == [] then 0 else Flat(table.model, b)[0])
  {
    var i := b;
    while i < table.nBuckets
      invariant i <= table.nBuckets && Flat(table.model, b) == Flat(table.model, i)
    {
      assert BucketOk(table.bucket[i], table.chains[i], table.model[i]);
      if table.bucket[i].data != 0 { return table.bucket[i].data; }
      i := i + 1;
    }
    data := 0;
  }

  /** The first entry, or NULL if there is none. The abort for a table that counts entries, but has
      only empty buckets, is not reached. */
  method GetFirst(table: Table) returns (data: Ptr)
    requires Complete(table)
    ensures data == (if Flat(table.model, 0) == [] then 0 else Flat(table.model, 0)[0])
  {
    FlatContents(table.model, 0);
    CompletePasses(table);
    assert table.model[0..] == table.model;
    if table.nEntries == 0 { return 0; }
    var i := 0;
    while i < table.nBuckets
      invariant i <= table.nBuckets && Flat(table.model, 0) == Flat(table.model, i)
    {
      assert BucketOk(table.bucket[i], table.chains[i], table.model[i]);
      if table.bucket[i].data != 0 { return table.bucket[i].data; }
      i := i + 1;
    }
    assert false;
  }

  lemma {:induction false} OnlyIndex(s: seq<Ptr>, x: Ptr, i: nat, j: nat)
    requires i < |s| && j < |s| && s[i] == x && s[j] == x && multiset(s)[x] == 1
    ensures i == j
  {
    if i < j { Twice(s, x, i, j); } else if j < i { Twice(s, x, j, i); }
  }

  lemma {:induction false} Twice(s: seq<Ptr>, x: Ptr, i: nat, j: nat)
    requires i < j < |s| && s[i] == x && s[j] == x
    ensures multiset(s)[x] >= 2
  {
    assert s == s[..j] + s[j..];
    assert x == s[..j][i] && x in s[..j];
    assert x == s[j..][0] && x in s[j..];
  }

  /** The entry after position i of the bucket k. */
  ghost function Following(m: Buckets, k: nat, i: nat): seq<Ptr>
    requires k < |m| && i < |m[k]|
  {
    m[k][i + 1..] + Flat(m, k + 1)
  }

  lemma {:induction false} Middle(s: seq<Ptr>, p: seq<Ptr>, q: seq<Ptr>, r: seq<Ptr>, i: nat)
    requires s == p + (q + r) && i < |q|
    ensures |p| + i < |s| && s[|p| + i] == q[i] && s[|p| + i + 1..] == q[i + 1..] + r
  {
  }

  /** The only position of an entry in the order of the buckets. */
  lemma {:induction false} Place(m: Buckets, k: nat, i: nat, j: nat)
    requires k < |m| && i < |m[k]| && All(m)[m[k][i]] == 1
    requires j < |Flat(m, 0)| && Flat(m, 0)[j] == m[k][i]
    ensures Flat(m, 0)[j + 1..] == Following(m, k, i)
  {
    hide Before, Entries, All;
    FlatContents(m, 0);
    assert m[0..] == m;
    FlatSplit(m, k);
    var p := Before(m, k);
    Middle(Flat(m, 0), p, m[k], Flat(m, k + 1), i);
    OnlyIndex(Flat(m, 0), m[k][i], |p| + i, j);
  }

  /** The entry that follows in the chain, or NULL if the entry is the last of its bucket. */
  method NextInBucket(table: Table, entry: Ptr, k: nat, ghost i: nat) returns (data: Ptr)
    requires table.Valid() && k < table.nBuckets && i < |table.model[k]| && table.model[k][i] == entry
    requires forall j :: 0 <= j < |table.model[k]| && j != i ==> table.model[k][j] != entry
    ensures data == (if i + 1 < |table.model[k]| then table.model[k][i + 1] else 0)
  {
    assert BucketOk(table.bucket[k], table.chains[k], table.model[k]);
    var cursor: Entry? := table.bucket[k];
    ghost var rest := Link(table.bucket[k], table.model[k][0], table.chains[k]);
    ghost var j := 0;
    while cursor != null
      invariant ListOk(cursor, rest) && j <= |table.model[k]| && Data(rest) == table.model[k][j..]
      invariant j > i ==> i + 1 == |table.model[k]|
      decreases rest
    {
      assert rest.d == table.model[k][j] && Data(rest.rest) == table.model[k][j + 1..];
      if cursor.data == entry && cursor.next != null {
        assert rest.rest.d == table.model[k][j + 1];
        return cursor.next.data;
      }
      cursor := cursor.next;
      rest := rest.rest;
      j := j + 1;
    }
    data := 0;
  }

  /** The entry that follows in the order of the buckets, or NULL after the last one. */
  method GetNext(table: Table, entry: Ptr, ghost j: nat) returns (data: Ptr)
    requires Complete(table) && j < |Flat(table.model, 0)| && Flat(table.model, 0)[j] == entry
    ensures data == (if j + 1 < |Flat(table.model, 0)| then Flat(table.model, 0)[j + 1] else 0)
  {
    var k := Slot(table.hash, entry, table.nBuckets);
    ghost var i := Position(table, entry, k, j);
    data := NextInBucket(table, entry, k, i);
    if data == 0 {
      data := FirstFrom(table, k + 1);
    }
  }

  lemma {:induction false} Position(table: Table, entry: Ptr, k: nat, j: nat) returns (i: nat)
    requires Complete(table) && j < |Flat(table.model, 0)| && Flat(table.model, 0)[j] == entry
        && k == Slot(table.hash, entry, table.nBuckets)
    ensures k < table.nBuckets && i < |table.model[k]| && table.model[k][i] == entry
    ensures forall n :: 0 <= n < |table.model[k]| && n != i ==> table.model[k][n] != entry
    ensures Flat(table.model, 0)[j + 1..] == Following(table.model, k, i)
    ensures BucketOk(table.bucket[k], table.chains[k], table.model[k])
  {
    FlatContents(table.model, 0);
    assert table.model[0..] == table.model;
    PlacedMultiplicity(table.model, table.hash, entry);
    assert entry in table.model[k];
    i :| 0 <= i < |table.model[k]| && table.model[k][i] == entry;
    forall n | 0 <= n < |table.model[k]| && n != i ensures table.model[k][n] != entry {
      if table.model[k][n] == entry { OnlyIndex(table.model[k], entry, n, i); }
    }
    Place(table.model, k, i, j);
    assert BucketOk(table.bucket[k], table.chains[k], table.model[k]);
  }

  /** The walk through a table: every entry comes up exactly once, in the order of the buckets. */
  method Walk(table: Table) returns (visited: seq<Ptr>)
    requires Complete(table)
    ensures visited == Flat(table.model, 0) && multiset(visited) == All(table.model)
  {
    FlatContents(table.model, 0);
    assert table.model[0..] == table.model;
    ghost var flat := Flat(table.model, 0);
    visited := [];
    var entry := GetFirst(table);
    NoNull(table, 0);
    while entry != 0
      invariant Visited(flat, visited, entry)
      decreases |flat| - |visited|
    {
      var next := GetNext(table, entry, |visited|);
      VisitOne(flat, visited, entry);
      visited := visited + [entry];
      entry := next;
    }
    assert visited == flat;
  }

  /** The walk has visited a prefix of the entries, and entry is the next one, or NULL. */
  ghost predicate Visited(flat: seq<Ptr>, visited: seq<Ptr>, entry: Ptr) {
    && 0 !in flat && |visited| <= |flat| && visited == flat[..|visited|]
    && entry == (if |visited| < |flat| then flat[|visited|] else 0)
  }

  lemma {:induction false} VisitOne(flat: seq<Ptr>, visited: seq<Ptr>, entry: Ptr)
    requires Visited(flat, visited, entry) && entry != 0
    ensures |visited| < |flat| && visited + [entry] == flat[..|visited| + 1]
  {
  }

  lemma {:induction false} NoNull(table: Table, b: nat)
    requires table.Valid() && b <= table.nBuckets
    ensures 0 !in Flat(table.model, b)
    decreases table.nBuckets - b
  {
    if b < table.nBuckets {
      assert BucketOk(table.bucket[b], table.chains[b], table.model[b]);
      NoNull(table, b + 1);
    }
  }

  /** Visits the entries of one bucket. */
  method VisitBucket(table: Table, b: nat) returns (visited: seq<Ptr>)
    requires table.Valid() && b < table.nBuckets
    ensures visited == table.model[b]
  {
    assert BucketOk(table.bucket[b], table.chains[b], table.model[b]);
    visited := [];
    if table.bucket[b].data == 0 { return; }
    var cursor: Entry? := table.bucket[b];
    ghost var rest := Link(table.bucket[b], table.model[b][0], table.chains[b]);
    while cursor != null
      invariant ListOk(cursor, rest) && visited + Data(rest) == table.model[b]
      decreases rest
    {
      assert visited + Data(rest) == visited + [rest.d] + Data(rest.rest);
      visited := visited + [cursor.data];
      cursor := cursor.next;
      rest := rest.rest;
    }
  }

  /** Visits every entry, in the order of the buckets. */
  method ForEach(table: Table) returns (visited: seq<Ptr>)
    requires table.Valid()
    ensures visited == Flat(table.model, 0)
  {
    visited := [];
    var b := 0;
    ghost var flat := Flat(table.model, 0);
    while b < table.nBuckets
      invariant b <= table.nBuckets && visited + Flat(table.model, b) == flat
    {
      var some := VisitBucket(table, b);
      assert visited + (some + Flat(table.model, b + 1)) == visited + some + Flat(table.model, b + 1);
      visited := visited + some;
      b := b + 1;
    }
  }
}
