/** Lookup, insertion and deletion, as operations on a set of entries of which no two match. */
module HashOperations {
  import opened Memory
  import opened Sequences
  import opened HashModel
  import opened HashSize
  import opened HashTable
  import opened HashTransfer
  import opened HashFind
  import opened HashRehash

  /** Matching is symmetric, and entries that match have the same hash. */
  ghost predicate Agreeing(hash: Hasher, comparator: Comparator) {
    && (forall x, y {:trigger Matches(comparator, x, y)} :: Matches(comparator, x, y) ==> Matches(comparator, y, x))
    && (forall x, y, n {:trigger Slot(hash, x, n), Matches(comparator, x, y)} ::
          Matches(comparator, x, y) ==> Slot(hash, x, n) == Slot(hash, y, n))
  }

  /** No two entries match. */
  ghost predicate Unmatched(a: multiset<Ptr>, comparator: Comparator) {
    && (forall x :: x in a ==> a[x] == 1)
    && (forall x, y {:trigger Matches(comparator, x, y)} :: x in a && y in a && Matches(comparator, x, y) ==> x == y)
  }

  ghost predicate NoneMatches(a: multiset<Ptr>, comparator: Comparator, entry: Ptr) {
    forall x {:trigger Matches(comparator, entry, x)} :: x in a ==> !Matches(comparator, entry, x)
  }

  /** The entries are counted, and no two of them match. */
  ghost predicate Consistent(a: multiset<Ptr>, n: nat, hash: Hasher, comparator: Comparator) {
    Unmatched(a, comparator) && Agreeing(hash, comparator) && n == |a|
  }

  /** The whole state of a table. */
  ghost predicate Complete(table: Table)
    reads table`bucket, table`model, table`chains, table`free, table`nodes, table`freeList
    reads table`nBuckets, table`nBucketsUsed, table`nEntries, table.nodes
  {
    table.Valid() && Consistent(All(table.model), table.nEntries, table.hash, table.comparator)
  }

  ghost predicate Transitive(comparator: Comparator) {
    forall x, y, z :: Matches(comparator, x, y) && Matches(comparator, y, z) ==> Matches(comparator, x, z)
  }

  /** At most one entry of a table matches a given one. */
  lemma {:induction false} OnlyMatch(table: Table, entry: Ptr, x: Ptr, y: Ptr)
    requires Complete(table) && Transitive(table.comparator)
    requires x in All(table.model) && Matches(table.comparator, entry, x)
    requires y in All(table.model) && Matches(table.comparator, entry, y)
    ensures x == y && All(table.model)[x] == 1
  {
    assert Matches(table.comparator, x, entry);
    assert Matches(table.comparator, x, y);
  }

  /** If nothing in its bucket matches the entry, nothing in the table does. */
  lemma {:induction false} BucketDecides(m: Buckets, hash: Hasher, comparator: Comparator, entry: Ptr)
    requires Placed(m, hash) && |m| > 0 && Within(hash) && Agreeing(hash, comparator)
    requires NoMatch(m[Slot(hash, entry, |m|)], comparator, entry)
    ensures NoneMatches(All(m), comparator, entry)
  {
    forall x | x in All(m) ensures !Matches(comparator, entry, x) {
      PlacedMultiplicity(m, hash, x);
    }
  }

  lemma {:induction false} InBucket(m: Buckets, k: nat, i: nat)
    requires k < |m| && i < |m[k]|
    ensures m[k][i] in All(m)
    decreases m
  {
    if k > 0 { InBucket(m[1..], k - 1, i); }
  }

  lemma {:induction false} Grown(a: multiset<Ptr>, n: nat, hash: Hasher, comparator: Comparator, entry: Ptr)
    requires Consistent(a, n, hash, comparator) && NoneMatches(a, comparator, entry)
    ensures Consistent(a + multiset{entry}, n + 1, hash, comparator)
  {
    assert Matches(comparator, entry, entry);
  }

  lemma {:induction false} Reduced(a: multiset<Ptr>, comparator: Comparator, b: multiset<Ptr>, x: Ptr)
    requires Unmatched(a, comparator) && b + multiset{x} == a
    ensures Unmatched(b, comparator) && b == a - multiset{x} && |a| == |b| + 1
  {
    forall y | y in b ensures b[y] == 1 && y in a { assert (b + multiset{x})[y] == a[y]; }
  }

  /** The entry of the table that matches, or NULL. */
  method Lookup(table: Table, entry: Ptr) returns (data: Ptr)
    requires Complete(table)
    ensures data == 0 <==> NoneMatches(All(table.model), table.comparator, entry)
    ensures data != 0 ==> data in All(table.model) && Matches(table.comparator, entry, data)
  {
    hide All, Overflow, Used, Unmatched, Distinct;
    var k := Slot(table.hash, entry, table.nBuckets);
    BucketEntries(table, k);
    if NoMatch(table.model[k], table.comparator, entry) {
      BucketDecides(table.model, table.hash, table.comparator, entry);
    }
    if table.bucket[k].data == 0 { return 0; }
    var cursor: Entry? := table.bucket[k];
    ghost var rest := Link(table.bucket[k], table.model[k][0], table.chains[k]);
    while cursor != null
      invariant ListOk(cursor, rest) && 0 !in Data(rest)
      invariant forall x :: x in Data(rest) ==> x in table.model[k]
      invariant forall x :: x in table.model[k] && Matches(table.comparator, entry, x) ==> x in Data(rest)
      decreases rest
    {
      if Matches(table.comparator, entry, cursor.data) {
        assert rest.d in Data(rest);
        return cursor.data;
      }
      cursor := cursor.next;
      rest := rest.rest;
    }
    data := 0;
  }

  lemma {:induction false} BucketEntries(table: Table, k: nat)
    requires table.Valid() && k < table.nBuckets
    ensures BucketOk(table.bucket[k], table.chains[k], table.model[k])
    ensures forall x :: x in table.model[k] ==> x in All(table.model) && x != 0
  {
    assert BucketOk(table.bucket[k], table.chains[k], table.model[k]);
    forall x | x in table.model[k] ensures x in All(table.model) {
      var i :| 0 <= i < |table.model[k]| && table.model[k][i] == x;
      InBucket(table.model, k, i);
    }
  }

  /** Accepts the tuning values, or falls back to the defaults for good. */
  method CheckTuning(table: Table) returns (ok: bool)
    modifies table`tuning
    ensures ok <==> Reasonable(old(table.tuning))
    ensures Reasonable(table.tuning) && table.tuning == Checked(old(table.tuning))
  {
    ok := Reasonable(table.tuning);
    if !ok {
      table.tuning := DEFAULT_TUNING;
    }
  }

  lemma {:induction false} Products(x: real, y: real, z: real)
    requires x >= 0.0 && y >= 0.0 && z >= 0.0
    ensures x * y >= 0.0 && x * y * z >= 0.0
  {
  }

  lemma {:induction false} ScaledDown(x: real, y: real, z: real)
    requires x >= 0.0 && 0.0 <= y <= 1.0 && 0.0 <= z <= 1.0
    ensures 0.0 <= x * y <= x && 0.0 <= x * y * z <= x
  {
    Smaller(x, y);
    Smaller(x * y, z);
  }

  lemma {:induction false} Smaller(x: real, y: real)
    requires x >= 0.0 && 0.0 <= y <= 1.0
    ensures 0.0 <= x * y <= x
  {
  }

  lemma {:induction false} ScaledBounds(size: real, factor: real, tuning: Tuning)
    requires Reasonable(tuning) && size >= 0.0 && factor >= 0.0
    ensures var candidate := Scaled(size, factor, tuning);
            && candidate >= 0.0 && (factor <= 1.0 ==> candidate <= size)
            && candidate.Floor == IntegerPart(candidate)
  {
    var t := tuning.growthThreshold;
    assert 0.0 <= t <= 1.0;
    hide Reasonable;
    Products(size, factor, t);
    if factor <= 1.0 { ScaledDown(size, factor, t); }
  }

  /** The size to ask for when the table is scaled by a factor. */
  method ScaledSize(size: real, factor: real, tuning: Tuning) returns (candidate: real)
    requires Reasonable(tuning) && size >= 0.0 && factor >= 0.0
    ensures candidate == Scaled(size, factor, tuning) && candidate.Floor == IntegerPart(candidate)
    ensures candidate >= 0.0 && (factor <= 1.0 ==> candidate <= size)
  {
    ScaledBounds(size, factor, tuning);
    hide Reasonable, IntegerPart;
    candidate := if tuning.isNBuckets then size * factor else size * factor * tuning.growthThreshold;
  }

  /** There is no free entry, and the bucket of an entry is taken. */
  ghost predicate NoRoom(free: Chain, m: Buckets, hash: Hasher, entry: Ptr) {
    free == Nil && |m| > 0 && Slot(hash, entry, |m|) < |m| && m[Slot(hash, entry, |m|)] != []
  }

  /** Puts a new entry into the bucket k, if memory permits. */
  method Store(table: Table, entry: Ptr, k: nat, memory: Answers, asked: nat) returns (ok: bool, now: nat)
    requires table.Valid() && entry != 0 && k == Slot(table.hash, entry, table.nBuckets)
    modifies table`model, table`chains, table`nodes, table`nBucketsUsed, table`freeList, table`free, table.nodes
    ensures table.Valid() && fresh(table.nodes - old(table.nodes))
    ensures All(table.model) == old(All(table.model)) + (if ok then multiset{entry} else multiset{})
    ensures ok <==> !old(NoRoom(table.free, table.model, table.hash, entry)) || Granted(memory, asked)
    ensures asked <= now && (!ok ==> Refused(memory, asked, now))
  {
    now := asked;
    assert BucketOk(table.bucket[k], table.chains[k], table.model[k]);
    if table.bucket[k].data != 0 {
      ok, now := MoveToOverflow(table, entry, k, table.nodes, memory, asked);
    } else {
      Started(table.model, table.hash, k, entry);
      table.SetHead(k, entry, table.nodes);
      ok := true;
    }
  }

  /** Looks for an entry that matches. */
  method Present(table: Table, entry: Ptr) returns (data: Ptr, k: nat)
    requires table.Valid() && Agreeing(table.hash, table.comparator)
    ensures k == Slot(table.hash, entry, table.nBuckets)
    ensures data == 0 <==> NoneMatches(All(table.model), table.comparator, entry)
    ensures data != 0 ==> data in All(table.model) && Matches(table.comparator, entry, data)
  {
    var before;
    ghost var front, rest;
    data, k, before, front, rest := Locate(table, entry);
    if data != 0 {
      InBucket(table.model, k, if before == null then 0 else 1 + |Data(front)|);
    } else {
      BucketDecides(table.model, table.hash, table.comparator, entry);
    }
  }

  /** A rehash to a size that is larger by the growth factor. */
  method Enlarge(table: Table, memory: Answers, asked: nat) returns (ok: bool, now: nat)
    requires table.Valid() && Reasonable(table.tuning)
    modifies table`bucket, table`nBuckets, table`nBucketsUsed, table`freeList, table`model, table`chains, table`free,
        table`nodes
    modifies table.nodes
    ensures table.Valid() && All(table.model) == old(All(table.model)) && fresh(table.nodes - old(table.nodes))
    ensures ok ==> ScaledTo(table.nBuckets, old(table.nBuckets) as real, table.tuning.growthFactor, table.tuning)
    ensures !ok ==> table.bucket == old(table.bucket)
    ensures !ok ==> Refused(memory, asked, now) || NoSize(old(table.nBuckets) as real, table.tuning)
    ensures asked <= now
  {
    var candidate := ScaledSize(table.nBuckets as real, table.tuning.growthFactor, table.tuning);
    if SIZE_MAX as real <= candidate { return false, asked; }
    ok, now := Rehash(table, candidate.Floor, memory, asked);
  }

  /** Enlarges the table, if the threshold is reached, and finds the bucket for a new entry again.
      The abort for an entry that turns up after the rehash is not reached. */
  method GrowFor(table: Table, entry: Ptr, bucket: nat, memory: Answers, asked: nat)
      returns (ok: bool, k: nat, now: nat)
    requires table.Valid() && Agreeing(table.hash, table.comparator)
        && bucket == Slot(table.hash, entry, table.nBuckets)
    requires NoneMatches(All(table.model), table.comparator, entry)
    modifies table`bucket, table`nBuckets, table`nBucketsUsed, table`freeList, table`model, table`chains, table`free,
        table`nodes
    modifies table`tuning, table.nodes
    ensures table.Valid() && All(table.model) == old(All(table.model)) && fresh(table.nodes - old(table.nodes))
    ensures ok ==> k == Slot(table.hash, entry, table.nBuckets)
    ensures table.tuning == old(TuningForGrowth(table.nBucketsUsed, table.nBuckets, table.tuning))
    ensures !old(Grows(table.nBucketsUsed, table.nBuckets, table.tuning)) ==>
      ok && table.bucket == old(table.bucket) && table.model == old(table.model) && table.free == old(table.free)
      && now == asked
    ensures !ok ==> table.bucket == old(table.bucket)
    ensures !ok ==> Refused(memory, asked, now) || old(TooLarge(table.nBucketsUsed, table.nBuckets, table.tuning))
    ensures asked <= now
    ensures ok ==> GrownTo(table.nBuckets, old(table.nBucketsUsed), old(table.nBuckets), old(table.tuning))
  {
    hide Table.StoredBut;
    ok, k, now := true, bucket, asked;
    if WantsGrowth(table.nBucketsUsed, table.nBuckets, table.tuning) {
      var _ := CheckTuning(table);
      if WantsGrowth(table.nBucketsUsed, table.nBuckets, table.tuning) {
        ok, now := Enlarge(table, memory, asked);
        if !ok { return; }
        var data;
        data, k := Present(table, entry);
        if data != 0 { assert false; }
      }
    }
  }

  /** Inserts an entry that nothing in the table matches. */
  method InsertAbsent(table: Table, entry: Ptr, bucket: nat, memory: Answers, asked: nat)
      returns (ok: bool, now: nat)
    requires table.Valid() && Agreeing(table.hash, table.comparator)
        && bucket == Slot(table.hash, entry, table.nBuckets)
    requires NoneMatches(All(table.model), table.comparator, entry) && entry != 0
    modifies table`bucket, table`nBuckets, table`nBucketsUsed, table`freeList, table`model, table`chains, table`free,
        table`nodes
    modifies table`tuning, table.nodes
    ensures table.Valid() && fresh(table.nodes - old(table.nodes))
    ensures All(table.model) == old(All(table.model)) + (if ok then multiset{entry} else multiset{})
    ensures table.tuning == old(TuningForGrowth(table.nBucketsUsed, table.nBuckets, table.tuning))
    ensures !old(Grows(table.nBucketsUsed, table.nBuckets, table.tuning)) ==> table.bucket == old(table.bucket)
    ensures !old(Grows(table.nBucketsUsed, table.nBuckets, table.tuning)) ==>
      (ok <==> !old(NoRoom(table.free, table.model, table.hash, entry)) || Granted(memory, asked))
    ensures !ok ==> Refused(memory, asked, now) || old(TooLarge(table.nBucketsUsed, table.nBuckets, table.tuning))
    ensures asked <= now
    ensures ok ==> GrownTo(table.nBuckets, old(table.nBucketsUsed), old(table.nBuckets), old(table.tuning))
  {
    hide *;
    var k;
    ok, k, now := GrowFor(table, entry, bucket, memory, asked);
    if ok {
      RefusedSince(memory, asked, now);
      ok, now := Store(table, entry, k, memory, now);
    }
  }

  /** Inserts an entry that nothing in the table matches, and counts it. */
  method AddEntry(table: Table, entry: Ptr, bucket: nat, memory: Answers, asked: nat) returns (ok: bool, now: nat)
    requires Complete(table) && bucket == Slot(table.hash, entry, table.nBuckets)
    requires NoneMatches(All(table.model), table.comparator, entry) && entry != 0
    modifies table`bucket, table`nBuckets, table`nBucketsUsed, table`freeList, table`model, table`chains, table`free,
        table`nodes
    modifies table`tuning, table`nEntries, table.nodes
    ensures Complete(table) && fresh(table.nodes - old(table.nodes))
    ensures All(table.model) == old(All(table.model)) + (if ok then multiset{entry} else multiset{})
    ensures table.tuning == old(TuningForGrowth(table.nBucketsUsed, table.nBuckets, table.tuning))
    ensures !old(Grows(table.nBucketsUsed, table.nBuckets, table.tuning)) ==> table.bucket == old(table.bucket)
    ensures !old(Grows(table.nBucketsUsed, table.nBuckets, table.tuning)) ==>
      (ok <==> !old(NoRoom(table.free, table.model, table.hash, entry)) || Granted(memory, asked))
    ensures !ok ==> Refused(memory, asked, now) || old(TooLarge(table.nBucketsUsed, table.nBuckets, table.tuning))
    ensures asked <= now
    ensures ok ==> GrownTo(table.nBuckets, old(table.nBucketsUsed), old(table.nBuckets), old(table.tuning))
  {
    Grown(All(table.model), table.nEntries, table.hash, table.comparator, entry);
    ok, now := InsertAbsent(table, entry, bucket, memory, asked);
    if ok {
      table.nEntries := table.nEntries + 1;
    }
  }

  /** Inserts an entry, unless one that matches is there: returns 1 or 0, or -1 if memory runs out. */
  method InsertIfAbsent(table: Table, entry: Ptr, memory: Answers, asked: nat) returns (r: int, matched: Ptr, now: nat)
    requires Complete(table) && entry != 0
    modifies table`bucket, table`nBuckets, table`nBucketsUsed, table`freeList, table`model, table`chains, table`free,
        table`nodes
    modifies table`tuning, table`nEntries, table.nodes
    ensures Complete(table) && fresh(table.nodes - old(table.nodes)) && r in {-1, 0, 1}
    ensures r == 0 <==> !NoneMatches(old(All(table.model)), table.comparator, entry)
    ensures r == 0 ==> matched in All(table.model) && Matches(table.comparator, entry, matched)
    ensures r == 0 ==>
      table.bucket == old(table.bucket) && table.model == old(table.model) && table.tuning == old(table.tuning)
    ensures All(table.model) == old(All(table.model)) + (if r == 1 then multiset{entry} else multiset{})
    ensures r != 0 ==> table.tuning == old(TuningForGrowth(table.nBucketsUsed, table.nBuckets, table.tuning))
    ensures !old(Grows(table.nBucketsUsed, table.nBuckets, table.tuning)) ==> table.bucket == old(table.bucket)
    ensures r != 0 && !old(Grows(table.nBucketsUsed, table.nBuckets, table.tuning)) ==>
      (r == 1 <==> !old(NoRoom(table.free, table.model, table.hash, entry)) || Granted(memory, asked))
    ensures r == -1 ==> Refused(memory, asked, now) || old(TooLarge(table.nBucketsUsed, table.nBuckets, table.tuning))
    ensures asked <= now
    ensures r == 1 ==> GrownTo(table.nBuckets, old(table.nBucketsUsed), old(table.nBuckets), old(table.tuning))
    ensures r == 1 && old(Grows(table.nBucketsUsed, table.nBuckets, table.tuning)) ==>
      var t := Checked(old(table.tuning));
      Resized(table.nBuckets, old(table.nBuckets), t.growthFactor, t.growthThreshold)
  {
    var k;
    matched, k := Present(table, entry);
    if matched != 0 { return 0, matched, asked; }
    var ok;
    ok, now := AddEntry(table, entry, k, memory, asked);
    r := if ok then 1 else -1;
    if r == 1 && old(Grows(table.nBucketsUsed, table.nBuckets, table.tuning)) {
      GrowthSizes(table.nBuckets, old(table.nBucketsUsed), old(table.nBuckets), old(table.tuning));
    }
  }

  /** Frees the spare entries, each of them once. */
  method ReleaseSpares(table: Table) returns (freed: seq<Entry>)
    requires table.Valid()
    modifies table`freeList, table`free, table`nodes
    ensures table.Valid() && table.model == old(table.model) && table.free == Nil
    ensures table.nodes == old(table.nodes) - Nodes(old(table.free))
    ensures forall e :: e in freed <==> e in Nodes(old(table.free))
    ensures forall i, j :: 0 <= i < j < |freed| ==> freed[i] != freed[j]
  {
    freed := FreeSpares(table);
    Lend(table);
    table.freeList := null;
  }

  method FreeSpares(table: Table) returns (freed: seq<Entry>)
    requires table.Valid()
    ensures forall e :: e in freed <==> e in Nodes(table.free)
    ensures forall i, j :: 0 <= i < j < |freed| ==> freed[i] != freed[j]
  {
    var cursor := table.freeList;
    ghost var rest := table.free;
    freed := [];
    while cursor != null
      invariant ListOk(cursor, rest) && Distinct(rest) && forall e :: e in freed ==> e !in Nodes(rest)
      invariant forall e :: e in freed || e in Nodes(rest) <==> e in Nodes(table.free)
      invariant forall i, j :: 0 <= i < j < |freed| ==> freed[i] != freed[j]
      decreases rest
    {
      freed := freed + [cursor];
      cursor := cursor.next;
      rest := rest.rest;
    }
  }

  /** Shrinks the table, if the threshold is reached; if memory is low, frees the spare entries. */
  method Shrink(table: Table, memory: Answers, asked: nat) returns (now: nat)
    requires table.Valid()
    modifies table`bucket, table`nBuckets, table`nBucketsUsed, table`freeList, table`model, table`chains, table`free,
        table`nodes
    modifies table`tuning, table.nodes
    ensures table.Valid() && All(table.model) == old(All(table.model)) && fresh(table.nodes - old(table.nodes))
    ensures !old(Shrinks(table.nBucketsUsed, table.nBuckets, table.tuning)) ==>
      table.bucket == old(table.bucket) && table.nBuckets == old(table.nBuckets)
    ensures table.tuning == old(TuningForShrinking(table.nBucketsUsed, table.nBuckets, table.tuning))
    ensures ShrunkTo(table.nBuckets, old(table.nBucketsUsed), old(table.nBuckets), old(table.tuning))
            || (table.bucket == old(table.bucket) && table.free == Nil
               && (Refused(memory, asked, now)
                   || ShrunkTo(0, old(table.nBucketsUsed), old(table.nBuckets), old(table.tuning))))
    ensures asked <= now
  {
    hide Within, Separate, BucketOk, ListOk;
    now := asked;
    if WantsShrink(table.nBucketsUsed, table.nBuckets, table.tuning) {
      var _ := CheckTuning(table);
      if WantsShrink(table.nBucketsUsed, table.nBuckets, table.tuning) {
        var candidate := ScaledSize(table.nBuckets as real, table.tuning.shrinkFactor, table.tuning);
        var ok;
        ok, now := Rehash(table, candidate.Floor, memory, asked);
        if !ok { var _ := ReleaseSpares(table); }
      }
    }
  }

  /** b is what is left of a when the entry that matches, data, is deleted; NULL if none matches. */
  ghost predicate Removed(a: multiset<Ptr>, b: multiset<Ptr>, comparator: Comparator, entry: Ptr, data: Ptr) {
    if data == 0 then NoneMatches(a, comparator, entry) && b == a
    else data in a && Matches(comparator, entry, data) && b == a - multiset{data}
  }

  /** What is left of the table after an entry has been taken from the bucket k. */
  lemma {:induction false} Deleted(m: Buckets, n: nat, hash: Hasher, comparator: Comparator, k: nat, i: nat)
    requires Placed(m, hash) && k < |m| && i < |m[k]| && Consistent(All(m), n, hash, comparator)
    ensures n > 0 && Placed(With(m, k, Without(m[k], i)), hash)
    ensures Used(With(m, k, Without(m[k], i))) == Used(m) - (if |m[k]| == 1 then 1 else 0)
    ensures All(With(m, k, Without(m[k], i))) == All(m) - multiset{m[k][i]} && m[k][i] in All(m)
    ensures Consistent(All(m) - multiset{m[k][i]}, n - 1, hash, comparator)
  {
    Dropped(m, hash, k, i);
    InBucket(m, k, i);
    Reduced(All(m), comparator, All(With(m, k, Without(m[k], i))), m[k][i]);
  }

  /** The bucket of an entry has one entry only. */
  ghost predicate Single(m: Buckets, hash: Hasher, entry: Ptr) {
    |m| > 0 && Slot(hash, entry, |m|) < |m| && |m[Slot(hash, entry, |m|)]| == 1
  }

  /** The counter of used buckets, after an entry has been unlinked from the bucket k. */
  method CountUsed(table: Table, ghost m: Buckets, k: nat, ghost i: nat) returns (emptied: bool)
    requires Lost(table, m, k, i) && |table.model| == table.nBuckets <= MAX_BUCKETS && Within(table.hash)
    requires Placed(m, table.hash) && table.nBucketsUsed == Used(m)
    modifies table`nBucketsUsed
    ensures table.Valid() && (emptied <==> |m[k]| == 1)
    ensures table.nBucketsUsed == old(table.nBucketsUsed) - (if emptied then 1 else 0)
  {
    Dropped(m, table.hash, k, i);
    assert BucketOk(table.bucket[k], table.chains[k], table.model[k]);
    emptied := table.bucket[k].data == 0;
    if emptied {
      table.nBucketsUsed := table.nBucketsUsed - 1;
    }
  }

  /** m2 is m without the entry data, the first one that matches in its bucket; the same if there is none. */
  ghost predicate Extracted(m: Buckets, m2: Buckets, hash: Hasher, comparator: Comparator, entry: Ptr, data: Ptr,
      i: nat) {
    && |m| > 0 && Within(hash)
    && var s := m[Slot(hash, entry, |m|)];
       if data == 0 then m2 == m && NoMatch(s, comparator, entry)
       else
         && i < |s| && s[i] == data && Matches(comparator, entry, data)
         && m2 == With(m, Slot(hash, entry, |m|), Without(s, i))
  }

  lemma {:induction false} ExtractedSet(m: Buckets, m2: Buckets, n: nat, hash: Hasher, comparator: Comparator,
      entry: Ptr, data: Ptr, i: nat)
    requires Placed(m, hash) && Consistent(All(m), n, hash, comparator)
        && Extracted(m, m2, hash, comparator, entry, data, i)
    ensures Removed(All(m), All(m2), comparator, entry, data)
    ensures data == 0 ==> m2 == m
    ensures data != 0 ==> n > 0 && Consistent(All(m2), n - 1, hash, comparator)
  {
    if data == 0 {
      BucketDecides(m, hash, comparator, entry);
    } else {
      Deleted(m, n, hash, comparator, Slot(hash, entry, |m|), i);
    }
  }

  /** Unlinks the first entry of its bucket that matches, and counts the used buckets. */
  method Extract(table: Table, entry: Ptr) returns (data: Ptr, ghost i: nat, emptied: bool)
    requires table.Valid()
    modifies table`model, table`chains, table`nodes, table`freeList, table`free, table`nBucketsUsed, table.nodes
    ensures table.Valid() && table.nodes == old(table.nodes)
    ensures Extracted(old(table.model), table.model, table.hash, table.comparator, entry, data, i)
    ensures emptied <==> data != 0 && Single(old(table.model), table.hash, entry)
    ensures table.nBucketsUsed == old(table.nBucketsUsed) - (if emptied then 1 else 0)
  {
    var k;
    data, k, i := FindEntry(table, entry, true);
    emptied := false;
    if data != 0 {
      emptied := CountUsed(table, old(table.model), k, i);
    }
  }

  /** Takes the entry that matches out of the table, with the counters, and returns it, or NULL. */
  method Take(table: Table, entry: Ptr) returns (data: Ptr, emptied: bool)
    requires Complete(table)
    modifies table`model, table`chains, table`nodes, table`freeList, table`free, table`nEntries, table`nBucketsUsed,
        table.nodes
    ensures Complete(table) && table.nodes == old(table.nodes)
    ensures Removed(old(All(table.model)), All(table.model), table.comparator, entry, data)
    ensures data == 0 ==> table.model == old(table.model)
    ensures emptied <==> data != 0 && Single(old(table.model), table.hash, entry)
    ensures table.nBucketsUsed == old(table.nBucketsUsed) - (if emptied then 1 else 0)
  {
    ghost var i;
    data, i, emptied := Extract(table, entry);
    ExtractedSet(old(table.model), table.model, table.nEntries, table.hash, table.comparator, entry, data, i);
    if data != 0 {
      table.nEntries := table.nEntries - 1;
    }
  }

  /** Shrinks the table after a bucket has become empty. */
  method ShrinkAfter(table: Table, emptied: bool, memory: Answers, asked: nat) returns (now: nat)
    requires Complete(table)
    modifies table`bucket, table`nBuckets, table`nBucketsUsed, table`freeList, table`model, table`chains, table`free,
        table`nodes
    modifies table`tuning, table.nodes
    ensures Complete(table) && All(table.model) == old(All(table.model)) && fresh(table.nodes - old(table.nodes))
    ensures !emptied ==> table.bucket == old(table.bucket) && table.model == old(table.model)
    ensures !old(Shrinks(table.nBucketsUsed, table.nBuckets, table.tuning)) ==> table.bucket == old(table.bucket)
    ensures table.tuning == (if emptied then old(TuningForShrinking(table.nBucketsUsed, table.nBuckets, table.tuning))
                             else old(table.tuning))
    ensures emptied ==> ShrunkTo(table.nBuckets, old(table.nBucketsUsed), old(table.nBuckets), old(table.tuning))
                        || (table.bucket == old(table.bucket) && table.free == Nil
                           && (Refused(memory, asked, now)
                               || ShrunkTo(0, old(table.nBucketsUsed), old(table.nBuckets), old(table.tuning))))
    ensures asked <= now
  {
    now := asked;
    if emptied { now := Shrink(table, memory, asked); }
  }

  lemma {:induction false} HasBuckets(table: Table)
    requires Complete(table)
    ensures table.nBuckets > 0
  {
  }

  /** Deletes the entry that matches, if there is one, and returns it, or NULL. The table may shrink
      if the bucket has become empty. */
  method Delete(table: Table, entry: Ptr, memory: Answers, asked: nat)
      returns (data: Ptr, now: nat, ghost emptied: bool)
    requires Complete(table)
    modifies table`bucket, table`nBuckets, table`nBucketsUsed, table`freeList, table`model, table`chains, table`free,
        table`nodes
    modifies table`tuning, table`nEntries, table.nodes
    ensures Complete(table) && fresh(table.nodes - old(table.nodes))
    ensures Removed(old(All(table.model)), All(table.model), table.comparator, entry, data)
    ensures data == 0 ==> table.model == old(table.model)
    ensures emptied <==> data != 0 && Single(old(table.model), table.hash, entry)
    ensures emptied ==> old(table.nBucketsUsed) > 0
    ensures !emptied ==> table.bucket == old(table.bucket)
    ensures !Shrinks(old(table.nBucketsUsed) - 1, old(table.nBuckets), old(table.tuning)) ==>
      table.bucket == old(table.bucket)
    ensures table.tuning ==
      (if emptied then TuningForShrinking(old(table.nBucketsUsed) - 1, old(table.nBuckets), old(table.tuning))
       else old(table.tuning))
    ensures emptied ==> ShrunkTo(table.nBuckets, old(table.nBucketsUsed) - 1, old(table.nBuckets), old(table.tuning))
                        || (table.bucket == old(table.bucket) && table.free == Nil
                           && (Refused(memory, asked, now)
                               || ShrunkTo(0, old(table.nBucketsUsed) - 1, old(table.nBuckets), old(table.tuning))))
    ensures asked <= now
    ensures emptied && Shrinks(old(table.nBucketsUsed) - 1, old(table.nBuckets), old(table.tuning)) ==>
      var t := Checked(old(table.tuning));
      || Resized(table.nBuckets, old(table.nBuckets), t.shrinkFactor, t.growthThreshold)
      || (table.bucket == old(table.bucket)
          && (Refused(memory, asked, now) || Unsizable(old(table.nBuckets), t.shrinkFactor)))
  {
    hide *;
    var empty;
    data, empty := Take(table, entry);
    emptied := empty;
    now := ShrinkAfter(table, empty, memory, asked);
    HasBuckets(table);
    ghost var n, u, size, t := table.nBuckets, old(table.nBucketsUsed) - 1, old(table.nBuckets), old(table.tuning);
    if emptied && Shrinks(u, size, t) {
      if ShrunkTo(0, u, size, t) { ShrinkingSizes(0, u, size, t); }
      if ShrunkTo(n, u, size, t) { ShrinkingSizes(n, u, size, t); }
    }
  }
}
