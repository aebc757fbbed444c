/** Changing the number of buckets, with a rollback when memory runs out half-way. */
module HashRehash {
  import opened Memory
  import opened HashModel
  import opened HashSize
  import opened HashTable
  import opened HashTransfer

  /** Two entries lists over the same buckets: if the entries of m and x together are no more than
      those of o, and x does not go into an empty bucket, then m needs fewer overflow entries than o. */
  lemma {:induction false} AbortUnreachable(m: Buckets, rest: multiset<Ptr>, x: Ptr, o: Buckets, hash: Hasher)
    requires Placed(m, hash) && Placed(o, hash) && |m| == |o| > 0 && Within(hash)
    requires x in rest && All(m) + rest == All(o) && m[Slot(hash, x, |m|)] != []
    ensures Overflow(m) < Overflow(o)
  {
    var k := Slot(hash, x, |m|);
    Pushed(m, hash, k, x);
    FewerEntries(With(m, k, AfterHead(m[k], x)), o, hash);
  }

  lemma {:induction false} HeadsOnly(m: Buckets)
    requires forall b :: 0 <= b < |m| ==> |m[b]| <= 1
    ensures Overflow(m) == 0
    decreases m
  {
    if m != [] { HeadsOnly(m[1..]); }
  }

  /** Zeroed memory for an array of buckets, if there is enough. */
  method Calloc(n: nat, granted: bool) returns (bucket: seq<Entry>)
    ensures granted ==> |bucket| == n && EmptyHeads(bucket)
    ensures forall b :: 0 <= b < |bucket| ==> fresh(bucket[b])
  {
    bucket := [];
    if !granted { return; }
    while |bucket| < n
      invariant |bucket| <= n && EmptyHeads(bucket)
      invariant forall b :: 0 <= b < |bucket| ==> fresh(bucket[b])
    {
      var e := new Entry();
      bucket := bucket + [e];
    }
  }

  ghost predicate EmptyHeads(bucket: seq<Entry>)
    reads bucket
  {
    && (forall b :: 0 <= b < |bucket| ==> bucket[b].data == 0 && bucket[b].next == null)
    && (forall b, b' :: 0 <= b < b' < |bucket| ==> bucket[b] != bucket[b'])
  }

  ghost function HeadsOf(bucket: seq<Entry>): set<Entry> {
    set b | 0 <= b < |bucket| :: bucket[b]
  }

  /** The free entries leave the table. */
  ghost method Lend(table: Table)
    requires table.Valid()
    modifies table`free, table`nodes
    ensures table.StoredBut(-1) && table.Counted() && table.free == Nil
    ensures table.nodes == old(table.nodes) - Nodes(old(table.free)) && Nodes(old(table.free)) <= old(table.nodes)
  {
    table.nodes := table.nodes - Nodes(table.free);
    table.free := Nil;
  }

  /** A table with the given buckets, which takes the free entries of the old one. */
  method Successor(table: Table, bucket: seq<Entry>) returns (next: Table)
    requires table.Valid() && 0 < |bucket| <= MAX_BUCKETS && EmptyHeads(bucket) && HeadsOf(bucket) !! table.nodes
    modifies table`free, table`nodes
    ensures fresh(next) && Transferring(next, table, next.nodes + table.nodes)
    ensures next.nodes + table.nodes == old(table.nodes) + HeadsOf(bucket)
    ensures All(next.model) == multiset{} && TotalSupply(next, table) == old(Supply(table))
    ensures next.nBuckets == |bucket| && next.hash == table.hash
  {
    next := new Table(bucket, table.hash, table.comparator, table.tuning, table.freeList, table.free);
    Lend(table);
  }

  lemma {:induction false} Movable(table: Table, next: Table)
    requires Transferring(next, table, next.nodes + table.nodes)
    ensures next != table && next.Valid()
  {
  }

  lemma {:induction false} SameFields(table: Table, next: Table)
    requires next.Valid() && next.hash == table.hash
    requires table.bucket == next.bucket && table.nBuckets == next.nBuckets && table.nBucketsUsed == next.nBucketsUsed
    requires table.model == next.model && table.chains == next.chains && table.nodes == next.nodes
    requires table.freeList == next.freeList && table.free == next.free
    ensures table.Valid()
  {
  }

  /** The table takes over what was moved out of it. */
  method Adopt(table: Table, next: Table)
    requires Transferring(next, table, next.nodes + table.nodes) && next.hash == table.hash
    modifies table`bucket, table`nBuckets, table`nBucketsUsed, table`freeList, table`model, table`chains, table`free,
        table`nodes
    ensures table.Valid() && table.model == next.model && table.nBuckets == next.nBuckets && table.nodes == next.nodes
  {
    hide *;
    Movable(table, next);
    table.bucket, table.nBuckets, table.nBucketsUsed := next.bucket, next.nBuckets, next.nBucketsUsed;
    table.freeList := next.freeList;
    table.model, table.chains, table.free, table.nodes := next.model, next.chains, next.free, next.nodes;
    SameFields(table, next);
  }

  /** The table gets the exhausted free list back. */
  method Reclaim(table: Table, next: Table)
    requires Transferring(next, table, next.nodes + table.nodes) && next.free == Nil
    modifies table`freeList
    ensures Transferring(table, next, table.nodes + next.nodes)
  {
    table.freeList := next.freeList;
  }

  /** The state of a rehash that has run out of memory, on its way back to the entries of o. */
  ghost predicate Reversing(table: Table, next: Table, o: Buckets)
    reads table, next, table.nodes, next.nodes
  {
    && Transferring(table, next, table.nodes + next.nodes)
    && Both(table, next) == All(o) && TotalSupply(table, next) >= Overflow(o)
    && |o| == table.nBuckets && Placed(o, table.hash)
  }

  /** With only bucket heads left to move back, the supply of overflow entries suffices. */
  lemma {:induction false} NeverExhausted(table: Table, next: Table, o: Buckets, x: Ptr)
    requires Reversing(table, next, o) && Overflow(next.model) == 0
    ensures !Exhausted(table, next, x)
  {
    if Exhausted(table, next, x) {
      AbortUnreachable(table.model, All(next.model), x, o, table.hash);
      assert false;
    }
  }

  /** The two passes that undo a partial move. The abort that the failure of either would cause
      is not reached. */
  method Undo(table: Table, next: Table, ghost o: Buckets, memory: Answers, asked: nat) returns (now: nat)
    requires Reversing(table, next, o)
    modifies table`model, table`chains, table`nodes, table`nBucketsUsed, table`freeList, table`free, table.nodes
    modifies next`model, next`chains, next`nodes, next`nBucketsUsed, next.nodes
    ensures table.Valid() && All(table.model) == All(o) && asked <= now
    ensures old(table.nodes + next.nodes) <= table.nodes + next.nodes
        && fresh(table.nodes + next.nodes - old(table.nodes + next.nodes))
  {
    hide Table.StoredBut, All;
    var ok; ghost var x;
    ok, now, x := TransferEntries(table, next, true, memory, asked);
    HeadsOnly(next.model);
    ok, now, x := TransferEntries(table, next, false, memory, now);
    if !ok {
      NeverExhausted(table, next, o, x);
      assert false;
    }
    Empty(next.model);
  }

  /** All entries have been moved. */
  method FinishMove(table: Table, next: Table, ghost o: Buckets)
    requires Transferring(next, table, next.nodes + table.nodes) && next.hash == table.hash
    requires Passed(table.model, |table.model|, false) && Both(next, table) == All(o)
    modifies table`bucket, table`nBuckets, table`nBucketsUsed, table`freeList, table`model, table`chains, table`free,
        table`nodes
    ensures table.Valid() && All(table.model) == All(o) && table.nBuckets == next.nBuckets && table.nodes == next.nodes
  {
    Empty(table.model);
    assert All(next.model) == All(o);
    Adopt(table, next);
  }

  /** Memory has run out: all entries move back. */
  method Retreat(table: Table, next: Table, ghost o: Buckets, memory: Answers, asked: nat) returns (now: nat)
    requires Transferring(next, table, next.nodes + table.nodes) && next.free == Nil
    requires Both(next, table) == All(o) && TotalSupply(next, table) >= Overflow(o)
    requires |o| == table.nBuckets && Placed(o, table.hash)
    modifies table`model, table`chains, table`nodes, table`nBucketsUsed, table`freeList, table`free, table.nodes
    modifies next`model, next`chains, next`nodes, next`nBucketsUsed, next.nodes
    ensures table.Valid() && All(table.model) == All(o) && asked <= now
    ensures old(table.nodes + next.nodes) <= table.nodes + next.nodes
        && fresh(table.nodes + next.nodes - old(table.nodes + next.nodes))
  {
    hide Separate, BucketOk, ListOk;
    Reclaim(table, next);
    assert TotalSupply(table, next) == TotalSupply(next, table);
    now := Undo(table, next, o, memory, asked);
  }

  /** Moves all entries over, or puts them back if memory runs out. */
  method MoveOver(table: Table, next: Table, ghost o: Buckets, memory: Answers, asked: nat)
      returns (ok: bool, now: nat)
    requires Transferring(next, table, next.nodes + table.nodes) && next.hash == table.hash
    requires Both(next, table) == All(o) && TotalSupply(next, table) >= Overflow(o)
    requires |o| == table.nBuckets && Placed(o, table.hash)
    modifies table`bucket, table`nBuckets, table`nBucketsUsed, table`freeList, table`model, table`chains, table`free,
        table`nodes
    modifies next`model, next`chains, next`nodes, next`nBucketsUsed, next`freeList, next`free, table.nodes, next.nodes
    ensures table.Valid() && All(table.model) == All(o)
    ensures ok ==> table.nBuckets == next.nBuckets
    ensures !ok ==> table.bucket == old(table.bucket) && table.nBuckets == old(table.nBuckets)
    ensures asked <= now && (!ok ==> Refused(memory, asked, now))
    ensures fresh(table.nodes - old(table.nodes + next.nodes))
  {
    ghost var x;
    ok, now, x := TransferEntries(next, table, false, memory, asked);
    if ok {
      FinishMove(table, next, o);
    } else {
      assert !Granted(memory, now - 1);
      now := Retreat(table, next, o, memory, now);
    }
  }

  /** Changes the buckets of the table, if memory suffices. */
  method Migrate(table: Table, bucket: seq<Entry>, memory: Answers, asked: nat) returns (ok: bool, now: nat)
    requires table.Valid() && 0 < |bucket| <= MAX_BUCKETS && EmptyHeads(bucket) && HeadsOf(bucket) !! table.nodes
    modifies table`bucket, table`nBuckets, table`nBucketsUsed, table`freeList, table`model, table`chains, table`free,
        table`nodes
    modifies table.nodes, HeadsOf(bucket)
    ensures table.Valid() && All(table.model) == old(All(table.model))
    ensures ok ==> table.nBuckets == |bucket|
    ensures !ok ==> table.bucket == old(table.bucket) && table.nBuckets == old(table.nBuckets)
    ensures asked <= now && (!ok ==> Refused(memory, asked, now))
    ensures fresh(table.nodes - old(table.nodes) - HeadsOf(bucket))
  {
    hide Separate, BucketOk, ListOk;
    var next := Successor(table, bucket);
    ok, now := MoveOver(table, next, table.model, memory, asked);
  }

  /** Changes the number of buckets. The entries of the table stay the same in any case. It fails only
      if there is no size for the request or the allocator refuses one. */
  method Rehash(table: Table, candidate: nat, memory: Answers, asked: nat) returns (ok: bool, now: nat)
    requires table.Valid() && candidate <= SIZE_MAX && table.tuning.growthThreshold > 0.0
    modifies table`bucket, table`nBuckets, table`nBucketsUsed, table`freeList, table`model, table`chains, table`free,
        table`nodes
    modifies table.nodes
    ensures table.Valid() && All(table.model) == old(All(table.model))
    ensures ok ==> SizeFor(table.nBuckets, Request(candidate, table.tuning))
    ensures !ok ==> table.bucket == old(table.bucket) && table.nBuckets == old(table.nBuckets)
    ensures !ok ==> Refused(memory, asked, now) || SizeFor(0, Request(candidate, table.tuning))
    ensures asked <= now && fresh(table.nodes - old(table.nodes))
  {
    var newSize := ComputeBucketSize(candidate, table.tuning);
    now := asked;
    if newSize == 0 { return false, now; }
    if newSize == table.nBuckets { return true, now; }
    now := asked + 1;
    ok := Granted(memory, asked);
    var bucket := Calloc(newSize, ok);
    if ok {
      ok, now := Migrate(table, bucket, memory, now);
    }
  }
}
