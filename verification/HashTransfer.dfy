/** Moving the entries of one table to another that shares its free list. */
module HashTransfer {
  import opened Memory
  import opened HashModel
  import opened HashTable

  /** Overflow entries in use and entries free: nothing is lost while entries are moved. */
  ghost function Supply(t: Table): nat
    reads t`model, t`free
  {
    Overflow(t.model) + Length(t.free)
  }

  /** Moves one overflow entry: it is relinked into an overflow, or freed if it fills a head. */
  method MoveOne(dst: Table, cursor: Entry, ghost d: Ptr, ghost S: set<Entry>)
    requires dst.Valid() && cursor !in dst.nodes && dst.nodes <= S && cursor in S && cursor.data == d != 0
    modifies dst`model, dst`chains, dst`nodes, dst`nBucketsUsed, dst`freeList, dst`free, dst.nodes, cursor
    ensures dst.Valid() && dst.nodes == old(dst.nodes) + {cursor}
    ensures All(dst.model) == old(All(dst.model)) + multiset{d} && Supply(dst) == old(Supply(dst)) + 1
  {
    var data := cursor.data;
    var k := Slot(dst.hash, data, dst.nBuckets);
    assert BucketOk(dst.bucket[k], dst.chains[k], dst.model[k]);
    if dst.bucket[k].data != 0 {
      Pushed(dst.model, dst.hash, k, d);
      dst.LinkOverflow(k, cursor, d, S);
    } else {
      Started(dst.model, dst.hash, k, d);
      dst.SetHead(k, data, S);
      dst.FreeEntry(cursor, S);
    }
  }

  /** What dst and the chain c hold together: entries, nodes, and supply of overflow entries. */
  ghost function Whole(dst: Table, c: Chain): multiset<Ptr>
    reads dst`model
  {
    All(dst.model) + multiset(Data(c))
  }

  ghost function Reach(dst: Table, c: Chain): set<Entry>
    reads dst`nodes
  {
    dst.nodes + Nodes(c)
  }

  ghost function Stock(dst: Table, c: Chain): nat
    reads dst`model, dst`free
  {
    Supply(dst) + Length(c)
  }

  /** The chain c, which starts at p, is about to be moved to dst. */
  ghost predicate Moving(dst: Table, p: Entry?, c: Chain, S: set<Entry>)
    reads dst, dst.nodes, Nodes(c)
  {
    dst.Valid() && dst.nodes <= S && Nodes(c) <= S && Nodes(c) !! dst.nodes && Distinct(c) && ListOk(p, c)
        && 0 !in Data(c)
  }

  /** Moves the first entry of a chain. */
  method MoveFirst(dst: Table, cursor: Entry, ghost c: Chain, ghost S: set<Entry>) returns (next: Entry?)
    requires Moving(dst, cursor, c, S)
    modifies dst`model, dst`chains, dst`nodes, dst`nBucketsUsed, dst`freeList, dst`free, dst.nodes, cursor
    ensures Moving(dst, next, c.rest, S)
    ensures Whole(dst, c.rest) == old(Whole(dst, c)) && Reach(dst, c.rest) == old(Reach(dst, c))
        && Stock(dst, c.rest) == old(Stock(dst, c))
  {
    assert Data(c) == [c.d] + Data(c.rest) && c.d in Data(c);
    assert 0 !in Data(c.rest);
    next := cursor.next;
    MoveOne(dst, cursor, c.d, S);
    assert ListOk(next, c.rest);
  }

  /** Moves the overflow chain c that starts at first. */
  method MoveChain(dst: Table, first: Entry?, ghost c: Chain, ghost S: set<Entry>)
    requires Moving(dst, first, c, S)
    modifies dst`model, dst`chains, dst`nodes, dst`nBucketsUsed, dst`freeList, dst`free, dst.nodes, Nodes(c)
    ensures dst.Valid() && dst.nodes == old(Reach(dst, c))
    ensures All(dst.model) == old(Whole(dst, c)) && Supply(dst) == old(Stock(dst, c))
  {
    var cursor := first;
    ghost var rest := c;
    while cursor != null
      invariant Moving(dst, cursor, rest, S)
      invariant Whole(dst, rest) == old(Whole(dst, c)) && Reach(dst, rest) == old(Reach(dst, c))
          && Stock(dst, rest) == old(Stock(dst, c))
      invariant Nodes(rest) <= Nodes(c)
      decreases rest
    {
      cursor := MoveFirst(dst, cursor, rest, S);
      rest := rest.rest;
    }
  }

  /** Moves the entry of a bucket head; this is the only place where memory may be needed. */
  method MoveHead(dst: Table, data: Ptr, ghost S: set<Entry>, memory: Answers, asked: nat)
      returns (ok: bool, now: nat)
    requires dst.Valid() && data != 0 && dst.nodes <= S
    modifies dst`model, dst`chains, dst`nodes, dst`nBucketsUsed, dst`freeList, dst`free, dst.nodes
    ensures dst.Valid() && old(dst.nodes) <= dst.nodes && fresh(dst.nodes - old(dst.nodes))
    ensures ok ==> All(dst.model) == old(All(dst.model)) + multiset{data} && Supply(dst) >= old(Supply(dst))
    ensures !ok ==> dst.model == old(dst.model) && dst.free == old(dst.free) == Nil
    ensures !ok ==> dst.model[Slot(dst.hash, data, dst.nBuckets)] != []
    ensures asked <= now && (!ok ==> LastRefused(memory, asked, now))
  {
    now := asked;
    var k := Slot(dst.hash, data, dst.nBuckets);
    assert BucketOk(dst.bucket[k], dst.chains[k], dst.model[k]);
    if dst.bucket[k].data != 0 {
      ok, now := MoveToOverflow(dst, data, k, S, memory, asked);
    } else {
      Started(dst.model, dst.hash, k, data);
      dst.SetHead(k, data, S);
      ok := true;
    }
  }

  /** Puts data into the overflow of the bucket k, with a recycled or a new entry. */
  method MoveToOverflow(dst: Table, data: Ptr, k: nat, ghost S: set<Entry>, memory: Answers, asked: nat)
      returns (ok: bool, now: nat)
    requires dst.Valid() && data != 0 && dst.nodes <= S && k == Slot(dst.hash, data, dst.nBuckets) && dst.model[k] != []
    modifies dst`model, dst`chains, dst`nodes, dst`freeList, dst`free, dst.nodes
    ensures dst.Valid() && old(dst.nodes) <= dst.nodes && fresh(dst.nodes - old(dst.nodes))
    ensures ok ==> dst.model == With(old(dst.model), k, AfterHead(old(dst.model)[k], data))
    ensures ok ==> All(dst.model) == old(All(dst.model)) + multiset{data} && Supply(dst) >= old(Supply(dst))
    ensures !ok ==> dst.model == old(dst.model) && dst.free == old(dst.free) == Nil
    ensures ok <==> old(dst.free).Link? || Granted(memory, asked)
    ensures now == (if old(dst.free).Link? then asked else asked + 1)
  {
    hide BucketOk;
    Pushed(dst.model, dst.hash, k, data);
    var e;
    e, now := EntryFor(dst, data, S, memory, asked);
    if e == null { return false, now; }
    dst.LinkOverflow(k, e, data, S + {e});
    ok := true;
  }

  /** A recycled or new entry that holds data. */
  method EntryFor(dst: Table, data: Ptr, ghost S: set<Entry>, memory: Answers, asked: nat)
      returns (e: Entry?, now: nat)
    requires dst.Valid() && dst.nodes <= S
    modifies dst`nodes, dst`freeList, dst`free, dst.nodes
    ensures dst.Valid() && (e != null ==> e !in dst.nodes && (e in old(dst.nodes) || fresh(e)) && e.data == data)
    ensures old(dst.free).Link? ==> e != null && dst.free == old(dst.free).rest && now == asked
    ensures old(dst.free).Nil? ==> dst.free == Nil && now == asked + 1 && (e != null <==> Granted(memory, asked))
    ensures dst.nodes == old(dst.nodes) - (if e == null then {} else {e})
  {
    e, now := dst.AllocateEntry(S, memory, asked);
    if e != null { e.data := data; }
  }

  /** The chain of the bucket b is taken off the model of src, to be moved. */
  ghost method Cut(src: Table, b: nat)
    requires src.StoredBut(-1) && b < |src.bucket| && src.model[b] != []
    modifies src`model, src`chains, src`nodes
    ensures src.StoredBut(b) && src.nodes == old(src.nodes) - Nodes(old(src.chains)[b])
    ensures src.model == With(old(src.model), b, [old(src.model)[b][0]]) && src.chains == old(src.chains)[b := Nil]
  {
    assert BucketOk(src.bucket[b], src.chains[b], src.model[b]);
    SeparateCut(src.bucket, src.chains, src.free, src.nodes, b);
    src.model := With(src.model, b, [src.model[b][0]]);
    src.nodes := src.nodes - Nodes(src.chains[b]);
    src.chains := src.chains[b := Nil];
  }

  ghost method Detach(src: Table, b: nat)
    requires src.StoredBut(-1) && src.Counted() && b < src.nBuckets && src.model[b] != []
    modifies src`model, src`chains, src`nodes
    ensures src.StoredBut(b) && src.Counted() && src.nodes == old(src.nodes) - Nodes(old(src.chains)[b])
    ensures src.model == With(old(src.model), b, [old(src.model)[b][0]]) && src.chains == old(src.chains)[b := Nil]
  {
    Shortened(src.model, src.hash, b);
    Cut(src, b);
  }

  lemma {:induction false} SeparateCut(bucket: seq<Entry>, chains: seq<Chain>, free: Chain, nodes: set<Entry>, k: nat)
    requires Separate(bucket, chains, free, nodes) && k < |chains|
    ensures Separate(bucket, chains[k := Nil], free, nodes - Nodes(chains[k]))
  {
  }

  lemma {:induction false} Shortened(m: Buckets, hash: Hasher, b: nat)
    requires Placed(m, hash) && b < |m| && m[b] != []
    ensures Placed(With(m, b, [m[b][0]]), hash) && Used(With(m, b, [m[b][0]])) == Used(m)
    ensures All(With(m, b, [m[b][0]])) + multiset(m[b][1..]) == All(m)
    ensures Overflow(With(m, b, [m[b][0]])) + |m[b]| - 1 == Overflow(m)
  {
    var s := [m[b][0]];
    assert m[b] == s + m[b][1..];
    assert Slot(hash, m[b][0], |m|) == b;
    PlacedWith(m, hash, b, s);
    UpdateCounts(m, b, s);
    UpdateAll(m, b, s);
    Cancel(All(m), multiset(s), All(With(m, b, s)), multiset(m[b][1..]));
  }

  /** Nothing of src and dst overlaps. */
  ghost predicate Disjoint(dst: Table, src: Table, S: set<Entry>)
    reads dst`nodes, src`nodes
  {
    dst != src && dst.nodes !! src.nodes && dst.nodes <= S && src.nodes <= S
  }

  /** The state of a transfer: src holds what is not moved yet; dst has the free list. */
  ghost predicate Transferring(dst: Table, src: Table, S: set<Entry>)
    reads dst, src, dst.nodes, src.nodes
  {
    dst.Valid() && src.StoredBut(-1) && src.Counted() && src.free == Nil && Disjoint(dst, src, S)
  }

  ghost function Both(dst: Table, src: Table): multiset<Ptr>
    reads dst`model, src`model
  {
    All(dst.model) + All(src.model)
  }

  ghost function TotalSupply(dst: Table, src: Table): nat
    reads dst`model, dst`free, src`model
  {
    Supply(dst) + Overflow(src.model)
  }

  /** The chain c has left the model of src for dst. */
  ghost predicate Leaving(dst: Table, src: Table, b: nat, p: Entry?, c: Chain, S: set<Entry>)
    reads dst, src, dst.nodes, src.nodes, Nodes(c)
  {
    && Moving(dst, p, c, S) && src.StoredBut(b) && src.Counted() && src.free == Nil && Disjoint(dst, src, S)
    && Nodes(c) !! src.nodes
  }

  ghost method BeginChain(dst: Table, src: Table, b: nat, S: set<Entry>) returns (c: Chain)
    requires Transferring(dst, src, S) && b < src.nBuckets && src.model[b] != []
    modifies src`model, src`chains, src`nodes
    ensures Leaving(dst, src, b, src.bucket[b].next, c, S)
    ensures src.model == With(old(src.model), b, [old(src.model)[b][0]])
    ensures All(src.model) + multiset(Data(c)) == old(All(src.model))
        && Overflow(src.model) + Length(c) == old(Overflow(src.model))
    ensures src.nodes + Nodes(c) == old(src.nodes) && HeadSet(src.bucket, b) <= old(src.nodes)
  {
    hide All, Overflow, Data, Distinct;
    assert BucketOk(src.bucket[b], src.chains[b], src.model[b]);
    Shortened(src.model, src.hash, b);
    c := src.chains[b];
    DataLength(c);
    Detach(src, b);
  }

  lemma {:induction false} DataLength(c: Chain)
    ensures |Data(c)| == Length(c)
    decreases c
  {
    if c.Link? { DataLength(c.rest); }
  }

  method MoveLeaving(dst: Table, src: Table, b: nat, first: Entry?, ghost c: Chain, ghost S: set<Entry>)
    requires Leaving(dst, src, b, first, c, S)
    modifies dst`model, dst`chains, dst`nodes, dst`nBucketsUsed, dst`freeList, dst`free, dst.nodes, Nodes(c)
    ensures dst.Valid() && dst.nodes == old(Reach(dst, c)) && src.StoredBut(b) && src.Counted() && Disjoint(dst, src, S)
    ensures All(dst.model) == old(Whole(dst, c)) && Supply(dst) == old(Stock(dst, c))
  {
    MoveChain(dst, first, c, S);
  }

  method CloseBucket(dst: Table, src: Table, b: nat, ghost S: set<Entry>)
    requires dst.Valid() && src.StoredBut(b) && src.Counted() && src.free == Nil && Disjoint(dst, src, S)
        && b < src.nBuckets
    modifies HeadSet(src.bucket, b)`next
    ensures Transferring(dst, src, S)
  {
    src.bucket[b].next := null;
  }

  method MoveAndClose(dst: Table, src: Table, b: nat, ghost c: Chain, ghost S: set<Entry>)
    requires b < src.nBuckets == |src.bucket| && Leaving(dst, src, b, src.bucket[b].next, c, S)
    modifies dst`model, dst`chains, dst`nodes, dst`nBucketsUsed, dst`freeList, dst`free, dst.nodes, Nodes(c),
        HeadSet(src.bucket, b)`next
    ensures Transferring(dst, src, S) && dst.nodes == old(Reach(dst, c))
    ensures All(dst.model) == old(Whole(dst, c)) && Supply(dst) == old(Stock(dst, c))
  {
    var first := src.bucket[b].next;
    MoveLeaving(dst, src, b, first, c, S);
    CloseBucket(dst, src, b, S);
  }

  lemma {:induction false} Regrouped(d: multiset<Ptr>, s: multiset<Ptr>, x: multiset<Ptr>)
    ensures (d + x) + s == d + (s + x)
  {
  }

  /** Moves the overflow chain of the bucket b of src. */
  method TransferChain(dst: Table, src: Table, b: nat, ghost S: set<Entry>)
    requires Transferring(dst, src, S) && b < src.nBuckets && src.model[b] != []
    modifies dst`model, dst`chains, dst`nodes, dst`nBucketsUsed, dst`freeList, dst`free, dst.nodes
    modifies src`model, src`chains, src`nodes, src.nodes
    ensures Transferring(dst, src, S) && src.model == With(old(src.model), b, [old(src.model)[b][0]])
    ensures Both(dst, src) == old(Both(dst, src)) && TotalSupply(dst, src) == old(TotalSupply(dst, src))
    ensures Overflow(src.model) <= old(Overflow(src.model))
    ensures dst.nodes + src.nodes == old(dst.nodes + src.nodes)
  {
    hide Within, All, Overflow, Used;
    ghost var c := BeginChain(dst, src, b, S);
    Regrouped(All(dst.model), All(src.model), multiset(Data(c)));
    MoveAndClose(dst, src, b, c, S);
  }

  /** An entry of src finds its bucket of dst taken, and there is no free entry. */
  ghost predicate Exhausted(dst: Table, src: Table, x: Ptr)
    reads dst`free, dst`model, dst`nBuckets, src`model
  {
    && dst.free == Nil && |dst.model| == dst.nBuckets > 0 && Within(dst.hash)
    && x in All(src.model) && dst.model[Slot(dst.hash, x, dst.nBuckets)] != []
  }

  lemma {:induction false} Emptied(m: Buckets, hash: Hasher, b: nat)
    requires Placed(m, hash) && b < |m| && |m[b]| == 1
    ensures Placed(With(m, b, []), hash) && Used(With(m, b, [])) + 1 == Used(m)
        && Overflow(With(m, b, [])) == Overflow(m)
    ensures All(With(m, b, [])) + multiset{m[b][0]} == All(m)
  {
    PlacedWith(m, hash, b, []);
    UpdateCounts(m, b, []);
    UpdateAll(m, b, []);
    assert m[b] == [m[b][0]];
  }

  /** The head of the bucket b of src becomes empty. */
  method ClearHead(src: Table, b: nat)
    requires src.StoredBut(-1) && src.Counted() && b < src.nBuckets && |src.model[b]| == 1
    modifies src`model, src`nBucketsUsed, HeadSet(src.bucket, b)`data
    ensures src.StoredBut(-1) && src.Counted() && src.model == With(old(src.model), b, [])
  {
    hide ListOk;
    Emptied(src.model, src.hash, b);
    assert BucketOk(src.bucket[b], src.chains[b], src.model[b]);
    src.bucket[b].data := 0;
    src.nBucketsUsed := src.nBucketsUsed - 1;
    src.model := With(src.model, b, []);
  }

  /** Moves the head of the bucket b of src, whose overflow is empty. */
  method TransferHead(dst: Table, src: Table, b: nat, memory: Answers, asked: nat) returns (ok: bool, now: nat)
    requires Transferring(dst, src, dst.nodes + src.nodes) && b < src.nBuckets && |src.model[b]| == 1
    modifies dst`model, dst`chains, dst`nodes, dst`nBucketsUsed, dst`freeList, dst`free, dst.nodes
    modifies src`model, src`nBucketsUsed, HeadSet(src.bucket, b)`data
    ensures Transferring(dst, src, dst.nodes + src.nodes) && Both(dst, src) == old(Both(dst, src))
    ensures TotalSupply(dst, src) >= old(TotalSupply(dst, src)) && Overflow(src.model) == old(Overflow(src.model))
    ensures ok ==> src.model == With(old(src.model), b, [])
    ensures !ok ==> src.model == old(src.model) && Exhausted(dst, src, src.model[b][0])
    ensures asked <= now && (!ok ==> LastRefused(memory, asked, now))
    ensures old(dst.nodes) <= dst.nodes && fresh(dst.nodes - old(dst.nodes))
  {
    Emptied(src.model, src.hash, b);
    assert BucketOk(src.bucket[b], src.chains[b], src.model[b]);
    var data := src.bucket[b].data;
    ok, now := MoveHead(dst, data, dst.nodes + src.nodes, memory, asked);
    if ok {
      ClearHead(src, b);
    }
  }

  /** What is left of the first buckets of src: nothing, or in a safe pass the heads. */
  ghost predicate Passed(m: Buckets, b: nat, safe: bool) {
    forall j :: 0 <= j < b && j < |m| ==> |m[j]| <= (if safe then 1 else 0)
  }

  /** Moves the entries of src to dst. A safe pass moves only overflow entries and cannot fail. */
  method TransferEntries(dst: Table, src: Table, safe: bool, memory: Answers, asked: nat)
      returns (ok: bool, now: nat, ghost x: Ptr)
    requires Transferring(dst, src, dst.nodes + src.nodes)
    modifies dst`model, dst`chains, dst`nodes, dst`nBucketsUsed, dst`freeList, dst`free, dst.nodes
    modifies src`model, src`chains, src`nodes, src`nBucketsUsed, src.nodes
    ensures Transferring(dst, src, dst.nodes + src.nodes) && Both(dst, src) == old(Both(dst, src))
    ensures TotalSupply(dst, src) >= old(TotalSupply(dst, src)) && Overflow(src.model) <= old(Overflow(src.model))
    ensures ok ==> Passed(src.model, |src.model|, safe)
    ensures safe ==> ok && now == asked
    ensures !ok ==> Exhausted(dst, src, x)
    ensures asked <= now && (!ok ==> LastRefused(memory, asked, now))
    ensures old(dst.nodes + src.nodes) <= dst.nodes + src.nodes
        && fresh(dst.nodes + src.nodes - old(dst.nodes + src.nodes))
  {
    hide Separate, ListOk, Placed;
    now, x := asked, 0;
    var b := 0;
    while b < src.nBuckets
      invariant b <= src.nBuckets && Transferring(dst, src, dst.nodes + src.nodes)
      invariant Both(dst, src) == old(Both(dst, src)) && TotalSupply(dst, src) >= old(TotalSupply(dst, src))
      invariant Overflow(src.model) <= old(Overflow(src.model))
      invariant Passed(src.model, b, safe) && asked <= now && (safe ==> now == asked)
      invariant old(dst.nodes + src.nodes) <= dst.nodes + src.nodes
          && fresh(dst.nodes + src.nodes - old(dst.nodes + src.nodes))
    {
      ok, now, x := TransferBucket(dst, src, b, safe, memory, now);
      if !ok { return; }
      b := b + 1;
    }
    ok := true;
  }

  /** Moves a bucket of src that is not empty, overflow entries first. */
  method TransferUsed(dst: Table, src: Table, b: nat, safe: bool, memory: Answers, asked: nat)
      returns (ok: bool, now: nat)
    requires Transferring(dst, src, dst.nodes + src.nodes) && b < src.nBuckets && src.model[b] != []
    modifies dst`model, dst`chains, dst`nodes, dst`nBucketsUsed, dst`freeList, dst`free, dst.nodes
    modifies src`model, src`chains, src`nodes, src`nBucketsUsed, src.nodes
    ensures Transferring(dst, src, dst.nodes + src.nodes) && Both(dst, src) == old(Both(dst, src))
    ensures TotalSupply(dst, src) >= old(TotalSupply(dst, src)) && Overflow(src.model) <= old(Overflow(src.model))
    ensures src.model == With(old(src.model), b, if ok && !safe then [] else [old(src.model)[b][0]])
    ensures safe ==> ok && now == asked
    ensures !ok ==> Exhausted(dst, src, src.model[b][0])
    ensures asked <= now && (!ok ==> LastRefused(memory, asked, now))
    ensures old(dst.nodes + src.nodes) <= dst.nodes + src.nodes
        && fresh(dst.nodes + src.nodes - old(dst.nodes + src.nodes))
  {
    hide All, Nodes, BucketOk;
    TransferChain(dst, src, b, dst.nodes + src.nodes);
    ok, now := true, asked;
    if !safe {
      ok, now := TransferHead(dst, src, b, memory, asked);
    }
  }

  lemma {:induction false} PassedOne(m: Buckets, b: nat, s: seq<Ptr>, safe: bool)
    requires b < |m| && Passed(m, b, safe) && |s| <= (if safe then 1 else 0)
    ensures Passed(With(m, b, s), b + 1, safe)
  {
  }

  /** Moves one bucket of src. */
  method TransferBucket(dst: Table, src: Table, b: nat, safe: bool, memory: Answers, asked: nat)
      returns (ok: bool, now: nat, ghost x: Ptr)
    requires Transferring(dst, src, dst.nodes + src.nodes) && b < src.nBuckets && Passed(src.model, b, safe)
    modifies dst`model, dst`chains, dst`nodes, dst`nBucketsUsed, dst`freeList, dst`free, dst.nodes
    modifies src`model, src`chains, src`nodes, src`nBucketsUsed, src.nodes
    ensures Transferring(dst, src, dst.nodes + src.nodes) && Both(dst, src) == old(Both(dst, src))
    ensures TotalSupply(dst, src) >= old(TotalSupply(dst, src)) && Overflow(src.model) <= old(Overflow(src.model))
    ensures ok ==> Passed(src.model, b + 1, safe)
    ensures safe ==> ok && now == asked
    ensures !ok ==> Exhausted(dst, src, x)
    ensures asked <= now && (!ok ==> LastRefused(memory, asked, now))
    ensures old(dst.nodes + src.nodes) <= dst.nodes + src.nodes
        && fresh(dst.nodes + src.nodes - old(dst.nodes + src.nodes))
  {
    now, x := asked, 0;
    assert BucketOk(src.bucket[b], src.chains[b], src.model[b]);
    if src.bucket[b].data == 0 { return true, now, x; }
    ghost var m := src.model;
    ok, now := TransferUsed(dst, src, b, safe, memory, asked);
    if ok {
      PassedOne(m, b, if safe then [m[b][0]] else [], safe);
    } else {
      x := src.model[b][0];
    }
  }
}
