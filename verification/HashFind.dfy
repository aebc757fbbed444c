/** Finding an entry, and unlinking the entry found. */
module HashFind {
  import opened Sequences
  import opened HashModel
  import opened HashTable

  predicate Matches(comparator: Comparator, entry: Ptr, data: Ptr) {
    entry == data || comparator(entry, data)
  }

  ghost predicate NoMatch(s: seq<Ptr>, comparator: Comparator, entry: Ptr) {
    forall i :: 0 <= i < |s| ==> !Matches(comparator, entry, s[i])
  }

  ghost function Append(c: Chain, d: Chain): Chain {
    match c case Nil => d case Link(e, x, rest) => Link(e, x, Append(rest, d))
  }

  ghost function Last(c: Chain): Entry
    requires c.Link?
  {
    if c.rest.Nil? then c.e else Last(c.rest)
  }

  lemma {:induction false} LastIn(c: Chain)
    requires c.Link?
    ensures Last(c) in Nodes(c)
    decreases c
  {
    if c.rest.Link? { LastIn(c.rest); }
  }

  lemma {:induction false} AppendNodes(c: Chain, d: Chain)
    ensures Nodes(Append(c, d)) == Nodes(c) + Nodes(d) && Data(Append(c, d)) == Data(c) + Data(d)
    decreases c
  {
    if c.Link? { AppendNodes(c.rest, d); }
  }

  lemma {:induction false} AppendDistinct(c: Chain, d: Chain)
    ensures Distinct(Append(c, d)) <==> Distinct(c) && Distinct(d) && Nodes(c) !! Nodes(d)
    decreases c
  {
    if c.Link? {
      AppendNodes(c.rest, d);
      AppendDistinct(c.rest, d);
    }
  }

  lemma {:induction false} AppendAssoc(c: Chain, d: Chain, f: Chain)
    ensures Append(Append(c, d), f) == Append(c, Append(d, f))
    decreases c
  {
    if c.Link? { AppendAssoc(c.rest, d, f); }
  }

  /** The nodes whose link a path follows: all but the last. */
  ghost function Inner(c: Chain): set<Entry> {
    if c.Nil? || c.rest.Nil? then {} else {c.e} + Inner(c.rest)
  }

  lemma {:induction false} InnerNodes(c: Chain)
    ensures Inner(c) <= Nodes(c) && (c.Link? && Distinct(c) ==> Last(c) !in Inner(c))
    decreases c
  {
    if c.Link? {
      InnerNodes(c.rest);
      if c.rest.Link? { LastIn(c.rest); }
    }
  }

  /** The nodes of c are linked from p on; the link of the last one is not looked at. */
  ghost predicate Path(p: Entry?, c: Chain)
    reads Nodes(c)`data, Inner(c)`next
  {
    c.Link? ==> p == c.e && c.e.data == c.d && (c.rest.Link? ==> Path(c.e.next, c.rest))
  }

  lemma {:induction false} Joined(p: Entry?, c: Chain, d: Chain)
    requires c.Link? && Path(p, c) && ListOk(Last(c).next, d)
    ensures ListOk(p, Append(c, d))
    decreases c
  {
    AppendNodes(c, d);
    AppendNodes(c.rest, d);
    if c.rest.Link? { Joined(c.e.next, c.rest, d); }
  }

  lemma {:induction false} Extended(p: Entry?, c: Chain, e: Entry, d: Ptr)
    requires c.Link? && Path(p, c) && Last(c).next == e && e.data == d
    ensures Path(p, Append(c, Link(e, d, Nil))) && Last(Append(c, Link(e, d, Nil))) == e
    decreases c
  {
    if c.rest.Link? { Extended(c.e.next, c.rest, e, d); }
  }

  /** The search has passed the head of the bucket k and the chain front, and has come to cursor. */
  ghost predicate Scanning(table: Table, k: nat, cursor: Entry, front: Chain, rest: Chain)
    reads table, table.nodes
  {
    && table.Valid() && k < table.nBuckets && table.model[k] != []
    && table.chains[k] == Append(front, rest) && Nodes(front) + Nodes(rest) <= table.nodes
        && Inner(front) <= table.nodes
    && (if front.Nil? then cursor == table.bucket[k] else Path(table.bucket[k].next, front) && cursor == Last(front))
    && cursor in table.nodes && ListOk(cursor.next, rest)
  }

  lemma {:induction false} ScanStart(table: Table, k: nat)
    requires table.Valid() && k < table.nBuckets && table.model[k] != []
    ensures Scanning(table, k, table.bucket[k], Nil, table.chains[k])
  {
    assert BucketOk(table.bucket[k], table.chains[k], table.model[k]);
  }

  lemma {:induction false} ScanStep(table: Table, k: nat, cursor: Entry, front: Chain, rest: Chain)
    requires Scanning(table, k, cursor, front, rest) && rest.Link?
    ensures cursor.next != null && Scanning(table, k, cursor.next, Append(front, Link(rest.e, rest.d, Nil)), rest.rest)
  {
    var one := Link(rest.e, rest.d, Nil);
    AppendAssoc(front, one, rest.rest);
    AppendNodes(front, one);
    InnerNodes(Append(front, one));
    if front.Link? { Extended(table.bucket[k].next, front, rest.e, rest.d); }
  }

  /** Looks for the entry in the overflow of the bucket k; cursor comes before it. */
  method Scan(table: Table, entry: Ptr, k: nat) returns (cursor: Entry, ghost front: Chain, ghost rest: Chain)
    requires table.Valid() && k < table.nBuckets && table.model[k] != []
    ensures Scanning(table, k, cursor, front, rest) && NoMatch(Data(front), table.comparator, entry)
    ensures rest.Link? ==> Matches(table.comparator, entry, rest.d)
  {
    cursor := table.bucket[k];
    front, rest := Nil, table.chains[k];
    ScanStart(table, k);
    while cursor.next != null
      invariant Scanning(table, k, cursor, front, rest) && NoMatch(Data(front), table.comparator, entry)
      decreases rest
    {
      if Matches(table.comparator, entry, cursor.next.data) { return; }
      ScanStep(table, k, cursor, front, rest);
      AppendNodes(front, Link(rest.e, rest.d, Nil));
      cursor := cursor.next;
      front, rest := Append(front, Link(rest.e, rest.d, Nil)), rest.rest;
    }
  }

  lemma {:induction false} WithoutContents(s: seq<Ptr>, i: nat)
    requires i < |s|
    ensures multiset(Without(s, i)) + multiset{s[i]} == multiset(s)
    ensures forall x :: x in Without(s, i) ==> x in s
  {
    assert s == s[..i] + [s[i]] + s[i + 1..];
  }

  /** A bucket loses one entry. */
  lemma {:induction false} Dropped(m: Buckets, hash: Hasher, k: nat, i: nat)
    requires Placed(m, hash) && k < |m| && i < |m[k]|
    ensures Placed(With(m, k, Without(m[k], i)), hash)
    ensures All(With(m, k, Without(m[k], i))) + multiset{m[k][i]} == All(m)
    ensures Used(With(m, k, Without(m[k], i))) == Used(m) - (if |m[k]| == 1 then 1 else 0)
  {
    var s := Without(m[k], i);
    WithoutContents(m[k], i);
    forall x | x in s ensures Slot(hash, x, |m|) == k {
      var j :| 0 <= j < |m[k]| && m[k][j] == x;
    }
    PlacedWith(m, hash, k, s);
    UpdateCounts(m, k, s);
    UpdateAll(m, k, s);
    Cancel(All(m), multiset(s), All(With(m, k, s)), multiset{m[k][i]});
  }

  lemma {:induction false} SeparateUnlink(bucket: seq<Entry>, chains: seq<Chain>, free: Chain, nodes: set<Entry>,
      k: nat, front: Chain, rest: Chain)
    requires Separate(bucket, chains, free, nodes) && k < |chains| && chains[k] == Append(front, rest) && rest.Link?
    ensures Separate(bucket, chains[k := Append(front, rest.rest)], free, nodes - {rest.e})
    ensures rest.e !in Nodes(front) && rest.e in nodes && rest.e !in Nodes(rest.rest)
        && Nodes(Append(front, rest.rest)) <= Nodes(chains[k])
    ensures forall b :: 0 <= b < |bucket| ==> bucket[b] != rest.e
    ensures forall b :: 0 <= b < |chains| && b != k ==> rest.e !in Nodes(chains[b])
  {
    AppendNodes(front, rest);
    AppendNodes(front, rest.rest);
    AppendDistinct(front, rest);
    AppendDistinct(front, rest.rest);
  }

  /** The model of a bucket that loses an overflow entry. */
  lemma {:induction false} DataUnlink(s: seq<Ptr>, front: Chain, rest: Chain)
    requires s != [] && s[1..] == Data(Append(front, rest)) && rest.Link?
    ensures 1 + |Data(front)| < |s| && s[1 + |Data(front)|] == rest.d
    ensures Without(s, 1 + |Data(front)|)[1..] == Data(Append(front, rest.rest))
    ensures Without(s, 1 + |Data(front)|)[0] == s[0]
    ensures s[1..1 + |Data(front)|] == Data(front)
  {
    hide Append, Nodes;
    AppendNodes(front, rest);
    AppendNodes(front, rest.rest);
    var i := 1 + |Data(front)|;
    assert s == [s[0]] + (Data(front) + ([rest.d] + Data(rest.rest)));
    assert s[..i] == [s[0]] + Data(front);
    assert s[i + 1..] == Data(rest.rest);
  }

  /** The assignment that takes the entry after cursor out of its chain. */
  method Skip(table: Table, k: nat, cursor: Entry, ghost front: Chain, ghost rest: Chain)
    requires Scanning(table, k, cursor, front, rest) && rest.Link?
    requires cursor !in Nodes(rest) && (front.Link? ==> cursor != table.bucket[k] && cursor !in Inner(front))
    modifies cursor`next
    ensures ListOk(table.bucket[k].next, Append(front, rest.rest))
  {
    cursor.next := cursor.next.next;
    if front.Link? { Joined(table.bucket[k].next, front, rest.rest); }
  }

  lemma {:induction false} CursorApart(table: Table, k: nat, cursor: Entry, front: Chain, rest: Chain)
    requires Scanning(table, k, cursor, front, rest) && rest.Link?
    ensures cursor !in Nodes(rest)
    ensures front.Link? ==> cursor != table.bucket[k] && cursor !in Inner(front) && cursor in Nodes(front)
    ensures cursor !in Nodes(table.free)
    ensures forall b :: 0 <= b < |table.bucket| && b != k ==>
      table.bucket[b] != cursor && cursor !in Nodes(table.chains[b])
    ensures table.bucket[k].data == table.model[k][0] && Data(table.chains[k]) == table.model[k][1..]
  {
    assert BucketOk(table.bucket[k], table.chains[k], table.model[k]);
    AppendNodes(front, rest);
    AppendDistinct(front, rest);
    InnerNodes(front);
    if front.Link? { LastIn(front); }
  }

  /** Takes the entry after cursor out of the table. */
  method Unlink(table: Table, k: nat, cursor: Entry, ghost front: Chain, ghost rest: Chain)
    requires Scanning(table, k, cursor, front, rest) && rest.Link?
    modifies table`model, table`chains, table`nodes, cursor`next
    ensures table.Memory() && table.nodes == old(table.nodes) - {rest.e} && rest.e in old(table.nodes)
    ensures 1 + |Data(front)| < |old(table.model)[k]|
    ensures table.model == With(old(table.model), k, Without(old(table.model)[k], 1 + |Data(front)|))
  {
    hide Data, Within, Nodes;
    CursorApart(table, k, cursor, front, rest);
    DataUnlink(table.model[k], front, rest);
    SeparateUnlink(table.bucket, table.chains, table.free, table.nodes, k, front, rest);
    WithoutContents(table.model[k], 1 + |Data(front)|);
    assert BucketOk(table.bucket[k], table.chains[k], table.model[k]);
    Skip(table, k, cursor, front, rest);
    table.Record(k, Append(front, rest.rest), Without(table.model[k], 1 + |Data(front)|), table.nodes - {rest.e});
  }

  /** The first overflow entry moves into the head of the bucket k. */
  method Bump(table: Table, k: nat) returns (next: Entry)
    requires table.Valid() && k < table.nBuckets && |table.model[k]| > 1
    modifies table`model, table`chains, table`nodes, HeadSet(table.bucket, k)
    ensures table.Memory() && table.nodes == old(table.nodes) - {next} && next in old(table.nodes)
    ensures table.model == With(old(table.model), k, Without(old(table.model)[k], 0))
  {
    assert BucketOk(table.bucket[k], table.chains[k], table.model[k]);
    next := table.bucket[k].next;
    SeparateUnlink(table.bucket, table.chains, table.free, table.nodes, k, Nil, table.chains[k]);
    table.bucket[k].data, table.bucket[k].next := next.data, next.next;
    table.Record(k, table.chains[k].rest, Without(table.model[k], 0), table.nodes - {next});
  }

  method BumpCounted(table: Table, k: nat) returns (next: Entry)
    requires table.Valid() && k < table.nBuckets && |table.model[k]| > 1
    modifies table`model, table`chains, table`nodes, HeadSet(table.bucket, k)
    ensures table.Valid() && table.nodes == old(table.nodes) - {next} && next in old(table.nodes)
    ensures table.model == With(old(table.model), k, Without(old(table.model)[k], 0))
  {
    ghost var m := table.model;
    next := Bump(table, k);
    Dropped(m, table.hash, k, 0);
  }

  /** The only entry of the bucket k goes. */
  method EmptyBucket(table: Table, k: nat)
    requires table.Valid() && k < table.nBuckets && |table.model[k]| == 1
    modifies table`model, HeadSet(table.bucket, k)`data
    ensures table.Memory() && table.model == With(old(table.model), k, Without(old(table.model)[k], 0))
  {
    assert BucketOk(table.bucket[k], table.chains[k], table.model[k]);
    table.bucket[k].data := 0;
    table.model := With(table.model, k, Without(table.model[k], 0));
  }

  /** The bucket k has lost the entry at i; it may have become empty. */
  ghost predicate Lost(table: Table, m: Buckets, k: nat, i: nat)
    reads table, table.nodes
  {
    && k < |m| == table.nBuckets && i < |m[k]| && table.model == With(m, k, Without(m[k], i))
    && table.Memory() && (|m[k]| > 1 ==> table.Valid())
  }

  /** Takes the entry after cursor out; the bucket keeps its head, so the counters stay right. */
  method UnlinkCounted(table: Table, k: nat, cursor: Entry, ghost front: Chain, ghost rest: Chain)
    requires Scanning(table, k, cursor, front, rest) && rest.Link?
    modifies table`model, table`chains, table`nodes, cursor`next
    ensures table.Valid() && table.nodes == old(table.nodes) - {rest.e} && rest.e in old(table.nodes)
    ensures 1 + |Data(front)| < |old(table.model)[k]|
    ensures table.model == With(old(table.model), k, Without(old(table.model)[k], 1 + |Data(front)|))
  {
    hide Separate, BucketOk, ListOk, Path, Append;
    ghost var m := table.model;
    Unlink(table, k, cursor, front, rest);
    Dropped(m, table.hash, k, 1 + |Data(front)|);
  }

  /** Deletes the entry after cursor, and saves its node for recycling. */
  method DeleteAfter(table: Table, k: nat, cursor: Entry, ghost front: Chain, ghost rest: Chain)
    requires Scanning(table, k, cursor, front, rest) && rest.Link?
    modifies table`model, table`chains, table`nodes, table`freeList, table`free, table.nodes
    ensures table.nodes == old(table.nodes) && |old(table.model)[k]| > 1
        && Lost(table, old(table.model), k, 1 + |Data(front)|)
  {
    var next := cursor.next;
    ghost var S := table.nodes;
    UnlinkCounted(table, k, cursor, front, rest);
    table.FreeEntry(next, S);
  }

  /** Deletes the entry in the head of the bucket k. */
  method DeleteHead(table: Table, k: nat)
    requires table.Valid() && k < table.nBuckets && table.model[k] != []
    modifies table`model, table`chains, table`nodes, table`freeList, table`free, table.nodes
    ensures table.nodes == old(table.nodes) && Lost(table, old(table.model), k, 0)
  {
    assert BucketOk(table.bucket[k], table.chains[k], table.model[k]);
    if table.bucket[k].next != null {
      ghost var S := table.nodes;
      var next := BumpCounted(table, k);
      table.FreeEntry(next, S);
    } else {
      EmptyBucket(table, k);
    }
  }

  lemma {:induction false} Found(table: Table, entry: Ptr, k: nat, cursor: Entry, front: Chain, rest: Chain)
    requires Scanning(table, k, cursor, front, rest) && NoMatch(Data(front), table.comparator, entry)
    requires !Matches(table.comparator, entry, table.model[k][0])
    ensures rest.Nil? ==> NoMatch(table.model[k], table.comparator, entry)
    ensures rest.Link? ==> 1 + |Data(front)| < |table.model[k]| && table.model[k][1 + |Data(front)|] == rest.d != 0
    ensures rest.Link? ==> NoMatch(table.model[k][..1 + |Data(front)|], table.comparator, entry)
  {
    assert BucketOk(table.bucket[k], table.chains[k], table.model[k]);
    AppendNodes(front, rest);
    if rest.Link? {
      DataUnlink(table.model[k], front, rest);
      assert table.model[k][..1 + |Data(front)|] == [table.model[k][0]] + Data(front);
    } else {
      assert table.model[k] == [table.model[k][0]] + Data(front);
    }
  }

  /** The first match in the bucket k is data, at position i: in the head, or after the overflow entries front. */
  ghost predicate Located(table: Table, entry: Ptr, k: nat, data: Ptr, i: nat)
    reads table
  {
    && k < |table.model| && i < |table.model[k]| && data == table.model[k][i] && data != 0
    && Matches(table.comparator, entry, data) && NoMatch(table.model[k][..i], table.comparator, entry)
  }

  /** Finds the first entry of its bucket that matches; before is what comes before it in the chain,
      or null if it is in the head. */
  method Locate(table: Table, entry: Ptr)
      returns (data: Ptr, k: nat, before: Entry?, ghost front: Chain, ghost rest: Chain)
    requires table.Valid()
    ensures k == Slot(table.hash, entry, table.nBuckets) < table.nBuckets
    ensures data == 0 ==> NoMatch(table.model[k], table.comparator, entry)
    ensures data != 0 && before == null ==> Located(table, entry, k, data, 0)
    ensures data != 0 && before != null ==>
      Located(table, entry, k, data, 1 + |Data(front)|) && Scanning(table, k, before, front, rest) && rest.Link?
  {
    k, before, front, rest := Slot(table.hash, entry, table.nBuckets), null, Nil, Nil;
    assert BucketOk(table.bucket[k], table.chains[k], table.model[k]);
    data := table.bucket[k].data;
    if data == 0 || Matches(table.comparator, entry, data) { return; }
    before, front, rest := Scan(table, entry, k);
    Found(table, entry, k, before, front, rest);
    data := if before.next == null then 0 else before.next.data;
  }

  /** Finds the first entry of its bucket that matches, and unlinks it if asked to. */
  method FindEntry(table: Table, entry: Ptr, delete: bool) returns (data: Ptr, k: nat, ghost i: nat)
    requires table.Valid()
    modifies table`model, table`chains, table`nodes, table`freeList, table`free, table.nodes
    ensures k == Slot(table.hash, entry, table.nBuckets) < table.nBuckets && table.nodes == old(table.nodes)
    ensures data == 0 || !delete ==> table.Valid() && table.model == old(table.model)
    ensures data == 0 ==> NoMatch(table.model[k], table.comparator, entry)
    ensures data != 0 ==> old(Located(table, entry, k, data, i))
    ensures data != 0 && delete ==> Lost(table, old(table.model), k, i)
  {
    var before;
    ghost var front, rest;
    data, k, before, front, rest := Locate(table, entry);
    i := if before == null then 0 else 1 + |Data(front)|;
    if data != 0 && delete {
      if before == null {
        DeleteHead(table, k);
      } else {
        DeleteAfter(table, k, before, front, rest);
      }
    }
  }
}
