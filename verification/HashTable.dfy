/** The chained hash table: bucket heads in place, overflow chains and a list of free entries. */
module HashTable {
  import opened Memory
  import opened HashModel
  import opened HashSize

  /** A bucket head or an overflow entry. */
  class Entry {
    var data: Ptr
    var next: Entry?

    constructor ()
      ensures data == 0 && next == null
    {
      data, next := 0, null;
    }
  }

  /** The shape of a linked list of entries, with the data they hold. */
  datatype Chain = Nil | Link(e: Entry, d: Ptr, rest: Chain)

  ghost function Nodes(c: Chain): set<Entry> {
    match c case Nil => {} case Link(e, _, rest) => {e} + Nodes(rest)
  }

  ghost function Data(c: Chain): seq<Ptr> {
    match c case Nil => [] case Link(_, d, rest) => [d] + Data(rest)
  }

  ghost function First(c: Chain): Entry? {
    match c case Nil => null case Link(e, _, _) => e
  }

  ghost function Length(c: Chain): nat {
    match c case Nil => 0 case Link(_, _, rest) => 1 + Length(rest)
  }

  ghost predicate Distinct(c: Chain) {
    c.Link? ==> c.e !in Nodes(c.rest) && Distinct(c.rest)
  }

  /** The list that starts at p is c. */
  ghost predicate ListOk(p: Entry?, c: Chain)
    reads Nodes(c)
  {
    p == First(c) && (c.Link? ==> c.e.data == c.d && ListOk(c.e.next, c.rest))
  }

  /** A bucket: the head holds the first entry, the chain the others; an empty head has no chain. */
  ghost predicate BucketOk(h: Entry, c: Chain, s: seq<Ptr>)
    reads h, Nodes(c)
  {
    && ListOk(h.next, c)
    && (if s == [] then h.data == 0 && c == Nil else h.data == s[0] && Data(c) == s[1..])
    && 0 !in s
  }

  /** Heads, chains and free entries are all different, and all in nodes. */
  ghost predicate Separate(bucket: seq<Entry>, chains: seq<Chain>, free: Chain, nodes: set<Entry>) {
    && |bucket| == |chains|
    && (forall b :: 0 <= b < |bucket| ==> bucket[b] in nodes && bucket[b] !in Nodes(free))
    && (forall b :: 0 <= b < |chains| ==>
          Nodes(chains[b]) <= nodes && Distinct(chains[b]) && Nodes(chains[b]) !! Nodes(free))
    && Nodes(free) <= nodes && Distinct(free)
    && (forall b, b' :: 0 <= b < b' < |bucket| ==> bucket[b] != bucket[b'])
    && (forall b, b' :: 0 <= b < |bucket| && 0 <= b' < |chains| ==> bucket[b] !in Nodes(chains[b']))
    && (forall b, b' :: 0 <= b < b' < |chains| ==> Nodes(chains[b]) !! Nodes(chains[b']))
  }

  ghost function HeadSet(bucket: seq<Entry>, k: nat): set<Entry> {
    if k < |bucket| then {bucket[k]} else {}
  }

  class Table {
    var bucket: seq<Entry>
    var nBuckets: nat
    var nBucketsUsed: nat
    var nEntries: nat
    const hash: Hasher
    const comparator: Comparator
    var tuning: Tuning
    var freeList: Entry?
    ghost var model: Buckets
    ghost var chains: seq<Chain>
    ghost var free: Chain
    ghost var nodes: set<Entry>

    /** A table with empty buckets, which takes over the free list of another one. */
    constructor (bucket: seq<Entry>, hash: Hasher, comparator: Comparator, tuning: Tuning, freeList: Entry?,
        ghost free: Chain)
      requires 0 < |bucket| <= MAX_BUCKETS && Within(hash)
      requires forall b :: 0 <= b < |bucket| ==>
        bucket[b].data == 0 && bucket[b].next == null && bucket[b] !in Nodes(free)
      requires forall b, b' :: 0 <= b < b' < |bucket| ==> bucket[b] != bucket[b']
      requires Distinct(free) && ListOk(freeList, free)
      ensures Valid() && this.bucket == bucket && this.hash == hash && this.comparator == comparator
          && this.tuning == tuning && this.free == free && this.freeList == freeList
      ensures nodes == (set b | 0 <= b < |bucket| :: bucket[b]) + Nodes(free)
      ensures forall b :: 0 <= b < |model| ==> model[b] == []
      ensures All(model) == multiset{} && Overflow(model) == 0 && nEntries == 0
    {
      this.bucket, this.nBuckets, this.nBucketsUsed, this.nEntries := bucket, |bucket|, 0, 0;
      this.hash, this.comparator, this.tuning, this.freeList := hash, comparator, tuning, freeList;
      this.model, this.chains, this.free := seq(|bucket|, _ => []), seq(|bucket|, _ => Nil), free;
      this.nodes := (set b | 0 <= b < |bucket| :: bucket[b]) + Nodes(free);
      new;
      hide Placed, Overflow;
      Empty(model);
    }

    /** Memory holds the model in the buckets; the free list is not looked at. The overflow
        pointer of the bucket x, if there is one, is being changed. */
    ghost predicate StoredBut(x: int)
      reads `bucket, `model, `chains, `free, `nodes, nodes
    {
      && Separate(bucket, chains, free, nodes) && |model| == |bucket|
      && (forall b :: 0 <= b < |bucket| && b != x ==> BucketOk(bucket[b], chains[b], model[b]))
      && (0 <= x < |bucket| ==> model[x] == [bucket[x].data] && bucket[x].data != 0 && chains[x] == Nil)
    }

    /** Memory holds the model, with the free list. */
    ghost predicate Memory()
      reads `bucket, `model, `chains, `free, `nodes, `freeList, nodes
    {
      StoredBut(-1) && ListOk(freeList, free)
    }

    /** Every entry is in its bucket, and the used buckets are counted. */
    ghost predicate Counted()
      reads `bucket, `model, `nBuckets, `nBucketsUsed
    {
      |model| == |bucket| == nBuckets && 0 < nBuckets <= MAX_BUCKETS && Within(hash) && Placed(model, hash)
          && nBucketsUsed == Used(model)
    }

    ghost predicate Valid()
      reads `bucket, `model, `chains, `free, `nodes, `freeList, `nBuckets, `nBucketsUsed, nodes
    {
      Memory() && Counted()
    }

    /** Saves an entry for later recycling. */
    method FreeEntry(e: Entry, ghost S: set<Entry>)
      requires Valid() && e !in nodes && nodes <= S && e in S
      modifies this`freeList, this`free, this`nodes, e
      ensures Valid() && nodes == old(nodes) + {e} && free == Link(e, 0, old(free))
      ensures model == old(model)
    {
      hide Used, Placed, BucketOk, Within;
      e.data := 0;
      e.next := freeList;
      freeList := e;
      free := Link(e, 0, free);
      nodes := nodes + {e};
    }

    /** A new entry for a bucket overflow: a recycled one, or else a new one, if memory permits. */
    method AllocateEntry(ghost S: set<Entry>, memory: Answers, asked: nat) returns (e: Entry?, now: nat)
      requires Valid() && nodes <= S
      modifies this`freeList, this`free, this`nodes
      ensures Valid() && model == old(model)
      ensures e != null ==> e !in nodes && (e in old(nodes) || fresh(e))
      ensures old(free).Link? ==> e != null && free == old(free).rest && now == asked
      ensures old(free).Nil? ==> free == Nil && now == asked + 1 && (e != null <==> Granted(memory, asked))
      ensures old(free).Nil? && e != null ==> fresh(e)
      ensures nodes == old(nodes) - (if e == null then {} else {e})
    {
      now := asked;
      if freeList != null {
        e := freeList;
        freeList := e.next;
        nodes := nodes - {e};
        free := free.rest;
      } else {
        now := asked + 1;
        if Granted(memory, asked) {
          e := new Entry();
        } else {
          e := null;
        }
      }
    }

    /** The bucket k holds s now, with the chain c. */
    ghost method Record(k: nat, c: Chain, s: seq<Ptr>, all: set<Entry>)
      requires |model| == |bucket| == |chains| && k < |bucket| && Separate(bucket, chains[k := c], free, all)
      requires forall b :: 0 <= b < |bucket| && b != k ==> BucketOk(bucket[b], chains[b], model[b])
      requires BucketOk(bucket[k], c, s) && ListOk(freeList, free)
      modifies this`model, this`chains, this`nodes
      ensures Memory() && nodes == all && model == With(old(model), k, s)
    {
      model := With(model, k, s);
      chains := chains[k := c];
      nodes := all;
    }

    /** The assignments that put e in front of the overflow chain of the bucket k. */
    method Relink(k: nat, e: Entry, ghost d: Ptr, ghost S: set<Entry>)
      requires Memory() && k < |bucket| && model[k] != [] && e !in nodes && nodes <= S && e in S
      requires e.data == d != 0
      modifies this`model, this`chains, this`nodes, e, HeadSet(bucket, k)`next
      ensures Memory() && nodes == old(nodes) + {e}
      ensures model == With(old(model), k, AfterHead(old(model)[k], d))
    {
      SeparateLink(bucket, chains, free, nodes, k, e, d);
      assert BucketOk(bucket[k], chains[k], model[k]);
      e.next := bucket[k].next;
      bucket[k].next := e;
      Record(k, Link(e, d, chains[k]), AfterHead(model[k], d), nodes + {e});
    }

    /** Puts e, which holds an entry, into the overflow of the bucket k, after the head. */
    method LinkOverflow(k: nat, e: Entry, ghost d: Ptr, ghost S: set<Entry>)
      requires Valid() && k < nBuckets && model[k] != [] && e !in nodes && nodes <= S && e in S
      requires e.data == d != 0 && Slot(hash, d, nBuckets) == k
      modifies this`model, this`chains, this`nodes, e, HeadSet(bucket, k)`next
      ensures Valid() && nodes == old(nodes) + {e}
      ensures model == With(old(model), k, AfterHead(old(model)[k], d))
    {
      Pushed(model, hash, k, d);
      Relink(k, e, d, S);
    }

    /** The assignment that fills the empty head of the bucket k. */
    method Fill(k: nat, d: Ptr, ghost S: set<Entry>)
      requires Memory() && k < |bucket| && model[k] == [] && d != 0 && nodes <= S
      modifies this`model, HeadSet(bucket, k)`data
      ensures Memory() && model == With(old(model), k, [d])
    {
      assert BucketOk(bucket[k], chains[k], model[k]);
      bucket[k].data := d;
      model := With(model, k, [d]);
    }

    /** Puts an entry into the empty bucket k. */
    method SetHead(k: nat, d: Ptr, ghost S: set<Entry>)
      requires Valid() && k < nBuckets && model[k] == [] && d != 0 && Slot(hash, d, nBuckets) == k && nodes <= S
      modifies this`model, this`nBucketsUsed, HeadSet(bucket, k)`data
      ensures Valid() && model == With(old(model), k, [d])
    {
      Started(model, hash, k, d);
      Fill(k, d, S);
      nBucketsUsed := nBucketsUsed + 1;
    }
  }

  lemma {:induction false} SeparateLink(bucket: seq<Entry>, chains: seq<Chain>, free: Chain, nodes: set<Entry>, k: nat,
      e: Entry, d: Ptr)
    requires Separate(bucket, chains, free, nodes) && k < |chains| && e !in nodes
    ensures Separate(bucket, chains[k := Link(e, d, chains[k])], free, nodes + {e})
  {
  }
}
