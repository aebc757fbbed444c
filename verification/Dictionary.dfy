/** Dictionaries: keys and values in the entries of a hash table. */
module Dictionary {
  import opened Memory
  import opened HashModel
  import opened HashSize
  import opened HashTable
  import opened HashFind
  import opened HashOperations
  import opened HashWalk

  type Key = int
  type Value = int

  type Equality = (Key, Key) -> bool

  predicate Same(equal: Equality, a: Key, b: Key) { equal(a, b) }

  /** The key that the entry at an address is allocated with. */
  function KeyOf(keyOf: Ptr -> Key, p: Ptr): Key { keyOf(p) }

  ghost predicate Equivalence(equal: Equality) {
    && (forall a :: Same(equal, a, a))
    && (forall a, b :: Same(equal, a, b) ==> Same(equal, b, a))
    && (forall a, b, c {:trigger Same(equal, a, b), Same(equal, b, c)} ::
          Same(equal, a, b) && Same(equal, b, c) ==> Same(equal, a, c))
  }

  /** Whether the entry at p belongs to the key k. */
  predicate For(equal: Equality, keyOf: Ptr -> Key, p: Ptr, k: Key) { Same(equal, KeyOf(keyOf, p), k) }

  /** Entries match if their keys are equal. */
  ghost predicate ByKey(comparator: Comparator, equal: Equality, keyOf: Ptr -> Key) {
    forall p, q {:trigger Matches(comparator, p, q)} :: Matches(comparator, p, q) <==>
      For(equal, keyOf, p, KeyOf(keyOf, q))
  }

  class Dict {
    const ht: Table
    /** The key that an entry is allocated with. The key that it has now may be another, but equal, one. */
    const keyOf: Ptr -> Key
    const equal: Equality
    /** The fields of the entries. */
    var keys: map<Ptr, Key>
    var values: map<Ptr, Value>

    constructor (ht: Table, keyOf: Ptr -> Key, equal: Equality)
      requires Complete(ht) && All(ht.model) == multiset{} && Equivalence(equal)
      requires ByKey(ht.comparator, equal, keyOf)
      ensures Valid() && this.ht == ht && this.keyOf == keyOf && this.equal == equal
      ensures forall k, v :: !Maps(k, v)
    {
      this.ht, this.keyOf, this.equal := ht, keyOf, equal;
      keys, values := map[], map[];
    }

    /** Everything but the link between the table and the fields of its entries. */
    ghost predicate Sound()
      reads this, ht, ht.nodes
    {
      Complete(ht) && Equivalence(equal) && ByKey(ht.comparator, equal, keyOf)
    }

    /** Just the entries that the table has are there, each with a key equal to that it was made with. */
    ghost predicate Fields(entries: multiset<Ptr>)
      reads this
    {
      FieldsIn(keys, values, entries)
    }

    ghost predicate FieldsIn(keys: map<Ptr, Key>, values: map<Ptr, Value>, entries: multiset<Ptr>) {
      && keys.Keys == values.Keys
      && (forall p :: p in entries <==> p in keys)
      && (forall p :: p in keys ==> For(equal, keyOf, p, keys[p]))
    }

    ghost predicate Valid()
      reads this, ht, ht.nodes
    {
      Sound() && Fields(All(ht.model))
    }

    /** The dictionary has the value v for the key k. */
    ghost predicate Maps(k: Key, v: Value)
      reads this
    {
      MapsIn(values, k, v)
    }

    ghost predicate MapsIn(m: map<Ptr, Value>, k: Key, v: Value) {
      exists p :: p in m && For(equal, keyOf, p, k) && m[p] == v
    }

    lemma {:induction false} ForBoth(p: Ptr, j: Key, k: Key)
      requires Equivalence(equal) && For(equal, keyOf, p, k)
      ensures For(equal, keyOf, p, j) <==> Same(equal, j, k)
    {
      assert Same(equal, k, KeyOf(keyOf, p));
      assert Same(equal, j, k) ==> Same(equal, j, KeyOf(keyOf, p));
    }

    /** Two keys of entries that match the same key. */
    lemma {:induction false} OneEntry(p: Ptr, q: Ptr, k: Key)
      requires Valid() && p in keys && q in keys && For(equal, keyOf, p, k) && For(equal, keyOf, q, k)
      ensures p == q
    {
      assert Same(equal, k, KeyOf(keyOf, q));
      assert Matches(ht.comparator, p, q);
    }

    /** A key has at most one value. */
    lemma {:induction false} OneValue(k: Key, v: Value, w: Value)
      requires Valid() && Maps(k, v) && Maps(k, w)
      ensures v == w
    {
      var p :| p in values && For(equal, keyOf, p, k) && values[p] == v;
      var q :| q in values && For(equal, keyOf, q, k) && values[q] == w;
      OneEntry(p, q, k);
    }

    /** Finds the entry of a key; q is the address of an entry with that key, for the search only. */
    method FindEnt(q: Ptr, k: Key) returns (p: Ptr)
      requires Valid() && KeyOf(keyOf, q) == k
      ensures p == 0 ==> forall x :: x in keys ==> !For(equal, keyOf, x, k)
      ensures p != 0 ==> p in keys && For(equal, keyOf, p, k)
    {
      p := HashOperations.Lookup(ht, q);
      if p == 0 {
        forall x | x in keys ensures !For(equal, keyOf, x, k) {
          assert Matches(ht.comparator, q, x) <==> For(equal, keyOf, q, KeyOf(keyOf, x));
        }
      } else {
        assert Same(equal, KeyOf(keyOf, q), KeyOf(keyOf, p));
      }
    }

    /** The value of a key, if there is one. */
    method Lookup(q: Ptr, k: Key) returns (found: bool, v: Value)
      requires Valid() && KeyOf(keyOf, q) == k
      ensures found ==> Maps(k, v)
      ensures !found ==> forall w :: !Maps(k, w)
    {
      var p := FindEnt(q, k);
      found := p != 0;
      v := if found then values[p] else 0;
    }

    /** A new value for the entry at p, and with it the key, if that is to be replaced. */
    method SetValue(p: Ptr, k: Key, v: Value, replaceKey: bool)
      requires Valid() && p in keys && For(equal, keyOf, p, k)
      modifies `keys, `values
      ensures Valid() && keys == (if replaceKey then old(keys)[p := k] else old(keys))
      ensures forall j, x :: Maps(j, x) <==> if Same(equal, j, k) then x == v else old(Maps(j, x))
    {
      hide Table.StoredBut, Placed, Equivalence, Table.Counted;
      forall q | q in values && q != p ensures !For(equal, keyOf, q, k) {
        if For(equal, keyOf, q, k) { OneEntry(p, q, k); }
      }
      if replaceKey {
        ForBoth(p, k, k);
        keys := keys[p := k];
      }
      values := values[p := v];
      SetMaps(old(values), p, k, v);
    }

    /** The values after that of the entry at p has been set. */
    lemma {:induction false} SetMaps(before: map<Ptr, Value>, p: Ptr, k: Key, v: Value)
      requires Equivalence(equal) && values == before[p := v] && For(equal, keyOf, p, k)
      requires forall q :: q in before && q != p ==> !For(equal, keyOf, q, k)
      ensures forall j, x :: Maps(j, x) <==> if Same(equal, j, k) then x == v else MapsIn(before, j, x)
    {
      forall j, x ensures Maps(j, x) <==> if Same(equal, j, k) then x == v else MapsIn(before, j, x) {
        ForBoth(p, j, k);
        if Same(equal, j, k) {
          forall q | q in values && For(equal, keyOf, q, j) ensures q == p {
            ForBoth(q, k, j);
          }
          assert p in values && For(equal, keyOf, p, j);
        }
      }
    }

    /** The fields of a new entry, which is in the table already. */
    method Fill(p: Ptr, k: Key, v: Value, ghost before: multiset<Ptr>)
      requires Sound() && Fields(before) && p !in keys && KeyOf(keyOf, p) == k && All(ht.model) == before + multiset{p}
      requires forall x :: x in keys ==> !For(equal, keyOf, x, k)
      modifies `keys, `values
      ensures Valid() && keys == old(keys)[p := k]
      ensures forall j, x :: Maps(j, x) <==> if Same(equal, j, k) then x == v else old(Maps(j, x))
    {
      keys := keys[p := k];
      values := values[p := v];
      SetMaps(old(values), p, k, v);
    }

    /** Puts a new entry into the table. */
    method InsertEnt(p: Ptr, k: Key, memory: Answers, asked: nat) returns (ok: bool, now: nat)
      requires Valid() && KeyOf(keyOf, p) == k && p != 0 && p !in keys
      requires forall x :: x in keys ==> !For(equal, keyOf, x, k)
      modifies ht, ht.nodes
      ensures fresh(ht.nodes - old(ht.nodes))
      ensures Sound() && All(ht.model) == old(All(ht.model)) + (if ok then multiset{p} else multiset{})
      ensures !ok ==> Refused(memory, asked, now) || old(TooLarge(ht.nBucketsUsed, ht.nBuckets, ht.tuning))
      ensures asked <= now
    {
      forall x | x in All(ht.model) ensures !Matches(ht.comparator, p, x) {
        assert Matches(ht.comparator, p, x) ==> Same(equal, KeyOf(keyOf, x), k);
      }
      var r, matched;
      r, matched, now := InsertIfAbsent(ht, p, memory, asked);
      ok := r == 1;
    }

    /** A new entry with its fields. */
    method AddNew(p: Ptr, k: Key, v: Value, memory: Answers, asked: nat) returns (ok: bool, now: nat)
      requires Valid() && KeyOf(keyOf, p) == k && p != 0 && p !in keys
      requires forall x :: x in keys ==> !For(equal, keyOf, x, k)
      modifies this, ht, ht.nodes
      ensures Valid() && fresh(ht.nodes - old(ht.nodes)) && keys == (if ok then old(keys)[p := k] else old(keys))
      ensures ok ==> forall j, x :: Maps(j, x) <==> if Same(equal, j, k) then x == v else old(Maps(j, x))
      ensures !ok ==> values == old(values)
      ensures !ok ==> Refused(memory, asked, now) || old(TooLarge(ht.nBucketsUsed, ht.nBuckets, ht.tuning))
      ensures asked < now
    {
      ghost var before := All(ht.model);
      if !Granted(memory, asked) { return false, asked + 1; }
      ok, now := InsertEnt(p, k, memory, asked + 1);
      if ok {
        Fill(p, k, v, before);
      }
    }

    /** Sets the value of a key; p is the address of the entry that a new key gets. It fails, which
        ends the program, only for a new key, and only if the allocator refuses a request or the
        table cannot grow. */
    method AddEnt(q: Ptr, p: Ptr, k: Key, v: Value, replaceKey: bool, memory: Answers, asked: nat)
        returns (ok: bool, now: nat)
      requires Valid() && KeyOf(keyOf, q) == KeyOf(keyOf, p) == k && p != 0 && p !in keys
      modifies this, ht, ht.nodes
      ensures Valid() && fresh(ht.nodes - old(ht.nodes))
      ensures ok ==> forall j, x :: Maps(j, x) <==> if Same(equal, j, k) then x == v else old(Maps(j, x))
      ensures !ok ==> keys == old(keys) && values == old(values)
      ensures !ok ==> forall x :: x in old(keys) ==> !For(equal, keyOf, x, k)
      ensures !ok ==> Refused(memory, asked, now) || old(TooLarge(ht.nBucketsUsed, ht.nBuckets, ht.tuning))
      ensures asked <= now && (now != asked ==> forall x :: x in old(keys) ==> !For(equal, keyOf, x, k))
      ensures forall x :: x in old(keys) && (!replaceKey || !For(equal, keyOf, x, k)) ==>
        x in keys && keys[x] == old(keys)[x]
      ensures ok ==> forall x :: x in keys && For(equal, keyOf, x, k) && (replaceKey || x !in old(keys)) ==>
        keys[x] == k
    {
      hide *;
      var ent := FindEnt(q, k);
      if ent != 0 {
        OnlyFor(k);
        SetValue(ent, k, v, replaceKey);
        return true, asked;
      }
      ok, now := AddNew(p, k, v, memory, asked);
    }

    /** Takes the entry of a key out of the table. */
    method DeleteEnt(q: Ptr, k: Key, memory: Answers, asked: nat) returns (p: Ptr, now: nat)
      requires Valid() && KeyOf(keyOf, q) == k
      modifies ht, ht.nodes
      ensures Sound() && fresh(ht.nodes - old(ht.nodes))
      ensures p == 0 ==> All(ht.model) == old(All(ht.model)) && forall x :: x in keys ==> !For(equal, keyOf, x, k)
      ensures p != 0 ==>
        p in keys && For(equal, keyOf, p, k) && Fields(All(ht.model) + multiset{p}) && p !in All(ht.model)
    {
      ghost var before := All(ht.model);
      ghost var emptied;
      p, now, emptied := Delete(ht, q, memory, asked);
      if p == 0 {
        forall x | x in keys ensures !For(equal, keyOf, x, k) {
          assert Matches(ht.comparator, q, x) <==> For(equal, keyOf, q, KeyOf(keyOf, x));
        }
      } else {
        assert Same(equal, KeyOf(keyOf, q), KeyOf(keyOf, p));
        assert All(ht.model) + multiset{p} == before;
      }
    }

    /** The fields of the entry at p are no longer there. */
    method Forget(p: Ptr, k: Key)
      requires Sound() && p in keys && For(equal, keyOf, p, k) && Fields(All(ht.model) + multiset{p})
          && p !in All(ht.model)
      requires forall q :: q in keys && q != p ==> !For(equal, keyOf, q, k)
      modifies `keys, `values
      ensures Valid() && keys == old(keys) - {p}
      ensures forall j, x :: Maps(j, x) <==> !Same(equal, j, k) && old(Maps(j, x))
    {
      ghost var before := values;
      DropFields(keys, values, All(ht.model), p);
      keys := keys - {p};
      values := values - {p};
      DropMaps(before, p, k);
    }

    lemma {:induction false} DropFields(keys: map<Ptr, Key>, values: map<Ptr, Value>, entries: multiset<Ptr>, p: Ptr)
      requires FieldsIn(keys, values, entries + multiset{p}) && p !in entries
      ensures FieldsIn(keys - {p}, values - {p}, entries)
    {
      forall x ensures x in entries <==> x in (keys - {p}) {
        assert x in entries + multiset{p} <==> x in entries || x == p;
      }
    }

    /** The values after that of the entry at p has gone. */
    lemma {:induction false} DropMaps(before: map<Ptr, Value>, p: Ptr, k: Key)
      requires Equivalence(equal) && values == before - {p} && For(equal, keyOf, p, k)
      requires forall q :: q in before && q != p ==> !For(equal, keyOf, q, k)
      ensures forall j, x :: Maps(j, x) <==> !Same(equal, j, k) && MapsIn(before, j, x)
    {
      forall j, x ensures Maps(j, x) <==> !Same(equal, j, k) && MapsIn(before, j, x) {
        ForBoth(p, j, k);
        if Same(equal, j, k) {
          forall y | y in values ensures !For(equal, keyOf, y, j) {
            if For(equal, keyOf, y, j) { ForBoth(y, k, j); }
          }
        }
      }
    }

    /** Removes a key; the key and the value of its entry are returned, for the destructors. */
    method Remove(q: Ptr, k: Key, memory: Answers, asked: nat) returns (found: bool, key: Key, value: Value, now: nat)
      requires Valid() && KeyOf(keyOf, q) == k
      modifies this, ht, ht.nodes
      ensures Valid() && fresh(ht.nodes - old(ht.nodes))
      ensures found ==> old(Maps(k, value)) && Same(equal, key, k)
      ensures !found ==> forall x :: !old(Maps(k, x))
      ensures forall j, x :: Maps(j, x) <==> !Same(equal, j, k) && old(Maps(j, x))
    {
      OnlyFor(k);
      var p;
      p, now := DeleteEnt(q, k, memory, asked);
      found, key, value := p != 0, 0, 0;
      if found {
        key, value := keys[p], values[p];
        assert Same(equal, KeyOf(keyOf, p), key) && Same(equal, key, KeyOf(keyOf, p));
        Forget(p, k);
      } else {
        NotFor(k);
      }
    }

    /** At most one entry belongs to a key. */
    lemma {:induction false} OnlyFor(k: Key)
      requires Valid()
      ensures forall p, q :: p in keys && q in keys && For(equal, keyOf, p, k) && For(equal, keyOf, q, k) ==> p == q
    {
      forall p, q | p in keys && q in keys && For(equal, keyOf, p, k) && For(equal, keyOf, q, k) ensures p == q {
        OneEntry(p, q, k);
      }
    }

    lemma {:induction false} NotFor(k: Key)
      requires Equivalence(equal) && forall x :: x in values ==> !For(equal, keyOf, x, k)
      ensures forall j, x :: Same(equal, j, k) ==> !Maps(j, x)
    {
      forall j, x | Same(equal, j, k) ensures !Maps(j, x) {
        forall p | p in values ensures !For(equal, keyOf, p, j) {
          if For(equal, keyOf, p, j) { ForBoth(p, k, j); }
        }
      }
    }

    /** The entries in the order of the buckets. */
    ghost function Order(): seq<Ptr>
      reads ht
    {
      Flat(ht.model, 0)
    }

    /** Every entry comes up exactly once. */
    ghost predicate Enumerates(order: seq<Ptr>)
      reads ht
    {
      multiset(order) == All(ht.model)
    }

    /** The values of all entries, the entry visited last first. */
    method GetValues() returns (l: seq<Value>)
      requires Valid()
      ensures Enumerates(Order()) && |l| == |Order()|
      ensures forall i :: 0 <= i < |l| ==> Order()[|l| - 1 - i] in values && l[i] == values[Order()[|l| - 1 - i]]
    {
      hide *;
      var visited := Visit();
      l := [];
      var n := 0;
      while n < |visited|
        invariant n == |l| <= |visited|
        invariant forall i :: 0 <= i < |l| ==> l[i] == values[visited[|l| - 1 - i]]
      {
        l := [values[visited[n]]] + l;
        n := n + 1;
      }
    }

    /** The keys of all entries, the entry visited last first. */
    method GetKeys() returns (l: seq<Key>)
      requires Valid()
      ensures Enumerates(Order()) && |l| == |Order()|
      ensures forall i :: 0 <= i < |l| ==> Order()[|l| - 1 - i] in keys && l[i] == keys[Order()[|l| - 1 - i]]
    {
      var visited := Visit();
      l := [];
      var n := 0;
      while n < |visited|
        invariant n == |l| <= |visited|
        invariant forall i :: 0 <= i < |l| ==> l[i] == keys[visited[|l| - 1 - i]]
      {
        l := [keys[visited[n]]] + l;
        n := n + 1;
      }
    }

    method Visit() returns (visited: seq<Ptr>)
      requires Valid()
      ensures visited == Order() && Enumerates(visited)
      ensures forall i :: 0 <= i < |visited| ==> visited[i] in keys && visited[i] in values
    {
      visited := ForEach(ht);
      FlatContents(ht.model, 0);
      assert ht.model[0..] == ht.model;
      forall i | 0 <= i < |visited| ensures visited[i] in keys { assert visited[i] in multiset(visited); }
    }
  }
}
