/**
 * `HashTable_Chaining<Key, Value, Hash>` of
 * include/HashTable_Chaining/HashTable_Chaining.hpp: a vector of buckets, each
 * a list of (key, value) pairs, indexed by `hash(key) % m_table_size`, grown to
 * twice its size by `add` when the load factor is exceeded.  The vector is the
 * field `table`, its size is `|table|`; the pointer to it and its deletion are
 * not modelled.  The exceptions become `Err` results.
 */
module HashChaining {
  import opened Results
  import opened HashSupport
  import opened ChainingBuckets

  /** The exceptions of HashTable_C_Exceptions.hpp the table throws. */
  datatype ChainingError = KeyNotFound | AlreadyExists | InvalidLoadFactor

  /** The range-for loop over one bucket that stops at the first pair with the
      key: its place, or the bucket's length when there is none. */
  method Scan<V>(s: Bucket<V>, k: int) returns (i: nat)
    ensures i == Position(s, k)
  {
    i := 0;
    while i < |s| && s[i].0 != k
      invariant i <= |s|
      invariant forall j :: 0 <= j < i ==> s[j].0 != k
    {
      i := i + 1;
    }
    PositionUnique(s, k, i);
  }

  /** The inner loop of `rehash(new_size)`: the pairs of one old bucket, in
      list order, each pushed at the back of bucket `hash(key) % new_size`. */
  method PushBucket<V>(t: seq<Bucket<V>>, b: Bucket<V>, ghost done: seq<(int, V)>, hash: int -> nat, newSize: nat)
    returns (t': seq<Bucket<V>>)
    requires newSize > 0 && t == RehashFrom(done, hash, newSize)
    ensures t' == RehashFrom(done + b, hash, newSize)
  {
    t' := t;
    var j := 0;
    assert done + b[..0] == done;
    while j < |b|
      invariant j <= |b|
      invariant t' == RehashFrom(done + b[..j], hash, newSize)
    {
      var p := b[j];
      var index := hash(p.0) % newSize;
      RehashStep(done + b[..j], p, hash, newSize);
      assert done + b[..j + 1] == (done + b[..j]) + [p];
      t' := t'[index := t'[index] + [p]];
      j := j + 1;
    }
    assert b[..|b|] == b;
  }

  /** The loops of `rehash(new_size)`: every pair, bucket by bucket and in
      list order, pushed at the back of bucket `hash(key) % new_size` of a new
      vector. */
  method Rebuild<V>(src: seq<Bucket<V>>, hash: int -> nat, newSize: nat) returns (t: seq<Bucket<V>>)
    requires newSize > 0
    ensures t == RehashFrom(Flatten(src), hash, newSize)
  {
    t := seq(newSize, _ => []);
    var i := 0;
    assert src[..0] == [];
    while i < |src|
      invariant i <= |src|
      invariant t == RehashFrom(Flatten(src[..i]), hash, newSize)
    {
      t := PushBucket(t, src[i], Flatten(src[..i]), hash, newSize);
      FlattenPrefix(src, i);
      i := i + 1;
    }
    assert src[..|src|] == src;
  }

  /** Ratios below 1 stay exceeded when the table is rebuilt with one bucket
      per pair, as `load_factor(lf)` does through `reserve(m_number_of_elements)`. */
  lemma OneBucketPerPairExceeds(count: nat, lf: Ratio)
    requires Acceptable(lf) && lf.num < lf.den && count > 0
    ensures Exceeds(count, count, lf)
  {
    MulMono(lf.den, lf.num + 1, count);
    MulAtLeast(count, 1);
  }

  /**
   * What the non-const `operator[]` hands back for an absent key as the
   * source has it: the back of bucket `index`, an index computed before `add`
   * and so before the table may have grown; `None` where that bucket is empty
   * (a `back()` of an empty list).
   */
  ghost function SubscriptAddedAsWritten<V>(t: seq<Bucket<V>>, h: int -> nat, count: nat, lf: Ratio, k: int,
                                            blank: V): (r: Option<V>)
    requires |t| > 0
    ensures !Exceeds(count, |t|, lf) ==> r == Some(blank)
  {
    var index := h(k) % |t|;
    var g := if Exceeds(count, |t|, lf) then RehashFrom(Flatten(t), h, 2 * |t|) else t;
    var a := Added(g, h, k, blank);
    if |a[index]| > 0 then Some(a[index][|a[index]| - 1].1) else None
  }

  /** Three buckets holding keys 0, 1 and 2 with values 7, 8 and 9. */
  const FullBuckets: seq<Bucket<int>> := [[(0, 7)], [(1, 8)], [(2, 9)]]

  lemma FullBucketsPairs()
    ensures Flatten(FullBuckets) == [(0, 7), (1, 8), (2, 9)]
  {
    var t := FullBuckets;
    assert t[1..][1..][1..] == [];
  }

  /** `rehash(6)` of those buckets keeps each key in its bucket. */
  lemma FullBucketsGrown()
    ensures RehashFrom(Flatten(FullBuckets), Identity, 6) == [[(0, 7)], [(1, 8)], [(2, 9)], [], [], []]
  {
    FullBucketsPairs();
    var e: seq<Bucket<int>> := [[], [], [], [], [], []];
    var s1: seq<(int, int)> := [(0, 7)];
    var s2 := s1 + [(1, 8)];
    assert RehashFrom([], Identity, 6) == e;
    RehashStep([], (0, 7), Identity, 6);
    assert [] + [(0, 7)] == s1;
    var g1 := e[0 := [(0, 7)]];
    assert RehashFrom(s1, Identity, 6) == g1;
    RehashStep(s1, (1, 8), Identity, 6);
    assert g1[1] + [(1, 8)] == [(1, 8)];
    var g2 := g1[1 := [(1, 8)]];
    assert RehashFrom(s2, Identity, 6) == g2;
    RehashStep(s2, (2, 9), Identity, 6);
    assert g2[2] + [(2, 9)] == [(2, 9)];
    assert s2 + [(2, 9)] == Flatten(FullBuckets);
    assert g2[2 := [(2, 9)]] == [[(0, 7)], [(1, 8)], [(2, 9)], [], [], []];
  }

  /**
   * The three buckets exceed the load factor 0.75, so `operator[](4)` grows
   * the table to six buckets and adds 4 in bucket 4, but reads the back of
   * bucket `4 % 3 == 1`: the value 8 of key 1 instead of the fresh `Value()`
   * 0.
   */
  lemma SubscriptReadsOtherKey()
    ensures Placed(FullBuckets, Identity) && |Flatten(FullBuckets)| == 3 && FindIn(FullBuckets, Identity, 4) == None
    ensures SubscriptAddedAsWritten(FullBuckets, Identity, 3, DefaultLoadFactor, 4, 0) == Some(8)
  {
    FullBucketsPairs();
    FullBucketsGrown();
    FirstAbsent(FullBuckets[1], 4);
  }

  class HashTableChaining<V> {
    /** `*m_table`; `m_table_size` is its length. */
    var table: seq<Bucket<V>>
    /** `m_number_of_elements`. */
    var count: nat
    /** `m_load_factor`; `m_max_load_factor` is the constant 1. */
    var loadFactor: Ratio
    /** `m_hashing`. */
    const hash: int -> nat
    /** `Value()`, the value `operator[]` adds. */
    const blank: V

    /** Every pair in the bucket of its key, no key twice in a bucket, the
        element count equal to the number of pairs, an acceptable load
        factor. */
    ghost predicate Valid()
      reads this
    {
      |table| > 0 && Placed(table, hash) && BucketsUnique(table) &&
      count == |Flatten(table)| && Acceptable(loadFactor)
    }

    /** What the lookups see for `k`. */
    ghost function Find(k: int): Option<V>
      reads this
      requires |table| > 0
    {
      FindIn(table, hash, k)
    }

    /** The buckets `add` works on: rebuilt with twice as many when the load
        factor is exceeded. */
    ghost function Grown(): seq<Bucket<V>>
      reads this
      requires |table| > 0
    {
      if Exceeds(count, |table|, loadFactor) then RehashFrom(Flatten(table), hash, 2 * |table|) else table
    }

    /** `HashTable_Chaining(tableSize)`: `get_next_prime(tableSize)` empty
        buckets and the load factor 0.75. */
    constructor (tableSize: nat, hash: int -> nat, blank: V)
      ensures Valid() && NextPrimeOf(tableSize, |table|)
      ensures Flatten(table) == [] && count == 0 && loadFactor == DefaultLoadFactor
      ensures this.hash == hash && this.blank == blank
    {
      var n := NextPrime(tableSize);
      var t: seq<Bucket<V>> := seq(n, _ => []);
      FlattenEmptyBuckets(t);
      this.hash := hash;
      this.blank := blank;
      table, count, loadFactor := t, 0, DefaultLoadFactor;
    }

    /** `size()`: the number of pairs. */
    function Size(): (n: nat)
      reads this
      requires Valid()
      ensures n == |Flatten(table)|
    {
      count
    }

    /** `empty()`: no pairs. */
    function Empty(): (b: bool)
      reads this
      requires Valid()
      ensures b <==> Flatten(table) == []
    {
      count == 0
    }

    /** `load_factor()`. */
    function LoadFactor(): (lf: Ratio)
      reads this
      ensures Valid() ==> Acceptable(lf)
    {
      loadFactor
    }

    /** `max_load_factor()`. */
    function MaxLoad(): (lf: Ratio)
      ensures Acceptable(lf)
      ensures forall f :: Acceptable(f) ==> f.num * lf.den <= lf.num * f.den
    {
      MaxLoadFactor
    }

    /** `rehash(new_size)`: the table rebuilt with `new_size` buckets.  No
        lookup changes. */
    method Rehash(newSize: nat)
      requires Valid() && newSize > 0
      modifies this
      ensures Valid() && table == RehashFrom(Flatten(old(table)), hash, newSize)
      ensures count == old(count) && loadFactor == old(loadFactor)
      ensures forall k :: Find(k) == old(Find(k))
    {
      var src := table;
      var t := Rebuild(src, hash, newSize);
      RehashWellFormed(src, hash, newSize);
      forall k
        ensures FindIn(t, hash, k) == FindIn(src, hash, k)
      {
        RehashKeepsFind(src, hash, newSize, k);
      }
      table := t;
    }

    /**
     * `add(k, v)`: first grows the table when the load factor is exceeded;
     * then fails with `AlreadyExists` when the key is stored (the growth is
     * kept), and otherwise pushes the pair at the back of its bucket.
     */
    method Add(k: int, v: V) returns (r: Result<(), ChainingError>)
      requires Valid()
      modifies this
      ensures Valid() && loadFactor == old(loadFactor)
      ensures r == if old(Find(k)).Some? then Err(AlreadyExists) else Ok(())
      ensures r.Err? ==> table == old(Grown()) && count == old(count)
      ensures r.Ok? ==> table == Added(old(Grown()), hash, k, v) && count == old(count) + 1
      ensures forall k' :: Find(k') == if r.Ok? && k' == k then Some(v) else old(Find(k'))
    {
      if Exceeds(count, |table|, loadFactor) {
        Rehash(2 * |table|);
      }
      var index := hash(k) % |table|;
      var i := Scan(table[index], k);
      if i < |table[index]| {
        return Err(AlreadyExists);
      }
      AddedWellFormed(table, hash, k, v);
      forall k'
        ensures FindIn(Added(table, hash, k, v), hash, k') == if k' == k then Some(v) else FindIn(table, hash, k')
      {
        AddedFind(table, hash, k, v, k');
      }
      table := table[index := table[index] + [(k, v)]];
      count := count + 1;
      r := Ok(());
    }

    /** The loop of `remove(k)`: erases the pair with the key from its bucket
        when there is one, and says whether there was. */
    method Erase(k: int) returns (found: bool)
      requires Valid()
      modifies this
      ensures Valid() && loadFactor == old(loadFactor)
      ensures found <==> old(Find(k)).Some?
      ensures found ==> table == Removed(old(table), hash, k) && count == old(count) - 1
      ensures !found ==> table == old(table) && count == old(count)
      ensures forall k' :: Find(k') == if k' == k then None else old(Find(k'))
    {
      var index := hash(k) % |table|;
      var i := Scan(table[index], k);
      found := i < |table[index]|;
      if found {
        RemovedWellFormed(table, hash, k);
        forall k'
          ensures FindIn(Removed(table, hash, k), hash, k') == if k' == k then None else FindIn(table, hash, k')
        {
          RemovedFind(table, hash, k, k');
        }
        table := table[index := Erased(table[index], i)];
        count := count - 1;
      }
    }

    /**
     * `remove(k)` as written: erases the pair with the key from its bucket
     * when there is one, and then throws `KeyNotFound` in every case, also
     * after a removal.
     */
    method Remove(k: int) returns (r: Result<(), ChainingError>)
      requires Valid()
      modifies this
      ensures Valid() && loadFactor == old(loadFactor)
      ensures r == Err(KeyNotFound)
      ensures old(Find(k)).Some? ==> table == Removed(old(table), hash, k) && count == old(count) - 1
      ensures old(Find(k)).None? ==> table == old(table) && count == old(count)
      ensures forall k' :: Find(k') == if k' == k then None else old(Find(k'))
    {
      var _ := Erase(k);
      r := Err(KeyNotFound);
    }

    /** `remove(k)` as its documentation describes it: `KeyNotFound` only
        when the key is absent, success after erasing its pair. */
    method RemoveFound(k: int) returns (r: Result<(), ChainingError>)
      requires Valid()
      modifies this
      ensures Valid() && loadFactor == old(loadFactor)
      ensures r == if old(Find(k)).Some? then Ok(()) else Err(KeyNotFound)
      ensures r.Ok? ==> table == Removed(old(table), hash, k) && count == old(count) - 1
      ensures r.Err? ==> table == old(table) && count == old(count)
      ensures forall k' :: Find(k') == if k' == k then None else old(Find(k'))
    {
      var found := Erase(k);
      r := if found then Ok(()) else Err(KeyNotFound);
    }

    /** `reserve(n)`: rebuilds the table with `n` buckets when the load factor
        is exceeded, and does nothing otherwise. */
    method Reserve(n: nat)
      requires Valid() && (Exceeds(count, |table|, loadFactor) ==> n > 0)
      modifies this
      ensures Valid() && count == old(count) && loadFactor == old(loadFactor)
      ensures table == if Exceeds(old(count), |old(table)|, old(loadFactor))
                       then RehashFrom(Flatten(old(table)), hash, n) else old(table)
      ensures forall k :: Find(k) == old(Find(k))
    {
      if Exceeds(count, |table|, loadFactor) {
        Rehash(n);
      }
    }

    /**
     * `load_factor(lf)`: refuses a factor that is not positive or above the
     * maximum 1, changing nothing; otherwise sets it and calls
     * `reserve(m_number_of_elements)`, which rebuilds the table with one
     * bucket per pair when the new factor is exceeded.
     */
    method SetLoadFactor(lf: Ratio) returns (r: Result<(), ChainingError>)
      requires Valid()
      modifies this
      ensures Valid() && count == old(count)
      ensures r.Err? <==> !Acceptable(lf)
      ensures r.Err? ==> r.error == InvalidLoadFactor && table == old(table) && loadFactor == old(loadFactor)
      ensures r.Ok? ==> loadFactor == lf
      ensures r.Ok? ==> table == if Exceeds(count, |old(table)|, lf)
                                 then RehashFrom(Flatten(old(table)), hash, count) else old(table)
      ensures forall k :: Find(k) == old(Find(k))
    {
      if !Acceptable(lf) {
        return Err(InvalidLoadFactor);
      }
      loadFactor := lf;
      MulMono(|table|, 0, lf.num);
      Reserve(count);
      r := Ok(());
    }

    /** `clear()`: every bucket emptied, the number of buckets kept. */
    method Clear()
      requires Valid()
      modifies this
      ensures Valid() && table == seq(|old(table)|, _ => []) && count == 0
      ensures loadFactor == old(loadFactor)
      ensures forall k :: Find(k) == None
    {
      var t := table;
      var i := 0;
      while i < |t|
        invariant i <= |t| == |table|
        invariant forall j :: 0 <= j < i ==> t[j] == []
      {
        t := t[i := []];
        i := i + 1;
      }
      assert t == seq(|table|, _ => []);
      ClearedBuckets(t, hash);
      table, count := t, 0;
    }

    /** `contains(k)`. */
    method Contains(k: int) returns (b: bool)
      requires Valid()
      ensures b <==> Find(k).Some?
    {
      var index := hash(k) % |table|;
      var i := Scan(table[index], k);
      b := i < |table[index]|;
    }

    /** `at(k)`; the const `at` and the const `operator[]` have the same
        body. */
    method At(k: int) returns (r: Result<V, ChainingError>)
      requires Valid()
      ensures r == if Find(k).Some? then Ok(Find(k).value) else Err(KeyNotFound)
    {
      var index := hash(k) % |table|;
      var i := Scan(table[index], k);
      if i < |table[index]| {
        r := Ok(table[index][i].1);
      } else {
        r := Err(KeyNotFound);
      }
    }

    /**
     * `operator[](k)`: the value of a stored key; otherwise `add(k, Value())`
     * and the value just added.  The bucket is looked up again after `add`,
     * which may have grown the table.
     */
    method Subscript(k: int) returns (v: V)
      requires Valid()
      modifies this
      ensures Valid() && loadFactor == old(loadFactor)
      ensures old(Find(k)).Some? ==> v == old(Find(k)).value && table == old(table) && count == old(count)
      ensures old(Find(k)).None? ==> v == blank && table == Added(old(Grown()), hash, k, blank) &&
                                     count == old(count) + 1
      ensures forall k' :: Find(k') == if k' == k then Some(v) else old(Find(k'))
    {
      var index := hash(k) % |table|;
      var i := Scan(table[index], k);
      if i < |table[index]| {
        return table[index][i].1;
      }
      var _ := Add(k, blank);
      index := hash(k) % |table|;
      v := table[index][|table[index]| - 1].1;
    }

    /** `begin()`: an iterator at the first pair of the first non-empty bucket,
        which goes on to visit every pair, bucket by bucket. */
    method Begin() returns (it: ChainingIterator<V>)
      requires Valid()
      ensures fresh(it) && it.Valid() && it.Settled() && it.buckets == table
      ensures it.Remaining() == Flatten(table)
    {
      var index := 0;
      assert table[0..] == table;
      while index < |table| && table[index] == []
        invariant index <= |table|
        invariant Flatten(table[index..]) == Flatten(table)
      {
        FlattenSuffix(table, index);
        index := index + 1;
      }
      if index < |table| {
        FlattenSuffix(table, index);
      }
      it := new ChainingIterator(table, index, 0);
    }

    /** `end()`: an iterator at index `m_table_size`. */
    method End() returns (it: ChainingIterator<V>)
      ensures fresh(it) && it.Valid() && it.Settled() && it.buckets == table
      ensures it.Remaining() == []
    {
      it := new ChainingIterator(table, |table|, 0);
    }
  }

  /**
   * `HashTable_Chaining::Iterator`: a bucket index and a place in that
   * bucket's list.  The buckets are those of the table when the iterator was
   * made.
   */
  class ChainingIterator<V> {
    const buckets: seq<Bucket<V>>
    /** `m_index`. */
    var index: nat
    /** The place of `m_it` in bucket `m_index`. */
    var pos: nat

    ghost predicate Valid()
      reads this
    {
      index <= |buckets| && (index < |buckets| ==> pos <= |buckets[index]|)
    }

    /** At a pair, or past the last bucket. */
    ghost predicate Settled()
      reads this
    {
      index < |buckets| ==> pos < |buckets[index]|
    }

    /** The pairs still to visit: the rest of the current bucket, then the
        later buckets. */
    ghost function Remaining(): seq<(int, V)>
      reads this
      requires Valid()
    {
      if index < |buckets| then buckets[index][pos..] + Flatten(buckets[index + 1..]) else []
    }

    /** `Iterator(ht, index, list_index)`: `list_index` steps into bucket
        `index` when that is a bucket. */
    constructor (buckets: seq<Bucket<V>>, index: nat, listIndex: nat)
      requires index <= |buckets| && (index < |buckets| ==> listIndex <= |buckets[index]|)
      ensures Valid() && this.buckets == buckets && this.index == index
      ensures index < |buckets| ==> pos == listIndex
    {
      this.buckets := buckets;
      this.index := index;
      pos := if index < |buckets| then listIndex else 0;
    }

    /** `operator*()`: the pair the iterator is at, the first of those still
        to visit. */
    function Get(): (p: (int, V))
      reads this
      requires Valid() && index < |buckets| && pos < |buckets[index]|
      ensures |Remaining()| > 0 && p == Remaining()[0]
    {
      buckets[index][pos]
    }

    /** `operator==` and `operator!=` compare `m_index` alone: against
        `end()` an iterator is equal exactly when no pair is left. */
    function Equals(other: ChainingIterator<V>): (b: bool)
      reads this, other
      ensures Valid() && Settled() && other.buckets == buckets && other.index == |buckets| ==>
              (b <==> Remaining() == [])
    {
      index == other.index
    }

    /**
     * `operator++()`: nothing past the last bucket; otherwise one step in the
     * list, then on to the start of the next bucket while the list is at its
     * end, stopping past the last bucket.
     */
    method Next()
      requires Valid() && Settled()
      modifies this
      ensures Valid() && Settled()
      ensures Remaining() == if old(index) < |buckets| then old(Remaining())[1..] else []
    {
      if index >= |buckets| {
        return;
      }
      ghost var rest := buckets[index][pos + 1..] + Flatten(buckets[index + 1..]);
      assert rest == Remaining()[1..];
      pos := pos + 1;
      while index < |buckets| && pos == |buckets[index]|
        invariant Valid()
        invariant Remaining() == rest
        decreases |buckets| - index
      {
        if index + 1 < |buckets| {
          FlattenSuffix(buckets, index + 1);
        }
        index := index + 1;
        pos := 0;
      }
    }
  }
}
