/**
 * The bucket vector of include/HashTable_Chaining/HashTable_Chaining.hpp as a
 * value: a sequence of buckets, each the sequence of (key, value) pairs of its
 * `std::list` in list order.  The functions here say where a key is looked for,
 * what `rehash`, `add` and `remove` do to the buckets, and the lemmas show what
 * each keeps.  `h` is the hash functor.
 */
module ChainingBuckets {
  import opened Results

  type Bucket<V> = seq<(int, V)>

  // ---------------------------------------------------------------- flattening

  /** Every pair, bucket by bucket: the order the iterator visits them in. */
  function Flatten<V>(t: seq<Bucket<V>>): seq<(int, V)>
  {
    if |t| == 0 then [] else t[0] + Flatten(t[1..])
  }

  lemma {:induction false} FlattenSnoc<V>(t: seq<Bucket<V>>, b: Bucket<V>)
    ensures Flatten(t + [b]) == Flatten(t) + b
  {
    if |t| == 0 {
      assert (t + [b])[1..] == [];
    } else {
      assert (t + [b])[1..] == t[1..] + [b];
      FlattenSnoc(t[1..], b);
    }
  }

  lemma FlattenPrefix<V>(t: seq<Bucket<V>>, i: nat)
    requires i < |t|
    ensures Flatten(t[..i + 1]) == Flatten(t[..i]) + t[i]
  {
    assert t[..i + 1] == t[..i] + [t[i]];
    FlattenSnoc(t[..i], t[i]);
  }

  /** Flatten one step into a suffix. */
  lemma FlattenSuffix<V>(t: seq<Bucket<V>>, i: nat)
    requires i < |t|
    ensures Flatten(t[i..]) == t[i] + Flatten(t[i + 1..])
  {
    assert t[i..][1..] == t[i + 1..];
  }

  lemma {:induction false} FlattenEmptyBuckets<V>(t: seq<Bucket<V>>)
    requires forall b :: 0 <= b < |t| ==> t[b] == []
    ensures Flatten(t) == []
  {
    if |t| > 0 {
      FlattenEmptyBuckets(t[1..]);
    }
  }

  /** Replacing one bucket replaces its pairs, and only those, among all pairs. */
  lemma {:induction false} FlattenUpdate<V>(t: seq<Bucket<V>>, b: nat, x: Bucket<V>)
    requires b < |t|
    ensures multiset(Flatten(t[b := x])) + multiset(t[b]) == multiset(Flatten(t)) + multiset(x)
    ensures |Flatten(t[b := x])| + |t[b]| == |Flatten(t)| + |x|
  {
    var u := t[b := x];
    assert Flatten(u) == u[0] + Flatten(u[1..]);
    assert Flatten(t) == t[0] + Flatten(t[1..]);
    if b == 0 {
      assert u[1..] == t[1..];
    } else {
      assert u[1..] == t[1..][b - 1 := x];
      assert t[1..][b - 1] == t[b];
      FlattenUpdate(t[1..], b - 1, x);
      var h, ru, rt := multiset(t[0]), multiset(Flatten(u[1..])), multiset(Flatten(t[1..]));
      assert ru + multiset(t[b]) == rt + multiset(x);
      assert u[0] == t[0];
      assert multiset(Flatten(u)) == h + ru;
      assert multiset(Flatten(t)) == h + rt;
      MultisetShift(h, ru, multiset(t[b]), rt, multiset(x));
    }
  }

  lemma MultisetShift<T>(h: multiset<T>, a: multiset<T>, b: multiset<T>, c: multiset<T>, d: multiset<T>)
    requires a + b == c + d
    ensures h + a + b == h + c + d
  {
    forall o | true
      ensures (h + a + b)[o] == (h + c + d)[o]
    {
      assert (a + b)[o] == (c + d)[o];
    }
  }

  lemma MultisetCancel<T>(a: multiset<T>, b: multiset<T>, c: multiset<T>)
    requires a + c == b + c
    ensures a == b
  {
    forall o | true
      ensures a[o] == b[o]
    {
      assert (a + c)[o] == (b + c)[o];
    }
  }

  lemma {:induction false} InFlatten<V>(t: seq<Bucket<V>>, b: nat, i: nat)
    requires b < |t| && i < |t[b]|
    ensures t[b][i] in multiset(Flatten(t))
  {
    if b > 0 {
      InFlatten(t[1..], b - 1, i);
    }
  }

  // ------------------------------------------------------------------- search

  /** The place of the first pair with key `k`, `|s|` when there is none: where
      the range-for loops over a bucket stop. */
  function Position<V>(s: Bucket<V>, k: int): (i: nat)
    ensures i <= |s|
    ensures i < |s| ==> s[i].0 == k
    ensures forall j :: 0 <= j < i ==> s[j].0 != k
  {
    if |s| == 0 then 0 else if s[0].0 == k then 0 else 1 + Position(s[1..], k)
  }

  /** The value of the first pair with key `k`. */
  function First<V>(s: Bucket<V>, k: int): Option<V>
  {
    if Position(s, k) < |s| then Some(s[Position(s, k)].1) else None
  }

  lemma PositionUnique<V>(s: Bucket<V>, k: int, i: nat)
    requires i <= |s| && (i < |s| ==> s[i].0 == k)
    requires forall j :: 0 <= j < i ==> s[j].0 != k
    ensures Position(s, k) == i
  {
  }

  lemma FirstAbsent<V>(s: Bucket<V>, k: int)
    requires forall j :: 0 <= j < |s| ==> s[j].0 != k
    ensures First(s, k) == None
  {
    PositionUnique(s, k, |s|);
  }

  /** In `a + b` the first `k` is in `a` when `a` has one. */
  lemma FirstAppend<V>(a: Bucket<V>, b: Bucket<V>, k: int)
    ensures First(a + b, k) == if First(a, k).Some? then First(a, k) else First(b, k)
  {
    var pa, pb := Position(a, k), Position(b, k);
    if pa < |a| {
      PositionUnique(a + b, k, pa);
    } else {
      PositionUnique(a + b, k, |a| + pb);
    }
  }

  /** The buckets hold every pair where `hash_code` sends its key. */
  ghost predicate Placed<V>(t: seq<Bucket<V>>, h: int -> nat)
  {
    forall b, i :: 0 <= b < |t| && 0 <= i < |t[b]| ==> h(t[b][i].0) % |t| == b
  }

  /** No key twice in a sequence of pairs. */
  ghost predicate Unique<V>(s: seq<(int, V)>)
  {
    forall i, j :: 0 <= i < j < |s| ==> s[i].0 != s[j].0
  }

  ghost predicate BucketsUnique<V>(t: seq<Bucket<V>>)
  {
    forall b :: 0 <= b < |t| ==> Unique(t[b])
  }

  /** The lookup of `contains`, `at` and `operator[]`: the first pair with key
      `k` in bucket `hash_code(k)`. */
  function FindIn<V>(t: seq<Bucket<V>>, h: int -> nat, k: int): Option<V>
    requires |t| > 0
  {
    First(t[h(k) % |t|], k)
  }

  /** A bucket other than the key's own holds no pair with that key. */
  lemma OtherBucket<V>(t: seq<Bucket<V>>, h: int -> nat, k: int, b: nat)
    requires Placed(t, h) && b < |t| && b != h(k) % |t|
    ensures First(t[b], k) == None
  {
    FirstAbsent(t[b], k);
  }

  /** Looked for among all pairs, a key is found where `FindIn` finds it. */
  lemma {:induction false} FlattenFirst<V>(t: seq<Bucket<V>>, h: int -> nat, k: int, m: nat)
    requires |t| > 0 && Placed(t, h) && m <= |t|
    ensures First(Flatten(t[m..]), k) == if m <= h(k) % |t| then FindIn(t, h, k) else None
    decreases |t| - m
  {
    if m == |t| {
      PositionUnique(Flatten(t[m..]), k, 0);
    } else {
      FlattenSuffix(t, m);
      FlattenFirst(t, h, k, m + 1);
      FirstAppend(t[m], Flatten(t[m + 1..]), k);
      if m != h(k) % |t| {
        OtherBucket(t, h, k, m);
      }
    }
  }

  /** Every key among the buckets from `m` on belongs to a bucket from `m` on. */
  lemma {:induction false} HomesFrom<V>(t: seq<Bucket<V>>, h: int -> nat, m: nat, i: nat)
    requires |t| > 0 && Placed(t, h) && m <= |t| && i < |Flatten(t[m..])|
    ensures m <= h(Flatten(t[m..])[i].0) % |t|
    decreases |t| - m
  {
    FlattenSuffix(t, m);
    if i >= |t[m]| {
      HomesFrom(t, h, m + 1, i - |t[m]|);
    }
  }

  lemma UniqueAppend<V>(a: seq<(int, V)>, c: seq<(int, V)>)
    requires Unique(a) && Unique(c)
    requires forall i, j :: 0 <= i < |a| && 0 <= j < |c| ==> a[i].0 != c[j].0
    ensures Unique(a + c)
  {
  }

  /** A key is in one bucket only and once there, so it is once among all
      pairs. */
  lemma {:induction false} FlattenUnique<V>(t: seq<Bucket<V>>, h: int -> nat, m: nat)
    requires |t| > 0 && Placed(t, h) && BucketsUnique(t) && m <= |t|
    ensures Unique(Flatten(t[m..]))
    decreases |t| - m
  {
    if m < |t| {
      FlattenSuffix(t, m);
      FlattenUnique(t, h, m + 1);
      var a, c := t[m], Flatten(t[m + 1..]);
      forall i, j | 0 <= i < |a| && 0 <= j < |c|
        ensures a[i].0 != c[j].0
      {
        HomesFrom(t, h, m + 1, j);
      }
      UniqueAppend(a, c);
    }
  }

  /** Empty buckets, as `clear` leaves them: well formed, no pair, no key found. */
  lemma ClearedBuckets<V>(t: seq<Bucket<V>>, h: int -> nat)
    requires |t| > 0 && forall b :: 0 <= b < |t| ==> t[b] == []
    ensures Placed(t, h) && BucketsUnique(t) && Flatten(t) == []
    ensures forall k :: FindIn(t, h, k) == None
  {
    FlattenEmptyBuckets(t);
    forall k
      ensures FindIn(t, h, k) == None
    {
      FirstAbsent(t[h(k) % |t|], k);
    }
  }

  /** In a sequence without a repeated key, the first pair with a key is the
      only one. */
  lemma FirstUnique<V>(s: seq<(int, V)>, k: int, v: V)
    requires Unique(s)
    ensures First(s, k) == Some(v) <==> (k, v) in s
  {
    if (k, v) in s {
      var i :| 0 <= i < |s| && s[i] == (k, v);
      assert Position(s, k) == i;
    }
  }

  /** The lookup agrees with the pairs stored: `k` is found with `v` exactly
      when `(k, v)` is among all pairs, the ones the iterator visits. */
  lemma FindStored<V>(t: seq<Bucket<V>>, h: int -> nat, k: int, v: V)
    requires |t| > 0 && Placed(t, h) && BucketsUnique(t)
    ensures FindIn(t, h, k) == Some(v) <==> (k, v) in Flatten(t)
  {
    assert t[0..] == t;
    FlattenFirst(t, h, k, 0);
    FlattenUnique(t, h, 0);
    FirstUnique(Flatten(t), k, v);
  }

  // ------------------------------------------------------------------- rehash

  /**
   * The new buckets `rehash(n)` builds: each pair of `s`, taken in order, is
   * pushed at the back of bucket `h(key) % n`.
   */
  function RehashFrom<V>(s: seq<(int, V)>, h: int -> nat, n: nat): (r: seq<Bucket<V>>)
    requires n > 0
    ensures |r| == n
  {
    if |s| == 0 then seq(n, _ => [])
    else
      var r := RehashFrom(s[..|s| - 1], h, n);
      var p := s[|s| - 1];
      r[h(p.0) % n := r[h(p.0) % n] + [p]]
  }

  /** One more pair pushed by the loop of `rehash`. */
  lemma RehashStep<V>(s: seq<(int, V)>, p: (int, V), h: int -> nat, n: nat)
    requires n > 0
    ensures RehashFrom(s + [p], h, n) ==
            RehashFrom(s, h, n)[h(p.0) % n := RehashFrom(s, h, n)[h(p.0) % n] + [p]]
  {
    assert (s + [p])[..|s|] == s;
  }

  lemma {:induction false} RehashPlaced<V>(s: seq<(int, V)>, h: int -> nat, n: nat)
    requires n > 0
    ensures Placed(RehashFrom(s, h, n), h)
  {
    if |s| > 0 {
      RehashPlaced(s[..|s| - 1], h, n);
    }
  }

  /** `rehash` keeps every pair exactly once. */
  lemma {:induction false} RehashPairs<V>(s: seq<(int, V)>, h: int -> nat, n: nat)
    requires n > 0
    ensures multiset(Flatten(RehashFrom(s, h, n))) == multiset(s)
    ensures |Flatten(RehashFrom(s, h, n))| == |s|
  {
    if |s| == 0 {
      FlattenEmptyBuckets(RehashFrom(s, h, n));
    } else {
      var s', p := s[..|s| - 1], s[|s| - 1];
      assert s == s' + [p];
      RehashPairs(s', h, n);
      RehashPairsStep(s', p, h, n);
    }
  }

  /** The pair pushed by one round of the loop of `rehash` joins the others. */
  lemma RehashPairsStep<V>(s: seq<(int, V)>, p: (int, V), h: int -> nat, n: nat)
    requires n > 0
    requires multiset(Flatten(RehashFrom(s, h, n))) == multiset(s)
    requires |Flatten(RehashFrom(s, h, n))| == |s|
    ensures multiset(Flatten(RehashFrom(s + [p], h, n))) == multiset(s + [p])
    ensures |Flatten(RehashFrom(s + [p], h, n))| == |s| + 1
  {
    var r: seq<Bucket<V>> := RehashFrom(s, h, n);
    var b := h(p.0) % n;
    var x := r[b] + [p];
    RehashStep(s, p, h, n);
    FlattenUpdate(r, b, x);
    var m, mb := multiset(Flatten(r[b := x])), multiset(r[b]);
    assert multiset(x) == multiset{p} + mb;
    assert multiset(s + [p]) == multiset(s) + multiset{p};
    MultisetCancel(m, multiset(s + [p]), mb);
  }

  /** `rehash` finds the first pair with a key where it was first among all
      pairs. */
  lemma {:induction false} RehashFirst<V>(s: seq<(int, V)>, h: int -> nat, n: nat, k: int)
    requires n > 0
    ensures First(RehashFrom(s, h, n)[h(k) % n], k) == First(s, k)
  {
    if |s| == 0 {
      PositionUnique(RehashFrom(s, h, n)[h(k) % n], k, 0);
      PositionUnique(s, k, 0);
    } else {
      var s', p := s[..|s| - 1], s[|s| - 1];
      RehashFirst(s', h, n, k);
      var r: seq<Bucket<V>> := RehashFrom(s', h, n);
      assert s == s' + [p];
      FirstAppend(s', [p], k);
      if h(p.0) % n == h(k) % n {
        FirstAppend(r[h(k) % n], [p], k);
      } else {
        FirstAbsent([p], k);
      }
    }
  }

  /** `rehash` keeps keys unique within each bucket. */
  lemma {:induction false} RehashUnique<V>(s: seq<(int, V)>, h: int -> nat, n: nat)
    requires n > 0 && Unique(s)
    ensures BucketsUnique(RehashFrom(s, h, n))
  {
    if |s| > 0 {
      var s', p := s[..|s| - 1], s[|s| - 1];
      RehashUnique(s', h, n);
      var r: seq<Bucket<V>> := RehashFrom(s', h, n);
      var b := h(p.0) % n;
      RehashPairs(s', h, n);
      forall i | 0 <= i < |r[b]|
        ensures r[b][i].0 != p.0
      {
        InFlatten(r, b, i);
        assert r[b][i] in s';
      }
      UniqueAppend(r[b], [p]);
    }
  }

  /** The buckets `rehash(n)` builds are well formed and hold the same pairs. */
  lemma RehashWellFormed<V>(t: seq<Bucket<V>>, h: int -> nat, n: nat)
    requires |t| > 0 && Placed(t, h) && BucketsUnique(t) && n > 0
    ensures var r := RehashFrom(Flatten(t), h, n);
            Placed(r, h) && BucketsUnique(r) && multiset(Flatten(r)) == multiset(Flatten(t)) &&
            |Flatten(r)| == |Flatten(t)|
  {
    RehashPlaced(Flatten(t), h, n);
    FlattenUnique(t, h, 0);
    assert t[0..] == t;
    RehashUnique(Flatten(t), h, n);
    RehashPairs(Flatten(t), h, n);
  }

  /** After `rehash(n)` every key is found with the value it had. */
  lemma RehashKeepsFind<V>(t: seq<Bucket<V>>, h: int -> nat, n: nat, k: int)
    requires |t| > 0 && Placed(t, h) && n > 0
    ensures FindIn(RehashFrom(Flatten(t), h, n), h, k) == FindIn(t, h, k)
  {
    RehashFirst(Flatten(t), h, n, k);
    FlattenFirst(t, h, k, 0);
    assert t[0..] == t;
  }

  // ------------------------------------------------------------ add and remove

  /** `(*m_table)[index].push_back({k, v})`. */
  function Added<V>(t: seq<Bucket<V>>, h: int -> nat, k: int, v: V): (r: seq<Bucket<V>>)
    requires |t| > 0
    ensures |r| == |t|
  {
    t[h(k) % |t| := t[h(k) % |t|] + [(k, v)]]
  }

  /** After adding an absent key it is found with its value, and every other key
      as before. */
  lemma AddedFind<V>(t: seq<Bucket<V>>, h: int -> nat, k: int, v: V, k': int)
    requires |t| > 0 && FindIn(t, h, k) == None
    ensures FindIn(Added(t, h, k, v), h, k') == if k' == k then Some(v) else FindIn(t, h, k')
  {
    var b := h(k) % |t|;
    if h(k') % |t| == b {
      FirstAppend(t[b], [(k, v)], k');
      if k' == k {
        PositionUnique([(k, v)], k, 0);
      } else {
        FirstAbsent([(k, v)], k');
      }
    }
  }

  /** Adding an absent key keeps the buckets well formed and adds one pair. */
  lemma AddedWellFormed<V>(t: seq<Bucket<V>>, h: int -> nat, k: int, v: V)
    requires |t| > 0 && Placed(t, h) && BucketsUnique(t) && FindIn(t, h, k) == None
    ensures var r := Added(t, h, k, v);
            Placed(r, h) && BucketsUnique(r) && |Flatten(r)| == |Flatten(t)| + 1 &&
            multiset(Flatten(r)) == multiset(Flatten(t)) + multiset{(k, v)}
  {
    AddedPlaced(t, h, k, v);
    var b := h(k) % |t|;
    UniqueAppend(t[b], [(k, v)]);
    AddedPairs(t, h, k, v);
  }

  lemma AddedPlaced<V>(t: seq<Bucket<V>>, h: int -> nat, k: int, v: V)
    requires |t| > 0 && Placed(t, h)
    ensures Placed(Added(t, h, k, v), h)
  {
    var r: seq<Bucket<V>>, b := Added(t, h, k, v), h(k) % |t|;
    forall b', i | 0 <= b' < |r| && 0 <= i < |r[b']|
      ensures h(r[b'][i].0) % |r| == b'
    {
      if b' == b && i == |t[b]| {
        assert r[b'][i] == (k, v);
      } else {
        assert r[b'][i] == t[b'][i];
      }
    }
  }

  lemma AddedPairs<V>(t: seq<Bucket<V>>, h: int -> nat, k: int, v: V)
    requires |t| > 0
    ensures multiset(Flatten(Added(t, h, k, v))) == multiset(Flatten(t)) + multiset{(k, v)}
    ensures |Flatten(Added(t, h, k, v))| == |Flatten(t)| + 1
  {
    var b := h(k) % |t|;
    var x := t[b] + [(k, v)];
    FlattenUpdate(t, b, x);
    assert multiset(x) == multiset{(k, v)} + multiset(t[b]);
    MultisetCancel(multiset(Flatten(t[b := x])), multiset(Flatten(t)) + multiset{(k, v)}, multiset(t[b]));
  }

  /** `erase`: the bucket without its pair at `i`. */
  function Erased<V>(s: Bucket<V>, i: nat): (r: Bucket<V>)
    requires i < |s|
    ensures |r| == |s| - 1
  {
    s[..i] + s[i + 1..]
  }

  /** The buckets with the first pair with key `k` erased from its bucket. */
  function Removed<V>(t: seq<Bucket<V>>, h: int -> nat, k: int): (r: seq<Bucket<V>>)
    requires |t| > 0 && Position(t[h(k) % |t|], k) < |t[h(k) % |t|]|
    ensures |r| == |t|
  {
    t[h(k) % |t| := Erased(t[h(k) % |t|], Position(t[h(k) % |t|], k))]
  }

  /** After removing a stored key it is no longer found; every other key is
      found as before. */
  lemma RemovedFind<V>(t: seq<Bucket<V>>, h: int -> nat, k: int, k': int)
    requires |t| > 0 && BucketsUnique(t) && FindIn(t, h, k).Some?
    ensures FindIn(Removed(t, h, k), h, k') == if k' == k then None else FindIn(t, h, k')
  {
    var b := h(k) % |t|;
    var s, i := t[b], Position(t[b], k);
    if h(k') % |t| == b {
      var e := Erased(s, i);
      if k' == k {
        forall j | 0 <= j < |e|
          ensures e[j].0 != k
        {
          if j >= i {
            assert e[j] == s[j + 1];
          }
        }
        FirstAbsent(e, k);
      } else {
        assert s == s[..i] + ([s[i]] + s[i + 1..]);
        FirstAppend(s[..i], [s[i]] + s[i + 1..], k');
        FirstAppend([s[i]], s[i + 1..], k');
        FirstAbsent([s[i]], k');
        FirstAppend(s[..i], s[i + 1..], k');
      }
    }
  }

  /** Removing a stored key keeps the buckets well formed and drops one pair. */
  lemma RemovedWellFormed<V>(t: seq<Bucket<V>>, h: int -> nat, k: int)
    requires |t| > 0 && Placed(t, h) && BucketsUnique(t) && FindIn(t, h, k).Some?
    ensures var r := Removed(t, h, k);
            Placed(r, h) && BucketsUnique(r) && |Flatten(r)| == |Flatten(t)| - 1
  {
    var b := h(k) % |t|;
    var s, i := t[b], Position(t[b], k);
    ErasedFacts(s, i);
    RemovedPlaced(t, h, k);
    RemovedCount(t, h, k);
  }

  /** The pairs of an erased bucket are those before and after the erased one. */
  lemma ErasedFacts<V>(s: Bucket<V>, i: nat)
    requires i < |s|
    ensures forall j :: 0 <= j < |Erased(s, i)| ==> Erased(s, i)[j] == if j < i then s[j] else s[j + 1]
    ensures multiset(s) == multiset(Erased(s, i)) + multiset{s[i]}
    ensures Unique(s) ==> Unique(Erased(s, i))
  {
    var e := Erased(s, i);
    forall j | 0 <= j < |e|
      ensures e[j] == if j < i then s[j] else s[j + 1]
    {
      if j >= i {
        assert e[j] == s[i + 1..][j - i];
      }
    }
    assert s == s[..i] + [s[i]] + s[i + 1..];
  }

  lemma RemovedPlaced<V>(t: seq<Bucket<V>>, h: int -> nat, k: int)
    requires |t| > 0 && Placed(t, h) && FindIn(t, h, k).Some?
    ensures Placed(Removed(t, h, k), h)
  {
    var b := h(k) % |t|;
    var s, i := t[b], Position(t[b], k);
    ErasedFacts(s, i);
  }

  lemma RemovedCount<V>(t: seq<Bucket<V>>, h: int -> nat, k: int)
    requires |t| > 0 && FindIn(t, h, k).Some?
    ensures |Flatten(Removed(t, h, k))| == |Flatten(t)| - 1
  {
    var b := h(k) % |t|;
    var s, i := t[b], Position(t[b], k);
    FlattenUpdate(t, b, Erased(s, i));
  }
}
