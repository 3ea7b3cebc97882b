/**
 * The slot vector of `HashTable_OpenAddressing<Key, Value, Hash>` of
 * include/HashTable_OpenAd/HashTable_OpenAdressing.hpp as a value: entries
 * with a key, a value and a state, searched by double hashing, where a removed
 * entry leaves a DELETED marker.  The functions here say where `contains`,
 * `at`, `remove` and `add` stop, and what `rehash` builds; the lemmas say what
 * the table they act on then holds.
 */
module OpenSlots {
  import opened Results
  import opened HashSupport
  import opened ChainingBuckets

  /** `EntryState`. */
  datatype EntryState = Empty | Occupied | Deleted

  /** `Entry`: a key, a value and a state.  A default `Entry()` sets only
      the state, to EMPTY; its key and value are whatever the caller passes
      as `filler` below, standing for contents the program leaves unset. */
  datatype Entry<V> = Entry(key: int, value: V, state: EntryState)

  /** `std::vector<Entry>(n)`: `n` empty slots, each holding `filler`. */
  function EmptySlots<V>(n: nat, filler: V): (t: seq<Entry<V>>)
    ensures |t| == n && forall s :: 0 <= s < n ==> t[s].state == Empty
  {
    seq(n, _ => Entry(0, filler, Empty))
  }

  // ------------------------------------------------------------- probing

  /** `hash2(k)`: the step of the probe sequence, `1 + hash(k) % (size - 1)`. */
  function Hash2(h: int -> nat, k: int, n: nat): (step: nat)
    requires n >= 2
    ensures 1 <= step < n
  {
    1 + h(k) % (n - 1)
  }

  /** `hash_code(k, i)`: the slot of the `i`-th probe for `k`. */
  function Probe(h: int -> nat, k: int, i: nat, n: nat): (slot: nat)
    requires n >= 2
    ensures slot < n
  {
    (h(k) + i * Hash2(h, k, n)) % n
  }

  /** With a prime size, the first `size` probes of a key are all different. */
  lemma ProbeDistinct(h: int -> nat, k: int, n: nat, i: nat, j: nat)
    requires IsPrime(n) && i < j < n
    ensures Probe(h, k, i, n) != Probe(h, k, j, n)
  {
    var a, step := h(k), Hash2(h, k, n);
    if Probe(h, k, i, n) == Probe(h, k, j, n) {
      SameRemainder(a + j * step, a + i * step, n);
      Distribute(j, i, step);
      assert (a + j * step) - (a + i * step) == (j - i) * step;
      NoZeroDivisor(n, j - i, step);
    }
  }

  /** The slots of the first `m` probes. */
  ghost function Visited(h: int -> nat, k: int, n: nat, m: nat): set<nat>
    requires n >= 2
  {
    set i: nat | i < m :: Probe(h, k, i, n)
  }

  lemma {:induction false} VisitedSize(h: int -> nat, k: int, n: nat, m: nat)
    requires IsPrime(n) && m <= n
    ensures |Visited(h, k, n, m)| == m
  {
    if m == 0 {
      assert Visited(h, k, n, 0) == {};
    } else {
      VisitedSize(h, k, n, m - 1);
      var last := Probe(h, k, m - 1, n);
      assert Visited(h, k, n, m) == Visited(h, k, n, m - 1) + {last};
      forall i: nat | i < m - 1
        ensures Probe(h, k, i, n) != last
      {
        ProbeDistinct(h, k, n, i, m - 1);
      }
      assert last !in Visited(h, k, n, m - 1);
    }
  }

  /** The slot numbers below `n`. */
  ghost function SlotRange(n: nat): set<nat>
  {
    if n == 0 then {} else SlotRange(n - 1) + {n - 1}
  }

  lemma {:induction false} SlotRangeFacts(n: nat)
    ensures |SlotRange(n)| == n
    ensures forall s: nat :: s < n <==> s in SlotRange(n)
  {
    if n > 0 {
      SlotRangeFacts(n - 1);
      assert n - 1 !in SlotRange(n - 1);
    }
  }

  lemma SubsetSize<T>(a: set<T>, b: set<T>)
    requires a <= b
    ensures |a| <= |b|
  {
    assert b == a + (b - a);
  }

  /** With a prime size, the first `size` probes of a key reach every slot:
      a probe loop that runs out has seen the whole table. */
  lemma ProbeCovers(h: int -> nat, k: int, n: nat, slot: nat) returns (i: nat)
    requires IsPrime(n) && slot < n
    ensures i < n && Probe(h, k, i, n) == slot
  {
    var seen := Visited(h, k, n, n);
    VisitedSize(h, k, n, n);
    if slot !in seen {
      SlotRangeFacts(n);
      var others := SlotRange(n) - {slot};
      assert seen <= others;
      SubsetSize(seen, others);
      assert false;
    }
    i :| i < n && Probe(h, k, i, n) == slot;
  }

  // ------------------------------------------------------------- look-up

  /** Where a look-up stops: at the slot holding the key, at the first empty
      slot, or after `size` probes. */
  datatype Outcome = Hit(slot: nat) | MissAt(slot: nat) | MissAll

  /**
   * The probe loop of `contains`, `at`, both `operator[]` and `remove` from
   * probe `i` on: it passes DELETED slots and slots holding other keys, and
   * stops at the key or at an EMPTY slot.
   */
  function SearchFrom<V>(t: seq<Entry<V>>, h: int -> nat, k: int, i: nat): (r: Outcome)
    requires |t| >= 2
    ensures r.Hit? ==> r.slot < |t| && t[r.slot].state == Occupied && t[r.slot].key == k
    ensures r.MissAt? ==> r.slot < |t| && t[r.slot].state == Empty
    decreases |t| - i
  {
    if i >= |t| then MissAll
    else
      var s := Probe(h, k, i, |t|);
      if t[s].state == Occupied && t[s].key == k then Hit(s)
      else if t[s].state == Empty then MissAt(s)
      else SearchFrom(t, h, k, i + 1)
  }

  function Search<V>(t: seq<Entry<V>>, h: int -> nat, k: int): Outcome
    requires |t| >= 2
  {
    SearchFrom(t, h, k, 0)
  }

  /** A look-up that ran out passed only DELETED slots and other keys. */
  lemma {:induction false} MissAllPassed<V>(t: seq<Entry<V>>, h: int -> nat, k: int, i: nat, j: nat)
    requires |t| >= 2 && SearchFrom(t, h, k, i) == MissAll && i <= j < |t|
    ensures var s := Probe(h, k, j, |t|);
            t[s].state == Deleted || (t[s].state == Occupied && t[s].key != k)
    decreases j - i
  {
    if i < j {
      MissAllPassed(t, h, k, i + 1, j);
    }
  }

  /** With a prime size, a look-up that runs out means the table has no empty
      slot and no slot holding the key. */
  lemma MissAllAbsent<V>(t: seq<Entry<V>>, h: int -> nat, k: int)
    requires IsPrime(|t|) && Search(t, h, k) == MissAll
    ensures forall s :: 0 <= s < |t| ==> t[s].state != Empty && !(t[s].state == Occupied && t[s].key == k)
  {
    forall s | 0 <= s < |t|
      ensures t[s].state != Empty && !(t[s].state == Occupied && t[s].key == k)
    {
      var i := ProbeCovers(h, k, |t|, s);
      MissAllPassed(t, h, k, 0, i);
    }
  }

  // ------------------------------------------------------------- add

  /** Where `add` stops: at the first slot that is not OCCUPIED, at the key,
      or after `size` probes. */
  datatype Placement = Free(slot: nat) | Present | Full

  /** The probe loop of `add` from probe `i` on: unlike a look-up, it stops at
      the first EMPTY *or* DELETED slot. */
  function AddProbeFrom<V>(t: seq<Entry<V>>, h: int -> nat, k: int, i: nat): (r: Placement)
    requires |t| >= 2
    ensures r.Free? ==> r.slot < |t| && t[r.slot].state != Occupied
    decreases |t| - i
  {
    if i >= |t| then Full
    else
      var s := Probe(h, k, i, |t|);
      if t[s].state != Occupied then Free(s)
      else if t[s].key == k then Present
      else AddProbeFrom(t, h, k, i + 1)
  }

  function AddProbe<V>(t: seq<Entry<V>>, h: int -> nat, k: int): (r: Placement)
    requires |t| >= 2
    ensures r.Free? ==> r.slot < |t| && t[r.slot].state != Occupied
  {
    AddProbeFrom(t, h, k, 0)
  }

  /** `add` finding the key stopped where a look-up stops too. */
  lemma {:induction false} PresentIsHit<V>(t: seq<Entry<V>>, h: int -> nat, k: int, i: nat)
    requires |t| >= 2 && AddProbeFrom(t, h, k, i) == Present
    ensures SearchFrom(t, h, k, i).Hit?
    decreases |t| - i
  {
    var s := Probe(h, k, i, |t|);
    if t[s].key != k {
      PresentIsHit(t, h, k, i + 1);
    }
  }

  /** An `add` that ran out passed only OCCUPIED slots. */
  lemma {:induction false} FullPassed<V>(t: seq<Entry<V>>, h: int -> nat, k: int, i: nat, j: nat)
    requires |t| >= 2 && AddProbeFrom(t, h, k, i) == Full && i <= j < |t|
    ensures t[Probe(h, k, j, |t|)].state == Occupied
    decreases j - i
  {
    if i < j {
      FullPassed(t, h, k, i + 1, j);
    }
  }

  /** With a prime size, `add` runs out only when every slot is OCCUPIED. */
  lemma FullAllOccupied<V>(t: seq<Entry<V>>, h: int -> nat, k: int)
    requires IsPrime(|t|) && AddProbe(t, h, k) == Full
    ensures forall s :: 0 <= s < |t| ==> t[s].state == Occupied
  {
    forall s | 0 <= s < |t|
      ensures t[s].state == Occupied
    {
      var i := ProbeCovers(h, k, |t|, s);
      FullPassed(t, h, k, 0, i);
    }
  }

  /** After `add` writes the key at the slot it stopped at, a look-up of the
      key stops there. */
  lemma {:induction false} AddedFound<V>(t: seq<Entry<V>>, h: int -> nat, k: int, v: V, i: nat, slot: nat)
    requires |t| >= 2 && AddProbeFrom(t, h, k, i) == Free(slot)
    ensures SearchFrom(t[slot := Entry(k, v, Occupied)], h, k, i) == Hit(slot)
    decreases |t| - i
  {
    var s := Probe(h, k, i, |t|);
    if s != slot {
      AddedFound(t, h, k, v, i + 1, slot);
    }
  }

  /** Writing a key into a slot that was not OCCUPIED keeps every look-up of
      another key that stopped at that key. */
  lemma {:induction false} WriteKeepsHit<V>(t: seq<Entry<V>>, h: int -> nat, x: int, slot: nat, e: Entry<V>, i: nat)
    requires |t| >= 2 && slot < |t| && t[slot].state != Occupied
    requires e.state == Occupied && e.key != x
    requires SearchFrom(t, h, x, i).Hit?
    ensures SearchFrom(t[slot := e], h, x, i) == SearchFrom(t, h, x, i)
    decreases |t| - i
  {
    var s := Probe(h, x, i, |t|);
    if !(t[s].state == Occupied && t[s].key == x) {
      WriteKeepsHit(t, h, x, slot, e, i + 1);
    }
  }

  /** Marking the slot of one key DELETED changes no look-up of another key. */
  lemma {:induction false} DeleteKeepsOthers<V>(t: seq<Entry<V>>, h: int -> nat, x: int, slot: nat, i: nat)
    requires |t| >= 2 && slot < |t| && t[slot].state == Occupied && t[slot].key != x
    ensures SearchFrom(t[slot := t[slot].(state := Deleted)], h, x, i) == SearchFrom(t, h, x, i)
    decreases |t| - i
  {
    if i < |t| {
      DeleteKeepsOthers(t, h, x, slot, i + 1);
    }
  }

  // ------------------------------------------------------------- contents

  /** The pair of one slot: its key and value when OCCUPIED, none otherwise. */
  function Cell<V>(e: Entry<V>): Bucket<V>
  {
    if e.state == Occupied then [(e.key, e.value)] else []
  }

  function Cells<V>(t: seq<Entry<V>>): seq<Bucket<V>>
  {
    seq(|t|, s requires 0 <= s < |t| => Cell(t[s]))
  }

  /** The pairs of the occupied slots in slot order: what the iterator visits
      and what `m_number_of_elements` counts. */
  function OccupiedPairs<V>(t: seq<Entry<V>>): seq<(int, V)>
  {
    Flatten(Cells(t))
  }

  /** Rewriting one slot replaces its pair, and only that, among all pairs. */
  lemma PairsWrite<V>(t: seq<Entry<V>>, slot: nat, e: Entry<V>)
    requires slot < |t|
    ensures multiset(OccupiedPairs(t[slot := e])) + multiset(Cell(t[slot])) ==
            multiset(OccupiedPairs(t)) + multiset(Cell(e))
    ensures |OccupiedPairs(t[slot := e])| + |Cell(t[slot])| == |OccupiedPairs(t)| + |Cell(e)|
  {
    assert Cells(t[slot := e]) == Cells(t)[slot := Cell(e)];
    FlattenUpdate(Cells(t), slot, Cell(e));
  }

  lemma PairsSnoc<V>(t: seq<Entry<V>>, e: Entry<V>)
    ensures OccupiedPairs(t + [e]) == OccupiedPairs(t) + Cell(e)
  {
    assert Cells(t + [e]) == Cells(t) + [Cell(e)];
    FlattenSnoc(Cells(t), Cell(e));
  }

  lemma PairsSuffix<V>(t: seq<Entry<V>>, i: nat)
    requires i < |t|
    ensures OccupiedPairs(t[i..]) == Cell(t[i]) + OccupiedPairs(t[i + 1..])
  {
    assert Cells(t[i..])[1..] == Cells(t[i + 1..]);
  }

  lemma EmptyPairs<V>(t: seq<Entry<V>>)
    requires forall s :: 0 <= s < |t| ==> t[s].state != Occupied
    ensures OccupiedPairs(t) == []
  {
    FlattenEmptyBuckets(Cells(t));
  }

  /** At most one pair per slot, and as many as slots exactly when every slot
      is OCCUPIED. */
  lemma {:induction false} PairsBound<V>(t: seq<Entry<V>>)
    ensures |OccupiedPairs(t)| <= |t|
    ensures |OccupiedPairs(t)| == |t| <==> forall s :: 0 <= s < |t| ==> t[s].state == Occupied
  {
    if |t| > 0 {
      var init := t[..|t| - 1];
      assert t == init + [t[|t| - 1]];
      PairsSnoc(init, t[|t| - 1]);
      PairsBound(init);
      if forall s :: 0 <= s < |t| ==> t[s].state == Occupied {
        assert forall s :: 0 <= s < |init| ==> init[s].state == Occupied;
      }
    }
  }

  lemma {:induction false} PairsAppend<V>(a: seq<Entry<V>>, b: seq<Entry<V>>)
    ensures OccupiedPairs(a + b) == OccupiedPairs(a) + OccupiedPairs(b)
    decreases |b|
  {
    if |b| == 0 {
      assert a + b == a;
      assert Cells(b) == [];
    } else {
      var init, e := b[..|b| - 1], b[|b| - 1];
      assert b == init + [e];
      assert a + b == (a + init) + [e];
      PairsAppend(a, init);
      PairsSnoc(a + init, e);
      PairsSnoc(init, e);
    }
  }

  /** The slots before `i` hold no more pairs than the whole table. */
  lemma PairsPrefix<V>(t: seq<Entry<V>>, i: nat)
    requires i <= |t|
    ensures |OccupiedPairs(t[..i])| <= |OccupiedPairs(t)|
  {
    assert t == t[..i] + t[i..];
    PairsAppend(t[..i], t[i..]);
  }

  /** Every pair comes from an OCCUPIED slot. */
  lemma {:induction false} PairsFromSlots<V>(t: seq<Entry<V>>, p: (int, V)) returns (s: nat)
    requires p in OccupiedPairs(t)
    ensures s < |t| && t[s].state == Occupied && (t[s].key, t[s].value) == p
  {
    assert |t| > 0;
    var init, e := t[..|t| - 1], t[|t| - 1];
    assert t == init + [e];
    PairsSnoc(init, e);
    if p in OccupiedPairs(init) {
      s := PairsFromSlots(init, p);
    } else {
      s := |t| - 1;
    }
  }

  /** Every OCCUPIED slot's pair is among the pairs. */
  lemma OccupiedInPairs<V>(t: seq<Entry<V>>, s: nat)
    requires s < |t| && t[s].state == Occupied
    ensures (t[s].key, t[s].value) in OccupiedPairs(t)
  {
    assert Cells(t)[s] == [(t[s].key, t[s].value)];
    InFlatten(Cells(t), s, 0);
  }

  /** No pairs exactly when no slot is OCCUPIED. */
  lemma NoPairs<V>(t: seq<Entry<V>>)
    ensures OccupiedPairs(t) == [] <==> forall s :: 0 <= s < |t| ==> t[s].state != Occupied
  {
    if forall s :: 0 <= s < |t| ==> t[s].state != Occupied {
      EmptyPairs(t);
    } else {
      var s :| 0 <= s < |t| && t[s].state == Occupied;
      OccupiedInPairs(t, s);
    }
  }

  /** No two OCCUPIED slots hold the same key. */
  ghost predicate KeysDistinct<V>(t: seq<Entry<V>>)
  {
    forall s, u ::
      0 <= s < |t| && 0 <= u < |t| && t[s].state == Occupied && t[u].state == Occupied && t[s].key == t[u].key
      ==> s == u
  }

  // ------------------------------------------------------------- rehash

  /** The inner loop of `rehash`: from `hash(key) + j` on, round the table, the
      first slot that is not OCCUPIED. */
  function LinearFrom<V>(t: seq<Entry<V>>, start: nat, j: nat): (r: Option<nat>)
    ensures r.Some? ==> r.value < |t| && t[r.value].state != Occupied
    decreases |t| - j
  {
    if j >= |t| then None
    else if t[(start + j) % |t|].state != Occupied then Some((start + j) % |t|)
    else LinearFrom(t, start, j + 1)
  }

  /** The loop reaches every slot within `size` steps, so it stops when some
      slot is not OCCUPIED. */
  lemma {:induction false} LinearReaches<V>(t: seq<Entry<V>>, start: nat, j: nat, target: nat)
    requires j <= target < |t| && t[(start + target) % |t|].state != Occupied
    ensures LinearFrom(t, start, j).Some?
    decreases target - j
  {
    if j < target && t[(start + j) % |t|].state == Occupied {
      LinearReaches(t, start, j + 1, target);
    }
  }

  /** The step count after which linear probing from `start` is at `f`. */
  lemma StepsTo(start: nat, f: nat, n: nat) returns (j: nat)
    requires f < n
    ensures j < n && (start + j) % n == f
  {
    j := (f - start) % n;
    var q := (f - start) / n;
    assert start + j == f - n * q;
    DivModUnique(start + j, n, -q, f);
  }

  lemma LinearFinds<V>(t: seq<Entry<V>>, start: nat, f: nat)
    requires f < |t| && t[f].state != Occupied
    ensures LinearFrom(t, start, 0).Some?
  {
    var j := StepsTo(start, f, |t|);
    LinearReaches(t, start, 0, j);
  }

  /**
   * The table `rehash(new_size)` builds from the slots `src`: a fresh vector
   * of `new_size` empty slots, and every OCCUPIED entry, in slot order, moved
   * to the first slot not OCCUPIED by *linear* probing from
   * `hash(key) % new_size`, not by the double hashing of look-ups.
   */
  function LinearRehash<V>(src: seq<Entry<V>>, h: int -> nat, ns: nat, blank: V): (r: seq<Entry<V>>)
    ensures |r| == ns
  {
    if |src| == 0 then EmptySlots(ns, blank)
    else
      var r := LinearRehash(src[..|src| - 1], h, ns, blank);
      var e := src[|src| - 1];
      if e.state != Occupied then r
      else match LinearFrom(r, h(e.key), 0)
        case Some(s) => r[s := e]
        case None => r
  }

  /** One more old slot. */
  lemma LinearRehashStep<V>(src: seq<Entry<V>>, e: Entry<V>, h: int -> nat, ns: nat, blank: V)
    ensures var r := LinearRehash(src, h, ns, blank);
            LinearRehash(src + [e], h, ns, blank) ==
              if e.state != Occupied then r
              else match LinearFrom(r, h(e.key), 0)
                case Some(s) => r[s := e]
                case None => r
  {
    assert (src + [e])[..|src|] == src;
  }

  /**
   * When the new size leaves room for every entry, `rehash` keeps every
   * entry exactly once and leaves no DELETED marker; where the entries land
   * is fixed by linear probing, so a later look-up may not find them.
   */
  lemma {:induction false} LinearRehashKeeps<V>(src: seq<Entry<V>>, h: int -> nat, ns: nat, blank: V)
    requires |OccupiedPairs(src)| <= ns
    ensures var r := LinearRehash(src, h, ns, blank);
            (forall s :: 0 <= s < ns ==> r[s].state != Deleted) &&
            multiset(OccupiedPairs(r)) == multiset(OccupiedPairs(src)) &&
            |OccupiedPairs(r)| == |OccupiedPairs(src)|
  {
    if |src| == 0 {
      EmptyPairs(EmptySlots(ns, blank));
    } else {
      var init, e := src[..|src| - 1], src[|src| - 1];
      assert src == init + [e];
      PairsSnoc(init, e);
      LinearRehashKeeps(init, h, ns, blank);
      var r := LinearRehash(init, h, ns, blank);
      if e.state == Occupied {
        PairsBound(r);
        var f :| 0 <= f < |r| && r[f].state != Occupied;
        LinearFinds(r, h(e.key), f);
        var s := LinearFrom(r, h(e.key), 0).value;
        PairsWrite(r, s, e);
      }
    }
  }

  // ------------------------------------------------------------- findability

  /** Every OCCUPIED slot's key is found by a look-up: what double-hashing
      insertion keeps, and what a look-up needs to be exact. */
  ghost predicate Findable<V>(t: seq<Entry<V>>, h: int -> nat)
    requires |t| >= 2
  {
    forall s :: 0 <= s < |t| && t[s].state == Occupied ==> Search(t, h, t[s].key).Hit?
  }

  /** The keys of the OCCUPIED slots. */
  ghost function StoredKeys<V>(t: seq<Entry<V>>): set<int>
  {
    set p | p in OccupiedPairs(t) :: p.0
  }

  lemma StoredKeysSlots<V>(t: seq<Entry<V>>, k: int)
    ensures k in StoredKeys(t) <==> exists s :: 0 <= s < |t| && t[s].state == Occupied && t[s].key == k
  {
    if k in StoredKeys(t) {
      var p :| p in OccupiedPairs(t) && p.0 == k;
      var s := PairsFromSlots(t, p);
    }
    if exists s :: 0 <= s < |t| && t[s].state == Occupied && t[s].key == k {
      var s :| 0 <= s < |t| && t[s].state == Occupied && t[s].key == k;
      OccupiedInPairs(t, s);
    }
  }

  /** In a findable table a look-up hits exactly the stored keys. */
  lemma FindableSearch<V>(t: seq<Entry<V>>, h: int -> nat, k: int)
    requires |t| >= 2 && Findable(t, h)
    ensures Search(t, h, k).Hit? <==> k in StoredKeys(t)
  {
    StoredKeysSlots(t, k);
  }

  /** The same pairs, the same keys. */
  lemma SameKeys<V>(a: seq<Entry<V>>, b: seq<Entry<V>>)
    requires multiset(OccupiedPairs(a)) == multiset(OccupiedPairs(b))
    ensures StoredKeys(a) == StoredKeys(b)
  {
    forall k ensures k in StoredKeys(a) <==> k in StoredKeys(b)
    {
      if k in StoredKeys(a) {
        var p :| p in OccupiedPairs(a) && p.0 == k;
        assert p in multiset(OccupiedPairs(b));
      }
      if k in StoredKeys(b) {
        var p :| p in OccupiedPairs(b) && p.0 == k;
        assert p in multiset(OccupiedPairs(a));
      }
    }
  }

  /** One pair more, its key more. */
  lemma AddedKey<V>(a: seq<Entry<V>>, b: seq<Entry<V>>, p: (int, V))
    requires multiset(OccupiedPairs(b)) == multiset(OccupiedPairs(a)) + multiset{p}
    ensures StoredKeys(b) == StoredKeys(a) + {p.0}
  {
    forall k ensures k in StoredKeys(b) <==> k in StoredKeys(a) + {p.0}
    {
      if k in StoredKeys(b) {
        var q :| q in OccupiedPairs(b) && q.0 == k;
        assert q in multiset(OccupiedPairs(b));
        if q != p {
          assert q in multiset(OccupiedPairs(a));
        }
      }
      if k in StoredKeys(a) {
        var q :| q in OccupiedPairs(a) && q.0 == k;
        assert q in multiset(OccupiedPairs(b));
      }
      if k == p.0 {
        assert p in multiset(OccupiedPairs(b));
      }
    }
  }

  /** One pair less, and its key was stored once: its key less. */
  lemma RemovedKey<V>(a: seq<Entry<V>>, b: seq<Entry<V>>, p: (int, V))
    requires multiset(OccupiedPairs(b)) + multiset{p} == multiset(OccupiedPairs(a))
    requires forall q :: q in OccupiedPairs(b) ==> q.0 != p.0
    ensures StoredKeys(b) == StoredKeys(a) - {p.0}
  {
    forall k ensures k in StoredKeys(b) <==> k in StoredKeys(a) - {p.0}
    {
      if k in StoredKeys(b) {
        var q :| q in OccupiedPairs(b) && q.0 == k;
        assert q in multiset(OccupiedPairs(a));
      }
      if k in StoredKeys(a) && k != p.0 {
        var q :| q in OccupiedPairs(a) && q.0 == k;
        assert q in multiset(OccupiedPairs(a)) && q != p;
        assert q in multiset(OccupiedPairs(b));
      }
    }
  }

  /** The first slot on the double-hashing probe sequence of `k`, from probe
      `i` on, that is not OCCUPIED. */
  function FreeProbeFrom<V>(t: seq<Entry<V>>, h: int -> nat, k: int, i: nat): (r: Option<nat>)
    requires |t| >= 2
    ensures r.Some? ==> r.value < |t| && t[r.value].state != Occupied
    decreases |t| - i
  {
    if i >= |t| then None
    else
      var s := Probe(h, k, i, |t|);
      if t[s].state != Occupied then Some(s) else FreeProbeFrom(t, h, k, i + 1)
  }

  lemma {:induction false} FreeProbeReaches<V>(t: seq<Entry<V>>, h: int -> nat, k: int, i: nat, j: nat)
    requires |t| >= 2 && i <= j < |t| && t[Probe(h, k, j, |t|)].state != Occupied
    ensures FreeProbeFrom(t, h, k, i).Some?
    decreases j - i
  {
    var s := Probe(h, k, i, |t|);
    if t[s].state == Occupied {
      assert i < j;
      FreeProbeReaches(t, h, k, i + 1, j);
      assert FreeProbeFrom(t, h, k, i) == FreeProbeFrom(t, h, k, i + 1);
    }
  }

  /** With a prime size, the probe sequence reaches any slot that is free. */
  lemma FreeProbeFinds<V>(t: seq<Entry<V>>, h: int -> nat, k: int, f: nat)
    requires IsPrime(|t|) && f < |t| && t[f].state != Occupied
    ensures FreeProbeFrom(t, h, k, 0).Some?
  {
    var j := ProbeCovers(h, k, |t|, f);
    FreeProbeReaches(t, h, k, 0, j);
  }

  /** An entry written at that slot is found by a look-up of its key. */
  lemma {:induction false} FreeProbeFound<V>(t: seq<Entry<V>>, h: int -> nat, e: Entry<V>, i: nat, slot: nat)
    requires |t| >= 2 && e.state == Occupied && FreeProbeFrom(t, h, e.key, i) == Some(slot)
    ensures SearchFrom(t[slot := e], h, e.key, i).Hit?
    decreases |t| - i
  {
    var s := Probe(h, e.key, i, |t|);
    if s != slot && t[s].key != e.key {
      FreeProbeFound(t, h, e, i + 1, slot);
    }
  }

  /** Writing an OCCUPIED entry into a slot that was not OCCUPIED, where a
      look-up of its key then finds it, keeps the table findable. */
  lemma WriteKeepsFindable<V>(t: seq<Entry<V>>, h: int -> nat, slot: nat, e: Entry<V>)
    requires |t| >= 2 && Findable(t, h) && slot < |t| && t[slot].state != Occupied && e.state == Occupied
    requires Search(t[slot := e], h, e.key).Hit?
    ensures Findable(t[slot := e], h)
  {
    var u := t[slot := e];
    forall s | 0 <= s < |u| && u[s].state == Occupied
      ensures Search(u, h, u[s].key).Hit?
    {
      if u[s].key != e.key {
        WriteKeepsHit(t, h, u[s].key, slot, e, 0);
      }
    }
  }

  /** Writing a key that no OCCUPIED slot holds keeps the keys distinct. */
  lemma WriteKeepsDistinct<V>(t: seq<Entry<V>>, slot: nat, e: Entry<V>)
    requires KeysDistinct(t) && slot < |t| && e.key !in StoredKeys(t)
    ensures KeysDistinct(t[slot := e])
  {
    StoredKeysSlots(t, e.key);
  }

  /** Marking the slot of a key stored once DELETED keeps the table findable,
      its keys distinct, and removes that key. */
  lemma DeleteKeepsFindable<V>(t: seq<Entry<V>>, h: int -> nat, slot: nat)
    requires |t| >= 2 && Findable(t, h) && KeysDistinct(t) && slot < |t| && t[slot].state == Occupied
    ensures var u := t[slot := t[slot].(state := Deleted)];
            Findable(u, h) && KeysDistinct(u) && t[slot].key !in StoredKeys(u)
  {
    var u := t[slot := t[slot].(state := Deleted)];
    forall s | 0 <= s < |u| && u[s].state == Occupied
      ensures Search(u, h, u[s].key).Hit?
    {
      DeleteKeepsOthers(t, h, u[s].key, slot, 0);
    }
    StoredKeysSlots(u, t[slot].key);
  }

  /** Marking the slot of a key DELETED in a findable table with distinct
      keys keeps both, and takes exactly that key out. */
  lemma DeleteSound<V>(t: seq<Entry<V>>, h: int -> nat, k: int, slot: nat)
    requires |t| >= 2 && slot < |t| && t[slot].state == Occupied && t[slot].key == k
    ensures var u := t[slot := t[slot].(state := Deleted)];
            Findable(t, h) && KeysDistinct(t) ==>
              Findable(u, h) && KeysDistinct(u) && StoredKeys(u) == StoredKeys(t) - {k}
  {
    var u := t[slot := t[slot].(state := Deleted)];
    if Findable(t, h) && KeysDistinct(t) {
      DeleteKeepsFindable(t, h, slot);
      PairsWrite(t, slot, t[slot].(state := Deleted));
      forall q | q in OccupiedPairs(u)
        ensures q.0 != t[slot].key
      {
        var w := PairsFromSlots(u, q);
        StoredKeysSlots(u, t[slot].key);
      }
      RemovedKey(t, u, (t[slot].key, t[slot].value));
    }
  }

  /**
   * A rebuild that places every entry by the look-up's own double hashing:
   * like `LinearRehash`, with each OCCUPIED entry moved to the first slot not
   * OCCUPIED on its probe sequence in the new table.
   */
  function ProbeRehash<V>(src: seq<Entry<V>>, h: int -> nat, ns: nat, blank: V): (r: seq<Entry<V>>)
    requires ns >= 2
    ensures |r| == ns
  {
    if |src| == 0 then EmptySlots(ns, blank)
    else
      var r := ProbeRehash(src[..|src| - 1], h, ns, blank);
      var e := src[|src| - 1];
      if e.state != Occupied then r
      else match FreeProbeFrom(r, h, e.key, 0)
        case Some(s) => r[s := e]
        case None => r
  }

  lemma ProbeRehashStep<V>(src: seq<Entry<V>>, e: Entry<V>, h: int -> nat, ns: nat, blank: V)
    requires ns >= 2
    ensures var r := ProbeRehash(src, h, ns, blank);
            ProbeRehash(src + [e], h, ns, blank) ==
              if e.state != Occupied then r
              else match FreeProbeFrom(r, h, e.key, 0)
                case Some(s) => r[s := e]
                case None => r
  {
    assert (src + [e])[..|src|] == src;
  }

  /** One entry placed by its probe sequence into a table with room. */
  lemma ProbePlaceKeeps<V>(r: seq<Entry<V>>, h: int -> nat, e: Entry<V>)
    requires IsPrime(|r|) && e.state == Occupied && |OccupiedPairs(r)| < |r| && Findable(r, h)
    ensures FreeProbeFrom(r, h, e.key, 0).Some?
    ensures var u := r[FreeProbeFrom(r, h, e.key, 0).value := e];
            multiset(OccupiedPairs(u)) == multiset(OccupiedPairs(r)) + multiset{(e.key, e.value)} &&
            |OccupiedPairs(u)| == |OccupiedPairs(r)| + 1 && Findable(u, h) &&
            ((forall s :: 0 <= s < |r| ==> r[s].state != Deleted) ==> forall s :: 0 <= s < |u| ==> u[s].state != Deleted) &&
            (KeysDistinct(r) && e.key !in StoredKeys(r) ==> KeysDistinct(u))
  {
    PairsBound(r);
    var f :| 0 <= f < |r| && r[f].state != Occupied;
    FreeProbeFinds(r, h, e.key, f);
    var s := FreeProbeFrom(r, h, e.key, 0).value;
    PairsWrite(r, s, e);
    FreeProbeFound(r, h, e, 0, s);
    WriteKeepsFindable(r, h, s, e);
    if KeysDistinct(r) && e.key !in StoredKeys(r) {
      WriteKeepsDistinct(r, s, e);
    }
  }

  /** The last entry of a table with distinct keys is not among the keys of a
      table holding the pairs of the others. */
  lemma LastNotStored<V>(src: seq<Entry<V>>, r: seq<Entry<V>>)
    requires |src| > 0 && KeysDistinct(src) && src[|src| - 1].state == Occupied
    requires multiset(OccupiedPairs(r)) == multiset(OccupiedPairs(src[..|src| - 1]))
    ensures src[|src| - 1].key !in StoredKeys(r)
  {
    var init, e := src[..|src| - 1], src[|src| - 1];
    if e.key in StoredKeys(r) {
      var p :| p in OccupiedPairs(r) && p.0 == e.key;
      assert p in multiset(OccupiedPairs(init));
      var u := PairsFromSlots(init, p);
      assert false;
    }
  }

  /**
   * With a prime new size that leaves room for every entry, the rebuild keeps
   * every entry exactly once, leaves no DELETED marker, makes every entry
   * findable, and keeps distinct keys distinct.
   */
  lemma {:induction false} ProbeRehashKeeps<V>(src: seq<Entry<V>>, h: int -> nat, ns: nat, blank: V)
    requires IsPrime(ns) && |OccupiedPairs(src)| <= ns
    ensures var r := ProbeRehash(src, h, ns, blank);
            (forall s :: 0 <= s < ns ==> r[s].state != Deleted) &&
            multiset(OccupiedPairs(r)) == multiset(OccupiedPairs(src)) &&
            |OccupiedPairs(r)| == |OccupiedPairs(src)| &&
            Findable(r, h) && (KeysDistinct(src) ==> KeysDistinct(r))
  {
    if |src| == 0 {
      EmptyPairs(EmptySlots(ns, blank));
    } else {
      var init, e := src[..|src| - 1], src[|src| - 1];
      assert src == init + [e];
      PairsSnoc(init, e);
      ProbeRehashKeeps(init, h, ns, blank);
      var r := ProbeRehash(init, h, ns, blank);
      ProbeRehashStep(init, e, h, ns, blank);
      if e.state == Occupied {
        ProbeRehashLast(src, r, h);
      } else if KeysDistinct(src) {
        assert KeysDistinct(init);
      }
    }
  }

  /** The step of `ProbeRehashKeeps` that places the last OCCUPIED entry. */
  lemma ProbeRehashLast<V>(src: seq<Entry<V>>, r: seq<Entry<V>>, h: int -> nat)
    requires IsPrime(|r|) && |src| > 0 && src[|src| - 1].state == Occupied && |OccupiedPairs(src)| <= |r|
    requires var init := src[..|src| - 1];
             (forall s :: 0 <= s < |r| ==> r[s].state != Deleted) &&
             multiset(OccupiedPairs(r)) == multiset(OccupiedPairs(init)) &&
             |OccupiedPairs(r)| == |OccupiedPairs(init)| &&
             Findable(r, h) && (KeysDistinct(init) ==> KeysDistinct(r))
    ensures FreeProbeFrom(r, h, src[|src| - 1].key, 0).Some?
    ensures var u := r[FreeProbeFrom(r, h, src[|src| - 1].key, 0).value := src[|src| - 1]];
            (forall s :: 0 <= s < |u| ==> u[s].state != Deleted) &&
            multiset(OccupiedPairs(u)) == multiset(OccupiedPairs(src)) &&
            |OccupiedPairs(u)| == |OccupiedPairs(src)| &&
            Findable(u, h) && (KeysDistinct(src) ==> KeysDistinct(u))
  {
    var init, e := src[..|src| - 1], src[|src| - 1];
    assert src == init + [e];
    PairsSnoc(init, e);
    ProbePlaceKeeps(r, h, e);
    if KeysDistinct(src) {
      assert KeysDistinct(init);
      LastNotStored(src, r);
    }
  }
}
