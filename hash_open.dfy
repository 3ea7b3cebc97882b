/**
 * `HashTable_OpenAddressing<Key, Value, Hash>` of
 * include/HashTable_OpenAd/HashTable_OpenAdressing.hpp: one vector of entries,
 * probed by double hashing, with DELETED markers left by `remove`, grown by
 * `add` to the next prime after twice its size when the load factor is
 * exceeded.  The vector is the field `table`, its size is `|table|`.  The
 * code is followed as it stands, also where a look-up and `add` disagree:
 * `rehash` places entries by linear probing, and `add` writes at the first
 * DELETED slot without looking further for the key.
 */
module HashOpen {
  import opened Results
  import opened HashSupport
  import opened OpenSlots

  /** The exceptions of HashTable_O_Exceptions.hpp the table throws, and the
      `HTC_KeyNotFoundException` the const `at` throws instead. */
  datatype OpenError = KeyNotFound | InvalidLoadFactor | ChainingKeyNotFound

  /** The probe loop shared by `contains`, `at`, `operator[]` and `remove`. */
  method SearchLoop<V>(t: seq<Entry<V>>, h: int -> nat, k: int) returns (r: Outcome)
    requires |t| >= 2
    ensures r == Search(t, h, k)
  {
    var i := 0;
    while i < |t|
      invariant i <= |t|
      invariant SearchFrom(t, h, k, i) == Search(t, h, k)
    {
      var index := Probe(h, k, i, |t|);
      if t[index].state == Occupied && t[index].key == k {
        return Hit(index);
      } else if t[index].state == Empty {
        return MissAt(index);
      }
      i := i + 1;
    }
    r := MissAll;
  }

  /** The probe loop of `add`. */
  method AddLoop<V>(t: seq<Entry<V>>, h: int -> nat, k: int) returns (r: Placement)
    requires |t| >= 2
    ensures r == AddProbe(t, h, k)
  {
    var i := 0;
    while i < |t|
      invariant i <= |t|
      invariant AddProbeFrom(t, h, k, i) == AddProbe(t, h, k)
    {
      var index := Probe(h, k, i, |t|);
      if t[index].state == Empty || t[index].state == Deleted {
        return Free(index);
      } else if t[index].state == Occupied && t[index].key == k {
        return Present;
      }
      i := i + 1;
    }
    r := Full;
  }

  /**
   * The loops of `rehash(new_size)`: a vector of `new_size` empty slots, and
   * each OCCUPIED entry, in slot order, moved to the first slot not OCCUPIED
   * from `hash(key) % new_size` on, one slot at a time.  The inner loop ends
   * only because there is room for every entry.
   */
  method Relocate<V>(src: seq<Entry<V>>, h: int -> nat, newSize: nat, blank: V) returns (r: seq<Entry<V>>)
    requires |OccupiedPairs(src)| <= newSize
    ensures r == LinearRehash(src, h, newSize, blank)
  {
    r := EmptySlots(newSize, blank);
    var i := 0;
    while i < |src|
      invariant i <= |src|
      invariant r == LinearRehash(src[..i], h, newSize, blank)
    {
      assert src[..i + 1] == src[..i] + [src[i]];
      LinearRehashStep(src[..i], src[i], h, newSize, blank);
      if src[i].state == Occupied {
        var start := h(src[i].key);
        ghost var target := RoomLeft(src, i, h, newSize, blank, start);
        var index := LinearSlot(r, start, target);
        r := r[index := src[i]];
      }
      i := i + 1;
    }
    assert src[..|src|] == src;
  }

  /** The `do`-`while` loop of `rehash` for one entry: slots `hash(key) + j`,
      round the table, until one is not OCCUPIED. */
  method LinearSlot<V>(r: seq<Entry<V>>, start: nat, ghost target: nat) returns (index: nat)
    requires target < |r| && r[(start + target) % |r|].state != Occupied
    ensures LinearFrom(r, start, 0) == Some(index)
  {
    var j := 0;
    index := start % |r|;
    while r[index].state == Occupied
      invariant j <= target && index == (start + j) % |r|
      invariant LinearFrom(r, start, j) == LinearFrom(r, start, 0)
      decreases target - j
    {
      j := j + 1;
      index := (start + j) % |r|;
    }
  }

  /** Before the `i`-th old slot is moved there is still a free slot, `target`
      steps of linear probing from `start`. */
  lemma RoomLeft<V>(src: seq<Entry<V>>, i: nat, h: int -> nat, newSize: nat, blank: V, start: nat)
    returns (target: nat)
    requires i < |src| && src[i].state == Occupied && |OccupiedPairs(src)| <= newSize
    ensures var r := LinearRehash(src[..i], h, newSize, blank);
            newSize > 0 && target < newSize && r[(start + target) % newSize].state != Occupied
  {
    assert src[..i + 1] == src[..i] + [src[i]];
    PairsSnoc(src[..i], src[i]);
    PairsPrefix(src, i + 1);
    LinearRehashKeeps(src[..i], h, newSize, blank);
    var r := LinearRehash(src[..i], h, newSize, blank);
    PairsBound(r);
    var f :| 0 <= f < |r| && r[f].state != Occupied;
    target := StepsTo(start, f, newSize);
  }

  /**
   * The probe loop of `add` with its write: the entry goes to the first EMPTY
   * or DELETED slot (true); an OCCUPIED slot with the key, or `size` probes,
   * leave the slots as they are (false).  After a write the look-up finds the
   * new entry; without one the key is found or every slot is OCCUPIED.
   */
  method Place<V>(t: seq<Entry<V>>, h: int -> nat, k: int, v: V) returns (r: bool, u: seq<Entry<V>>)
    requires IsPrime(|t|)
    ensures var p := AddProbe(t, h, k);
            r == p.Free? && u == if r then t[p.slot := Entry(k, v, Occupied)] else t
    ensures |OccupiedPairs(u)| == |OccupiedPairs(t)| + (if r then 1 else 0)
    ensures multiset(OccupiedPairs(u)) == multiset(OccupiedPairs(t)) + (if r then multiset{(k, v)} else multiset{})
    ensures r ==> Search(u, h, k).Hit? && u[Search(u, h, k).slot].value == v
    ensures !r ==> Search(u, h, k).Hit? || |OccupiedPairs(u)| == |u|
  {
    var p := AddLoop(t, h, k);
    match p
    case Free(slot) =>
      AddedFound(t, h, k, v, 0, slot);
      PairsWrite(t, slot, Entry(k, v, Occupied));
      r, u := true, t[slot := Entry(k, v, Occupied)];
    case Present =>
      PresentIsHit(t, h, k, 0);
      r, u := false, t;
    case Full =>
      FullAllOccupied(t, h, k);
      PairsBound(t);
      r, u := false, t;
  }

  /** The slots `add` probes: those of `t`, rebuilt at `size` slots first when
      the load factor is exceeded. */
  ghost function GrownTo<V>(t: seq<Entry<V>>, h: int -> nat, count: nat, lf: Ratio, size: nat, blank: V): (r: seq<Entry<V>>)
    ensures |r| == if Exceeds(count, |t|, lf) then size else |t|
  {
    if Exceeds(count, |t|, lf) then LinearRehash(t, h, size, blank) else t
  }

  /**
   * The loops of a rebuild by double hashing: `rehash` with the inner loop
   * stepping by `hash_code(key, j)` in the new table, as look-ups do, instead
   * of one slot at a time.
   */
  method ProbeRelocate<V>(src: seq<Entry<V>>, h: int -> nat, newSize: nat, blank: V) returns (r: seq<Entry<V>>)
    requires IsPrime(newSize) && |OccupiedPairs(src)| <= newSize
    ensures r == ProbeRehash(src, h, newSize, blank)
  {
    r := EmptySlots(newSize, blank);
    var i := 0;
    while i < |src|
      invariant i <= |src|
      invariant r == ProbeRehash(src[..i], h, newSize, blank)
    {
      assert src[..i + 1] == src[..i] + [src[i]];
      ProbeRehashStep(src[..i], src[i], h, newSize, blank);
      if src[i].state == Occupied {
        ghost var target := ProbeRoomLeft(src, i, h, newSize, blank);
        var index := FreeSlot(r, h, src[i].key, target);
        r := r[index := src[i]];
      }
      i := i + 1;
    }
    assert src[..|src|] == src;
  }

  /** The inner loop for one entry: probes `hash_code(key, j)` until one is
      not OCCUPIED. */
  method FreeSlot<V>(r: seq<Entry<V>>, h: int -> nat, k: int, ghost target: nat) returns (index: nat)
    requires |r| >= 2 && target < |r| && r[Probe(h, k, target, |r|)].state != Occupied
    ensures FreeProbeFrom(r, h, k, 0) == Some(index)
  {
    var j := 0;
    index := Probe(h, k, 0, |r|);
    while r[index].state == Occupied
      invariant j <= target && index == Probe(h, k, j, |r|)
      invariant FreeProbeFrom(r, h, k, j) == FreeProbeFrom(r, h, k, 0)
      decreases target - j
    {
      j := j + 1;
      index := Probe(h, k, j, |r|);
    }
  }

  /** Before the `i`-th old slot is moved there is still a free slot, at
      probe `target` of its key. */
  lemma ProbeRoomLeft<V>(src: seq<Entry<V>>, i: nat, h: int -> nat, newSize: nat, blank: V)
    returns (target: nat)
    requires i < |src| && src[i].state == Occupied && IsPrime(newSize) && |OccupiedPairs(src)| <= newSize
    ensures var r := ProbeRehash(src[..i], h, newSize, blank);
            target < newSize && r[Probe(h, src[i].key, target, newSize)].state != Occupied
  {
    assert src[..i + 1] == src[..i] + [src[i]];
    PairsSnoc(src[..i], src[i]);
    PairsPrefix(src, i + 1);
    ProbeRehashKeeps(src[..i], h, newSize, blank);
    var r := ProbeRehash(src[..i], h, newSize, blank);
    PairsBound(r);
    var f :| 0 <= f < |r| && r[f].state != Occupied;
    target := ProbeCovers(h, src[i].key, newSize, f);
  }

  /**
   * The probe loops of the corrected `add`: a look-up first, which refuses a
   * key it finds (false); then the probe loop of `add`, which writes at the
   * first EMPTY or DELETED slot (true) or runs out (false).  On a findable
   * table with distinct keys it refuses exactly the stored keys and a full
   * table, and the table stays findable with distinct keys.
   */
  method PlaceNew<V>(t: seq<Entry<V>>, h: int -> nat, k: int, v: V) returns (r: bool, u: seq<Entry<V>>)
    requires IsPrime(|t|)
    ensures var p := AddProbe(t, h, k);
            r == (!Search(t, h, k).Hit? && p.Free?) && u == if r then t[p.slot := Entry(k, v, Occupied)] else t
    ensures |OccupiedPairs(u)| == |OccupiedPairs(t)| + (if r then 1 else 0)
    ensures multiset(OccupiedPairs(u)) == multiset(OccupiedPairs(t)) + (if r then multiset{(k, v)} else multiset{})
    ensures r ==> Search(u, h, k).Hit? && u[Search(u, h, k).slot].value == v
    ensures !r ==> Search(u, h, k).Hit? || |OccupiedPairs(u)| == |u|
    ensures Findable(t, h) && KeysDistinct(t) ==>
              Findable(u, h) && KeysDistinct(u) &&
              (r <==> k !in StoredKeys(t) && |OccupiedPairs(t)| < |t|) &&
              StoredKeys(u) == StoredKeys(t) + (if r then {k} else {})
  {
    var o := SearchLoop(t, h, k);
    if o.Hit? {
      OccupiedInPairs(t, o.slot);
      return false, t;
    }
    r, u := Place(t, h, k, v);
    if AddProbe(t, h, k).Present? {
      PresentIsHit(t, h, k, 0);
    }
    if Findable(t, h) && KeysDistinct(t) {
      FindableSearch(t, h, k);
      PairsBound(t);
      if r {
        var slot := AddProbe(t, h, k).slot;
        AddedKey(t, u, (k, v));
        WriteKeepsFindable(t, h, slot, Entry(k, v, Occupied));
        WriteKeepsDistinct(t, slot, Entry(k, v, Occupied));
      } else {
        FullAllOccupied(t, h, k);
      }
    }
  }

  /**
   * The probe loop of `remove` with its write: the slot where the look-up
   * stops at the key is marked DELETED (true); a miss leaves the slots as
   * they are (false).  No look-up of another key changes; on a findable table
   * with distinct keys the table stays so, without the key.
   */
  method Delete<V>(t: seq<Entry<V>>, h: int -> nat, k: int) returns (r: bool, u: seq<Entry<V>>)
    requires |t| >= 2
    ensures r <==> Search(t, h, k).Hit?
    ensures r ==> var s := Search(t, h, k).slot;
                  u == t[s := t[s].(state := Deleted)] && |OccupiedPairs(u)| + 1 == |OccupiedPairs(t)| &&
                  multiset(OccupiedPairs(u)) + multiset{(k, t[s].value)} == multiset(OccupiedPairs(t))
    ensures !r ==> u == t
    ensures forall x :: x != k ==> Search(u, h, x) == Search(t, h, x)
    ensures r && KeysDistinct(t) ==> !Search(u, h, k).Hit?
    ensures Findable(t, h) && KeysDistinct(t) ==>
              Findable(u, h) && KeysDistinct(u) && StoredKeys(u) == StoredKeys(t) - {k}
  {
    var o := SearchLoop(t, h, k);
    if !o.Hit? {
      if Findable(t, h) {
        FindableSearch(t, h, k);
      }
      return false, t;
    }
    var s := o.slot;
    u := t[s := t[s].(state := Deleted)];
    forall x | x != k
      ensures SearchFrom(u, h, x, 0) == SearchFrom(t, h, x, 0)
    {
      DeleteKeepsOthers(t, h, x, s, 0);
    }
    PairsWrite(t, s, t[s].(state := Deleted));
    DeleteSound(t, h, k, s);
    r := true;
  }

  /** The slots a double-hashing `add` probes: those of `t`, rebuilt by
      double hashing at `size` slots first when the load factor is exceeded. */
  ghost function ProbeGrownTo<V>(t: seq<Entry<V>>, h: int -> nat, count: nat, lf: Ratio, size: nat, blank: V): seq<Entry<V>>
    requires size >= 2
  {
    if Exceeds(count, |t|, lf) then ProbeRehash(t, h, size, blank) else t
  }

  /** The slot the loop of `operator[]` leaves in `index`: where it stopped, or
      the last slot it probed. */
  function StaleSlot<V>(t: seq<Entry<V>>, h: int -> nat, k: int): (s: nat)
    requires |t| >= 2
    ensures s < |t|
  {
    match Search(t, h, k)
    case Hit(s) => s
    case MissAt(s) => s
    case MissAll => Probe(h, k, |t| - 1, |t|)
  }

  class HashTableOpen<V> {
    /** `*m_table`; `m_table_size` is its length. */
    var table: seq<Entry<V>>
    /** `m_number_of_elements`. */
    var count: nat
    /** `m_load_factor`; `m_max_load_factor` is the constant 1. */
    var loadFactor: Ratio
    /** `m_hashing`. */
    const hash: int -> nat
    /** `Value()`, the value `operator[]` adds. */
    const blank: V
    /** The value of a slot no entry has been written to.  `Entry()` sets only
        the state, so for a `Value` without a constructor (such as `size_t`)
        that value is indeterminate; the model fixes it once per table, and
        nothing relates it to `blank`. */
    const filler: V

    /** A prime number of slots, at least 3 (what `get_next_prime` returns),
        the element count equal to the number of OCCUPIED slots, an
        acceptable load factor. */
    ghost predicate Valid()
      reads this
    {
      |table| >= 3 && IsPrime(|table|) && count == |OccupiedPairs(table)| && Acceptable(loadFactor)
    }

    /** `Valid`, and besides every stored key found by a look-up and stored
        once: what every operation of the table would keep if `rehash` probed
        as look-ups do and `add` refused a key stored past a DELETED slot. */
    ghost predicate Sound()
      reads this
    {
      Valid() && Findable(table, hash) && KeysDistinct(table)
    }

    /** `HashTable_OpenAddressing(tableSize)`: `get_next_prime(tableSize)`
        empty slots and the load factor 0.75. */
    constructor (tableSize: nat, hash: int -> nat, blank: V, filler: V)
      ensures Valid() && NextPrimeOf(tableSize, |table|) && table == EmptySlots(|table|, filler) && Sound()
      ensures OccupiedPairs(table) == [] && count == 0 && loadFactor == DefaultLoadFactor
      ensures this.hash == hash && this.blank == blank && this.filler == filler
    {
      var n := NextPrime(tableSize);
      var t := EmptySlots(n, filler);
      EmptyPairs(t);
      this.hash := hash;
      this.blank := blank;
      this.filler := filler;
      table, count, loadFactor := t, 0, DefaultLoadFactor;
    }

    /** `size()`: the number of OCCUPIED slots. */
    function Size(): (n: nat)
      reads this
      requires Valid()
      ensures n == |OccupiedPairs(table)| && n <= |table|
    {
      PairsBound(table);
      count
    }

    /** `empty()`: no OCCUPIED slot. */
    function Empty(): (b: bool)
      reads this
      requires Valid()
      ensures b <==> forall s :: 0 <= s < |table| ==> table[s].state != Occupied
    {
      NoPairs(table);
      count == 0
    }

    /** `load_factor()`. */
    function LoadFactor(): (lf: Ratio)
      reads this
      ensures Valid() ==> Acceptable(lf)
    {
      loadFactor
    }

    /** `max_load_factor()`. */
    function MaxLoad(): (lf: Ratio)
      ensures Acceptable(lf)
      ensures forall f :: Acceptable(f) ==> f.num * lf.den <= lf.num * f.den
    {
      MaxLoadFactor
    }

    /**
     * `rehash(new_size)`: a fresh vector of `new_size` slots with every entry
     * moved by linear probing.  Every entry is kept exactly once and no
     * DELETED marker is left, but where an entry lands is not where a look-up
     * searches for it.  Every caller passes a `get_next_prime` result.
     */
    method Rehash(newSize: nat)
      requires Valid() && count <= newSize && 3 <= newSize && IsPrime(newSize)
      modifies this
      ensures Valid() && table == LinearRehash(old(table), hash, newSize, filler)
      ensures count == old(count) && loadFactor == old(loadFactor)
      ensures multiset(OccupiedPairs(table)) == multiset(OccupiedPairs(old(table)))
      ensures forall s :: 0 <= s < |table| ==> table[s].state != Deleted
    {
      var src := table;
      var t := Relocate(src, hash, newSize, filler);
      LinearRehashKeeps(src, hash, newSize, filler);
      table := t;
    }

    /** The first statement of `add`: `rehash(get_next_prime(size * 2))` when
        the load factor is exceeded. */
    method Grow()
      requires Valid()
      modifies this
      ensures Valid() && count == old(count) && loadFactor == old(loadFactor)
      ensures Exceeds(old(count), |old(table)|, old(loadFactor)) ==> NextPrimeOf(2 * |old(table)|, |table|)
      ensures !Exceeds(old(count), |old(table)|, old(loadFactor)) ==> |table| == |old(table)|
      ensures table == GrownTo(old(table), hash, old(count), old(loadFactor), |table|, filler)
      ensures multiset(OccupiedPairs(table)) == multiset(OccupiedPairs(old(table)))
    {
      if Exceeds(count, |table|, loadFactor) {
        var n := NextPrime(|table| * 2);
        PairsBound(table);
        Rehash(n);
      }
    }

    /** `rehash(new_size)` corrected: every entry moved by double hashing,
        so that afterwards every entry is found by a look-up. */
    method RehashByProbe(newSize: nat)
      requires Valid() && count <= newSize && 3 <= newSize && IsPrime(newSize)
      modifies this
      ensures Valid() && table == ProbeRehash(old(table), hash, newSize, filler)
      ensures count == old(count) && loadFactor == old(loadFactor)
      ensures multiset(OccupiedPairs(table)) == multiset(OccupiedPairs(old(table)))
      ensures forall s :: 0 <= s < |table| ==> table[s].state != Deleted
      ensures Findable(table, hash) && (KeysDistinct(old(table)) ==> KeysDistinct(table))
    {
      var src := table;
      var t := ProbeRelocate(src, hash, newSize, filler);
      ProbeRehashKeeps(src, hash, newSize, filler);
      table := t;
    }

    /** The first statement of `add`, rebuilding by double hashing. */
    method GrowByProbe()
      requires Valid()
      modifies this
      ensures Valid() && count == old(count) && loadFactor == old(loadFactor)
      ensures Exceeds(old(count), |old(table)|, old(loadFactor)) ==> NextPrimeOf(2 * |old(table)|, |table|)
      ensures !Exceeds(old(count), |old(table)|, old(loadFactor)) ==> |table| == |old(table)|
      ensures table == ProbeGrownTo(old(table), hash, old(count), old(loadFactor), |table|, filler)
      ensures multiset(OccupiedPairs(table)) == multiset(OccupiedPairs(old(table)))
      ensures old(Sound()) ==> Sound()
    {
      if Exceeds(count, |table|, loadFactor) {
        var n := NextPrime(|table| * 2);
        PairsBound(table);
        RehashByProbe(n);
      }
    }

    /**
     * `add(k, v)`: first grows the table to `get_next_prime(2 * size)` slots
     * when the load factor is exceeded; then probes, and writes the entry at
     * the first EMPTY or DELETED slot (true), gives up at an OCCUPIED slot
     * with the key (false), or after `size` probes (false).  The key may still
     * be stored further along the probe sequence when a DELETED slot comes
     * first.
     */
    method Add(k: int, v: V) returns (r: bool)
      requires Valid()
      modifies this
      ensures Valid() && loadFactor == old(loadFactor)
      ensures Exceeds(old(count), |old(table)|, old(loadFactor)) ==> NextPrimeOf(2 * |old(table)|, |table|)
      ensures !Exceeds(old(count), |old(table)|, old(loadFactor)) ==> |table| == |old(table)|
      ensures var g := GrownTo(old(table), hash, old(count), old(loadFactor), |table|, filler);
              var p := AddProbe(g, hash, k);
              r == p.Free? && table == (if r then g[p.slot := Entry(k, v, Occupied)] else g)
      ensures count == old(count) + (if r then 1 else 0)
      ensures multiset(OccupiedPairs(table)) ==
              multiset(OccupiedPairs(old(table))) + (if r then multiset{(k, v)} else multiset{})
      ensures r ==> Search(table, hash, k).Hit? && table[Search(table, hash, k).slot].value == v
      ensures !r ==> Search(table, hash, k).Hit? || count == |table|
    {
      Grow();
      var t := table;
      assert t == GrownTo(old(table), hash, old(count), old(loadFactor), |t|, filler);
      var added, u := Place(t, hash, k, v);
      assert |u| == |t| && |OccupiedPairs(u)| == count + (if added then 1 else 0);
      table, count := u, count + (if added then 1 else 0);
      r := added;
    }

    /**
     * `add(k, v)` corrected, as intended: grows the table by double
     * hashing when the load factor is exceeded, refuses a key a look-up
     * finds, and otherwise writes the entry at the first slot that is not
     * OCCUPIED (true), or finds none (false).  On a sound table it refuses
     * exactly the stored keys and a full table, and the table stays sound.
     */
    method AddNew(k: int, v: V) returns (r: bool)
      requires Valid()
      modifies this
      ensures Valid() && loadFactor == old(loadFactor)
      ensures Exceeds(old(count), |old(table)|, old(loadFactor)) ==> NextPrimeOf(2 * |old(table)|, |table|)
      ensures !Exceeds(old(count), |old(table)|, old(loadFactor)) ==> |table| == |old(table)|
      ensures var g := ProbeGrownTo(old(table), hash, old(count), old(loadFactor), |table|, filler);
              var p := AddProbe(g, hash, k);
              r == (!Search(g, hash, k).Hit? && p.Free?) &&
              table == (if r then g[p.slot := Entry(k, v, Occupied)] else g)
      ensures count == old(count) + (if r then 1 else 0)
      ensures multiset(OccupiedPairs(table)) ==
              multiset(OccupiedPairs(old(table))) + (if r then multiset{(k, v)} else multiset{})
      ensures r ==> Search(table, hash, k).Hit? && table[Search(table, hash, k).slot].value == v
      ensures !r ==> Search(table, hash, k).Hit? || count == |table|
      ensures old(Sound()) ==> Sound()
      ensures old(Sound()) ==> (r <==> k !in StoredKeys(old(table)) && old(count) < |table|)
      ensures old(Sound()) ==> StoredKeys(table) == StoredKeys(old(table)) + (if r then {k} else {})
    {
      ghost var before := table;
      GrowByProbe();
      SameKeys(before, table);
      var t := table;
      var added, u := PlaceNew(t, hash, k, v);
      assert |u| == |t| && |OccupiedPairs(u)| == count + (if added then 1 else 0);
      table, count := u, count + (if added then 1 else 0);
      r := added;
    }

    /**
     * `remove(k)`: marks the slot holding the key DELETED (true), or finds an
     * EMPTY slot or runs out first (false).  No look-up of another key
     * changes; the key itself is gone when it was stored once.
     */
    method Remove(k: int) returns (r: bool)
      requires Valid()
      modifies this
      ensures Valid() && loadFactor == old(loadFactor) && |table| == |old(table)|
      ensures r <==> Search(old(table), hash, k).Hit?
      ensures r ==> var s := Search(old(table), hash, k).slot;
                    table == old(table)[s := old(table)[s].(state := Deleted)] && count == old(count) - 1 &&
                    multiset(OccupiedPairs(table)) + multiset{(k, old(table)[s].value)} ==
                    multiset(OccupiedPairs(old(table)))
      ensures !r ==> table == old(table) && count == old(count)
      ensures forall x :: x != k ==> Search(table, hash, x) == Search(old(table), hash, x)
      ensures r && KeysDistinct(old(table)) ==> !Search(table, hash, k).Hit?
      ensures old(Sound()) ==> Sound() && StoredKeys(table) == StoredKeys(old(table)) - {k}
    {
      var t := table;
      var removed, u := Delete(t, hash, k);
      table, count := u, if removed then count - 1 else count;
      r := removed;
    }

    /** `reserve(n)`: rebuilds the table with `get_next_prime(n)` slots when the
        load factor is exceeded, and does nothing otherwise.  The rebuild
        needs room for every entry. */
    method Reserve(n: nat)
      requires Valid()
      requires Exceeds(count, |table|, loadFactor) ==> forall p :: NextPrimeOf(n, p) ==> count <= p
      modifies this
      ensures Valid() && count == old(count) && loadFactor == old(loadFactor)
      ensures Exceeds(old(count), |old(table)|, old(loadFactor)) ==>
                NextPrimeOf(n, |table|) && table == LinearRehash(old(table), hash, |table|, filler)
      ensures !Exceeds(old(count), |old(table)|, old(loadFactor)) ==> table == old(table)
      ensures multiset(OccupiedPairs(table)) == multiset(OccupiedPairs(old(table)))
    {
      if Exceeds(count, |table|, loadFactor) {
        var p := NextPrime(n);
        Rehash(p);
      }
    }

    /**
     * `load_factor(lf)`: refuses a factor that is not positive or above the
     * maximum 1, changing nothing; otherwise sets it and calls
     * `reserve(m_number_of_elements)`.
     */
    method SetLoadFactor(lf: Ratio) returns (r: Result<(), OpenError>)
      requires Valid()
      modifies this
      ensures Valid() && count == old(count)
      ensures r.Err? <==> !Acceptable(lf)
      ensures r.Err? ==> r.error == InvalidLoadFactor && table == old(table) && loadFactor == old(loadFactor)
      ensures r.Ok? ==> loadFactor == lf
      ensures r.Ok? && Exceeds(count, |old(table)|, lf) ==>
                NextPrimeOf(count, |table|) && table == LinearRehash(old(table), hash, |table|, filler)
      ensures r.Ok? && !Exceeds(count, |old(table)|, lf) ==> table == old(table)
      ensures multiset(OccupiedPairs(table)) == multiset(OccupiedPairs(old(table)))
    {
      if !Acceptable(lf) {
        return Err(InvalidLoadFactor);
      }
      loadFactor := lf;
      Reserve(count);
      r := Ok(());
    }

    /** `clear()`: every slot marked EMPTY, its key and value left in place,
        and the count reset. */
    method Clear()
      requires Valid()
      modifies this
      ensures Valid() && |table| == |old(table)| && count == 0 && loadFactor == old(loadFactor)
      ensures forall s :: 0 <= s < |table| ==> table[s] == old(table)[s].(state := EntryState.Empty)
      ensures OccupiedPairs(table) == [] && Sound()
    {
      var t := table;
      var i := 0;
      while i < |t|
        invariant i <= |t| == |table|
        invariant forall s :: 0 <= s < i ==> t[s] == table[s].(state := EntryState.Empty)
        invariant forall s :: i <= s < |t| ==> t[s] == table[s]
      {
        t := t[i := t[i].(state := EntryState.Empty)];
        i := i + 1;
      }
      EmptyPairs(t);
      table, count := t, 0;
    }

    /** `contains(k)`: whether the look-up stops at the key; when it runs out,
        the key is in no slot. */
    method Contains(k: int) returns (b: bool)
      requires Valid()
      ensures b <==> Search(table, hash, k).Hit?
      ensures b ==> (k, table[Search(table, hash, k).slot].value) in OccupiedPairs(table)
      ensures Search(table, hash, k).MissAll? ==> forall p :: p in OccupiedPairs(table) ==> p.0 != k
      ensures Sound() ==> (b <==> k in StoredKeys(table))
    {
      if Sound() {
        FindableSearch(table, hash, k);
      }
      var o := SearchLoop(table, hash, k);
      b := o.Hit?;
      if b {
        OccupiedInPairs(table, o.slot);
      } else if o.MissAll? {
        MissAllAbsent(table, hash, k);
        forall p | p in OccupiedPairs(table)
          ensures p.0 != k
        {
          var s := PairsFromSlots(table, p);
        }
      }
    }

    /** `at(k)`, and the const `operator[]` with the same body: the value where
        the look-up stops at the key, `KeyNotFound` otherwise. */
    method At(k: int) returns (r: Result<V, OpenError>)
      requires Valid()
      ensures r.Ok? <==> Search(table, hash, k).Hit?
      ensures r.Ok? ==> (k, r.value) in OccupiedPairs(table) && r.value == table[Search(table, hash, k).slot].value
      ensures r.Err? ==> r.error == KeyNotFound
      ensures Sound() ==> (r.Ok? <==> k in StoredKeys(table))
    {
      if Sound() {
        FindableSearch(table, hash, k);
      }
      var o := SearchLoop(table, hash, k);
      if o.Hit? {
        OccupiedInPairs(table, o.slot);
        r := Ok(table[o.slot].value);
      } else {
        r := Err(KeyNotFound);
      }
    }

    /** The const `at(k)`: as `at`, but failing with the chaining table's
        `HTC_KeyNotFoundException`. */
    method ConstAt(k: int) returns (r: Result<V, OpenError>)
      requires Valid()
      ensures r.Ok? <==> Search(table, hash, k).Hit?
      ensures r.Ok? ==> (k, r.value) in OccupiedPairs(table) && r.value == table[Search(table, hash, k).slot].value
      ensures r.Err? ==> r.error == ChainingKeyNotFound
    {
      var o := SearchLoop(table, hash, k);
      if o.Hit? {
        OccupiedInPairs(table, o.slot);
        r := Ok(table[o.slot].value);
      } else {
        r := Err(ChainingKeyNotFound);
      }
    }

    /**
     * `operator[](k)`: the value where the look-up stops at the key;
     * otherwise `add(k, Value())`, and then the value of the slot the look-up
     * loop had stopped at, which is not always the slot `add` wrote.
     */
    method Subscript(k: int) returns (v: V)
      requires Valid()
      modifies this
      ensures Valid() && loadFactor == old(loadFactor)
      ensures Search(old(table), hash, k).Hit? ==>
                v == old(table)[Search(old(table), hash, k).slot].value && table == old(table) && count == old(count)
      ensures !Search(old(table), hash, k).Hit? ==>
                var g := GrownTo(old(table), hash, old(count), old(loadFactor), |table|, filler);
                var p := AddProbe(g, hash, k);
                table == (if p.Free? then g[p.slot := Entry(k, blank, Occupied)] else g) &&
                |old(table)| <= |table| && v == table[StaleSlot(old(table), hash, k)].value
      ensures !Search(old(table), hash, k).Hit? ==> Search(table, hash, k).Hit? || count == |table|
    {
      var o := SearchLoop(table, hash, k);
      if o.Hit? {
        return table[o.slot].value;
      }
      var index := if o.MissAt? then o.slot else Probe(hash, k, |table| - 1, |table|);
      var added := Add(k, blank);
      v := table[index].value;
    }

    /**
     * `operator[](k)` corrected: the value where the look-up stops at the
     * key; otherwise the corrected `add(k, Value())`, and then the value a
     * look-up of the key finds, `Value()` when there is none.  What it returns
     * is always what a look-up of the key then finds, and on a sound table a
     * key not stored gets `Value()`.
     */
    method SubscriptAdded(k: int) returns (v: V)
      requires Valid()
      modifies this
      ensures Valid() && loadFactor == old(loadFactor)
      ensures Search(old(table), hash, k).Hit? ==>
                v == old(table)[Search(old(table), hash, k).slot].value && table == old(table) && count == old(count)
      ensures !Search(old(table), hash, k).Hit? ==>
                var g := ProbeGrownTo(old(table), hash, old(count), old(loadFactor), |table|, filler);
                var p := AddProbe(g, hash, k);
                var added := !Search(g, hash, k).Hit? && p.Free?;
                table == (if added then g[p.slot := Entry(k, blank, Occupied)] else g) &&
                count == old(count) + (if added then 1 else 0)
      ensures Search(table, hash, k).Hit? ==> v == table[Search(table, hash, k).slot].value
      ensures !Search(table, hash, k).Hit? ==> v == blank && count == |table|
      ensures old(Sound()) ==> Sound()
      ensures old(Sound()) && k !in StoredKeys(old(table)) ==> v == blank
    {
      var o := SearchLoop(table, hash, k);
      if o.Hit? {
        OccupiedInPairs(table, o.slot);
        return table[o.slot].value;
      }
      if Sound() {
        FindableSearch(table, hash, k);
      }
      ghost var wasSound := Sound();
      var added := AddNew(k, blank);
      if wasSound {
        FindableSearch(table, hash, k);
      }
      var p := SearchLoop(table, hash, k);
      v := if p.Hit? then table[p.slot].value else blank;
    }

    /** `begin()`: an iterator at the first OCCUPIED slot, which goes on to
        visit every pair in slot order. */
    method Begin() returns (it: OpenIterator<V>)
      requires Valid()
      ensures fresh(it) && it.Valid() && it.slots == table
      ensures it.Remaining() == OccupiedPairs(table)
    {
      var index := 0;
      assert table[0..] == table;
      if table[index].state != Occupied {
        PairsSuffix(table, 0);
        index := index + 1;
      }
      it := new OpenIterator(table, index);
    }

    /** `end()`: an iterator at index `m_table_size`. */
    method End() returns (it: OpenIterator<V>)
      ensures fresh(it) && it.Valid() && it.slots == table
      ensures it.Remaining() == []
    {
      it := new OpenIterator(table, |table|);
    }
  }

  /** `HashTable_OpenAddressing::Iterator`: a slot index into the slots of the
      table when the iterator was made. */
  class OpenIterator<V> {
    const slots: seq<Entry<V>>
    /** `m_index`. */
    var index: nat

    /** At an OCCUPIED slot, or at the end. */
    ghost predicate Valid()
      reads this
    {
      index <= |slots| && (index < |slots| ==> slots[index].state == Occupied)
    }

    /** The pairs still to visit: those of the slots from `index` on. */
    ghost function Remaining(): seq<(int, V)>
      reads this
      requires index <= |slots|
    {
      OccupiedPairs(slots[index..])
    }

    /** `Iterator(ht, index)`: steps on with `operator++` when `index` is a
        slot that is not OCCUPIED. */
    constructor (slots: seq<Entry<V>>, index: nat)
      requires index <= |slots|
      ensures Valid() && this.slots == slots && Remaining() == OccupiedPairs(slots[index..])
    {
      this.slots := slots;
      this.index := index;
      new;
      if index < |slots| && slots[index].state != Occupied {
        PairsSuffix(slots, index);
        Next();
      }
    }

    /** `operator*()`: the pair of the current slot, the first of those still
        to visit. */
    function Get(): (p: (int, V))
      reads this
      requires Valid() && index < |slots|
      ensures |Remaining()| > 0 && p == Remaining()[0]
    {
      PairsSuffix(slots, index);
      (slots[index].key, slots[index].value)
    }

    /** `operator==` and `operator!=` compare `m_index`: against `end()` an
        iterator is equal exactly when no pair is left. */
    function Equals(other: OpenIterator<V>): (b: bool)
      reads this, other
      ensures Valid() && other.slots == slots && other.index == |slots| ==> (b <==> Remaining() == [])
    {
      if index < |slots| then PairsSuffix(slots, index); index == other.index
      else index == other.index
    }

    /** `operator++()`: nothing at the end; otherwise on to the next OCCUPIED
        slot, or to the end. */
    method Next()
      requires index <= |slots|
      modifies this
      ensures Valid()
      ensures old(index) < |slots| ==> Remaining() == OccupiedPairs(slots[old(index) + 1..])
      ensures old(index) == |slots| ==> index == |slots|
    {
      if index >= |slots| {
        return;
      }
      index := index + 1;
      ghost var rest := OccupiedPairs(slots[index..]);
      while index < |slots| && slots[index].state != Occupied
        invariant index <= |slots|
        invariant OccupiedPairs(slots[index..]) == rest
        decreases |slots| - index
      {
        PairsSuffix(slots, index);
        index := index + 1;
      }
    }
  }
}
