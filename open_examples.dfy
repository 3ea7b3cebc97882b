/**
 * Small tables of include/HashTable_OpenAd/HashTable_OpenAdressing.hpp with
 * `hash` the identity, showing where its look-up, its `add` and its `rehash`
 * disagree, and when the default table first grows.
 */
module OpenExamples {
  import opened Results
  import opened HashSupport
  import opened OpenSlots
  import opened HashOpen

  /**
   * The default table has 19 slots and a load factor of 0.75: the 16th `add`,
   * made with 15 entries, is the first to find the factor exceeded, and grows
   * the table to `get_next_prime(38)`, which is 41.
   */
  lemma SixteenthAddGrows()
    ensures NextPrimeOf(19, 19)
    ensures !Exceeds(14, 19, DefaultLoadFactor) && Exceeds(15, 19, DefaultLoadFactor)
    ensures NextPrimeOf(38, 41)
  {
    NineteenIsPrime();
    NoSmallDivisor(41, 7);
    forall y | 38 <= y < 41
      ensures !IsPrime(y)
    {
      if y == 39 {
        assert 39 % 3 == 0;
      } else {
        assert y % 2 == 0;
      }
    }
  }

  /** Key 3 was removed from slot 0, which key 0 had probed past to slot 1. */
  const Tombstoned: seq<Entry<int>> := [Entry(3, 7, Deleted), Entry(0, 7, Occupied), Entry(0, 0, Empty)]

  /**
   * On those slots a look-up finds key 0 in slot 1, but `add(0, 8)` stops at
   * the DELETED slot 0 and writes there: `add` reports success and the key is
   * then stored twice.
   */
  lemma TombstoneDuplicate()
    ensures IsPrime(|Tombstoned|) && |OccupiedPairs(Tombstoned)| == 1 && KeysDistinct(Tombstoned)
    ensures !Exceeds(1, 3, DefaultLoadFactor)
    ensures Search(Tombstoned, Identity, 0) == Hit(1)
    ensures AddProbe(Tombstoned, Identity, 0) == Free(0)
    ensures !KeysDistinct(Tombstoned[0 := Entry(0, 8, Occupied)])
  {
    NoSmallDivisor(3, 2);
    var t := Tombstoned;
    assert Cells(t) == [[], [(0, 7)], []];
    assert Probe(Identity, 0, 1, 3) == 1;
    var u := t[0 := Entry(0, 8, Occupied)];
    assert u[0].key == u[1].key && u[0].state == u[1].state == Occupied;
  }

  /** A full table of three slots: key 7 has double-hashed to slot `7 % 3`. */
  const FullThree: seq<Entry<int>> := [Entry(0, 1, Occupied), Entry(7, 2, Occupied), Entry(2, 3, Occupied)]

  /** What `rehash(7)` makes of those slots: key 7 is linearly probed past
      slot `7 % 7 == 0` into slot 1. */
  const RehashedSeven: seq<Entry<int>> :=
    [Entry(0, 1, Occupied), Entry(7, 2, Occupied), Entry(2, 3, Occupied),
     Entry(0, 0, Empty), Entry(0, 0, Empty), Entry(0, 0, Empty), Entry(0, 0, Empty)]

  lemma FullThreeRehashed()
    ensures LinearRehash(FullThree, Identity, 7, 0) == RehashedSeven
  {
    var src := FullThree;
    var e := EmptySlots(7, 0);
    assert src[..0] == [];
    assert LinearRehash(src[..0], Identity, 7, 0) == e;
    assert src[..1] == src[..0] + [src[0]];
    LinearRehashStep(src[..0], src[0], Identity, 7, 0);
    var r1 := e[0 := src[0]];
    assert LinearRehash(src[..1], Identity, 7, 0) == r1;
    assert src[..2] == src[..1] + [src[1]];
    LinearRehashStep(src[..1], src[1], Identity, 7, 0);
    assert LinearFrom(r1, 7, 0) == Some(1);
    var r2 := r1[1 := src[1]];
    assert LinearRehash(src[..2], Identity, 7, 0) == r2;
    assert src == src[..2] + [src[2]];
    LinearRehashStep(src[..2], src[2], Identity, 7, 0);
    assert LinearFrom(r2, 2, 0) == Some(2);
    assert r2[2 := src[2]] == RehashedSeven;
  }

  /**
   * The fourth `add` on the full table of three slots exceeds the load factor
   * and rebuilds it with 7 slots.  Key 7 is found before the rebuild and not
   * after it: double hashing probes slots 0, 2 and then the EMPTY slot 4,
   * while linear probing has put the key in slot 1.
   */
  lemma RehashLosesKey()
    ensures IsPrime(3) && IsPrime(7) && NextPrimeOf(6, 7)
    ensures Exceeds(3, 3, DefaultLoadFactor)
    ensures Search(FullThree, Identity, 7) == Hit(1)
    ensures LinearRehash(FullThree, Identity, 7, 0) == RehashedSeven
    ensures (7, 2) in OccupiedPairs(RehashedSeven)
    ensures Search(RehashedSeven, Identity, 7) == MissAt(4)
  {
    NoSmallDivisor(3, 2);
    NoSmallDivisor(7, 3);
    assert !IsPrime(6) by {
      assert 6 % 2 == 0;
    }
    FullThreeRehashed();
    OccupiedInPairs(RehashedSeven, 1);
    assert Probe(Identity, 7, 1, 7) == 2;
    assert Probe(Identity, 7, 2, 7) == 4;
  }

  /** Key 3 was removed from slot 0; slot 1 was cleared and keeps the value 9. */
  const Cleared: seq<Entry<int>> := [Entry(3, 7, Deleted), Entry(0, 9, Empty), Entry(0, 0, Empty)]

  /**
   * `operator[](0)` on those slots: the look-up loop stops at the EMPTY slot
   * 1, `add(0, Value())` writes at the DELETED slot 0 without growing the
   * table, and the value returned is that of slot 1, 9, not the added 0.
   */
  lemma SubscriptReadsStale()
    ensures IsPrime(|Cleared|) && |OccupiedPairs(Cleared)| == 0 && !Exceeds(0, 3, DefaultLoadFactor)
    ensures Search(Cleared, Identity, 0) == MissAt(1) && StaleSlot(Cleared, Identity, 0) == 1
    ensures AddProbe(Cleared, Identity, 0) == Free(0)
    ensures Cleared[0 := Entry(0, 0, Occupied)][StaleSlot(Cleared, Identity, 0)].value == 9
  {
    NoSmallDivisor(3, 2);
    assert Cells(Cleared) == [[], [], []];
    assert Probe(Identity, 0, 1, 3) == 1;
  }

  /**
   * The corrected `add` on the same history: keys 3 and 0 in a table of
   * three slots put key 0 past slot 0, and once key 3 is removed slot 0 is
   * DELETED; adding key 0 again is refused instead of storing it twice.
   */
  method TombstoneRefused() returns (first: bool, second: bool, removed: bool, again: bool)
    ensures first && second && removed && !again
  {
    var t := new HashTableOpen<int>(3, Identity, 0, 0);
    assert StoredKeys(t.table) == {};
    first := t.AddNew(3, 7);
    second := t.AddNew(0, 7);
    FindableSearch(t.table, t.hash, 3);
    removed := t.Remove(3);
    again := t.AddNew(0, 8);
  }

  /** The double-hashing rebuild of the full table of three slots: key 7,
      lost by `rehash(7)`, is found. */
  lemma ProbeRehashFindsKey()
    ensures Search(ProbeRehash(FullThree, Identity, 7, 0), Identity, 7).Hit?
  {
    NoSmallDivisor(7, 3);
    PairsBound(FullThree);
    ProbeRehashKeeps(FullThree, Identity, 7, 0);
    var r := ProbeRehash(FullThree, Identity, 7, 0);
    OccupiedInPairs(FullThree, 1);
    assert (7, 2) in multiset(OccupiedPairs(r));
    FindableSearch(r, Identity, 7);
  }

  /**
   * The corrected `operator[]` after the history that leaves the slots
   * `Cleared`: 3 and 0 added, the table cleared, 3 added and removed.
   * Key 0 is not stored, and the value returned is the added `Value()`, 0.
   */
  method SubscriptReadsAdded() returns (v: int)
    ensures v == 0
  {
    var t := new HashTableOpen<int>(3, Identity, 0, 0);
    var added := t.AddNew(3, 7);
    added := t.AddNew(0, 9);
    t.Clear();
    assert StoredKeys(t.table) == {};
    added := t.AddNew(3, 7);
    var removed := t.Remove(3);
    v := t.SubscriptAdded(0);
  }

  /** The slots of a fresh table of three after `add(3, 7)` and
      `remove(3)`: slot 0 DELETED, slots 1 and 2 never written. */
  function Unset(filler: int): seq<Entry<int>>
  {
    [Entry(3, 7, Deleted), Entry(0, filler, Empty), Entry(0, filler, Empty)]
  }

  /** How the probes of `add`, `remove` and `operator[]` go on those slots. */
  lemma UnsetProbes(filler: int)
    ensures AddProbe(EmptySlots(3, filler), Identity, 3) == Free(0)
    ensures var a := EmptySlots(3, filler)[0 := Entry(3, 7, Occupied)];
            Search(a, Identity, 3) == Hit(0) && a[0 := a[0].(state := Deleted)] == Unset(filler)
    ensures Search(Unset(filler), Identity, 0) == MissAt(1) && StaleSlot(Unset(filler), Identity, 0) == 1
    ensures AddProbe(Unset(filler), Identity, 0) == Free(0)
  {
    var u := Unset(filler);
    assert Probe(Identity, 0, 0, 3) == 0 && u[0].state == Deleted;
    assert Probe(Identity, 0, 1, 3) == 1 && u[1].state == Empty;
    assert SearchFrom(u, Identity, 0, 1) == MissAt(1);
    assert Search(u, Identity, 0) == MissAt(1);
  }

  /**
   * `operator[]` as written reading a slot nothing was ever written to:
   * key 3 goes to slot 0 of three and is removed, so slot 0 is DELETED; the
   * look-up of key 0 passes it and stops at the EMPTY slot 1, `add` writes
   * slot 0, and the value returned is slot 1's unset content, whatever it
   * is, rather than the added `Value()`.
   */
  method SubscriptReadsUnset(filler: int) returns (v: int)
    ensures v == filler
  {
    NoSmallDivisor(3, 2);
    UnsetProbes(filler);
    var t := new HashTableOpen<int>(3, Identity, 0, filler);
    assert t.table == EmptySlots(3, filler);
    assert OccupiedPairs(t.table) == [];
    var added := t.Add(3, 7);
    assert t.table == EmptySlots(3, filler)[0 := Entry(3, 7, Occupied)];
    var removed := t.Remove(3);
    assert t.table == Unset(filler);
    v := t.Subscript(0);
  }
}
