/**
 * Linear probing: open addressing with a sequential wrap-around probe and
 * tombstones for deletion.
 *
 * The pure part states each operation on an abstract `Table` value:
 * `InsertSpec`, `LookupSpec` and `DeleteSpec`. The class
 * `LinearProbingMap` runs the loops of the source over an array and is
 * proved to agree with them; the lemmas state what the operations promise.
 */
module LinearProbing {
  import opened Common
  import opened Counting

  datatype Slot = Empty | Occupied(key: int, value: int) | Tombstone

  predicate IsOccupied(e: Slot) { e.Occupied? }
  predicate IsTombstone(e: Slot) { e.Tombstone? }

  /** The slots and the two counters of a table. */
  datatype Table = Table(slots: seq<Slot>, size: int, tombstones: int)

  /** `size` counts the Occupied slots and `tombstones` the Tombstone slots. */
  predicate WellFormed(t: Table)
  {
    |t.slots| == CAPACITY &&
    t.size == Count(t.slots, IsOccupied) &&
    t.tombstones == Count(t.slots, IsTombstone)
  }

  /** The state built by the constructor. */
  function EmptyTable(): Table
  {
    Table(seq(CAPACITY, _ => Empty), 0, 0)
  }

  // ---------------------------------------------------------------------
  // Probe rules

  /** Insert stops at a free slot (Empty or Tombstone) or at the key's own slot. */
  predicate InsertStops(e: Slot, key: int)
  {
    !e.Occupied? || e.key == key
  }

  /** Lookup and delete stop at an Empty slot or at the key's own slot; tombstones are skipped. */
  predicate SearchStops(e: Slot, key: int)
  {
    e.Empty? || (e.Occupied? && e.key == key)
  }

  /** The first offset at or after `j` where insert stops, or CAPACITY after a full wrap. */
  function InsertOffset(s: seq<Slot>, home: nat, key: int, j: nat): (k: nat)
    requires |s| == CAPACITY && j <= CAPACITY
    decreases CAPACITY - j
    ensures j <= k <= CAPACITY
    ensures forall i :: j <= i < k ==> !InsertStops(s[ProbeSlot(home, i)], key)
    ensures k < CAPACITY ==> InsertStops(s[ProbeSlot(home, k)], key)
  {
    if j == CAPACITY then CAPACITY
    else if InsertStops(s[ProbeSlot(home, j)], key) then j
    else InsertOffset(s, home, key, j + 1)
  }

  /** The first offset at or after `j` where lookup and delete stop, or CAPACITY. */
  function SearchOffset(s: seq<Slot>, home: nat, key: int, j: nat): (k: nat)
    requires |s| == CAPACITY && j <= CAPACITY
    decreases CAPACITY - j
    ensures j <= k <= CAPACITY
    ensures forall i :: j <= i < k ==> !SearchStops(s[ProbeSlot(home, i)], key)
    ensures k < CAPACITY ==> SearchStops(s[ProbeSlot(home, k)], key)
  {
    if j == CAPACITY then CAPACITY
    else if SearchStops(s[ProbeSlot(home, j)], key) then j
    else SearchOffset(s, home, key, j + 1)
  }

  /** The search stops at offset `j` when the slot there stops it. */
  lemma SearchHere(s: seq<Slot>, home: nat, key: int, j: nat, k: nat)
    requires |s| == CAPACITY && j < CAPACITY && SearchOffset(s, home, key, j) == k
    requires SearchStops(s[ProbeSlot(home, j)], key)
    ensures k == j
  {
  }

  /** One step of the search past a slot that does not stop it. */
  lemma SearchAdvance(s: seq<Slot>, home: nat, key: int, j: nat, index: nat, k: nat)
    requires |s| == CAPACITY && home < CAPACITY && j < CAPACITY && index == ProbeSlot(home, j)
    requires SearchOffset(s, home, key, j) == k && !SearchStops(s[index], key)
    ensures NextIndex(index) == ProbeSlot(home, j + 1)
    ensures NextIndex(index) == home <==> j + 1 == CAPACITY
    ensures SearchOffset(s, home, key, j + 1) == k
  {
    AdvanceProbe(home, j, index);
  }

  // ---------------------------------------------------------------------
  // The operations on table values

  function InsertSpec(t: Table, key: int, value: int): (r: (Table, OpResult))
    requires |t.slots| == CAPACITY
    ensures |r.0.slots| == CAPACITY
    ensures 1 <= r.1.probeCount <= CAPACITY && r.1.displacement == 0
  {
    var home := GetIndex(key);
    var k := InsertOffset(t.slots, home, key, 0);
    if k == CAPACITY then
      (t, OpResult(false, CAPACITY, 0))
    else
      var p := ProbeSlot(home, k);
      var e := t.slots[p];
      var size := if e.Occupied? then t.size else t.size + 1;
      var tombstones := if e.Tombstone? then t.tombstones - 1 else t.tombstones;
      (Table(t.slots[p := Occupied(key, value)], size, tombstones), OpResult(true, k + 1, 0))
  }

  function LookupSpec(t: Table, key: int): (r: (OpResult, Option<int>))
    requires |t.slots| == CAPACITY
    ensures 1 <= r.0.probeCount <= CAPACITY && r.0.displacement == 0
    ensures r.0.success <==> r.1.Some?
    ensures r.1.Some? ==> exists i :: 0 <= i < CAPACITY && t.slots[i] == Occupied(key, r.1.value)
  {
    var home := GetIndex(key);
    var k := SearchOffset(t.slots, home, key, 0);
    if k == CAPACITY then
      (OpResult(false, CAPACITY, 0), None)
    else
      var e := t.slots[ProbeSlot(home, k)];
      if e.Occupied? then (OpResult(true, k + 1, 0), Some(e.value))
      else (OpResult(false, k + 1, 0), None)
  }

  /** Lookup's report at each way its search can stop. */
  lemma LookupSpecAt(t: Table, key: int, k: nat)
    requires |t.slots| == CAPACITY && k == SearchOffset(t.slots, GetIndex(key), key, 0)
    ensures k == CAPACITY ==> LookupSpec(t, key) == (OpResult(false, CAPACITY, 0), None)
    ensures k < CAPACITY ==>
              var e := t.slots[ProbeSlot(GetIndex(key), k)];
              LookupSpec(t, key) ==
                if e.Occupied? then (OpResult(true, k + 1, 0), Some(e.value)) else (OpResult(false, k + 1, 0), None)
  {
  }

  function DeleteSpec(t: Table, key: int): (r: (Table, OpResult))
    requires |t.slots| == CAPACITY
    ensures |r.0.slots| == CAPACITY
    ensures 1 <= r.1.probeCount <= CAPACITY && r.1.displacement == 0
    ensures r.1.success == LookupSpec(t, key).0.success
  {
    var home := GetIndex(key);
    var k := SearchOffset(t.slots, home, key, 0);
    if k == CAPACITY then
      (t, OpResult(false, CAPACITY, 0))
    else
      var p := ProbeSlot(home, k);
      if t.slots[p].Occupied? then
        (Table(t.slots[p := Tombstone], t.size - 1, t.tombstones + 1), OpResult(true, k + 1, 0))
      else
        (t, OpResult(false, k + 1, 0))
  }

  // ---------------------------------------------------------------------
  // Counters

  lemma EmptyTableWellFormed()
    ensures WellFormed(EmptyTable())
  {
    var s := EmptyTable().slots;
    CountNone(s, IsOccupied);
    CountNone(s, IsTombstone);
  }

  /** The counters never exceed the capacity between them. */
  lemma CountersBounded(t: Table)
    requires WellFormed(t)
    ensures 0 <= t.size && 0 <= t.tombstones && t.size + t.tombstones <= CAPACITY
  {
    CountDisjoint(t.slots, IsOccupied, IsTombstone);
  }

  lemma InsertKeepsWellFormed(t: Table, key: int, value: int)
    requires WellFormed(t)
    ensures WellFormed(InsertSpec(t, key, value).0)
  {
    var home := GetIndex(key);
    var k := InsertOffset(t.slots, home, key, 0);
    if k < CAPACITY {
      var p := ProbeSlot(home, k);
      CountUpdate(t.slots, p, Occupied(key, value), IsOccupied);
      CountUpdate(t.slots, p, Occupied(key, value), IsTombstone);
    }
  }

  lemma DeleteKeepsWellFormed(t: Table, key: int)
    requires WellFormed(t)
    ensures WellFormed(DeleteSpec(t, key).0)
  {
    var home := GetIndex(key);
    var k := SearchOffset(t.slots, home, key, 0);
    if k < CAPACITY {
      var p := ProbeSlot(home, k);
      CountUpdate(t.slots, p, Tombstone, IsOccupied);
      CountUpdate(t.slots, p, Tombstone, IsTombstone);
    }
  }

  // ---------------------------------------------------------------------
  // What insert, lookup and delete promise

  /**
   * Insert succeeds exactly when some slot is free or already holds the key;
   * otherwise every slot is Occupied by another key and nothing changes.
   */
  lemma InsertSucceedsIff(t: Table, key: int, value: int)
    requires |t.slots| == CAPACITY
    ensures InsertSpec(t, key, value).1.success <==>
            exists i :: 0 <= i < CAPACITY && InsertStops(t.slots[i], key)
    ensures !InsertSpec(t, key, value).1.success ==>
            InsertSpec(t, key, value) == (t, OpResult(false, CAPACITY, 0))
  {
    var home := GetIndex(key);
    var k := InsertOffset(t.slots, home, key, 0);
    if exists i :: 0 <= i < CAPACITY && InsertStops(t.slots[i], key) {
      var i :| 0 <= i < CAPACITY && InsertStops(t.slots[i], key);
      var d := Distance(home, i);
      assert k <= d;
    }
  }

  /** Offsets before the insert position are other keys' Occupied slots, which the write leaves alone. */
  lemma InsertPrefixUnchanged(t: Table, key: int, value: int, i: nat)
    requires |t.slots| == CAPACITY
    requires i < InsertOffset(t.slots, GetIndex(key), key, 0) < CAPACITY
    ensures InsertSpec(t, key, value).0.slots[ProbeSlot(GetIndex(key), i)] ==
            t.slots[ProbeSlot(GetIndex(key), i)]
    ensures t.slots[ProbeSlot(GetIndex(key), i)].Occupied?
    ensures t.slots[ProbeSlot(GetIndex(key), i)].key != key
  {
    ProbeSlotInjective(GetIndex(key), i, InsertOffset(t.slots, GetIndex(key), key, 0));
  }

  /** Round trip: after a successful insert, lookup finds the value with the same probe count. */
  lemma InsertThenLookup(t: Table, key: int, value: int)
    requires |t.slots| == CAPACITY
    requires InsertSpec(t, key, value).1.success
    ensures LookupSpec(InsertSpec(t, key, value).0, key) ==
            (OpResult(true, InsertSpec(t, key, value).1.probeCount, 0), Some(value))
  {
    var home := GetIndex(key);
    var k := InsertOffset(t.slots, home, key, 0);
    var p := ProbeSlot(home, k);
    var s' := InsertSpec(t, key, value).0.slots;
    assert s'[p] == Occupied(key, value);
    var m := SearchOffset(s', home, key, 0);
    assert m <= k;
    if m < k {
      InsertPrefixUnchanged(t, key, value, m);
      assert false;
    }
    assert LookupSpec(InsertSpec(t, key, value).0, key) == (OpResult(true, k + 1, 0), Some(value));
  }

  /** Updating a key that was just inserted keeps `size` and makes lookup see the new value. */
  lemma InsertTwice(t: Table, key: int, v1: int, v2: int)
    requires WellFormed(t)
    requires InsertSpec(t, key, v1).1.success
    ensures var t1 := InsertSpec(t, key, v1).0;
            var (t2, r2) := InsertSpec(t1, key, v2);
            && r2.success
            && t2.size == t1.size
            && LookupSpec(t2, key).1 == Some(v2)
  {
    var home := GetIndex(key);
    var k := InsertOffset(t.slots, home, key, 0);
    var t1 := InsertSpec(t, key, v1).0;
    var k1 := InsertOffset(t1.slots, home, key, 0);
    if k1 < k {
      InsertPrefixUnchanged(t, key, v1, k1);
    }
    assert k1 == k;
    InsertThenLookup(t1, key, v2);
  }

  /** At most one Occupied slot holds any given key. */
  predicate UniqueKeys(s: seq<Slot>)
  {
    forall i, j :: 0 <= i < |s| && 0 <= j < |s| && s[i].Occupied? && s[j].Occupied? &&
      s[i].key == s[j].key
      ==> i == j
  }

  /**
   * Delete marks exactly the slot lookup would have returned; when no other
   * slot holds the key, a lookup afterwards does not find it.
   */
  lemma DeleteThenLookup(t: Table, key: int)
    requires |t.slots| == CAPACITY
    requires UniqueKeys(t.slots)
    requires DeleteSpec(t, key).1.success
    ensures DeleteSpec(t, key).0.size == t.size - 1
    ensures LookupSpec(DeleteSpec(t, key).0, key).1 == None
  {
    var home := GetIndex(key);
    var p := ProbeSlot(home, SearchOffset(t.slots, home, key, 0));
    var t' := DeleteSpec(t, key).0;
    var r := LookupSpec(t', key);
    if r.1.Some? {
      assert false;
    }
  }

  // ---------------------------------------------------------------------
  // Lookup completeness

  /** No Empty slot lies on the probe path from `home` before offset `d`. */
  predicate PathClear(s: seq<Slot>, home: nat, d: nat)
    requires |s| == CAPACITY
  {
    forall j :: 0 <= j < d ==> !s[ProbeSlot(home, j)].Empty?
  }

  /** Every Occupied slot is reachable from its key's home without crossing an Empty slot. */
  predicate NoGaps(s: seq<Slot>)
    requires |s| == CAPACITY
  {
    forall i :: 0 <= i < CAPACITY && s[i].Occupied? ==>
      PathClear(s, GetIndex(s[i].key), Distance(GetIndex(s[i].key), i))
  }

  lemma EmptyTableNoGaps()
    ensures NoGaps(EmptyTable().slots)
  {
  }

  /** Insert writes only at the first free offset, so it keeps every probe path unbroken. */
  lemma InsertKeepsNoGaps(t: Table, key: int, value: int)
    requires |t.slots| == CAPACITY && NoGaps(t.slots)
    ensures NoGaps(InsertSpec(t, key, value).0.slots)
  {
    var home := GetIndex(key);
    var k := InsertOffset(t.slots, home, key, 0);
    if k < CAPACITY {
      var p := ProbeSlot(home, k);
      var s' := InsertSpec(t, key, value).0.slots;
      forall i | 0 <= i < CAPACITY && s'[i].Occupied?
        ensures PathClear(s', GetIndex(s'[i].key), Distance(GetIndex(s'[i].key), i))
      {
        var h := GetIndex(s'[i].key);
        forall j | 0 <= j < Distance(h, i) ensures !s'[ProbeSlot(h, j)].Empty? {
          if i == p {
            assert Distance(home, p) == k by {
              if Distance(home, p) != k {
                ProbeSlotInjective(home, Distance(home, p), k);
              }
            }
            InsertPrefixUnchanged(t, key, value, j);
          } else {
            assert t.slots[i].Occupied? && t.slots[i].key == s'[i].key;
            assert !t.slots[ProbeSlot(h, j)].Empty?;
          }
        }
      }
    }
  }

  /** Turning an Occupied slot into a Tombstone creates no Empty slot. */
  lemma DeleteKeepsNoGaps(t: Table, key: int)
    requires |t.slots| == CAPACITY && NoGaps(t.slots)
    ensures NoGaps(DeleteSpec(t, key).0.slots)
  {
    var s' := DeleteSpec(t, key).0.slots;
    forall i | 0 <= i < CAPACITY && s'[i].Occupied?
      ensures PathClear(s', GetIndex(s'[i].key), Distance(GetIndex(s'[i].key), i))
    {
      assert t.slots[i] == s'[i];
      var h := GetIndex(s'[i].key);
      assert PathClear(t.slots, h, Distance(h, i));
    }
  }

  /** With unbroken probe paths, lookup finds every key that some slot holds. */
  lemma LookupFindsPresentKey(t: Table, key: int, i: nat)
    requires |t.slots| == CAPACITY && NoGaps(t.slots)
    requires i < CAPACITY && t.slots[i].Occupied? && t.slots[i].key == key
    ensures LookupSpec(t, key).1.Some?
  {
    var home := GetIndex(key);
    var d := Distance(home, i);
    var k := SearchOffset(t.slots, home, key, 0);
    assert k <= d;
    assert PathClear(t.slots, home, d);
    if k < d {
      assert !t.slots[ProbeSlot(home, k)].Empty?;
    }
  }

  // ---------------------------------------------------------------------
  // Finding: insert can create a second slot for a key it already holds

  /**
   * As written: with two keys `a != key` sharing a home slot, the sequence
   * insert a, insert key, delete a, insert key, delete key leaves `key`
   * findable, with its first value. The second insert of `key` reuses the
   * tombstone at the home slot without noticing `key` one slot further on.
   */
  lemma DeleteLeavesStaleDuplicate(a: int, key: int)
    requires a != key && GetIndex(a) == GetIndex(key)
    ensures var t1 := InsertSpec(EmptyTable(), a, 0).0;
            var t2 := InsertSpec(t1, key, 1).0;
            var t3 := DeleteSpec(t2, a).0;
            var t4 := InsertSpec(t3, key, 2).0;
            var (t5, r5) := DeleteSpec(t4, key);
            && !UniqueKeys(t4.slots)
            && r5.success
            && LookupSpec(t5, key).1 == Some(1)
  {
    var h := GetIndex(key);
    var h1 := ProbeSlot(h, 1);
    ProbeSlotInjective(h, 0, 1);
    ProbeSlotStart(h);
    var s0 := EmptyTable().slots;
    var t1 := InsertSpec(EmptyTable(), a, 0).0;
    assert InsertOffset(s0, h, a, 0) == 0;
    assert t1.slots == s0[h := Occupied(a, 0)];
    var t2 := InsertSpec(t1, key, 1).0;
    assert InsertOffset(t1.slots, h, key, 0) == 1;
    assert t2.slots == s0[h := Occupied(a, 0)][h1 := Occupied(key, 1)];
    var t3 := DeleteSpec(t2, a).0;
    assert SearchOffset(t2.slots, h, a, 0) == 0;
    assert t3.slots == s0[h := Tombstone][h1 := Occupied(key, 1)];
    var t4 := InsertSpec(t3, key, 2).0;
    assert InsertOffset(t3.slots, h, key, 0) == 0;
    assert t4.slots == s0[h := Occupied(key, 2)][h1 := Occupied(key, 1)];
    var t5 := DeleteSpec(t4, key).0;
    assert SearchOffset(t4.slots, h, key, 0) == 0;
    assert t5.slots == s0[h := Tombstone][h1 := Occupied(key, 1)];
    assert SearchOffset(t5.slots, h, key, 0) == 1;
  }

  /** The pair of keys the finding needs exists for every key. */
  lemma StaleDuplicateExists(key: int)
    ensures var a := key + TWO_64;
            var t4 := InsertSpec(DeleteSpec(InsertSpec(InsertSpec(EmptyTable(), a, 0).0, key, 1).0, a).0, key, 2).0;
            && !UniqueKeys(t4.slots)
            && LookupSpec(DeleteSpec(t4, key).0, key).1 == Some(1)
  {
    ShiftedKeyCollides(key);
    DeleteLeavesStaleDuplicate(key + TWO_64, key);
  }

  /**
   * Corrected insert: look for the key first (over tombstones, up to an
   * Empty slot or a full wrap), and only when it is absent take the first
   * free slot of the probe path.
   */
  function FreeOffset(s: seq<Slot>, home: nat, j: nat): (k: nat)
    requires |s| == CAPACITY && j <= CAPACITY
    decreases CAPACITY - j
    ensures j <= k <= CAPACITY
    ensures forall i :: j <= i < k ==> s[ProbeSlot(home, i)].Occupied?
    ensures k < CAPACITY ==> !s[ProbeSlot(home, k)].Occupied?
  {
    if j == CAPACITY then CAPACITY
    else if !s[ProbeSlot(home, j)].Occupied? then j
    else FreeOffset(s, home, j + 1)
  }

  function CorrectedInsertSpec(t: Table, key: int, value: int): (r: (Table, OpResult))
    requires |t.slots| == CAPACITY
    ensures |r.0.slots| == CAPACITY
    ensures 1 <= r.1.probeCount <= CAPACITY && r.1.displacement == 0
  {
    var home := GetIndex(key);
    var k := SearchOffset(t.slots, home, key, 0);
    var probes := if k < CAPACITY then k + 1 else CAPACITY;
    if k < CAPACITY && t.slots[ProbeSlot(home, k)].Occupied? then
      var p := ProbeSlot(home, k);
      (Table(t.slots[p := Occupied(key, value)], t.size, t.tombstones), OpResult(true, probes, 0))
    else
      var f := FreeOffset(t.slots, home, 0);
      if f == CAPACITY then
        (t, OpResult(false, probes, 0))
      else
        var p := ProbeSlot(home, f);
        var tombstones := if t.slots[p].Tombstone? then t.tombstones - 1 else t.tombstones;
        (Table(t.slots[p := Occupied(key, value)], t.size + 1, tombstones), OpResult(true, probes, 0))
  }

  /** Under unbroken probe paths, a search that misses means the key is nowhere in the table. */
  lemma SearchMissMeansAbsent(s: seq<Slot>, key: int)
    requires |s| == CAPACITY && NoGaps(s)
    requires var k := SearchOffset(s, GetIndex(key), key, 0);
             k == CAPACITY || !s[ProbeSlot(GetIndex(key), k)].Occupied?
    ensures forall i :: 0 <= i < CAPACITY && s[i].Occupied? ==> s[i].key != key
  {
    forall i | 0 <= i < CAPACITY && s[i].Occupied? ensures s[i].key != key {
      if s[i].key == key {
        var tbl := Table(s, 0, 0);
        LookupFindsPresentKey(tbl, key, i);
      }
    }
  }

  /** Giving an Occupied slot a new value changes no key and no slot's state. */
  lemma OverwriteKeepsPaths(s: seq<Slot>, p: nat, value: int)
    requires |s| == CAPACITY && p < CAPACITY && s[p].Occupied?
    requires NoGaps(s) && UniqueKeys(s)
    ensures var s' := s[p := Occupied(s[p].key, value)];
            UniqueKeys(s') && NoGaps(s')
  {
    var s' := s[p := Occupied(s[p].key, value)];
    assert forall i :: 0 <= i < CAPACITY ==> s'[i].Occupied? == s[i].Occupied?;
    forall i | 0 <= i < CAPACITY && s'[i].Occupied? ensures s'[i].key == s[i].key { }
    forall i | 0 <= i < CAPACITY && s'[i].Occupied?
      ensures PathClear(s', GetIndex(s'[i].key), Distance(GetIndex(s'[i].key), i))
    {
      var h := GetIndex(s'[i].key);
      assert PathClear(s, h, Distance(h, i));
    }
  }

  /** For a key no slot holds, insert stops exactly at the first free slot. */
  lemma InsertOffsetIsFreeOffset(s: seq<Slot>, home: nat, key: int)
    requires |s| == CAPACITY
    requires forall i :: 0 <= i < CAPACITY && s[i].Occupied? ==> s[i].key != key
    ensures InsertOffset(s, home, key, 0) == FreeOffset(s, home, 0)
  {
    var k, f := InsertOffset(s, home, key, 0), FreeOffset(s, home, 0);
    assert f < CAPACITY ==> InsertStops(s[ProbeSlot(home, f)], key);
    assert k < CAPACITY ==> !s[ProbeSlot(home, k)].Occupied?;
  }

  /** The corrected insert never gives a key a second slot, and keeps probe paths unbroken. */
  lemma CorrectedInsertKeepsUniqueKeys(t: Table, key: int, value: int)
    requires |t.slots| == CAPACITY && NoGaps(t.slots) && UniqueKeys(t.slots)
    ensures UniqueKeys(CorrectedInsertSpec(t, key, value).0.slots)
    ensures NoGaps(CorrectedInsertSpec(t, key, value).0.slots)
  {
    var home := GetIndex(key);
    var k := SearchOffset(t.slots, home, key, 0);
    var s' := CorrectedInsertSpec(t, key, value).0.slots;
    if k < CAPACITY && t.slots[ProbeSlot(home, k)].Occupied? {
      var p := ProbeSlot(home, k);
      assert s' == t.slots[p := Occupied(t.slots[p].key, value)];
      OverwriteKeepsPaths(t.slots, p, value);
    } else {
      SearchMissMeansAbsent(t.slots, key);
      var f := FreeOffset(t.slots, home, 0);
      if f < CAPACITY {
        var p := ProbeSlot(home, f);
        var ins := Table(t.slots, t.size, t.tombstones);
        InsertOffsetIsFreeOffset(t.slots, home, key);
        assert s' == InsertSpec(ins, key, value).0.slots;
        InsertKeepsNoGaps(ins, key, value);
      }
    }
  }

  /** With the corrected insert, a found key really is gone after delete. */
  lemma CorrectedDeleteThenLookup(t: Table, key: int, value: int, other: int)
    requires |t.slots| == CAPACITY && NoGaps(t.slots) && UniqueKeys(t.slots)
    requires var t1 := CorrectedInsertSpec(t, other, value).0;
             DeleteSpec(t1, key).1.success
    ensures var t1 := CorrectedInsertSpec(t, other, value).0;
            LookupSpec(DeleteSpec(t1, key).0, key).1 == None
  {
    CorrectedInsertKeepsUniqueKeys(t, other, value);
    DeleteThenLookup(CorrectedInsertSpec(t, other, value).0, key);
  }

  // ---------------------------------------------------------------------
  // The table as the source keeps it: an array of slots and two counters

  class LinearProbingMap {
    const table: array<Slot>
    var size: int
    var tombstones: int

    ghost function Model(): Table
      reads this, table
    {
      Table(table[..], size, tombstones)
    }

    ghost predicate Valid()
      reads this, table
    {
      WellFormed(Model())
    }

    constructor ()
      ensures Valid() && fresh(table)
      ensures Model() == EmptyTable()
    {
      table := new Slot[CAPACITY](_ => Empty);
      size := 0;
      tombstones := 0;
      new;
      assert table[..] == EmptyTable().slots;
      EmptyTableWellFormed();
    }

    method Insert(key: int, value: int) returns (r: OpResult)
      requires Valid()
      modifies this, table
      ensures Valid()
      ensures (Model(), r) == InsertSpec(old(Model()), key, value)
    {
      ghost var t := Model();
      r := NO_RESULT;
      var index := GetIndex(key);
      var originalIndex := index;
      ghost var k := InsertOffset(t.slots, originalIndex, key, 0);
      ghost var spec := InsertSpec(t, key, value);
      ProbeSlotStart(originalIndex);
      while true
        invariant Model() == t
        invariant r.probeCount < CAPACITY && r == OpResult(false, r.probeCount, 0)
        invariant index == ProbeSlot(originalIndex, r.probeCount)
        invariant InsertOffset(t.slots, originalIndex, key, r.probeCount) == k
        decreases CAPACITY - r.probeCount
      {
        ghost var j := r.probeCount;
        r := r.(probeCount := r.probeCount + 1);
        var entry := table[index];
        assert entry == t.slots[ProbeSlot(originalIndex, j)];
        if entry.Empty? || entry.Tombstone? {
          assert k == j;
          if entry.Tombstone? {
            tombstones := tombstones - 1;
          }
          table[index] := Occupied(key, value);
          size := size + 1;
          r := r.(success := true);
          assert table[..] == t.slots[index := Occupied(key, value)];
          assert spec == (Model(), r);
          break;
        } else if entry.key == key {
          assert k == j;
          table[index] := entry.(value := value);
          r := r.(success := true);
          assert table[..] == t.slots[index := Occupied(key, value)];
          assert spec == (Model(), r);
          break;
        }
        NextProbeSlot(originalIndex, j);
        index := NextIndex(index);
        ProbeSlotWraps(originalIndex, r.probeCount);
        if index == originalIndex {
          assert k == CAPACITY && spec == (t, r);
          break;
        }
      }
      InsertKeepsWellFormed(t, key, value);
    }

    method Lookup(key: int) returns (r: OpResult, v: Option<int>)
      requires table.Length == CAPACITY
      ensures (r, v) == LookupSpec(Model(), key)
    {
      ghost var s := table[..];
      r := NO_RESULT;
      var index := GetIndex(key);
      var originalIndex := index;
      ghost var k := SearchOffset(s, originalIndex, key, 0);
      LookupSpecAt(Model(), key, k);
      ProbeSlotStart(originalIndex);
      while true
        invariant r.probeCount < CAPACITY && r == OpResult(false, r.probeCount, 0)
        invariant index == ProbeSlot(originalIndex, r.probeCount)
        invariant SearchOffset(s, originalIndex, key, r.probeCount) == k
        decreases CAPACITY - r.probeCount
      {
        ghost var j := r.probeCount;
        r := r.(probeCount := r.probeCount + 1);
        var entry := table[index];
        assert entry == s[ProbeSlot(originalIndex, j)];
        if entry.Empty? {
          SearchHere(s, originalIndex, key, j, k);
          return r, None;
        } else if entry.Occupied? && entry.key == key {
          SearchHere(s, originalIndex, key, j, k);
          r := r.(success := true);
          return r, Some(entry.value);
        }
        SearchAdvance(s, originalIndex, key, j, index, k);
        index := NextIndex(index);
        if index == originalIndex {
          return r, None;
        }
      }
    }

    method Delete(key: int) returns (r: OpResult)
      requires Valid()
      modifies this, table
      ensures Valid()
      ensures (Model(), r) == DeleteSpec(old(Model()), key)
    {
      ghost var t := Model();
      r := NO_RESULT;
      var index := GetIndex(key);
      var originalIndex := index;
      ghost var k := SearchOffset(t.slots, originalIndex, key, 0);
      ghost var spec := DeleteSpec(t, key);
      ProbeSlotStart(originalIndex);
      while true
        invariant Model() == t
        invariant r.probeCount < CAPACITY && r == OpResult(false, r.probeCount, 0)
        invariant index == ProbeSlot(originalIndex, r.probeCount)
        invariant SearchOffset(t.slots, originalIndex, key, r.probeCount) == k
        decreases CAPACITY - r.probeCount
      {
        ghost var j := r.probeCount;
        r := r.(probeCount := r.probeCount + 1);
        var entry := table[index];
        assert entry == t.slots[ProbeSlot(originalIndex, j)];
        if entry.Empty? {
          assert k == j && spec == (t, r);
          break;
        } else if entry.Occupied? && entry.key == key {
          assert k == j;
          table[index] := Tombstone;
          size := size - 1;
          tombstones := tombstones + 1;
          r := r.(success := true);
          assert table[..] == t.slots[index := Tombstone];
          assert spec == (Model(), r);
          break;
        }
        NextProbeSlot(originalIndex, j);
        index := NextIndex(index);
        ProbeSlotWraps(originalIndex, r.probeCount);
        if index == originalIndex {
          assert k == CAPACITY && spec == (t, r);
          break;
        }
      }
      DeleteKeepsWellFormed(t, key);
    }

    /** `size / capacity`, as an exact ratio. */
    function LoadFactor(): (f: real)
      reads this, table
      requires Valid()
      ensures 0.0 <= f <= 1.0
      ensures f * CAPACITY as real == Count(table[..], IsOccupied) as real
    {
      CountersBounded(Model());
      size as real / CAPACITY as real
    }

    function TombstoneCount(): (n: int)
      reads this, table
      requires Valid()
      ensures n == Count(table[..], IsTombstone)
      ensures 0 <= n <= CAPACITY - Count(table[..], IsOccupied)
    {
      CountersBounded(Model());
      tombstones
    }
  }
}
