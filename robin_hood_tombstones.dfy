/**
 * Two consequences of how Robin Hood's insert, lookup and delete treat
 * tombstones, each shown on a concrete sequence of operations, and a
 * corrected search that the rest of this module proves complete.
 *
 * As written, the search of lookup and delete gives up at a resident whose
 * dib is smaller than the search offset. That early exit is sound only
 * while dibs rise along every run of Occupied slots, and a tombstone
 * refilled by an insert breaks this. Separately, insert takes the first
 * free slot on its path without first looking for its key further on.
 */
module RobinHoodTombstones {
  import opened Common
  import opened Counting
  import opened RobinHood

  // ---------------------------------------------------------------------
  // As written

  /**
   * An insert whose key claims no slot before offset `k` and finds slot `k`
   * free simply places the key there with dib `k`.
   */
  lemma InsertSpecPlaces(t: Table, key: int, value: int, k: nat)
    requires |t.slots| == CAPACITY && k < CAPACITY
    requires forall i :: 0 <= i < k ==> !Claims(t.slots[ProbeSlot(GetIndex(key), i)], key, i)
    requires !t.slots[ProbeSlot(GetIndex(key), k)].Occupied?
    ensures HasFree(t.slots)
    ensures var p := ProbeSlot(GetIndex(key), k);
            InsertSpec(t, key, value).0 ==
              Table(t.slots[p := Occupied(key, value, k)], t.size + 1,
                    t.tombstones - (if t.slots[p].Tombstone? then 1 else 0))
  {
    var s := t.slots;
    var home := GetIndex(key);
    assert !s[ProbeSlot(home, k)].Occupied?;
    HasFreeAhead(s, home);
    InsertLoopSkip(s, home, key, value, 0);
    assert ClaimOffset(s, home, key, 0) == k;
    InsertLoopPlaces(s, home, k, Carry(key, value, k));
  }

  /**
   * As written: with two keys `a != key` that share a home slot, the
   * sequence insert a, insert key, delete a, insert key, delete key leaves
   * `key` findable, with its first value. The second insert of `key` takes
   * the tombstone at the home slot without noticing `key` one slot further on.
   */
  lemma DeleteLeavesStaleDuplicate(a: int, key: int)
    requires a != key && GetIndex(a) == GetIndex(key)
    ensures HasFree(EmptyTable().slots)
    ensures var t1 := InsertSpec(EmptyTable(), a, 0).0;
            HasFree(t1.slots) &&
            var t2 := InsertSpec(t1, key, 1).0;
            var t3 := DeleteSpec(t2, a).0;
            HasFree(t3.slots) &&
            var t4 := InsertSpec(t3, key, 2).0;
            var (t5, r5) := DeleteSpec(t4, key);
            && !UniqueKeys(t4.slots)
            && r5.success
            && LookupSpec(t5, key).1 == Some(1)
  {
    var h := GetIndex(key);
    var h1 := ProbeSlot(h, 1);
    ProbeSlotStart(h);
    ProbeSlotInjective(h, 0, 1);
    var s0 := EmptyTable().slots;
    InsertSpecPlaces(EmptyTable(), a, 0, 0);
    var s1 := s0[h := Occupied(a, 0, 0)];
    var t1 := Table(s1, 1, 0);
    InsertSpecPlaces(t1, key, 1, 1);
    var s2 := s1[h1 := Occupied(key, 1, 1)];
    var t2 := Table(s2, 2, 0);
    SearchOffsetIs(s2, h, a, 0);
    DeleteSpecHit(t2, a, 0);
    var s3 := s2[h := Tombstone];
    var t3 := Table(s3, 1, 1);
    InsertSpecPlaces(t3, key, 2, 0);
    var s4 := s3[h := Occupied(key, 2, 0)];
    var t4 := Table(s4, 2, 0);
    assert s4[h].key == s4[h1].key;
    SearchOffsetIs(s4, h, key, 0);
    DeleteSpecHit(t4, key, 0);
    var s5 := s4[h := Tombstone];
    var t5 := Table(s5, 1, 1);
    SearchOffsetIs(s5, h, key, 1);
    LookupSpecAt(t5, key, 1);
  }

  /** The slots after inserting `a`, `b`, `k`, which share a home slot, into an empty table. */
  function ThreeAtHome(a: int, b: int, k: int): seq<Slot>
  {
    var h := GetIndex(a);
    EmptyTable().slots[h := Occupied(a, 0, 0)][ProbeSlot(h, 1) := Occupied(b, 1, 1)]
                      [ProbeSlot(h, 2) := Occupied(k, 2, 2)]
  }

  /** The same slots after deleting `b` and inserting `m`, whose home is `b`'s slot. */
  function Refilled(a: int, b: int, k: int, m: int): seq<Slot>
  {
    var h1 := ProbeSlot(GetIndex(a), 1);
    ThreeAtHome(a, b, k)[h1 := Tombstone][h1 := Occupied(m, 3, 0)]
  }

  /** Three keys with one home slot, inserted into an empty table, sit there with dibs 0, 1 and 2. */
  lemma InsertThreeSharingHome(a: int, b: int, k: int)
    requires a != b && a != k && b != k
    requires GetIndex(b) == GetIndex(a) && GetIndex(k) == GetIndex(a)
    ensures HasFree(EmptyTable().slots)
    ensures var t1 := InsertSpec(EmptyTable(), a, 0).0;
            HasFree(t1.slots) &&
            var t2 := InsertSpec(t1, b, 1).0;
            HasFree(t2.slots) &&
            InsertSpec(t2, k, 2).0 == Table(ThreeAtHome(a, b, k), 3, 0)
  {
    var h := GetIndex(a);
    var h1 := ProbeSlot(h, 1);
    ProbeSlotStart(h);
    ProbeSlotInjective(h, 0, 1);
    ProbeSlotInjective(h, 0, 2);
    ProbeSlotInjective(h, 1, 2);
    var s0 := EmptyTable().slots;
    InsertSpecPlaces(EmptyTable(), a, 0, 0);
    var s1 := s0[h := Occupied(a, 0, 0)];
    InsertSpecPlaces(Table(s1, 1, 0), b, 1, 1);
    var s2 := s1[h1 := Occupied(b, 1, 1)];
    InsertSpecPlaces(Table(s2, 2, 0), k, 2, 2);
  }

  /** Deleting `b` leaves a tombstone at its slot, and `m` takes that tombstone with dib 0. */
  lemma DeleteThenRefill(a: int, b: int, k: int, m: int)
    requires a != b && a != k && b != k
    requires GetIndex(b) == GetIndex(a) && GetIndex(k) == GetIndex(a)
    requires GetIndex(m) == ProbeSlot(GetIndex(a), 1)
    ensures var t4 := DeleteSpec(Table(ThreeAtHome(a, b, k), 3, 0), b).0;
            HasFree(t4.slots) &&
            InsertSpec(t4, m, 3).0 == Table(Refilled(a, b, k, m), 3, 0)
  {
    var h := GetIndex(a);
    var h1 := ProbeSlot(h, 1);
    ProbeSlotStart(h);
    ProbeSlotStart(h1);
    ProbeSlotInjective(h, 0, 1);
    ProbeSlotInjective(h, 1, 2);
    var s3 := ThreeAtHome(a, b, k);
    SearchOffsetIs(s3, h, b, 1);
    DeleteSpecHit(Table(s3, 3, 0), b, 1);
    InsertSpecPlaces(Table(s3[h1 := Tombstone], 2, 1), m, 3, 0);
  }

  /** In the refilled slots, lookup and delete of `k` stop at `m`; the corrected lookup goes on to `k`. */
  lemma RefilledMissesKey(a: int, b: int, k: int, m: int)
    requires a != b && a != k && b != k
    requires GetIndex(b) == GetIndex(a) && GetIndex(k) == GetIndex(a)
    requires GetIndex(m) == ProbeSlot(GetIndex(a), 1)
    ensures var t5 := Table(Refilled(a, b, k, m), 3, 0);
            && t5.slots[ProbeSlot(GetIndex(k), 2)] == Occupied(k, 2, 2)
            && LookupSpec(t5, k).1 == None
            && DeleteSpec(t5, k) == (t5, OpResult(false, 2, 0))
            && CorrectedLookupSpec(t5, k).1 == Some(2)
  {
    var h := GetIndex(a);
    var h2 := ProbeSlot(h, 2);
    ProbeSlotStart(h);
    ProbeSlotInjective(h, 0, 1);
    ProbeSlotInjective(h, 0, 2);
    ProbeSlotInjective(h, 1, 2);
    var t5 := Table(Refilled(a, b, k, m), 3, 0);
    assert t5.slots[h2] == Occupied(k, 2, 2);
    SearchOffsetIs(t5.slots, h, k, 1);
    LookupSpecAt(t5, k, 1);
    DeleteSpecMiss(t5, k, 1);
    FullSearchOffsetIs(t5.slots, h, k, 2);
  }

  /**
   * As written: three keys `a`, `b`, `k` with one home slot `h` and a key
   * `m` whose home is the next slot. After insert a, b, k (dibs 0, 1, 2),
   * delete b and insert m (into b's tombstone, with dib 0), `k` is still
   * stored two slots past `h`, but lookup and delete stop at `m`, whose dib
   * is below the search offset, and report it absent. The corrected lookup
   * finds it.
   */
  lemma LookupMissesPresentKey(a: int, b: int, k: int, m: int)
    requires a != b && a != k && b != k
    requires GetIndex(b) == GetIndex(a) && GetIndex(k) == GetIndex(a)
    requires GetIndex(m) == ProbeSlot(GetIndex(a), 1)
    ensures HasFree(EmptyTable().slots)
    ensures var t1 := InsertSpec(EmptyTable(), a, 0).0;
            HasFree(t1.slots) &&
            var t2 := InsertSpec(t1, b, 1).0;
            HasFree(t2.slots) &&
            var t3 := InsertSpec(t2, k, 2).0;
            var t4 := DeleteSpec(t3, b).0;
            HasFree(t4.slots) &&
            var t5 := InsertSpec(t4, m, 3).0;
            && t5.slots[ProbeSlot(GetIndex(k), 2)] == Occupied(k, 2, 2)
            && LookupSpec(t5, k).1 == None
            && DeleteSpec(t5, k) == (t5, OpResult(false, 2, 0))
            && CorrectedLookupSpec(t5, k).1 == Some(2)
  {
    InsertThreeSharingHome(a, b, k);
    DeleteThenRefill(a, b, k, m);
    RefilledMissesKey(a, b, k, m);
  }

  // ---------------------------------------------------------------------
  // Corrected search: stop only at an Empty slot, the key, or a full wrap

  predicate FullSearchStops(e: Slot, key: int)
  {
    e.Empty? || (e.Occupied? && e.key == key)
  }

  function FullSearchOffset(s: seq<Slot>, home: nat, key: int, j: nat): (k: nat)
    requires |s| == CAPACITY && j <= CAPACITY
    decreases CAPACITY - j
    ensures j <= k <= CAPACITY
    ensures forall i :: j <= i < k ==> !FullSearchStops(s[ProbeSlot(home, i)], key)
    ensures k < CAPACITY ==> FullSearchStops(s[ProbeSlot(home, k)], key)
  {
    if j == CAPACITY then CAPACITY
    else if FullSearchStops(s[ProbeSlot(home, j)], key) then j
    else FullSearchOffset(s, home, key, j + 1)
  }

  /** The corrected search offset is the first offset at which it stops. */
  lemma FullSearchOffsetIs(s: seq<Slot>, home: nat, key: int, k: nat)
    requires |s| == CAPACITY && k < CAPACITY && FullSearchStops(s[ProbeSlot(home, k)], key)
    requires forall i :: 0 <= i < k ==> !FullSearchStops(s[ProbeSlot(home, i)], key)
    ensures FullSearchOffset(s, home, key, 0) == k
  {
  }

  /** Lookup with the early exit on the dib comparison taken out. */
  function CorrectedLookupSpec(t: Table, key: int): (r: (OpResult, Option<int>))
    requires |t.slots| == CAPACITY
    ensures 1 <= r.0.probeCount <= CAPACITY && r.0.displacement == 0
    ensures r.0.success <==> r.1.Some?
    ensures r.1.Some? ==> exists i :: 0 <= i < CAPACITY && t.slots[i].Occupied? &&
                                      t.slots[i].key == key && t.slots[i].value == r.1.value
  {
    var home := GetIndex(key);
    var k := FullSearchOffset(t.slots, home, key, 0);
    if k == CAPACITY then
      (OpResult(false, CAPACITY, 0), None)
    else
      var e := t.slots[ProbeSlot(home, k)];
      if e.Occupied? && e.key == key then (OpResult(true, k + 1, 0), Some(e.value))
      else (OpResult(false, k + 1, 0), None)
  }

  /** Delete with the early exit on the dib comparison taken out. */
  function CorrectedDeleteSpec(t: Table, key: int): (r: (Table, OpResult))
    requires |t.slots| == CAPACITY
    ensures |r.0.slots| == CAPACITY
    ensures 1 <= r.1.probeCount <= CAPACITY && r.1.displacement == 0
    ensures r.1.success == CorrectedLookupSpec(t, key).0.success
    ensures !r.1.success ==> r.0 == t
  {
    var home := GetIndex(key);
    var k := FullSearchOffset(t.slots, home, key, 0);
    if k == CAPACITY then
      (t, OpResult(false, CAPACITY, 0))
    else
      var p := ProbeSlot(home, k);
      var e := t.slots[p];
      if e.Occupied? && e.key == key then
        (Table(t.slots[p := Tombstone], t.size - 1, t.tombstones + 1), OpResult(true, k + 1, 0))
      else
        (t, OpResult(false, k + 1, 0))
  }

  /**
   * Insert that first searches for its key as the corrected lookup does:
   * a key already present gets the new value in its slot; otherwise the
   * insert loop runs as written.
   */
  function CorrectedInsertSpec(t: Table, key: int, value: int): (r: (Table, OpResult))
    requires |t.slots| == CAPACITY && HasFree(t.slots)
    ensures |r.0.slots| == CAPACITY
    ensures r.1.success && 1 <= r.1.probeCount <= CAPACITY && r.1.displacement == 0
  {
    var home := GetIndex(key);
    var k := FullSearchOffset(t.slots, home, key, 0);
    if k < CAPACITY && t.slots[ProbeSlot(home, k)].Occupied? then
      var p := ProbeSlot(home, k);
      (Table(t.slots[p := t.slots[p].(value := value)], t.size, t.tombstones), OpResult(true, k + 1, 0))
    else
      InsertSpec(t, key, value)
  }

  // ---------------------------------------------------------------------
  // The invariant the corrected search relies on

  /** No slot among the first `d` on the probe path from `home` is Empty. */
  predicate PathClear(s: seq<Slot>, home: nat, d: nat)
    requires |s| == CAPACITY
  {
    forall j :: 0 <= j < d ==> !s[ProbeSlot(home, j)].Empty?
  }

  /** An Occupied slot can be reached from its key's home without crossing an Empty slot. */
  predicate Reachable(s: seq<Slot>, i: nat)
    requires |s| == CAPACITY && i < CAPACITY
  {
    s[i].Occupied? ==> PathClear(s, GetIndex(s[i].key), s[i].dib)
  }

  predicate NoGaps(s: seq<Slot>)
    requires |s| == CAPACITY
  {
    forall i :: 0 <= i < CAPACITY ==> Reachable(s, i)
  }

  /** No Occupied slot holds `key`. */
  predicate Absent(s: seq<Slot>, key: int)
  {
    forall i :: 0 <= i < |s| && s[i].Occupied? ==> s[i].key != key
  }

  /** Everything the corrected operations keep: exact counters and dibs, no gaps, one slot per key. */
  predicate Sound(t: Table)
  {
    WellFormed(t) && DibsExact(t.slots) && NoGaps(t.slots) && UniqueKeys(t.slots)
  }

  lemma PathClearUpdate(s: seq<Slot>, p: nat, x: Slot, home: nat, d: nat)
    requires |s| == CAPACITY && p < CAPACITY && !x.Empty? && PathClear(s, home, d)
    ensures PathClear(s[p := x], home, d)
  {
    forall j | 0 <= j < d
      ensures !s[p := x][ProbeSlot(home, j)].Empty?
    {
      assert !s[ProbeSlot(home, j)].Empty?;
    }
  }

  /** Writing a slot that is not Empty, and is reachable if Occupied, keeps every slot reachable. */
  lemma NoGapsUpdate(s: seq<Slot>, p: nat, x: Slot)
    requires |s| == CAPACITY && p < CAPACITY && NoGaps(s) && !x.Empty?
    requires x.Occupied? ==> PathClear(s, GetIndex(x.key), x.dib)
    ensures NoGaps(s[p := x])
  {
    var s' := s[p := x];
    forall i | 0 <= i < CAPACITY
      ensures Reachable(s', i)
    {
      if i == p {
        if x.Occupied? {
          PathClearUpdate(s, p, x, GetIndex(x.key), x.dib);
        }
      } else {
        assert Reachable(s, i) && s'[i] == s[i];
        if s[i].Occupied? {
          PathClearUpdate(s, p, x, GetIndex(s[i].key), s[i].dib);
        }
      }
    }
  }

  /** Writing a slot whose key no other slot holds keeps keys unique. */
  lemma UniqueKeysUpdate(s: seq<Slot>, p: nat, x: Slot)
    requires p < |s| && UniqueKeys(s)
    requires x.Occupied? ==> forall i :: 0 <= i < |s| && i != p && s[i].Occupied? ==> s[i].key != x.key
    ensures UniqueKeys(s[p := x])
  {
  }

  lemma EmptyTableSound()
    ensures Sound(EmptyTable())
  {
    EmptyTableWellFormed();
  }

  /** The insert loop keeps every slot reachable while the carried entry is reachable at its dib. */
  lemma {:induction false} InsertLoopNoGaps(s: seq<Slot>, home: nat, j: nat, c: Carry)
    requires |s| == CAPACITY && home < CAPACITY && FreeAhead(s, home, j)
    requires DibsExact(s) && NoGaps(s) && CarryExact(home, j, c)
    requires PathClear(s, GetIndex(c.key), c.dib)
    decreases CAPACITY - j
    ensures NoGaps(InsertLoop(s, home, j, c).slots)
  {
    InsertLoopStep(s, home, j, c);
    var p := ProbeSlot(home, j);
    var e := s[p];
    var r := InsertLoop(s, home, j, c);
    if !e.Occupied? {
      assert r.slots == s[p := Held(c)];
      NoGapsUpdate(s, p, Held(c));
    } else if e.key == c.key {
      assert r.slots == s[p := e.(value := c.value)];
      assert Reachable(s, p);
      NoGapsUpdate(s, p, e.(value := c.value));
    } else {
      assert DibExact(s, p) && Reachable(s, p);
      if c.dib > e.dib {
        var s1 := s[p := Held(c)];
        var he := GetIndex(e.key);
        assert ProbeSlot(he, e.dib) == p;
        NextProbeSlotsAgree(he, e.dib, home, j);
        DibsExactUpdate(s, p, Held(c));
        NoGapsUpdate(s, p, Held(c));
        PathClearUpdate(s, p, Held(c), he, e.dib);
        assert PathClear(s1, he, e.dib + 1);
        assert CarryExact(home, j + 1, Evicted(e));
        assert r == InsertLoop(s1, home, j + 1, Evicted(e));
        InsertLoopNoGaps(s1, home, j + 1, Evicted(e));
      } else {
        var c1 := c.(dib := c.dib + 1);
        var hc := GetIndex(c.key);
        NextProbeSlotsAgree(hc, c.dib, home, j);
        assert PathClear(s, hc, c.dib + 1);
        assert CarryExact(home, j + 1, c1);
        assert r == InsertLoop(s, home, j + 1, c1);
        InsertLoopNoGaps(s, home, j + 1, c1);
      }
    }
  }

  /** The insert loop keeps keys unique while the carried key is in no slot. */
  lemma {:induction false} InsertLoopUnique(s: seq<Slot>, home: nat, j: nat, c: Carry)
    requires |s| == CAPACITY && home < CAPACITY && FreeAhead(s, home, j)
    requires UniqueKeys(s) && Absent(s, c.key)
    decreases CAPACITY - j
    ensures UniqueKeys(InsertLoop(s, home, j, c).slots)
  {
    InsertLoopStep(s, home, j, c);
    var p := ProbeSlot(home, j);
    var e := s[p];
    var r := InsertLoop(s, home, j, c);
    if !e.Occupied? {
      assert r.slots == s[p := Held(c)];
      UniqueKeysUpdate(s, p, Held(c));
    } else {
      assert e.key != c.key;
      if c.dib > e.dib {
        var s1 := s[p := Held(c)];
        UniqueKeysUpdate(s, p, Held(c));
        forall i | 0 <= i < CAPACITY && s1[i].Occupied?
          ensures s1[i].key != e.key
        {
          if i != p {
            assert s1[i] == s[i];
          }
        }
        assert r == InsertLoop(s1, home, j + 1, Evicted(e));
        InsertLoopUnique(s1, home, j + 1, Evicted(e));
      } else {
        assert r == InsertLoop(s, home, j + 1, c.(dib := c.dib + 1));
        InsertLoopUnique(s, home, j + 1, c.(dib := c.dib + 1));
      }
    }
  }

  lemma InsertKeepsNoGaps(t: Table, key: int, value: int)
    requires |t.slots| == CAPACITY && HasFree(t.slots) && DibsExact(t.slots) && NoGaps(t.slots)
    ensures NoGaps(InsertSpec(t, key, value).0.slots)
  {
    var home := GetIndex(key);
    HasFreeAhead(t.slots, home);
    ProbeSlotStart(home);
    assert CarryExact(home, 0, Carry(key, value, 0));
    InsertLoopNoGaps(t.slots, home, 0, Carry(key, value, 0));
  }

  /**
   * Completeness, slot by slot: a stored key whose dib is exact and whose
   * path from home has no Empty slot is reached by the corrected search,
   * no later than its dib.
   */
  lemma FullSearchReaches(s: seq<Slot>, key: int, i: nat)
    requires |s| == CAPACITY && i < CAPACITY && DibExact(s, i) && Reachable(s, i)
    requires s[i].Occupied? && s[i].key == key
    ensures var home := GetIndex(key);
            var k := FullSearchOffset(s, home, key, 0);
            && k <= s[i].dib
            && s[ProbeSlot(home, k)].Occupied? && s[ProbeSlot(home, k)].key == key
  {
    var home := GetIndex(key);
    var d := s[i].dib;
    assert ProbeSlot(home, d) == i;
    assert FullSearchStops(s[ProbeSlot(home, d)], key);
  }

  /** A corrected search that stops without the key means the key is in no slot. */
  lemma FullSearchMissMeansAbsent(s: seq<Slot>, key: int)
    requires |s| == CAPACITY && DibsExact(s) && NoGaps(s)
    requires var home := GetIndex(key);
             var k := FullSearchOffset(s, home, key, 0);
             k == CAPACITY || !s[ProbeSlot(home, k)].Occupied?
    ensures Absent(s, key)
  {
    forall i | 0 <= i < CAPACITY && s[i].Occupied?
      ensures s[i].key != key
    {
      assert DibExact(s, i) && Reachable(s, i);
      if s[i].key == key {
        FullSearchReaches(s, key, i);
      }
    }
  }

  /** The corrected lookup's report once its search has stopped at the key's slot. */
  lemma CorrectedLookupSpecHit(t: Table, key: int, k: nat)
    requires |t.slots| == CAPACITY && k == FullSearchOffset(t.slots, GetIndex(key), key, 0)
    requires k < CAPACITY && var e := t.slots[ProbeSlot(GetIndex(key), k)]; e.Occupied? && e.key == key
    ensures CorrectedLookupSpec(t, key) ==
              (OpResult(true, k + 1, 0), Some(t.slots[ProbeSlot(GetIndex(key), k)].value))
  {
  }

  /** The corrected lookup finds every stored key; with unique keys, with its value. */
  lemma CorrectedLookupFindsPresentKey(t: Table, key: int, i: nat)
    requires |t.slots| == CAPACITY && DibsExact(t.slots) && NoGaps(t.slots)
    requires i < CAPACITY && t.slots[i].Occupied? && t.slots[i].key == key
    ensures CorrectedLookupSpec(t, key).0.success
    ensures CorrectedLookupSpec(t, key).0.probeCount <= t.slots[i].dib + 1
    ensures UniqueKeys(t.slots) ==> CorrectedLookupSpec(t, key).1 == Some(t.slots[i].value)
  {
    var s := t.slots;
    var home := GetIndex(key);
    var k := FullSearchOffset(s, home, key, 0);
    assert DibExact(s, i) && Reachable(s, i);
    FullSearchReaches(s, key, i);
    var p := ProbeSlot(home, k);
    CorrectedLookupSpecHit(t, key, k);
    assert UniqueKeys(s) ==> p == i;
  }

  /** The corrected lookup reports a key absent exactly when no slot holds it. */
  lemma CorrectedLookupMissMeansAbsent(t: Table, key: int)
    requires |t.slots| == CAPACITY && DibsExact(t.slots) && NoGaps(t.slots)
    ensures CorrectedLookupSpec(t, key).1 == None <==> Absent(t.slots, key)
  {
    var home := GetIndex(key);
    var k := FullSearchOffset(t.slots, home, key, 0);
    if k == CAPACITY || !t.slots[ProbeSlot(home, k)].Occupied? {
      FullSearchMissMeansAbsent(t.slots, key);
    }
  }

  /** The corrected insert keeps the invariant, gains a slot only for a new key, and stores the value. */
  lemma CorrectedInsertKeepsSound(t: Table, key: int, value: int)
    requires Sound(t) && HasFree(t.slots)
    ensures var t' := CorrectedInsertSpec(t, key, value).0;
            && Sound(t')
            && t'.size == t.size + (if Absent(t.slots, key) then 1 else 0)
  {
    var s := t.slots;
    var home := GetIndex(key);
    var k := FullSearchOffset(s, home, key, 0);
    if k < CAPACITY && s[ProbeSlot(home, k)].Occupied? {
      var p := ProbeSlot(home, k);
      var x := s[p].(value := value);
      CountUpdate(s, p, x, IsOccupied);
      CountUpdate(s, p, x, IsTombstone);
      assert DibExact(s, p) && Reachable(s, p);
      DibsExactUpdate(s, p, x);
      NoGapsUpdate(s, p, x);
      UniqueKeysUpdate(s, p, x);
      assert !Absent(s, key);
    } else {
      FullSearchMissMeansAbsent(s, key);
      InsertKeepsWellFormed(t, key, value);
      InsertKeepsNoGaps(t, key, value);
      HasFreeAhead(s, home);
      InsertLoopUnique(s, home, 0, Carry(key, value, 0));
      InsertLoopCounts(s, home, 0, Carry(key, value, 0));
      InsertLoopPlacesNewKey(s, home, 0, Carry(key, value, 0));
    }
  }

  /** A key in no slot is placed, never treated as an update. */
  lemma {:induction false} InsertLoopPlacesNewKey(s: seq<Slot>, home: nat, j: nat, c: Carry)
    requires |s| == CAPACITY && home < CAPACITY && FreeAhead(s, home, j)
    requires Absent(s, c.key) && UniqueKeys(s)
    decreases CAPACITY - j
    ensures InsertLoop(s, home, j, c).Placed?
  {
    InsertLoopStep(s, home, j, c);
    var p := ProbeSlot(home, j);
    var e := s[p];
    if e.Occupied? {
      assert e.key != c.key;
      if c.dib > e.dib {
        var s1 := s[p := Held(c)];
        UniqueKeysUpdate(s, p, Held(c));
        forall i | 0 <= i < CAPACITY && s1[i].Occupied?
          ensures s1[i].key != e.key
        {
          if i != p {
            assert s1[i] == s[i];
          }
        }
        InsertLoopPlacesNewKey(s1, home, j + 1, Evicted(e));
      } else {
        InsertLoopPlacesNewKey(s, home, j + 1, c.(dib := c.dib + 1));
      }
    }
  }

  /** Round trip: after the corrected insert, the corrected lookup returns the value just inserted. */
  lemma CorrectedInsertThenLookup(t: Table, key: int, value: int)
    requires Sound(t) && HasFree(t.slots)
    ensures CorrectedLookupSpec(CorrectedInsertSpec(t, key, value).0, key).1 == Some(value)
  {
    var s := t.slots;
    var home := GetIndex(key);
    var k := FullSearchOffset(s, home, key, 0);
    var t' := CorrectedInsertSpec(t, key, value).0;
    CorrectedInsertKeepsSound(t, key, value);
    if k < CAPACITY && s[ProbeSlot(home, k)].Occupied? {
      CorrectedLookupFindsPresentKey(t', key, ProbeSlot(home, k));
    } else {
      InsertThenLookup(t, key, value);
      var i :| 0 <= i < CAPACITY && t'.slots[i].Occupied? && t'.slots[i].key == key &&
               t'.slots[i].value == value;
      CorrectedLookupFindsPresentKey(t', key, i);
    }
  }

  /** The corrected delete keeps the invariant. */
  lemma CorrectedDeleteKeepsSound(t: Table, key: int)
    requires Sound(t)
    ensures Sound(CorrectedDeleteSpec(t, key).0)
  {
    var s := t.slots;
    var home := GetIndex(key);
    var k := FullSearchOffset(s, home, key, 0);
    if k < CAPACITY && s[ProbeSlot(home, k)].Occupied? {
      var p := ProbeSlot(home, k);
      CountUpdate(s, p, Tombstone, IsOccupied);
      CountUpdate(s, p, Tombstone, IsTombstone);
      DibsExactUpdate(s, p, Tombstone);
      NoGapsUpdate(s, p, Tombstone);
      UniqueKeysUpdate(s, p, Tombstone);
    }
  }

  /**
   * The corrected delete succeeds exactly when the key is stored, and
   * afterwards the corrected lookup does not find it.
   */
  lemma CorrectedDeleteThenLookup(t: Table, key: int)
    requires Sound(t)
    ensures CorrectedDeleteSpec(t, key).1.success <==> !Absent(t.slots, key)
    ensures CorrectedDeleteSpec(t, key).1.success ==> CorrectedDeleteSpec(t, key).0.size == t.size - 1
    ensures CorrectedLookupSpec(CorrectedDeleteSpec(t, key).0, key).1 == None
  {
    var s := t.slots;
    var home := GetIndex(key);
    var k := FullSearchOffset(s, home, key, 0);
    var t' := CorrectedDeleteSpec(t, key).0;
    if k < CAPACITY && s[ProbeSlot(home, k)].Occupied? {
      var p := ProbeSlot(home, k);
      assert t'.slots == s[p := Tombstone];
      forall i | 0 <= i < CAPACITY && t'.slots[i].Occupied?
        ensures t'.slots[i].key != key
      {
        assert i != p && t'.slots[i] == s[i];
      }
    } else {
      FullSearchMissMeansAbsent(s, key);
    }
  }
}
