/**
 * Cuckoo hashing: every key has two candidate slots. Insert updates a
 * candidate that already holds the key, else fills a free candidate (the
 * first before the second), else runs a displacement cycle of at most
 * `MAX_DISPLACEMENTS` rounds: the carried pair takes the current slot, and
 * the pair it evicts moves to its other candidate. A cycle that does not end
 * in a free slot drops the last evicted pair and counts a failed insert.
 *
 * `Displace` states the cycle round by round on a sequence of slots;
 * `InsertSpec`, `LookupSpec` and `DeleteSpec` state the operations on table
 * values; the class `CuckooMap` runs them on an array and is proved to agree.
 */
module Cuckoo {
  import opened Common
  import opened Counting

  /** Rounds of the displacement cycle before an insert gives up. */
  const MAX_DISPLACEMENTS: nat := 500

  datatype Slot = Empty | Occupied(key: int, value: int)

  predicate IsOccupied(e: Slot) { e.Occupied? }

  datatype Table = Table(slots: seq<Slot>, size: int, failedInserts: int)

  /** Slot `j` is one of the two candidate slots of `key`. */
  predicate Candidate(key: int, j: nat)
  {
    var (a, b) := CuckooIndices(key);
    j == a || j == b
  }

  /** The candidate slot of `key` other than `idx`; the first candidate when `idx` is neither, and `idx` itself when both candidates are `idx`. */
  function Alternate(key: int, idx: nat): (j: nat)
    ensures j < CAPACITY && Candidate(key, j)
  {
    var (a, b) := CuckooIndices(key);
    if a == idx then b else a
  }

  /** Slot `j`, when Occupied, is a candidate slot of its key. */
  predicate PlacedAt(s: seq<Slot>, j: nat)
  {
    j < |s| && s[j].Occupied? ==> Candidate(s[j].key, j)
  }

  /** Every Occupied slot is a candidate slot of its key. */
  predicate InPlace(s: seq<Slot>)
  {
    forall j :: 0 <= j < |s| ==> PlacedAt(s, j)
  }

  /** Slots `i` and `j` hold different keys unless they are the same slot. */
  predicate Apart(s: seq<Slot>, i: nat, j: nat)
  {
    i < |s| && j < |s| && s[i].Occupied? && s[j].Occupied? && s[i].key == s[j].key ==> i == j
  }

  /** No key is held by two slots. */
  predicate UniqueKeys(s: seq<Slot>)
  {
    forall i, j :: 0 <= i < |s| && 0 <= j < |s| ==> Apart(s, i, j)
  }

  /** No slot holds `key`. */
  predicate Absent(s: seq<Slot>, key: int)
  {
    forall j :: 0 <= j < |s| && s[j].Occupied? ==> s[j].key != key
  }

  /**
   * Keys sit in candidate slots, each at most once, and `size` counts the
   * Occupied slots plus one for every failed insert (whose increment of
   * `size` is never taken back).
   */
  predicate WellFormed(t: Table)
  {
    |t.slots| == CAPACITY && InPlace(t.slots) && UniqueKeys(t.slots) &&
    0 <= t.failedInserts && t.size == Count(t.slots, IsOccupied) + t.failedInserts
  }

  function EmptyTable(): Table
  {
    Table(seq(CAPACITY, _ => Empty), 0, 0)
  }

  lemma EmptyTableWellFormed()
    ensures WellFormed(EmptyTable())
  {
    CountNone(EmptyTable().slots, IsOccupied);
  }

  /** The multiset of key/value pairs held by the Occupied slots. */
  function Pairs(s: seq<Slot>): multiset<(int, int)>
  {
    if s == [] then multiset{} else Pairs(s[..|s| - 1]) + PairOf(s[|s| - 1])
  }

  function PairOf(e: Slot): multiset<(int, int)>
  {
    if e.Occupied? then multiset{(e.key, e.value)} else multiset{}
  }

  lemma {:induction false} PairsConcat(a: seq<Slot>, b: seq<Slot>)
    ensures Pairs(a + b) == Pairs(a) + Pairs(b)
    decreases |b|
  {
    if b == [] {
      assert a + b == a;
    } else {
      var n := |b| - 1;
      assert (a + b)[..|a + b| - 1] == a + b[..n];
      PairsConcat(a, b[..n]);
    }
  }

  lemma {:induction false} PairsUpdate(s: seq<Slot>, i: nat, x: Slot)
    requires i < |s|
    ensures Pairs(s[i := x]) + PairOf(s[i]) == Pairs(s) + PairOf(x)
  {
    var front, back := s[..i], s[i + 1..];
    assert s == (front + [s[i]]) + back;
    assert s[i := x] == (front + [x]) + back;
    PairsConcat(front + [s[i]], back);
    PairsConcat(front, [s[i]]);
    PairsConcat(front + [x], back);
    PairsConcat(front, [x]);
    assert [s[i]][..0] == [] && [x][..0] == [];
  }

  /** Some slot holds exactly the pair `(key, value)`. */
  ghost predicate Stored(s: seq<Slot>, key: int, value: int)
  {
    exists j :: 0 <= j < |s| && s[j] == Occupied(key, value)
  }

  lemma {:induction false} PairsStored(s: seq<Slot>, key: int, value: int)
    ensures (key, value) in Pairs(s) <==> Stored(s, key, value)
  {
    if s != [] {
      var n := |s| - 1;
      PairsStored(s[..n], key, value);
      if Stored(s[..n], key, value) {
        var j :| 0 <= j < n && s[..n][j] == Occupied(key, value);
        assert s[j] == Occupied(key, value);
      }
      if Stored(s, key, value) && s[n] != Occupied(key, value) {
        var j :| 0 <= j < |s| && s[j] == Occupied(key, value);
        assert s[..n][j] == Occupied(key, value);
      }
    }
  }

  // ---------------------------------------------------------------------
  // The displacement cycle

  /** How a displacement cycle ends: the evicted pair found a free slot, or it was dropped. */
  datatype Cycle = Placed(slots: seq<Slot>, rounds: nat) | Dropped(slots: seq<Slot>, key: int, value: int)

  /**
   * Round `round` of the cycle: `(key, value)` takes slot `idx`, and the pair
   * evicted from there moves to its candidate other than `idx`, unless that
   * slot is Occupied, in which case the next round carries it on.
   */
  function Displace(s: seq<Slot>, round: nat, idx: nat, key: int, value: int): (r: Cycle)
    requires |s| == CAPACITY && idx < CAPACITY && s[idx].Occupied? && round < MAX_DISPLACEMENTS
    ensures |r.slots| == CAPACITY
    ensures r.Placed? ==> round < r.rounds <= MAX_DISPLACEMENTS
    decreases MAX_DISPLACEMENTS - round, s
  {
    var evicted := s[idx];
    var s1 := s[idx := Occupied(key, value)];
    var next := Alternate(evicted.key, idx);
    if !s1[next].Occupied? then Placed(s1[next := evicted], round + 1)
    else if round + 1 == MAX_DISPLACEMENTS then Dropped(s1, evicted.key, evicted.value)
    else Displace(s1, round + 1, next, evicted.key, evicted.value)
  }

  /** One round of the cycle, spelled out. */
  lemma DisplaceUnfold(s: seq<Slot>, round: nat, idx: nat, key: int, value: int)
    requires |s| == CAPACITY && idx < CAPACITY && s[idx].Occupied? && round < MAX_DISPLACEMENTS
    ensures var s1 := s[idx := Occupied(key, value)];
            var next := Alternate(s[idx].key, idx);
            Displace(s, round, idx, key, value) ==
              if !s1[next].Occupied? then Placed(s1[next := s[idx]], round + 1)
              else if round + 1 == MAX_DISPLACEMENTS then Dropped(s1, s[idx].key, s[idx].value)
              else Displace(s1, round + 1, next, s[idx].key, s[idx].value)
  {
  }

  /** Every slot Occupied in `a` is Occupied in `b`. */
  predicate KeepsOccupied(a: seq<Slot>, b: seq<Slot>)
  {
    |a| == |b| && forall j :: 0 <= j < |a| && a[j].Occupied? ==> b[j].Occupied?
  }

  lemma KeepsOccupiedTrans(a: seq<Slot>, b: seq<Slot>, c: seq<Slot>)
    requires KeepsOccupied(a, b) && KeepsOccupied(b, c)
    ensures KeepsOccupied(a, c)
  {
  }

  /**
   * The cycle only writes Occupied slots, except the free slot it ends in:
   * nothing Occupied is cleared, and a placed cycle fills exactly one more slot.
   */
  lemma {:induction false} DisplaceOccupancy(s: seq<Slot>, round: nat, idx: nat, key: int, value: int)
    requires |s| == CAPACITY && idx < CAPACITY && s[idx].Occupied? && round < MAX_DISPLACEMENTS
    ensures var r := Displace(s, round, idx, key, value);
            KeepsOccupied(s, r.slots) &&
            Count(r.slots, IsOccupied) == Count(s, IsOccupied) + (if r.Placed? then 1 else 0)
    decreases MAX_DISPLACEMENTS - round, 1
  {
    var s1 := s[idx := Occupied(key, value)];
    var next := Alternate(s[idx].key, idx);
    if !s1[next].Occupied? {
      var u := s1[next := s[idx]];
      assert Displace(s, round, idx, key, value) == Placed(u, round + 1) by {
        DisplaceUnfold(s, round, idx, key, value);
      }
      CountUpdate(s1, next, s[idx], IsOccupied);
      EvictThenOccupancy(s, idx, key, value, u, 1);
    } else if round + 1 < MAX_DISPLACEMENTS {
      DisplaceOccupancyMoves(s, round, idx, key, value);
      assert Displace(s, round, idx, key, value) == Displace(s1, round + 1, next, s[idx].key, s[idx].value) by {
        DisplaceUnfold(s, round, idx, key, value);
      }
    } else {
      assert Displace(s, round, idx, key, value) == Dropped(s1, s[idx].key, s[idx].value) by {
        DisplaceUnfold(s, round, idx, key, value);
      }
      EvictThenOccupancy(s, idx, key, value, s1, 0);
    }
  }

  /** A middle round of a cycle passes the occupancy relation on from the next round. */
  lemma {:induction false} DisplaceOccupancyMoves(s: seq<Slot>, round: nat, idx: nat, key: int, value: int)
    requires |s| == CAPACITY && idx < CAPACITY && s[idx].Occupied? && round + 1 < MAX_DISPLACEMENTS
    requires s[idx := Occupied(key, value)][Alternate(s[idx].key, idx)].Occupied?
    ensures var r1 := Displace(s[idx := Occupied(key, value)], round + 1, Alternate(s[idx].key, idx),
                               s[idx].key, s[idx].value);
            KeepsOccupied(s, r1.slots) &&
            Count(r1.slots, IsOccupied) == Count(s, IsOccupied) + (if r1.Placed? then 1 else 0)
    decreases MAX_DISPLACEMENTS - round, 0
  {
    var s1 := s[idx := Occupied(key, value)];
    var next := Alternate(s[idx].key, idx);
    DisplaceOccupancy(s1, round + 1, next, s[idx].key, s[idx].value);
    var r1 := Displace(s1, round + 1, next, s[idx].key, s[idx].value);
    EvictThenOccupancy(s, idx, key, value, r1.slots, if r1.Placed? then 1 else 0);
  }

  /** Overwriting an Occupied slot keeps every Occupied slot Occupied and the count unchanged. */
  lemma EvictThenOccupancy(s: seq<Slot>, idx: nat, key: int, value: int, u: seq<Slot>, extra: nat)
    requires idx < |s| && s[idx].Occupied?
    requires KeepsOccupied(s[idx := Occupied(key, value)], u)
    requires Count(u, IsOccupied) == Count(s[idx := Occupied(key, value)], IsOccupied) + extra
    ensures KeepsOccupied(s, u) && Count(u, IsOccupied) == Count(s, IsOccupied) + extra
  {
    var s1 := s[idx := Occupied(key, value)];
    CountUpdate(s, idx, Occupied(key, value), IsOccupied);
    assert KeepsOccupied(s, s1);
    KeepsOccupiedTrans(s, s1, u);
  }

  /** Overwriting an Occupied slot trades the pair it held for the new one. */
  lemma EvictPairs(s: seq<Slot>, idx: nat, key: int, value: int)
    requires idx < |s| && s[idx].Occupied?
    ensures Pairs(s[idx := Occupied(key, value)]) + multiset{(s[idx].key, s[idx].value)} ==
            Pairs(s) + multiset{(key, value)}
  {
    PairsUpdate(s, idx, Occupied(key, value));
  }

  /** Filling a non-Occupied slot adds its pair. */
  lemma FillPairs(s: seq<Slot>, idx: nat, key: int, value: int)
    requires idx < |s| && !s[idx].Occupied?
    ensures Pairs(s[idx := Occupied(key, value)]) + multiset{} == Pairs(s) + multiset{(key, value)}
  {
    PairsUpdate(s, idx, Occupied(key, value));
    assert PairOf(s[idx]) == multiset{};
  }

  lemma Link(x: multiset<(int, int)>, y: multiset<(int, int)>, z: multiset<(int, int)>)
    requires x == y && y == z
    ensures x == z
  {
  }

  /** The pair a cycle leaves out of the table: none when it was placed. */
  function Lost(r: Cycle): multiset<(int, int)>
  {
    if r.Placed? then multiset{} else multiset{(r.key, r.value)}
  }

  /**
   * A placed cycle holds every old pair plus the carried one; a dropped
   * cycle holds them all but the pair it drops.
   */
  lemma {:induction false} DisplacePairs(s: seq<Slot>, round: nat, idx: nat, key: int, value: int)
    requires |s| == CAPACITY && idx < CAPACITY && s[idx].Occupied? && round < MAX_DISPLACEMENTS
    ensures var r := Displace(s, round, idx, key, value);
            Pairs(r.slots) + Lost(r) == Pairs(s) + multiset{(key, value)}
    decreases MAX_DISPLACEMENTS - round, 1
  {
    var s1 := s[idx := Occupied(key, value)];
    var next := Alternate(s[idx].key, idx);
    if s1[next].Occupied? && round + 1 < MAX_DISPLACEMENTS {
      DisplacePairsMoves(s, round, idx, key, value);
      assert Displace(s, round, idx, key, value) == Displace(s1, round + 1, next, s[idx].key, s[idx].value) by {
        DisplaceUnfold(s, round, idx, key, value);
      }
    } else {
      DisplacePairsLast(s, round, idx, key, value);
    }
  }

  /** The last round of a cycle: the evicted pair is placed or dropped. */
  lemma DisplacePairsLast(s: seq<Slot>, round: nat, idx: nat, key: int, value: int)
    requires |s| == CAPACITY && idx < CAPACITY && s[idx].Occupied? && round < MAX_DISPLACEMENTS
    requires var s1 := s[idx := Occupied(key, value)];
             !s1[Alternate(s[idx].key, idx)].Occupied? || round + 1 == MAX_DISPLACEMENTS
    ensures var r := Displace(s, round, idx, key, value);
            Pairs(r.slots) + Lost(r) == Pairs(s) + multiset{(key, value)}
  {
    var evicted := s[idx];
    var s1 := s[idx := Occupied(key, value)];
    var next := Alternate(evicted.key, idx);
    var r := Displace(s, round, idx, key, value);
    var ev := multiset{(evicted.key, evicted.value)};
    EvictPairs(s, idx, key, value);
    if !s1[next].Occupied? {
      FillPairs(s1, next, evicted.key, evicted.value);
      assert r == Placed(s1[next := Occupied(evicted.key, evicted.value)], round + 1);
    } else {
      assert r == Dropped(s1, evicted.key, evicted.value);
    }
    Link(Pairs(r.slots) + Lost(r), Pairs(s1) + ev, Pairs(s) + multiset{(key, value)});
  }

  /** A middle round of a cycle passes the pair relation on from the next round. */
  lemma {:induction false} DisplacePairsMoves(s: seq<Slot>, round: nat, idx: nat, key: int, value: int)
    requires |s| == CAPACITY && idx < CAPACITY && s[idx].Occupied? && round + 1 < MAX_DISPLACEMENTS
    requires s[idx := Occupied(key, value)][Alternate(s[idx].key, idx)].Occupied?
    ensures var r1 := Displace(s[idx := Occupied(key, value)], round + 1, Alternate(s[idx].key, idx),
                               s[idx].key, s[idx].value);
            Pairs(r1.slots) + Lost(r1) == Pairs(s) + multiset{(key, value)}
    decreases MAX_DISPLACEMENTS - round, 0
  {
    var s1 := s[idx := Occupied(key, value)];
    var next := Alternate(s[idx].key, idx);
    DisplacePairs(s1, round + 1, next, s[idx].key, s[idx].value);
    EvictThenCarry(s, idx, key, value, Pairs(Displace(s1, round + 1, next, s[idx].key, s[idx].value).slots) +
                                       Lost(Displace(s1, round + 1, next, s[idx].key, s[idx].value)));
  }

  /** What the rest of a cycle conserves with the evicted pair, this round conserves with the new pair. */
  lemma EvictThenCarry(s: seq<Slot>, idx: nat, key: int, value: int, total: multiset<(int, int)>)
    requires idx < |s| && s[idx].Occupied?
    requires total == Pairs(s[idx := Occupied(key, value)]) + multiset{(s[idx].key, s[idx].value)}
    ensures total == Pairs(s) + multiset{(key, value)}
  {
    EvictPairs(s, idx, key, value);
  }

  /**
   * Writing a pair into one of its key's candidate slots keeps the layout,
   * when no other slot holds that key.
   */
  lemma WriteKeepsLayout(s: seq<Slot>, i: nat, key: int, value: int)
    requires i < |s| && InPlace(s) && UniqueKeys(s) && Candidate(key, i)
    requires forall j :: 0 <= j < |s| && j != i && s[j].Occupied? ==> s[j].key != key
    ensures InPlace(s[i := Occupied(key, value)]) && UniqueKeys(s[i := Occupied(key, value)])
  {
    var s' := s[i := Occupied(key, value)];
    forall j | 0 <= j < |s'|
      ensures PlacedAt(s', j)
    {
      assert PlacedAt(s, j);
    }
    forall j, k | 0 <= j < |s'| && 0 <= k < |s'|
      ensures Apart(s', j, k)
    {
      assert Apart(s, j, k);
    }
  }

  /** Clearing a slot keeps the layout. */
  lemma ClearKeepsLayout(s: seq<Slot>, i: nat)
    requires i < |s| && InPlace(s) && UniqueKeys(s)
    ensures InPlace(s[i := Empty]) && UniqueKeys(s[i := Empty])
  {
    var s' := s[i := Empty];
    forall j | 0 <= j < |s'|
      ensures PlacedAt(s', j)
    {
      assert PlacedAt(s, j);
    }
    forall j, k | 0 <= j < |s'| && 0 <= k < |s'|
      ensures Apart(s', j, k)
    {
      assert Apart(s, j, k);
    }
  }

  /**
   * A cycle started with a pair whose key the table does not hold, at one
   * of that key's candidate slots, keeps every key in a candidate slot and
   * every key in at most one slot.
   */
  lemma {:induction false} DisplaceKeepsLayout(s: seq<Slot>, round: nat, idx: nat, key: int, value: int)
    requires |s| == CAPACITY && idx < CAPACITY && s[idx].Occupied? && round < MAX_DISPLACEMENTS
    requires InPlace(s) && UniqueKeys(s) && Absent(s, key) && Candidate(key, idx)
    ensures InPlace(Displace(s, round, idx, key, value).slots)
    ensures UniqueKeys(Displace(s, round, idx, key, value).slots)
    decreases MAX_DISPLACEMENTS - round
  {
    var evicted := s[idx];
    var s1 := s[idx := Occupied(key, value)];
    var next := Alternate(evicted.key, idx);
    WriteKeepsLayout(s, idx, key, value);
    assert Absent(s1, evicted.key) by {
      forall j | 0 <= j < |s1| && s1[j].Occupied?
        ensures s1[j].key != evicted.key
      {
        assert Apart(s, j, idx);
      }
    }
    DisplaceUnfold(s, round, idx, key, value);
    if !s1[next].Occupied? {
      WriteKeepsLayout(s1, next, evicted.key, evicted.value);
    } else if round + 1 < MAX_DISPLACEMENTS {
      DisplaceKeepsLayout(s1, round + 1, next, evicted.key, evicted.value);
    }
  }

  // ---------------------------------------------------------------------
  // The operations on table values

  /** The candidate slot that already holds `key`, first candidate first. */
  function Holder(s: seq<Slot>, key: int): (r: Option<nat>)
    requires |s| == CAPACITY
    ensures r.Some? ==> Candidate(key, r.value) && s[r.value].Occupied? && s[r.value].key == key
  {
    var (i1, i2) := CuckooIndices(key);
    if s[i1].Occupied? && s[i1].key == key then Some(i1)
    else if s[i2].Occupied? && s[i2].key == key then Some(i2)
    else None
  }

  function InsertSpec(t: Table, key: int, value: int): (r: (Table, OpResult))
    requires |t.slots| == CAPACITY
    ensures |r.0.slots| == CAPACITY
    ensures r.1.probeCount == 0 && r.1.displacement <= MAX_DISPLACEMENTS
  {
    var s := t.slots;
    var (i1, i2) := CuckooIndices(key);
    match Holder(s, key)
    case Some(i) => (t.(slots := s[i := s[i].(value := value)]), OpResult(true, 0, 0))
    case None =>
      if !s[i1].Occupied? then
        (Table(s[i1 := Occupied(key, value)], t.size + 1, t.failedInserts), OpResult(true, 0, 0))
      else if !s[i2].Occupied? then
        (Table(s[i2 := Occupied(key, value)], t.size + 1, t.failedInserts), OpResult(true, 0, 0))
      else
        DisplaceResult(t, Displace(s, 0, i1, key, value))
  }

  /** The table after a displacement cycle: `size` grows either way, a drop counts a failure. */
  function DisplaceResult(t: Table, c: Cycle): (r: (Table, OpResult))
    ensures r.1.probeCount == 0 && (c.Placed? ==> r.1.displacement == c.rounds)
  {
    match c
    case Placed(s', rounds) =>
      (Table(s', t.size + 1, t.failedInserts), OpResult(true, 0, rounds))
    case Dropped(s', _, _) =>
      (Table(s', t.size + 1, t.failedInserts + 1), OpResult(false, 0, MAX_DISPLACEMENTS))
  }

  /** Lookup checks the first candidate and then the second, and nothing else. */
  function LookupSpec(t: Table, key: int): (r: (OpResult, Option<int>))
    requires |t.slots| == CAPACITY
    ensures 1 <= r.0.probeCount <= 2 && r.0.displacement == 0
    ensures r.0.success <==> r.1.Some?
  {
    var s := t.slots;
    var (i1, i2) := CuckooIndices(key);
    if s[i1].Occupied? && s[i1].key == key then (OpResult(true, 1, 0), Some(s[i1].value))
    else if s[i2].Occupied? && s[i2].key == key then (OpResult(true, 2, 0), Some(s[i2].value))
    else (OpResult(false, 2, 0), None)
  }

  /** Delete clears the first candidate that holds the key. */
  function DeleteSpec(t: Table, key: int): (r: (Table, OpResult))
    requires |t.slots| == CAPACITY
  {
    var s := t.slots;
    var (i1, i2) := CuckooIndices(key);
    if s[i1].Occupied? && s[i1].key == key then
      (Table(s[i1 := Empty], t.size - 1, t.failedInserts), OpResult(true, 1, 0))
    else if s[i2].Occupied? && s[i2].key == key then
      (Table(s[i2 := Empty], t.size - 1, t.failedInserts), OpResult(true, 2, 0))
    else
      (t, OpResult(false, 2, 0))
  }

  /** A key the table holds sits in a candidate slot, so lookup finds exactly the stored pairs. */
  lemma LookupFindsStored(t: Table, key: int, value: int)
    requires WellFormed(t)
    ensures LookupSpec(t, key).1 == Some(value) <==> Stored(t.slots, key, value)
  {
    var s := t.slots;
    var (i1, i2) := CuckooIndices(key);
    if LookupSpec(t, key).1 == Some(value) {
      assert s[i1] == Occupied(key, value) || s[i2] == Occupied(key, value);
    }
    if Stored(s, key, value) {
      var j :| 0 <= j < |s| && s[j] == Occupied(key, value);
      assert PlacedAt(s, j) && Apart(s, i1, j);
    }
  }

  /** With no candidate holding the key, the table holds it nowhere. */
  lemma NoHolderAbsent(t: Table, key: int)
    requires WellFormed(t) && Holder(t.slots, key).None?
    ensures Absent(t.slots, key)
  {
    forall j | 0 <= j < CAPACITY && t.slots[j].Occupied?
      ensures t.slots[j].key != key
    {
      assert PlacedAt(t.slots, j);
    }
  }

  lemma InsertKeepsWellFormed(t: Table, key: int, value: int)
    requires WellFormed(t)
    ensures WellFormed(InsertSpec(t, key, value).0)
  {
    var s := t.slots;
    var (i1, i2) := CuckooIndices(key);
    var t' := InsertSpec(t, key, value).0;
    match Holder(s, key)
    case Some(i) =>
      assert t'.slots == s[i := Occupied(key, value)];
      CountUpdate(s, i, t'.slots[i], IsOccupied);
      forall j | 0 <= j < |s| && j != i && s[j].Occupied?
        ensures s[j].key != key
      {
        assert Apart(s, i, j);
      }
      WriteKeepsLayout(s, i, key, value);
    case None =>
      NoHolderAbsent(t, key);
      if !s[i1].Occupied? {
        assert t'.slots == s[i1 := Occupied(key, value)];
        CountUpdate(s, i1, Occupied(key, value), IsOccupied);
        WriteKeepsLayout(s, i1, key, value);
      } else if !s[i2].Occupied? {
        assert t'.slots == s[i2 := Occupied(key, value)];
        CountUpdate(s, i2, Occupied(key, value), IsOccupied);
        WriteKeepsLayout(s, i2, key, value);
      } else {
        DisplaceOccupancy(s, 0, i1, key, value);
        DisplaceKeepsLayout(s, 0, i1, key, value);
      }
  }

  /**
   * A present key keeps `size`; a new key grows it by one even when the
   * cycle fails, and only a failure counts a failed insert. Occupancy grows
   * by one exactly for a new key that was placed.
   */
  lemma InsertCounts(t: Table, key: int, value: int)
    requires WellFormed(t)
    ensures var (t', r) := InsertSpec(t, key, value);
            var present := LookupSpec(t, key).1.Some?;
            t'.size == t.size + (if present then 0 else 1) &&
            t'.failedInserts == t.failedInserts + (if r.success then 0 else 1) &&
            Count(t'.slots, IsOccupied) == Count(t.slots, IsOccupied) + (if present || !r.success then 0 else 1) &&
            (present ==> r.success && r.displacement == 0)
  {
    InsertKeepsWellFormed(t, key, value);
  }

  /**
   * A successful insert holds every old pair with another key, plus the new
   * pair; a failed one holds all old pairs and the new one but a single
   * dropped pair.
   */
  lemma InsertPairs(t: Table, key: int, value: int)
    requires WellFormed(t)
    ensures var (t', r) := InsertSpec(t, key, value);
            (r.success ==> exists u: multiset<(int, int)> :: (forall p :: p in u ==> p.0 == key) &&
                                       Pairs(t'.slots) + u == Pairs(t.slots) + multiset{(key, value)}) &&
            (!r.success ==> exists p :: Pairs(t'.slots) + multiset{p} == Pairs(t.slots) + multiset{(key, value)})
  {
    var s := t.slots;
    var (i1, i2) := CuckooIndices(key);
    var t' := InsertSpec(t, key, value).0;
    match Holder(s, key)
    case Some(i) =>
      PairsUpdate(s, i, t'.slots[i]);
      assert Pairs(t'.slots) + PairOf(s[i]) == Pairs(s) + multiset{(key, value)};
    case None =>
      if !s[i1].Occupied? {
        PairsUpdate(s, i1, Occupied(key, value));
        assert Pairs(t'.slots) + multiset{} == Pairs(s) + multiset{(key, value)};
      } else if !s[i2].Occupied? {
        PairsUpdate(s, i2, Occupied(key, value));
        assert Pairs(t'.slots) + multiset{} == Pairs(s) + multiset{(key, value)};
      } else {
        DisplacePairs(s, 0, i1, key, value);
        match Displace(s, 0, i1, key, value)
        case Placed(s', _) =>
          assert Lost(Placed(s', 0)) == multiset{};
        case Dropped(s', k, v) =>
          assert Lost(Dropped(s', k, v)) == multiset{(k, v)};
      }
  }

  /** A successful insert leaves the pair in the table. */
  lemma InsertStores(t: Table, key: int, value: int)
    requires WellFormed(t)
    ensures var (t', r) := InsertSpec(t, key, value);
            r.success ==> Stored(t'.slots, key, value)
  {
    var s := t.slots;
    var (i1, i2) := CuckooIndices(key);
    var (t', r) := InsertSpec(t, key, value);
    match Holder(s, key)
    case Some(i) =>
      assert t'.slots[i] == Occupied(key, value);
    case None =>
      if !s[i1].Occupied? {
        assert t'.slots[i1] == Occupied(key, value);
      } else if !s[i2].Occupied? {
        assert t'.slots[i2] == Occupied(key, value);
      } else if r.success {
        DisplacePairs(s, 0, i1, key, value);
        var c := Displace(s, 0, i1, key, value);
        assert Lost(c) == multiset{};
        assert (key, value) in Pairs(c.slots) + Lost(c);
        PairsStored(c.slots, key, value);
      }
  }

  /**
   * Tables whose pairs differ only in pairs with `key` give the same value
   * for every other key.
   */
  lemma SamePairsForOthers(t: Table, t': Table, u: multiset<(int, int)>, key: int, value: int,
                           other: int, v: int)
    requires WellFormed(t) && WellFormed(t') && other != key
    requires forall p :: p in u ==> p.0 == key
    requires Pairs(t'.slots) + u == Pairs(t.slots) + multiset{(key, value)}
    ensures LookupSpec(t', other).1 == Some(v) <==> LookupSpec(t, other).1 == Some(v)
  {
    LookupFindsStored(t', other, v);
    LookupFindsStored(t, other, v);
    PairsStored(t'.slots, other, v);
    PairsStored(t.slots, other, v);
    assert (other, v) in Pairs(t'.slots) + u <==> (other, v) in Pairs(t.slots) + multiset{(key, value)};
  }

  /** After a successful insert the key maps to the new value and every other key is unchanged. */
  lemma InsertThenLookup(t: Table, key: int, value: int, other: int)
    requires WellFormed(t)
    ensures var (t', r) := InsertSpec(t, key, value);
            r.success ==> LookupSpec(t', key).1 == Some(value) &&
                          (other != key ==> LookupSpec(t', other).1 == LookupSpec(t, other).1)
  {
    var (t', r) := InsertSpec(t, key, value);
    if r.success {
      InsertKeepsWellFormed(t, key, value);
      InsertPairs(t, key, value);
      var u: multiset<(int, int)> :| (forall p :: p in u ==> p.0 == key) &&
               Pairs(t'.slots) + u == Pairs(t.slots) + multiset{(key, value)};
      InsertStores(t, key, value);
      LookupFindsStored(t', key, value);
      if other != key {
        var a, b := LookupSpec(t', other).1, LookupSpec(t, other).1;
        if a.Some? {
          SamePairsForOthers(t, t', u, key, value, other, a.value);
        }
        if b.Some? {
          SamePairsForOthers(t, t', u, key, value, other, b.value);
        }
      }
    }
  }

  lemma DeleteKeepsWellFormed(t: Table, key: int)
    requires WellFormed(t)
    ensures WellFormed(DeleteSpec(t, key).0)
  {
    var s := t.slots;
    var (i1, i2) := CuckooIndices(key);
    if s[i1].Occupied? && s[i1].key == key {
      CountUpdate(s, i1, Empty, IsOccupied);
      ClearKeepsLayout(s, i1);
    } else if s[i2].Occupied? && s[i2].key == key {
      CountUpdate(s, i2, Empty, IsOccupied);
      ClearKeepsLayout(s, i2);
    }
  }

  /**
   * After delete the key is gone, and a lookup of any other key gives the
   * same answer, probe count included: only the deleted key's slot changed.
   */
  lemma DeleteThenLookup(t: Table, key: int, other: int)
    requires WellFormed(t)
    ensures LookupSpec(DeleteSpec(t, key).0, key).1 == None
    ensures other != key ==> LookupSpec(DeleteSpec(t, key).0, other) == LookupSpec(t, other)
  {
    var s := t.slots;
    var (i1, i2) := CuckooIndices(key);
    var s' := DeleteSpec(t, key).0.slots;
    if s[i1].Occupied? && s[i1].key == key {
      assert s' == s[i1 := Empty];
      assert Apart(s, i1, i2);
    } else if s[i2].Occupied? && s[i2].key == key {
      assert s' == s[i2 := Empty];
    }
  }

  /** A successful delete removes one pair with the key; a failed one changes nothing. */
  lemma DeleteRemovesPair(t: Table, key: int)
    requires WellFormed(t)
    ensures var (t', r) := DeleteSpec(t, key);
            (r.success ==> t'.size == t.size - 1 &&
                           exists v :: Pairs(t'.slots) + multiset{(key, v)} == Pairs(t.slots)) &&
            (!r.success ==> t' == t)
  {
    var s := t.slots;
    var (i1, i2) := CuckooIndices(key);
    if s[i1].Occupied? && s[i1].key == key {
      PairsUpdate(s, i1, Empty);
      assert Pairs(s[i1 := Empty]) + multiset{(key, s[i1].value)} == Pairs(s);
    } else if s[i2].Occupied? && s[i2].key == key {
      PairsUpdate(s, i2, Empty);
      assert Pairs(s[i2 := Empty]) + multiset{(key, s[i2].value)} == Pairs(s);
    }
  }

  // ---------------------------------------------------------------------
  // The table as the source keeps it

  class CuckooMap {
    const table: array<Slot>
    var size: int
    var failedInserts: int

    ghost function Model(): Table
      reads this, table
    {
      Table(table[..], size, failedInserts)
    }

    ghost predicate Valid()
      reads this, table
    {
      WellFormed(Model())
    }

    constructor ()
      ensures Valid() && fresh(table)
      ensures Model() == EmptyTable()
    {
      table := new Slot[CAPACITY](_ => Empty);
      size := 0;
      failedInserts := 0;
      new;
      assert table[..] == EmptyTable().slots;
      EmptyTableWellFormed();
    }

    method Insert(key: int, value: int) returns (r: OpResult)
      requires Valid()
      modifies this, table
      ensures Valid()
      ensures (Model(), r) == InsertSpec(old(Model()), key, value)
    {
      ghost var t := Model();
      ghost var spec := InsertSpec(t, key, value);
      r := NO_RESULT;
      var (i1, i2) := CuckooIndices(key);
      if table[i1].Occupied? && table[i1].key == key {
        table[i1] := table[i1].(value := value);
        r := r.(success := true);
        assert spec == (Model(), r);
        InsertKeepsWellFormed(t, key, value);
        return;
      }
      if table[i2].Occupied? && table[i2].key == key {
        table[i2] := table[i2].(value := value);
        r := r.(success := true);
        assert spec == (Model(), r);
        InsertKeepsWellFormed(t, key, value);
        return;
      }
      if !table[i1].Occupied? {
        table[i1] := Occupied(key, value);
        size := size + 1;
        r := r.(success := true);
        assert spec == (Model(), r);
        InsertKeepsWellFormed(t, key, value);
        return;
      }
      if !table[i2].Occupied? {
        table[i2] := Occupied(key, value);
        size := size + 1;
        r := r.(success := true);
        assert spec == (Model(), r);
        InsertKeepsWellFormed(t, key, value);
        return;
      }
      assert spec == DisplaceResult(t, Displace(t.slots, 0, i1, key, value));
      r := Displacement(key, value, i1);
      InsertKeepsWellFormed(t, key, value);
    }

    /**
     * The displacement cycle of `Insert`, entered when both candidate slots
     * hold other keys: `(key, value)` is carried from the slot `start` on.
     */
    method Displacement(key: int, value: int, start: nat) returns (r: OpResult)
      requires table.Length == CAPACITY && start < CAPACITY && table[start].Occupied?
      modifies this, table
      ensures (Model(), r) == DisplaceResult(old(Model()), Displace(old(table[..]), 0, start, key, value))
    {
      ghost var t := Model();
      ghost var cycle := Displace(t.slots, 0, start, key, value);
      r := NO_RESULT;
      var currentKey, currentValue := key, value;
      var currentIndex: nat := start;
      for displacement := 0 to MAX_DISPLACEMENTS
        invariant r == OpResult(false, 0, displacement)
        invariant currentIndex < CAPACITY && table[currentIndex].Occupied?
        invariant failedInserts == t.failedInserts
        invariant size == if displacement == 0 then t.size else t.size + 1
        invariant displacement < MAX_DISPLACEMENTS ==>
                    Displace(table[..], displacement, currentIndex, currentKey, currentValue) == cycle
        invariant displacement == MAX_DISPLACEMENTS ==>
                    cycle == Dropped(table[..], currentKey, currentValue)
      {
        ghost var s := table[..];
        ghost var s1 := s[currentIndex := Occupied(currentKey, currentValue)];
        DisplaceUnfold(s, displacement, currentIndex, currentKey, currentValue);
        r := r.(displacement := r.displacement + 1);
        var evictedKey, evictedValue := table[currentIndex].key, table[currentIndex].value;
        table[currentIndex] := Occupied(currentKey, currentValue);
        assert table[..] == s1;
        if displacement == 0 {
          size := size + 1;
        }
        var nextIndex := Alternate(evictedKey, currentIndex);
        if !table[nextIndex].Occupied? {
          table[nextIndex] := Occupied(evictedKey, evictedValue);
          r := r.(success := true);
          assert cycle == Placed(table[..], displacement + 1);
          return;
        }
        currentKey, currentValue, currentIndex := evictedKey, evictedValue, nextIndex;
      }
      failedInserts := failedInserts + 1;
    }

    method Lookup(key: int) returns (r: OpResult, v: Option<int>)
      requires table.Length == CAPACITY
      ensures (r, v) == LookupSpec(Model(), key)
    {
      r := NO_RESULT;
      var (i1, i2) := CuckooIndices(key);
      r := r.(probeCount := r.probeCount + 1);
      if table[i1].Occupied? && table[i1].key == key {
        r := r.(success := true);
        return r, Some(table[i1].value);
      }
      r := r.(probeCount := r.probeCount + 1);
      if table[i2].Occupied? && table[i2].key == key {
        r := r.(success := true);
        return r, Some(table[i2].value);
      }
      v := None;
    }

    method Delete(key: int) returns (r: OpResult)
      requires Valid()
      modifies this, table
      ensures Valid()
      ensures (Model(), r) == DeleteSpec(old(Model()), key)
    {
      ghost var t := Model();
      r := NO_RESULT;
      var (i1, i2) := CuckooIndices(key);
      r := r.(probeCount := r.probeCount + 1);
      if table[i1].Occupied? && table[i1].key == key {
        table[i1] := Empty;
        size := size - 1;
        r := r.(success := true);
        DeleteKeepsWellFormed(t, key);
        return;
      }
      r := r.(probeCount := r.probeCount + 1);
      if table[i2].Occupied? && table[i2].key == key {
        table[i2] := Empty;
        size := size - 1;
        r := r.(success := true);
        DeleteKeepsWellFormed(t, key);
        return;
      }
    }

    /** `size / capacity`; failed inserts keep counting towards it. */
    function LoadFactor(): (f: real)
      reads this, table
      requires Valid()
      ensures f * CAPACITY as real == (Count(table[..], IsOccupied) + failedInserts) as real
    {
      size as real / CAPACITY as real
    }

    function GetFailedInserts(): (n: int)
      reads this, table
      requires Valid()
      ensures 0 <= n && n == size - Count(table[..], IsOccupied)
    {
      failedInserts
    }
  }
}
