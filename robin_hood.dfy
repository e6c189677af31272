/**
 * Robin Hood hashing: open addressing in which every Occupied slot records
 * its distance from its key's home slot (its `dib`). An insert that meets a
 * resident closer to home than itself takes the slot and carries the
 * resident on; lookup and delete stop early when they meet a resident
 * closer to home than the probe. Deletion writes tombstones.
 *
 * `InsertLoop` states the insert loop step by step on a sequence of slots;
 * `InsertSpec`, `LookupSpec` and `DeleteSpec` lift it to table values; the
 * class `RobinHoodMap` runs the loops over an array and is proved to agree.
 */
module RobinHood {
  import opened Common
  import opened Counting

  datatype Slot = Empty | Tombstone | Occupied(key: int, value: int, dib: nat)

  predicate IsOccupied(e: Slot) { e.Occupied? }
  predicate IsTombstone(e: Slot) { e.Tombstone? }

  datatype Table = Table(slots: seq<Slot>, size: int, tombstones: int)

  /** `size` counts the Occupied slots and `tombstones` the Tombstone slots. */
  predicate WellFormed(t: Table)
  {
    |t.slots| == CAPACITY &&
    t.size == Count(t.slots, IsOccupied) &&
    t.tombstones == Count(t.slots, IsTombstone)
  }

  function EmptyTable(): Table
  {
    Table(seq(CAPACITY, _ => Empty), 0, 0)
  }

  /** Every Occupied slot lies exactly `dib` steps along its key's probe path. */
  predicate DibsExact(s: seq<Slot>)
  {
    forall i :: 0 <= i < |s| ==> DibExact(s, i)
  }

  predicate DibExact(s: seq<Slot>, i: nat)
    requires i < |s|
  {
    s[i].Occupied? ==> s[i].dib < CAPACITY && ProbeSlot(GetIndex(s[i].key), s[i].dib) == i
  }

  /** Some slot is Empty or a Tombstone. */
  predicate HasFree(s: seq<Slot>)
  {
    exists i :: 0 <= i < |s| && !s[i].Occupied?
  }

  /** Some slot at offset `j` or later on the probe path from `home` is not Occupied. */
  predicate FreeAhead(s: seq<Slot>, home: nat, j: nat)
    requires |s| == CAPACITY
  {
    exists i :: j <= i < CAPACITY && !s[ProbeSlot(home, i)].Occupied?
  }

  lemma HasFreeAhead(s: seq<Slot>, home: nat)
    requires |s| == CAPACITY && home < CAPACITY && HasFree(s)
    ensures FreeAhead(s, home, 0)
  {
    var i :| 0 <= i < |s| && !s[i].Occupied?;
    var d := Distance(home, i);
    assert !s[ProbeSlot(home, d)].Occupied?;
  }

  /** Overwriting the Occupied slot at offset `j` with an Occupied slot keeps a free slot further on. */
  lemma FreeAheadStep(s: seq<Slot>, home: nat, j: nat, x: Slot)
    requires |s| == CAPACITY && home < CAPACITY && FreeAhead(s, home, j)
    requires s[ProbeSlot(home, j)].Occupied? && x.Occupied?
    ensures FreeAhead(s[ProbeSlot(home, j) := x], home, j + 1)
  {
    var i :| j <= i < CAPACITY && !s[ProbeSlot(home, i)].Occupied?;
    ProbeSlotInjective(home, i, j);
    assert !s[ProbeSlot(home, j) := x][ProbeSlot(home, i)].Occupied?;
  }

  // ---------------------------------------------------------------------
  // Insert

  /** The entry the insert loop is currently trying to place. */
  datatype Carry = Carry(key: int, value: int, dib: nat)

  /** How the insert loop ends: the slots it leaves and the probes it made. */
  datatype Outcome =
    | Placed(slots: seq<Slot>, probes: nat, wasTombstone: bool)
      // the carried entry went into an Empty or Tombstone slot
    | Updated(slots: seq<Slot>, probes: nat, replaced: (int, int))
      // a resident with the carried key got the carried value; `replaced` is its old pair

  /**
   * The insert loop from probe offset `j` with `c` in hand: a free slot
   * takes `c`; a resident with `c`'s key gets `c`'s value; a resident
   * with a smaller dib is swapped out and carried on; otherwise the probe
   * moves on with `c`'s dib one higher.
   */
  function InsertLoop(s: seq<Slot>, home: nat, j: nat, c: Carry): (r: Outcome)
    requires |s| == CAPACITY && home < CAPACITY && FreeAhead(s, home, j)
    decreases CAPACITY - j
    ensures |r.slots| == CAPACITY
    ensures j < r.probes <= CAPACITY
  {
    var p := ProbeSlot(home, j);
    var e := s[p];
    if !e.Occupied? then
      Placed(s[p := Occupied(c.key, c.value, c.dib)], j + 1, e.Tombstone?)
    else if e.key == c.key then
      Updated(s[p := e.(value := c.value)], j + 1, (e.key, e.value))
    else if c.dib > e.dib then
      var x := Occupied(c.key, c.value, c.dib);
      FreeAheadStep(s, home, j, x);
      InsertLoop(s[p := x], home, j + 1, Carry(e.key, e.value, e.dib + 1))
    else
      FreeAheadStep(s, home, j, e);
      assert s[p := e] == s;
      InsertLoop(s, home, j + 1, c.(dib := c.dib + 1))
  }

  /**
   * Insert of `key` into a table with a free slot. The source's loop only
   * gives up after a full wrap with a carried dib of at least the capacity;
   * with a free slot that exit is never taken.
   */
  function InsertSpec(t: Table, key: int, value: int): (r: (Table, OpResult))
    requires |t.slots| == CAPACITY && HasFree(t.slots)
    ensures |r.0.slots| == CAPACITY
    ensures r.1.success && 1 <= r.1.probeCount <= CAPACITY && r.1.displacement == 0
    ensures r.0.size == t.size || r.0.size == t.size + 1
  {
    var home := GetIndex(key);
    HasFreeAhead(t.slots, home);
    InsertResult(t, InsertLoop(t.slots, home, 0, Carry(key, value, 0)))
  }

  /** The table and report an insert leaves once its loop ends with `o`. */
  function InsertResult(t: Table, o: Outcome): (Table, OpResult)
  {
    match o
    case Placed(s, probes, wasTombstone) =>
      var tombstones := if wasTombstone then t.tombstones - 1 else t.tombstones;
      (Table(s, t.size + 1, tombstones), OpResult(true, probes, 0))
    case Updated(s, probes, _) =>
      (Table(s, t.size, t.tombstones), OpResult(true, probes, 0))
  }

  /** Multiset of the key/value pairs held by the Occupied slots. */
  function Pairs(s: seq<Slot>): multiset<(int, int)>
  {
    if s == [] then multiset{} else Pairs(s[..|s| - 1]) + PairOf(s[|s| - 1])
  }

  function PairOf(e: Slot): multiset<(int, int)>
  {
    if e.Occupied? then multiset{(e.key, e.value)} else multiset{}
  }

  /** The keys held by the Occupied slots. */
  function Keys(s: seq<Slot>): set<int>
  {
    KeysOf(Pairs(s))
  }

  function KeysOf(m: multiset<(int, int)>): set<int>
  {
    set pr | pr in m :: pr.0
  }

  lemma KeysOfAdd(m: multiset<(int, int)>, pr: (int, int))
    ensures KeysOf(m + multiset{pr}) == KeysOf(m) + {pr.0}
  {
  }

  lemma UnionShift<T>(a: multiset<T>, b: multiset<T>, u: multiset<T>, v: multiset<T>, w: multiset<T>)
    requires a + u == b + v
    ensures a + w + u == b + w + v
  {
    assert a + w + u == (a + u) + w;
    assert b + w + v == (b + v) + w;
  }

  lemma {:induction false} PairsUpdate(s: seq<Slot>, i: nat, x: Slot)
    requires i < |s|
    ensures Pairs(s[i := x]) + PairOf(s[i]) == Pairs(s) + PairOf(x)
  {
    var n := |s| - 1;
    var t := s[i := x];
    assert Pairs(s) == Pairs(s[..n]) + PairOf(s[n]);
    assert Pairs(t) == Pairs(t[..n]) + PairOf(t[n]);
    if i < n {
      assert t[..n] == s[..n][i := x];
      PairsUpdate(s[..n], i, x);
      UnionShift(Pairs(t[..n]), Pairs(s[..n]), PairOf(s[i]), PairOf(x), PairOf(s[n]));
    } else {
      assert t[..n] == s[..n];
      UnionShift(Pairs(s[..n]) + PairOf(x), Pairs(s[..n]) + PairOf(s[n]), PairOf(s[n]), PairOf(x), multiset{});
    }
  }

  lemma {:induction false} PairsHoldSlot(s: seq<Slot>, i: nat)
    requires i < |s| && s[i].Occupied?
    ensures (s[i].key, s[i].value) in Pairs(s)
  {
    var n := |s| - 1;
    if i < n {
      assert s[..n][i] == s[i];
      PairsHoldSlot(s[..n], i);
    }
  }

  /** The slot that holds the carried entry. */
  function Held(c: Carry): Slot
  {
    Occupied(c.key, c.value, c.dib)
  }

  /** A resident swapped out becomes the carried entry, one step further from home. */
  function Evicted(e: Slot): Carry
    requires e.Occupied?
  {
    Carry(e.key, e.value, e.dib + 1)
  }

  /** One iteration of the insert loop, case by case. */
  lemma InsertLoopStep(s: seq<Slot>, home: nat, j: nat, c: Carry)
    requires |s| == CAPACITY && home < CAPACITY && FreeAhead(s, home, j)
    ensures j < CAPACITY
    ensures var p := ProbeSlot(home, j);
            var e := s[p];
            var r := InsertLoop(s, home, j, c);
            && (!e.Occupied? ==> r == Placed(s[p := Held(c)], j + 1, e.Tombstone?))
            && (e.Occupied? && e.key == c.key ==>
                  r == Updated(s[p := e.(value := c.value)], j + 1, (e.key, e.value)))
            && (e.Occupied? && e.key != c.key && c.dib > e.dib ==>
                  FreeAhead(s[p := Held(c)], home, j + 1) &&
                  r == InsertLoop(s[p := Held(c)], home, j + 1, Evicted(e)))
            && (e.Occupied? && e.key != c.key && c.dib <= e.dib ==>
                  FreeAhead(s, home, j + 1) &&
                  r == InsertLoop(s, home, j + 1, c.(dib := c.dib + 1)))
  {
    var e := s[ProbeSlot(home, j)];
    if !e.Occupied? || e.key == c.key {
      InsertLoopEnds(s, home, j, c);
    } else {
      InsertLoopMoves(s, home, j, c);
    }
  }

  /** An iteration of the insert loop that ends it: the carried entry lands in a free slot or updates its key's slot. */
  lemma InsertLoopEnds(s: seq<Slot>, home: nat, j: nat, c: Carry)
    requires |s| == CAPACITY && home < CAPACITY && FreeAhead(s, home, j)
    requires var e := s[ProbeSlot(home, j)]; !e.Occupied? || e.key == c.key
    ensures var p := ProbeSlot(home, j);
            var e := s[p];
            InsertLoop(s, home, j, c) ==
              if !e.Occupied? then Placed(s[p := Held(c)], j + 1, e.Tombstone?)
              else Updated(s[p := e.(value := c.value)], j + 1, (e.key, e.value))
  {
  }

  /** The loop stops at a free slot and places the carried entry there. */
  lemma InsertLoopPlaces(s: seq<Slot>, home: nat, j: nat, c: Carry)
    requires |s| == CAPACITY && home < CAPACITY && FreeAhead(s, home, j)
    requires !s[ProbeSlot(home, j)].Occupied?
    ensures var p := ProbeSlot(home, j);
            InsertLoop(s, home, j, c) == Placed(s[p := Held(c)], j + 1, s[p].Tombstone?)
  {
    InsertLoopEnds(s, home, j, c);
  }

  /** The loop stops at the slot holding the carried key and rewrites its value. */
  lemma InsertLoopUpdates(s: seq<Slot>, home: nat, j: nat, c: Carry)
    requires |s| == CAPACITY && home < CAPACITY && FreeAhead(s, home, j)
    requires var e := s[ProbeSlot(home, j)]; e.Occupied? && e.key == c.key
    ensures var p := ProbeSlot(home, j);
            var e := s[p];
            InsertLoop(s, home, j, c) == Updated(s[p := e.(value := c.value)], j + 1, (e.key, e.value))
  {
    InsertLoopEnds(s, home, j, c);
  }

  /** An iteration of the insert loop that moves on, with the resident swapped out or the carried dib raised. */
  lemma InsertLoopMoves(s: seq<Slot>, home: nat, j: nat, c: Carry)
    requires |s| == CAPACITY && home < CAPACITY && FreeAhead(s, home, j)
    requires var e := s[ProbeSlot(home, j)]; e.Occupied? && e.key != c.key
    ensures var p := ProbeSlot(home, j);
            var e := s[p];
            var s1 := if c.dib > e.dib then s[p := Held(c)] else s;
            var c1 := if c.dib > e.dib then Evicted(e) else c.(dib := c.dib + 1);
            FreeAhead(s1, home, j + 1) && InsertLoop(s, home, j, c) == InsertLoop(s1, home, j + 1, c1)
  {
    var p := ProbeSlot(home, j);
    FreeAheadStep(s, home, j, Held(c));
    FreeAheadStep(s, home, j, s[p]);
    assert s[p := s[p]] == s;
  }

  /** A resident closer to home than the carried entry is swapped out. */
  lemma InsertLoopSwaps(s: seq<Slot>, home: nat, j: nat, c: Carry)
    requires |s| == CAPACITY && home < CAPACITY && FreeAhead(s, home, j)
    requires var e := s[ProbeSlot(home, j)]; e.Occupied? && e.key != c.key && c.dib > e.dib
    ensures var p := ProbeSlot(home, j);
            FreeAhead(s[p := Held(c)], home, j + 1) &&
            InsertLoop(s, home, j, c) == InsertLoop(s[p := Held(c)], home, j + 1, Evicted(s[p]))
  {
    InsertLoopMoves(s, home, j, c);
  }

  /** A resident at least as far from home as the carried entry stays, and the carried dib grows. */
  lemma InsertLoopPasses(s: seq<Slot>, home: nat, j: nat, c: Carry)
    requires |s| == CAPACITY && home < CAPACITY && FreeAhead(s, home, j)
    requires var e := s[ProbeSlot(home, j)]; e.Occupied? && e.key != c.key && c.dib <= e.dib
    ensures FreeAhead(s, home, j + 1) &&
            InsertLoop(s, home, j, c) == InsertLoop(s, home, j + 1, c.(dib := c.dib + 1))
  {
    InsertLoopMoves(s, home, j, c);
  }

  /** Counters: a placement adds one Occupied slot, perhaps in place of a Tombstone; an update adds nothing. */
  lemma {:induction false} InsertLoopCounts(s: seq<Slot>, home: nat, j: nat, c: Carry)
    requires |s| == CAPACITY && home < CAPACITY && FreeAhead(s, home, j)
    decreases CAPACITY - j
    ensures var r := InsertLoop(s, home, j, c);
            && Count(r.slots, IsOccupied) == Count(s, IsOccupied) + (if r.Placed? then 1 else 0)
            && Count(r.slots, IsTombstone) ==
               Count(s, IsTombstone) - (if r.Placed? && r.wasTombstone then 1 else 0)
  {
    InsertLoopStep(s, home, j, c);
    var p := ProbeSlot(home, j);
    var e := s[p];
    var r := InsertLoop(s, home, j, c);
    var occupied, tombstones := Count(s, IsOccupied), Count(s, IsTombstone);
    if !e.Occupied? {
      assert r == Placed(s[p := Held(c)], j + 1, e.Tombstone?);
      CountUpdate(s, p, Held(c), IsOccupied);
      CountUpdate(s, p, Held(c), IsTombstone);
      assert Count(r.slots, IsOccupied) == occupied + 1;
      assert Count(r.slots, IsTombstone) == tombstones - (if e.Tombstone? then 1 else 0);
    } else if e.key == c.key {
      var y := e.(value := c.value);
      assert r == Updated(s[p := y], j + 1, (e.key, e.value));
      CountUpdate(s, p, y, IsOccupied);
      CountUpdate(s, p, y, IsTombstone);
      assert Count(r.slots, IsOccupied) == occupied && Count(r.slots, IsTombstone) == tombstones;
    } else if c.dib > e.dib {
      var s1 := s[p := Held(c)];
      assert r == InsertLoop(s1, home, j + 1, Evicted(e));
      CountUpdate(s, p, Held(c), IsOccupied);
      CountUpdate(s, p, Held(c), IsTombstone);
      assert Count(s1, IsOccupied) == occupied && Count(s1, IsTombstone) == tombstones;
      InsertLoopCounts(s1, home, j + 1, Evicted(e));
    } else {
      var c1 := c.(dib := c.dib + 1);
      assert r == InsertLoop(s, home, j + 1, c1);
      InsertLoopCounts(s, home, j + 1, c1);
    }
  }

  /** The pair an update overwrote, if any. */
  function Overwritten(r: Outcome): multiset<(int, int)>
  {
    if r.Updated? then multiset{r.replaced} else multiset{}
  }

  /**
   * No pair is lost: a placement adds the carried pair to the table; an
   * update trades the resident's old pair for the carried one.
   */
  lemma {:induction false} InsertLoopPairs(s: seq<Slot>, home: nat, j: nat, c: Carry)
    requires |s| == CAPACITY && home < CAPACITY && FreeAhead(s, home, j)
    decreases CAPACITY - j
    ensures var r := InsertLoop(s, home, j, c);
            Pairs(r.slots) + Overwritten(r) == Pairs(s) + multiset{(c.key, c.value)}
  {
    InsertLoopStep(s, home, j, c);
    var p := ProbeSlot(home, j);
    var e := s[p];
    var r := InsertLoop(s, home, j, c);
    var added := multiset{(c.key, c.value)};
    if !e.Occupied? {
      assert r == Placed(s[p := Held(c)], j + 1, e.Tombstone?);
      PairsUpdate(s, p, Held(c));
      assert Overwritten(r) == PairOf(e) == multiset{};
      assert Pairs(r.slots) + Overwritten(r) == Pairs(s) + added;
    } else if e.key == c.key {
      var y := e.(value := c.value);
      assert r == Updated(s[p := y], j + 1, (e.key, e.value));
      PairsUpdate(s, p, y);
      assert Overwritten(r) == PairOf(e) && PairOf(y) == added;
      assert Pairs(r.slots) + Overwritten(r) == Pairs(s) + added;
    } else if c.dib > e.dib {
      var s1 := s[p := Held(c)];
      assert r == InsertLoop(s1, home, j + 1, Evicted(e));
      InsertLoopPairs(s1, home, j + 1, Evicted(e));
      PairsUpdate(s, p, Held(c));
      assert PairOf(e) == multiset{(e.key, e.value)} && PairOf(Held(c)) == added;
      assert Pairs(r.slots) + Overwritten(r) == Pairs(s1) + PairOf(e);
      assert Pairs(r.slots) + Overwritten(r) == Pairs(s) + added;
    } else {
      var c1 := c.(dib := c.dib + 1);
      assert r == InsertLoop(s, home, j + 1, c1);
      InsertLoopPairs(s, home, j + 1, c1);
      assert Pairs(r.slots) + Overwritten(r) == Pairs(s) + multiset{(c1.key, c1.value)};
    }
  }

  /** Writing a slot whose dib is exact, or a slot that is not Occupied, keeps the dib invariant. */
  lemma DibsExactUpdate(s: seq<Slot>, p: nat, x: Slot)
    requires DibsExact(s) && p < |s|
    requires x.Occupied? ==> x.dib < CAPACITY && ProbeSlot(GetIndex(x.key), x.dib) == p
    ensures DibsExact(s[p := x])
  {
    var s' := s[p := x];
    forall i | 0 <= i < |s|
      ensures DibExact(s', i)
    {
      if i != p {
        assert DibExact(s, i);
      }
    }
  }

  /** The carried entry sits `c.dib` steps along its own probe path, at most `j` steps. */
  predicate CarryExact(home: nat, j: nat, c: Carry)
  {
    c.dib <= j && ProbeSlot(GetIndex(c.key), c.dib) == ProbeSlot(home, j)
  }

  /** The dib invariant survives the loop while the carried entry's dib is exact. */
  lemma {:induction false} InsertLoopDibs(s: seq<Slot>, home: nat, j: nat, c: Carry)
    requires |s| == CAPACITY && home < CAPACITY && FreeAhead(s, home, j)
    requires DibsExact(s) && CarryExact(home, j, c)
    decreases CAPACITY - j
    ensures DibsExact(InsertLoop(s, home, j, c).slots)
  {
    InsertLoopStep(s, home, j, c);
    var p := ProbeSlot(home, j);
    var e := s[p];
    var r := InsertLoop(s, home, j, c);
    if !e.Occupied? {
      assert r.slots == s[p := Held(c)];
      DibsExactUpdate(s, p, Held(c));
    } else if e.key == c.key {
      assert r.slots == s[p := e.(value := c.value)];
      assert DibExact(s, p);
      DibsExactUpdate(s, p, e.(value := c.value));
    } else {
      assert DibExact(s, p);
      if c.dib > e.dib {
        var s1 := s[p := Held(c)];
        var he := GetIndex(e.key);
        assert ProbeSlot(he, e.dib) == p;
        NextProbeSlotsAgree(he, e.dib, home, j);
        DibsExactUpdate(s, p, Held(c));
        assert CarryExact(home, j + 1, Evicted(e));
        assert r == InsertLoop(s1, home, j + 1, Evicted(e));
        InsertLoopDibs(s1, home, j + 1, Evicted(e));
      } else {
        var c1 := c.(dib := c.dib + 1);
        var hc := GetIndex(c.key);
        NextProbeSlotsAgree(hc, c.dib, home, j);
        assert CarryExact(home, j + 1, c1);
        assert r == InsertLoop(s, home, j + 1, c1);
        InsertLoopDibs(s, home, j + 1, c1);
      }
    }
  }

  /** The loop writes only at the offsets it walks: `j` up to its last probe. */
  lemma {:induction false} InsertLoopFrame(s: seq<Slot>, home: nat, j: nat, c: Carry)
    requires |s| == CAPACITY && home < CAPACITY && FreeAhead(s, home, j)
    decreases CAPACITY - j
    ensures var r := InsertLoop(s, home, j, c);
            forall i :: 0 <= i < CAPACITY && (i < j || r.probes <= i) ==>
              r.slots[ProbeSlot(home, i)] == s[ProbeSlot(home, i)]
  {
    InsertLoopStep(s, home, j, c);
    var p := ProbeSlot(home, j);
    var e := s[p];
    var r := InsertLoop(s, home, j, c);
    forall i | 0 <= i < CAPACITY && i != j
      ensures ProbeSlot(home, i) != p
    {
      ProbeSlotInjective(home, i, j);
    }
    if !e.Occupied? {
      assert r.slots == s[p := Held(c)] && r.probes == j + 1;
    } else if e.key == c.key {
      assert r.slots == s[p := e.(value := c.value)] && r.probes == j + 1;
    } else {
      var s1 := if c.dib > e.dib then s[p := Held(c)] else s;
      var c1 := if c.dib > e.dib then Evicted(e) else c.(dib := c.dib + 1);
      assert r == InsertLoop(s1, home, j + 1, c1);
      InsertLoopFrame(s1, home, j + 1, c1);
    }
  }

  /** A slot the loop has already walked past is not written again. */
  lemma InsertLoopKeepsBehind(s: seq<Slot>, home: nat, j: nat, c: Carry, i: nat)
    requires |s| == CAPACITY && home < CAPACITY && FreeAhead(s, home, j) && i < j
    ensures InsertLoop(s, home, j, c).slots[ProbeSlot(home, i)] == s[ProbeSlot(home, i)]
  {
    InsertLoopFrame(s, home, j, c);
  }

  /** Every slot the loop walks before its last one was Occupied, and stays so. */
  lemma {:induction false} InsertLoopWalked(s: seq<Slot>, home: nat, j: nat, c: Carry)
    requires |s| == CAPACITY && home < CAPACITY && FreeAhead(s, home, j)
    decreases CAPACITY - j
    ensures var r := InsertLoop(s, home, j, c);
            forall i :: j <= i < r.probes - 1 ==>
              s[ProbeSlot(home, i)].Occupied? && r.slots[ProbeSlot(home, i)].Occupied?
  {
    var p := ProbeSlot(home, j);
    var e := s[p];
    var r := InsertLoop(s, home, j, c);
    if !e.Occupied? || e.key == c.key {
      InsertLoopEnds(s, home, j, c);
      assert r.probes == j + 1;
    } else {
      var s1 := if c.dib > e.dib then s[p := Held(c)] else s;
      var c1 := if c.dib > e.dib then Evicted(e) else c.(dib := c.dib + 1);
      assert FreeAhead(s1, home, j + 1) && r == InsertLoop(s1, home, j + 1, c1) by {
        InsertLoopMoves(s, home, j, c);
      }
      InsertLoopWalked(s1, home, j + 1, c1);
      InsertLoopKeepsBehind(s1, home, j + 1, c1, j);
      assert s1[p].Occupied?;
      forall i | j <= i < r.probes - 1
        ensures s[ProbeSlot(home, i)].Occupied? && r.slots[ProbeSlot(home, i)].Occupied?
      {
        if i > j {
          ProbeSlotInjective(home, i, j);
          assert s[ProbeSlot(home, i)] == s1[ProbeSlot(home, i)];
        }
      }
    }
  }

  /**
   * The loop's last slot holds an Occupied entry: it was free when the
   * carried entry was placed there, and held the carried key when it was
   * updated.
   */
  lemma {:induction false} InsertLoopLast(s: seq<Slot>, home: nat, j: nat, c: Carry)
    requires |s| == CAPACITY && home < CAPACITY && FreeAhead(s, home, j)
    decreases CAPACITY - j
    ensures var r := InsertLoop(s, home, j, c);
            var last := ProbeSlot(home, r.probes - 1);
            && r.slots[last].Occupied?
            && (r.Placed? ==> !s[last].Occupied? && r.wasTombstone == s[last].Tombstone?)
            && (r.Updated? ==> s[last].Occupied? && r.slots[last].key == r.replaced.0)
  {
    var p := ProbeSlot(home, j);
    var e := s[p];
    var r := InsertLoop(s, home, j, c);
    if !e.Occupied? {
      InsertLoopEnds(s, home, j, c);
      assert r == Placed(s[p := Held(c)], j + 1, e.Tombstone?);
    } else if e.key == c.key {
      InsertLoopEnds(s, home, j, c);
      assert r == Updated(s[p := e.(value := c.value)], j + 1, (e.key, e.value));
    } else {
      var s1 := if c.dib > e.dib then s[p := Held(c)] else s;
      var c1 := if c.dib > e.dib then Evicted(e) else c.(dib := c.dib + 1);
      assert FreeAhead(s1, home, j + 1) && r == InsertLoop(s1, home, j + 1, c1) by {
        InsertLoopMoves(s, home, j, c);
      }
      InsertLoopLast(s1, home, j + 1, c1);
      var last := ProbeSlot(home, r.probes - 1);
      assert s1[last] == s[last] by {
        ProbeSlotInjective(home, r.probes - 1, j);
      }
    }
  }

  lemma EmptyTableWellFormed()
    ensures WellFormed(EmptyTable()) && DibsExact(EmptyTable().slots)
  {
    var s := EmptyTable().slots;
    CountNone(s, IsOccupied);
    CountNone(s, IsTombstone);
  }

  lemma CountersBounded(t: Table)
    requires WellFormed(t)
    ensures 0 <= t.size && 0 <= t.tombstones && t.size + t.tombstones <= CAPACITY
  {
    CountDisjoint(t.slots, IsOccupied, IsTombstone);
  }

  /** Insert keeps the counters exact and every dib equal to its slot's distance from home. */
  lemma InsertKeepsWellFormed(t: Table, key: int, value: int)
    requires WellFormed(t) && DibsExact(t.slots) && HasFree(t.slots)
    ensures WellFormed(InsertSpec(t, key, value).0)
    ensures DibsExact(InsertSpec(t, key, value).0.slots)
  {
    var home := GetIndex(key);
    HasFreeAhead(t.slots, home);
    InsertLoopCounts(t.slots, home, 0, Carry(key, value, 0));
    ProbeSlotStart(home);
    assert CarryExact(home, 0, Carry(key, value, 0));
    InsertLoopDibs(t.slots, home, 0, Carry(key, value, 0));
  }

  /**
   * A new key fills one free slot and adds exactly its pair; in every case
   * the keys afterwards are the keys before plus `key`.
   */
  lemma InsertKeepsPairs(t: Table, key: int, value: int)
    requires |t.slots| == CAPACITY && HasFree(t.slots)
    ensures var t' := InsertSpec(t, key, value).0;
            && (t'.size == t.size + 1 ==> Pairs(t'.slots) == Pairs(t.slots) + multiset{(key, value)})
            && Keys(t'.slots) == Keys(t.slots) + {key}
  {
    var home := GetIndex(key);
    HasFreeAhead(t.slots, home);
    var r := InsertLoop(t.slots, home, 0, Carry(key, value, 0));
    assert InsertSpec(t, key, value) == InsertResult(t, r);
    InsertLoopPairs(t.slots, home, 0, Carry(key, value, 0));
    InsertLoopKeys(t.slots, home, 0, Carry(key, value, 0));
  }

  /** The keys after the loop are the keys before it plus the carried key. */
  lemma InsertLoopKeys(s: seq<Slot>, home: nat, j: nat, c: Carry)
    requires |s| == CAPACITY && home < CAPACITY && FreeAhead(s, home, j)
    ensures Keys(InsertLoop(s, home, j, c).slots) == Keys(s) + {c.key}
  {
    var r := InsertLoop(s, home, j, c);
    var added := multiset{(c.key, c.value)};
    assert Pairs(r.slots) + Overwritten(r) == Pairs(s) + added by {
      InsertLoopPairs(s, home, j, c);
    }
    if r.Placed? {
      assert Pairs(r.slots) == Pairs(s) + added;
      KeysOfAdd(Pairs(s), (c.key, c.value));
    } else {
      var v := UpdatedValue(s, home, j, c);
      assert Pairs(r.slots) + multiset{r.replaced} == Pairs(s) + added;
      KeysOfTrade(Pairs(r.slots), Pairs(s), r.replaced, (c.key, c.value), v);
    }
  }

  /** After an update, the table still holds a pair with the overwritten key. */
  lemma UpdatedValue(s: seq<Slot>, home: nat, j: nat, c: Carry) returns (v: int)
    requires |s| == CAPACITY && home < CAPACITY && FreeAhead(s, home, j)
    requires InsertLoop(s, home, j, c).Updated?
    ensures var r := InsertLoop(s, home, j, c); (r.replaced.0, v) in Pairs(r.slots)
  {
    var r := InsertLoop(s, home, j, c);
    var last := ProbeSlot(home, r.probes - 1);
    InsertLoopLast(s, home, j, c);
    PairsHoldSlot(r.slots, last);
    v := r.slots[last].value;
  }

  /** Trading a pair for one whose key is already present leaves the keys of the other side plus the new key. */
  lemma KeysOfTrade(a: multiset<(int, int)>, b: multiset<(int, int)>, was: (int, int), now: (int, int), v: int)
    requires a + multiset{was} == b + multiset{now}
    requires (was.0, v) in a
    ensures KeysOf(a) == KeysOf(b) + {now.0}
  {
    KeysOfAdd(a, was);
    KeysOfAdd(b, now);
    assert was.0 in KeysOf(a);
  }

  /** Insert writes a free slot only when it is the first free one on the path, and then probe count is its offset + 1. */
  lemma InsertUsesFirstFree(t: Table, key: int, value: int)
    requires |t.slots| == CAPACITY && HasFree(t.slots)
    ensures var (t', r) := InsertSpec(t, key, value);
            var home := GetIndex(key);
            var last := ProbeSlot(home, r.probeCount - 1);
            && (forall i :: 0 <= i < r.probeCount - 1 ==> t.slots[ProbeSlot(home, i)].Occupied?)
            && (t'.size == t.size + 1 <==> !t.slots[last].Occupied?)
            && (t'.tombstones == t.tombstones - 1 <==> t.slots[last].Tombstone?)
            && (forall i :: r.probeCount <= i < CAPACITY ==>
                  t'.slots[ProbeSlot(home, i)] == t.slots[ProbeSlot(home, i)])
  {
    var home := GetIndex(key);
    HasFreeAhead(t.slots, home);
    InsertLoopWalked(t.slots, home, 0, Carry(key, value, 0));
    InsertLoopLast(t.slots, home, 0, Carry(key, value, 0));
    InsertLoopFrame(t.slots, home, 0, Carry(key, value, 0));
  }

  /** Insert with the key in hand claims a slot: a free one, its own, or one whose resident is closer to home. */
  predicate Claims(e: Slot, key: int, j: nat)
  {
    !e.Occupied? || e.key == key || j > e.dib
  }

  /** The first offset at or after `j` that the inserted key itself claims. */
  function ClaimOffset(s: seq<Slot>, home: nat, key: int, j: nat): (k: nat)
    requires |s| == CAPACITY && j <= CAPACITY
    decreases CAPACITY - j
    ensures j <= k <= CAPACITY
    ensures forall i :: j <= i < k ==> !Claims(s[ProbeSlot(home, i)], key, i)
    ensures k < CAPACITY ==> Claims(s[ProbeSlot(home, k)], key, k)
  {
    if j == CAPACITY then CAPACITY
    else if Claims(s[ProbeSlot(home, j)], key, j) then j
    else ClaimOffset(s, home, key, j + 1)
  }

  /** Until the key claims a slot, the loop only walks on, and the key's dib is the offset. */
  lemma {:induction false} InsertLoopSkip(s: seq<Slot>, home: nat, key: int, value: int, j: nat)
    requires |s| == CAPACITY && home < CAPACITY && FreeAhead(s, home, j)
    decreases CAPACITY - j
    ensures ClaimOffset(s, home, key, j) < CAPACITY
    ensures FreeAhead(s, home, ClaimOffset(s, home, key, j))
    ensures var k := ClaimOffset(s, home, key, j);
            InsertLoop(s, home, j, Carry(key, value, j)) == InsertLoop(s, home, k, Carry(key, value, k))
  {
    var p := ProbeSlot(home, j);
    InsertLoopStep(s, home, j, Carry(key, value, j));
    if !Claims(s[p], key, j) {
      assert InsertLoop(s, home, j, Carry(key, value, j)) ==
             InsertLoop(s, home, j + 1, Carry(key, value, j + 1));
      InsertLoopSkip(s, home, key, value, j + 1);
      assert ClaimOffset(s, home, key, j) == ClaimOffset(s, home, key, j + 1);
    } else {
      assert ClaimOffset(s, home, key, j) == j;
    }
  }

  /** Where the carried entry claims a slot, that slot ends up holding the carried pair. */
  lemma InsertLoopClaimed(s: seq<Slot>, home: nat, j: nat, c: Carry)
    requires |s| == CAPACITY && home < CAPACITY && FreeAhead(s, home, j)
    requires Claims(s[ProbeSlot(home, j)], c.key, c.dib)
    ensures var e := InsertLoop(s, home, j, c).slots[ProbeSlot(home, j)];
            e.Occupied? && e.key == c.key && e.value == c.value
  {
    InsertLoopStep(s, home, j, c);
    var p := ProbeSlot(home, j);
    var e := s[p];
    var r := InsertLoop(s, home, j, c);
    if !e.Occupied? {
      assert r.slots == s[p := Held(c)];
    } else if e.key == c.key {
      assert r.slots == s[p := e.(value := c.value)];
    } else {
      var s1 := s[p := Held(c)];
      assert r == InsertLoop(s1, home, j + 1, Evicted(e));
      InsertLoopFrame(s1, home, j + 1, Evicted(e));
      assert r.slots[p] == s1[p];
    }
  }

  // ---------------------------------------------------------------------
  // Lookup and delete

  /** Lookup and delete stop at an Empty slot, the key's slot, or a resident closer to home than offset `j`. */
  predicate SearchStops(e: Slot, key: int, j: nat)
  {
    e.Empty? || (e.Occupied? && (e.key == key || j > e.dib))
  }

  function SearchOffset(s: seq<Slot>, home: nat, key: int, j: nat): (k: nat)
    requires |s| == CAPACITY && j <= CAPACITY
    decreases CAPACITY - j
    ensures j <= k <= CAPACITY
    ensures forall i :: j <= i < k ==> !SearchStops(s[ProbeSlot(home, i)], key, i)
    ensures k < CAPACITY ==> SearchStops(s[ProbeSlot(home, k)], key, k)
  {
    if j == CAPACITY then CAPACITY
    else if SearchStops(s[ProbeSlot(home, j)], key, j) then j
    else SearchOffset(s, home, key, j + 1)
  }

  /** The search offset is the first offset at which the search stops. */
  lemma SearchOffsetIs(s: seq<Slot>, home: nat, key: int, k: nat)
    requires |s| == CAPACITY && k < CAPACITY && SearchStops(s[ProbeSlot(home, k)], key, k)
    requires forall i :: 0 <= i < k ==> !SearchStops(s[ProbeSlot(home, i)], key, i)
    ensures SearchOffset(s, home, key, 0) == k
  {
  }

  function LookupSpec(t: Table, key: int): (r: (OpResult, Option<int>))
    requires |t.slots| == CAPACITY
    ensures 1 <= r.0.probeCount <= CAPACITY && r.0.displacement == 0
    ensures r.0.success <==> r.1.Some?
    ensures r.1.Some? ==> exists i :: 0 <= i < CAPACITY && t.slots[i].Occupied? &&
                                      t.slots[i].key == key && t.slots[i].value == r.1.value
  {
    var home := GetIndex(key);
    var k := SearchOffset(t.slots, home, key, 0);
    if k == CAPACITY then
      (OpResult(false, CAPACITY, 0), None)
    else
      var e := t.slots[ProbeSlot(home, k)];
      if e.Occupied? && e.key == key then (OpResult(true, k + 1, 0), Some(e.value))
      else (OpResult(false, k + 1, 0), None)
  }

  /** Lookup's report at each way its search can stop. */
  lemma LookupSpecAt(t: Table, key: int, k: nat)
    requires |t.slots| == CAPACITY && k == SearchOffset(t.slots, GetIndex(key), key, 0)
    ensures k == CAPACITY ==> LookupSpec(t, key) == (OpResult(false, CAPACITY, 0), None)
    ensures k < CAPACITY ==>
              var e := t.slots[ProbeSlot(GetIndex(key), k)];
              LookupSpec(t, key) ==
                if e.Occupied? && e.key == key then (OpResult(true, k + 1, 0), Some(e.value))
                else (OpResult(false, k + 1, 0), None)
  {
  }

  function DeleteSpec(t: Table, key: int): (r: (Table, OpResult))
    requires |t.slots| == CAPACITY
    ensures |r.0.slots| == CAPACITY
    ensures 1 <= r.1.probeCount <= CAPACITY && r.1.displacement == 0
    ensures r.1.success == LookupSpec(t, key).0.success
    ensures !r.1.success ==> r.0 == t
  {
    var home := GetIndex(key);
    var k := SearchOffset(t.slots, home, key, 0);
    if k == CAPACITY then
      (t, OpResult(false, CAPACITY, 0))
    else
      var p := ProbeSlot(home, k);
      var e := t.slots[p];
      if e.Occupied? && e.key == key then
        (Table(t.slots[p := Tombstone], t.size - 1, t.tombstones + 1), OpResult(true, k + 1, 0))
      else
        (t, OpResult(false, k + 1, 0))
  }

  /**
   * Round trip: after insert, lookup finds the new value at the slot the
   * key claimed, with no more probes than the insert made.
   */
  lemma InsertThenLookup(t: Table, key: int, value: int)
    requires |t.slots| == CAPACITY && HasFree(t.slots)
    ensures var (t', r) := InsertSpec(t, key, value);
            var k := ClaimOffset(t.slots, GetIndex(key), key, 0);
            && LookupSpec(t', key) == (OpResult(true, k + 1, 0), Some(value))
            && k + 1 <= r.probeCount
  {
    var s := t.slots;
    var home := GetIndex(key);
    HasFreeAhead(s, home);
    ProbeSlotStart(home);
    InsertLoopSkip(s, home, key, value, 0);
    var k := ClaimOffset(s, home, key, 0);
    var c := Carry(key, value, k);
    var r := InsertLoop(s, home, k, c);
    assert r == InsertLoop(s, home, 0, Carry(key, value, 0));
    var t' := InsertSpec(t, key, value).0;
    assert t'.slots == r.slots && InsertSpec(t, key, value).1.probeCount == r.probes;
    InsertLoopClaimed(s, home, k, c);
    forall i | 0 <= i < k
      ensures !SearchStops(r.slots[ProbeSlot(home, i)], key, i)
    {
      InsertLoopKeepsBehind(s, home, k, c, i);
    }
    SearchOffsetIs(r.slots, home, key, k);
    LookupSpecAt(t', key, k);
  }

  lemma DeleteKeepsWellFormed(t: Table, key: int)
    requires WellFormed(t) && DibsExact(t.slots)
    ensures WellFormed(DeleteSpec(t, key).0)
    ensures DibsExact(DeleteSpec(t, key).0.slots)
  {
    var home := GetIndex(key);
    var k := SearchOffset(t.slots, home, key, 0);
    if k < CAPACITY {
      var p := ProbeSlot(home, k);
      CountUpdate(t.slots, p, Tombstone, IsOccupied);
      CountUpdate(t.slots, p, Tombstone, IsTombstone);
      DibsExactUpdate(t.slots, p, Tombstone);
    }
  }

  /** A delete whose search stops at the key turns that slot into a tombstone. */
  lemma DeleteSpecHit(t: Table, key: int, k: nat)
    requires |t.slots| == CAPACITY && k == SearchOffset(t.slots, GetIndex(key), key, 0)
    requires k < CAPACITY && var e := t.slots[ProbeSlot(GetIndex(key), k)]; e.Occupied? && e.key == key
    ensures var p := ProbeSlot(GetIndex(key), k);
            DeleteSpec(t, key) ==
              (Table(t.slots[p := Tombstone], t.size - 1, t.tombstones + 1), OpResult(true, k + 1, 0))
  {
  }

  /** A delete whose search stops short of the key leaves the table as it was. */
  lemma DeleteSpecMiss(t: Table, key: int, k: nat)
    requires |t.slots| == CAPACITY && k == SearchOffset(t.slots, GetIndex(key), key, 0)
    requires k < CAPACITY ==> var e := t.slots[ProbeSlot(GetIndex(key), k)];
                              !(e.Occupied? && e.key == key)
    ensures DeleteSpec(t, key) == (t, OpResult(false, if k == CAPACITY then CAPACITY else k + 1, 0))
  {
  }

  /** A successful delete takes exactly the found pair out of the table. */
  lemma DeleteRemovesPair(t: Table, key: int)
    requires |t.slots| == CAPACITY
    requires DeleteSpec(t, key).1.success
    ensures var v := LookupSpec(t, key).1.value;
            Pairs(DeleteSpec(t, key).0.slots) + multiset{(key, v)} == Pairs(t.slots)
  {
    var home := GetIndex(key);
    var p := ProbeSlot(home, SearchOffset(t.slots, home, key, 0));
    PairsUpdate(t.slots, p, Tombstone);
  }

  /** At most one Occupied slot holds any given key. */
  predicate UniqueKeys(s: seq<Slot>)
  {
    forall i, j :: 0 <= i < |s| && 0 <= j < |s| && s[i].Occupied? && s[j].Occupied? &&
      s[i].key == s[j].key
      ==> i == j
  }

  /** When no other slot holds the key, a lookup after a successful delete does not find it. */
  lemma DeleteThenLookup(t: Table, key: int)
    requires |t.slots| == CAPACITY && UniqueKeys(t.slots)
    requires DeleteSpec(t, key).1.success
    ensures DeleteSpec(t, key).0.size == t.size - 1
    ensures LookupSpec(DeleteSpec(t, key).0, key).1 == None
  {
    var home := GetIndex(key);
    var p := ProbeSlot(home, SearchOffset(t.slots, home, key, 0));
    var t' := DeleteSpec(t, key).0;
    assert t'.slots == t.slots[p := Tombstone];
    forall i | 0 <= i < CAPACITY && t'.slots[i].Occupied?
      ensures t'.slots[i].key != key
    {
      assert i != p && t'.slots[i] == t.slots[i];
    }
  }

  /** A dib recorded under the invariant is the slot's distance from its key's home. */
  lemma DibIsDistance(s: seq<Slot>, i: nat)
    requires |s| == CAPACITY && DibsExact(s) && i < CAPACITY && s[i].Occupied?
    ensures s[i].dib == Distance(GetIndex(s[i].key), i)
  {
    var h := GetIndex(s[i].key);
    assert DibExact(s, i);
    if s[i].dib != Distance(h, i) {
      ProbeSlotInjective(h, s[i].dib, Distance(h, i));
    }
  }

  // ---------------------------------------------------------------------
  // Probe-length metrics

  function DibOf(e: Slot): nat
  {
    if e.Occupied? then e.dib else 0
  }

  /** Largest dib over the Occupied slots, 0 when there are none. */
  function MaxDib(s: seq<Slot>): nat
  {
    if s == [] then 0
    else
      var m := MaxDib(s[..|s| - 1]);
      var d := DibOf(s[|s| - 1]);
      if d > m then d else m
  }

  /** Sum of the dibs of the Occupied slots. */
  function DibSum(s: seq<Slot>): nat
  {
    if s == [] then 0 else DibSum(s[..|s| - 1]) + DibOf(s[|s| - 1])
  }

  /** MaxDib bounds every Occupied dib and is attained unless it is 0. */
  lemma {:induction false} MaxDibIsMax(s: seq<Slot>)
    ensures forall i :: 0 <= i < |s| && s[i].Occupied? ==> s[i].dib <= MaxDib(s)
    ensures MaxDib(s) == 0 || exists i :: 0 <= i < |s| && s[i].Occupied? && s[i].dib == MaxDib(s)
  {
    if s != [] {
      var n := |s| - 1;
      MaxDibIsMax(s[..n]);
      assert forall i :: 0 <= i < n ==> s[..n][i] == s[i];
      if MaxDib(s) != MaxDib(s[..n]) {
        assert s[n].Occupied? && s[n].dib == MaxDib(s);
      } else if MaxDib(s) != 0 {
        var i :| 0 <= i < n && s[..n][i].Occupied? && s[..n][i].dib == MaxDib(s[..n]);
        assert s[i].Occupied? && s[i].dib == MaxDib(s);
      }
    }
  }

  /** The mean dib over the Occupied slots lies between 0 and the largest dib. */
  lemma MeanDibBound(s: seq<Slot>)
    ensures 0.0 <= Mean(DibSum(s), Count(s, IsOccupied)) <= MaxDib(s) as real
  {
    DibSumBound(s);
    MeanBound(DibSum(s), MaxDib(s), Count(s, IsOccupied));
  }

  /** The dib total is at most the largest dib times the number of Occupied slots. */
  lemma {:induction false} DibSumBound(s: seq<Slot>)
    ensures DibSum(s) <= MaxDib(s) * Count(s, IsOccupied)
  {
    if s != [] {
      var n := |s| - 1;
      var m, big, c := MaxDib(s[..n]), MaxDib(s), Count(s[..n], IsOccupied);
      var d := DibOf(s[n]);
      assert big == if d > m then d else m;
      assert DibSum(s) == DibSum(s[..n]) + d;
      assert Count(s, IsOccupied) == c + if s[n].Occupied? then 1 else 0;
      DibSumBound(s[..n]);
      MulMonotone(m, big, c);
      assert DibSum(s[..n]) <= big * c;
      if s[n].Occupied? {
        MulSucc(big, c);
      }
    }
  }

  // ---------------------------------------------------------------------
  // The table as the source keeps it

  class RobinHoodMap {
    const table: array<Slot>
    var size: int
    var tombstones: int

    ghost function Model(): Table
      reads this, table
    {
      Table(table[..], size, tombstones)
    }

    /** Exact counters, and every dib is its slot's distance from home. */
    ghost predicate Valid()
      reads this, table
    {
      WellFormed(Model()) && DibsExact(table[..])
    }

    constructor ()
      ensures Valid() && fresh(table)
      ensures Model() == EmptyTable()
    {
      table := new Slot[CAPACITY](_ => Empty);
      size := 0;
      tombstones := 0;
      new;
      assert table[..] == EmptyTable().slots;
      EmptyTableWellFormed();
    }

    method Insert(key: int, value: int) returns (r: OpResult)
      requires Valid() && HasFree(table[..])
      modifies this, table
      ensures Valid()
      ensures (Model(), r) == InsertSpec(old(Model()), key, value)
    {
      ghost var t := Model();
      r := NO_RESULT;
      var index := GetIndex(key);
      var currentKey, currentValue := key, value;
      var currentDib: nat := 0;
      var originalIndex := index;
      HasFreeAhead(t.slots, originalIndex);
      ghost var outcome := InsertLoop(t.slots, originalIndex, 0, Carry(key, value, 0));
      ProbeSlotStart(originalIndex);
      while true
        invariant r.probeCount < CAPACITY && r == OpResult(false, r.probeCount, 0)
        invariant index == ProbeSlot(originalIndex, r.probeCount)
        invariant size == t.size && tombstones == t.tombstones
        invariant FreeAhead(table[..], originalIndex, r.probeCount)
        invariant InsertLoop(table[..], originalIndex, r.probeCount,
                             Carry(currentKey, currentValue, currentDib)) == outcome
        decreases CAPACITY - r.probeCount
      {
        ghost var j := r.probeCount;
        ghost var s := table[..];
        ghost var c := Carry(currentKey, currentValue, currentDib);
        r := r.(probeCount := r.probeCount + 1);
        var entry := table[index];
        assert entry == s[ProbeSlot(originalIndex, j)];
        if entry.Empty? || entry.Tombstone? {
          InsertLoopPlaces(s, originalIndex, j, c);
          ghost var placed := s[index := Held(c)];
          if entry.Tombstone? {
            tombstones := tombstones - 1;
          }
          table[index] := Occupied(currentKey, currentValue, currentDib);
          size := size + 1;
          r := r.(success := true);
          assert table[..] == placed;
          break;
        } else if entry.key == currentKey {
          InsertLoopUpdates(s, originalIndex, j, c);
          ghost var updated := s[index := entry.(value := currentValue)];
          table[index] := entry.(value := currentValue);
          r := r.(success := true);
          assert table[..] == updated;
          break;
        }
        ghost var s1, c1;
        if currentDib > entry.dib {
          InsertLoopSwaps(s, originalIndex, j, c);
          table[index] := Occupied(currentKey, currentValue, currentDib);
          s1, c1 := s[index := Held(c)], Evicted(entry);
          assert table[..] == s1;
          currentKey, currentValue, currentDib := entry.key, entry.value, entry.dib;
        } else {
          InsertLoopPasses(s, originalIndex, j, c);
          s1, c1 := s, c.(dib := c.dib + 1);
        }
        currentDib := currentDib + 1;
        assert Carry(currentKey, currentValue, currentDib) == c1;
        AdvanceProbe(originalIndex, j, index);
        index := NextIndex(index);
        if index == originalIndex && currentDib >= CAPACITY {
          assert false;
        }
      }
      InsertKeepsWellFormed(t, key, value);
    }

    method Lookup(key: int) returns (r: OpResult, v: Option<int>)
      requires table.Length == CAPACITY
      ensures (r, v) == LookupSpec(Model(), key)
    {
      ghost var s := table[..];
      r := NO_RESULT;
      var index := GetIndex(key);
      var dib := 0;
      ghost var home := index;
      ghost var k := SearchOffset(s, home, key, 0);
      ghost var spec := LookupSpec(Model(), key);
      LookupSpecAt(Model(), key, k);
      ProbeSlotStart(home);
      while true
        invariant dib < CAPACITY && r == OpResult(false, dib, 0)
        invariant index == ProbeSlot(home, dib)
        invariant SearchOffset(s, home, key, dib) == k
        decreases CAPACITY - dib
      {
        r := r.(probeCount := r.probeCount + 1);
        var entry := table[index];
        assert entry == s[ProbeSlot(home, dib)];
        if entry.Empty? {
          assert k == dib && spec == (r, None);
          return r, None;
        } else if entry.Occupied? && entry.key == key {
          assert k == dib;
          r := r.(success := true);
          assert spec == (r, Some(entry.value));
          return r, Some(entry.value);
        } else if entry.Occupied? && dib > entry.dib {
          assert k == dib && spec == (r, None);
          return r, None;
        }
        assert SearchOffset(s, home, key, dib + 1) == k;
        AdvanceProbe(home, dib, index);
        dib := dib + 1;
        index := NextIndex(index);
        if dib >= CAPACITY {
          assert k == CAPACITY && spec == (r, None);
          return r, None;
        }
      }
    }

    method Delete(key: int) returns (r: OpResult)
      requires Valid()
      modifies this, table
      ensures Valid()
      ensures (Model(), r) == DeleteSpec(old(Model()), key)
    {
      ghost var t := Model();
      r := NO_RESULT;
      var index := GetIndex(key);
      var dib := 0;
      ghost var home := index;
      ghost var k := SearchOffset(t.slots, home, key, 0);
      ProbeSlotStart(home);
      assert WellFormed(t) && DibsExact(t.slots);
      while true
        invariant table[..] == t.slots && size == t.size && tombstones == t.tombstones
        invariant dib < CAPACITY && r == OpResult(false, dib, 0)
        invariant index == ProbeSlot(home, dib)
        invariant SearchOffset(t.slots, home, key, dib) == k
        decreases CAPACITY - dib
      {
        r := r.(probeCount := r.probeCount + 1);
        var entry := table[index];
        assert entry == t.slots[ProbeSlot(home, dib)];
        if entry.Empty? {
          assert k == dib;
          DeleteSpecMiss(t, key, k);
          return;
        } else if entry.Occupied? && entry.key == key {
          assert k == dib;
          DeleteSpecHit(t, key, k);
          table[index] := Tombstone;
          size := size - 1;
          tombstones := tombstones + 1;
          r := r.(success := true);
          assert table[..] == t.slots[index := Tombstone];
          DeleteKeepsWellFormed(t, key);
          return;
        } else if entry.Occupied? && dib > entry.dib {
          assert k == dib;
          DeleteSpecMiss(t, key, k);
          return;
        }
        assert SearchOffset(t.slots, home, key, dib + 1) == k;
        AdvanceProbe(home, dib, index);
        dib := dib + 1;
        index := NextIndex(index);
        if dib >= CAPACITY {
          assert k == CAPACITY;
          DeleteSpecMiss(t, key, k);
          return;
        }
      }
    }

    /** `size / capacity`, as an exact ratio. */
    function LoadFactor(): (f: real)
      reads this, table
      requires Valid()
      ensures 0.0 <= f <= 1.0
      ensures f * CAPACITY as real == Count(table[..], IsOccupied) as real
    {
      CountersBounded(Model());
      size as real / CAPACITY as real
    }

    function TombstoneCount(): (n: int)
      reads this, table
      requires Valid()
      ensures n == Count(table[..], IsTombstone)
      ensures 0 <= n <= CAPACITY - Count(table[..], IsOccupied)
    {
      CountersBounded(Model());
      tombstones
    }

    /** Largest dib over the Occupied slots, 0 if there are none. */
    method GetMaxProbeLength() returns (m: nat)
      requires Valid()
      ensures m == MaxDib(table[..])
      ensures forall i :: 0 <= i < table.Length && table[i].Occupied? ==> table[i].dib <= m
      ensures m == 0 || exists i :: 0 <= i < table.Length && table[i].Occupied? && table[i].dib == m
    {
      m := 0;
      for i := 0 to table.Length
        invariant m == MaxDib(table[..i])
      {
        assert table[..i + 1][..i] == table[..i];
        var entry := table[i];
        if entry.Occupied? {
          m := if m > entry.dib then m else entry.dib;
        }
      }
      assert table[..table.Length] == table[..];
      MaxDibIsMax(table[..]);
    }

    /** Mean dib of the Occupied slots, 0 when the table holds nothing. */
    function GetAvgProbeLength(): (a: real)
      reads this, table
      requires Valid()
      ensures size == 0 ==> a == 0.0
      ensures size > 0 ==> a == DibSum(table[..]) as real / size as real
      ensures 0.0 <= a <= MaxDib(table[..]) as real
    {
      CountersBounded(Model());
      MeanDibBound(table[..]);
      Mean(DibSum(table[..]), size)
    }
  }
}
