/**
 * Separate chaining: every bucket holds a chain of nodes whose keys share
 * the bucket as home. Insert updates the first node with the key or puts a
 * new node at the head of the chain; delete unlinks the first node with the
 * key and keeps the rest of the chain in order.
 *
 * A chain is a sequence of nodes, head first (no node is shared between
 * chains, so the links themselves carry no information). `InsertSpec`,
 * `LookupSpec` and `DeleteSpec` state the operations on table values; the
 * class `ChainingMap` walks the chains and is proved to agree.
 */
module Chaining {
  import opened Common
  import opened Counting

  datatype Node = Node(key: int, value: int)

  datatype Table = Table(buckets: seq<seq<Node>>, size: int)

  /** Every key of chain `c` has `b` as home, and no key occurs twice. */
  predicate ChainOk(c: seq<Node>, b: nat)
  {
    (forall k :: 0 <= k < |c| ==> GetIndex(c[k].key) == b) &&
    (forall k, l :: 0 <= k < l < |c| ==> c[k].key != c[l].key)
  }

  /** One chain per slot, each well placed, and `size` counts all nodes. */
  predicate WellFormed(t: Table)
  {
    |t.buckets| == CAPACITY &&
    (forall b :: 0 <= b < CAPACITY ==> ChainOk(t.buckets[b], b)) &&
    t.size == TotalLength(t.buckets)
  }

  function EmptyTable(): Table
  {
    Table(seq(CAPACITY, _ => []), 0)
  }

  lemma EmptyTableWellFormed()
    ensures WellFormed(EmptyTable())
  {
    TotalLengthNone(EmptyTable().buckets);
  }

  /** Position of the first node of `c` holding `key`; `|c|` when there is none. */
  function Find(c: seq<Node>, key: int): (i: nat)
    ensures i <= |c|
    ensures i < |c| ==> c[i].key == key
    ensures forall k :: 0 <= k < i ==> c[k].key != key
  {
    if c == [] then 0 else if c[0].key == key then 0 else 1 + Find(c[1..], key)
  }

  /** A position that matches the first-match description is what `Find` returns. */
  lemma FindIs(c: seq<Node>, key: int, i: nat)
    requires i <= |c|
    requires i < |c| ==> c[i].key == key
    requires forall k :: 0 <= k < i ==> c[k].key != key
    ensures Find(c, key) == i
  {
  }

  // ---------------------------------------------------------------------
  // The operations on table values

  /** The chain after an insert: the first node with the key updated, or a new head. */
  function Write(c: seq<Node>, key: int, value: int): seq<Node>
  {
    var i := Find(c, key);
    if i < |c| then c[i := c[i].(value := value)] else [Node(key, value)] + c
  }

  /**
   * Insert walks the home chain; on a match it overwrites that node's value
   * after `i + 1` visits, otherwise it puts a new head node and counts all
   * nodes plus the new one.
   */
  function InsertSpec(t: Table, key: int, value: int): (r: (Table, OpResult))
    requires |t.buckets| == CAPACITY
    ensures r.1.success && r.1.displacement == 0
  {
    var b := GetIndex(key);
    var c := t.buckets[b];
    var i := Find(c, key);
    if i < |c| then
      (Table(t.buckets[b := Write(c, key, value)], t.size), OpResult(true, i + 1, 0))
    else
      (Table(t.buckets[b := Write(c, key, value)], t.size + 1), OpResult(true, |c| + 1, 0))
  }

  /** Lookup walks the home chain and stops at the first node with the key. */
  function LookupSpec(t: Table, key: int): (r: (OpResult, Option<int>))
    requires |t.buckets| == CAPACITY
  {
    var c := t.buckets[GetIndex(key)];
    var i := Find(c, key);
    if i < |c| then (OpResult(true, i + 1, 0), Some(c[i].value))
    else (OpResult(false, |c|, 0), None)
  }

  /** Delete unlinks the first node with the key, leaving the others in order. */
  function DeleteSpec(t: Table, key: int): (r: (Table, OpResult))
    requires |t.buckets| == CAPACITY
  {
    var b := GetIndex(key);
    var c := t.buckets[b];
    var i := Find(c, key);
    if i < |c| then
      (Table(t.buckets[b := c[..i] + c[i + 1..]], t.size - 1), OpResult(true, i + 1, 0))
    else
      (t, OpResult(false, |c|, 0))
  }

  /** Some chain of the table holds the node `Node(key, value)`. */
  ghost predicate Stored(t: Table, key: int, value: int)
  {
    exists b, k :: 0 <= b < |t.buckets| && 0 <= k < |t.buckets[b]| && t.buckets[b][k] == Node(key, value)
  }

  /** Lookup finds exactly the pairs the table holds. */
  lemma LookupFindsStored(t: Table, key: int, value: int)
    requires WellFormed(t)
    ensures LookupSpec(t, key).1 == Some(value) <==> Stored(t, key, value)
  {
    var h := GetIndex(key);
    var c := t.buckets[h];
    var i := Find(c, key);
    if LookupSpec(t, key).1 == Some(value) {
      assert t.buckets[h][i] == Node(key, value);
    }
    if Stored(t, key, value) {
      var b, k :| 0 <= b < |t.buckets| && 0 <= k < |t.buckets[b]| && t.buckets[b][k] == Node(key, value);
      assert ChainOk(t.buckets[b], b);
      assert b == h;
    }
  }

  lemma InsertKeepsWellFormed(t: Table, key: int, value: int)
    requires WellFormed(t)
    ensures WellFormed(InsertSpec(t, key, value).0)
  {
    var h := GetIndex(key);
    var c := t.buckets[h];
    var i := Find(c, key);
    var c' := Write(c, key, value);
    var t' := InsertSpec(t, key, value).0;
    assert t'.buckets == t.buckets[h := c'];
    assert ChainOk(c, h);
    forall k | 0 <= k < |c'|
      ensures GetIndex(c'[k].key) == h
    {
      if i == |c| && k > 0 {
        assert c'[k] == c[k - 1];
      }
    }
    forall k, l | 0 <= k < l < |c'|
      ensures c'[k].key != c'[l].key
    {
      if i == |c| {
        if k == 0 {
          assert c'[l] == c[l - 1];
        } else {
          assert c'[k] == c[k - 1] && c'[l] == c[l - 1];
        }
      }
    }
    assert ChainOk(c', h);
    forall b | 0 <= b < CAPACITY
      ensures ChainOk(t'.buckets[b], b)
    {
      if b != h {
        assert t'.buckets[b] == t.buckets[b];
      }
    }
    TotalLengthUpdate(t.buckets, h, c');
  }

  /** Insert leaves the key mapped to the new value and changes no other key. */
  lemma InsertThenLookup(t: Table, key: int, value: int, other: int)
    requires WellFormed(t)
    ensures LookupSpec(InsertSpec(t, key, value).0, key).1 == Some(value)
    ensures other != key ==>
              LookupSpec(InsertSpec(t, key, value).0, other).1 == LookupSpec(t, other).1
  {
    var h := GetIndex(key);
    var c := t.buckets[h];
    var c' := Write(c, key, value);
    var t' := InsertSpec(t, key, value).0;
    assert t'.buckets == t.buckets[h := c'];
    WriteFindsKey(c, key, value);
    if other != key && GetIndex(other) == h {
      WriteKeepsOthers(c, key, value, other);
    }
  }

  lemma WriteFindsKey(c: seq<Node>, key: int, value: int)
    ensures var c' := Write(c, key, value);
            Find(c', key) < |c'| && c'[Find(c', key)].value == value
  {
    var i := Find(c, key);
    FindIs(Write(c, key, value), key, if i < |c| then i else 0);
  }

  /** Every other key finds, after the write, the node it found before. */
  lemma WriteKeepsOthers(c: seq<Node>, key: int, value: int, other: int)
    requires other != key
    ensures var c' := Write(c, key, value);
            var f, f' := Find(c, other), Find(c', other);
            (f < |c| <==> f' < |c'|) && (f < |c| ==> c'[f'] == c[f])
  {
    var c' := Write(c, key, value);
    var f := Find(c, other);
    if Find(c, key) < |c| {
      FindIs(c', other, f);
    } else {
      forall k | 0 <= k < f + 1
        ensures c'[k].key != other
      {
        if k > 0 {
          assert c'[k] == c[k - 1];
        }
      }
      if f < |c| {
        assert c'[f + 1] == c[f];
      }
      FindIs(c', other, f + 1);
    }
  }

  /**
   * A new key costs one visit more than its unsuccessful lookup and grows
   * `size` by one; a present key costs what its lookup costs and keeps `size`.
   */
  lemma InsertCostsLookup(t: Table, key: int, value: int)
    requires WellFormed(t)
    ensures var (t', r) := InsertSpec(t, key, value);
            var (l, v) := LookupSpec(t, key);
            (v.Some? ==> t'.size == t.size && r.probeCount == l.probeCount) &&
            (v.None? ==> t'.size == t.size + 1 && r.probeCount == l.probeCount + 1)
  {
  }

  lemma DeleteKeepsWellFormed(t: Table, key: int)
    requires WellFormed(t)
    ensures WellFormed(DeleteSpec(t, key).0)
  {
    var h := GetIndex(key);
    var c := t.buckets[h];
    var i := Find(c, key);
    if i < |c| {
      var c' := c[..i] + c[i + 1..];
      var t' := DeleteSpec(t, key).0;
      assert t'.buckets == t.buckets[h := c'];
      assert ChainOk(c, h);
      assert forall k :: 0 <= k < |c'| ==> c'[k] == c[if k < i then k else k + 1];
      assert ChainOk(c', h);
      forall b | 0 <= b < CAPACITY
        ensures ChainOk(t'.buckets[b], b)
      {
        if b != h {
          assert t'.buckets[b] == t.buckets[b];
        }
      }
      TotalLengthUpdate(t.buckets, h, c');
    }
  }

  /** After delete the key is gone, and every other key keeps its value. */
  lemma DeleteThenLookup(t: Table, key: int, other: int)
    requires WellFormed(t)
    ensures LookupSpec(DeleteSpec(t, key).0, key).1 == None
    ensures other != key ==>
              LookupSpec(DeleteSpec(t, key).0, other).1 == LookupSpec(t, other).1
  {
    var h := GetIndex(key);
    var c := t.buckets[h];
    var i := Find(c, key);
    if i < |c| {
      var c' := c[..i] + c[i + 1..];
      assert DeleteSpec(t, key).0.buckets == t.buckets[h := c'];
      assert ChainOk(c, h);
      RemoveKeepsOthers(c, i, key);
      if other != key {
        RemoveKeepsOthers(c, i, other);
      }
    }
  }

  /**
   * Unlinking the node at `i`, the only one with its key, leaves no node
   * with that key and the first matches of the other keys unchanged.
   */
  lemma RemoveKeepsOthers(c: seq<Node>, i: nat, key: int)
    requires i < |c|
    requires forall k, l :: 0 <= k < l < |c| ==> c[k].key != c[l].key
    ensures var c' := c[..i] + c[i + 1..];
            var f, f' := Find(c, key), Find(c', key);
            (key == c[i].key ==> f' == |c'|) &&
            (key != c[i].key ==> (f < |c| <==> f' < |c'|) && (f < |c| ==> c'[f'] == c[f]))
  {
    var c' := c[..i] + c[i + 1..];
    assert forall k :: 0 <= k < |c'| ==> c'[k] == c[if k < i then k else k + 1];
    var f := Find(c, key);
    if key == c[i].key {
      FindIs(c', key, |c'|);
    } else if f < i {
      FindIs(c', key, f);
    } else if f < |c| {
      FindIs(c', key, f - 1);
    } else {
      FindIs(c', key, |c'|);
    }
  }

  /** A successful delete removes one node with the key; a failed one changes nothing. */
  lemma DeleteRemovesNode(t: Table, key: int)
    requires WellFormed(t)
    ensures var (t', r) := DeleteSpec(t, key);
            var c, c' := t.buckets[GetIndex(key)], t'.buckets[GetIndex(key)];
            (r.success ==> t'.size == t.size - 1 &&
                           exists v :: multiset(c') + multiset{Node(key, v)} == multiset(c)) &&
            (!r.success ==> t' == t)
  {
    var h := GetIndex(key);
    var c := t.buckets[h];
    var i := Find(c, key);
    if i < |c| {
      var c' := c[..i] + c[i + 1..];
      assert c == c[..i] + [c[i]] + c[i + 1..];
      assert multiset(c') + multiset{Node(key, c[i].value)} == multiset(c);
    }
  }

  // ---------------------------------------------------------------------
  // Chain statistics

  predicate IsNonEmpty(c: seq<Node>) { c != [] }

  /** Length of the longest chain, 0 when there is none. */
  function MaxLength(chains: seq<seq<Node>>): nat
  {
    if chains == [] then 0
    else
      var m := MaxLength(chains[..|chains| - 1]);
      var l := |chains[|chains| - 1]|;
      if l > m then l else m
  }

  lemma {:induction false} MaxLengthIsMax(chains: seq<seq<Node>>)
    ensures forall i :: 0 <= i < |chains| ==> |chains[i]| <= MaxLength(chains)
    ensures MaxLength(chains) == 0 ||
            exists i :: 0 <= i < |chains| && |chains[i]| == MaxLength(chains)
  {
    if chains != [] {
      var n := |chains| - 1;
      MaxLengthIsMax(chains[..n]);
      assert forall i :: 0 <= i < n ==> chains[..n][i] == chains[i];
      if MaxLength(chains) != |chains[n]| {
        var i :| 0 <= i < n && |chains[..n][i]| == MaxLength(chains[..n]);
        assert |chains[i]| == MaxLength(chains);
      }
    }
  }

  /** Every non-empty chain holds at least one node. */
  lemma {:induction false} TotalLengthAtLeast(chains: seq<seq<Node>>)
    ensures Count(chains, IsNonEmpty) <= TotalLength(chains)
  {
    if chains != [] {
      TotalLengthAtLeast(chains[..|chains| - 1]);
    }
  }

  /** No chain holds more nodes than the longest one. */
  lemma {:induction false} TotalLengthAtMost(chains: seq<seq<Node>>)
    ensures TotalLength(chains) <= MaxLength(chains) * Count(chains, IsNonEmpty)
  {
    if chains != [] {
      var n := |chains| - 1;
      var m, big, k := MaxLength(chains[..n]), MaxLength(chains), Count(chains[..n], IsNonEmpty);
      TotalLengthAtMost(chains[..n]);
      MulMonotone(m, big, k);
      if chains[n] != [] {
        MulSucc(big, k);
      }
    }
  }

  /** The mean over the non-empty chains is at least 1 and at most the longest chain. */
  lemma AverageChainBound(chains: seq<seq<Node>>)
    ensures var n := Count(chains, IsNonEmpty);
            n > 0 ==> 1.0 <= Mean(TotalLength(chains), n) <= MaxLength(chains) as real
  {
    var n := Count(chains, IsNonEmpty);
    TotalLengthAtLeast(chains);
    TotalLengthAtMost(chains);
    if n > 0 {
      MeanAtLeast(TotalLength(chains), 1, n);
      MeanBound(TotalLength(chains), MaxLength(chains), n);
    }
  }

  // ---------------------------------------------------------------------
  // The table as the source keeps it

  class ChainingMap {
    const buckets: array<seq<Node>>
    var size: int

    ghost function Model(): Table
      reads this, buckets
    {
      Table(buckets[..], size)
    }

    ghost predicate Valid()
      reads this, buckets
    {
      WellFormed(Model())
    }

    constructor ()
      ensures Valid() && fresh(buckets)
      ensures Model() == EmptyTable()
    {
      buckets := new seq<Node>[CAPACITY](_ => []);
      size := 0;
      new;
      assert buckets[..] == EmptyTable().buckets;
      EmptyTableWellFormed();
    }

    method Insert(key: int, value: int) returns (r: OpResult)
      requires Valid()
      modifies this, buckets
      ensures Valid()
      ensures (Model(), r) == InsertSpec(old(Model()), key, value)
    {
      ghost var t := Model();
      ghost var spec := InsertSpec(t, key, value);
      r := NO_RESULT;
      var index := GetIndex(key);
      var current := buckets[index];
      var i := 0;
      while i < |current|
        invariant i <= |current| && r == OpResult(false, i, 0)
        invariant forall k :: 0 <= k < i ==> current[k].key != key
        invariant Model() == t
      {
        r := r.(probeCount := r.probeCount + 1);
        if current[i].key == key {
          buckets[index] := current[i := current[i].(value := value)];
          r := r.(success := true);
          FindIs(current, key, i);
          assert spec == (Model(), r);
          InsertKeepsWellFormed(t, key, value);
          return;
        }
        i := i + 1;
      }
      buckets[index] := [Node(key, value)] + current;
      size := size + 1;
      r := r.(probeCount := r.probeCount + 1, success := true);
      FindIs(current, key, i);
      assert spec == (Model(), r);
      InsertKeepsWellFormed(t, key, value);
    }

    method Lookup(key: int) returns (r: OpResult, v: Option<int>)
      requires buckets.Length == CAPACITY
      ensures (r, v) == LookupSpec(Model(), key)
    {
      r := NO_RESULT;
      var index := GetIndex(key);
      var current := buckets[index];
      var i := 0;
      while i < |current|
        invariant i <= |current| && r == OpResult(false, i, 0)
        invariant forall k :: 0 <= k < i ==> current[k].key != key
      {
        r := r.(probeCount := r.probeCount + 1);
        if current[i].key == key {
          r := r.(success := true);
          FindIs(current, key, i);
          return r, Some(current[i].value);
        }
        i := i + 1;
      }
      FindIs(current, key, i);
      v := None;
    }

    method Delete(key: int) returns (r: OpResult)
      requires Valid()
      modifies this, buckets
      ensures Valid()
      ensures (Model(), r) == DeleteSpec(old(Model()), key)
    {
      ghost var t := Model();
      ghost var spec := DeleteSpec(t, key);
      r := NO_RESULT;
      var index := GetIndex(key);
      var current := buckets[index];
      var i := 0;
      while i < |current|
        invariant i <= |current| && r == OpResult(false, i, 0)
        invariant forall k :: 0 <= k < i ==> current[k].key != key
        invariant Model() == t
      {
        r := r.(probeCount := r.probeCount + 1);
        if current[i].key == key {
          if i == 0 {
            buckets[index] := current[1..];
          } else {
            buckets[index] := current[..i] + current[i + 1..];
          }
          size := size - 1;
          r := r.(success := true);
          FindIs(current, key, i);
          assert buckets[index] == current[..i] + current[i + 1..];
          assert spec == (Model(), r);
          DeleteKeepsWellFormed(t, key);
          return;
        }
        i := i + 1;
      }
      FindIs(current, key, i);
      assert spec == (Model(), r);
    }

    /** `size / capacity`; chains may hold more than one node per slot. */
    function LoadFactor(): (f: real)
      reads this, buckets
      requires Valid()
      ensures 0.0 <= f
      ensures f * CAPACITY as real == TotalLength(buckets[..]) as real
    {
      size as real / CAPACITY as real
    }

    /** Walks the chain of one slot and counts its nodes. */
    method GetChainLength(index: nat) returns (length: nat)
      requires index < buckets.Length
      ensures length == |buckets[index]|
    {
      length := 0;
      var current := buckets[index];
      while current != []
        invariant length + |current| == |buckets[index]|
      {
        length := length + 1;
        current := current[1..];
      }
    }

    /** Mean length of the non-empty chains, 0 when every chain is empty. */
    method GetAvgChainLength() returns (a: real)
      ensures a == Mean(TotalLength(buckets[..]), Count(buckets[..], IsNonEmpty))
      ensures Count(buckets[..], IsNonEmpty) == 0 ==> a == 0.0
      ensures Count(buckets[..], IsNonEmpty) > 0 ==> 1.0 <= a <= MaxLength(buckets[..]) as real
    {
      var nonEmpty: nat := 0;
      var total: nat := 0;
      for i := 0 to buckets.Length
        invariant nonEmpty == Count(buckets[..i], IsNonEmpty)
        invariant total == TotalLength(buckets[..i])
      {
        assert buckets[..i + 1][..i] == buckets[..i];
        if buckets[i] != [] {
          nonEmpty := nonEmpty + 1;
          var length := GetChainLength(i);
          total := total + length;
        }
      }
      assert buckets[..buckets.Length] == buckets[..];
      AverageChainBound(buckets[..]);
      if nonEmpty == 0 {
        return 0.0;
      }
      a := total as real / nonEmpty as real;
    }

    /** Length of the longest chain, 0 when every chain is empty. */
    method GetMaxChainLength() returns (m: nat)
      ensures m == MaxLength(buckets[..])
      ensures forall b :: 0 <= b < buckets.Length ==> |buckets[b]| <= m
      ensures m == 0 || exists b :: 0 <= b < buckets.Length && |buckets[b]| == m
    {
      m := 0;
      for i := 0 to buckets.Length
        invariant m == MaxLength(buckets[..i])
      {
        assert buckets[..i + 1][..i] == buckets[..i];
        if buckets[i] != [] {
          var length := GetChainLength(i);
          m := if m > length then m else length;
        }
      }
      assert buckets[..buckets.Length] == buckets[..];
      MaxLengthIsMax(buckets[..]);
    }
  }
}
