/**
 * Counting over sequences: how many elements satisfy a predicate, and the
 * total length of a sequence of chains. The tables' counters (`size`,
 * `tombstones`) are specified by these functions.
 */
module Counting {

  /** Number of elements of `s` that satisfy `p`. */
  function Count<T>(s: seq<T>, p: T -> bool): (n: nat)
    ensures n <= |s|
  {
    if s == [] then 0 else Count(s[..|s| - 1], p) + (if p(s[|s| - 1]) then 1 else 0)
  }

  /** Overwriting one element changes the count by what left and what came in. */
  lemma {:induction false} CountUpdate<T>(s: seq<T>, i: nat, x: T, p: T -> bool)
    requires i < |s|
    ensures Count(s[i := x], p) ==
            Count(s, p) - (if p(s[i]) then 1 else 0) + (if p(x) then 1 else 0)
  {
    var n := |s| - 1;
    var t := s[i := x];
    if i < n {
      assert t[..n] == s[..n][i := x];
      CountUpdate(s[..n], i, x, p);
    } else {
      assert t[..n] == s[..n];
    }
  }

  /** Elements satisfying neither of two exclusive predicates are at most what remains. */
  lemma {:induction false} CountDisjoint<T>(s: seq<T>, p: T -> bool, q: T -> bool)
    requires forall x :: !(p(x) && q(x))
    ensures Count(s, p) + Count(s, q) <= |s|
  {
    if s != [] {
      CountDisjoint(s[..|s| - 1], p, q);
    }
  }

  lemma {:induction false} CountNone<T>(s: seq<T>, p: T -> bool)
    requires forall i :: 0 <= i < |s| ==> !p(s[i])
    ensures Count(s, p) == 0
  {
    if s != [] {
      CountNone(s[..|s| - 1], p);
    }
  }

  /** A positive count has a witness. */
  lemma {:induction false} CountWitness<T>(s: seq<T>, p: T -> bool)
    requires Count(s, p) > 0
    ensures exists i :: 0 <= i < |s| && p(s[i])
  {
    var n := |s| - 1;
    if !p(s[n]) {
      CountWitness(s[..n], p);
      var i :| 0 <= i < n && p(s[..n][i]);
      assert p(s[i]);
    }
  }

  /** Total number of elements over a sequence of chains. */
  function TotalLength<T>(chains: seq<seq<T>>): (n: nat)
  {
    if chains == [] then 0 else TotalLength(chains[..|chains| - 1]) + |chains[|chains| - 1]|
  }

  lemma {:induction false} TotalLengthUpdate<T>(chains: seq<seq<T>>, i: nat, c: seq<T>)
    requires i < |chains|
    ensures TotalLength(chains[i := c]) == TotalLength(chains) - |chains[i]| + |c|
  {
    var n := |chains| - 1;
    var t := chains[i := c];
    if i < n {
      assert t[..n] == chains[..n][i := c];
      TotalLengthUpdate(chains[..n], i, c);
    } else {
      assert t[..n] == chains[..n];
    }
  }

  lemma {:induction false} TotalLengthNone<T>(chains: seq<seq<T>>)
    requires forall i :: 0 <= i < |chains| ==> chains[i] == []
    ensures TotalLength(chains) == 0
  {
    if chains != [] {
      TotalLengthNone(chains[..|chains| - 1]);
    }
  }

  /** `total / n`, and 0 when there is nothing to average. */
  function Mean(total: nat, n: nat): (a: real)
    ensures n == 0 ==> a == 0.0
    ensures n > 0 ==> a * n as real == total as real
  {
    if n == 0 then 0.0 else total as real / n as real
  }

  /** A total of at most `m` per item has a mean of at most `m`. */
  lemma MeanBound(total: nat, m: nat, n: nat)
    requires total <= m * n
    ensures 0.0 <= Mean(total, n) <= m as real
  {
    if n > 0 {
      var a := Mean(total, n);
      assert (m * n) as real == m as real * n as real;
      assert (a - m as real) * n as real <= 0.0;
    }
  }

  /** A total of at least `m` per item has a mean of at least `m`. */
  lemma MeanAtLeast(total: nat, m: nat, n: nat)
    requires n > 0 && m * n <= total
    ensures m as real <= Mean(total, n)
  {
    var a := Mean(total, n);
    assert (m * n) as real == m as real * n as real;
    assert (a - m as real) * n as real >= 0.0;
  }

  lemma MulMonotone(a: nat, b: nat, c: nat)
    requires a <= b
    ensures a * c <= b * c
  {
  }

  lemma MulSucc(a: nat, b: nat)
    ensures a * (b + 1) == a * b + a
  {
  }
}
