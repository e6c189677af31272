/**
 * The hashing substrate shared by the four tables: the 64-bit avalanche
 * mix, the index derivations built on it, the probe arithmetic of the
 * open-addressing tables, and the operation-result record.
 *
 * Python's integers are unbounded and its bitwise operators work on their
 * binary expansion, so `&`, `^` and `>>` are modelled here on naturals,
 * bit by bit, rather than on a fixed-width bit-vector type.
 */
module Common {

  /** Fixed table size of every variant, 2^20. */
  const CAPACITY: nat := 0x10_0000
  const TWO_32: nat := 0x1_0000_0000
  const TWO_64: nat := 0x1_0000_0000_0000_0000
  const MASK_64: nat := 0xFFFF_FFFF_FFFF_FFFF
  const MIX_MUL_1: nat := 0xbf58476d1ce4e5b9
  const MIX_MUL_2: nat := 0x94d049bb133111eb

  datatype Option<T> = None | Some(value: T)

  /** What every insert, lookup and delete reports. */
  datatype OpResult = OpResult(success: bool, probeCount: nat, displacement: nat)

  /** `OpResult()` with its default arguments. */
  const NO_RESULT := OpResult(false, 0, 0)

  // ---------------------------------------------------------------------
  // Bitwise operators on naturals

  function Pow2(k: nat): (p: nat)
    ensures p >= 1
  {
    if k == 0 then 1 else 2 * Pow2(k - 1)
  }

  /** `a & b` */
  function And(a: nat, b: nat): nat
    decreases a + b
  {
    if a == 0 || b == 0 then 0 else 2 * And(a / 2, b / 2) + (a % 2) * (b % 2)
  }

  /** `a ^ b` */
  function Xor(a: nat, b: nat): nat
    decreases a + b
  {
    if a == 0 && b == 0 then 0 else 2 * Xor(a / 2, b / 2) + (a + b) % 2
  }

  /** `a >> k`, one bit at a time. */
  function Shr(a: nat, k: nat): nat
    decreases k, a
  {
    if k == 0 then a else Shr(a / 2, k - 1)
  }

  lemma MulAtLeast(x: int, d: int)
    requires d > 0 && x >= 1
    ensures d * x >= d
  {
  }

  /** Quotient and remainder are determined by `a == d * q + r`, `0 <= r < d`. */
  lemma DivModUnique(a: int, d: int, q: int, r: int)
    requires d > 0 && 0 <= r < d && a == d * q + r
    ensures a / d == q && a % d == r
  {
    var q', r' := a / d, a % d;
    assert d * (q - q') == r' - r;
    if q > q' {
      MulAtLeast(q - q', d);
    } else if q < q' {
      MulAtLeast(q' - q, d);
    }
  }

  lemma DivModHalving(a: nat, m: nat)
    requires m >= 1
    ensures a % (2 * m) == 2 * ((a / 2) % m) + a % 2
  {
    var q, r := a / 2, a % 2;
    var t, u := q / m, q % m;
    assert q == m * t + u;
    assert a == 2 * q + r;
    assert a == (2 * m) * t + (2 * u + r);
    DivModUnique(a, 2 * m, t, 2 * u + r);
  }

  /** Masking with `2^k - 1` keeps the low `k` bits: it is the remainder by `2^k`. */
  lemma {:induction false} AndLowMask(a: nat, k: nat)
    ensures And(a, Pow2(k) - 1) == a % Pow2(k)
  {
    if k > 0 && a > 0 {
      var m := Pow2(k - 1);
      assert Pow2(k) == 2 * m;
      AndLowMask(a / 2, k - 1);
      AndLowMaskStep(a, m);
    } else if k == 0 {
      assert Pow2(k) - 1 == 0 && And(a, 0) == 0;
      assert a % 1 == 0;
    } else {
      assert And(0, Pow2(k) - 1) == 0;
      assert 0 % Pow2(k) == 0;
    }
  }

  /** The step of `AndLowMask`: from the mask of `m` on `a / 2` to the mask of `2m` on `a`. */
  lemma AndLowMaskStep(a: nat, m: nat)
    requires a > 0 && m >= 1
    requires And(a / 2, m - 1) == (a / 2) % m
    ensures And(a, 2 * m - 1) == a % (2 * m)
  {
    var c := m - 1;
    AndOddStep(a, c);
    DivModHalving(a, m);
    assert 2 * m - 1 == 2 * c + 1;
  }

  /** One bit of `a & (2c + 1)`: the low bit of `a` is kept. */
  lemma AndOddStep(a: nat, c: nat)
    requires a > 0
    ensures And(a, 2 * c + 1) == 2 * And(a / 2, c) + a % 2
  {
    DivModUnique(2 * c + 1, 2, c, 1);
  }

  lemma DivHalving(a: nat, m: nat)
    requires m >= 1
    ensures a / (2 * m) == (a / 2) / m
  {
    var q, r := a / 2, a % 2;
    var t, u := q / m, q % m;
    assert a == (2 * m) * t + (2 * u + r);
    DivModUnique(a, 2 * m, t, 2 * u + r);
  }

  /** Shifting right by `k` bits divides by `2^k`. */
  lemma {:induction false} ShrIsDiv(a: nat, k: nat)
    ensures Shr(a, k) == a / Pow2(k)
  {
    if k > 0 {
      ShrIsDiv(a / 2, k - 1);
      DivHalving(a, Pow2(k - 1));
    }
  }

  lemma {:induction false} Pow2Add(a: nat, b: nat)
    ensures Pow2(a + b) == Pow2(a) * Pow2(b)
  {
    if a > 0 {
      Pow2Add(a - 1, b);
    }
  }

  lemma Pow2Of16()
    ensures Pow2(16) == 0x1_0000
  {
    assert Pow2(4) == 16;
    Pow2Add(4, 4);
    Pow2Add(8, 8);
  }

  lemma Pow2OfCapacity()
    ensures Pow2(20) == CAPACITY
  {
    Pow2Of16();
    Pow2Add(16, 4);
  }

  lemma Pow2Of32()
    ensures Pow2(32) == TWO_32
  {
    Pow2Of16();
    Pow2Add(16, 16);
  }

  lemma Pow2Of64()
    ensures Pow2(64) == TWO_64
  {
    Pow2Of32();
    Pow2Add(32, 32);
  }

  /** `x & (CAPACITY - 1)` is `x % CAPACITY`, since CAPACITY is a power of two. */
  lemma AndCapacityMask(a: nat)
    ensures And(a, CAPACITY - 1) == a % CAPACITY
  {
    Pow2OfCapacity();
    AndLowMask(a, 20);
  }

  /** `x & 0xFFFFFFFFFFFFFFFF` is `x % 2^64`. */
  lemma AndMask64(a: nat)
    ensures And(a, MASK_64) == a % TWO_64
  {
    Pow2Of64();
    AndLowMask(a, 64);
  }

  // ---------------------------------------------------------------------
  // Mixing and index derivation

  /**
   * The 64-bit avalanche mix. The first step, `x & 0xFFFFFFFFFFFFFFFF`, is
   * written `x % TWO_64`: on a negative Python int the mask yields the same
   * non-negative residue (see MaskOfNaturalInput for natural inputs).
   */
  function Mix(x: int): (r: nat)
    ensures r < TWO_64
  {
    Avalanche(x % TWO_64)
  }

  /** One statement of the mix: `x ^= x >> k`, or `x = (x * f) & 0xFFFFFFFFFFFFFFFF`. */
  datatype MixStep = XorShiftRight(shift: nat) | MultiplyMasked(factor: nat)

  /** The mix's xor-shift and multiply statements, in program order. */
  const MIX_STEPS: seq<MixStep> := [
    XorShiftRight(30), MultiplyMasked(MIX_MUL_1),
    XorShiftRight(27), MultiplyMasked(MIX_MUL_2),
    XorShiftRight(31)
  ]

  function Step(x: nat, m: MixStep): nat
  {
    match m
    case XorShiftRight(k) => Xor(x, Shr(x, k))
    case MultiplyMasked(f) => And(x * f, MASK_64)
  }

  /** Runs `steps` one after another, starting from `x`. */
  function RunSteps(x: nat, steps: seq<MixStep>): nat
    decreases |steps|, x
  {
    if steps == [] then x else RunSteps(Step(x, steps[0]), steps[1..])
  }

  /** The statements of the mix and its final mask, on an already reduced input. */
  function Avalanche(x0: nat): (r: nat)
    ensures r < TWO_64
  {
    var x5 := RunSteps(x0, MIX_STEPS);
    AndMask64(x5);
    And(x5, MASK_64)
  }

  /** On a natural input the initial reduction is the literal mask. */
  lemma MaskOfNaturalInput(x: nat)
    ensures And(x, MASK_64) == x % TWO_64
  {
    AndMask64(x);
  }

  /** Only the low 64 bits of the key matter. */
  lemma MixReducesInput(x: int)
    ensures Mix(x) == Mix(x % TWO_64)
  {
    var y := x % TWO_64;
    DivModUnique(y, TWO_64, 0, y);
    assert y % TWO_64 == x % TWO_64;
  }

  /** Zero is a fixed point of the mix. */
  lemma MixZero()
    ensures Mix(0) == 0
  {
    RunStepsZero(MIX_STEPS);
    assert And(0, MASK_64) == 0;
  }

  lemma {:induction false} RunStepsZero(steps: seq<MixStep>)
    ensures RunSteps(0, steps) == 0
  {
    if steps != [] {
      if steps[0].XorShiftRight? {
        ShrIsDiv(0, steps[0].shift);
        assert Xor(0, 0) == 0;
      } else {
        assert And(0, MASK_64) == 0;
      }
      assert Step(0, steps[0]) == 0;
      RunStepsZero(steps[1..]);
    }
  }

  /**
   * Home slot of a key in the single-hash variants. The source masks,
   * `mix(key) & (capacity - 1)`; the model takes the remainder, and
   * GetIndexIsMask proves the two equal. Keeping the bitwise form out of
   * the definition keeps the solver from evaluating it bit by bit.
   */
  function GetIndex(key: int): (i: nat)
    ensures i < CAPACITY
  {
    Mix(key) % CAPACITY
  }

  lemma GetIndexIsMask(key: int)
    ensures GetIndex(key) == And(Mix(key), CAPACITY - 1)
  {
    AndCapacityMask(Mix(key));
  }

  /**
   * The two candidate slots of a key in the cuckoo table: the low and the
   * high 32 bits of the mix, each reduced to the capacity.
   */
  function CuckooIndices(key: int): (r: (nat, nat))
    ensures r.0 < CAPACITY && r.1 < CAPACITY
    ensures r.0 == GetIndex(key)
  {
    (Mix(key) % CAPACITY, (Mix(key) / TWO_32) % CAPACITY)
  }

  /** The two cuckoo candidates can coincide: key 0 has slot 0 for both, since `mix(0) == 0`. */
  lemma CuckooIndicesOfZero()
    ensures CuckooIndices(0) == (0, 0)
  {
    MixZero();
  }

  /** The bitwise form of the source: `h & (capacity - 1)` and `(h >> 32) & (capacity - 1)`. */
  lemma CuckooIndicesAreMasks(key: int)
    ensures CuckooIndices(key) == (And(Mix(key), CAPACITY - 1), And(Shr(Mix(key), 32), CAPACITY - 1))
  {
    var h := Mix(key);
    AndCapacityMask(h);
    AndCapacityMask(Shr(h, 32));
    ShrIsDiv(h, 32);
    Pow2Of32();
  }

  // ---------------------------------------------------------------------
  // Probe arithmetic of the open-addressing tables

  /**
   * The next slot of a wrap-around probe. The source masks,
   * `(index + 1) & (capacity - 1)`; NextIndexIsMask proves the remainder
   * taken here equal to it.
   */
  function NextIndex(index: nat): (r: nat)
    ensures r < CAPACITY
  {
    (index + 1) % CAPACITY
  }

  lemma NextIndexIsMask(index: nat)
    ensures NextIndex(index) == And(index + 1, CAPACITY - 1)
  {
    AndCapacityMask(index + 1);
  }

  /** The slot visited after `j` steps of a probe that starts at `home`. */
  function ProbeSlot(home: nat, j: nat): nat
  {
    (home + j) % CAPACITY
  }

  lemma ProbeSlotStart(home: nat)
    requires home < CAPACITY
    ensures ProbeSlot(home, 0) == home
  {
    DivModUnique(home, CAPACITY, 0, home);
  }

  lemma NextProbeSlot(home: nat, j: nat)
    requires home < CAPACITY
    ensures NextIndex(ProbeSlot(home, j)) == ProbeSlot(home, j + 1)
  {
    var q := (home + j) / CAPACITY;
    var r := (home + j) % CAPACITY;
    if r + 1 < CAPACITY {
      DivModUnique(home + j + 1, CAPACITY, q, r + 1);
    } else {
      DivModUnique(home + j + 1, CAPACITY, q + 1, 0);
    }
  }

  /** One step of a wrap-around probe: the next slot, which is the start again only after `capacity` steps. */
  lemma AdvanceProbe(home: nat, j: nat, index: nat)
    requires home < CAPACITY && j < CAPACITY && index == ProbeSlot(home, j)
    ensures NextIndex(index) == ProbeSlot(home, j + 1)
    ensures NextIndex(index) == home <==> j + 1 == CAPACITY
  {
    NextProbeSlot(home, j);
    ProbeSlotWraps(home, j + 1);
  }

  /** Two probes that meet at a slot also meet at the next one. */
  lemma NextProbeSlotsAgree(h1: nat, d1: nat, h2: nat, d2: nat)
    requires h1 < CAPACITY && h2 < CAPACITY && ProbeSlot(h1, d1) == ProbeSlot(h2, d2)
    ensures ProbeSlot(h1, d1 + 1) == ProbeSlot(h2, d2 + 1)
  {
    NextProbeSlot(h1, d1);
    NextProbeSlot(h2, d2);
  }

  /** A probe visits `capacity` distinct slots before it wraps around. */
  lemma ProbeSlotInjective(home: nat, i: nat, j: nat)
    requires i < CAPACITY && j < CAPACITY && i != j
    ensures ProbeSlot(home, i) != ProbeSlot(home, j)
  {
    var qi, qj := (home + i) / CAPACITY, (home + j) / CAPACITY;
    if qi > qj {
      MulAtLeast(qi - qj, CAPACITY);
    } else if qi < qj {
      MulAtLeast(qj - qi, CAPACITY);
    }
  }

  /** Every slot lies on the probe path of every home, at offset `Distance`. */
  function Distance(home: nat, slot: nat): (j: nat)
    requires home < CAPACITY && slot < CAPACITY
    ensures j < CAPACITY && ProbeSlot(home, j) == slot
  {
    var j := (slot - home) % CAPACITY;
    if slot >= home then
      DivModUnique(slot - home, CAPACITY, 0, slot - home);
      DivModUnique(home + (slot - home), CAPACITY, 0, slot);
      j
    else
      DivModUnique(slot - home, CAPACITY, -1, slot - home + CAPACITY);
      DivModUnique(home + (slot - home + CAPACITY), CAPACITY, 1, slot);
      j
  }

  /** A probe returns to its start exactly after `capacity` steps. */
  lemma ProbeSlotWraps(home: nat, j: nat)
    requires home < CAPACITY && 0 < j <= CAPACITY
    ensures ProbeSlot(home, j) == home <==> j == CAPACITY
  {
    if j < CAPACITY {
      ProbeSlotStart(home);
      ProbeSlotInjective(home, 0, j);
    } else {
      DivModUnique(home + CAPACITY, CAPACITY, 1, home);
    }
  }

  /** A second key with the same home slot: the mix only sees the low 64 bits. */
  lemma ShiftedKeyCollides(key: int)
    ensures key + TWO_64 != key
    ensures GetIndex(key + TWO_64) == GetIndex(key)
  {
    DivModUnique(key + TWO_64, TWO_64, key / TWO_64 + 1, key % TWO_64);
    assert Mix(key + TWO_64) == Mix(key);
  }

  /** Pigeonhole: `n + 1` arguments mapped below `n` include two that collide. */
  lemma {:induction false} Pigeonhole(f: nat -> nat, n: nat)
    requires n >= 1
    requires forall i :: 0 <= i <= n ==> f(i) < n
    ensures exists a, b :: 0 <= a < b <= n && f(a) == f(b)
    decreases n
  {
    var last := f(n);
    if a :| 0 <= a < n && f(a) == last {
      assert f(a) == f(n);
    } else {
      // With n == 1 both f(0) and f(1) are 0, so here n >= 2.
      assert f(0) != last;
      var g: nat -> nat := i => if f(i) == n - 1 then last else f(i);
      forall i | 0 <= i <= n - 1
        ensures g(i) < n - 1
      {
        assert f(i) != last;
      }
      Pigeonhole(g, n - 1);
      var a, b :| 0 <= a < b <= n - 1 && g(a) == g(b);
      assert f(a) != last && f(b) != last;
      assert f(a) == f(b);
    }
  }

  /** Two different keys in the 64-bit range share a home slot. */
  lemma CollidingKeysInRange()
    ensures exists a, b :: 0 <= a < b <= CAPACITY && GetIndex(a) == GetIndex(b)
  {
    var f: nat -> nat := k => GetIndex(k);
    Pigeonhole(f, CAPACITY);
    var a, b :| 0 <= a < b <= CAPACITY && f(a) == f(b);
    assert GetIndex(a) == GetIndex(b);
  }
}
