/**
 * The Park-Miller-Lehmer generator behind the hash-map seeds: one 32-bit
 * seed, multiplied by 48271 modulo 2^31 - 1 at every step.
 *
 * The atomic `fetch_update` is a read-modify-write of a single field here;
 * concurrent callers are not modelled.
 */
module LehmerRng {
  import opened Bytes
  import opened Arith

  const MULTIPLIER: nat := 48271
  /** `RAND_MAX`: the Mersenne prime 2^31 - 1, the modulus. */
  const RAND_MAX: nat := 2_147_483_647
  const U64_LIMIT: nat := 0x1_0000_0000_0000_0000

  /** The seed after one step; the `u64` product cannot overflow for a `u32` seed. */
  function Step(seed: nat): (r: nat)
    requires seed < U32_LIMIT
    ensures r < RAND_MAX < U32_LIMIT
    ensures seed * MULTIPLIER < 0x1_0000_0000_0000 < U64_LIMIT
  {
    (seed * MULTIPLIER) % RAND_MAX
  }

  function Pow2(k: nat): (r: nat)
    ensures r > 0
  {
    if k == 0 then 1 else 2 * Pow2(k - 1)
  }

  lemma {:induction false} Pow2Add(a: nat, b: nat)
    ensures Pow2(a + b) == Pow2(a) * Pow2(b)
    decreases a
  {
    if a > 0 {
      Pow2Add(a - 1, b);
      assert Pow2(a + b) == 2 * Pow2(a - 1 + b);
    }
  }

  lemma Pow2Of32()
    ensures Pow2(32) == U32_LIMIT
  {
    assert Pow2(2) == 4;
    Pow2Add(2, 2);
    Pow2Add(4, 4);
    Pow2Add(8, 8);
    Pow2Add(16, 16);
  }

  /** Bitwise `|` on unsigned integers, one bit at a time from the lowest. */
  function Or(x: nat, y: nat): (r: nat)
    ensures r <= x + y
    decreases x + y
  {
    if x == 0 then y
    else if y == 0 then x
    else 2 * Or(x / 2, y / 2) + (if x % 2 == 1 || y % 2 == 1 then 1 else 0)
  }

  /** `<<` on `u64`: the bits shifted past bit 63 are lost. */
  function Shl(x: nat, k: nat): (r: nat)
    ensures r < U64_LIMIT
  {
    (x * Pow2(k)) % U64_LIMIT
  }

  /** With no bit in common, `|` is `+`: `y` fits below bit `k` and `x` has none there. */
  lemma {:induction false} OrDisjoint(x: nat, y: nat, k: nat)
    requires x % Pow2(k) == 0 && y < Pow2(k)
    ensures Or(x, y) == x + y
    decreases k
  {
    if x != 0 && y != 0 {
      var m := Pow2(k - 1);
      assert x % 2 == 0 by {
        assert x == Pow2(k) * (x / Pow2(k));
        assert x == 2 * (m * (x / Pow2(k)));
      }
      assert (x / 2) % m == 0 by {
        assert x == Pow2(k) * (x / Pow2(k));
        assert x / 2 == m * (x / Pow2(k));
        MultipleMod(x / Pow2(k), m);
      }
      OrDisjoint(x / 2, y / 2, k - 1);
    }
  }

  /** `random`: `(hi << 32) | lo`, the first step's seed in the high half and the second's in the low half. */
  function Combine(hi: nat, lo: nat): (r: nat)
    requires hi < U32_LIMIT && lo < U32_LIMIT
    ensures r < U64_LIMIT
    ensures r == hi * U32_LIMIT + lo
  {
    Pow2Of32();
    assert hi * U32_LIMIT < U64_LIMIT;
    MultipleMod(hi, U32_LIMIT);
    OrDisjoint(Shl(hi, 32), lo, 32);
    Or(Shl(hi, 32), lo)
  }

  /** Two steps multiply the seed by 48271^2 modulo 2^31 - 1. */
  lemma TwoSteps(seed: nat)
    requires seed < U32_LIMIT
    ensures Step(Step(seed)) == (seed * (MULTIPLIER * MULTIPLIER)) % RAND_MAX
  {
    var p := seed * MULTIPLIER;
    var q, s := p / RAND_MAX, p % RAND_MAX;
    assert p == RAND_MAX * q + s;
    assert seed * (MULTIPLIER * MULTIPLIER) == p * MULTIPLIER;
    assert p * MULTIPLIER == RAND_MAX * (q * MULTIPLIER) + s * MULTIPLIER;
    ModAddMultiple(s * MULTIPLIER, q * MULTIPLIER, RAND_MAX);
  }

  /** The seed after `n` steps. */
  function Iterate(seed: nat, n: nat): (r: nat)
    requires seed < U32_LIMIT
    ensures r < U32_LIMIT
    decreases n
  {
    if n == 0 then seed else Iterate(Step(seed), n - 1)
  }

  /** Zero is a fixed point: a generator seeded with 0 stays at 0 however often it steps. */
  lemma {:induction false} ZeroForever(n: nat)
    ensures Iterate(0, n) == 0
    decreases n
  {
    if n > 0 {
      assert Step(0) == 0;
      ZeroForever(n - 1);
    }
  }

  /**
   * `PARK_MILLER_LEHMER_SEED`, the generator's only state. Nothing but
   * `step_rng` writes it, so it is always the initial 0 after some number
   * of steps, counted by the ghost `steps`.
   */
  class Generator {
    var seed: nat
    ghost var steps: nat

    ghost predicate Valid()
      reads this
    {
      seed < U32_LIMIT && seed == Iterate(0, steps)
    }

    /** The static's initial value: 0. */
    constructor ()
      ensures Valid() && seed == 0 && steps == 0
    {
      seed := 0;
      steps := 0;
    }

    /** `step_rng`: store the next seed and return the previous one. */
    method StepRng() returns (prev: nat)
      requires Valid()
      modifies this
      ensures Valid()
      ensures prev == old(seed) && seed == Step(old(seed)) && seed < RAND_MAX
      ensures steps == old(steps) + 1
    {
      prev := seed;
      seed := (seed * MULTIPLIER) % RAND_MAX;
      steps := steps + 1;
      ZeroForever(old(steps));
      ZeroForever(steps);
    }

    /** `random`: two steps, the first returned seed in the high 32 bits. */
    method Random() returns (r: nat)
      requires Valid()
      modifies this
      ensures Valid()
      ensures r == Combine(old(seed), Step(old(seed))) && r < U64_LIMIT
      ensures seed == Step(Step(old(seed))) && seed == (old(seed) * (MULTIPLIER * MULTIPLIER)) % RAND_MAX
      ensures old(seed) == 0 ==> r == 0 && seed == 0
      ensures steps == old(steps) + 2
      ensures r == 0
    {
      ZeroForever(steps);
      var a := StepRng();
      var b := StepRng();
      r := Or(Shl(a, 32), b);
      TwoSteps(old(seed));
    }
  }
}
