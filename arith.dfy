/** Integer facts about multiples, rounding and division that the solver needs spelled out. */
module Arith {
  lemma MulMono(a: int, b: int)
    requires a >= 1 && b > 0
    ensures a * b >= b
  {
  }

  /** `n / m` whole `m`s fit in `n`, and one more does not. */
  lemma FloorBounds(n: nat, m: nat)
    requires m > 0
    ensures (n / m) * m <= n < (n / m) * m + m
  {
    assert n == m * (n / m) + n % m;
  }

  lemma MulLe(a: int, b: int, m: nat)
    requires a <= b
    ensures m * a <= m * b
  {
    assert m * b == m * a + m * (b - a);
  }

  /** A multiple of `k` divides back exactly. */
  lemma MultipleMod(t: int, k: int)
    requires k > 0
    ensures (k * t) % k == 0 && (k * t) / k == t
  {
    var q, r := (k * t) / k, (k * t) % k;
    assert k * (t - q) == r by {
      assert k * t == k * q + r;
      assert k * (t - q) == k * t - k * q;
    }
    if t - q >= 1 {
      MulMono(t - q, k);
    } else if t - q <= -1 {
      MulMono(q - t, k);
    }
  }

  /** Division with remainder has one answer: `r` is `n % m` whenever `n == m * q + r` and `0 <= r < m`. */
  lemma ModUnique(n: int, m: int, q: int, r: int)
    requires m > 0 && n == m * q + r && 0 <= r < m
    ensures n % m == r && n / m == q
  {
    var q', r' := n / m, n % m;
    assert m * (q - q') == r' - r by {
      assert n == m * q' + r';
      assert m * (q - q') == m * q - m * q';
    }
    if q - q' >= 1 {
      MulMono(q - q', m);
    } else if q - q' <= -1 {
      MulMono(q' - q, m);
    }
  }

  /** Adding a multiple of `m` leaves the remainder alone. */
  lemma ModAddMultiple(a: int, k: int, m: int)
    requires m > 0
    ensures (m * k + a) % m == a % m
  {
    var q, r := a / m, a % m;
    assert a == m * q + r;
    assert m * k + a == m * (k + q) + r;
    ModUnique(m * k + a, m, k + q, r);
  }

  /** The least multiple of `m` that is at least `x`. */
  function RoundUp(x: nat, m: nat): (r: nat)
    requires m > 0
    ensures r % m == 0 && x <= r < x + m
  {
    if x % m == 0 then x
    else
      var q := x / m;
      assert x == m * q + x % m;
      assert x + (m - x % m) == m * (q + 1);
      MultipleMod(q + 1, m);
      x + (m - x % m)
  }

  /** `n` rounded down to a multiple of `m`. */
  lemma RoundDown(n: nat, m: nat)
    requires m > 0
    ensures (n - n % m) % m == 0 && n - m < n - n % m <= n
  {
    assert n == m * (n / m) + n % m;
    assert n - n % m == m * (n / m);
    MultipleMod(n / m, m);
  }

  /** The difference of two multiples of `m` is a multiple of `m`. */
  lemma MultipleDifference(a: nat, b: nat, m: nat)
    requires m > 0 && a % m == 0 && b % m == 0 && b <= a
    ensures (a - b) % m == 0
  {
    var p, q := a / m, b / m;
    assert a == m * p + a % m;
    assert b == m * q + b % m;
    assert a - b == m * (p - q);
    MultipleMod(p - q, m);
  }

  /** Floors of two parts add up to at most the floor of the whole. */
  lemma FloorSum(a: nat, b: nat, m: nat)
    requires m > 0
    ensures a / m + b / m <= (a + b) / m
  {
    assert a == m * (a / m) + a % m;
    assert b == m * (b / m) + b % m;
    assert a + b == m * (a / m + b / m) + (a % m + b % m);
    DivLowerBound(a + b, a / m + b / m, m);
  }

  lemma DivLowerBound(n: nat, q: nat, m: nat)
    requires m > 0 && m * q <= n
    ensures q <= n / m
  {
    assert n == m * (n / m) + n % m;
    if n / m < q {
      MulLe(n / m + 1, q, m);
      assert false;
    }
  }
}
