/** Divisibility facts about Euclidean `%` with a positive divisor, which for such divisors
    agrees with Python's `%`. */
module Divisibility {

  lemma {:induction false} MulSign(d: int, t: int)
    requires d > 0
    ensures t >= 1 ==> d * t >= d
    ensures t <= -1 ==> d * t <= -d
    decreases if t >= 0 then t else -t
  {
    if t > 1 {
      MulSign(d, t - 1);
      assert d * t == d * (t - 1) + d;
    } else if t < -1 {
      MulSign(d, t + 1);
      assert d * t == d * (t + 1) - d;
    }
  }

  /** Quotient and remainder are unique: `n == d * a + r` with `0 <= r < d` fixes both. */
  lemma DivModUnique(n: int, d: int, a: int, r: int)
    requires d > 0 && 0 <= r < d && n == d * a + r
    ensures n % d == r && n / d == a
  {
    var t := a - n / d;
    assert n == d * (n / d) + n % d;
    assert d * t == n % d - r by {
      assert d * t == d * a - d * (n / d);
    }
    MulSign(d, t);
  }

  lemma ModZeroOfMultiple(d: int, c: int)
    requires d > 0
    ensures (d * c) % d == 0
  {
    DivModUnique(d * c, d, c, 0);
  }

  lemma MultipleOfModZero(d: int, n: int)
    requires d > 0 && n % d == 0
    ensures n == d * (n / d)
  {
  }

  /** Divisibility is transitive. */
  lemma DividesTrans(s: int, m1: int, m2: int)
    requires m1 > 0 && m2 > 0 && m2 % m1 == 0 && s % m2 == 0
    ensures s % m1 == 0
  {
    var a := s / m2;
    var b := m2 / m1;
    MultipleOfModZero(m2, s);
    MultipleOfModZero(m1, m2);
    assert s == m1 * (b * a);
    ModZeroOfMultiple(m1, b * a);
  }

  /** A prime of `m` dividing both S and k divides S - k and S + k. */
  lemma SharedFactor(s: int, k: int, q: int, p: int, m: int)
    requires p > 0 && m > 0 && m % p == 0 && s % m == 0 && k % p == 0
    requires q == s - k || q == s + k
    ensures q % p == 0
  {
    DividesTrans(s, p, m);
    MultipleOfModZero(p, s);
    MultipleOfModZero(p, k);
    var a := s / p;
    var b := k / p;
    if q == s - k {
      assert q == p * (a - b);
      ModZeroOfMultiple(p, a - b);
    } else {
      assert q == p * (a + b);
      ModZeroOfMultiple(p, a + b);
    }
  }

  /** The sum of two odd numbers is even. */
  lemma OddSumEven(a: int, b: int)
    requires a % 2 == 1 && b % 2 == 1
    ensures (a + b) % 2 == 0
  {
    DivModUnique(a + b, 2, a / 2 + b / 2 + 1, 0);
  }

  /** Reducing modulo an even modulus keeps the parity. */
  lemma ResidueKeepsParity(s: int, m: int)
    requires m > 0 && m % 2 == 0
    ensures (s % m) % 2 == s % 2
  {
    var q, r := s / m, s % m;
    var h := m / 2;
    assert m == 2 * h;
    assert s == m * q + r;
    assert r == 2 * (r / 2) + r % 2;
    assert s == 2 * (h * q + r / 2) + r % 2 by {
      assert m * q == 2 * (h * q);
    }
    DivModUnique(s, 2, h * q + r / 2, r % 2);
  }

  /** Reducing modulo a multiple of `m1` first does not change the residue modulo `m1`. */
  lemma ResidueRefines(s: int, m1: int, m2: int)
    requires m1 > 0 && m2 > 0 && m2 % m1 == 0
    ensures (s % m2) % m1 == s % m1
  {
    var q, r := s / m2, s % m2;
    var h := m2 / m1;
    MultipleOfModZero(m1, m2);
    assert s == m2 * q + r;
    assert m2 * q == m1 * (h * q);
    assert r == m1 * (r / m1) + r % m1;
    assert s == m1 * (h * q + r / m1) + r % m1;
    DivModUnique(s, m1, h * q + r / m1, r % m1);
  }
}
