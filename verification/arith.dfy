/** Facts about multiplication and Euclidean remainder that the solver does
    not find unaided. */
module Arith {

  lemma {:induction false} MulAtLeast(d: int, m: int)
    requires d >= 1 && m > 0
    ensures d * m >= m
    decreases d
  {
    if d > 1 {
      MulAtLeast(d - 1, m);
      assert d * m == (d - 1) * m + m;
    }
  }

  /** Euclidean remainder is determined by any quotient/remainder split. */
  lemma ModUnique(a: int, m: int, q: int, r: int)
    requires m > 0 && 0 <= r < m && a == q * m + r
    ensures a % m == r
  {
    var q', r' := a / m, a % m;
    assert a == q' * m + r';
    var d := q - q';
    assert d * m == q * m - q' * m;
    assert d * m == r' - r;
    if d >= 1 {
      MulAtLeast(d, m);
    } else if d <= -1 {
      MulAtLeast(-d, m);
    }
  }

  /** A multiple of `m` strictly between -m and m is zero. */
  lemma SmallMultipleIsZero(x: int, m: int, q: int)
    requires m > 0 && -m < x < m && x == q * m
    ensures x == 0
  {
    if q >= 1 {
      MulAtLeast(q, m);
    } else if q <= -1 {
      MulAtLeast(-q, m);
    }
  }

  lemma ModSucc(a: int, m: int)
    requires m > 0
    ensures ((a % m) + 1) % m == (a + 1) % m
  {
    var q, r := a / m, a % m;
    assert a == q * m + r;
    if r + 1 < m {
      ModUnique(r + 1, m, 0, r + 1);
      ModUnique(a + 1, m, q, r + 1);
    } else {
      ModUnique(r + 1, m, 1, 0);
      ModUnique(a + 1, m, q + 1, 0);
    }
  }

  lemma ModPred(a: int, m: int)
    requires m > 0
    ensures ((a % m) - 1 + m) % m == (a - 1) % m
  {
    var q, r := a / m, a % m;
    assert a == q * m + r;
    if r >= 1 {
      ModUnique(r - 1 + m, m, 1, r - 1);
      ModUnique(a - 1, m, q, r - 1);
    } else {
      ModUnique(r - 1 + m, m, 0, m - 1);
      ModUnique(a - 1, m, q - 1, m - 1);
    }
  }
}
