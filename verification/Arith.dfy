/** Facts about multiples that the solver does not find by itself. */
module Arith {
  function Max(a: nat, b: nat): nat { if a < b then b else a }

  function Min(a: nat, b: nat): nat { if a < b then a else b }

  function Pow2(n: nat): (r: nat)
    ensures r > 0
  {
    if n == 0 then 1 else 2 * Pow2(n - 1)
  }

  lemma {:induction false} Pow2Monotone(m: nat, n: nat)
    requires m <= n
    ensures Pow2(m) <= Pow2(n)
  {
    if m >= n {
    } else {
      Pow2Monotone(m, n - 1);
    }
  }

  lemma MulSign(d: int, m: nat)
    requires m > 0
    ensures d > 0 ==> d * m >= m
    ensures d < 0 ==> d * m < 0
    ensures d == 0 ==> d * m == 0
  {
    if d > 0 {
      assert d * m == (d - 1) * m + m;
    }
  }

  /** Quotient and remainder are unique. */
  lemma DivModUnique(x: nat, k: nat, m: nat, r: nat)
    requires m > 0 && r < m && x == k * m + r
    ensures x / m == k && x % m == r
  {
    assert x == (x / m) * m + x % m;
    assert (k - x / m) * m == x % m - r;
    MulSign(k - x / m, m);
    MulSign(x / m - k, m);
    assert (x / m - k) * m == r - x % m;
  }

  lemma MulStep(k: nat, m: nat)
    ensures (k + 1) * m == k * m + m
  {
  }

  lemma DivModId(x: nat, m: nat)
    requires m > 0
    ensures x == (x / m) * m + x % m
  {
  }

  lemma Divide(x: nat, m: nat) returns (q: nat, r: nat)
    requires m > 0
    ensures q == x / m && r == x % m
  {
    q, r := x / m, x % m;
  }

  lemma DivModShift(j: nat, x: nat, m: nat)
    requires m > 0
    ensures (j * m + x) / m == j + x / m && (j * m + x) % m == x % m
  {
    assert x == (x / m) * m + x % m;
    assert (j + x / m) * m == j * m + (x / m) * m;
    DivModUnique(j * m + x, j + x / m, m, x % m);
  }

  /** Splitting an offset at a multiple below it. */
  lemma DivModSplit(x: nat, y: nat, m: nat)
    requires m > 0
    ensures (x + y) / m == x / m + (x % m + y) / m && (x + y) % m == (x % m + y) % m
  {
    assert x == (x / m) * m + x % m;
    DivModShift(x / m, x % m + y, m);
  }

  lemma DivLe(x: nat, m: nat)
    requires m > 0
    ensures x / m <= x
  {
    assert x == (x / m) * m + x % m;
    MulMonotone(1, m, x / m);
    assert (x / m) * m == m * (x / m);
  }

  lemma MultiplesApart(x: nat, y: nat, m: nat)
    requires m > 0 && x % m == 0 && y % m == 0 && x < y
    ensures x + m <= y
  {
    assert x == (x / m) * m && y == (y / m) * m;
    assert (y / m - x / m) * m == y - x;
    MulSign(y / m - x / m, m);
  }

  lemma {:induction false} MulMonotone(a: nat, b: nat, m: nat)
    requires a <= b
    ensures a * m <= b * m
    ensures a < b ==> a * m + m <= b * m
    decreases b
  {
    if a < b {
      MulStep(b - 1, m);
      MulMonotone(a, b - 1, m);
    } else {
    }
  }
}
