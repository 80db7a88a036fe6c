/**
  64-bit division (src/io/output.c, lines 43-119).  Words are integers with their ranges written out.
*/
module Numbers {
  import opened Arith

  const TWO32: nat := 0x1_0000_0000
  const TWO63: nat := 0x8000_0000_0000_0000
  const TWO64: nat := 0x1_0000_0000_0000_0000

  // ---------------------------------------------------------------- division

  /** The position of the most significant bit. */
  function Msb(n: nat): (r: nat)
    requires n >= 1
  {
    if n == 1 then 0 else 1 + Msb(n / 2)
  }

  lemma {:induction false} MsbBounds(n: nat)
    requires n >= 1
    ensures Pow2(Msb(n)) <= n < Pow2(Msb(n) + 1)
  {
    if n <= 1 {
    } else {
      MsbBounds(n / 2);
    }
  }

  lemma {:induction false} MsbMonotone(a: nat, b: nat)
    requires 1 <= b <= a
    ensures Msb(b) <= Msb(a)
  {
    if b <= 1 {
    } else {
      MsbMonotone(a / 2, b / 2);
    }
  }

  /** __builtin_clzll(x | 1) */
  function Clz(x: nat): int { 63 - Msb(if x == 0 then 1 else x) }

  lemma {:induction false} Pow2Sum(m: nat, n: nat)
    ensures Pow2(m + n) == Pow2(m) * Pow2(n)
  {
    if n == 0 {
    } else {
      Pow2Sum(m, n - 1);
      assert Pow2(m) * (2 * Pow2(n - 1)) == 2 * (Pow2(m) * Pow2(n - 1));
    }
  }

  /** b << k */
  function Shl(b: nat, k: nat): nat {
    if k == 0 then b else 2 * Shl(b, k - 1)
  }

  lemma {:induction false} ShlIsTimes(b: nat, k: nat)
    ensures Shl(b, k) == b * Pow2(k)
  {
    if k == 0 {
    } else {
      ShlIsTimes(b, k - 1);
      assert b * (2 * Pow2(k - 1)) == 2 * (b * Pow2(k - 1));
    }
  }

  /** The shifted divisor is below 2^64, and twice it is above the dividend. */
  lemma ShiftFits(a: nat, b: nat, shift: nat)
    requires 1 <= b <= a < TWO64 && shift == Msb(a) - Msb(b)
    ensures Shl(b, shift) < TWO64 && a < Shl(b, shift + 1)
  {
    MsbBounds(a);
    MsbBounds(b);
    var mb, s := Msb(b), shift;
    Pow2Sum(mb, s + 1);
    Pow2Sum(mb + 1, s);
    MulMonotone(Pow2(mb), b, Pow2(s + 1));
    MulMonotone(b, Pow2(mb + 1), Pow2(s));
    ShlIsTimes(b, s);
    ShlIsTimes(b, s + 1);
    MsbOf64(a);
    Pow2Monotone(Msb(a) + 1, 64);
  }

  lemma Pow2Of64()
    ensures Pow2(64) == TWO64
  {
    assert Pow2(4) == 16;
    Pow2Sum(4, 4);
    Pow2Sum(8, 8);
    Pow2Sum(16, 16);
    Pow2Sum(32, 32);
  }

  lemma MsbOf64(a: nat)
    requires 1 <= a < TWO64
    ensures Msb(a) < 64 && Pow2(64) == TWO64
  {
    MsbBounds(a);
    Pow2Of64();
    if Msb(a) >= 64 {
      Pow2Monotone(64, Msb(a));
    }
  }

  /** One round: twice the quotient, and the divisor once more if it fits. */
  lemma Round(a0: nat, a: nat, q: nat, b: nat, c: nat)
    requires q * c + a == a0 && c == 2 * b && a < c
    ensures a >= b ==> (2 * q + 1) * b + (a - b) == a0
    ensures a < b ==> (2 * q) * b + a == a0
  {
    assert q * (2 * b) == (2 * q) * b;
    assert (2 * q + 1) * b == (2 * q) * b + b;
  }

  /** The divisor udiv64 works with: below 2^32 it divides in 32 bits and cuts the divisor. */
  function UsedDivisor(a: nat, b: nat): nat { if a < TWO32 then b % TWO32 else b }

  lemma SmallDivisor(a: nat, b: nat)
    requires b < TWO32
    ensures UsedDivisor(a, b) == b
  {
  }

  /** udiv64; a divisor that is zero, or becomes zero when cut, is a processor fault. */
  method Udiv64(a0: nat, b0: nat) returns (q: nat, rem: nat)
    requires a0 < TWO64 && b0 < TWO64 && UsedDivisor(a0, b0) > 0
    ensures a0 == q * UsedDivisor(a0, b0) + rem && rem < UsedDivisor(a0, b0)
    ensures q <= a0
  {
    if a0 < TWO32 {
      q, rem := Divide32(a0, b0 % TWO32);
    } else if b0 > a0 {
      q, rem := 0, a0;
    } else {
      ShiftRange(a0, b0);
      q, rem := ShiftSubtract(a0, b0, Clz(b0) - Clz(a0));
      QuotientLe(a0, q, b0, rem);
    }
  }

  /** So it divides by what it is given if and only if the divisor is not cut, or the dividend is below even the cut one. */
  lemma UdivExact(a: nat, b: nat, q: nat, rem: nat)
    requires a < TWO64 && 0 < b < TWO64 && UsedDivisor(a, b) > 0
    requires a == q * UsedDivisor(a, b) + rem && rem < UsedDivisor(a, b)
    ensures a == q * b + rem && rem < b <==> a >= TWO32 || b < TWO32 || a < b % TWO32
  {
    var u := UsedDivisor(a, b);
    if a < TWO32 && b >= TWO32 {
      if q == 0 {
        assert q * u == 0 && q * b == 0;
      } else {
        MulMonotone(1, q, u);
        MulMonotone(1, q, b);
      }
    } else {
      assert u == b;
    }
  }

  /** The processor's own division. */
  method Divide32(a: nat, b: nat) returns (q: nat, rem: nat)
    requires b > 0
    ensures a == q * b + rem && rem < b && q <= a
  {
    q, rem := a / b, a % b;
    DivModId(a, b);
    DivLe(a, b);
  }

  lemma ShiftRange(a: nat, b: nat)
    requires 1 <= b <= a < TWO64
    ensures Clz(b) - Clz(a) >= 0 && a < Shl(b, Clz(b) - Clz(a) + 1)
  {
    MsbMonotone(a, b);
    ShiftFits(a, b, Msb(a) - Msb(b));
  }

  lemma QuotientLe(a: nat, q: nat, b: nat, r: nat)
    requires b > 0 && a == q * b + r
    ensures q <= a
  {
    MulMonotone(1, b, q);
    assert q * b == b * q;
  }

  /** The loop of udiv64 (lines 62-84). */
  method ShiftSubtract(a0: nat, b0: nat, shift0: nat) returns (q: nat, a: nat)
    requires a0 < Shl(b0, shift0 + 1)
    ensures a0 == q * b0 + a && a < b0
  {
    var shift: int := shift0;
    a := a0;
    var b: nat := Shl(b0, shift);
    q := 0;
    ghost var c: nat := Shl(b0, shift + 1);
    while shift >= 0
      invariant -1 <= shift && c == Shl(b0, shift + 1) && (shift >= 0 ==> b == Shl(b0, shift))
      invariant q * c + a == a0 && a < c
      decreases shift
    {
      q, a := OneRound(a0, a, q, b, c);
      c := b;
      b := b / 2;
      shift := shift - 1;
    }
  }

  /** The loop's body: shift the quotient, subtract the divisor if it fits. */
  method OneRound(ghost a0: nat, a: nat, q: nat, b: nat, ghost c: nat) returns (q': nat, a': nat)
    requires q * c + a == a0 && c == 2 * b && a < c
    ensures q' * b + a' == a0 && a' < b
  {
    Round(a0, a, q, b, c);
    q', a' := 2 * q, a;
    if a >= b {
      a' := a - b;
      q' := q' + 1;
    }
  }
}
