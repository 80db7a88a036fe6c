/** _print_int (src/io/output.c, lines 122-162). */
module Printing {
  import opened Arith
  import opened Numbers

  type Text = seq<char>

  // ---------------------------------------------------------------- printing

  /** The flags that matter: the sign of the argument, padding, sign characters, letter case. */
  datatype Flags = Flags(unsigned: bool, padZero: bool, posSign: bool, posSpace: bool, upper: bool)

  const UPPER: Text := "0123456789ABCDEF"
  const LOWER: Text := "0123456789abcdef"

  function DigitChar(d: nat, upper: bool): char
    requires d < 16
  {
    if upper then UPPER[d] else LOWER[d]
  }

  predicate Base(base: nat) { 8 <= base <= 16 }

  /** The digits of n, most significant first; none for zero. */
  function Digits(n: nat, base: nat, upper: bool): Text
    requires Base(base)
    decreases n
  {
    if n == 0 then [] else QuotientLess(n, base); Digits(n / base, base, upper) + [DigitChar(n % base, upper)]
  }

  lemma QuotientLess(n: nat, base: nat)
    requires base >= 2 && n > 0
    ensures n / base < n
  {
    DivModId(n, base);
    if n / base >= n {
      MulMonotone(2, base, n / base);
    }
  }

  function Body(n: nat, base: nat, upper: bool): (r: Text)
    requires Base(base)
    ensures |r| >= 1
  {
    if n == 0 then "0" else Digits(n, base, upper)
  }

  function Rep(c: char, n: nat): (r: Text)
    ensures |r| == n
  {
    seq(n, _ => c)
  }

  function Negative(num: nat, f: Flags): bool { !f.unsigned && num >= TWO63 }

  function Magnitude(num: nat, f: Flags): nat
    requires num < TWO64
  {
    if Negative(num, f) then TWO64 - num else num
  }

  function Sign(num: nat, f: Flags): Text {
    if Negative(num, f) then "-" else if f.posSign then "+" else if f.posSpace then " " else ""
  }

  /** What _print_int writes: sign, padding up to the width, digits. */
  function Printed(num: nat, base: nat, pad: nat, f: Flags): Text
    requires num < TWO64 && Base(base)
  {
    var body := Body(Magnitude(num, f), base, f.upper);
    Sign(num, f) + Rep(if f.padZero then '0' else ' ', if pad > |body| then pad - |body| else 0) + body
  }

  function Pow8(k: nat): nat { if k == 0 then 1 else 8 * Pow8(k - 1) }

  lemma DigitLess(n: nat, base: nat, m: nat)
    requires base >= 8 && n < 8 * m
    ensures n / base < m
  {
    DivModId(n, base);
    MulMonotone(8, base, n / base);
    assert (n / base) * base == base * (n / base);
  }

  lemma {:induction false} DigitCount(n: nat, base: nat, upper: bool, k: nat)
    requires Base(base) && n < Pow8(k)
    ensures |Digits(n, base, upper)| <= k
    decreases k
  {
    if n == 0 {
    } else {
      DigitLess(n, base, Pow8(k - 1));
      DigitCount(n / base, base, upper, k - 1);
    }
  }

  /** 64 bits never need more than 22 digits, whatever the base; the buffer has 25. */
  lemma DigitsFit(n: nat, base: nat, upper: bool)
    requires Base(base) && n < TWO64
    ensures |Digits(n, base, upper)| <= 22
  {
    assert Pow8(6) == 262144;
    assert Pow8(12) == 262144 * 262144;
    assert Pow8(18) == 262144 * 262144 * 262144;
    assert Pow8(22) == 4096 * (262144 * 262144 * 262144);
    DigitCount(n, base, upper, 22);
  }

  function Reverse(s: Text): (r: Text)
    ensures |r| == |s|
  {
    seq(|s|, i requires 0 <= i < |s| => s[|s| - 1 - i])
  }

  lemma DigitsStep(num: nat, base: nat, upper: bool, q: nat, rem: nat, done: Text)
    requires Base(base) && num > 0 && num == q * base + rem && rem < base
    ensures q < num
    ensures Digits(num, base, upper) + done == Digits(q, base, upper) + ([DigitChar(rem, upper)] + done)
  {
    QuotientLess(num, base);
    DivModUnique(num, q, base, rem);
  }

  lemma ReverseStep(s: Text, c: char)
    ensures Reverse([c] + s) == Reverse(s) + [c]
  {
  }

  /** The digit loop: least significant digit first into ans. */
  method FillDigits(num0: nat, base: nat, upper: bool, ans: array<char>) returns (i: nat)
    requires num0 < TWO64 && Base(base) && ans.Length == 25
    modifies ans
    ensures i <= 22 && ans[..i] == Reverse(Digits(num0, base, upper))
    ensures i == 0 ==> ans[0] == old(ans[0])
  {
    DigitsFit(num0, base, upper);
    var num: nat := num0;
    i := 0;
    ghost var all, done := Digits(num0, base, upper), [];
    while num != 0
      invariant num < TWO64 && i == |done| && all == Digits(num, base, upper) + done
      invariant ans[..i] == Reverse(done) && (i == 0 ==> ans[0] == old(ans[0]))
      decreases num
    {
      SmallDivisor(num, base);
      var q, rem := Udiv64(num, base);
      DigitsStep(num, base, upper, q, rem, done);
      ReverseStep(done, DigitChar(rem, upper));
      done := [DigitChar(rem, upper)] + done;
      PutDigit(ans, i, DigitChar(rem, upper));
      num := q;
      i := i + 1;
    }
    assert all == done;
  }

  method PutDigit(ans: array<char>, i: nat, c: char)
    requires i < ans.Length
    modifies ans
    ensures ans[..i + 1] == old(ans[..i]) + [c]
  {
    ans[i] := c;
  }

  /** The digit buffer of _print_int, and how much of it is used; zero still has its one digit. */
  method DigitBuffer(num: nat, base: nat, upper: bool) returns (ans: array<char>, i: nat)
    requires num < TWO64 && Base(base)
    ensures fresh(ans) && i <= ans.Length && ans[..i] == Reverse(Body(num, base, upper))
  {
    ans := new char[25](i => if i == 0 then '0' else '\0');
    i := FillDigits(num, base, upper, ans);
    if i == 0 {
      i := 1;
      assert ans[..1] == Reverse("0");
    }
  }

  /** _print_int */
  method PrintInt(num0: nat, base: nat, pad: nat, f: Flags, out: array<char>) returns (n: nat)
    requires num0 < TWO64 && Base(base) && pad < 256 && |Printed(num0, base, pad, f)| <= out.Length
    modifies out
    ensures n == |Printed(num0, base, pad, f)| && out[..n] == Printed(num0, base, pad, f)
    ensures out[n..] == old(out[n..])
  {
    var neg := !f.unsigned && num0 >= TWO63;
    var num: nat := if neg then TWO64 - num0 else num0;
    ghost var body := Body(num, base, f.upper);
    var ans, i := DigitBuffer(num, base, f.upper);
    n := PutSign(num0, neg, f, out);
    ghost var n1, o1 := n, out[..];
    var p: nat := if pad > i then pad - i else 0;
    n := PutRep(out, n, if f.padZero then '0' else ' ', p);
    ghost var n2, o2 := n, out[..];
    n := PutReversed(out, n, ans, i, body);
    SameTail(old(out[..]), o1, n1, n);
    SameTail(o1, o2, n2, n);
  }

  lemma SameTail(a: Text, b: Text, n: nat, m: nat)
    requires n <= m <= |a| == |b| && a[n..] == b[n..]
    ensures a[m..] == b[m..]
  {
    assert a[m..] == a[n..][m - n..] && b[m..] == b[n..][m - n..];
  }

  /** Lines 142-150. */
  method PutSign(ghost num: nat, neg: bool, f: Flags, out: array<char>) returns (n: nat)
    requires neg == Negative(num, f) && |Sign(num, f)| <= out.Length
    modifies out
    ensures n == |Sign(num, f)| && out[..n] == Sign(num, f) && out[n..] == old(out[n..])
  {
    n := 0;
    if neg {
      out[0] := '-';
      n := 1;
    } else if f.posSign {
      out[0] := '+';
      n := 1;
    } else if f.posSpace {
      out[0] := ' ';
      n := 1;
    }
  }

  /** The padding loop. */
  method PutRep(out: array<char>, at: nat, c: char, p: nat) returns (n: nat)
    requires at + p <= out.Length
    modifies out
    ensures n == at + p && out[..n] == old(out[..at]) + Rep(c, p) && out[n..] == old(out[n..])
  {
    n := at;
    for k := 0 to p
      invariant n == at + k && out[..n] == old(out[..at]) + Rep(c, k) && out[n..] == old(out[n..])
    {
      out[n] := c;
      n := n + 1;
      assert Rep(c, k + 1) == Rep(c, k) + [c];
    }
  }

  /** The last loop: the digits in reverse. */
  method PutReversed(out: array<char>, at: nat, ans: array<char>, i0: nat, ghost body: Text) returns (n: nat)
    requires out != ans && i0 <= ans.Length && at + i0 <= out.Length && ans[..i0] == Reverse(body)
    modifies out
    ensures n == at + i0 && out[..n] == old(out[..at]) + body && out[n..] == old(out[n..])
  {
    n := at;
    var i: int := i0 - 1;
    while i >= 0
      invariant -1 <= i < i0 && n == at + (i0 - 1 - i)
      invariant out[..n] == old(out[..at]) + body[..n - at] && out[n..] == old(out[n..])
      invariant ans[..i0] == Reverse(body)
    {
      assert ans[i] == ans[..i0][i] == body[n - at];
      out[n] := ans[i];
      n := n + 1;
      i := i - 1;
    }
    assert body[..i0] == body;
  }
}
