/** strtoul (src/stdlib/stdlib.c) with its character tests (src/stdlib/ctype.c), and the round trip with printing. */
module Strtoul {
  import opened Arith
  import opened Numbers
  import opened Printing

  /** isalnum as it is written: its test for lower-case letters compares with a negative number and never holds. */
  predicate IsAlnum(c: char) { ('0' <= c <= '9') || ('A' <= c <= 'Z') }

  /** _char_to_num */
  function CharToNum(c: char): int {
    if '0' <= c <= '9' then c as int - '0' as int
    else if 'A' <= c <= 'Z' then 10 + (c as int - 'A' as int)
    else if 'a' <= c <= 'z' then 10 + (c as int - 'a' as int)
    else -1
  }

  /** The loop goes on at this character; a digit equal to the base is let through. */
  predicate Goes(c: char, base: nat) { IsAlnum(c) && CharToNum(c) <= base }

  /** How many characters are read. */
  function Span(s: Text, base: nat): (n: nat)
    ensures n <= |s| && (n < |s| ==> !Goes(s[n], base)) && forall i :: 0 <= i < n ==> Goes(s[i], base)
  {
    if s == [] || !Goes(s[0], base) then 0 else 1 + Span(s[1..], base)
  }

  predicate AllGo(s: Text, base: nat) { forall i :: 0 <= i < |s| ==> Goes(s[i], base) }

  /** The value of a digit string in positional notation. */
  function Value(s: Text, base: nat): nat
    requires AllGo(s, base)
  {
    if s == [] then 0 else Value(s[..|s| - 1], base) * base + CharToNum(s[|s| - 1])
  }

  lemma WrapStep(v: nat, base: nat, d: nat)
    ensures ((v % TWO32) * base + d) % TWO32 == (v * base + d) % TWO32
  {
    var k, r := v / TWO32, v % TWO32;
    DivModId(v, TWO32);
    assert v * base + d == (k * base) * TWO32 + (r * base + d) by {
      assert (k * TWO32 + r) * base == (k * base) * TWO32 + r * base;
    }
    DivModShift(k * base, r * base + d, TWO32);
  }

  /** strtoul: the value of the longest readable prefix, in 32 bits, and where it ends. */
  method Strtoul(s: Text, base: nat) returns (res: nat, end: nat)
    ensures end == Span(s, base) && res == Value(s[..end], base) % TWO32
  {
    res, end := 0, 0;
    while end < |s|
      invariant end <= |s| && AllGo(s[..end], base) && res == Value(s[..end], base) % TWO32
    {
      if !IsAlnum(s[end]) {
        break;
      }
      var ch := CharToNum(s[end]);
      if ch > base {
        break;
      }
      WrapStep(Value(s[..end], base), base, ch);
      assert s[..end + 1][..end] == s[..end];
      res := (res * base + ch) % TWO32;
      end := end + 1;
    }
    SpanIs(s, base, end);
  }

  lemma {:induction false} SpanIs(s: Text, base: nat, n: nat)
    requires n <= |s| && AllGo(s[..n], base) && (n < |s| ==> !Goes(s[n], base))
    ensures Span(s, base) == n
  {
    if n == 0 {
    } else {
      assert s[0] == s[..n][0];
      assert s[1..][..n - 1] == s[..n][1..];
      SpanIs(s[1..], base, n - 1);
    }
  }

  function Parse(s: Text, base: nat): nat { Value(s[..Span(s, base)], base) % TWO32 }

  // ---------------------------------------------------------------- what C asks for

  /** A digit of the base, in either case. */
  predicate IsDigit(c: char, base: nat) { 0 <= CharToNum(c) < base }

  /** How many characters the standard's strtoul reads. */
  function DigitSpan(s: Text, base: nat): (n: nat)
    ensures n <= |s| && (n < |s| ==> !IsDigit(s[n], base)) && forall i :: 0 <= i < n ==> IsDigit(s[i], base)
  {
    if s == [] || !IsDigit(s[0], base) then 0 else 1 + DigitSpan(s[1..], base)
  }

  /** The two tests differ at a digit one too large for the base, and at a lower-case digit. */
  predicate Odd(c: char, base: nat) {
    (IsAlnum(c) && CharToNum(c) == base) || ('a' <= c <= 'z' && CharToNum(c) < base)
  }

  lemma OddIsDifference(c: char, base: nat)
    ensures Odd(c, base) <==> Goes(c, base) != IsDigit(c, base)
  {
  }

  /** The first character that is no plain digit of the base: the end of what both readings take. */
  function PlainSpan(s: Text, base: nat): (n: nat)
    ensures n <= |s| && (n < |s| ==> !Goes(s[n], base) || !IsDigit(s[n], base))
    ensures forall i :: 0 <= i < n ==> Goes(s[i], base) && IsDigit(s[i], base)
  {
    if s == [] || !Goes(s[0], base) || !IsDigit(s[0], base) then 0 else 1 + PlainSpan(s[1..], base)
  }

  /**
    strtoul stops where the standard does if and only if the first character that is no plain digit of
    the base is neither a digit one too large nor a lower-case digit.
  */
  lemma SpanExact(s: Text, base: nat)
    ensures var n := PlainSpan(s, base);
      Span(s, base) == DigitSpan(s, base) <==> n == |s| || !Odd(s[n], base)
  {
    var n, a, b := PlainSpan(s, base), Span(s, base), DigitSpan(s, base);
    assert n <= a && n <= b;
    if n < |s| {
      OddIsDifference(s[n], base);
      assert (a == n) == !Goes(s[n], base) && (b == n) == !IsDigit(s[n], base);
    }
  }

  /** A digit equal to the base counts, and a lower-case one does not. */
  lemma SpanInputs()
    ensures Parse("A", 10) == 10 && DigitSpan("A", 10) == 0
    ensures Parse("a", 16) == 0 && DigitSpan("a", 16) == 1
  {
    assert Goes('A', 10) && !IsDigit('A', 10) && !Goes('a', 16) && IsDigit('a', 16);
    assert "A"[1..] == [] && "a"[1..] == [];
    assert Span("A", 10) == 1 && Span("a", 16) == 0;
    assert "A"[..1] == "A" && "A"[..0] == [] && "a"[..0] == [];
    assert Value("A", 10) == 10;
  }

  // ---------------------------------------------------------------- round trip

  lemma DigitGoes(d: nat, base: nat)
    requires d < base && Base(base)
    ensures Goes(DigitChar(d, true), base) && CharToNum(DigitChar(d, true)) == d
  {
  }

  lemma {:induction false} ValueOfDigits(n: nat, base: nat)
    requires Base(base)
    ensures AllGo(Digits(n, base, true), base) && Value(Digits(n, base, true), base) == n
    decreases n
  {
    if n == 0 {
    } else {
      QuotientLess(n, base);
      ValueOfDigits(n / base, base);
      DigitGoes(n % base, base);
      var p := Digits(n / base, base, true);
      var s := p + [DigitChar(n % base, true)];
      assert s[..|s| - 1] == p;
      DivModId(n, base);
    }
  }

  lemma {:induction false} LeadingZeros(k: nat, s: Text, base: nat)
    requires AllGo(s, base)
    ensures AllGo(Rep('0', k) + s, base) && Value(Rep('0', k) + s, base) == Value(s, base)
    decreases |s|, k
  {
    var t := Rep('0', k) + s;
    if s != [] {
      var m := |s| - 1;
      assert t[..|t| - 1] == Rep('0', k) + s[..m];
      LeadingZeros(k, s[..m], base);
    } else if k > 0 {
      assert t[..k - 1] == Rep('0', k - 1) + s;
      LeadingZeros(k - 1, s, base);
    }
  }

  lemma ParseAll(s: Text, base: nat)
    requires AllGo(s, base)
    ensures Parse(s, base) == Value(s, base) % TWO32
  {
    SpanIs(s, base, |s|);
    assert s[..|s|] == s;
  }

  /** Unsigned, upper case, no sign character. */
  function Plain(padZero: bool): Flags { Flags(true, padZero, false, false, true) }

  lemma BodyValue(n: nat, base: nat)
    requires Base(base)
    ensures AllGo(Body(n, base, true), base) && Value(Body(n, base, true), base) == n
  {
    ValueOfDigits(n, base);
    if n == 0 {
      assert "0"[..0] == [];
    }
  }

  lemma ParseNumber(s: Text, base: nat, n: nat)
    requires AllGo(s, base) && Value(s, base) == n < TWO32
    ensures Parse(s, base) == n
  {
    ParseAll(s, base);
  }

  lemma ParseBlank(s: Text, base: nat)
    requires s != [] && s[0] == ' '
    ensures Parse(s, base) == 0
  {
    assert Span(s, base) == 0;
    assert s[..0] == [];
  }

  lemma PlainIs(n: nat, base: nat, pad: nat, padZero: bool, s: Text)
    requires n < TWO32 && Base(base)
    requires var body := Body(n, base, true);
      s == Rep(if padZero then '0' else ' ', if pad > |body| then pad - |body| else 0) + body
    ensures Printed(n, base, pad, Plain(padZero)) == s
  {
  }

  /**
    Parsing what was printed gives the number back, for every number below 2^32 and every width,
    exactly when the width is filled with zeros, or not needed, or the number is zero.
  */
  lemma PrintThenParse(n: nat, base: nat, pad: nat, padZero: bool)
    requires n < TWO32 && Base(base)
    ensures Parse(Printed(n, base, pad, Plain(padZero)), base) == n
            <==> padZero || pad <= |Body(n, base, true)| || n == 0
  {
    var body := Body(n, base, true);
    var k := if pad > |body| then pad - |body| else 0;
    var s := Rep(if padZero then '0' else ' ', k) + body;
    PlainIs(n, base, pad, padZero, s);
    BodyValue(n, base);
    if padZero || k == 0 {
      if padZero {
        LeadingZeros(k, body, base);
      } else {
        assert s == body;
      }
      ParseNumber(s, base, n);
    } else {
      ParseBlank(s, base);
    }
  }

  // ---------------------------------------------------------------- what a printed number says

  predicate AllDigits(s: Text, base: nat) { forall i :: 0 <= i < |s| ==> IsDigit(s[i], base) }

  /** The value of a digit string with letters of either case. */
  function AnyValue(s: Text, base: nat): nat
    requires AllDigits(s, base)
  {
    if s == [] then 0 else AnyValue(s[..|s| - 1], base) * base + CharToNum(s[|s| - 1])
  }

  /** All letters are of the one case. */
  predicate OneCase(s: Text, upper: bool) {
    forall i :: 0 <= i < |s| ==> if upper then !('a' <= s[i] <= 'z') else !('A' <= s[i] <= 'Z')
  }

  lemma {:induction false} DigitsSay(n: nat, base: nat, upper: bool)
    requires Base(base)
    ensures var s := Digits(n, base, upper);
      && AllDigits(s, base) && AnyValue(s, base) == n && OneCase(s, upper) && (n > 0 ==> s != [] && s[0] != '0')
    decreases n
  {
    if n == 0 {
    } else {
      QuotientLess(n, base);
      var q, r := Divide(n, base);
      DigitsSay(q, base, upper);
      DivModId(n, base);
      OneMore(Digits(q, base, upper), r, base, upper);
    }
  }

  /** A digit string with one digit more. */
  lemma OneMore(p: Text, r: nat, base: nat, upper: bool)
    requires Base(base) && r < base && AllDigits(p, base) && OneCase(p, upper)
    ensures var s := p + [DigitChar(r, upper)];
      && AllDigits(s, base) && AnyValue(s, base) == AnyValue(p, base) * base + r && OneCase(s, upper)
      && (if p == [] then r > 0 ==> s[0] != '0' else s[0] == p[0])
  {
    var c := DigitChar(r, upper);
    DigitSays(r, upper);
    assert (p + [c])[..|p|] == p;
  }

  lemma DigitSays(r: nat, upper: bool)
    requires r < 16
    ensures var c := DigitChar(r, upper);
      && CharToNum(c) == r && (r > 0 ==> c != '0') && (if upper then !('a' <= c <= 'z') else !('A' <= c <= 'Z'))
  {
  }

  lemma BodySays(v: nat, base: nat, upper: bool)
    requires Base(base)
    ensures var s := Body(v, base, upper);
      AllDigits(s, base) && AnyValue(s, base) == v && OneCase(s, upper) && (|s| > 1 ==> s[0] != '0')
  {
    DigitsSay(v, base, upper);
    if v == 0 {
      assert "0"[..0] == [];
    }
  }

  /** The number in 64 bits, two's complement unless it is meant to be unsigned. */
  function Signed(num: nat, unsigned: bool): int {
    if unsigned || num < 0x8000_0000_0000_0000 then num else num - 0x1_0000_0000_0000_0000
  }

  /**
    What _print_int writes: a sign if the number is negative or one is asked for, fill up to the width, and the
    digits of the number's absolute value in the case asked for, without leading zeros.
  */
  lemma PrintMeans(num: nat, base: nat, pad: nat, f: Printing.Flags) returns (sign: Text, fill: Text, body: Text)
    requires num < TWO64 && Base(base)
    ensures Printed(num, base, pad, f) == sign + fill + body
    ensures var v := Signed(num, f.unsigned);
      && sign == (if v < 0 then "-" else if f.posSign then "+" else if f.posSpace then " " else "")
      && AllDigits(body, base) && AnyValue(body, base) == (if v < 0 then -v else v) && OneCase(body, f.upper)
    ensures |body| >= 1 && (|body| > 1 ==> body[0] != '0')
    ensures |fill| == (if pad > |body| then pad - |body| else 0)
    ensures forall i :: 0 <= i < |fill| ==> fill[i] == if f.padZero then '0' else ' '
  {
    var v := Magnitude(num, f);
    sign, body := Sign(num, f), Body(v, base, f.upper);
    fill := Rep(if f.padZero then '0' else ' ', if pad > |body| then pad - |body| else 0);
    BodySays(v, base, f.upper);
  }
}
