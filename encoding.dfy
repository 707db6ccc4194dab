/**
 * Bits, bytes and positional numbers.
 *
 * Both big-endian integer fields (base 256) and MSB-first bit packing (base 2)
 * are instances of one idea: a number written as a fixed count of digits, most
 * significant digit first. `Digits` writes a number, `Value` reads it back.
 */
module Encoding {

  type Bit = x: nat | x < 2
  type Byte = x: nat | x < 256

  /** `n` zero digits, in any base. */
  function Zeros(n: nat): (r: seq<Bit>)
    ensures |r| == n && forall i :: 0 <= i < n ==> r[i] == 0
  {
    seq(n, _ => 0)
  }

  function Pow(base: nat, exp: nat): (r: nat)
    ensures base > 0 ==> r > 0
  {
    if exp == 0 then 1 else base * Pow(base, exp - 1)
  }

  /** The `n` lowest digits of `x` in base `base`, most significant first. */
  function Digits(x: nat, base: nat, n: nat): (r: seq<nat>)
    requires base >= 2
    ensures |r| == n
    ensures forall i :: 0 <= i < n ==> r[i] < base
  {
    if n == 0 then [] else Digits(x / base, base, n - 1) + [x % base]
  }

  /** The number whose base-`base` digits, most significant first, are `s`. */
  function Value(s: seq<nat>, base: nat): nat
  {
    if s == [] then 0 else Value(s[..|s| - 1], base) * base + s[|s| - 1]
  }

  lemma DivModUnique(x: int, d: int, q: int, r: int)
    requires 0 < d && 0 <= r < d && x == q * d + r
    ensures x / d == q && x % d == r
  {
    var q', r' := x / d, x % d;
    assert (q - q') * d == r' - r;
    if q > q' {
      MulAtLeast(q - q', d);
    } else if q < q' {
      MulAtLeast(q' - q, d);
    }
  }

  lemma MulAtLeast(a: int, d: int)
    requires a >= 1 && d > 0
    ensures a * d >= d
  {
    assert a * d == (a - 1) * d + d;
    assert (a - 1) * d >= 0;
  }

  lemma MulAddDistrib(a: int, c: int, b: int)
    ensures (a + c) * b == a * b + c * b
  {
  }

  lemma MulLeMono(a: int, a': int, b: int)
    requires a <= a' && b >= 0
    ensures a * b <= a' * b
  {
    assert a' * b - a * b == (a' - a) * b;
  }

  /** Dividing by `b` and then by `p` is dividing by `b * p`; the remainder
      of the latter is made of the two partial remainders. */
  lemma DivModNested(x: nat, b: nat, p: nat)
    requires b > 0 && p > 0
    ensures x / (b * p) == x / b / p
    ensures x % (b * p) == (x / b % p) * b + x % b
  {
    var q, r := x / b, x % b;
    var q2, r2 := q / p, q % p;
    assert x == q * b + r;
    assert q == q2 * p + r2;
    MulAddDistrib(q2 * p, r2, b);
    assert q2 * p * b == q2 * (b * p);
    assert x == q2 * (b * p) + (r2 * b + r);
    MulLeMono(r2, p - 1, b);
    MulAddDistrib(p - 1, 1, b);
    assert r2 * b + r < b * p;
    DivModUnique(x, b * p, q2, r2 * b + r);
  }

  /** One step of reading digits back: appending the last digit `x % b` to
      the value of the higher digits `x / b % p` gives `x % (b * p)`. */
  lemma ReadDigitStep(x: nat, b: nat, p: nat, v: nat, w: nat)
    requires b > 0 && p > 0
    requires v == x / b % p && w == v * b + x % b
    ensures w == x % (b * p)
  {
    DivModNested(x, b, p);
  }

  /** Reading back the digits of `x` gives `x` modulo the digit range. */
  lemma {:induction false} ValueOfDigits(x: nat, base: nat, n: nat)
    requires base >= 2
    ensures Value(Digits(x, base, n), base) == x % Pow(base, n)
  {
    if n == 0 {
      ModPowZero(x, base);
    } else {
      ValueOfDigits(x / base, base, n - 1);
      ValueOfDigitsStep(x, base, n);
    }
  }

  lemma ModPowZero(x: nat, base: nat)
    ensures x % Pow(base, 0) == 0
  {
    assert Pow(base, 0) == 1;
  }

  /** The inductive step of `ValueOfDigits`, with the hypothesis for the
      higher digits `x / base` as a precondition. */
  lemma ValueOfDigitsStep(x: nat, base: nat, n: nat)
    requires base >= 2 && n > 0
    requires Value(Digits(x / base, base, n - 1), base) == x / base % Pow(base, n - 1)
    ensures Value(Digits(x, base, n), base) == x % Pow(base, n)
  {
    var d, e := Digits(x, base, n), Digits(x / base, base, n - 1);
    assert d[..n - 1] == e;
    ReadDigitStep(x, base, Pow(base, n - 1), Value(e, base), Value(d, base));
  }

  /** Writing the value of a digit string gives back the same digits. */
  lemma {:induction false} DigitsOfValue(s: seq<nat>, base: nat)
    requires base >= 2
    requires forall i :: 0 <= i < |s| ==> s[i] < base
    ensures Digits(Value(s, base), base, |s|) == s
  {
    if s != [] {
      var init, last := s[..|s| - 1], s[|s| - 1];
      DigitsOfValue(init, base);
      DivModUnique(Value(s, base), base, Value(init, base), last);
      assert init + [last] == s;
    }
  }

  /** A string of `n` digits denotes a number below base^n. */
  lemma ValueBound(s: seq<nat>, base: nat)
    requires base >= 2
    requires forall i :: 0 <= i < |s| ==> s[i] < base
    ensures Value(s, base) < Pow(base, |s|)
  {
    DigitsOfValue(s, base);
    ValueOfDigits(Value(s, base), base, |s|);
  }

  /** Digit `j` (counted from the most significant end) of `x`. */
  lemma {:induction false} DigitAt(x: nat, base: nat, n: nat, j: nat)
    requires base >= 2 && j < n
    ensures Digits(x, base, n)[j] == x / Pow(base, n - 1 - j) % base
  {
    if j == n - 1 {
      assert Pow(base, 0) == 1;
      assert x / 1 == x;
    } else {
      DigitAt(x / base, base, n - 1, j);
      DivModNested(x, base, Pow(base, n - 2 - j));
    }
  }
}
