/** Decimal place values and digits of non-negative integers, as
    `countingSort` and `radixSort` in serial.cpp use them. */
module Digits {

  /** The radix: both functions of serial.cpp work in base 10. */
  const Base: nat := 10

  /** The quotient of `x` by `exp`, by repeated subtraction. `QuotIsDiv`
      shows it is `x / exp`; written this way, its unfolding is linear. */
  function Quot(x: nat, exp: nat): nat
    requires exp > 0
    decreases x
  {
    if x < exp then 0 else 1 + Quot(x - exp, exp)
  }

  /** The digit of `x` at place value `exp`, `(x / exp) % 10` (see
      `DigitIsDiv`). */
  function Digit(x: nat, exp: nat): (d: nat)
    requires exp > 0
    ensures d < Base
    ensures x < exp ==> d == 0
  {
    Quot(x, exp) % Base
  }

  /** `Quot` is division on natural numbers. */
  lemma {:induction false} QuotIsDiv(x: nat, exp: nat)
    requires exp > 0
    ensures Quot(x, exp) == x / exp
    decreases x
  {
    if x < exp {
      DivModUnique(x, exp, 0, x);
    } else {
      QuotIsDiv(x - exp, exp);
      var q, r := (x - exp) / exp, (x - exp) % exp;
      assert x - exp == exp * q + r;
      assert x == exp * (q + 1) + r;
      DivModUnique(x, exp, q + 1, r);
    }
  }

  /** The digit is the one countingSort computes: `(x / exp) % 10`. For
      non-negative operands C++ division and remainder agree with Dafny's. */
  lemma DigitIsDiv(x: nat, exp: nat)
    requires exp > 0
    ensures Digit(x, exp) == (x / exp) % Base
  {
    QuotIsDiv(x, exp);
  }

  /** The place value of the `k`-th decimal digit: 1, 10, 100, ... */
  function Pow10(k: nat): (p: nat)
    ensures p > 0
  {
    if k == 0 then 1 else Base * Pow10(k - 1)
  }

  /** The number of decimal digits of `m`, with zero having none. */
  function NumDigits(m: nat): nat
  {
    if m == 0 then 0 else 1 + NumDigits(m / Base)
  }

  /** Multiplying both sides of `a <= b` by the same natural number. */
  lemma MulMono(a: nat, b: nat, c: nat)
    requires a <= b
    ensures a * c <= b * c
  {
  }

  /** A lower leading digit gives a lower number, whatever the digits below. */
  lemma PlaceLess(dx: nat, dy: nat, p: nat, rx: nat, ry: nat)
    requires dx < dy && rx < p
    ensures dx * p + rx < dy * p + ry
  {
    MulMono(dx + 1, dy, p);
    assert (dx + 1) * p == dx * p + p;
  }

  /** A number below the modulus is its own remainder. */
  lemma ModBelow(x: nat, m: nat)
    requires x < m
    ensures x % m == x
  {
    DivModUnique(x, m, 0, x);
  }

  /** Division with remainder has exactly one quotient and one remainder. */
  lemma DivModUnique(m: nat, d: nat, q: nat, r: nat)
    requires d > 0 && r < d && m == d * q + r
    ensures m / d == q && m % d == r
  {
    var q', r' := m / d, m % d;
    assert m == d * q' + r';
    if q' < q {
      MulMono(q' + 1, q, d);
      assert false;
    } else if q < q' {
      MulMono(q + 1, q', d);
      assert false;
    }
  }

  /** Dividing by 10 and then by `p` is dividing by `10 * p`. */
  lemma DivDiv(m: nat, p: nat)
    requires p > 0
    ensures m / (Base * p) == (m / Base) / p
  {
    var q, r := m / (Base * p), m % (Base * p);
    assert m == Base * p * q + r;
    var r1, r0 := r / Base, r % Base;
    assert r == Base * r1 + r0;
    assert r1 < p;
    assert m == Base * (p * q + r1) + r0;
    DivModUnique(m, Base, p * q + r1, r0);
    DivModUnique(m / Base, p, q, r1);
  }

  /** The remainder modulo `10 * exp` is the digit at `exp` followed by the
      remainder modulo `exp`: what lets an LSD pass extend the sorted key by
      one digit. */
  lemma ModSplit(x: nat, exp: nat)
    requires exp > 0
    ensures x % (Base * exp) == Digit(x, exp) * exp + x % exp
  {
    DigitIsDiv(x, exp);
    var q, r := x / exp, x % exp;
    var q1, d := q / Base, q % Base;
    assert x == exp * q + r;
    assert q == Base * q1 + d;
    assert exp * q == (Base * exp) * q1 + d * exp;
    assert d * exp + r < Base * exp by {
      MulMono(d, Base - 1, exp);
    }
    DivModUnique(x, Base * exp, q1, d * exp + r);
  }

  /** The loop guard `maxVal / exp > 0` of radixSort holds at `exp = 10^k`
      exactly for the first `NumDigits(m)` place values. */
  lemma {:induction false} PlaceValueGuard(m: nat, k: nat)
    ensures m / Pow10(k) > 0 <==> k < NumDigits(m)
    decreases k
  {
    if k == 0 {
      assert Pow10(k) == 1;
    } else if m == 0 {
      assert m / Pow10(k) == 0;
    } else {
      var p := Pow10(k - 1);
      assert Pow10(k) == Base * p;
      DivDiv(m, p);
      PlaceValueGuard(m / Base, k - 1);
      assert NumDigits(m) == 1 + NumDigits(m / Base);
    }
  }

  /** Every value is below the place value just past its last digit. */
  lemma {:induction false} BelowNextPlace(m: nat)
    ensures m < Pow10(NumDigits(m))
  {
    if m > 0 {
      var q := m / Base;
      BelowNextPlace(q);
      assert NumDigits(m) == 1 + NumDigits(q);
      assert Pow10(NumDigits(m)) == Base * Pow10(NumDigits(q));
      MulMono(q + 1, Pow10(NumDigits(q)), Base);
      assert m < (q + 1) * Base;
    }
  }
}
