/**
 Rounding of reals to IEEE-754 binary64, nearest with ties to even, and the
 numbers on which it is exact.
 */
module Binary64 {
  import opened Numbers

  /** 2^e for any integer e */
  function Pow2(e: int): (r: real)
    ensures r > 0.0
    decreases if e < 0 then -e else e
  {
    if e == 0 then 1.0 else if e > 0 then 2.0 * Pow2(e - 1) else Pow2(e + 1) / 2.0
  }

  const MIN_EXPONENT: int := -1074
  const DIGITS: int := 53

  /** the largest magnitude of interoperable integers (section 2.2 of RFC 7493) */
  const MAX_INTEGER: int := 0x1F_FFFF_FFFF_FFFF

  function Abs(x: real): real {
    if x < 0.0 then -x else x
  }

  /** the least exponent, from e on, at which x has at most 53 digits before the point */
  function Exponent(x: real, e: int): (r: int)
    requires x >= 0.0
    ensures r >= e && x < Pow2(r + DIGITS) && (r > e ==> Pow2(r + DIGITS - 1) <= x)
    decreases (x / Pow2(e + DIGITS)).Floor
  {
    if x < Pow2(e + DIGITS) then e
    else
      HalvedFloor(x, Pow2(e + DIGITS), Pow2(e + 1 + DIGITS));
      Exponent(x, e + 1)
  }

  lemma HalvedFloor(x: real, p: real, q: real)
    requires p > 0.0 && x >= p && q == 2.0 * p
    ensures 0 <= (x / q).Floor < (x / p).Floor
  {
    assert x / p >= 1.0;
    assert x / q == x / p / 2.0;
  }

  /** the nearest integer, the even one of two equally near */
  function Nearest(y: real): (n: int)
    ensures n == y.Floor || n == y.Floor + 1
    ensures y.Floor as real == y ==> n == y.Floor
  {
    var below := y.Floor;
    var part := y - below as real;
    if part < 0.5 || (part == 0.5 && below % 2 == 0) then below else below + 1
  }

  function Times(x: real, y: real): real {
    x * y
  }

  /** n units of 2^e */
  function Scale(n: int, e: int): real {
    Times(n as real, Pow2(e))
  }

  function Round(x: real): real {
    var e := Exponent(Abs(x), MIN_EXPONENT);
    Scale(Nearest(x / Pow2(e)), e)
  }

  /** the binary64 value a decimal is read as */
  function Float(n: Number): real {
    Round(n.Value())
  }

  predicate Finite(x: real) {
    Abs(x) < Pow2(1024)
  }

  predicate Whole(x: real) {
    x.Floor as real == x
  }

  // ---------------------------------------------------------------------
  // Powers of two
  // ---------------------------------------------------------------------

  lemma Pow2Next(e: int)
    ensures Pow2(e + 1) == 2.0 * Pow2(e)
  {
  }

  lemma Doubled(p: real, q: real)
    ensures Times(p, 2.0 * q) == 2.0 * Times(p, q)
  {
  }

  lemma {:induction false} Pow2Times(a: int, b: int)
    ensures Pow2(a + b) == Times(Pow2(a), Pow2(b))
    decreases if b < 0 then -b else b
  {
    assert Pow2(0) == 1.0 && Times(Pow2(a), 1.0) == Pow2(a);
    hide Pow2, Times;
    if b != 0 {
      var c := if b > 0 then b - 1 else b + 1;
      var low := if b > 0 then c else b;
      Pow2Times(a, c);
      Pow2Next(a + low);
      Pow2Next(low);
      Doubled(Pow2(a), Pow2(low));
    }
  }

  lemma Pow2Sum(a: int, b: int)
    ensures Pow2(a + b) == Pow2(a) * Pow2(b)
  {
    hide Pow2;
    Pow2Times(a, b);
  }

  lemma {:induction false} Pow2Grows(a: int, b: int)
    requires a <= b
    ensures Pow2(a) <= Pow2(b)
    decreases b - a
  {
    if a < b {
      Pow2Next(b - 1);
      Pow2Grows(a, b - 1);
    }
  }

  function IntPow2(k: nat): (n: nat)
    ensures n as real == Pow2(k)
  {
    if k == 0 then 1 else 2 * IntPow2(k - 1)
  }

  lemma Pow2Inverse(e: int)
    ensures Pow2(e) * Pow2(-e) == 1.0
  {
    Pow2Sum(e, -e);
  }

  // ---------------------------------------------------------------------
  // Representable numbers are left alone
  // ---------------------------------------------------------------------

  lemma NearestWhole(n: int)
    ensures Nearest(n as real) == n
  {
  }

  /** m * 2^e is a whole number of 2^f when f is at most e */
  lemma Scaled(m: int, e: int, f: int) returns (n: int)
    requires f <= e
    ensures m as real * Pow2(e) == n as real * Pow2(f)
    ensures m as real * Pow2(e) / Pow2(f) == n as real
  {
    hide Pow2;
    var k := IntPow2(e - f);
    n := m * k;
    Pow2Sum(e - f, f);
    ScaledBy(m, k, Pow2(f), Pow2(e));
  }

  lemma ScaledBy(m: int, k: int, p: real, q: real)
    requires p > 0.0 && q == k as real * p
    ensures m as real * q == (m * k) as real * p
    ensures m as real * q / p == (m * k) as real
  {
    assert (m * k) as real == m as real * k as real;
    assert m as real * (k as real * p) == m as real * k as real * p;
  }

  lemma {:induction false} ExponentAtMost(x: real, e: int, f: int)
    requires x >= 0.0 && e <= f && x < Pow2(f + DIGITS)
    ensures Exponent(x, e) <= f
  {
    var r := Exponent(x, e);
    if r > f {
      Pow2Grows(f + DIGITS, r + DIGITS - 1);
    }
  }

  lemma RoundAt(x: real, f: int, n: int)
    requires f == Exponent(Abs(x), MIN_EXPONENT) && x == n as real * Pow2(f) && x / Pow2(f) == n as real
    ensures Round(x) == x
  {
    hide Pow2, Exponent;
    NearestWhole(n);
  }

  /** Numbers of at most 53 binary digits round to themselves. */
  lemma {:induction false} RoundExact(m: int, e: int)
    requires e >= MIN_EXPONENT && Abs(m as real * Pow2(e)) < Pow2(e + DIGITS)
    ensures Round(m as real * Pow2(e)) == m as real * Pow2(e)
  {
    hide Pow2, Exponent, Round;
    var x := m as real * Pow2(e);
    ExponentAtMost(Abs(x), MIN_EXPONENT, e);
    var f := Exponent(Abs(x), MIN_EXPONENT);
    var n := Scaled(m, e, f);
    RoundAt(x, f, n);
  }

  /** 2^53 and 2^54 in figures */
  lemma Pow2Figures()
    ensures Pow2(0) == 1.0 && Pow2(1) == 2.0 && Pow2(52) == 4503599627370496.0 && Pow2(53) == 9007199254740992.0
  {
    assert Pow2(0) == 1.0 && Pow2(1) == 2.0 && Pow2(2) == 4.0 && Pow2(4) == 16.0;
    hide Pow2;
    Figure(4, 4, 16.0, 16.0);
    Figure(8, 8, 256.0, 256.0);
    Figure(16, 16, 65536.0, 65536.0);
    Figure(32, 16, 4294967296.0, 65536.0);
    Figure(48, 4, 281474976710656.0, 16.0);
    Figure(52, 1, 4503599627370496.0, 2.0);
  }

  lemma Figure(a: int, b: int, x: real, y: real)
    requires Pow2(a) == x && Pow2(b) == y
    ensures Pow2(a + b) == x * y
  {
    hide Pow2;
    Pow2Sum(a, b);
  }

  lemma RoundWhole(n: int)
    requires -MAX_INTEGER <= n <= MAX_INTEGER
    ensures Round(n as real) == n as real
  {
    Pow2Figures();
    hide Pow2, Round;
    RoundExact(n, 0);
  }

  lemma NearestAtLeast(y: real, k: int)
    requires k as real <= y
    ensures k <= Nearest(y)
  {
  }

  lemma NearestAtMost(y: real, k: int)
    requires y <= k as real
    ensures Nearest(y) <= k
  {
  }

  lemma Rescaled(a: real, b: real, p: real)
    requires p > 0.0 && a <= b
    ensures a * p <= b * p && a / p <= b / p
  {
  }

  lemma Cancelled(x: real, p: real)
    requires p > 0.0
    ensures x / p * p == x && x * p / p == x
  {
  }

  lemma ScaleGrows(a: int, b: int, e: int)
    requires a <= b
    ensures Scale(a, e) <= Scale(b, e)
  {
    Rescaled(a as real, b as real, Pow2(e));
    hide Pow2;
  }

  lemma ScalePow2(k: nat, e: int)
    ensures Scale(IntPow2(k), e) == Pow2(k + e) && Scale(0 - IntPow2(k), e) == -Pow2(k + e)
  {
    hide Pow2, IntPow2;
    Pow2Sum(k, e);
    Negated(IntPow2(k), Pow2(e));
  }

  lemma Negated(k: int, p: real)
    ensures (-k) as real * p == -(k as real * p)
  {
  }

  lemma ScaleBack(k: int, e: int)
    ensures Scale(k, e) / Pow2(e) == k as real
  {
    Cancelled(k as real, Pow2(e));
    hide Pow2;
  }

  /** rounding at an exponent never crosses a multiple of its unit */
  lemma NearestScaleAbove(x: real, k: int, e: int)
    requires Scale(k, e) <= x
    ensures Scale(k, e) <= Scale(Nearest(x / Pow2(e)), e)
  {
    hide Pow2, Scale, Nearest;
    Rescaled(Scale(k, e), x, Pow2(e));
    ScaleBack(k, e);
    NearestAtLeast(x / Pow2(e), k);
    ScaleGrows(k, Nearest(x / Pow2(e)), e);
  }

  lemma NearestScaleBelow(x: real, k: int, e: int)
    requires x <= Scale(k, e)
    ensures Scale(Nearest(x / Pow2(e)), e) <= Scale(k, e)
  {
    hide Pow2, Scale, Nearest;
    Rescaled(x, Scale(k, e), Pow2(e));
    ScaleBack(k, e);
    NearestAtMost(x / Pow2(e), k);
    ScaleGrows(Nearest(x / Pow2(e)), k, e);
  }

  lemma NoUnits(e: int)
    ensures Scale(0, e) == 0.0
  {
  }

  /** a rounded number stays between the powers of two around the number */
  lemma RoundBounds(x: real)
    ensures var f := Exponent(Abs(x), MIN_EXPONENT);
      && (x >= 0.0 ==> 0.0 <= Round(x) <= Pow2(f + DIGITS))
      && (x <= 0.0 ==> -Pow2(f + DIGITS) <= Round(x) <= 0.0)
      && (f > MIN_EXPONENT ==> (x >= 0.0 ==> Pow2(f + DIGITS - 1) <= Round(x)) && (x <= 0.0 ==> Round(x) <= -Pow2(f + DIGITS - 1)))
  {
    hide Pow2, Exponent, Scale, Nearest, IntPow2;
    var f := Exponent(Abs(x), MIN_EXPONENT);
    var hi: int, lo: int := IntPow2(DIGITS), IntPow2(DIGITS - 1);
    ScalePow2(DIGITS, f);
    ScalePow2(DIGITS - 1, f);
    NoUnits(f);
    if x >= 0.0 {
      NearestScaleAbove(x, 0, f);
      NearestScaleBelow(x, hi, f);
      if f > MIN_EXPONENT { NearestScaleAbove(x, lo, f); }
    }
    if x <= 0.0 {
      NearestScaleBelow(x, 0, f);
      NearestScaleAbove(x, -hi, f);
      if f > MIN_EXPONENT { NearestScaleBelow(x, -lo, f); }
    }
  }

  /** Rounding keeps the order. */
  lemma {:induction false} RoundMonotone(x: real, y: real)
    requires x <= y
    ensures Round(x) <= Round(y)
  {
    hide Pow2, Exponent, Scale, Nearest, Round;
    RoundBounds(x);
    RoundBounds(y);
    if 0.0 <= x {
      RoundMonotoneFrom(x, y);
    } else if y <= 0.0 {
      RoundMonotoneFrom(-y, -x);
      RoundOdd(x);
      RoundOdd(y);
    }
  }

  lemma RoundOdd(x: real)
    ensures Round(-x) == -Round(x)
  {
    hide Exponent, Pow2, Nearest, Scale;
    var e := Exponent(Abs(x), MIN_EXPONENT);
    assert Abs(-x) == Abs(x);
    Opposite(x, Pow2(e));
    NearestOdd(x / Pow2(e));
    ScaleOdd(Nearest(x / Pow2(e)), e);
  }

  lemma ScaleOdd(n: int, e: int)
    ensures Scale(-n, e) == -Scale(n, e)
  {
    hide Pow2;
    Negated(n, Pow2(e));
  }

  lemma Opposite(x: real, p: real)
    requires p > 0.0
    ensures (-x) / p == -(x / p)
  {
  }

  lemma NearestOdd(y: real)
    ensures Nearest(-y) == -Nearest(y)
  {
    var n := y.Floor;
    if n as real == y {
      assert (-y).Floor == -n;
    } else {
      assert (-y).Floor == -n - 1;
    }
  }

  lemma RoundMonotoneFrom(x: real, y: real)
    requires 0.0 <= x <= y
    ensures Round(x) <= Round(y)
  {
    hide Pow2, Scale, Nearest;
    var f, g := Exponent(x, MIN_EXPONENT), Exponent(y, MIN_EXPONENT);
    RoundBounds(x);
    RoundBounds(y);
    if f > g {
      Pow2Grows(g + DIGITS, f + DIGITS - 1);
      assert false;
    } else if f < g {
      Pow2Grows(f + DIGITS, g + DIGITS - 1);
    } else {
      hide Exponent;
      Rescaled(x, y, Pow2(f));
      NearestGrows(x / Pow2(f), y / Pow2(f));
      ScaleGrows(Nearest(x / Pow2(f)), Nearest(y / Pow2(f)), f);
    }
  }

  lemma NearestGrows(a: real, b: real)
    requires a <= b
    ensures Nearest(a) <= Nearest(b)
  {
    if a.Floor < b.Floor {
      NearestAtMost(a, a.Floor + 1);
    }
  }

  /** a rounded number rounds to itself */
  lemma {:induction false} RoundIdempotent(x: real)
    ensures Round(Round(x)) == Round(x)
  {
    hide Pow2, Exponent, Nearest, Round, Scale;
    var f := Exponent(Abs(x), MIN_EXPONENT);
    var n := RoundUnits(x);
    RoundBounds(x);
    if Abs(Round(x)) < Pow2(f + DIGITS) {
      RoundScale(n, f);
    } else {
      var k: int := if x >= 0.0 then IntPow2(DIGITS - 1) else 0 - IntPow2(DIGITS - 1);
      ScalePow2(DIGITS - 1, f + 1);
      Pow2Grows(f + DIGITS, f + 1 + DIGITS);
      Pow2Next(f + DIGITS);
      RoundScale(k, f + 1);
    }
  }

  lemma RoundUnits(x: real) returns (n: int)
    ensures Round(x) == Scale(n, Exponent(Abs(x), MIN_EXPONENT))
  {
    n := Nearest(x / Pow2(Exponent(Abs(x), MIN_EXPONENT)));
  }

  lemma RoundScale(n: int, e: int)
    requires e >= MIN_EXPONENT && Abs(Scale(n, e)) < Pow2(e + DIGITS)
    ensures Round(Scale(n, e)) == Scale(n, e)
  {
    hide Pow2, Round;
    RoundExact(n, e);
  }

  /** from 2^53 on, rounding gives whole numbers no smaller than 2^53 */
  lemma RoundLarge(x: real)
    requires Abs(x) >= Pow2(DIGITS)
    ensures Whole(Round(x)) && Abs(Round(x)) >= Pow2(DIGITS)
  {
    hide Pow2, Nearest, Round, Scale;
    var f := Exponent(Abs(x), MIN_EXPONENT);
    if f <= 0 {
      Pow2Grows(f + DIGITS, DIGITS);
    }
    hide Exponent;
    assert f > 0;
    RoundBounds(x);
    Pow2Grows(DIGITS, f + DIGITS - 1);
    var n := RoundUnits(x);
    WholeUnits(n, f);
  }

  lemma WholeUnits(n: int, e: nat)
    ensures Whole(Scale(n, e))
  {
    hide Pow2;
    var k: int := IntPow2(e);
    var m := n * k;
    assert m as real == n as real * k as real;
    assert Scale(n, e) == m as real;
  }

  // ---------------------------------------------------------------------
  // The step rule
  // ---------------------------------------------------------------------

  function Divide(x: real, y: real): real
    requires y != 0.0
  {
    Round(x / y)
  }

  function Multiply(x: real, y: real): real {
    Round(Times(x, y))
  }

  /** isMultipleOf on binary64 values: the rounded quotient is whole and multiplies back */
  predicate MultipleOf(v: real, step: real) {
    step != 0.0 &&
    var q := Divide(v, step);
    Finite(q) && Whole(q) && Multiply(q, step) == v
  }

  /** a whole number is in the interoperable range */
  predicate Interoperable(x: real) {
    Whole(x) ==> Abs(x) <= MAX_INTEGER as real
  }

  lemma MultipleReflexive(x: real)
    requires x != 0.0 && Round(x) == x
    ensures MultipleOf(x, x)
  {
    hide Round;
    RoundWhole(1);
    FiniteWhole(1);
    assert Divide(x, x) == 1.0 && Multiply(1.0, x) == x by {
      assert x / x == 1.0;
    }
  }

  lemma FiniteWhole(n: int)
    requires -MAX_INTEGER <= n <= MAX_INTEGER
    ensures Finite(n as real)
  {
    Pow2Figures();
    hide Pow2;
    Pow2Grows(DIGITS, 1024);
  }

  /** On whole steps the rule is divisibility, with no rounding left. */
  lemma {:induction false} MultipleIsDivision(v: real, step: int)
    requires step != 0 && -MAX_INTEGER <= step <= MAX_INTEGER && Interoperable(v)
    ensures MultipleOf(v, step as real) <==> Whole(v) && v.Floor % step == 0
  {
    hide MultipleOf;
    if MultipleOf(v, step as real) {
      MultipleDivides(v, step);
    }
    if Whole(v) && v.Floor % step == 0 {
      var k := v.Floor / step;
      Euclid(v.Floor, step, k, 0);
      DividedIsMultiple(v.Floor, step, k);
    }
  }

  lemma MultiplyWhole(k: int, step: int)
    ensures Multiply(k as real, step as real) == Round((k * step) as real)
  {
    hide Round;
    assert k as real * step as real == (k * step) as real;
  }

  lemma DivideWhole(n: int, step: int, k: int)
    requires step != 0 && n == k * step
    ensures Divide(n as real, step as real) == Round(k as real)
  {
    hide Round;
    assert n as real == k as real * step as real;
    WholeQuotient(k, step, n as real);
  }

  lemma MultipleDivides(v: real, step: int)
    requires step != 0 && Interoperable(v) && MultipleOf(v, step as real)
    ensures Whole(v) && v.Floor % step == 0
  {
    hide Round, Finite, Divide, Multiply;
    var q := Divide(v, step as real).Floor;
    MultiplyWhole(q, step);
    RoundedProduct(q * step, v);
    DivisibleProduct(q, step);
  }

  lemma DividedIsMultiple(n: int, step: int, k: int)
    requires step != 0 && n == k * step && -MAX_INTEGER <= n <= MAX_INTEGER
    ensures MultipleOf(n as real, step as real)
  {
    hide Round, Finite, Divide, Multiply;
    QuotientSmall(k, step, n);
    RoundWhole(k);
    RoundWhole(n);
    FiniteWhole(k);
    DivideWhole(n, step, k);
    MultiplyWhole(k, step);
  }

  lemma WholeQuotient(k: int, step: int, v: real)
    requires step != 0 && v == k as real * step as real
    ensures v / step as real == k as real
  {
  }

  lemma DivisibleProduct(q: int, step: int)
    requires step != 0
    ensures (q * step) % step == 0
  {
    var n := q * step;
    var d, r := n / step, n % step;
    hide *;
    Euclid(n, step, d, r);
    assert (q - d) * step == r;
    SmallMultiple(q - d, step, r);
  }

  lemma Euclid(n: int, step: int, d: int, r: int)
    requires step != 0 && d == n / step && r == n % step
    ensures n == d * step + r && 0 <= r && (step > 0 ==> r < step) && (step < 0 ==> r < -step)
  {
  }

  lemma SmallMultiple(k: int, step: int, r: int)
    requires k * step == r && 0 <= r && (step > 0 ==> r < step) && (step < 0 ==> r < -step)
    ensures r == 0
  {
    if step > 0 && k > 0 {
      AtLeastOnce(k, step);
    } else if step < 0 && k < 0 {
      AtLeastOnce(-k, -step);
    }
  }

  lemma AtLeastOnce(k: int, step: int)
    requires k > 0 && step > 0
    ensures k * step >= step
  {
    assert (k - 1) * step >= 0;
  }

  lemma QuotientSmall(k: int, step: int, n: int)
    requires step != 0 && n == k * step && -MAX_INTEGER <= n <= MAX_INTEGER
    ensures -MAX_INTEGER <= k <= MAX_INTEGER
  {
  }

  lemma RoundedProduct(n: int, v: real)
    requires Round(n as real) == v && Interoperable(v)
    ensures v == n as real
  {
    Pow2Figures();
    hide Pow2, Round;
    if Abs(n as real) >= Pow2(DIGITS) {
      RoundLarge(n as real);
    } else {
      RoundWhole(n);
    }
  }

  /** On whole steps the rule is transitive. */
  lemma {:induction false} WholeMultipleTransitive(v: real, s: int, t: int)
    requires s != 0 && -MAX_INTEGER <= s <= MAX_INTEGER && t != 0 && -MAX_INTEGER <= t <= MAX_INTEGER
    requires Interoperable(v) && MultipleOf(v, s as real) && MultipleOf(s as real, t as real)
    ensures MultipleOf(v, t as real)
  {
    hide MultipleOf;
    MultipleIsDivision(v, s);
    MultipleIsDivision(s as real, t);
    MultipleIsDivision(v, t);
    var n := v.Floor;
    DivisibleTransitive(n, s, t);
  }

  lemma DivisibleTransitive(n: int, s: int, t: int)
    requires s != 0 && t != 0 && n % s == 0 && s % t == 0
    ensures n % t == 0
  {
    var a, b := n / s, s / t;
    assert n == a * s && s == b * t;
    assert n == (a * b) * t;
    DivisibleProduct(a * b, t);
  }

  lemma TimesAtLeast(q: real, step: real)
    requires q >= 1.0 && step > 0.0
    ensures Times(q, step) >= step
  {
    Rescaled(1.0, q, step);
  }

  lemma MultiplyAtLeast(q: real, step: real)
    requires q >= 1.0 && step > 0.0 && Round(step) == step
    ensures Multiply(q, step) >= step
  {
    hide Round, Times;
    TimesAtLeast(q, step);
    RoundMonotone(step, Times(q, step));
  }

  lemma DivideNonnegative(v: real, step: real)
    requires v > 0.0 && step > 0.0
    ensures Divide(v, step) >= 0.0
  {
    hide Round;
    var y := v / step;
    assert y >= 0.0;
    RoundWhole(0);
    RoundMonotone(0.0, y);
  }

  lemma MultiplyZero(step: real)
    ensures Multiply(0.0, step) == 0.0
  {
    hide Round;
    RoundWhole(0);
    assert 0.0 * step == 0.0;
  }

  /** a positive multiple of a positive number is at least that number */
  lemma {:induction false} PositiveMultiple(v: real, step: real)
    requires v > 0.0 && step > 0.0 && Round(step) == step && MultipleOf(v, step)
    ensures v >= step
  {
    hide Round, Finite, Divide, Multiply;
    var q := Divide(v, step);
    DivideNonnegative(v, step);
    MultiplyZero(step);
    if q >= 1.0 {
      MultiplyAtLeast(q, step);
    }
  }

  // ---------------------------------------------------------------------
  // Steps that are powers of two
  // ---------------------------------------------------------------------

  const MIN_POWER: int := -971

  /** a power of two by which interoperable numbers divide without overflow */
  predicate PowerOfTwo(x: real) {
    exists e :: MIN_POWER <= e <= -MIN_POWER && x == Pow2(e)
  }

  /** a multiple of 2^e rounds to a multiple of 2^e */
  lemma RoundKeepsUnits(n: int, e: int) returns (k: int)
    requires e >= MIN_EXPONENT
    ensures Round(Scale(n, e)) == Scale(k, e)
  {
    hide Pow2, Exponent, Round, Nearest, Scale;
    var x := Scale(n, e);
    var f := Exponent(Abs(x), MIN_EXPONENT);
    if f <= e {
      var m := ScaledUnits(n, e, f);
      RoundAtUnits(x, f, m);
      k := n;
    } else {
      var m := RoundUnits(x);
      k := ScaledUnits(m, f, e);
    }
  }

  lemma ScaledUnits(m: int, e: int, f: int) returns (n: int)
    requires f <= e
    ensures Scale(m, e) == Scale(n, f)
  {
    hide Pow2;
    n := Scaled(m, e, f);
  }

  lemma RoundAtUnits(x: real, f: int, n: int)
    requires f == Exponent(Abs(x), MIN_EXPONENT) && x == Scale(n, f)
    ensures Round(x) == x
  {
    ScaleBack(n, f);
    hide Pow2, Exponent, Scale;
    NearestWhole(n);
  }

  lemma TimesPower(q: int, e: int)
    ensures Multiply(q as real, Pow2(e)) == Round(Scale(q, e))
  {
    hide Pow2, Round;
  }

  /** what divides by a power of two is a whole number of it */
  lemma PowerDivides(s: real, e: int) returns (k: int)
    requires e >= MIN_EXPONENT && MultipleOf(s, Pow2(e))
    ensures s == Scale(k, e)
  {
    hide Pow2, Round, Scale, Divide, Multiply, Finite;
    var q := Divide(s, Pow2(e)).Floor;
    TimesPower(q, e);
    k := RoundKeepsUnits(q, e);
  }

  lemma TimesAssoc(p: int, n: int, w: real)
    ensures Times(p as real, Times(n as real, w)) == Times((p * n) as real, w)
  {
    assert (p * n) as real == p as real * n as real;
    assert p as real * (n as real * w) == p as real * n as real * w;
  }

  lemma TimesScaled(p: int, n: int, e: int)
    ensures Multiply(p as real, Scale(n, e)) == Round(Scale(p * n, e))
  {
    hide Pow2, Round;
    TimesAssoc(p, n, Pow2(e));
    hide Times;
  }

  /** a representable multiple of 2^e has a representable quotient */
  lemma QuotientExact(k: int, e: int)
    requires Round(Scale(k, e)) == Scale(k, e)
    ensures Round(k as real) == k as real
  {
    hide Exponent, Round, Nearest, Pow2, Scale;
    var v := Scale(k, e);
    var f := Exponent(Abs(v), MIN_EXPONENT);
    var n := RoundUnits(v);
    if f >= e {
      SameUnits(n, f, k, e);
      ScaleBounded(n, f, e);
      RoundScale(n, f - e);
    } else {
      Pow2Grows(f + DIGITS, e + DIGITS);
      WholeBounded(k, e);
      RoundScale(k, 0);
      OneUnit(k);
    }
  }

  lemma OneUnit(k: int)
    ensures Scale(k, 0) == k as real
  {
  }

  lemma SameUnits(n: int, f: int, k: int, e: int)
    requires Scale(n, f) == Scale(k, e)
    ensures Scale(n, f - e) == k as real
  {
    hide Pow2;
    Pow2Sum(f - e, e);
    Cancel(n, Pow2(f - e), Pow2(e), k);
  }

  lemma Cancel(n: int, x: real, y: real, k: int)
    requires y > 0.0 && n as real * (x * y) == k as real * y
    ensures n as real * x == k as real
  {
    assert (n as real * x - k as real) * y == 0.0;
  }

  lemma ScaleBounded(n: int, f: int, e: int)
    requires Abs(Scale(n, f)) < Pow2(f + DIGITS)
    ensures Abs(Scale(n, f - e)) < Pow2(f - e + DIGITS)
  {
    hide Pow2;
    Pow2Sum(f - e, e);
    Pow2Sum(f - e + DIGITS, e);
    Descale(n as real, Pow2(f - e), Pow2(e), Pow2(f - e + DIGITS));
  }

  lemma Descale(n: real, x: real, y: real, z: real)
    requires y > 0.0 && Abs(n * (x * y)) < z * y
    ensures Abs(n * x) < z
  {
    var w := n * x;
    assert n * (x * y) == w * y;
    if w >= z {
      Rescaled(z, w, y);
    } else if -w >= z {
      Rescaled(z, -w, y);
    }
  }

  lemma WholeBounded(k: int, e: int)
    requires Abs(Scale(k, e)) < Pow2(e + DIGITS)
    ensures Abs(Scale(k, 0)) < Pow2(DIGITS)
  {
    hide Pow2;
    ScaleBounded(k, e, e);
  }

  lemma DividePower(k: int, e: int)
    ensures Divide(Scale(k, e), Pow2(e)) == Round(k as real)
  {
    hide Pow2, Round;
    ScaleBack(k, e);
  }

  lemma PowerQuotientFinite(k: int, e: int)
    requires e >= MIN_POWER && Abs(Scale(k, e)) < Pow2(DIGITS)
    ensures Finite(k as real)
  {
    hide Pow2;
    Pow2Sum(DIGITS - e, e);
    Descale(k as real, 1.0, Pow2(e), Pow2(DIGITS - e));
    Pow2Grows(DIGITS - e, 1024);
  }

  lemma InteroperableBound(v: real)
    requires Round(v) == v && Interoperable(v)
    ensures Abs(v) < Pow2(DIGITS)
  {
    Pow2Figures();
    hide Pow2, Round;
    if Abs(v) >= Pow2(DIGITS) {
      RoundLarge(v);
    }
  }

  /** a representable interoperable multiple of a power of two passes its test */
  lemma PowerMultiple(k: int, e: int)
    requires MIN_POWER <= e && Round(Scale(k, e)) == Scale(k, e) && Interoperable(Scale(k, e))
    ensures MultipleOf(Scale(k, e), Pow2(e))
  {
    hide Pow2, Round, Scale, Divide, Multiply, Finite, Interoperable;
    InteroperableBound(Scale(k, e));
    PowerQuotientFinite(k, e);
    QuotientExact(k, e);
    DividePower(k, e);
    TimesPower(k, e);
  }

  /** Under a power of two the rule is transitive, whatever the middle step. */
  lemma {:induction false} PowerTransitive(v: real, s: real, t: real)
    requires PowerOfTwo(t) && MultipleOf(v, s) && MultipleOf(s, t) && Round(v) == v && Interoperable(v)
    ensures MultipleOf(v, t)
  {
    var e :| MIN_POWER <= e <= -MIN_POWER && t == Pow2(e);
    hide Pow2, Round, Scale, Divide, Multiply, Finite, Interoperable;
    var n := PowerDivides(s, e);
    var p := Divide(v, s).Floor;
    TimesScaled(p, n, e);
    var k := RoundKeepsUnits(p * n, e);
    hide MultipleOf;
    PowerMultiple(k, e);
  }
}
