/**
 Rounding to binary64 is to the nearest representable number, and of two
 equally near ones to the one whose last binary digit is zero.
 */
module Rounding {
  import opened Binary64

  lemma NearestBest(y: real, n: int)
    ensures Abs(Nearest(y) as real - y) <= Abs(n as real - y)
  {
    NearestClose(y);
    var below := y.Floor;
    hide Nearest;
    if n <= below {
      assert Abs(n as real - y) >= y - below as real;
    } else {
      assert n as real >= (below + 1) as real;
      assert Abs(n as real - y) >= (below + 1) as real - y;
    }
  }

  lemma NearestClose(y: real)
    ensures Abs(Nearest(y) as real - y) <= y - y.Floor as real
    ensures Abs(Nearest(y) as real - y) <= (y.Floor + 1) as real - y
  {
    var below := y.Floor;
    var part := y - below as real;
    assert (below + 1) as real - y == 1.0 - part;
    if Nearest(y) == below {
      assert Abs(Nearest(y) as real - y) == part;
    } else {
      assert Abs(Nearest(y) as real - y) == 1.0 - part;
    }
  }

  lemma Stretched(a: real, b: real, x: real, p: real)
    requires p > 0.0 && Abs(a - x / p) <= Abs(b - x / p)
    ensures Abs(Times(a, p) - x) <= Abs(Times(b, p) - x)
  {
    Distance(a, x, p);
    Distance(b, x, p);
    Rescaled(Abs(a - x / p), Abs(b - x / p), p);
  }

  lemma Distance(a: real, x: real, p: real)
    requires p > 0.0
    ensures Abs(Times(a, p) - x) == Abs(a - x / p) * p
  {
    var y := x / p;
    Cancelled(x, p);
    assert (a - y) * p == a * p - y * p;
    AbsTimes(a - y, p);
  }

  lemma AbsTimes(d: real, p: real)
    requires p > 0.0
    ensures Abs(d * p) == Abs(d) * p
  {
  }

  /** no multiple of the unit is nearer */
  lemma UnitsBest(x: real, n: int)
    ensures Abs(Round(x) - x) <= Abs(Scale(n, Exponent(Abs(x), MIN_EXPONENT)) - x)
  {
    var e := Exponent(Abs(x), MIN_EXPONENT);
    hide Pow2, Exponent, Nearest, Times;
    NearestBest(x / Pow2(e), n);
    Stretched(Nearest(x / Pow2(e)) as real, n as real, x, Pow2(e));
  }

  /** what lies between is nearer */
  lemma Between(x: real, z: real, b: real)
    requires 0.0 <= Abs(z) <= b <= Abs(x)
    ensures x >= 0.0 ==> Abs(b - x) <= Abs(z - x)
    ensures x < 0.0 ==> Abs(-b - x) <= Abs(z - x)
  {
  }

  /** No number of at most 53 binary digits is nearer to x than what x rounds to. */
  lemma {:induction false} RoundNearest(x: real, m: int, f: int)
    requires f >= MIN_EXPONENT && Abs(Scale(m, f)) < Pow2(f + DIGITS)
    ensures Abs(Round(x) - x) <= Abs(Scale(m, f) - x)
  {
    hide Pow2, Exponent, Nearest, Round, Scale;
    var e := Exponent(Abs(x), MIN_EXPONENT);
    if f >= e {
      var n := ScaledUnits(m, f, e);
      UnitsBest(x, n);
    } else {
      Pow2Grows(f + DIGITS, e + DIGITS - 1);
      LeadingUnit(x, e);
      Between(x, Scale(m, f), Pow2(e + DIGITS - 1));
    }
  }

  /** the least number of x's exponent is no nearer than what x rounds to */
  lemma LeadingUnit(x: real, e: int)
    requires e == Exponent(Abs(x), MIN_EXPONENT)
    ensures Abs(Round(x) - x) <= Abs(Pow2(e + DIGITS - 1) - x) && Abs(Round(x) - x) <= Abs(-Pow2(e + DIGITS - 1) - x)
  {
    hide Pow2, Exponent, Nearest, Round, IntPow2, Scale;
    var k: int := IntPow2(DIGITS - 1);
    ScalePow2(DIGITS - 1, e);
    UnitsBest(x, k);
    UnitsBest(x, 0 - k);
  }

  lemma HalfEven(k: int) returns (n: int)
    requires k % 2 == 1
    ensures n == Nearest(k as real / 2.0) && n % 2 == 0 && (2 * n == k - 1 || 2 * n == k + 1)
  {
    var m := k / 2;
    assert k == 2 * m + 1;
    var y := k as real / 2.0;
    assert k as real == 2.0 * m as real + 1.0;
    assert y == m as real + 0.5;
    MiddleFloor(m, y);
    n := Nearest(y);
  }

  lemma MiddleFloor(m: int, y: real)
    requires y == m as real + 0.5
    ensures y.Floor == m && Nearest(y) == if m % 2 == 0 then m else m + 1
  {
    assert m as real <= y < (m + 1) as real;
  }

  /** Half way between two neighbours the even one is taken. */
  lemma {:induction false} TiesToEven(k: int, e: int) returns (n: int)
    requires k % 2 == 1 && e > MIN_EXPONENT
    requires Pow2(e + DIGITS - 1) <= Abs(Scale(k, e - 1)) < Pow2(e + DIGITS)
    ensures Round(Scale(k, e - 1)) == Scale(n, e) && n % 2 == 0 && (2 * n == k - 1 || 2 * n == k + 1)
  {
    hide Exponent, Nearest;
    var x := Scale(k, e - 1);
    var r := Exponent(Abs(x), MIN_EXPONENT);
    ExponentAtMost(Abs(x), MIN_EXPONENT, e);
    if r < e {
      Pow2Grows(r + DIGITS, e + DIGITS - 1);
    }
    Pow2Next(e - 1);
    hide Pow2;
    n := HalfEven(k);
    Halved(k as real, Pow2(e - 1));
  }

  lemma Halved(k: real, p: real)
    requires p > 0.0
    ensures Times(k, p) / (2.0 * p) == k / 2.0
  {
    Cancelled(k, p);
    assert Times(k, p) / (2.0 * p) == Times(k, p) / p / 2.0;
  }
}
