/**
 Canonical decimals and the reals they stand for: one decimal per value.
 */
module NumberValues {
  import opened Numbers

  lemma Pow10Step(e: int)
    ensures Pow10(e) == 10.0 * Pow10(e - 1)
  {
  }

  lemma {:induction false} Pow10Grows(a: int, b: int)
    requires a <= b
    ensures Pow10(a) <= Pow10(b)
    decreases b - a
  {
    if a < b {
      Pow10Step(b);
      Pow10Grows(a, b - 1);
    }
  }

  /** n units of p */
  function Share(n: nat, p: real): real {
    n as real * p
  }

  lemma ShareNext(n: nat, p: real)
    ensures Share(n + 1, p) == Share(n, p) + p
  {
    var x := n as real;
    assert (n + 1) as real == x + 1.0;
    assert (x + 1.0) * p == x * p + p;
  }

  lemma {:induction false} ShareGrows(a: nat, b: nat, p: real)
    requires a <= b && p > 0.0
    ensures Share(a, p) <= Share(b, p)
    decreases b
  {
    hide Share;
    if a < b {
      ShareNext(b - 1, p);
      ShareGrows(a, b - 1, p);
    }
  }

  lemma Leading(digits: string, point: int)
    requires AllDigits(digits) && digits != []
    ensures Magnitude(digits, point) == Share(DigitValue(digits[0]), Pow10(point - 1)) + Magnitude(digits[1..], point - 1)
    ensures DigitValue(digits[0]) <= 9 && (digits[0] != '0' ==> DigitValue(digits[0]) >= 1)
  {
  }

  lemma TenShares(p: real)
    ensures Share(10, p) == 10.0 * p && Share(1, p) == p
  {
  }

  /** a digit string lies below the power of ten at its point */
  lemma {:induction false} MagnitudeBelow(digits: string, point: int)
    requires AllDigits(digits)
    ensures Magnitude(digits, point) < Pow10(point)
  {
    if digits != [] {
      var n, p := DigitValue(digits[0]), Pow10(point - 1);
      MagnitudeBelow(digits[1..], point - 1);
      Pow10Step(point);
      Leading(digits, point);
      hide Magnitude, Pow10, DigitValue, Share;
      ShareNext(n, p);
      ShareGrows(n + 1, 10, p);
      TenShares(p);
    }
  }

  lemma MagnitudeAbove(digits: string, point: int)
    requires AllDigits(digits) && digits != [] && digits[0] != '0'
    ensures Pow10(point - 1) <= Magnitude(digits, point)
  {
    hide Magnitude, Pow10, DigitValue, Share;
    Leading(digits, point);
    ShareGrows(1, DigitValue(digits[0]), Pow10(point - 1));
    TenShares(Pow10(point - 1));
  }

  lemma {:induction false} MagnitudePositive(digits: string, point: int)
    requires AllDigits(digits) && digits != [] && digits[|digits| - 1] != '0'
    ensures Magnitude(digits, point) > 0.0
  {
    if digits[0] != '0' {
      MagnitudeAbove(digits, point);
    } else {
      MagnitudePositive(digits[1..], point - 1);
    }
  }

  /** the leading digit is determined by the whole */
  lemma SameShare(a: nat, b: nat, p: real, x: real, y: real)
    requires p > 0.0 && 0.0 <= x < p && 0.0 <= y < p
    requires Share(a, p) + x == Share(b, p) + y
    ensures a == b && x == y
  {
    hide Share;
    if a < b {
      ShareNext(a, p);
      ShareGrows(a + 1, b, p);
    } else if b < a {
      ShareNext(b, p);
      ShareGrows(b + 1, a, p);
    }
  }

  lemma {:induction false} DigitsUnique(a: string, b: string, point: int)
    requires AllDigits(a) && AllDigits(b)
    requires (a != [] ==> a[|a| - 1] != '0') && (b != [] ==> b[|b| - 1] != '0')
    requires Magnitude(a, point) == Magnitude(b, point)
    ensures a == b
  {
    if a == [] || b == [] {
      if a != [] { MagnitudePositive(a, point); }
      if b != [] { MagnitudePositive(b, point); }
    } else {
      MagnitudeBelow(a[1..], point - 1);
      MagnitudeBelow(b[1..], point - 1);
      Leading(a, point);
      Leading(b, point);
      hide Magnitude, Pow10, Share;
      SameShare(DigitValue(a[0]), DigitValue(b[0]), Pow10(point - 1), Magnitude(a[1..], point - 1), Magnitude(b[1..], point - 1));
      DigitsUnique(a[1..], b[1..], point - 1);
      assert a == [a[0]] + a[1..] && b == [b[0]] + b[1..];
    }
  }

  /** Two canonical decimals are equal exactly when their values are. */
  lemma {:induction false} NumberUnique(a: Number, b: Number)
    ensures a.Value() == b.Value() <==> a == b
  {
    if a.Value() == b.Value() {
      if a.digits != [] {
        MagnitudePositive(a.digits, a.point);
        MagnitudeAbove(a.digits, a.point);
        MagnitudeBelow(a.digits, a.point);
      }
      if b.digits != [] {
        MagnitudePositive(b.digits, b.point);
        MagnitudeAbove(b.digits, b.point);
        MagnitudeBelow(b.digits, b.point);
      }
      if a.digits != [] && b.digits != [] {
        SamePoint(a.digits, a.point, b.digits, b.point);
        DigitsUnique(a.digits, b.digits, a.point);
      }
    }
  }

  lemma SamePoint(a: string, p: int, b: string, q: int)
    requires AllDigits(a) && AllDigits(b)
    requires Pow10(p - 1) <= Magnitude(a, p) < Pow10(p) && Pow10(q - 1) <= Magnitude(b, q) < Pow10(q)
    requires Magnitude(a, p) == Magnitude(b, q)
    ensures p == q
  {
    if p < q {
      Pow10Grows(p, q - 1);
    } else if q < p {
      Pow10Grows(q, p - 1);
    }
  }

  // ---------------------------------------------------------------------
  // Arbitrarily small numbers
  // ---------------------------------------------------------------------

  /** the negative powers -10^k, as decimals */
  function Below(n: Number, i: nat): (r: Number)
    ensures r.point == (if n.point < 0 then 0 else n.point) + 1 + i
  {
    Decimal(true, "1", (if n.point < 0 then 0 else n.point) + 1 + i)
  }

  /** there are endlessly many numbers below any number */
  lemma BelowIsBelow(n: Number, i: nat)
    ensures Below(n, i).Value() <= n.Value()
  {
    var p := if n.point < 0 then 0 else n.point;
    MagnitudeBelow(n.digits, n.point);
    Pow10Grows(n.point, p + i);
    assert "1"[1..] == "";
    assert Magnitude("1", p + 1 + i) == Pow10(p + i);
  }
}
