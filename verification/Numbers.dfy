/**
 JSON numbers as the canonical writer sees them.  A finite binary64 value is
 carried by its shortest round-tripping decimal digits and the position of the
 decimal point (value = 0.digits * 10^point), which is the pair that the
 ECMAScript Number::toString layout of section 3.2.2.3 of RFC 8785 starts from.
 */
module Numbers {

  datatype Option<+T> = None | Some(value: T)

  predicate IsDigit(c: char) {
    '0' <= c <= '9'
  }

  predicate AllDigits(s: string) {
    forall i :: 0 <= i < |s| ==> IsDigit(s[i])
  }

  /** sign, digits without leading or trailing zero, decimal point position */
  datatype Decimal = Decimal(neg: bool, digits: string, point: int) {

    predicate Canonical() {
      && AllDigits(digits)
      && (digits == [] ==> !neg && point == 0)
      && (digits != [] ==> digits[0] != '0' && digits[|digits| - 1] != '0')
    }

    function Value(): real
      requires AllDigits(digits)
    {
      Signed(neg, Magnitude(digits, point))
    }
  }

  const ZERO := Decimal(false, "", 0)

  type Number = d: Decimal | d.Canonical() witness ZERO

  function Signed(neg: bool, r: real): real {
    if neg then -r else r
  }

  /** 10^e for any integer e */
  function Pow10(e: int): (r: real)
    ensures r > 0.0
    decreases if e < 0 then -e else e
  {
    if e == 0 then 1.0 else if e > 0 then 10.0 * Pow10(e - 1) else Pow10(e + 1) / 10.0
  }

  function DigitValue(c: char): nat
    requires IsDigit(c)
  {
    c as int - '0' as int
  }

  /** 0.d1d2d3... * 10^point, most significant digit first */
  function Magnitude(digits: string, point: int): (r: real)
    requires AllDigits(digits)
    ensures r >= 0.0
  {
    if digits == [] then 0.0
    else DigitValue(digits[0]) as real * Pow10(point - 1) + Magnitude(digits[1..], point - 1)
  }

  function Zeros(n: nat): (z: string)
    ensures |z| == n && AllDigits(z)
    ensures forall i :: 0 <= i < n ==> z[i] == '0'
  {
    seq(n, _ => '0')
  }

  // ---------------------------------------------------------------------
  // The four layouts of formatCanonicalFloat
  // ---------------------------------------------------------------------

  function Layout(d: Number): (text: string)
    ensures text != "" && (IsDigit(text[0]) || text[0] == '-')
  {
    if d.digits == [] then "0"
    else (if d.neg then "-" else "") + Unsigned(d.digits, d.point)
  }

  function Unsigned(digits: string, n: int): (text: string)
    requires digits != [] && AllDigits(digits)
    ensures text != "" && IsDigit(text[0])
  {
    var k := |digits|;
    if k <= n <= 21 then
      digits + Zeros(n - k)
    else if 0 < n <= 21 then
      digits[..n] + ("." + digits[n..])
    else if -6 < n <= 0 then
      "0" + ("." + (Zeros(-n) + digits))
    else if k == 1 then
      digits + ("e" + SignedInt(n - 1))
    else
      digits[..1] + (("." + digits[1..]) + ("e" + SignedInt(n - 1)))
  }

  /** the exponent, always with an explicit sign */
  function SignedInt(e: int): string {
    if e >= 0 then "+" + NatText(e) else "-" + NatText(-e)
  }

  function NatText(n: nat): (s: string)
    ensures s != "" && AllDigits(s)
  {
    if n < 10 then [DigitChar(n)] else NatText(n / 10) + [DigitChar(n % 10)]
  }

  function DigitChar(n: nat): (c: char)
    requires n < 10
    ensures IsDigit(c) && DigitValue(c) == n
  {
    ('0' as int + n) as char
  }

  // ---------------------------------------------------------------------
  // A reader for JSON number text (section 6 of RFC 8259)
  // ---------------------------------------------------------------------

  datatype Parsed<+T> = Fail | Done(value: T, rest: string)

  function DigitRun(s: string): (n: nat)
    ensures n <= |s| && AllDigits(s[..n])
    ensures n < |s| ==> !IsDigit(s[n])
  {
    if s == [] || !IsDigit(s[0]) then 0
    else
      var m := DigitRun(s[1..]);
      assert s[..1 + m] == [s[0]] + s[1..][..m];
      1 + m
  }

  function TextNat(s: string): nat
    requires AllDigits(s)
  {
    if s == [] then 0 else 10 * TextNat(s[..|s| - 1]) + DigitValue(s[|s| - 1])
  }

  predicate StartsWith(s: string, c: char) {
    s != [] && s[0] == c
  }

  /** fraction part: an optional point and at least one digit */
  function ReadFraction(s: string): (r: Parsed<string>)
    ensures r.Done? ==> AllDigits(r.value) && |r.rest| <= |s|
  {
    if StartsWith(s, '.') then
      var j := DigitRun(s[1..]);
      if j == 0 then Fail else Done(s[1..][..j], s[1..][j..])
    else Done("", s)
  }

  /** exponent part: an optional e, an optional sign and at least one digit */
  function ReadExponent(s: string): (r: Parsed<int>)
    ensures r.Done? ==> |r.rest| <= |s|
  {
    if StartsWith(s, 'e') || StartsWith(s, 'E') then
      var signed := |s| > 1 && (s[1] == '+' || s[1] == '-');
      var t := if signed then s[2..] else s[1..];
      var j := DigitRun(t);
      if j == 0 then Fail
      else
        var e: int := TextNat(t[..j]);
        Done(if signed && s[1] == '-' then -e else e, t[j..])
    else Done(0, s)
  }

  /** the digits and decimal point position of an unsigned number text */
  function ReadUnsigned(t: string): (r: Parsed<(string, int)>)
    ensures r.Done? ==> AllDigits(r.value.0) && |r.rest| < |t|
  {
    var i := DigitRun(t);
    if i == 0 then Fail else
    var f := ReadFraction(t[i..]);
    if f.Fail? then Fail else
    var e := ReadExponent(f.rest);
    if e.Fail? then Fail else
    Done((t[..i] + f.value, i + e.value), e.rest)
  }

  /** what a number text says before normalisation: an exact decimal */
  function ReadDecimal(s: string): (r: Parsed<Decimal>)
    ensures r.Done? ==> AllDigits(r.value.digits) && |r.rest| < |s|
  {
    var neg := StartsWith(s, '-');
    var u := ReadUnsigned(if neg then s[1..] else s);
    if u.Fail? then Fail else Done(Decimal(neg, u.value.0, u.value.1), u.rest)
  }

  function StripLeading(digits: string, point: int): (r: (string, int))
    requires AllDigits(digits)
    ensures AllDigits(r.0)
    ensures r.0 != [] ==> |r.0| <= |digits| && r.0[0] != '0' && r.0[|r.0| - 1] == digits[|digits| - 1]
  {
    if digits == [] || digits[0] != '0' then (digits, point)
    else StripLeading(digits[1..], point - 1)
  }

  function StripTrailing(digits: string): (r: string)
    requires AllDigits(digits)
    ensures AllDigits(r) && r <= digits
    ensures r != [] ==> r[|r| - 1] != '0'
  {
    if digits == [] || digits[|digits| - 1] != '0' then digits
    else StripTrailing(digits[..|digits| - 1])
  }

  function Normalize(d: Decimal): (r: Number)
    requires AllDigits(d.digits)
  {
    var digits := StripTrailing(d.digits);
    var (lead, point) := StripLeading(digits, d.point);
    if lead == [] then ZERO else Decimal(d.neg, lead, point)
  }

  function ReadNumber(s: string): (r: Parsed<Number>)
    ensures r.Done? ==> |r.rest| < |s|
  {
    var d := ReadDecimal(s);
    if d.Fail? then Fail else Done(Normalize(d.value), d.rest)
  }

  /** text after which a number token has ended */
  predicate EndsNumber(rest: string) {
    rest != [] ==> !IsDigit(rest[0]) && rest[0] != '.' && rest[0] != 'e' && rest[0] != 'E'
  }

  // ---------------------------------------------------------------------
  // Reading undoes the layout
  // ---------------------------------------------------------------------

  lemma {:induction false} DigitRunOf(d: string, t: string)
    requires AllDigits(d) && (t != [] ==> !IsDigit(t[0]))
    ensures DigitRun(d + t) == |d|
  {
    if d == [] {
      assert d + t == t;
    } else {
      assert (d + t)[1..] == d[1..] + t;
      DigitRunOf(d[1..], t);
    }
  }

  lemma {:induction false} TextNatOfNatText(n: nat)
    ensures TextNat(NatText(n)) == n
  {
    if n >= 10 {
      TextNatOfNatText(n / 10);
      assert NatText(n)[..|NatText(n)| - 1] == NatText(n / 10);
    }
  }

  lemma ReadExponentOf(e: int, rest: string)
    requires EndsNumber(rest)
    ensures ReadExponent("e" + SignedInt(e) + rest) == Done(e, rest)
  {
    hide NatText, TextNat, DigitRun;
    var n: nat := if e >= 0 then e else -e;
    var text := NatText(n);
    DigitRunOf(text, rest);
    TextNatOfNatText(n);
    assert "e" + SignedInt(e) + rest == ['e', if e >= 0 then '+' else '-'] + (text + rest);
    ReadSignedExponent(if e >= 0 then '+' else '-', text, n, rest);
  }

  lemma ReadSignedExponent(sign: char, text: string, n: nat, rest: string)
    requires sign == '+' || sign == '-'
    requires AllDigits(text) && text != [] && DigitRun(text + rest) == |text| && TextNat(text) == n
    ensures ReadExponent(['e', sign] + (text + rest)) == Done(if sign == '-' then -(n as int) else n as int, rest)
  {
    hide TextNat, DigitRun, AllDigits;
    var t := text + rest;
    var s := ['e', sign] + t;
    assert s[2..] == t;
    assert t[..|text|] == text && t[|text|..] == rest;
  }

  lemma {:induction false} StripTrailingZeros(digits: string, n: nat)
    requires AllDigits(digits) && digits != [] && digits[|digits| - 1] != '0'
    ensures StripTrailing(digits + Zeros(n)) == digits
  {
    if n == 0 {
      assert digits + Zeros(0) == digits;
    } else {
      var s := digits + Zeros(n);
      assert s[|s| - 1] == '0';
      assert s[..|s| - 1] == digits + Zeros(n - 1);
      StripTrailingZeros(digits, n - 1);
    }
  }

  lemma {:induction false} StripLeadingZeros(digits: string, n: nat, point: int)
    requires AllDigits(digits) && digits != [] && digits[0] != '0'
    ensures StripLeading(Zeros(n) + digits, point) == (digits, point - n)
  {
    if n == 0 {
      assert Zeros(0) + digits == digits;
    } else {
      var s := Zeros(n) + digits;
      assert s[0] == '0' && s[1..] == Zeros(n - 1) + digits;
      StripLeadingZeros(digits, n - 1, point - 1);
      hide Zeros;
    }
  }

  /** A number text in its parts: the digits before and after the point, the
      exponent, and the zeros the layout adds around the significant digits. */
  datatype Parts = Parts(whole: string, frac: string, exp: Option<int>, lead: nat, trail: nat)

  function PartsOf(digits: string, n: int): Parts
    requires digits != [] && AllDigits(digits)
  {
    var k := |digits|;
    if k <= n <= 21 then Parts(digits + Zeros(n - k), "", None, 0, n - k)
    else if 0 < n <= 21 then Parts(digits[..n], digits[n..], None, 0, 0)
    else if -6 < n <= 0 then Parts("0", Zeros(-n) + digits, None, 1 - n, 0)
    else Parts(digits[..1], digits[1..], Some(n - 1), 0, 0)
  }

  function FracText(frac: string): string {
    if frac == "" then "" else "." + frac
  }

  function ExpText(exp: Option<int>): string {
    if exp.None? then "" else "e" + SignedInt(exp.value)
  }

  function ExpOf(exp: Option<int>): int {
    if exp.None? then 0 else exp.value
  }

  lemma PartsOfLayout(digits: string, n: int)
    requires digits != [] && AllDigits(digits)
    ensures
      var p := PartsOf(digits, n);
      Unsigned(digits, n) == p.whole + (FracText(p.frac) + ExpText(p.exp))
  {
    hide SignedInt, AllDigits, IsDigit;
    var k := |digits|;
    var p := PartsOf(digits, n);
    if k <= n <= 21 {
      assert p.whole + ("" + "") == p.whole;
    } else if 0 < n <= 21 || -6 < n <= 0 {
      assert FracText(p.frac) + "" == FracText(p.frac);
    } else if k == 1 {
      assert digits[..1] == digits && digits[1..] == "";
      assert "" + ("e" + SignedInt(n - 1)) == "e" + SignedInt(n - 1);
    }
  }

  lemma PartsDigits(digits: string, n: int)
    requires digits != [] && AllDigits(digits)
    ensures
      var p := PartsOf(digits, n);
      && p.whole != [] && AllDigits(p.whole) && AllDigits(p.frac)
      && p.whole + p.frac == Zeros(p.lead) + digits + Zeros(p.trail)
      && |p.whole| + ExpOf(p.exp) == n + p.lead
  {
    var k := |digits|;
    if k <= n <= 21 {
      assert Zeros(0) + digits == digits;
    } else if 0 < n <= 21 {
      assert digits[..n] + digits[n..] == Zeros(0) + digits + Zeros(0);
    } else if -6 < n <= 0 {
      assert "0" + Zeros(-n) == Zeros(1 - n);
      assert "0" + (Zeros(-n) + digits) == "0" + Zeros(-n) + digits;
      assert Zeros(1 - n) + digits + Zeros(0) == Zeros(1 - n) + digits;
    } else {
      assert digits[..1] + digits[1..] == Zeros(0) + digits + Zeros(0);
    }
  }

  lemma ReadFractionOf(frac: string, rest: string)
    requires AllDigits(frac) && (rest != [] ==> !IsDigit(rest[0]) && rest[0] != '.')
    ensures ReadFraction(FracText(frac) + rest) == Done(frac, rest)
  {
    if frac == "" {
      assert FracText(frac) + rest == rest;
    } else {
      var u := FracText(frac) + rest;
      assert u[1..] == frac + rest;
      DigitRunOf(frac, rest);
      assert (frac + rest)[..|frac|] == frac && (frac + rest)[|frac|..] == rest;
    }
  }

  lemma ReadUnsignedOf(whole: string, x: string, y: string, frac: string, e: int, rest: string)
    requires AllDigits(whole) && whole != [] && (x != [] ==> !IsDigit(x[0]))
    requires ReadFraction(x) == Done(frac, y) && ReadExponent(y) == Done(e, rest)
    ensures ReadUnsigned(whole + x) == Done((whole + frac, |whole| + e), rest)
  {
    hide DigitRun, ReadFraction, ReadExponent, IsDigit;
    DigitRunOf(whole, x);
    assert (whole + x)[..|whole|] == whole;
    assert (whole + x)[|whole|..] == x;
  }

  lemma ReadExpText(exp: Option<int>, rest: string)
    requires EndsNumber(rest)
    ensures ReadExponent(ExpText(exp) + rest) == Done(ExpOf(exp), rest)
    ensures var t := ExpText(exp) + rest; t != [] ==> !IsDigit(t[0]) && t[0] != '.'
  {
    if exp.Some? {
      ReadExponentOf(exp.value, rest);
    } else {
      assert ExpText(exp) + rest == rest;
    }
  }

  /** What the reader makes of whole digits, fraction and exponent laid end to end. */
  lemma ReadParts(whole: string, frac: string, exp: Option<int>, rest: string)
    requires AllDigits(whole) && whole != [] && AllDigits(frac) && EndsNumber(rest)
    ensures ReadUnsigned(whole + (FracText(frac) + (ExpText(exp) + rest)))
            == Done((whole + frac, |whole| + ExpOf(exp)), rest)
  {
    hide ExpText, ReadUnsigned, ReadExponent, ReadFraction;
    var y := ExpText(exp) + rest;
    var x := FracText(frac) + y;
    ReadExpText(exp, rest);
    ReadFractionOf(frac, y);
    ReadUnsignedOf(whole, x, y, frac, ExpOf(exp), rest);
  }

  lemma Assoc(a: string, b: string, c: string)
    ensures a + b + c == a + (b + c)
  {
  }

  lemma ReadSigned(neg: bool, text: string, digits: string, point: int, rest: string)
    requires text != [] && text[0] != '-'
    requires ReadUnsigned(text) == Done((digits, point), rest)
    ensures ReadDecimal((if neg then "-" else "") + text) == Done(Decimal(neg, digits, point), rest)
  {
    if neg {
      assert ("-" + text)[1..] == text;
    } else {
      assert "" + text == text;
    }
  }

  /** A laid-out number and what follows it, in the shape the reader meets. */
  lemma LayoutText(d: Number, rest: string)
    requires d.digits != []
    ensures
      var p := PartsOf(d.digits, d.point);
      var tail := p.whole + (FracText(p.frac) + (ExpText(p.exp) + rest));
      Layout(d) + rest == (if d.neg then "-" else "") + tail && tail != [] && tail[0] != '-'
  {
    var p := PartsOf(d.digits, d.point);
    var text := Unsigned(d.digits, d.point);
    var sign := if d.neg then "-" else "";
    PartsOfLayout(d.digits, d.point);
    assert Layout(d) == sign + text;
    hide *;
    var f, e := FracText(p.frac), ExpText(p.exp);
    assert text + rest == p.whole + (f + (e + rest)) by {
      Assoc(p.whole, f + e, rest);
      Assoc(f, e, rest);
    }
    assert (text + rest)[0] == text[0];
    Assoc(sign, text, rest);
  }

  /** What the reader makes of a laid-out number before it drops padding zeros. */
  lemma ReadLayout(d: Number, rest: string)
    requires EndsNumber(rest) && d.digits != []
    ensures
      var p := PartsOf(d.digits, d.point);
      ReadDecimal(Layout(d) + rest)
        == Done(Decimal(d.neg, Zeros(p.lead) + d.digits + Zeros(p.trail), d.point + p.lead), rest)
  {
    var p := PartsOf(d.digits, d.point);
    hide *;
    PartsDigits(d.digits, d.point);
    LayoutText(d, rest);
    ReadSignedParts(d.neg, p, rest);
  }

  lemma NoSign(whole: string, t: string)
    requires AllDigits(whole) && whole != []
    ensures (whole + t)[0] != '-'
  {
    assert IsDigit(whole[0]);
  }

  lemma ReadSignedParts(neg: bool, p: Parts, rest: string)
    requires AllDigits(p.whole) && p.whole != [] && AllDigits(p.frac) && EndsNumber(rest)
    ensures ReadDecimal((if neg then "-" else "") + (p.whole + (FracText(p.frac) + (ExpText(p.exp) + rest))))
            == Done(Decimal(neg, p.whole + p.frac, |p.whole| + ExpOf(p.exp)), rest)
  {
    var tail := p.whole + (FracText(p.frac) + (ExpText(p.exp) + rest));
    hide *;
    NoSign(p.whole, FracText(p.frac) + (ExpText(p.exp) + rest));
    ReadParts(p.whole, p.frac, p.exp, rest);
    ReadSigned(neg, tail, p.whole + p.frac, |p.whole| + ExpOf(p.exp), rest);
  }

  lemma ReadZero(rest: string)
    requires EndsNumber(rest)
    ensures ReadDecimal("0" + rest) == Done(Decimal(false, "0", 1), rest)
  {
    ReadParts("0", "", None, rest);
    assert "0" + ("" + "") == "0" && "0" + "" == "0";
  }

  lemma NormalizePadded(d: Number, lead: nat, trail: nat)
    requires d.digits != []
    ensures Normalize(Decimal(d.neg, Zeros(lead) + d.digits + Zeros(trail), d.point + lead)) == d
  {
    hide StripLeading, StripTrailing, Zeros;
    StripTrailingZeros(Zeros(lead) + d.digits, trail);
    StripLeadingZeros(d.digits, lead, d.point + lead);
  }

  /** Reading the layout of any number gives that number back. */
  lemma {:induction false} ReadUndoesLayout(d: Number, rest: string)
    requires EndsNumber(rest)
    ensures ReadNumber(Layout(d) + rest) == Done(d, rest)
  {
    hide ReadDecimal, Unsigned, PartsOf, Zeros;
    if d.digits == [] {
      ReadZero(rest);
      assert "0"[..0] == "";
      assert StripTrailing("0") == "";
    } else {
      hide Layout, Normalize;
      ReadLayout(d, rest);
      var p := PartsOf(d.digits, d.point);
      NormalizePadded(d, p.lead, p.trail);
    }
  }

  lemma {:induction false} LayoutInjective(a: Number, b: Number)
    ensures Layout(a) == Layout(b) <==> a == b
  {
    if Layout(a) == Layout(b) {
      ReadUndoesLayout(a, "");
      ReadUndoesLayout(b, "");
    }
  }

  // ---------------------------------------------------------------------
  // The layout preserves the exact decimal value
  // ---------------------------------------------------------------------

  lemma {:induction false} MagnitudeConcat(a: string, b: string, point: int)
    requires AllDigits(a) && AllDigits(b)
    ensures Magnitude(a + b, point) == Magnitude(a, point) + Magnitude(b, point - |a|)
  {
    hide Pow10, DigitValue;
    if a == [] {
      assert a + b == b;
    } else {
      assert (a + b)[0] == a[0];
      assert (a + b)[1..] == a[1..] + b;
      MagnitudeConcat(a[1..], b, point - 1);
    }
  }

  lemma {:induction false} MagnitudeZeros(n: nat, point: int)
    ensures Magnitude(Zeros(n), point) == 0.0
  {
    if n > 0 {
      assert Zeros(n)[1..] == Zeros(n - 1);
      MagnitudeZeros(n - 1, point - 1);
    }
  }

  lemma MagnitudePadded(digits: string, lead: nat, trail: nat, point: int)
    requires AllDigits(digits)
    ensures Magnitude(Zeros(lead) + digits + Zeros(trail), point + lead) == Magnitude(digits, point)
  {
    MagnitudeConcat(Zeros(lead) + digits, Zeros(trail), point + lead);
    MagnitudeConcat(Zeros(lead), digits, point + lead);
    MagnitudeZeros(lead, point + lead);
    MagnitudeZeros(trail, point - |digits|);
  }

  /** The text a number is laid out as denotes exactly that number. */
  lemma {:induction false} LayoutPreservesValue(d: Number)
    ensures ReadDecimal(Layout(d)).Done? && ReadDecimal(Layout(d)).rest == ""
    ensures ReadDecimal(Layout(d)).value.Value() == d.Value()
  {
    hide ReadDecimal, Unsigned, PartsOf, Zeros;
    assert Layout(d) + "" == Layout(d);
    if d.digits == [] {
      ReadZero("");
      assert Magnitude("0", 1) == 0.0;
    } else {
      ReadLayout(d, "");
      var p := PartsOf(d.digits, d.point);
      MagnitudePadded(d.digits, p.lead, p.trail, d.point);
    }
  }
}
