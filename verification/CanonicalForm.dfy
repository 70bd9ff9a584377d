/**
 Canonical spelling: of all the texts that a JSON reader takes for the same
 string or number, which one the writer chooses.
 */
module CanonicalForm {
  import opened Numbers
  import opened NumberValues
  import opened Basics
  import opened CanonicalJson

  // ---------------------------------------------------------------------
  // Strings
  // ---------------------------------------------------------------------

  /** no capital among the hexadecimal digits of the escape at the front, if there is one */
  predicate LowerFront(t: string) {
    |t| >= 6 && t[0] == '\\' && t[1] == 'u' ==> forall i :: 2 <= i < 6 ==> !('A' <= t[i] <= 'F')
  }

  lemma LowerDigit(c: char, n: nat)
    requires HexValue(c) == Some(n) && !('A' <= c <= 'F')
    ensures n < 16 && c == HexDigit(n)
  {
  }

  /** the four hexadecimal digits of a control character */
  lemma HexOf(t: string, c: char)
    requires ReadHexEscape(t).Done? && ReadHexEscape(t).value == c && c as int < 0x20 && LowerFront(t)
    requires t[0] == '\\' && t[1] == 'u'
    ensures |t| >= 6 && t[..6] == ['\\', 'u', '0', '0', HexDigit(c as int / 16), HexDigit(c as int % 16)]
  {
    var a, b, x, y := HexValue(t[2]).value, HexValue(t[3]).value, HexValue(t[4]).value, HexValue(t[5]).value;
    LowerDigit(t[2], a);
    LowerDigit(t[3], b);
    LowerDigit(t[4], x);
    LowerDigit(t[5], y);
    assert c as int == 4096 * a + 256 * b + 16 * x + y;
    assert a == 0 && b == 0;
  }

  /** how much of a text one character takes up */
  function Taken(t: string): nat {
    if t == [] || t[0] != '\\' then 1 else if |t| < 2 || t[1] != 'u' then 2 else 6
  }

  lemma ReadTaken(t: string)
    requires ReadChar(t).Done?
    ensures Taken(t) <= |t| && ReadChar(t).rest == t[Taken(t)..]
  {
  }

  /** a character that is written as itself is read as itself, and one read from a single character is that one */
  lemma LiteralSpelling(t: string)
    requires ReadChar(t).Done? && Taken(t) == 1
    ensures Escape(ReadChar(t).value) == t[..1]
  {
  }

  lemma ShortSpelling(t: string)
    requires ReadChar(t).Done? && Taken(t) == 2
    ensures var e := Escape(ReadChar(t).value); |e| <= 2 && (|e| == 2 ==> e == t[..2])
  {
    assert t[..2] == [t[0], t[1]];
  }

  lemma EscapeLength(c: char)
    ensures |Escape(c)| <= 6 && (|Escape(c)| > 2 ==> c as int < 0x20)
    ensures |Escape(c)| > 2 ==> Escape(c) == ['\\', 'u', '0', '0', HexDigit(c as int / 16), HexDigit(c as int % 16)]
  {
  }

  lemma HexSpelling(t: string)
    requires ReadChar(t).Done? && Taken(t) == 6
    ensures ReadHexEscape(t) == ReadChar(t)
  {
    hide ReadHexEscape;
  }

  /** No spelling of a character is shorter than the one written, and none of
      the same length differs from it but by capital hexadecimal digits. */
  lemma {:induction false} CharSpelling(t: string, c: char)
    requires ReadChar(t).Done? && ReadChar(t).value == c
    ensures |t| - |ReadChar(t).rest| >= |Escape(c)|
    ensures |t| - |ReadChar(t).rest| == |Escape(c)| && LowerFront(t) ==> t == Escape(c) + ReadChar(t).rest
  {
    ReadTaken(t);
    EscapeLength(c);
    var k := Taken(t);
    hide ReadChar, Escape, LowerFront, ReadHexEscape;
    assert t == t[..k] + t[k..];
    if k == 1 {
      LiteralSpelling(t);
    } else if k == 2 {
      ShortSpelling(t);
    } else {
      HexSpelling(t);
      if |Escape(c)| == 6 && LowerFront(t) {
        HexOf(t, c);
      }
    }
  }

  /** lower-case hexadecimal digits in every escape up to the closing quote */
  predicate LowerHex(t: string)
    decreases |t|
  {
    var c := ReadChar(t);
    c.Done? ==> LowerFront(t) && LowerHex(c.rest)
  }

  /** Of all spellings of a string the one written is the shortest, and the
      only one of that length with lower-case hexadecimal digits. */
  lemma {:induction false} StringSpelling(t: string, s: string, rest: string)
    requires ReadChars(t) == Done(s, rest)
    ensures |t| >= |EscapeAll(s)| + 1 + |rest|
    ensures |t| == |EscapeAll(s)| + 1 + |rest| && LowerHex(t) ==> t == EscapeAll(s) + (['"'] + rest)
    decreases |t|
  {
    hide ReadChar, Escape, LowerFront;
    if t[0] == '"' {
      assert t == ['"'] + rest;
      assert EscapeAll(s) + (['"'] + rest) == ['"'] + rest;
    } else {
      var c := ReadChar(t);
      var s1 := ReadChars(c.rest).value;
      assert s == [c.value] + s1 && s[1..] == s1;
      CharSpelling(t, c.value);
      StringSpelling(c.rest, s1, rest);
      assert Escape(c.value) + (EscapeAll(s1) + (['"'] + rest)) == Escape(c.value) + EscapeAll(s1) + (['"'] + rest);
    }
  }

  // ---------------------------------------------------------------------
  // Numbers
  // ---------------------------------------------------------------------

  /** digits without a zero in front or a lone zero, then perhaps a point and digits that do not end in zero */
  predicate TidyPlain(t: string) {
    && t != [] && IsDigit(t[0])
    && (forall i :: 0 <= i < |t| ==> IsDigit(t[i]) || t[i] == '.')
    && (t[0] == '0' && |t| > 1 ==> t[1] == '.')
    && ('.' in t ==> t[|t| - 1] != '0' && t[|t| - 1] != '.')
  }

  /** one digit, perhaps a point and digits that do not end in zero, an e, a sign and digits without a zero in front */
  predicate TidyExponent(t: string, up: bool) {
    exists i :: 0 < i < |t| - 2
                && t[i] == 'e' && t[i + 1] == (if up then '+' else '-')
                && '1' <= t[0] <= '9'
                && (i > 1 ==> t[1] == '.' && i > 2 && t[i - 1] != '0' && AllDigits(t[2..i]))
                && AllDigits(t[i + 2..]) && t[i + 2] != '0'
  }

  lemma {:induction false} NatTextFront(n: nat)
    ensures n > 0 ==> NatText(n)[0] != '0'
  {
    if n >= 10 {
      NatTextFront(n / 10);
    }
  }

  lemma PlainShape(digits: string, n: int)
    requires AllDigits(digits) && digits != [] && digits[0] != '0' && digits[|digits| - 1] != '0' && -6 < n <= 21
    ensures TidyPlain(Unsigned(digits, n)) && 'e' !in Unsigned(digits, n)
  {
    var k := |digits|;
    var t := Unsigned(digits, n);
    if k <= n {
      assert t == digits + Zeros(n - k);
    } else if 0 < n {
      assert t == digits[..n] + ("." + digits[n..]);
      assert t[|t| - 1] == digits[k - 1];
    } else {
      assert t == "0" + ("." + (Zeros(-n) + digits));
      assert t[|t| - 1] == digits[k - 1];
    }
  }

  /** a mantissa, an e, a sign and an exponent */
  lemma ExponentText(m: string, sign: char, x: string)
    requires m != [] && '1' <= m[0] <= '9' && (|m| > 1 ==> |m| > 2 && m[1] == '.' && m[|m| - 1] != '0' && AllDigits(m[2..]))
    requires x != [] && AllDigits(x) && x[0] != '0' && (sign == '+' || sign == '-')
    ensures TidyExponent(m + ("e" + ([sign] + x)), sign == '+')
  {
    var t := m + ("e" + ([sign] + x));
    var i := |m|;
    assert t[i] == 'e' && t[i + 1] == sign && t[i + 2..] == x && t[i + 2] == x[0];
    assert t[0] == m[0] && t[i - 1] == m[i - 1];
    if i > 1 {
      assert t[1] == m[1] && t[2..i] == m[2..];
    }
  }

  lemma ExponentShape(digits: string, n: int)
    requires AllDigits(digits) && digits != [] && digits[0] != '0' && digits[|digits| - 1] != '0' && (n > 21 || n <= -6)
    ensures TidyExponent(Unsigned(digits, n), n > 21)
  {
    var e := if n > 21 then n - 1 else 1 - n;
    var sign := if n > 21 then '+' else '-';
    NatTextFront(e);
    UnsignedExponent(digits, n, e, sign);
    MantissaShape(digits);
    hide NatText, TidyExponent, Unsigned, Mantissa;
    ExponentText(Mantissa(digits), sign, NatText(e));
  }

  function Mantissa(digits: string): string
    requires digits != []
  {
    if |digits| == 1 then digits else digits[..1] + ("." + digits[1..])
  }

  lemma MantissaShape(digits: string)
    requires AllDigits(digits) && digits != [] && digits[0] != '0' && digits[|digits| - 1] != '0'
    ensures
      var m := Mantissa(digits);
      m != [] && '1' <= m[0] <= '9' && (|m| > 1 ==> |m| > 2 && m[1] == '.' && m[|m| - 1] != '0' && AllDigits(m[2..]))
  {
    var m := Mantissa(digits);
    if |digits| > 1 {
      assert m[2..] == digits[1..] && m[|m| - 1] == digits[|digits| - 1];
    }
  }

  lemma UnsignedExponent(digits: string, n: int, e: nat, sign: char)
    requires AllDigits(digits) && digits != [] && (n > 21 || n <= -6)
    requires e == (if n > 21 then n - 1 else 1 - n) && sign == (if n > 21 then '+' else '-')
    ensures Unsigned(digits, n) == Mantissa(digits) + ("e" + ([sign] + NatText(e)))
  {
    SignedText(n - 1, e, sign);
    hide NatText, SignedInt, AllDigits;
    var x := "e" + SignedInt(n - 1);
    if |digits| > 1 {
      Assoc(digits[..1], "." + digits[1..], x);
    }
  }

  lemma SignedText(m: int, e: nat, sign: char)
    requires if m >= 0 then e == m && sign == '+' else e == -m && sign == '-'
    ensures SignedInt(m) == [sign] + NatText(e)
  {
    hide NatText;
  }

  lemma Thresholds(digits: string, n: int)
    requires AllDigits(digits) && digits != [] && digits[0] != '0'
    ensures n > 21 <==> Magnitude(digits, n) >= Pow10(21)
    ensures n <= -6 <==> Magnitude(digits, n) < Pow10(-6)
  {
    hide Magnitude, Pow10;
    MagnitudeAbove(digits, n);
    MagnitudeBelow(digits, n);
    if n > 21 {
      Pow10Grows(21, n - 1);
    } else {
      Pow10Grows(n, 21);
    }
    if n <= -6 {
      Pow10Grows(n, -6);
    } else {
      Pow10Grows(-6, n - 1);
    }
  }

  /** the text of a number without its sign */
  function Body(d: Number): string {
    if d.neg then Layout(d)[1..] else Layout(d)
  }

  lemma BodyIs(d: Number)
    requires d.digits != []
    ensures Body(d) == Unsigned(d.digits, d.point) && (d.neg ==> Layout(d)[0] == '-')
  {
    hide Unsigned;
    var body := Unsigned(d.digits, d.point);
    assert ("-" + body)[1..] == body && "" + body == body;
  }

  /** The magnitude of a number is written plainly from 10^-6 up to below
      10^21 and with a signed exponent beyond, in both cases without a
      superfluous zero; zero is a lone digit. */
  lemma {:induction false} NumberSpelling(d: Number)
    ensures d.digits == [] ==> Layout(d) == "0"
    ensures d.neg ==> Layout(d)[0] == '-'
    ensures d.digits != [] ==>
      var mag := Magnitude(d.digits, d.point);
      if Pow10(-6) <= mag < Pow10(21) then TidyPlain(Body(d)) && 'e' !in Body(d)
      else TidyExponent(Body(d), mag >= Pow10(21))
  {
    assert d.digits == [] ==> Layout(d) == "0";
    hide Unsigned, Magnitude, Pow10, TidyPlain, TidyExponent, Layout, Body;
    if d.digits != [] {
      BodyIs(d);
      Thresholds(d.digits, d.point);
      if -6 < d.point <= 21 {
        PlainShape(d.digits, d.point);
      } else {
        ExponentShape(d.digits, d.point);
      }
    }
  }
}
