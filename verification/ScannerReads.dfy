/**
 The byte scanner of the backfill against JSON itself: on the text of any JSON
 value it stops exactly where the value ends.
 */
module ScannerReads {
  import opened Numbers
  import opened Json
  import opened Collation
  import opened CanonicalJson
  import opened SchemaDigest

  // ---------------------------------------------------------------------
  // Strings
  // ---------------------------------------------------------------------

  lemma FurtherTwice(a: nat, b: nat, r: Option<nat>)
    ensures Further(a, Further(b, r)) == Further(a + b, r)
  {
  }

  /** inside a string, characters that are neither quote nor backslash are passed one by one */
  lemma {:induction false} ClosingPlain(t: string, rest: string)
    requires forall i :: 0 <= i < |t| ==> t[i] != '"' && t[i] != '\\'
    ensures Closing(t + rest) == Further(|t|, Closing(rest))
  {
    if t == [] {
      assert t + rest == rest;
    } else {
      ClosingPlain(t[1..], rest);
      assert (t + rest)[0] == t[0] && (t + rest)[1..] == t[1..] + rest;
    }
  }

  lemma ClosingEscape(c: char, rest: string)
    ensures Closing(Escape(c) + rest) == Further(|Escape(c)|, Closing(rest))
  {
    var e := Escape(c);
    var s := e + rest;
    if |e| == 1 {
      assert s[0] == e[0] && s[1..] == rest;
    } else {
      assert s[0] == '\\' && s[2..] == e[2..] + rest;
      if |e| == 2 {
        assert e[2..] + rest == rest;
      } else {
        HexPlain(c);
        ClosingPlain(e[2..], rest);
      }
    }
  }

  lemma HexPlain(c: char)
    requires |Escape(c)| == 6
    ensures forall i :: 2 <= i < 6 ==> Escape(c)[i] != '"' && Escape(c)[i] != '\\'
  {
  }

  lemma {:induction false} ClosingOf(s: string, rest: string)
    ensures Closing(EscapeAll(s) + (['"'] + rest)) == Some(|EscapeAll(s)| + 1)
  {
    hide Escape;
    if s == [] {
      assert EscapeAll(s) + (['"'] + rest) == ['"'] + rest;
    } else {
      ClosingOf(s[1..], rest);
      ClosingEscape(s[0], EscapeAll(s[1..]) + (['"'] + rest));
      assert EscapeAll(s) + (['"'] + rest) == Escape(s[0]) + (EscapeAll(s[1..]) + (['"'] + rest));
    }
  }

  /** The string scanner stops right after the closing quote, whatever the string holds. */
  lemma {:induction false} ScansStrings(s: string, rest: string)
    ensures StringLen(Quote(s) + rest) == Some(|Quote(s)|)
  {
    hide Closing, EscapeAll;
    var t := Quote(s) + rest;
    assert t[0] == '"' && t[1..] == EscapeAll(s) + (['"'] + rest);
    ClosingOf(s, rest);
  }

  // ---------------------------------------------------------------------
  // Nesting
  // ---------------------------------------------------------------------

  /** the two kinds of brackets the scanner counts */
  predicate Brackets(open: char, close: char) {
    (open == '{' && close == '}') || (open == '[' && close == ']')
  }

  predicate NoMarks(t: string) {
    forall i :: 0 <= i < |t| ==> t[i] != '"' && t[i] != '{' && t[i] != '}' && t[i] != '[' && t[i] != ']'
  }

  /** the counter passes over a text without changing its depth */
  ghost predicate Passed(t: string, rest: string, open: char, close: char, depth: nat)
    requires Brackets(open, close)
  {
    NestLen(t + rest, open, close, depth) == Further(|t|, NestLen(rest, open, close, depth))
  }

  lemma {:induction false} PassPlain(t: string, rest: string, open: char, close: char, depth: nat)
    requires Brackets(open, close) && NoMarks(t)
    ensures Passed(t, rest, open, close, depth)
  {
    if t == [] {
      assert t + rest == rest;
    } else {
      PassPlain(t[1..], rest, open, close, depth);
      assert (t + rest)[0] == t[0] && (t + rest)[1..] == t[1..] + rest;
    }
  }

  lemma PassString(s: string, rest: string, open: char, close: char, depth: nat)
    requires Brackets(open, close)
    ensures Passed(Quote(s), rest, open, close, depth)
  {
    ScansStrings(s, rest);
    var t := Quote(s);
    assert t[0] == '"';
    hide Quote, StringLen;
    assert (t + rest)[0] == '"' && (t + rest)[|t|..] == rest;
  }

  /** one text after another */
  lemma PassBoth(a: string, b: string, rest: string, open: char, close: char, depth: nat)
    requires Brackets(open, close) && Passed(a, b + rest, open, close, depth) && Passed(b, rest, open, close, depth)
    ensures Passed(a + b, rest, open, close, depth)
  {
    hide NestLen;
    assert (a + b) + rest == a + (b + rest);
  }

  lemma {:induction false} NumberChars(n: Number)
    ensures NoMarks(Layout(n)) && AllNumeric(Layout(n))
  {
    PunctuationNumeric();
    if n.digits != [] {
      UnsignedChars(n.digits, n.point);
      hide Unsigned;
      JoinNumeric(if n.neg then "-" else "", Unsigned(n.digits, n.point));
    }
    hide Layout;
  }

  lemma UnsignedChars(digits: string, n: int)
    requires digits != [] && AllDigits(digits)
    ensures AllNumeric(Unsigned(digits, n))
  {
    hide NatText, AllNumeric;
    var k := |digits|;
    DigitsNumeric(digits);
    PunctuationNumeric();
    if k <= n <= 21 {
      DigitsNumeric(Zeros(n - k));
      JoinNumeric(digits, Zeros(n - k));
    } else if 0 < n <= 21 {
      DigitsNumeric(digits[..n]);
      DigitsNumeric(digits[n..]);
      JoinNumeric(".", digits[n..]);
      JoinNumeric(digits[..n], "." + digits[n..]);
    } else if -6 < n <= 0 {
      DigitsNumeric(Zeros(-n));
      JoinNumeric(Zeros(-n), digits);
      JoinNumeric(".", Zeros(-n) + digits);
      JoinNumeric("0", "." + (Zeros(-n) + digits));
    } else {
      ExponentNumeric(n - 1);
      hide SignedInt;
      var e := "e" + SignedInt(n - 1);
      if k == 1 {
        JoinNumeric(digits, e);
      } else {
        DigitsNumeric(digits[..1]);
        DigitsNumeric(digits[1..]);
        JoinNumeric(".", digits[1..]);
        JoinNumeric("." + digits[1..], e);
        JoinNumeric(digits[..1], ("." + digits[1..]) + e);
      }
    }
  }

  predicate AllNumeric(t: string) {
    forall i :: 0 <= i < |t| ==> IsNumeric(t[i])
  }

  lemma DigitsNumeric(t: string)
    requires AllDigits(t)
    ensures AllNumeric(t)
  {
  }

  lemma PunctuationNumeric()
    ensures AllNumeric(".") && AllNumeric("0") && AllNumeric("e") && AllNumeric("+") && AllNumeric("-")
  {
  }

  lemma JoinNumeric(a: string, b: string)
    requires AllNumeric(a) && AllNumeric(b)
    ensures AllNumeric(a + b)
  {
  }

  lemma ExponentNumeric(e: int)
    ensures AllNumeric("e" + SignedInt(e))
  {
    hide NatText, AllNumeric;
    PunctuationNumeric();
    DigitsNumeric(NatText(if e >= 0 then e else -e));
    JoinNumeric(if e >= 0 then "+" else "-", NatText(if e >= 0 then e else -e));
    JoinNumeric("e", SignedInt(e));
  }

  /** a bracketed text whose inside is passed one level deeper is passed */
  lemma PassBrackets(o: char, inner: string, c: char, rest: string, open: char, close: char, depth: nat)
    requires Brackets(open, close) && Brackets(o, c) && depth >= 1
    requires Passed(inner, [c] + rest, open, close, if o == open then depth + 1 else depth)
    ensures Passed([o] + inner + [c], rest, open, close, depth)
  {
    var t := [o] + inner + [c];
    assert t + rest == [o] + (inner + ([c] + rest));
    assert ([o] + (inner + ([c] + rest)))[1..] == inner + ([c] + rest);
    assert ([c] + rest)[1..] == rest;
    StepOver(o, inner + ([c] + rest), open, close, depth);
    StepOver(c, rest, open, close, if o == open then depth + 1 else depth);
    hide NestLen;
    FurtherTwice(|inner|, 1, NestLen(rest, open, close, depth));
    FurtherTwice(1, |inner| + 1, NestLen(rest, open, close, depth));
  }

  lemma StepOver(c: char, rest: string, open: char, close: char, depth: nat)
    requires Brackets(open, close) && c != '"'
    ensures NestLen([c] + rest, open, close, depth) ==
      if c == open then Further(1, NestLen(rest, open, close, depth + 1))
      else if c == close then (if depth <= 1 then Some(1) else Further(1, NestLen(rest, open, close, depth - 1)))
      else Further(1, NestLen(rest, open, close, depth))
  {
    assert ([c] + rest)[1..] == rest;
  }

  lemma {:induction false} PassValue(v: Json, rest: string, open: char, close: char, depth: nat)
    requires Brackets(open, close) && depth >= 1
    ensures Passed(Canonical(v), rest, open, close, depth)
    decreases v, 1
  {
    hide NestLen, Quote, Layout, Passed, SortedKeys;
    match v
    case Null => PassPlain("null", rest, open, close, depth);
    case Bool(b) => PassPlain(if b then "true" else "false", rest, open, close, depth);
    case Num(n) =>
      NumberChars(n);
      PassPlain(Layout(n), rest, open, close, depth);
    case Str(s) => PassString(s, rest, open, close, depth);
    case Arr(items) =>
      PassItems(items, "]" + rest, open, close, if '[' == open then depth + 1 else depth);
      PassBrackets('[', Items(items), ']', rest, open, close, depth);
    case Obj(fields) =>
      var keys := SortedKeys(Utf16Units, fields.Keys);
      PassMembers(v, keys, "}" + rest, open, close, if '{' == open then depth + 1 else depth);
      PassBrackets('{', Members(v, keys), '}', rest, open, close, depth);
  }

  lemma {:induction false} PassItems(items: seq<Json>, rest: string, open: char, close: char, depth: nat)
    requires Brackets(open, close) && depth >= 1
    ensures Passed(Items(items), rest, open, close, depth)
    decreases items, 0
  {
    hide NestLen, Passed, Canonical;
    if items == [] {
      PassPlain("", rest, open, close, depth);
    } else if |items| == 1 {
      PassValue(items[0], rest, open, close, depth);
    } else {
      PassItems(items[1..], rest, open, close, depth);
      PassPlain(",", Items(items[1..]) + rest, open, close, depth);
      PassBoth(",", Items(items[1..]), rest, open, close, depth);
      PassValue(items[0], "," + Items(items[1..]) + rest, open, close, depth);
      PassBoth(Canonical(items[0]), "," + Items(items[1..]), rest, open, close, depth);
    }
  }

  lemma {:induction false} PassMember(v: Json, k: string, rest: string, open: char, close: char, depth: nat)
    requires v.Obj? && k in v.fields && Brackets(open, close) && depth >= 1
    ensures Passed(Member(v, k), rest, open, close, depth)
    decreases v, 0, 0
  {
    hide NestLen, Passed, Canonical, Quote;
    var c := Canonical(v.fields[k]);
    PassValue(v.fields[k], rest, open, close, depth);
    PassPlain(":", c + rest, open, close, depth);
    PassBoth(":", c, rest, open, close, depth);
    PassString(k, ":" + c + rest, open, close, depth);
    PassBoth(Quote(k), ":" + c, rest, open, close, depth);
  }

  lemma {:induction false} PassMembers(v: Json, keys: seq<string>, rest: string, open: char, close: char, depth: nat)
    requires v.Obj? && (forall k :: k in keys ==> k in v.fields) && Brackets(open, close) && depth >= 1
    ensures Passed(Members(v, keys), rest, open, close, depth)
    decreases v, 0, |keys| + 1
  {
    hide NestLen, Passed, Member;
    if keys == [] {
      PassPlain("", rest, open, close, depth);
    } else if |keys| == 1 {
      PassMember(v, keys[0], rest, open, close, depth);
    } else {
      var more := Members(v, keys[1..]);
      PassMembers(v, keys[1..], rest, open, close, depth);
      PassPlain(",", more + rest, open, close, depth);
      PassBoth(",", more, rest, open, close, depth);
      PassMember(v, keys[0], "," + more + rest, open, close, depth);
      PassBoth(Member(v, keys[0]), "," + more, rest, open, close, depth);
    }
  }

  // ---------------------------------------------------------------------
  // Whole values
  // ---------------------------------------------------------------------

  lemma WholeBrackets(o: char, inner: string, c: char, rest: string)
    requires Brackets(o, c) && Passed(inner, [c] + rest, o, c, 1)
    ensures NestLen([o] + inner + [c] + rest, o, c, 0) == Some(|inner| + 2)
  {
    assert [o] + inner + [c] + rest == [o] + (inner + ([c] + rest));
    StepOver(o, inner + ([c] + rest), o, c, 0);
    StepOver(c, rest, o, c, 1);
    hide NestLen;
  }

  lemma {:induction false} NumberWhole(t: string, rest: string)
    requires AllNumeric(t) && (rest == [] || !IsNumeric(rest[0]))
    ensures NumberLen(t + rest) == |t|
  {
    if t == [] {
      assert t + rest == rest;
    } else {
      NumberWhole(t[1..], rest);
      assert (t + rest)[0] == t[0] && (t + rest)[1..] == t[1..] + rest;
    }
  }

  /** On the text of any JSON value, followed by what can follow one, the
      scanner stops exactly where the value ends. */
  lemma {:induction false} ScansValues(v: Json, rest: string)
    requires rest == [] || !IsNumeric(rest[0])
    ensures ValueLen(Canonical(v) + rest) == Some(|Canonical(v)|)
  {
    var t := Canonical(v);
    FirstChar(v);
    assert (t + rest)[0] == t[0];
    hide NestLen, StringLen, NumberLen, Quote, Layout, Passed, SortedKeys;
    match v
    case Null => assert HasPrefix(t + rest, "null");
    case Bool(b) => assert HasPrefix(t + rest, if b then "true" else "false");
    case Num(n) =>
      NumberChars(n);
      NumberWhole(t, rest);
    case Str(s) => ScansStrings(s, rest);
    case Arr(items) =>
      PassItems(items, "]" + rest, '[', ']', 1);
      WholeBrackets('[', Items(items), ']', rest);
    case Obj(fields) =>
      var keys := SortedKeys(Utf16Units, fields.Keys);
      PassMembers(v, keys, "}" + rest, '{', '}', 1);
      WholeBrackets('{', Members(v, keys), '}', rest);
  }
}
