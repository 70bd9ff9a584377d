/**
 Constraints as text: which constraints are well formed, what a row limit asks
 of an operation, and which constraints are left to others.
 */
module ConstraintText {
  import opened Numbers
  import opened Binary64
  import opened Ids
  import opened IdText
  import opened Grants
  import opened Authorization

  const ROWS := "varwof/constraint-v1:max_rows:"
  const WINDOW := "varwof/constraint-v1:time:window:"
  const CIDR := "varwof/constraint-v1:network:cidr:"

  lemma {:induction false} JoinIsJoined(parts: seq<string>)
    requires parts != []
    ensures Join(parts) == Joined(parts)
  {
    if |parts| > 1 {
      JoinIsJoined(parts[1..]);
      assert parts[0] + ":" + Join(parts[1..]) == parts[0] + (":" + Joined(parts[1..]));
    }
  }

  lemma OnePart(p: string, part: string)
    requires Split(p) == [part]
    ensures p == part
  {
    JoinedSplit(p);
  }

  lemma ThreeParts(c: string) returns (s: string)
    requires |Split(c)| >= 3
    ensures c == Split(c)[0] + (":" + (Split(c)[1] + (":" + s)))
    ensures Split(s) == Split(c)[2..] && Join(Split(c)[2..]) == s
  {
    hide Split, Join;
    var p, q := SplitAt(c, 1);
    assert Split(p) == [Split(c)[0]];
    OnePart(p, Split(c)[0]);
    var r: string;
    assert |Split(q)| >= 2;
    r, s := SplitAt(q, 1);
    assert Split(r) == [Split(c)[1]];
    OnePart(r, Split(c)[1]);
    JoinIsJoined(Split(s));
    JoinedSplit(s);
  }

  lemma PartsOf(a: string, b: string, s: string)
    requires ':' !in a && ':' !in b
    ensures Split(a + (":" + (b + (":" + s)))) == [a, b] + Split(s)
    ensures Join(([a, b] + Split(s))[2..]) == s
  {
    hide Split, Join;
    NoColon(a);
    NoColon(b);
    SplitConcat(b, s);
    SplitConcat(a, b + (":" + s));
    assert [a] + ([b] + Split(s)) == [a, b] + Split(s);
    assert ([a, b] + Split(s))[2..] == Split(s);
    JoinIsJoined(Split(s));
    JoinedSplit(s);
  }

  /** the text of a constraint of the reserved scheme */
  function Typed(kind: string, value: string): string {
    SCHEME + (":" + (kind + (":" + value)))
  }

  lemma TypedParts(kind: string, value: string)
    requires ':' !in kind
    ensures Split(Typed(kind, value)) == [SCHEME, kind] + Split(value) && Join(Split(Typed(kind, value))[2..]) == value
  {
    assert ':' !in SCHEME;
    PartsOf(SCHEME, kind, value);
  }

  lemma RowsFront(rest: string)
    ensures ROWS + rest == Typed("max_rows", rest)
  {
    assert ROWS == SCHEME + ":" + "max_rows" + ":";
  }

  lemma WindowFront(rest: string)
    ensures WINDOW + rest == Typed("time", "window:" + rest)
  {
    assert WINDOW == SCHEME + ":" + "time" + ":" + "window:";
  }

  lemma CidrFront(rest: string)
    ensures CIDR + rest == Typed("network", "cidr:" + rest)
  {
    assert CIDR == SCHEME + ":" + "network" + ":" + "cidr:";
  }

  lemma DigitsNoColon(s: string)
    requires AllDigits(s)
    ensures ':' !in s
  {
  }

  lemma OtherKinds()
    ensures "max_rows" != "time" && "max_rows" != "network" && "time" != "network"
    ensures ':' !in "max_rows" && ':' !in "time" && ':' !in "network"
  {
    assert |"max_rows"| == 8 && |"time"| == 4 && |"network"| == 7;
  }

  /** what a well-formed constraint looks like, by its type */
  predicate Shaped(c: string, grammar: Grammar) {
    || (ROWS <= c && StrictInteger(c[|ROWS|..]) && TextNat(c[|ROWS|..]) <= MAX_INTEGER)
    || (WINDOW <= c && grammar.window(c[|WINDOW|..]))
    || (CIDR <= c && grammar.cidr(c[|CIDR|..]))
  }

  lemma ShapedIsValid(c: string, grammar: Grammar)
    requires Shaped(c, grammar)
    ensures ValidConstraint(c, grammar)
  {
    hide Split, Join, TextNat;
    OtherKinds();
    if ROWS <= c && StrictInteger(c[|ROWS|..]) && TextNat(c[|ROWS|..]) <= MAX_INTEGER {
      var rest := c[|ROWS|..];
      assert c == ROWS + rest;
      RowsFront(rest);
      TypedParts("max_rows", rest);
      DigitsNoColon(rest);
      NoColon(rest);
    } else if WINDOW <= c && grammar.window(c[|WINDOW|..]) {
      var rest := c[|WINDOW|..];
      assert c == WINDOW + rest;
      WindowFront(rest);
      TypedParts("time", "window:" + rest);
      assert ("window:" + rest)[|"window:"|..] == rest;
    } else {
      var rest := c[|CIDR|..];
      assert c == CIDR + rest;
      CidrFront(rest);
      TypedParts("network", "cidr:" + rest);
      assert ("cidr:" + rest)[|"cidr:"|..] == rest;
    }
  }

  lemma ValidIsShaped(c: string, grammar: Grammar)
    requires ValidConstraint(c, grammar)
    ensures Shaped(c, grammar)
  {
    hide Split, Join, TextNat;
    OtherKinds();
    assert |Split(c)| >= 3 by {
      if |Split(c)| == 2 {
        assert Join(Split(c)[2..]) == "" by { assert Split(c)[2..] == []; NoParts(); }
      }
    }
    var s := ThreeParts(c);
    var kind := Split(c)[1];
    assert c == Typed(kind, s);
    if kind == "max_rows" {
      assert Split(s) == [Split(c)[2]];
      OnePart(s, Split(c)[2]);
      RowsFront(s);
      assert c == ROWS + s && c[|ROWS|..] == s;
    } else if kind == "time" {
      var rest := s[|"window:"|..];
      assert s == "window:" + rest;
      WindowFront(rest);
      assert c == WINDOW + rest && c[|WINDOW|..] == rest;
    } else {
      var rest := s[|"cidr:"|..];
      assert s == "cidr:" + rest;
      CidrFront(rest);
      assert c == CIDR + rest && c[|CIDR|..] == rest;
    }
  }

  lemma NoParts()
    ensures Join([]) == ""
  {
  }

  /** A constraint is well formed exactly when its text is a row limit with a
      plain interoperable integer, or a time or network constraint whose value
      the grammar of its type accepts. */
  lemma {:induction false} WellFormedOnText(c: string, grammar: Grammar)
    ensures ValidConstraint(c, grammar) <==> Shaped(c, grammar)
  {
    hide ValidConstraint, Shaped;
    if ValidConstraint(c, grammar) {
      ValidIsShaped(c, grammar);
    }
    if Shaped(c, grammar) {
      ShapedIsValid(c, grammar);
    }
  }

  /** A row limit holds exactly when the operation asks for a whole number of
      rows from zero to the limit, and is decided here. */
  lemma {:induction false} RowLimit(n: nat, op: Operation)
    ensures CoreEvaluates(ROWS + NatText(n))
    ensures ConstraintHolds(ROWS + NatText(n), op) <==>
      && "max_rows" in op.params && op.params["max_rows"].Num?
      && var rows := op.params["max_rows"].n.Value();
         rows == rows.Floor as real && 0.0 <= rows <= n as real
  {
    var rest := NatText(n);
    Plain(n);
    TextNatOfNatText(n);
    RowsFront(rest);
    TypedParts("max_rows", rest);
    OtherKinds();
    DigitsNoColon(rest);
    NoColon(rest);
    hide Split, Join, TextNat, NatText;
  }

  lemma {:induction false} Plain(n: nat)
    ensures StrictInteger(NatText(n)) && (n > 0 ==> NatText(n)[0] != '0')
  {
    if n >= 10 {
      Plain(n / 10);
    }
  }

  /** A well-formed constraint that is no row limit holds of every operation and is left to others. */
  lemma {:induction false} OthersAreLeft(c: string, op: Operation, grammar: Grammar)
    requires ValidConstraint(c, grammar)
    ensures ROWS <= c <==> CoreEvaluates(c)
    ensures !(ROWS <= c) ==> ConstraintHolds(c, op)
  {
    hide Join, TextNat, Split;
    if ROWS <= c {
      var rest := c[|ROWS|..];
      assert c == ROWS + rest;
      RowsFront(rest);
      OtherKinds();
      TypedParts("max_rows", rest);
    }
    if CoreEvaluates(c) {
      var s := ThreeParts(c);
      RowsFront(s);
      assert c == ROWS + s;
    }
  }
}
