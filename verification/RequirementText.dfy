/**
 Requirement expressions as text: the tokenizer, the parser object, and the
 projection that conjoins derived roles to a foreign expression.
 */
module RequirementText {
  import opened Numbers
  import opened Basics
  import opened Requirements

  // ---------------------------------------------------------------------
  // Tokens
  // ---------------------------------------------------------------------

  predicate IsParen(c: char) {
    c == '(' || c == ')'
  }

  predicate IsIdentChar(c: char) {
    'a' <= c <= 'z' || 'A' <= c <= 'Z' || '0' <= c <= '9' || c == '.' || c == ':' || c == '-' || c == '_'
  }

  function IdentRun(s: string): (n: nat)
    ensures n <= |s|
  {
    if s == [] || !IsIdentChar(s[0]) then 0 else 1 + IdentRun(s[1..])
  }

  function Tokenize(s: string): Option<seq<string>> {
    if s == [] then Some([])
    else if IsSpace(s[0]) then Tokenize(s[1..])
    else if IsParen(s[0]) then Append(Some([[s[0]]]), Tokenize(s[1..]))
    else if s[0] == '&' || s[0] == '|' then
      if |s| < 2 || s[1] != s[0] then None else Append(Some([[s[0], s[0]]]), Tokenize(s[2..]))
    else if IsIdentChar(s[0]) then
      Append(Some([s[..IdentRun(s)]]), Tokenize(s[IdentRun(s)..]))
    else None
  }

  function ParseText(s: string): Option<Expr> {
    var ts := Tokenize(s);
    if ts.None? then None else ParseTokens(ts.value)
  }

  /** tokenizeRequirement: one pass with an index */
  method TokenizeRequirement(s: string) returns (r: Option<seq<string>>)
    ensures r == Tokenize(s)
  {
    var i, tokens := 0, [];
    assert s[0..] == s;
    AppendToNothing(Tokenize(s));
    while i < |s|
      invariant 0 <= i <= |s|
      invariant Tokenize(s) == Append(Some(tokens), Tokenize(s[i..]))
    {
      var c := s[i];
      ghost var before := tokens;
      if IsSpace(c) {
        assert s[i..][1..] == s[i + 1..];
        i := i + 1;
      } else if IsParen(c) {
        assert s[i..][1..] == s[i + 1..];
        tokens := tokens + [[c]];
        AppendAssoc(before, [[c]], Tokenize(s[i + 1..]));
        i := i + 1;
      } else if c == '&' || c == '|' {
        if i + 1 >= |s| || s[i + 1] != c {
          return None;
        }
        assert s[i..][2..] == s[i + 2..];
        tokens := tokens + [[c, c]];
        AppendAssoc(before, [[c, c]], Tokenize(s[i + 2..]));
        i := i + 2;
      } else if IsIdentChar(c) {
        var start := i;
        while i < |s| && IsIdentChar(s[i])
          invariant start <= i <= |s|
          invariant IdentRun(s[start..]) == i - start + IdentRun(s[i..])
        {
          assert s[i..][1..] == s[i + 1..];
          i := i + 1;
        }
        assert IdentRun(s[i..]) == 0;
        assert s[start..][..i - start] == s[start..i] && s[start..][i - start..] == s[i..];
        tokens := tokens + [s[start..i]];
        AppendAssoc(before, [s[start..i]], Tokenize(s[i..]));
      } else {
        return None;
      }
    }
    assert s[i..] == [];
    assert tokens + [] == tokens;
    r := Some(tokens);
  }

  lemma AppendToNothing(b: Option<seq<string>>)
    ensures Append(Some([]), b) == b
  {
    if b.Some? {
      assert [] + b.value == b.value;
    }
  }

  lemma AppendAssoc(a: seq<string>, b: seq<string>, c: Option<seq<string>>)
    ensures Append(Some(a), Append(Some(b), c)) == Append(Some(a + b), c)
  {
    if c.Some? {
      assert a + (b + c.value) == a + b + c.value;
    }
  }

  // ---------------------------------------------------------------------
  // The parser object
  // ---------------------------------------------------------------------

  class RequirementParser {
    const tokens: seq<string>
    var pos: nat
    var nodes: nat

    constructor (ts: seq<string>)
      ensures tokens == ts && pos == 0 && nodes == 0
    {
      tokens := ts;
      pos, nodes := 0, 0;
    }

    /** the outcome of a parsing step, as the functional parser gives it */
    ghost predicate Agrees(p: Parse, r: Option<Expr>)
      reads this
    {
      && r.Some? == p.Parsed?
      && (p.Parsed? ==> pos <= |tokens| && r.value == p.expr && tokens[pos..] == p.rest && nodes == p.nodes)
    }

    method ReadExpr(depth: nat) returns (r: Option<Expr>)
      requires pos <= |tokens|
      modifies this
      ensures Agrees(ParseExpr(old(tokens[pos..]), old(nodes), depth), r)
      ensures r.Some? ==> old(pos) < pos
      decreases |tokens| - pos, 1
    {
      if depth > MAX_DEPTH {
        return None;
      }
      var term := ReadTerm(depth);
      if term.None? {
        return None;
      }
      r := ReadRest(term.value, depth);
    }

    /** the loop of parseExpr after its first term */
    method ReadRest(first: Expr, depth: nat) returns (r: Option<Expr>)
      requires pos <= |tokens|
      modifies this
      ensures Agrees(ParseRest(first, old(tokens[pos..]), old(nodes), depth), r)
      ensures r.Some? ==> old(pos) <= pos
      decreases |tokens| - pos, 1
    {
      hide ParseTerm, ParseExpr, OperatorOf;
      ghost var whole := ParseRest(first, tokens[pos..], nodes, depth);
      var left := first;
      while pos < |tokens|
        invariant old(pos) <= pos <= |tokens|
        invariant whole == ParseRest(left, tokens[pos..], nodes, depth)
      {
        var op := OperatorOf(tokens[pos]);
        if op.None? {
          break;
        }
        assert tokens[pos..][1..] == tokens[pos + 1..];
        pos := pos + 1;
        var right := ReadTerm(depth);
        if right.None? {
          return None;
        }
        nodes := nodes + 1;
        if nodes > MAX_NODES {
          return None;
        }
        left := Bin(op.value, left, right.value);
      }
      r := Some(left);
    }

    method ReadTerm(depth: nat) returns (r: Option<Expr>)
      requires pos <= |tokens|
      modifies this
      ensures Agrees(ParseTerm(old(tokens[pos..]), old(nodes), depth), r)
      ensures r.Some? ==> old(pos) < pos
      decreases |tokens| - pos, 0
    {
      if pos >= |tokens| {
        return None;
      }
      var token := tokens[pos];
      assert tokens[pos..][1..] == tokens[pos + 1..];
      if token == "(" {
        pos := pos + 1;
        var inner := ReadExpr(depth + 1);
        if inner.None? || pos >= |tokens| || tokens[pos] != ")" {
          return None;
        }
        assert tokens[pos..][1..] == tokens[pos + 1..];
        pos := pos + 1;
        r := inner;
      } else if !IsName(token) {
        r := None;
      } else {
        pos := pos + 1;
        r := Some(Ident(token));
      }
    }
  }

  /** parseRequirementExpression */
  method ParseRequirementExpression(s: string) returns (r: Option<Expr>)
    ensures r == ParseText(s)
  {
    var ts := TokenizeRequirement(s);
    if ts.None? {
      return None;
    }
    var parser := new RequirementParser(ts.value);
    assert parser.tokens[0..] == ts.value;
    r := parser.ReadExpr(0);
    if r.Some? && parser.pos != |parser.tokens| {
      r := None;
    }
  }

  // ---------------------------------------------------------------------
  // Tokenizing text piece by piece
  // ---------------------------------------------------------------------

  /** a character that ends any token before it */
  predicate Breaks(b: string) {
    b != [] && (IsSpace(b[0]) || IsParen(b[0]))
  }

  lemma {:induction false} IdentRunStops(a: string, b: string)
    requires Breaks(b)
    ensures IdentRun(a + b) == IdentRun(a)
  {
    if a != [] && IsIdentChar(a[0]) {
      assert (a + b)[1..] == a[1..] + b;
      IdentRunStops(a[1..], b);
    } else if a == [] {
      assert a + b == b;
    }
  }

  /** Text is tokenized piece by piece at any space or parenthesis. */
  lemma {:induction false} TokenizeSplit(a: string, b: string)
    requires Breaks(b)
    ensures Tokenize(a + b) == Append(Tokenize(a), Tokenize(b))
    decreases |a|
  {
    var s := a + b;
    if a == [] {
      assert s == b;
      AppendToNothing(Tokenize(b));
    } else if IsSpace(a[0]) {
      assert s[1..] == a[1..] + b;
      TokenizeSplit(a[1..], b);
    } else if IsParen(a[0]) {
      assert s[1..] == a[1..] + b;
      TokenizeSplit(a[1..], b);
      AppendSome([[a[0]]], Tokenize(a[1..]), Tokenize(b));
    } else if a[0] == '&' || a[0] == '|' {
      if |a| >= 2 && a[1] == a[0] {
        assert s[2..] == a[2..] + b;
        TokenizeSplit(a[2..], b);
        AppendSome([[a[0], a[0]]], Tokenize(a[2..]), Tokenize(b));
      } else if |a| == 1 {
        assert s[1] == b[0];
      }
    } else if IsIdentChar(a[0]) {
      IdentRunStops(a, b);
      var n := IdentRun(a);
      assert s[..n] == a[..n] && s[n..] == a[n..] + b;
      TokenizeSplit(a[n..], b);
      AppendSome([a[..n]], Tokenize(a[n..]), Tokenize(b));
    }
  }

  /** a role identifier: one identifier token that is not an operator word */
  predicate IsRole(r: string) {
    r != [] && OperatorOf(r).None? && forall i :: 0 <= i < |r| ==> IsIdentChar(r[i])
  }

  lemma {:induction false} RunOfIdent(r: string)
    requires forall i :: 0 <= i < |r| ==> IsIdentChar(r[i])
    ensures IdentRun(r) == |r|
  {
    if r != [] {
      RunOfIdent(r[1..]);
    }
  }

  lemma TokenizeWord(r: string)
    requires r != [] && forall i :: 0 <= i < |r| ==> IsIdentChar(r[i])
    ensures Tokenize(r) == Some([r])
  {
    RunOfIdent(r);
    assert r[..|r|] == r && r[|r|..] == [];
    assert [r] + [] == [r];
    assert IsIdentChar(r[0]);
    assert Tokenize(r) == Append(Some([r]), Some([])) by {
      hide IdentRun;
    }
  }

  // ---------------------------------------------------------------------
  // The projection: "(" e ") AND r1 AND ... AND rn"
  // ---------------------------------------------------------------------

  function Wrap(e: string, roles: seq<string>): string {
    if roles == [] then "(" + e + ")"
    else Wrap(e, roles[..|roles| - 1]) + (" AND " + roles[|roles| - 1])
  }

  lemma TokenizeConjunct(r: string)
    requires IsRole(r)
    ensures Tokenize(" AND " + r) == Some(["AND", r])
  {
    var s := " AND " + r;
    assert s[1..] == "AND" + (" " + r);
    TokenizeSplit("AND", " " + r);
    TokenizeWord("AND");
    assert (" " + r)[1..] == r;
    TokenizeWord(r);
    assert ["AND"] + [r] == ["AND", r];
  }

  lemma TokenizeParens(e: string)
    ensures Tokenize("(" + e + ")") == Append(Some(["("]), Append(Tokenize(e), Some([")"])))
  {
    var s := "(" + e + ")";
    assert s[1..] == e + ")";
    TokenizeSplit(e, ")");
    assert ")"[1..] == [] && [] == ")"[1..];
    assert Tokenize(")") == Some([")"]) by {
      assert [")"] + [] == [")"];
    }
  }

  function Conjuncts(roles: seq<string>): seq<string> {
    if roles == [] then [] else Conjuncts(roles[..|roles| - 1]) + ["AND", roles[|roles| - 1]]
  }

  lemma {:induction false} TokenizeWrap(e: string, roles: seq<string>)
    requires forall i :: 0 <= i < |roles| ==> IsRole(roles[i])
    ensures Tokenize(Wrap(e, roles)) ==
            Append(Append(Some(["("]), Append(Tokenize(e), Some([")"]))), Some(Conjuncts(roles)))
  {
    hide Tokenize;
    var n := |roles| - 1;
    if roles == [] {
      TokenizeParens(e);
      AppendNothing(Append(Some(["("]), Append(Tokenize(e), Some([")"]))));
    } else {
      TokenizeWrap(e, roles[..n]);
      TokenizeSplit(Wrap(e, roles[..n]), " AND " + roles[n]);
      TokenizeConjunct(roles[n]);
      AppendTwice(Append(Some(["("]), Append(Tokenize(e), Some([")"]))), Conjuncts(roles[..n]), ["AND", roles[n]]);
    }
  }

  lemma AppendNothing(a: Option<seq<string>>)
    ensures Append(a, Some([])) == a
  {
    if a.Some? {
      assert a.value + [] == a.value;
    }
  }

  lemma AppendTwice(a: Option<seq<string>>, b: seq<string>, c: seq<string>)
    ensures Append(Append(a, Some(b)), Some(c)) == Append(a, Some(b + c))
  {
    if a.Some? {
      assert a.value + b + c == a.value + (b + c);
    }
  }

  predicate AllPresent(roles: seq<string>, present: string -> bool) {
    forall i :: 0 <= i < |roles| ==> present(roles[i])
  }

  // The trailing conjuncts stay outermost whatever precedes them.

  lemma LastTokenIsTerm(t: Term, r: string)
    requires WellFormedTerm(t) && IsName(r) && TermTokens(t)[|TermTokens(t)| - 1] == r
    ensures t == Name(r)
  {
  }

  /** A well-formed text that ends in "AND r" is the conjunction of what comes before with r. */
  lemma SplitConjunct(s: Syntax, head: seq<string>, r: string) returns (init: Syntax)
    requires WellFormed(s) && IsName(r) && head != [] && Tokens(s) == head + ["AND", r]
    ensures WellFormed(init) && s == More(init, "AND", Name(r)) && Tokens(init) == head
  {
    var ts := Tokens(s);
    assert ts[|ts| - 1] == r && ts[|ts| - 2] == "AND";
    match s
    case One(t) =>
      LastTokenIsTerm(t, r);
      assert false;
    case More(i, op, t) =>
      assert TermTokens(t)[|TermTokens(t)| - 1] == ts[|ts| - 1];
      LastTokenIsTerm(t, r);
      assert ts == Tokens(i) + [op, r];
      assert op == ts[|ts| - 2];
      assert Tokens(i) == ts[..|ts| - 2] == head;
      init := i;
  }

  lemma {:induction false} ConjunctsRequired(s: Syntax, head: seq<string>, roles: seq<string>, present: string -> bool)
    requires WellFormed(s) && head != [] && (forall i :: 0 <= i < |roles| ==> IsName(roles[i]))
    requires Tokens(s) == head + Conjuncts(roles) && Eval(Meaning(s), present)
    ensures AllPresent(roles, present)
    decreases |roles|
  {
    if roles != [] {
      var n := |roles| - 1;
      var before := head + Conjuncts(roles[..n]);
      assert head + Conjuncts(roles) == before + ["AND", roles[n]];
      var init := SplitConjunct(s, before, roles[n]);
      assert Eval(Meaning(init), present);
      ConjunctsRequired(init, head, roles[..n], present);
      assert Meaning(s) == Bin(And, Meaning(init), Ident(roles[n]));
      assert present(roles[n]);
      forall i | 0 <= i < |roles| ensures present(roles[i]) {
        assert i < n ==> present(roles[..n][i]);
      }
    }
  }

  /** Whatever text is wrapped, if the result parses it is true only when every role is present. */
  lemma {:induction false} WrapRequiresRoles(e: string, roles: seq<string>, x: Expr, present: string -> bool)
    requires forall i :: 0 <= i < |roles| ==> IsRole(roles[i])
    requires ParseText(Wrap(e, roles)) == Some(x) && Eval(x, present)
    ensures AllPresent(roles, present)
  {
    TokenizeWrap(e, roles);
    var ts := Tokenize(Wrap(e, roles)).value;
    var head := ["("] + (Tokenize(e).value + [")"]);
    ParserExact(ts, x);
    var s :| Admissible(s) && Tokens(s) == ts && Meaning(s) == x;
    hide Tokenize, Wrap;
    forall i | 0 <= i < |roles| ensures IsName(roles[i]) {
      RoleIsName(roles[i]);
    }
    ConjunctsRequired(s, head, roles, present);
  }

  lemma RoleIsName(r: string)
    requires IsRole(r)
    ensures IsName(r)
  {
    assert !IsIdentChar("("[0]) && !IsIdentChar(")"[0]);
  }

  // A well-formed expression keeps its meaning inside the wrapper.

  function WrapSyntax(s: Syntax, roles: seq<string>): Syntax {
    if roles == [] then One(Paren(s))
    else More(WrapSyntax(s, roles[..|roles| - 1]), "AND", Name(roles[|roles| - 1]))
  }

  lemma {:induction false} WrapSyntaxTokens(s: Syntax, roles: seq<string>)
    ensures Tokens(WrapSyntax(s, roles)) == ["("] + (Tokens(s) + [")"]) + Conjuncts(roles)
    decreases |roles|
  {
    var head := ["("] + (Tokens(s) + [")"]);
    if roles == [] {
      assert head + [] == head;
    } else {
      var n := |roles| - 1;
      WrapSyntaxTokens(s, roles[..n]);
      assert ["AND"] + [roles[n]] == ["AND", roles[n]];
      assert head + Conjuncts(roles[..n]) + ["AND", roles[n]] == head + Conjuncts(roles);
    }
  }

  lemma {:induction false} WrapSyntaxShape(s: Syntax, roles: seq<string>)
    requires WellFormed(s) && forall i :: 0 <= i < |roles| ==> IsName(roles[i])
    ensures WellFormed(WrapSyntax(s, roles))
    ensures Tokens(WrapSyntax(s, roles)) == ["("] + (Tokens(s) + [")"]) + Conjuncts(roles)
    ensures Depth(WrapSyntax(s, roles)) == 1 + Depth(s) && Nodes(WrapSyntax(s, roles)) == Nodes(s) + |roles|
    decreases |roles|
  {
    WrapSyntaxTokens(s, roles);
    hide Tokens, Conjuncts, IsName;
    if roles != [] {
      WrapSyntaxShape(s, roles[..|roles| - 1]);
    }
  }

  lemma {:induction false} WrapSyntaxMeaning(s: Syntax, roles: seq<string>, present: string -> bool)
    requires WellFormed(WrapSyntax(s, roles)) && WellFormed(s)
    ensures Eval(Meaning(WrapSyntax(s, roles)), present) <==> Eval(Meaning(s), present) && AllPresent(roles, present)
    decreases |roles|
  {
    if roles != [] {
      var n := |roles| - 1;
      WrapSyntaxMeaning(s, roles[..n], present);
      assert AllPresent(roles, present) <==> AllPresent(roles[..n], present) && present(roles[n]) by {
        assert forall i :: 0 <= i < n ==> roles[..n][i] == roles[i];
      }
    }
  }

  /** A parsable expression wrapped with roles parses exactly when one more
      level and one more node per role still fit, and then it means the
      expression together with all the roles. */
  lemma {:induction false} WrapExact(e: string, roles: seq<string>, y: Expr)
    requires (forall i :: 0 <= i < |roles| ==> IsRole(roles[i])) && ParseText(e) == Some(y)
    ensures
      var ts := Tokenize(e).value;
      ParseText(Wrap(e, roles)).Some? <==> Nesting(ts, 0) < MAX_DEPTH && Operators(ts) + |roles| <= MAX_NODES
    ensures forall x, present :: ParseText(Wrap(e, roles)) == Some(x) ==>
              (Eval(x, present) <==> Eval(y, present) && AllPresent(roles, present))
  {
    var ts := Tokenize(e).value;
    ParserExact(ts, y);
    var s :| Admissible(s) && Tokens(s) == ts && Meaning(s) == y;
    hide Tokenize, Wrap, ParseText;
    WrapOfSyntax(e, roles, s);
    LimitsFromTokens(s);
    forall x, present | ParseText(Wrap(e, roles)) == Some(x)
      ensures Eval(x, present) <==> Eval(y, present) && AllPresent(roles, present)
    {
      WrapSyntaxMeaning(s, roles, present);
    }
  }

  lemma WrapOfSyntax(e: string, roles: seq<string>, s: Syntax)
    requires forall i :: 0 <= i < |roles| ==> IsRole(roles[i])
    requires Admissible(s) && Tokenize(e) == Some(Tokens(s))
    ensures WellFormed(WrapSyntax(s, roles))
    ensures ParseText(Wrap(e, roles)) ==
            if Depth(s) < MAX_DEPTH && Nodes(s) + |roles| <= MAX_NODES then Some(Meaning(WrapSyntax(s, roles))) else None
  {
    hide Tokenize, Wrap, ParseTokens, Conjuncts, Meaning;
    TokenizeWrap(e, roles);
    forall i | 0 <= i < |roles| ensures IsName(roles[i]) {
      RoleIsName(roles[i]);
    }
    var w := WrapSyntax(s, roles);
    WrapSyntaxShape(s, roles);
    hide Tokens, WrapSyntax;
    WrapParses(w, Tokens(w));
  }

  lemma WrapParses(w: Syntax, ts: seq<string>)
    requires WellFormed(w) && Tokens(w) == ts
    ensures ParseTokens(ts) == if Admissible(w) then Some(Meaning(w)) else None
  {
    if Admissible(w) {
      ParserExact(ts, Meaning(w));
    } else if ParseTokens(ts).Some? {
      ParserExact(ts, ParseTokens(ts).value);
      var s :| Admissible(s) && Tokens(s) == ts;
      LimitsFromTokens(s);
      LimitsFromTokens(w);
    }
  }

  // ---------------------------------------------------------------------
  // An expression that wrapping takes over the limit
  // ---------------------------------------------------------------------

  /** one name inside n pairs of parentheses */
  function Parens(n: nat): string {
    if n == 0 then "a" else "(" + Parens(n - 1) + ")"
  }

  function ParensSyntax(n: nat): Syntax {
    if n == 0 then One(Name("a")) else One(Paren(ParensSyntax(n - 1)))
  }

  lemma {:induction false} ParensTokens(n: nat)
    ensures WellFormed(ParensSyntax(n)) && Depth(ParensSyntax(n)) == n && Nodes(ParensSyntax(n)) == 0
    ensures Tokenize(Parens(n)) == Some(Tokens(ParensSyntax(n)))
  {
    if n == 0 {
      assert IsRole("a");
      RoleIsName("a");
      TokenizeWord("a");
    } else {
      ParensTokens(n - 1);
      TokenizeParens(Parens(n - 1));
      hide Tokenize;
    }
  }

  /** Parentheses nested to the limit parse, and with any roles conjoined no longer do. */
  lemma {:induction false} WrapRefused(roles: seq<string>)
    requires forall i :: 0 <= i < |roles| ==> IsRole(roles[i])
    ensures ParseText(Parens(MAX_DEPTH)).Some? && ParseText(Wrap(Parens(MAX_DEPTH), roles)).None?
  {
    hide Tokenize, Wrap, Parens, ParensSyntax, Meaning, Tokens, ParseTokens, IsRole;
    var s := ParensSyntax(MAX_DEPTH);
    ParensTokens(MAX_DEPTH);
    WrapParses(s, Tokens(s));
    WrapOfSyntax(Parens(MAX_DEPTH), roles, s);
  }

  // ---------------------------------------------------------------------
  // Building the projected expression
  // ---------------------------------------------------------------------

  /** the first occurrence of each role, in order */
  function FirstOnly(roles: seq<string>): (r: seq<string>)
    ensures forall x :: x in r <==> x in roles
  {
    if roles == [] then []
    else
      var init, last := roles[..|roles| - 1], roles[|roles| - 1];
      assert roles == init + [last];
      if last in init then FirstOnly(init) else FirstOnly(init) + [last]
  }

  /** the loop of Project over the required bindings, each role conjoined once */
  method ProjectExpression(e: string, roles: seq<string>) returns (text: string)
    ensures text == Wrap(e, FirstOnly(roles))
  {
    text := "(" + e + ")";
    var seen := {};
    for i := 0 to |roles|
      invariant text == Wrap(e, FirstOnly(roles[..i]))
      invariant forall x :: x in seen <==> x in roles[..i]
    {
      var role := roles[i];
      assert roles[..i + 1][..i] == roles[..i];
      assert roles[..i + 1] == roles[..i] + [role];
      if role !in seen {
        assert (FirstOnly(roles[..i]) + [role])[..|FirstOnly(roles[..i])|] == FirstOnly(roles[..i]);
        text := text + (" AND " + role);
        seen := seen + {role};
      }
    }
    assert roles[..|roles|] == roles;
  }

  /** A projected requirement is met only when every required binding's role is present. */
  lemma {:induction false} ProjectionRequiresBindings(e: string, roles: seq<string>, x: Expr, present: string -> bool)
    requires forall i :: 0 <= i < |roles| ==> IsRole(roles[i])
    requires ParseText(Wrap(e, FirstOnly(roles))) == Some(x) && Eval(x, present)
    ensures AllPresent(roles, present)
  {
    var once := FirstOnly(roles);
    hide ParseText, Wrap, IsRole;
    assert forall i :: 0 <= i < |once| ==> once[i] in roles;
    WrapRequiresRoles(e, once, x, present);
    forall i | 0 <= i < |roles| ensures present(roles[i]) {
      assert roles[i] in once;
    }
  }
}
