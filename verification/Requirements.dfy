/**
 The bounded requirement expression language: terms joined left to right by
 AND and OR, which bind equally, with parentheses as the only precedence.
 */
module Requirements {
  import opened Numbers
  import opened Basics

  const MAX_NODES: nat := 64
  const MAX_DEPTH: nat := 8

  datatype Op = And | Or

  datatype Expr = Ident(name: string) | Bin(op: Op, left: Expr, right: Expr)

  /** left-to-right evaluation over the roles that are present */
  predicate Eval(e: Expr, present: string -> bool) {
    match e
    case Ident(name) => present(name)
    case Bin(And, l, r) => Eval(l, present) && Eval(r, present)
    case Bin(Or, l, r) => Eval(l, present) || Eval(r, present)
  }

  function OperatorOf(token: string): Option<Op> {
    if token == "AND" || token == "&&" then Some(And)
    else if token == "OR" || token == "||" then Some(Or)
    else None
  }

  predicate IsName(token: string) {
    token != "(" && token != ")" && OperatorOf(token).None?
  }

  // ---------------------------------------------------------------------
  // The parser, over the tokens still to be read
  // ---------------------------------------------------------------------

  datatype Parse = Refused | Parsed(expr: Expr, rest: seq<string>, nodes: nat)

  function ParseExpr(ts: seq<string>, nodes: nat, depth: nat): (p: Parse)
    ensures p.Parsed? ==> |p.rest| < |ts|
    decreases |ts|, 2
  {
    if depth > MAX_DEPTH then Refused
    else
      var t := ParseTerm(ts, nodes, depth);
      if t.Refused? then Refused else ParseRest(t.expr, t.rest, t.nodes, depth)
  }

  function ParseRest(left: Expr, ts: seq<string>, nodes: nat, depth: nat): (p: Parse)
    ensures p.Parsed? ==> |p.rest| <= |ts|
    decreases |ts|, 0
  {
    if ts == [] || OperatorOf(ts[0]).None? then Parsed(left, ts, nodes)
    else
      var t := ParseTerm(ts[1..], nodes, depth);
      if t.Refused? || t.nodes + 1 > MAX_NODES then Refused
      else ParseRest(Bin(OperatorOf(ts[0]).value, left, t.expr), t.rest, t.nodes + 1, depth)
  }

  function ParseTerm(ts: seq<string>, nodes: nat, depth: nat): (p: Parse)
    ensures p.Parsed? ==> |p.rest| < |ts|
    decreases |ts|, 1
  {
    if ts == [] then Refused
    else if ts[0] == "(" then
      var inner := ParseExpr(ts[1..], nodes, depth + 1);
      if inner.Refused? || inner.rest == [] || inner.rest[0] != ")" then Refused
      else inner.(rest := inner.rest[1..])
    else if !IsName(ts[0]) then Refused
    else Parsed(Ident(ts[0]), ts[1..], nodes)
  }

  function ParseTokens(ts: seq<string>): Option<Expr> {
    var p := ParseExpr(ts, 0, 0);
    if p.Parsed? && p.rest == [] then Some(p.expr) else None
  }

  // ---------------------------------------------------------------------
  // The grammar, as concrete syntax
  // ---------------------------------------------------------------------

  datatype Term = Name(name: string) | Paren(inner: Syntax)
  datatype Syntax = One(term: Term) | More(init: Syntax, op: string, term: Term)

  predicate WellFormedTerm(t: Term) {
    match t
    case Name(n) => IsName(n)
    case Paren(s) => WellFormed(s)
  }

  predicate WellFormed(s: Syntax) {
    match s
    case One(t) => WellFormedTerm(t)
    case More(init, op, t) => WellFormed(init) && OperatorOf(op).Some? && WellFormedTerm(t)
  }

  function TermTokens(t: Term): (ts: seq<string>)
    ensures ts != []
  {
    match t
    case Name(n) => [n]
    case Paren(s) => ["("] + (Tokens(s) + [")"])
  }

  function Tokens(s: Syntax): (ts: seq<string>)
    ensures ts != []
  {
    match s
    case One(t) => TermTokens(t)
    case More(init, op, t) => Tokens(init) + ([op] + TermTokens(t))
  }

  function TermMeaning(t: Term): Expr
    requires WellFormedTerm(t)
  {
    match t
    case Name(n) => Ident(n)
    case Paren(s) => Meaning(s)
  }

  function Meaning(s: Syntax): Expr
    requires WellFormed(s)
  {
    match s
    case One(t) => TermMeaning(t)
    case More(init, op, t) => Bin(OperatorOf(op).value, Meaning(init), TermMeaning(t))
  }

  function TermDepth(t: Term): nat {
    match t
    case Name(_) => 0
    case Paren(s) => 1 + Depth(s)
  }

  function Depth(s: Syntax): nat {
    match s
    case One(t) => TermDepth(t)
    case More(init, _, t) => Max(Depth(init), TermDepth(t))
  }

  function TermNodes(t: Term): nat {
    match t
    case Name(_) => 0
    case Paren(s) => Nodes(s)
  }

  function Nodes(s: Syntax): nat {
    match s
    case One(t) => TermNodes(t)
    case More(init, _, t) => Nodes(init) + TermNodes(t) + 1
  }

  /** text of the grammar within the depth and node limits */
  predicate Admissible(s: Syntax) {
    WellFormed(s) && Depth(s) <= MAX_DEPTH && Nodes(s) <= MAX_NODES
  }

  // ---------------------------------------------------------------------
  // The parser accepts every admissible text
  // ---------------------------------------------------------------------

  lemma {:induction false} TermComplete(t: Term, rest: seq<string>, nodes: nat, depth: nat)
    requires WellFormedTerm(t) && depth + TermDepth(t) <= MAX_DEPTH && nodes + TermNodes(t) <= MAX_NODES
    ensures ParseTerm(TermTokens(t) + rest, nodes, depth) == Parsed(TermMeaning(t), rest, nodes + TermNodes(t))
    decreases t
  {
    var ts := TermTokens(t) + rest;
    match t
    case Name(n) =>
      assert ts[1..] == rest;
    case Paren(s) =>
      var tail := [")"] + rest;
      assert ts[1..] == Tokens(s) + tail;
      SyntaxComplete(s, tail, nodes, depth + 1);
      assert tail[0] == ")" && tail[1..] == rest;
  }

  lemma MoreTokens(a: seq<string>, op: string, t: seq<string>, rest: seq<string>)
    ensures a + ([op] + t) + rest == a + ([op] + (t + rest))
  {
  }

  lemma {:induction false} SyntaxComplete(s: Syntax, rest: seq<string>, nodes: nat, depth: nat)
    requires WellFormed(s) && depth + Depth(s) <= MAX_DEPTH && nodes + Nodes(s) <= MAX_NODES
    ensures ParseExpr(Tokens(s) + rest, nodes, depth) == ParseRest(Meaning(s), rest, nodes + Nodes(s), depth)
    decreases s
  {
    match s
    case One(t) =>
      hide ParseTerm, ParseRest, TermTokens, TermMeaning, TermNodes, TermDepth;
      TermComplete(t, rest, nodes, depth);
    case More(init, op, t) =>
      hide ParseExpr, ParseTerm, OperatorOf, TermDepth, TermMeaning, TermTokens, TermNodes;
      var tail := [op] + (TermTokens(t) + rest);
      assert Tokens(s) + rest == Tokens(init) + tail by { hide *; MoreTokens(Tokens(init), op, TermTokens(t), rest); }
      SyntaxComplete(init, tail, nodes, depth);
      assert tail[1..] == TermTokens(t) + rest;
      TermComplete(t, rest, nodes + Nodes(init), depth);
  }

  // ---------------------------------------------------------------------
  // The parser accepts nothing else
  // ---------------------------------------------------------------------

  lemma {:induction false} TermSound(ts: seq<string>, nodes: nat, depth: nat) returns (t: Term)
    requires ParseTerm(ts, nodes, depth).Parsed? && nodes <= MAX_NODES && depth <= MAX_DEPTH
    ensures
      var p := ParseTerm(ts, nodes, depth);
      && WellFormedTerm(t) && ts == TermTokens(t) + p.rest && TermMeaning(t) == p.expr
      && p.nodes == nodes + TermNodes(t) <= MAX_NODES && depth + TermDepth(t) <= MAX_DEPTH
    decreases |ts|, 1
  {
    if ts[0] == "(" {
      var inner := ParseExpr(ts[1..], nodes, depth + 1);
      var s := ExprSound(ts[1..], nodes, depth + 1);
      t := Paren(s);
      assert inner.rest == [")"] + inner.rest[1..];
      assert ts == ["("] + ts[1..];
      assert ts == TermTokens(t) + inner.rest[1..];
    } else {
      t := Name(ts[0]);
      assert ts == [ts[0]] + ts[1..];
    }
  }

  lemma {:induction false} ExprSound(ts: seq<string>, nodes: nat, depth: nat) returns (s: Syntax)
    requires ParseExpr(ts, nodes, depth).Parsed? && nodes <= MAX_NODES
    ensures
      var p := ParseExpr(ts, nodes, depth);
      && WellFormed(s) && ts == Tokens(s) + p.rest && Meaning(s) == p.expr
      && p.nodes == nodes + Nodes(s) <= MAX_NODES && depth + Depth(s) <= MAX_DEPTH
    decreases |ts|, 2
  {
    var p := ParseTerm(ts, nodes, depth);
    var t := TermSound(ts, nodes, depth);
    s := RestSound(One(t), p.rest, nodes, depth, ts);
  }

  lemma {:induction false} RestSound(left: Syntax, rest: seq<string>, nodes: nat, depth: nat, ts: seq<string>)
    returns (s: Syntax)
    requires WellFormed(left) && nodes + Nodes(left) <= MAX_NODES && depth + Depth(left) <= MAX_DEPTH
    requires ts == Tokens(left) + rest && ParseRest(Meaning(left), rest, nodes + Nodes(left), depth).Parsed?
    ensures
      var p := ParseRest(Meaning(left), rest, nodes + Nodes(left), depth);
      && WellFormed(s) && ts == Tokens(s) + p.rest && Meaning(s) == p.expr
      && p.nodes == nodes + Nodes(s) <= MAX_NODES && depth + Depth(s) <= MAX_DEPTH
    decreases |rest|, 0
  {
    hide ParseTerm, OperatorOf, TermMeaning, TermTokens, TermNodes, TermDepth;
    if rest == [] || OperatorOf(rest[0]).None? {
      s := left;
    } else {
      var n := nodes + Nodes(left);
      var p := ParseTerm(rest[1..], n, depth);
      var t := TermSound(rest[1..], n, depth);
      var more := More(left, rest[0], t);
      assert rest == [rest[0]] + rest[1..];
      assert ts == Tokens(more) + p.rest by { MoreTokens(Tokens(left), rest[0], TermTokens(t), p.rest); }
      s := RestSound(more, p.rest, nodes, depth, ts);
    }
  }

  /** The parser accepts exactly the admissible texts, with their left-to-right meaning. */
  lemma {:induction false} ParserExact(ts: seq<string>, e: Expr)
    ensures ParseTokens(ts) == Some(e) <==>
            exists s :: Admissible(s) && Tokens(s) == ts && Meaning(s) == e
  {
    if ParseTokens(ts) == Some(e) {
      var s := ExprSound(ts, 0, 0);
      assert Tokens(s) + [] == Tokens(s);
      assert Admissible(s) && Tokens(s) == ts && Meaning(s) == e;
    }
    if s :| Admissible(s) && Tokens(s) == ts && Meaning(s) == e {
      SyntaxComplete(s, [], 0, 0);
      assert Tokens(s) + [] == ts;
    }
  }

  // ---------------------------------------------------------------------
  // What an expression asks for
  // ---------------------------------------------------------------------

  predicate TermTruth(t: Term, present: string -> bool) {
    match t
    case Name(n) => present(n)
    case Paren(s) => Truth(s, present)
  }

  /** from left to right: AND and && ask for both sides, OR and || for one of them */
  predicate Truth(s: Syntax, present: string -> bool) {
    match s
    case One(t) => TermTruth(t, present)
    case More(init, op, t) =>
      if op == "AND" || op == "&&" then Truth(init, present) && TermTruth(t, present)
      else if op == "OR" || op == "||" then Truth(init, present) || TermTruth(t, present)
      else false
  }

  lemma Spellings(op: string)
    requires OperatorOf(op).Some?
    ensures op == "AND" || op == "&&" || op == "OR" || op == "||"
    ensures OperatorOf(op) == Some(And) <==> op == "AND" || op == "&&"
  {
    assert "AND"[0] != "OR"[0] && "AND"[0] != "||"[0] && "&&"[0] != "OR"[0] && "&&"[0] != "||"[0];
  }

  /** An expression evaluates to what its text asks for, left to right. */
  lemma {:induction false} EvalIsTruth(s: Syntax, present: string -> bool)
    requires WellFormed(s)
    ensures Eval(Meaning(s), present) <==> Truth(s, present)
    decreases s
  {
    hide OperatorOf;
    match s
    case One(t) => EvalTerm(t, present);
    case More(init, op, t) =>
      Spellings(op);
      EvalIsTruth(init, present);
      EvalTerm(t, present);
  }

  lemma {:induction false} EvalTerm(t: Term, present: string -> bool)
    requires WellFormedTerm(t)
    ensures Eval(TermMeaning(t), present) <==> TermTruth(t, present)
    decreases t
  {
    match t
    case Name(_) =>
    case Paren(s) => EvalIsTruth(s, present);
  }

  /** More roles never hurt. */
  lemma {:induction false} EvalMonotone(e: Expr, some: string -> bool, more: string -> bool)
    requires Eval(e, some) && forall name :: some(name) ==> more(name)
    ensures Eval(e, more)
  {
    match e
    case Ident(_) =>
    case Bin(op, l, r) =>
      if Eval(l, some) { EvalMonotone(l, some, more); }
      if Eval(r, some) { EvalMonotone(r, some, more); }
  }

  // ---------------------------------------------------------------------
  // Printing
  // ---------------------------------------------------------------------

  function PrintTerm(e: Expr): Term
    decreases e, 1
  {
    match e
    case Ident(n) => Name(n)
    case Bin(_, _, _) => Paren(Print(e))
  }

  /** the fewest parentheses that keep the meaning: only compound right operands are wrapped */
  function Print(e: Expr): Syntax
    decreases e, 0
  {
    match e
    case Ident(n) => One(Name(n))
    case Bin(op, l, r) => More(Print(l), if op == And then "AND" else "OR", PrintTerm(r))
  }

  predicate Named(e: Expr) {
    match e
    case Ident(n) => IsName(n)
    case Bin(_, l, r) => Named(l) && Named(r)
  }

  lemma {:induction false} PrintMeans(e: Expr)
    requires Named(e)
    ensures WellFormed(Print(e)) && Meaning(Print(e)) == e
    ensures WellFormedTerm(PrintTerm(e)) && TermMeaning(PrintTerm(e)) == e
  {
    match e
    case Ident(_) =>
    case Bin(op, l, r) =>
      PrintMeans(l);
      PrintMeans(r);
  }

  /** Parsing undoes printing whenever the printed text is within the limits. */
  lemma {:induction false} ParseUndoesPrint(e: Expr)
    requires Named(e) && Depth(Print(e)) <= MAX_DEPTH && Nodes(Print(e)) <= MAX_NODES
    ensures ParseTokens(Tokens(Print(e))) == Some(e)
  {
    PrintMeans(e);
    ParserExact(Tokens(Print(e)), e);
    assert Admissible(Print(e));
  }

  // ---------------------------------------------------------------------
  // The limits read off the tokens
  // ---------------------------------------------------------------------

  function Operators(ts: seq<string>): nat {
    if ts == [] then 0 else (if OperatorOf(ts[0]).Some? then 1 else 0) + Operators(ts[1..])
  }

  /** the deepest parenthesis level reached from a given level */
  function Nesting(ts: seq<string>, level: int): int {
    if ts == [] then level
    else
      var next := if ts[0] == "(" then level + 1 else if ts[0] == ")" then level - 1 else level;
      var deepest := Nesting(ts[1..], next);
      if deepest < level then level else deepest
  }

  lemma {:induction false} OperatorsConcat(a: seq<string>, b: seq<string>)
    ensures Operators(a + b) == Operators(a) + Operators(b)
  {
    if a == [] {
      assert a + b == b;
    } else {
      assert (a + b)[1..] == a[1..] + b;
      OperatorsConcat(a[1..], b);
    }
  }

  lemma {:induction false} NodesAreOperators(s: Syntax)
    requires WellFormed(s)
    ensures Nodes(s) == Operators(Tokens(s))
    decreases s
  {
    match s
    case One(t) => TermNodesAreOperators(t);
    case More(init, op, t) =>
      NodesAreOperators(init);
      TermNodesAreOperators(t);
      OperatorsConcat(Tokens(init), [op] + TermTokens(t));
      OperatorsConcat([op], TermTokens(t));
      assert Operators([op]) == 1;
  }

  lemma {:induction false} TermNodesAreOperators(t: Term)
    requires WellFormedTerm(t)
    ensures TermNodes(t) == Operators(TermTokens(t))
    decreases t
  {
    match t
    case Name(n) =>
    case Paren(s) =>
      NodesAreOperators(s);
      OperatorsConcat(["("], Tokens(s) + [")"]);
      OperatorsConcat(Tokens(s), [")"]);
      assert Operators(["("]) == 0 && Operators([")"]) == 0;
  }

  lemma {:induction false} DepthIsNesting(s: Syntax, rest: seq<string>, level: int)
    requires WellFormed(s)
    ensures
      var deepest := Nesting(rest, level);
      Nesting(Tokens(s) + rest, level) == if level + Depth(s) < deepest then deepest else level + Depth(s)
    decreases s
  {
    match s
    case One(t) => TermDepthIsNesting(t, rest, level);
    case More(init, op, t) =>
      var tail := [op] + (TermTokens(t) + rest);
      assert Tokens(s) + rest == Tokens(init) + tail by { hide *; MoreTokens(Tokens(init), op, TermTokens(t), rest); }
      DepthIsNesting(init, tail, level);
      assert tail[1..] == TermTokens(t) + rest;
      TermDepthIsNesting(t, rest, level);
      NestingAtLeast(rest, level);
      assert op != "(" && op != ")";
  }

  lemma NestingAtLeast(ts: seq<string>, level: int)
    ensures Nesting(ts, level) >= level
  {
  }

  lemma {:induction false} TermDepthIsNesting(t: Term, rest: seq<string>, level: int)
    requires WellFormedTerm(t)
    ensures
      var deepest := Nesting(rest, level);
      Nesting(TermTokens(t) + rest, level) == if level + TermDepth(t) < deepest then deepest else level + TermDepth(t)
    decreases t
  {
    var ts := TermTokens(t) + rest;
    NestingAtLeast(rest, level);
    match t
    case Name(n) =>
      assert ts[1..] == rest;
    case Paren(s) =>
      var tail := [")"] + rest;
      assert ts[1..] == Tokens(s) + tail;
      DepthIsNesting(s, tail, level + 1);
      assert tail[1..] == rest;
  }

  /** The limits of a text do not depend on how it is read. */
  lemma {:induction false} LimitsFromTokens(s: Syntax)
    requires WellFormed(s)
    ensures Nodes(s) == Operators(Tokens(s)) && Depth(s) == Nesting(Tokens(s), 0)
  {
    NodesAreOperators(s);
    DepthIsNesting(s, [], 0);
    assert Tokens(s) + [] == Tokens(s);
  }
}
