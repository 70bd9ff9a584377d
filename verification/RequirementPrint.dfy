/**
 Requirement expressions printed as text: tokens with spaces between them are
 read back as they are, so an expression survives printing and parsing.
 */
module RequirementPrint {
  import opened Numbers
  import opened Requirements
  import opened RequirementText

  /** parentheses, the two operator signs, and words of the identifier alphabet */
  predicate IsToken(t: string) {
    || t == "(" || t == ")" || t == "&&" || t == "||"
    || (t != [] && forall i :: 0 <= i < |t| ==> IsIdentChar(t[i]))
  }

  lemma TokenizeToken(t: string)
    requires IsToken(t)
    ensures Tokenize(t) == Some([t])
  {
    if t == "(" || t == ")" {
      assert t[1..] == [] && [[t[0]]] + [] == [t];
    } else if t == "&&" || t == "||" {
      assert t[2..] == [] && [[t[0], t[0]]] + [] == [t];
    } else {
      TokenizeWord(t);
    }
  }

  function Spaced(ts: seq<string>): string {
    if ts == [] then "" else if |ts| == 1 then ts[0] else ts[0] + (" " + Spaced(ts[1..]))
  }

  /** Tokens with a space between any two are tokenized back. */
  lemma {:induction false} TokenizeSpaced(ts: seq<string>)
    requires forall i :: 0 <= i < |ts| ==> IsToken(ts[i])
    ensures Tokenize(Spaced(ts)) == Some(ts)
  {
    hide IsToken;
    if ts != [] {
      TokenizeToken(ts[0]);
      if |ts| == 1 {
        assert ts == [ts[0]];
      } else {
        TokenizeSpaced(ts[1..]);
        var rest := " " + Spaced(ts[1..]);
        assert rest[1..] == Spaced(ts[1..]);
        TokenizeSplit(ts[0], rest);
        assert ts == [ts[0]] + ts[1..];
      }
    }
  }

  /** every name of an expression is a role identifier */
  predicate RolesOnly(e: Expr) {
    match e
    case Ident(n) => IsRole(n)
    case Bin(_, l, r) => RolesOnly(l) && RolesOnly(r)
  }

  lemma RoleIsName(n: string)
    requires IsRole(n)
    ensures IsName(n) && IsToken(n)
  {
    assert IsIdentChar(n[0]);
  }

  lemma {:induction false} PrintTokens(e: Expr)
    requires RolesOnly(e)
    ensures Named(e)
    ensures forall i :: 0 <= i < |Tokens(Print(e))| ==> IsToken(Tokens(Print(e))[i])
    ensures forall i :: 0 <= i < |TermTokens(PrintTerm(e))| ==> IsToken(TermTokens(PrintTerm(e))[i])
  {
    hide IsToken, IsRole, IsName;
    match e
    case Ident(n) => RoleIsName(n);
    case Bin(op, l, r) =>
      PrintTokens(l);
      PrintTokens(r);
      assert IsToken("AND") && IsToken("OR") && IsToken("(") && IsToken(")") by { WordsAreTokens(); }
  }

  lemma WordsAreTokens()
    ensures IsToken("AND") && IsToken("OR") && IsToken("(") && IsToken(")")
  {
  }

  /** An expression over role identifiers, printed as text within the limits, parses back to itself. */
  lemma {:induction false} TextRoundTrip(e: Expr)
    requires RolesOnly(e) && Depth(Print(e)) <= MAX_DEPTH && Nodes(Print(e)) <= MAX_NODES
    ensures ParseText(Spaced(Tokens(Print(e)))) == Some(e)
  {
    hide RolesOnly, Print, Tokens, ParseTokens, IsToken, Tokenize, Spaced;
    PrintTokens(e);
    TokenizeSpaced(Tokens(Print(e)));
    ParseUndoesPrint(e);
  }
}
