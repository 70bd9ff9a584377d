/**
 Reading a rendered condition back: a lexer for the statement text and a
 parser with SQL's precedence (NOT over AND over OR, BETWEEN's AND apart).
 */
module SqlReader {
  import opened Numbers
  import opened Basics
  import opened SqlFilter

  // ---------------------------------------------------------------------
  // Tokens
  // ---------------------------------------------------------------------

  datatype Token = Ident(name: string) | Word(text: string) | Symbol(text: string) | Open | Close | Comma | Mark

  predicate IsUpper(c: char) {
    'A' <= c <= 'Z'
  }

  function WordRun(s: string): (n: nat)
    ensures n <= |s|
  {
    if s == [] || !IsUpper(s[0]) then 0 else 1 + WordRun(s[1..])
  }

  /** the rest of a quoted identifier; a doubled quote stands for one */
  function ReadIdent(s: string): (r: Parsed<string>)
    ensures r.Done? ==> |r.rest| < |s|
  {
    if s == [] then Fail
    else if s[0] != '`' then
      var t := ReadIdent(s[1..]);
      if t.Fail? then Fail else Done([s[0]] + t.value, t.rest)
    else if |s| > 1 && s[1] == '`' then
      var t := ReadIdent(s[2..]);
      if t.Fail? then Fail else Done(['`'] + t.value, t.rest)
    else Done("", s[1..])
  }

  predicate IsSymbolChar(c: char) {
    c == '<' || c == '>' || c == '!' || c == '='
  }

  function Single(c: char): Option<Token> {
    match c
    case '(' => Some(Open)
    case ')' => Some(Close)
    case ',' => Some(Comma)
    case '?' => Some(Mark)
    case _ => None
  }

  function Lex(s: string): Option<seq<Token>>
    decreases |s|
  {
    if s == [] then Some([])
    else if s[0] == ' ' then Lex(s[1..])
    else if Single(s[0]).Some? then Append(Some([Single(s[0]).value]), Lex(s[1..]))
    else if s[0] == '`' then
      var t := ReadIdent(s[1..]);
      if t.Fail? then None else Append(Some([Ident(t.value)]), Lex(t.rest))
    else if IsSymbolChar(s[0]) then
      var n := if |s| > 1 && s[1] == '=' then 2 else 1;
      Append(Some([Symbol(s[..n])]), Lex(s[n..]))
    else if IsUpper(s[0]) then Append(Some([Word(s[..WordRun(s)])]), Lex(s[WordRun(s)..]))
    else None
  }

  // ---------------------------------------------------------------------
  // Lexing text piece by piece
  // ---------------------------------------------------------------------

  /** text that cannot continue a token before it */
  predicate Breaks(b: string) {
    b == [] || b[0] == ' ' || b[0] == '(' || b[0] == ')' || b[0] == ','
  }

  lemma {:induction false} WordRunSplit(a: string, b: string)
    requires Breaks(b)
    ensures WordRun(a + b) == WordRun(a)
  {
    if a != [] && IsUpper(a[0]) {
      assert (a + b)[1..] == a[1..] + b;
      WordRunSplit(a[1..], b);
    } else if a == [] {
      assert a + b == b;
    }
  }

  lemma {:induction false} ReadIdentSplit(a: string, b: string)
    requires Breaks(b) && ReadIdent(a).Done?
    ensures ReadIdent(a + b) == Done(ReadIdent(a).value, ReadIdent(a).rest + b)
    decreases |a|
  {
    var s := a + b;
    if a[0] != '`' {
      assert s[1..] == a[1..] + b;
      ReadIdentSplit(a[1..], b);
    } else if |a| > 1 && a[1] == '`' {
      assert s[2..] == a[2..] + b;
      ReadIdentSplit(a[2..], b);
    } else {
      assert s[1..] == a[1..] + b;
    }
  }

  lemma {:induction false} LexSplit(a: string, b: string)
    requires Breaks(b) && Lex(a).Some?
    ensures Lex(a + b) == Append(Lex(a), Lex(b))
    decreases |a|
  {
    var s := a + b;
    if a == [] {
      assert s == b;
      if Lex(b).Some? { assert [] + Lex(b).value == Lex(b).value; }
    } else if a[0] == ' ' {
      assert s[1..] == a[1..] + b;
      LexSplit(a[1..], b);
    } else if Single(a[0]).Some? {
      assert s[1..] == a[1..] + b;
      LexSplit(a[1..], b);
      AppendSome([Single(a[0]).value], Lex(a[1..]), Lex(b));
    } else if a[0] == '`' {
      assert s[1..] == a[1..] + b;
      var t := ReadIdent(a[1..]);
      ReadIdentSplit(a[1..], b);
      LexSplit(t.rest, b);
      AppendSome([Ident(t.value)], Lex(t.rest), Lex(b));
    } else if IsSymbolChar(a[0]) {
      var n := if |a| > 1 && a[1] == '=' then 2 else 1;
      assert s[..n] == a[..n] && s[n..] == a[n..] + b;
      LexSplit(a[n..], b);
      AppendSome([Symbol(a[..n])], Lex(a[n..]), Lex(b));
    } else {
      var n := WordRun(a);
      WordRunSplit(a, b);
      assert s[..n] == a[..n] && s[n..] == a[n..] + b;
      LexSplit(a[n..], b);
      AppendSome([Word(a[..n])], Lex(a[n..]), Lex(b));
    }
  }

  lemma LexJoin(a: string, x: seq<Token>, b: string, y: seq<Token>)
    requires Breaks(b) && Lex(a) == Some(x) && Lex(b) == Some(y)
    ensures Lex(a + b) == Some(x + y)
  {
    LexSplit(a, b);
  }

  lemma {:induction false} ReadIdentOfEscaped(s: string, rest: string)
    requires rest == [] || rest[0] != '`'
    ensures ReadIdent(Escaped(s) + ("`" + rest)) == Done(s, rest)
  {
    var text := Escaped(s) + ("`" + rest);
    if s == [] {
      assert text == "`" + rest && text[1..] == rest;
    } else {
      var tail := Escaped(s[1..]) + ("`" + rest);
      ReadIdentOfEscaped(s[1..], rest);
      assert s == [s[0]] + s[1..];
      if s[0] == '`' {
        assert text == "``" + tail && text[2..] == tail;
      } else {
        assert text == [s[0]] + tail && text[1..] == tail;
      }
    }
  }

  /** The lexer undoes identifier quoting, whatever the name contains. */
  lemma {:induction false} LexQuoted(s: string)
    ensures Lex(QuoteIdent(s)) == Some([Ident(s)])
  {
    var text := QuoteIdent(s);
    assert text[1..] == Escaped(s) + ("`" + "");
    ReadIdentOfEscaped(s, "");
    assert [Ident(s)] + [] == [Ident(s)];
  }

  lemma {:induction false} RunOfWord(w: string)
    requires forall i :: 0 <= i < |w| ==> IsUpper(w[i])
    ensures WordRun(w) == |w|
  {
    if w != [] {
      RunOfWord(w[1..]);
    }
  }

  lemma LexWord(w: string)
    requires w != [] && forall i :: 0 <= i < |w| ==> IsUpper(w[i])
    ensures Lex(w) == Some([Word(w)])
  {
    hide Lex, WordRun;
    RunOfWord(w);
    LexUpper(w);
    LexNothing();
    assert w[..|w|] == w && w[|w|..] == [];
    assert [Word(w)] + [] == [Word(w)];
  }

  lemma LexUpper(w: string)
    requires w != [] && IsUpper(w[0])
    ensures Lex(w) == Append(Some([Word(w[..WordRun(w)])]), Lex(w[WordRun(w)..]))
  {
    hide WordRun, ReadIdent;
  }

  lemma LexNothing()
    ensures Lex("") == Some([])
  {
  }

  lemma LexSpaced(b: string)
    ensures Lex(" " + b) == Lex(b)
  {
    assert (" " + b)[1..] == b;
  }

  lemma LexOpened(b: string)
    ensures Lex("(" + b) == Append(Some([Open]), Lex(b))
  {
    assert ("(" + b)[1..] == b;
  }

  lemma LexMark(b: string)
    ensures Lex("?" + b) == Append(Some([Mark]), Lex(b))
  {
    assert ("?" + b)[1..] == b;
  }

  lemma LexClosers()
    ensures Lex("") == Some([]) && Lex(")") == Some([Close]) && Lex("?") == Some([Mark])
  {
    LexMark("");
    assert "?" + "" == "?" && [Mark] + [] == [Mark];
    assert ")"[1..] == "" && [Close] + [] == [Close];
  }

  // ---------------------------------------------------------------------
  // The tokens of a rendered filter
  // ---------------------------------------------------------------------

  function KeywordTokens(op: Op): seq<Token> {
    match op
    case In => [Word("IN")]
    case NotIn => [Word("NOT"), Word("IN")]
    case Between => [Word("BETWEEN")]
    case Like => [Word("LIKE")]
    case IsNull => [Word("IS"), Word("NULL")]
    case IsNotNull => [Word("IS"), Word("NOT"), Word("NULL")]
    case _ => [Symbol(Keyword(op))]
  }

  function Marks(n: nat): seq<Token> {
    if n == 0 then [] else if n == 1 then [Mark] else Marks(n - 1) + [Comma, Mark]
  }

  function OperandTokens(op: Op, n: nat): seq<Token> {
    match op
    case In => [Open] + (Marks(n) + [Close])
    case NotIn => [Open] + (Marks(n) + [Close])
    case Between => [Mark, Word("AND"), Mark]
    case IsNull => []
    case IsNotNull => []
    case _ => [Mark]
  }

  function ColumnTokens(binary: bool, column: string, op: Op, n: nat): seq<Token> {
    (if binary then [Word("BINARY")] else []) + ([Ident(column)] + (KeywordTokens(op) + OperandTokens(op, n)))
  }

  function Tokens(f: Filter): seq<Token>
    requires Renderable(f)
    decreases f, 1
  {
    match f
    case Column(column, op, value) =>
      ColumnTokens(NeedsBinary(value), column, op.value, |Arguments(op.value, value).value|)
    case And(items) => ListTokens(items, "AND")
    case Or(items) => ListTokens(items, "OR")
    case Not(inner) => [Word("NOT"), Open] + (Tokens(inner) + [Close])
  }

  function ListTokens(items: seq<Filter>, join: string): seq<Token>
    requires items != [] && forall i :: 0 <= i < |items| ==> Renderable(items[i])
    decreases items, 0
  {
    var last := [Open] + (Tokens(items[|items| - 1]) + [Close]);
    if |items| == 1 then last else ListTokens(items[..|items| - 1], join) + ([Word(join)] + last)
  }

  lemma LexSymbol(op: Op)
    requires op.Eq? || op.Ne? || op.Lt? || op.Le? || op.Gt? || op.Ge?
    ensures Lex(Keyword(op)) == Some([Symbol(Keyword(op))])
  {
    var k := Keyword(op);
    assert k[..|k|] == k && k[|k|..] == "";
    assert IsSymbolChar(k[0]);
    assert [Symbol(k)] + [] == [Symbol(k)];
  }

  lemma LexTwoWords(a: string, b: string)
    requires a != [] && b != [] && (forall i :: 0 <= i < |a| ==> IsUpper(a[i])) && (forall i :: 0 <= i < |b| ==> IsUpper(b[i]))
    ensures Lex(a + (" " + b)) == Some([Word(a), Word(b)])
  {
    LexWord(a);
    LexWord(b);
    LexSpaced(b);
    LexJoin(a, [Word(a)], " " + b, [Word(b)]);
    assert [Word(a)] + [Word(b)] == [Word(a), Word(b)];
  }

  lemma LexKeyword(op: Op)
    ensures Lex(Keyword(op)) == Some(KeywordTokens(op))
  {
    hide Lex;
    match op
    case In => LexWord("IN");
    case NotIn =>
      LexTwoWords("NOT", "IN");
      assert "NOT" + (" " + "IN") == "NOT IN";
    case Between => LexWord("BETWEEN");
    case Like => LexWord("LIKE");
    case IsNull =>
      LexTwoWords("IS", "NULL");
      assert "IS" + (" " + "NULL") == "IS NULL";
    case IsNotNull =>
      LexTwoWords("NOT", "NULL");
      LexWord("IS");
      LexSpaced("NOT NULL");
      assert "NOT" + (" " + "NULL") == "NOT NULL";
      LexJoin("IS", [Word("IS")], " " + "NOT NULL", [Word("NOT"), Word("NULL")]);
      assert "IS" + (" " + "NOT NULL") == "IS NOT NULL";
      assert [Word("IS")] + [Word("NOT"), Word("NULL")] == [Word("IS"), Word("NOT"), Word("NULL")];
    case _ => LexSymbol(op);
  }

  lemma {:induction false} LexPlaceholders(n: nat)
    ensures Lex(Placeholders(n)) == Some(Marks(n))
  {
    LexClosers();
    if n > 1 {
      LexPlaceholders(n - 1);
      assert Lex(", ?") == Some([Comma, Mark]) by {
        assert ", ?"[1..] == " ?" && " ?"[1..] == "?";
        assert [Comma] + [Mark] == [Comma, Mark];
      }
      LexJoin(Placeholders(n - 1), Marks(n - 1), ", ?", [Comma, Mark]);
    }
  }

  lemma LexBetween()
    ensures Lex(" ? AND ?") == Some([Mark, Word("AND"), Mark])
  {
    LexClosers();
    LexSpaced("?");
    LexWord("AND");
    LexJoin("AND", [Word("AND")], " " + "?", [Mark]);
    LexSpaced("AND ?");
    assert "AND" + (" " + "?") == "AND ?" && " " + "AND ?" == " AND ?";
    LexMark(" AND ?");
    assert "?" + " AND ?" == "? AND ?";
    LexSpaced("? AND ?");
    assert " " + "? AND ?" == " ? AND ?";
    assert [Mark] + ([Word("AND")] + [Mark]) == [Mark, Word("AND"), Mark];
  }

  lemma LexOperand(op: Op, n: nat)
    ensures Lex(Operand(op, n)) == Some(OperandTokens(op, n)) && Breaks(Operand(op, n))
  {
    LexClosers();
    if op.In? || op.NotIn? {
      LexPlaceholders(n);
      LexJoin(Placeholders(n), Marks(n), ")", [Close]);
      LexOpened(Placeholders(n) + ")");
      LexSpaced("(" + (Placeholders(n) + ")"));
      assert " " + ("(" + (Placeholders(n) + ")")) == " (" + (Placeholders(n) + ")");
    } else if op.Between? {
      LexBetween();
    } else if !op.IsNull? && !op.IsNotNull? {
      LexSpaced("?");
      assert " " + "?" == " ?";
    }
  }

  lemma LexColumn(binary: bool, column: string, op: Op, n: nat)
    ensures Lex(RenderColumn(column, op, binary, n)) == Some(ColumnTokens(binary, column, op, n))
  {
    hide Lex, QuoteIdent, Keyword, Operand, KeywordTokens, OperandTokens;
    var tail := " " + (Keyword(op) + Operand(op, n));
    var rest := KeywordTokens(op) + OperandTokens(op, n);
    LexKeyword(op);
    LexOperand(op, n);
    LexJoin(Keyword(op), KeywordTokens(op), Operand(op, n), OperandTokens(op, n));
    LexSpaced(Keyword(op) + Operand(op, n));
    LexQuoted(column);
    LexJoin(QuoteIdent(column), [Ident(column)], tail, rest);
    LexMarked(binary, QuoteIdent(column), tail, [Ident(column)] + rest);
  }

  /** the optional BINARY before a column */
  lemma LexMarked(binary: bool, column: string, tail: string, ts: seq<Token>)
    requires Lex(column + tail) == Some(ts)
    ensures Lex((if binary then "BINARY " else "") + column + tail) == Some((if binary then [Word("BINARY")] else []) + ts)
  {
    hide Lex;
    if binary {
      LexWord("BINARY");
      LexSpaced(column + tail);
      LexJoin("BINARY", [Word("BINARY")], " " + (column + tail), ts);
      assert "BINARY" + (" " + (column + tail)) == "BINARY " + column + tail;
    } else {
      assert "" + column == column && [] + ts == ts;
    }
  }

  lemma LexParens(text: string, ts: seq<Token>)
    requires Lex(text) == Some(ts)
    ensures Lex("(" + (text + ")")) == Some([Open] + (ts + [Close]))
  {
    hide Lex;
    LexClosers();
    LexJoin(text, ts, ")", [Close]);
    LexOpened(text + ")");
  }

  lemma LexNegated(text: string, ts: seq<Token>)
    requires Lex(text) == Some(ts)
    ensures Lex("NOT (" + (text + ")")) == Some([Word("NOT"), Open] + (ts + [Close]))
  {
    hide Lex;
    var p, inner := "(" + (text + ")"), [Open] + (ts + [Close]);
    LexParens(text, ts);
    LexWord("NOT");
    LexSpaced(p);
    LexJoin("NOT", [Word("NOT")], " " + p, inner);
    assert "NOT" + (" " + p) == "NOT (" + (text + ")");
    assert [Word("NOT")] + inner == [Word("NOT"), Open] + (ts + [Close]);
  }

  /** The rendered text lexes to the filter's tokens. */
  lemma {:induction false} LexRender(f: Filter)
    requires Renderable(f)
    ensures Lex(Render(f)) == Some(Tokens(f))
    decreases f, 1
  {
    hide Lex, RenderColumn, ColumnTokens;
    match f
    case Column(column, op, value) =>
      LexColumn(NeedsBinary(value), column, op.value, |Arguments(op.value, value).value|);
    case And(items) => LexRenderList(items, "AND", " AND ");
    case Or(items) => LexRenderList(items, "OR", " OR ");
    case Not(inner) =>
      LexRender(inner);
      LexNegated(Render(inner), Tokens(inner));
  }

  lemma {:induction false} LexRenderList(items: seq<Filter>, word: string, join: string)
    requires items != [] && forall i :: 0 <= i < |items| ==> Renderable(items[i])
    requires (word == "AND" && join == " AND ") || (word == "OR" && join == " OR ")
    ensures Lex(RenderList(items, join)) == Some(ListTokens(items, word))
    decreases items, 0
  {
    hide Lex, Render, Tokens;
    var n := |items| - 1;
    var last := "(" + (Render(items[n]) + ")");
    var lastTokens := [Open] + (Tokens(items[n]) + [Close]);
    LexRender(items[n]);
    LexParens(Render(items[n]), Tokens(items[n]));
    if n > 0 {
      LexRenderList(items[..n], word, join);
      LexWord(word);
      LexSpaced(last);
      LexJoin(word, [Word(word)], " " + last, lastTokens);
      LexSpaced(word + (" " + last));
      assert " " + (word + (" " + last)) == join + last;
      LexJoin(RenderList(items[..n], join), ListTokens(items[..n], word), join + last, [Word(word)] + lastTokens);
    }
  }
}
