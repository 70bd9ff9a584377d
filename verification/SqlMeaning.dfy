/**
 A parser for the token stream of a condition, with NOT binding tighter than
 AND, AND tighter than OR, and BETWEEN keeping its own AND. Read back through
 it, a rendered filter denotes what the filter denotes.
 */
module SqlMeaning {
  import opened Numbers
  import opened Json
  import opened SqlFilter
  import opened SqlReader

  // ---------------------------------------------------------------------
  // Parsing
  // ---------------------------------------------------------------------

  datatype Sql =
    | Compare(binary: bool, column: string, op: Op, slots: nat)
    | Conj(left: Sql, right: Sql)
    | Disj(left: Sql, right: Sql)
    | Neg(inner: Sql)

  datatype Reading = Failed | Reading(sql: Sql, rest: seq<Token>)

  predicate Starts(ts: seq<Token>, t: Token) {
    ts != [] && ts[0] == t
  }

  function Comparator(symbol: string): Option<Op> {
    if symbol == "=" then Some(Eq)
    else if symbol == "!=" then Some(Ne)
    else if symbol == "<" then Some(Lt)
    else if symbol == "<=" then Some(Le)
    else if symbol == ">" then Some(Gt)
    else if symbol == ">=" then Some(Ge)
    else None
  }

  /** the number of `, ?` pairs at the front */
  function CommaMarks(ts: seq<Token>): (n: nat)
    ensures 2 * n <= |ts|
    decreases |ts|
  {
    if |ts| >= 2 && ts[0] == Comma && ts[1] == Mark then 1 + CommaMarks(ts[2..]) else 0
  }

  /** a parenthesized placeholder list */
  function ReadList(binary: bool, column: string, op: Op, ts: seq<Token>): (r: Reading)
    ensures r.Reading? ==> |r.rest| < |ts|
  {
    if |ts| >= 3 && ts[0] == Open && ts[1] == Mark then
      var n := CommaMarks(ts[2..]);
      if Starts(ts[2 + 2 * n..], Close) then Reading(Compare(binary, column, op, n + 1), ts[3 + 2 * n..]) else Failed
    else Failed
  }

  /** everything after the column of a comparison */
  function ReadTest(binary: bool, column: string, ts: seq<Token>): (r: Reading)
    ensures r.Reading? ==> |r.rest| < |ts|
  {
    if ts == [] then Failed
    else if ts[0].Symbol? then
      if Comparator(ts[0].text).Some? && Starts(ts[1..], Mark)
      then Reading(Compare(binary, column, Comparator(ts[0].text).value, 1), ts[2..]) else Failed
    else if ts[0] == Word("LIKE") then
      if Starts(ts[1..], Mark) then Reading(Compare(binary, column, Like, 1), ts[2..]) else Failed
    else if ts[0] == Word("IN") then ReadList(binary, column, In, ts[1..])
    else if ts[0] == Word("NOT") then
      if Starts(ts[1..], Word("IN")) then ReadList(binary, column, NotIn, ts[2..]) else Failed
    else if ts[0] == Word("BETWEEN") then
      if |ts| >= 4 && ts[1] == Mark && ts[2] == Word("AND") && ts[3] == Mark
      then Reading(Compare(binary, column, Between, 2), ts[4..]) else Failed
    else if ts[0] == Word("IS") then
      if Starts(ts[1..], Word("NULL")) then Reading(Compare(binary, column, IsNull, 0), ts[2..])
      else if |ts| >= 3 && ts[1] == Word("NOT") && ts[2] == Word("NULL")
      then Reading(Compare(binary, column, IsNotNull, 0), ts[3..])
      else Failed
    else Failed
  }

  function ReadComparison(ts: seq<Token>): (r: Reading)
    ensures r.Reading? ==> |r.rest| < |ts|
  {
    if Starts(ts, Word("BINARY")) then
      if |ts| >= 2 && ts[1].Ident? then ReadTest(true, ts[1].name, ts[2..]) else Failed
    else if ts != [] && ts[0].Ident? then ReadTest(false, ts[0].name, ts[1..])
    else Failed
  }

  function ReadOr(ts: seq<Token>): (r: Reading)
    ensures r.Reading? ==> |r.rest| < |ts|
    decreases |ts|, 4
  {
    var t := ReadAnd(ts);
    if t.Failed? then Failed else OrTail(t.sql, t.rest)
  }

  function OrTail(left: Sql, ts: seq<Token>): (r: Reading)
    ensures r.Reading? ==> |r.rest| <= |ts|
    decreases |ts|, 3
  {
    if Starts(ts, Word("OR")) then
      var t := ReadAnd(ts[1..]);
      if t.Failed? then Failed else OrTail(Disj(left, t.sql), t.rest)
    else Reading(left, ts)
  }

  function ReadAnd(ts: seq<Token>): (r: Reading)
    ensures r.Reading? ==> |r.rest| < |ts|
    decreases |ts|, 2
  {
    var t := ReadNot(ts);
    if t.Failed? then Failed else AndTail(t.sql, t.rest)
  }

  function AndTail(left: Sql, ts: seq<Token>): (r: Reading)
    ensures r.Reading? ==> |r.rest| <= |ts|
    decreases |ts|, 1
  {
    if Starts(ts, Word("AND")) then
      var t := ReadNot(ts[1..]);
      if t.Failed? then Failed else AndTail(Conj(left, t.sql), t.rest)
    else Reading(left, ts)
  }

  function ReadNot(ts: seq<Token>): (r: Reading)
    ensures r.Reading? ==> |r.rest| < |ts|
    decreases |ts|, 0
  {
    if Starts(ts, Word("NOT")) then
      var t := ReadNot(ts[1..]);
      if t.Failed? then Failed else Reading(Neg(t.sql), t.rest)
    else if Starts(ts, Open) then
      var t := ReadOr(ts[1..]);
      if t.Reading? && Starts(t.rest, Close) then Reading(t.sql, t.rest[1..]) else Failed
    else ReadComparison(ts)
  }

  /** the condition a whole text denotes */
  function ReadSql(text: string): Option<Sql> {
    var ts := Lex(text);
    if ts.None? then None
    else
      var t := ReadOr(ts.value);
      if t.Reading? && t.rest == [] then Some(t.sql) else None
  }

  // ---------------------------------------------------------------------
  // Meaning of a parsed condition
  // ---------------------------------------------------------------------

  function Slots(a: Sql): nat {
    match a
    case Compare(_, _, _, n) => n
    case Conj(l, r) => Slots(l) + Slots(r)
    case Disj(l, r) => Slots(l) + Slots(r)
    case Neg(x) => Slots(x)
  }

  /** what a comparison with its arguments in place comes to */
  function Outcome(binary: bool, column: string, op: Op, args: seq<Json>, row: Row): Truth {
    if !Suits(op, |args|) then Unknown
    else
      match op
      case IsNull => if row.isNull(column) then True else False
      case IsNotNull => if row.isNull(column) then False else True
      case In => Disjunction(binary, column, args, row)
      case NotIn => Not3(Disjunction(binary, column, args, row))
      case Between => And3(row.compare(binary, column, Ge, args[0]), row.compare(binary, column, Le, args[1]))
      case _ => row.compare(binary, column, op, args[0])
  }

  function Disjunction(binary: bool, column: string, args: seq<Json>, row: Row): Truth {
    if args == [] then False
    else
      var n := |args| - 1;
      Or3(Disjunction(binary, column, args[..n], row), row.compare(binary, column, Eq, args[n]))
  }

  /** placeholders take the arguments from left to right */
  function SqlMeaning(a: Sql, args: seq<Json>, row: Row): Truth
    requires |args| == Slots(a)
    decreases a
  {
    match a
    case Compare(binary, column, op, _) => Outcome(binary, column, op, args, row)
    case Conj(l, r) => And3(SqlMeaning(l, args[..Slots(l)], row), SqlMeaning(r, args[Slots(l)..], row))
    case Disj(l, r) => Or3(SqlMeaning(l, args[..Slots(l)], row), SqlMeaning(r, args[Slots(l)..], row))
    case Neg(x) => Not3(SqlMeaning(x, args, row))
  }

  // ---------------------------------------------------------------------
  // The tree a rendered filter reads back to
  // ---------------------------------------------------------------------

  function Tree(f: Filter): Sql
    requires Renderable(f)
    decreases f, 1
  {
    match f
    case Column(column, op, value) =>
      Compare(NeedsBinary(value), column, op.value, |Arguments(op.value, value).value|)
    case And(items) => TreeOf(items, true)
    case Or(items) => TreeOf(items, false)
    case Not(inner) => Neg(Tree(inner))
  }

  function TreeOf(items: seq<Filter>, all: bool): Sql
    requires items != [] && forall i :: 0 <= i < |items| ==> Renderable(items[i])
    decreases items, 0
  {
    var last := Tree(items[|items| - 1]);
    if |items| == 1 then last
    else if all then Conj(TreeOf(items[..|items| - 1], all), last)
    else Disj(TreeOf(items[..|items| - 1], all), last)
  }

  // ---------------------------------------------------------------------
  // Reading the tokens of a comparison
  // ---------------------------------------------------------------------

  lemma {:induction false} CommaMarksOf(n: nat, ts: seq<Token>)
    requires n >= 1
    requires !Starts(ts, Comma)
    ensures |Marks(n)| == 2 * n - 1 && Marks(n)[0] == Mark
    ensures CommaMarks(Marks(n)[1..] + ts) == n - 1
  {
    CommaMarksFrom(n, ts);
    if n == 1 {
      assert Marks(1)[1..] + ts == ts;
    }
  }

  lemma {:induction false} CommaMarksFrom(n: nat, ts: seq<Token>)
    requires n >= 1
    ensures |Marks(n)| == 2 * n - 1 && Marks(n)[0] == Mark
    ensures CommaMarks(Marks(n)[1..] + ts) == n - 1 + CommaMarks(ts)
  {
    if n == 1 {
      assert Marks(1)[1..] + ts == ts;
    } else {
      var more := [Comma, Mark] + ts;
      CommaMarksFrom(n - 1, more);
      assert Marks(n)[1..] + ts == Marks(n - 1)[1..] + more;
      assert more[2..] == ts;
    }
  }

  lemma ReadListOf(binary: bool, column: string, op: Op, n: nat, rest: seq<Token>)
    requires n >= 1
    ensures ReadList(binary, column, op, [Open] + (Marks(n) + [Close]) + rest)
         == Reading(Compare(binary, column, op, n), rest)
  {
    hide Marks, CommaMarks;
    CommaMarksOf(n, [Close] + rest);
    ListFrame(binary, column, op, n, Marks(n), rest);
  }

  lemma ListFrame(binary: bool, column: string, op: Op, n: nat, marks: seq<Token>, rest: seq<Token>)
    requires n >= 1 && |marks| == 2 * n - 1 && marks[0] == Mark
    requires CommaMarks(marks[1..] + ([Close] + rest)) == n - 1
    ensures ReadList(binary, column, op, [Open] + (marks + [Close]) + rest) == Reading(Compare(binary, column, op, n), rest)
  {
    hide Marks, CommaMarks;
    var ts := [Open] + (marks + [Close]) + rest;
    var tail := [Close] + rest;
    assert ts[2..] == marks[1..] + tail;
    assert ts[2 * n..] == tail;
    assert ts[2 * n + 1..] == rest;
  }

  /** operators take the number of arguments their text has places for */
  predicate Suits(op: Op, n: nat) {
    match op
    case In => n >= 1
    case NotIn => n >= 1
    case Between => n == 2
    case IsNull => n == 0
    case IsNotNull => n == 0
    case _ => n == 1
  }

  lemma ReadMembership(binary: bool, column: string, op: Op, n: nat, rest: seq<Token>)
    requires (op.In? || op.NotIn?) && n >= 1
    ensures ReadTest(binary, column, KeywordTokens(op) + OperandTokens(op, n) + rest)
         == Reading(Compare(binary, column, op, n), rest)
  {
    hide Marks, ReadList, Comparator;
    var list := [Open] + (Marks(n) + [Close]) + rest;
    var ts := KeywordTokens(op) + OperandTokens(op, n) + rest;
    ReadListOf(binary, column, op, n, rest);
    assert "LIKE"[0] != "NOT"[0] && "LIKE"[0] != "IN"[0] && "NOT"[0] != "IN"[0];
    if op.In? {
      assert ts == [Word("IN")] + list && ts[1..] == list;
    } else {
      assert ts == [Word("NOT"), Word("IN")] + list && ts[2..] == list;
    }
  }

  lemma ReadNullness(binary: bool, column: string, op: Op, rest: seq<Token>)
    requires op.IsNull? || op.IsNotNull?
    ensures ReadTest(binary, column, KeywordTokens(op) + OperandTokens(op, 0) + rest)
         == Reading(Compare(binary, column, op, 0), rest)
  {
    hide Marks, ReadList, Comparator;
    var ts := KeywordTokens(op) + OperandTokens(op, 0) + rest;
    assert "NOT"[1] != "NULL"[1];
    assert "LIKE"[0] != "IS"[0] && "NOT"[0] != "IS"[0] && "IN"[1] != "IS"[1] && "BETWEEN"[0] != "IS"[0];
    if op.IsNull? {
      assert ts == [Word("IS"), Word("NULL")] + rest && ts[2..] == rest;
    } else {
      assert ts == [Word("IS"), Word("NOT"), Word("NULL")] + rest && ts[3..] == rest;
    }
  }

  lemma ReadTestOf(binary: bool, column: string, op: Op, n: nat, rest: seq<Token>)
    requires Suits(op, n)
    ensures ReadTest(binary, column, KeywordTokens(op) + OperandTokens(op, n) + rest)
         == Reading(Compare(binary, column, op, n), rest)
  {
    hide ReadTest;
    if op.In? || op.NotIn? {
      ReadMembership(binary, column, op, n, rest);
    } else if op.IsNull? || op.IsNotNull? {
      ReadNullness(binary, column, op, rest);
    } else {
      ReadScalar(binary, column, op, n, rest);
    }
  }

  lemma ReadScalar(binary: bool, column: string, op: Op, n: nat, rest: seq<Token>)
    requires Suits(op, n) && !op.In? && !op.NotIn? && !op.IsNull? && !op.IsNotNull?
    ensures ReadTest(binary, column, KeywordTokens(op) + OperandTokens(op, n) + rest)
         == Reading(Compare(binary, column, op, n), rest)
  {
    hide Marks, ReadList, Comparator, Keyword;
    var ts := KeywordTokens(op) + OperandTokens(op, n) + rest;
    if op.Between? {
      assert "LIKE"[0] != "BETWEEN"[0] && "NOT"[0] != "BETWEEN"[0] && "IN"[0] != "BETWEEN"[0];
      assert ts == [Word("BETWEEN"), Mark, Word("AND"), Mark] + rest && ts[4..] == rest;
    } else if op.Like? {
      assert ts == [Word("LIKE"), Mark] + rest && ts[2..] == rest;
    } else {
      ComparatorOf(op);
      assert ts == [Symbol(Keyword(op)), Mark] + rest && ts[2..] == rest;
    }
  }

  lemma ComparatorOf(op: Op)
    requires op.Eq? || op.Ne? || op.Lt? || op.Le? || op.Gt? || op.Ge?
    ensures Comparator(Keyword(op)) == Some(op)
  {
  }

  lemma ReadColumn(binary: bool, column: string, op: Op, n: nat, rest: seq<Token>)
    requires Suits(op, n)
    ensures ReadNot(ColumnTokens(binary, column, op, n) + rest) == Reading(Compare(binary, column, op, n), rest)
  {
    hide ReadTest, KeywordTokens, OperandTokens;
    var tail := KeywordTokens(op) + OperandTokens(op, n) + rest;
    var ts := ColumnTokens(binary, column, op, n) + rest;
    ReadTestOf(binary, column, op, n, rest);
    if binary {
      assert "BINARY"[0] != "NOT"[0];
      assert ts[0] == Word("BINARY") && ts[1] == Ident(column) && ts[2..] == tail;
    } else {
      assert ts[0] == Ident(column) && ts[1..] == tail;
    }
  }

  // ---------------------------------------------------------------------
  // Reading the tokens of a filter
  // ---------------------------------------------------------------------

  predicate Ends(rest: seq<Token>) {
    rest == [] || rest[0] == Close
  }

  lemma ReadClosed(ts: seq<Token>, a: Sql, rest: seq<Token>)
    requires ReadOr(ts + ([Close] + rest)) == Reading(a, [Close] + rest)
    ensures ReadNot([Open] + (ts + [Close]) + rest) == Reading(a, rest)
  {
    var all := [Open] + (ts + [Close]) + rest;
    assert all[1..] == ts + ([Close] + rest);
    assert ([Close] + rest)[1..] == rest;
    hide ReadOr;
  }

  /** a unit followed by no connective is the whole condition */
  lemma ReadUnit(ts: seq<Token>, a: Sql, rest: seq<Token>)
    requires ReadNot(ts) == Reading(a, rest) && Ends(rest)
    ensures ReadAnd(ts) == Reading(a, rest) && ReadOr(ts) == Reading(a, rest)
  {
    hide ReadNot;
  }

  lemma {:induction false} ReadFilter(f: Filter, rest: seq<Token>)
    requires Renderable(f) && Ends(rest)
    ensures ReadOr(Tokens(f) + rest) == Reading(Tree(f), rest)
    decreases f, 1
  {
    hide ReadNot, ReadComparison, ColumnTokens;
    match f
    case Column(column, op, value) =>
      ReadColumn(NeedsBinary(value), column, op.value, |Arguments(op.value, value).value|, rest);
      ReadUnit(Tokens(f) + rest, Tree(f), rest);
    case And(items) => ReadAll(items, rest);
    case Or(items) => ReadAny(items, rest);
    case Not(inner) =>
      ReadInner(inner, rest);
      ReadNegated(inner, rest);
      ReadUnit(Tokens(f) + rest, Tree(f), rest);
  }

  lemma ReadNegated(inner: Filter, rest: seq<Token>)
    requires Renderable(inner)
    requires ReadNot([Open] + (Tokens(inner) + [Close]) + rest) == Reading(Tree(inner), rest)
    ensures ReadNot([Word("NOT"), Open] + (Tokens(inner) + [Close]) + rest) == Reading(Neg(Tree(inner)), rest)
  {
    var ts := [Word("NOT"), Open] + (Tokens(inner) + [Close]) + rest;
    assert ts[1..] == [Open] + (Tokens(inner) + [Close]) + rest;
    hide Tokens, Tree, ReadOr, ReadComparison;
  }

  /** a parenthesized filter reads as one unit, whatever follows */
  lemma {:induction false} ReadInner(f: Filter, rest: seq<Token>)
    requires Renderable(f)
    ensures ReadNot([Open] + (Tokens(f) + [Close]) + rest) == Reading(Tree(f), rest)
    decreases f, 2
  {
    hide ReadOr, ReadNot, Tokens, Tree;
    assert Ends([Close] + rest);
    ReadFilter(f, [Close] + rest);
    ReadClosed(Tokens(f), Tree(f), rest);
  }

  lemma {:induction false} ReadAll(items: seq<Filter>, rest: seq<Token>)
    requires items != [] && forall i :: 0 <= i < |items| ==> Renderable(items[i])
    ensures ReadAnd(ListTokens(items, "AND") + rest) == AndTail(TreeOf(items, true), rest)
    decreases items, 0
  {
    hide ReadNot, ReadComparison, Tokens, Tree, ReadOr, OrTail;
    var n := |items| - 1;
    var last := [Open] + (Tokens(items[n]) + [Close]);
    ReadInner(items[n], rest);
    if n > 0 {
      var tail := [Word("AND")] + last + rest;
      ReadAll(items[..n], tail);
      assert ListTokens(items, "AND") + rest == ListTokens(items[..n], "AND") + tail;
      assert tail[1..] == last + rest;
    }
  }

  lemma {:induction false} ReadAny(items: seq<Filter>, rest: seq<Token>)
    requires items != [] && forall i :: 0 <= i < |items| ==> Renderable(items[i])
    requires !Starts(rest, Word("AND"))
    ensures ReadOr(ListTokens(items, "OR") + rest) == OrTail(TreeOf(items, false), rest)
    decreases items, 0
  {
    hide ReadNot, ReadComparison, Tokens, Tree;
    var n := |items| - 1;
    var last := [Open] + (Tokens(items[n]) + [Close]);
    ReadInner(items[n], rest);
    assert "OR"[0] != "AND"[0];
    assert ReadAnd(last + rest) == Reading(Tree(items[n]), rest);
    assert n == 0 ==> ListTokens(items, "OR") == last;
    if n > 0 {
      var tail := [Word("OR")] + last + rest;
      ReadAny(items[..n], tail);
      assert ListTokens(items, "OR") + rest == ListTokens(items[..n], "OR") + tail;
      assert tail[1..] == last + rest;
    }
  }

  // ---------------------------------------------------------------------
  // Arguments and meaning
  // ---------------------------------------------------------------------

  lemma {:induction false} TreeSlots(f: Filter)
    requires Renderable(f)
    ensures Slots(Tree(f)) == |Bound(f)|
    decreases f, 1
  {
    match f
    case Column(_, _, _) =>
    case And(items) => TreeOfSlots(items, true);
    case Or(items) => TreeOfSlots(items, false);
    case Not(inner) => TreeSlots(inner);
  }

  lemma {:induction false} TreeOfSlots(items: seq<Filter>, all: bool)
    requires items != [] && forall i :: 0 <= i < |items| ==> Renderable(items[i])
    ensures Slots(TreeOf(items, all)) == |BoundList(items)|
    decreases items, 0
  {
    hide Tree, Bound;
    var n := |items| - 1;
    TreeSlots(items[n]);
    if n > 0 {
      TreeOfSlots(items[..n], all);
    } else {
      assert BoundList(items[..n]) == [];
    }
  }

  lemma {:induction false} DisjunctionMeans(exact: bool, column: string, items: seq<Json>, row: Row)
    ensures Disjunction(exact, column, items, row) == SomeEqual(exact, column, items, row)
  {
    if items != [] {
      var n := |items| - 1;
      DisjunctionMeans(exact, column, items[..n], row);
      assert forall i :: 0 <= i < n ==> items[..n][i] == items[i];
    }
  }

  lemma ExactIsBinary(value: Json)
    ensures NeedsBinary(value) <==> exists x :: x in Listed(value) && x.Str?
  {
    if value.Arr? && NeedsBinary(value) {
      var i :| 0 <= i < |value.items| && value.items[i].Str?;
      assert value.items[i] in Listed(value);
    }
    if value.Str? {
      assert value in Listed(value);
    }
  }

  lemma ColumnMeans(column: string, op: Op, value: Json, row: Row)
    requires Arguments(op, value).Some?
    ensures Outcome(NeedsBinary(value), column, op, Arguments(op, value).value, row) == ColumnMeaning(column, op, value, row)
  {
    ExactIsBinary(value);
    hide NeedsBinary, Disjunction, SomeEqual;
    if op.In? || op.NotIn? {
      DisjunctionMeans(NeedsBinary(value), column, value.items, row);
    }
  }

  lemma {:induction false} TreeMeaning(f: Filter, row: Row)
    requires Renderable(f)
    ensures Slots(Tree(f)) == |Bound(f)| && SqlMeaning(Tree(f), Bound(f), row) == FilterMeaning(f, row)
    decreases f, 1
  {
    TreeSlots(f);
    match f
    case Column(column, op, value) =>
      hide NeedsBinary, Outcome, ColumnMeaning, Arguments;
      ColumnMeans(column, op.value, value, row);
    case And(items) => AllMeans(items, row);
    case Or(items) => AnyMeans(items, row);
    case Not(inner) => TreeMeaning(inner, row);
  }

  lemma OneMeaning(f: Filter, row: Row)
    ensures FilterMeaning(And([f]), row) == FilterMeaning(f, row) == FilterMeaning(Or([f]), row)
  {
    var t := FilterMeaning(f, row);
    assert [f][0] == f;
  }

  /** a conjunction of filters comes to the conjunction of all but the last and the last */
  lemma AndSnoc(items: seq<Filter>, n: nat, row: Row)
    requires n == |items| - 1
    ensures FilterMeaning(And(items), row) == And3(FilterMeaning(And(items[..n]), row), FilterMeaning(items[n], row))
  {
    assert forall i :: 0 <= i < n ==> items[..n][i] == items[i];
  }

  lemma OrSnoc(items: seq<Filter>, n: nat, row: Row)
    requires n == |items| - 1
    ensures FilterMeaning(Or(items), row) == Or3(FilterMeaning(Or(items[..n]), row), FilterMeaning(items[n], row))
  {
    assert forall i :: 0 <= i < n ==> items[..n][i] == items[i];
  }

  lemma {:induction false} AllMeans(items: seq<Filter>, row: Row)
    requires items != [] && forall i :: 0 <= i < |items| ==> Renderable(items[i])
    ensures Slots(TreeOf(items, true)) == |BoundList(items)|
    ensures SqlMeaning(TreeOf(items, true), BoundList(items), row) == FilterMeaning(And(items), row)
    decreases items, 0
  {
    hide Tree, Bound, FilterMeaning;
    var n := |items| - 1;
    TreeOfSlots(items, true);
    TreeMeaning(items[n], row);
    if n > 0 {
      AllMeans(items[..n], row);
      AndSnoc(items, n, row);
      SplitArgs(BoundList(items[..n]), Bound(items[n]));
    } else {
      assert items == [items[n]];
      OneMeaning(items[n], row);
      assert BoundList(items[..n]) == [];
      assert BoundList(items) == Bound(items[n]);
    }
  }

  lemma {:induction false} AnyMeans(items: seq<Filter>, row: Row)
    requires items != [] && forall i :: 0 <= i < |items| ==> Renderable(items[i])
    ensures Slots(TreeOf(items, false)) == |BoundList(items)|
    ensures SqlMeaning(TreeOf(items, false), BoundList(items), row) == FilterMeaning(Or(items), row)
    decreases items, 0
  {
    hide Tree, Bound, FilterMeaning;
    var n := |items| - 1;
    TreeOfSlots(items, false);
    TreeMeaning(items[n], row);
    if n > 0 {
      AnyMeans(items[..n], row);
      OrSnoc(items, n, row);
      SplitArgs(BoundList(items[..n]), Bound(items[n]));
    } else {
      assert items == [items[n]];
      OneMeaning(items[n], row);
      assert BoundList(items[..n]) == [];
      assert BoundList(items) == Bound(items[n]);
    }
  }

  lemma SplitArgs(a: seq<Json>, b: seq<Json>)
    ensures (a + b)[..|a|] == a && (a + b)[|a|..] == b
  {
  }

  /** the placeholders outside quoted identifiers */
  function MarkCount(ts: seq<Token>): nat {
    if ts == [] then 0 else (if ts[0] == Mark then 1 else 0) + MarkCount(ts[1..])
  }

  lemma {:induction false} MarkCountOfConcat(a: seq<Token>, b: seq<Token>)
    ensures MarkCount(a + b) == MarkCount(a) + MarkCount(b)
  {
    if a == [] {
      assert a + b == b;
    } else {
      assert (a + b)[1..] == a[1..] + b;
      MarkCountOfConcat(a[1..], b);
    }
  }

  lemma MarkCountOfList(ts: seq<Token>)
    ensures MarkCount([Open] + (ts + [Close])) == MarkCount(ts)
  {
    MarkCountOfConcat([Open], ts + [Close]);
    MarkCountOfConcat(ts, [Close]);
    assert [Open][1..] == [] && [Close][1..] == [];
  }

  lemma {:induction false} MarkCountOfMarks(n: nat)
    ensures MarkCount(Marks(n)) == n
  {
    if n >= 1 {
      assert [Comma, Mark][1..] == [Mark] && [Mark][1..] == [];
    }
    if n > 1 {
      MarkCountOfMarks(n - 1);
      MarkCountOfConcat(Marks(n - 1), [Comma, Mark]);
    }
  }

  lemma MarkCountOfOperand(op: Op, n: nat)
    requires Suits(op, n)
    ensures MarkCount(OperandTokens(op, n)) == n
  {
    if op.In? || op.NotIn? {
      MarkCountOfMarks(n);
      MarkCountOfList(Marks(n));
    } else {
      assert [Mark][1..] == [] && [Word("AND"), Mark][1..] == [Mark] && [Mark, Word("AND"), Mark][1..] == [Word("AND"), Mark];
    }
  }

  lemma {:induction false} NoMarks(ts: seq<Token>)
    requires forall i :: 0 <= i < |ts| ==> ts[i] != Mark
    ensures MarkCount(ts) == 0
  {
    if ts != [] {
      NoMarks(ts[1..]);
    }
  }

  lemma MarkCountOfColumn(binary: bool, column: string, op: Op, n: nat)
    requires Suits(op, n)
    ensures MarkCount(ColumnTokens(binary, column, op, n)) == n
  {
    hide MarkCount, Keyword, OperandTokens;
    var front := if binary then [Word("BINARY")] else [];
    var operand := OperandTokens(op, n);
    MarkCountOfOperand(op, n);
    NoMarks(front);
    NoMarks([Ident(column)]);
    NoMarks(KeywordTokens(op));
    MarkCountOfConcat(KeywordTokens(op), operand);
    MarkCountOfConcat([Ident(column)], KeywordTokens(op) + operand);
    MarkCountOfConcat(front, [Ident(column)] + (KeywordTokens(op) + operand));
  }

  lemma {:induction false} MarkCountOfTokens(f: Filter)
    requires Renderable(f)
    ensures MarkCount(Tokens(f)) == |Bound(f)|
    decreases f, 1
  {
    hide MarkCount, ColumnTokens;
    match f
    case Column(column, op, value) =>
      MarkCountOfColumn(NeedsBinary(value), column, op.value, |Arguments(op.value, value).value|);
    case And(items) => MarkCountOfItems(items, "AND");
    case Or(items) => MarkCountOfItems(items, "OR");
    case Not(inner) =>
      MarkCountOfTokens(inner);
      MarkCountOfList(Tokens(inner));
      NoMarks([Word("NOT")]);
      MarkCountOfConcat([Word("NOT")], [Open] + (Tokens(inner) + [Close]));
      assert [Word("NOT")] + ([Open] + (Tokens(inner) + [Close])) == [Word("NOT"), Open] + (Tokens(inner) + [Close]);
  }

  lemma {:induction false} MarkCountOfItems(items: seq<Filter>, join: string)
    requires items != [] && forall i :: 0 <= i < |items| ==> Renderable(items[i])
    ensures MarkCount(ListTokens(items, join)) == |BoundList(items)|
    decreases items, 0
  {
    hide MarkCount, Tokens, Bound;
    var n := |items| - 1;
    var last := [Open] + (Tokens(items[n]) + [Close]);
    MarkCountOfTokens(items[n]);
    MarkCountOfList(Tokens(items[n]));
    if n > 0 {
      MarkCountOfItems(items[..n], join);
      NoMarks([Word(join)]);
      MarkCountOfConcat([Word(join)], last);
      MarkCountOfConcat(ListTokens(items[..n], join), [Word(join)] + last);
    } else {
      assert BoundList(items[..n]) == [];
    }
  }

  /**
   The text of every renderable filter is a well-formed condition. Its
   placeholders outside quoted identifiers are as many as the arguments, and
   on every row, with the values the filter mentions taken in order, it comes
   out true, false or unknown exactly as the filter does.
   */
  lemma {:induction false} RenderedMeansFilter(f: Filter, row: Row)
    requires Renderable(f)
    ensures Lex(Render(f)).Some? && MarkCount(Lex(Render(f)).value) == |Bound(f)|
    ensures ReadSql(Render(f)).Some?
    ensures Bound(f) == Operands(f)
    ensures var a := ReadSql(Render(f)).value;
      Slots(a) == |Operands(f)| && SqlMeaning(a, Operands(f), row) == FilterMeaning(f, row)
  {
    BoundAsWritten(f);
    hide Lex, Render, Tokens, ReadOr, SqlMeaning, FilterMeaning, Tree, Bound, Operands, Slots, MarkCount;
    LexRender(f);
    ReadFilter(f, []);
    assert Tokens(f) + [] == Tokens(f);
    TreeMeaning(f, row);
    MarkCountOfTokens(f);
  }

  // ---------------------------------------------------------------------
  // The renderer
  // ---------------------------------------------------------------------

  datatype Statement = Statement(text: string, args: seq<Json>)

  /** colExpr */
  method ColumnExpression(column: string, value: Json) returns (text: string)
    ensures text == ColumnText(NeedsBinary(value), column)
  {
    var binary := value.Str?;
    if value.Arr? {
      var i := 0;
      while i < |value.items| && !binary
        invariant 0 <= i <= |value.items|
        invariant binary <==> exists j :: 0 <= j < i && value.items[j].Str?
      {
        binary := value.items[i].Str?;
        i := i + 1;
      }
    }
    text := ColumnText(binary, column);
  }

  /** renderCondition */
  method RenderCondition(column: string, op: Option<Op>, value: Json) returns (r: Option<Statement>)
    ensures r.Some? <==> Renderable(Column(column, op, value))
    ensures r.Some? ==> r.value == Statement(Render(Column(column, op, value)), Bound(Column(column, op, value)))
  {
    if op.None? {
      return None;
    }
    var q := ColumnExpression(column, value);
    match op.value
    case Between =>
      if !value.Arr? || |value.items| != 2 || value.items[0].Null? || value.items[1].Null? {
        return None;
      }
      return Some(Statement(q + (" " + (Keyword(op.value) + " ? AND ?")), value.items));
    case In => r := RenderMembership(q, op.value, value);
    case NotIn => r := RenderMembership(q, op.value, value);
    case IsNull => return Some(Statement(q + (" " + (Keyword(op.value) + "")), []));
    case IsNotNull => return Some(Statement(q + (" " + (Keyword(op.value) + "")), []));
    case _ =>
      if value.Null? {
        return None;
      }
      return Some(Statement(q + (" " + (Keyword(op.value) + " ?")), [value]));
  }

  method RenderMembership(q: string, op: Op, value: Json) returns (r: Option<Statement>)
    requires op.In? || op.NotIn?
    ensures r.Some? <==> Arguments(op, value).Some?
    ensures r.Some? ==> r.value == Statement(q + (" " + (Keyword(op) + Operand(op, |value.items|))), value.items)
  {
    if !value.Arr? || value.items == [] {
      return None;
    }
    var marks: string, args, i := "", [], 0;
    while i < |value.items|
      invariant 0 <= i <= |value.items|
      invariant marks == Placeholders(i) && args == value.items[..i] && Null !in args
    {
      if value.items[i].Null? {
        return None;
      }
      marks := if i == 0 then "?" else marks + ", ?";
      args := args + [value.items[i]];
      i := i + 1;
    }
    return Some(Statement(q + (" " + (Keyword(op) + (" (" + (marks + ")")))), args));
  }

  /** filterToSQL */
  method FilterToSql(f: Filter) returns (r: Option<Statement>)
    ensures r.Some? <==> Renderable(f)
    ensures r.Some? ==> r.value == Statement(Render(f), Bound(f))
    decreases f, 1
  {
    match f
    case Column(column, op, value) => r := RenderCondition(column, op, value);
    case And(items) => r := RenderItems(items, " AND ");
    case Or(items) => r := RenderItems(items, " OR ");
    case Not(inner) =>
      r := FilterToSql(inner);
      if r.Some? {
        r := Some(Statement("NOT (" + (r.value.text + ")"), r.value.args));
      }
    case Malformed => r := None;
  }

  /** renderList */
  method RenderItems(items: seq<Filter>, join: string) returns (r: Option<Statement>)
    ensures r.Some? <==> items != [] && forall i :: 0 <= i < |items| ==> Renderable(items[i])
    ensures r.Some? ==> r.value == Statement(RenderList(items, join), BoundList(items))
    decreases items, 0
  {
    hide Render, Bound;
    if items == [] {
      return None;
    }
    var text: string, args, i := "", [], 0;
    while i < |items|
      invariant 0 <= i <= |items|
      invariant forall j :: 0 <= j < i ==> Renderable(items[j])
      invariant args == BoundList(items[..i])
      invariant i > 0 ==> text == RenderList(items[..i], join)
    {
      var part := FilterToSql(items[i]);
      if part.None? {
        return None;
      }
      var closed := "(" + (part.value.text + ")");
      text := if i == 0 then closed else text + (join + closed);
      args := args + part.value.args;
      assert items[..i + 1][..i] == items[..i];
      i := i + 1;
    }
    assert items[..i] == items;
    return Some(Statement(text, args));
  }
}
