/**
 Row filters rendered as a parameterized SQL condition, and an SQL reader that
 gives the rendered text its meaning back.
 */
module SqlFilter {
  import opened Numbers
  import opened Json

  // ---------------------------------------------------------------------
  // Filters and rendering
  // ---------------------------------------------------------------------

  datatype Op = Eq | Ne | Lt | Le | Gt | Ge | In | NotIn | Between | Like | IsNull | IsNotNull

  datatype Filter =
    | Column(column: string, op: Option<Op>, value: Json)
    | And(items: seq<Filter>)
    | Or(items: seq<Filter>)
    | Not(inner: Filter)
    | Malformed

  /** the values an operator binds, in order; None when the value does not suit the operator */
  function Arguments(op: Op, value: Json): Option<seq<Json>> {
    match op
    case In =>
      if value.Arr? && value.items != [] && Null !in value.items then Some(value.items) else None
    case NotIn =>
      if value.Arr? && value.items != [] && Null !in value.items then Some(value.items) else None
    case Between =>
      if value.Arr? && |value.items| == 2 && Null !in value.items then Some(value.items) else None
    case IsNull => Some([])
    case IsNotNull => Some([])
    case _ => if value.Null? then None else Some([value])
  }

  /** string comparisons are made byte-exact */
  predicate NeedsBinary(value: Json) {
    value.Str? || (value.Arr? && exists i :: 0 <= i < |value.items| && value.items[i].Str?)
  }

  function Escaped(s: string): string {
    if s == [] then [] else (if s[0] == '`' then "``" else [s[0]]) + Escaped(s[1..])
  }

  function QuoteIdent(s: string): string {
    "`" + (Escaped(s) + "`")
  }

  function Keyword(op: Op): string {
    match op
    case Eq => "="
    case Ne => "!="
    case Lt => "<"
    case Le => "<="
    case Gt => ">"
    case Ge => ">="
    case In => "IN"
    case NotIn => "NOT IN"
    case Between => "BETWEEN"
    case Like => "LIKE"
    case IsNull => "IS NULL"
    case IsNotNull => "IS NOT NULL"
  }

  function Placeholders(n: nat): string {
    if n == 0 then "" else if n == 1 then "?" else Placeholders(n - 1) + ", ?"
  }

  function Operand(op: Op, n: nat): string {
    match op
    case In => " (" + (Placeholders(n) + ")")
    case NotIn => " (" + (Placeholders(n) + ")")
    case Between => " ? AND ?"
    case IsNull => ""
    case IsNotNull => ""
    case _ => " ?"
  }

  function ColumnText(binary: bool, column: string): string {
    (if binary then "BINARY " else "") + QuoteIdent(column)
  }

  function RenderColumn(column: string, op: Op, binary: bool, n: nat): string {
    ColumnText(binary, column) + (" " + (Keyword(op) + Operand(op, n)))
  }

  predicate Renderable(f: Filter) {
    match f
    case Column(_, op, value) => op.Some? && Arguments(op.value, value).Some?
    case And(items) => items != [] && forall i :: 0 <= i < |items| ==> Renderable(items[i])
    case Or(items) => items != [] && forall i :: 0 <= i < |items| ==> Renderable(items[i])
    case Not(inner) => Renderable(inner)
    case Malformed => false
  }

  /** filterToSQL, the statement text */
  function Render(f: Filter): string
    requires Renderable(f)
    decreases f, 1
  {
    match f
    case Column(column, op, value) =>
      RenderColumn(column, op.value, NeedsBinary(value), |Arguments(op.value, value).value|)
    case And(items) => RenderList(items, " AND ")
    case Or(items) => RenderList(items, " OR ")
    case Not(inner) => "NOT (" + (Render(inner) + ")")
  }

  function RenderList(items: seq<Filter>, join: string): string
    requires items != [] && forall i :: 0 <= i < |items| ==> Renderable(items[i])
    decreases items, 0
  {
    var last := "(" + (Render(items[|items| - 1]) + ")");
    if |items| == 1 then last else RenderList(items[..|items| - 1], join) + (join + last)
  }

  /** filterToSQL, the bound arguments */
  function Bound(f: Filter): seq<Json>
    requires Renderable(f)
    decreases f, 1
  {
    match f
    case Column(_, op, value) => Arguments(op.value, value).value
    case And(items) => BoundList(items)
    case Or(items) => BoundList(items)
    case Not(inner) => Bound(inner)
  }

  function BoundList(items: seq<Filter>): seq<Json>
    requires forall i :: 0 <= i < |items| ==> Renderable(items[i])
    decreases items, 0
  {
    if items == [] then [] else BoundList(items[..|items| - 1]) + Bound(items[|items| - 1])
  }

  // ---------------------------------------------------------------------
  // Three-valued meaning
  // ---------------------------------------------------------------------

  datatype Truth = True | False | Unknown

  function And3(a: Truth, b: Truth): Truth {
    if a.False? || b.False? then False else if a.True? && b.True? then True else Unknown
  }

  function Or3(a: Truth, b: Truth): Truth {
    if a.True? || b.True? then True else if a.False? && b.False? then False else Unknown
  }

  function Not3(a: Truth): Truth {
    match a
    case True => False
    case False => True
    case Unknown => Unknown
  }

  /** a row: what comparing a column with one value comes to, byte-exact or
      not, and whether the column is null */
  datatype Row = Row(compare: (bool, string, Op, Json) -> Truth, isNull: string -> bool)

  /** the values a filter's operand stands for */
  function Listed(value: Json): seq<Json> {
    if value.Arr? then value.items else [value]
  }

  /** what a filter asks of a row, read off its JSON: comparisons with a text
      are byte-exact, "between" is from its first to its second value, "in" is
      equality with one of its values */
  function ColumnMeaning(column: string, op: Op, value: Json, row: Row): Truth {
    var exact := exists x :: x in Listed(value) && x.Str?;
    var items := Listed(value);
    match op
    case IsNull => if row.isNull(column) then True else False
    case IsNotNull => if row.isNull(column) then False else True
    case In => SomeEqual(exact, column, items, row)
    case NotIn => Not3(SomeEqual(exact, column, items, row))
    case Between =>
      if |items| != 2 then Unknown
      else And3(row.compare(exact, column, Ge, items[0]), row.compare(exact, column, Le, items[1]))
    case _ => row.compare(exact, column, op, value)
  }

  /** true with one equal value, false with none that could be */
  function SomeEqual(exact: bool, column: string, items: seq<Json>, row: Row): Truth {
    if exists i :: 0 <= i < |items| && row.compare(exact, column, Eq, items[i]).True? then True
    else if forall i :: 0 <= i < |items| ==> row.compare(exact, column, Eq, items[i]).False? then False
    else Unknown
  }

  function FilterMeaning(f: Filter, row: Row): Truth {
    match f
    case Column(column, op, value) => if op.None? then Unknown else ColumnMeaning(column, op.value, value, row)
    case And(items) =>
      if exists i :: 0 <= i < |items| && FilterMeaning(items[i], row).False? then False
      else if forall i :: 0 <= i < |items| ==> FilterMeaning(items[i], row).True? then True
      else Unknown
    case Or(items) =>
      if exists i :: 0 <= i < |items| && FilterMeaning(items[i], row).True? then True
      else if forall i :: 0 <= i < |items| ==> FilterMeaning(items[i], row).False? then False
      else Unknown
    case Not(inner) =>
      var t := FilterMeaning(inner, row);
      if t.True? then False else if t.False? then True else Unknown
    case Malformed => Unknown
  }

  // ---------------------------------------------------------------------
  // Arguments read off the filter
  // ---------------------------------------------------------------------

  /** the values a filter mentions, in the order written */
  function Operands(f: Filter): seq<Json>
    decreases f, 1
  {
    match f
    case Column(_, op, value) =>
      if op == Some(IsNull) || op == Some(IsNotNull) then []
      else if op == Some(In) || op == Some(NotIn) || op == Some(Between) then Listed(value)
      else [value]
    case And(items) => OperandsOf(items)
    case Or(items) => OperandsOf(items)
    case Not(inner) => Operands(inner)
    case Malformed => []
  }

  function OperandsOf(items: seq<Filter>): seq<Json>
    decreases items, 0
  {
    if items == [] then [] else Operands(items[0]) + OperandsOf(items[1..])
  }

  lemma {:induction false} OperandsOfConcat(a: seq<Filter>, b: seq<Filter>)
    ensures OperandsOf(a + b) == OperandsOf(a) + OperandsOf(b)
  {
    if a == [] {
      assert a + b == b;
    } else {
      assert (a + b)[1..] == a[1..] + b;
      OperandsOfConcat(a[1..], b);
    }
  }

  /** The bound arguments are the values the filter mentions, in the order written. */
  lemma {:induction false} BoundAsWritten(f: Filter)
    requires Renderable(f)
    ensures Bound(f) == Operands(f)
    decreases f, 1
  {
    match f
    case Column(_, _, _) =>
    case And(items) => BoundListAsWritten(items);
    case Or(items) => BoundListAsWritten(items);
    case Not(inner) => BoundAsWritten(inner);
  }

  lemma {:induction false} BoundListAsWritten(items: seq<Filter>)
    requires forall i :: 0 <= i < |items| ==> Renderable(items[i])
    ensures BoundList(items) == OperandsOf(items)
    decreases items, 0
  {
    hide Bound, Operands;
    if items != [] {
      var n := |items| - 1;
      BoundListAsWritten(items[..n]);
      BoundAsWritten(items[n]);
      assert items == items[..n] + [items[n]];
      OperandsOfConcat(items[..n], [items[n]]);
      assert OperandsOf([items[n]]) == Operands(items[n]) by { assert [items[n]][1..] == []; }
    }
  }

  /** A comparison can be rendered exactly when its operator is known and its
      value suits it: no null, a non-empty list for "in", a pair for "between",
      anything for the null tests. */
  lemma {:induction false} ColumnRenderable(column: string, op: Option<Op>, value: Json)
    ensures Renderable(Column(column, op, value)) <==>
      && op.Some?
      && (op.value.In? || op.value.NotIn? ==> value.Arr? && |value.items| > 0)
      && (op.value.Between? ==> value.Arr? && |value.items| == 2)
      && (op.value.In? || op.value.NotIn? || op.value.Between? ==> Null !in Listed(value))
      && (value.Null? ==> op.value.IsNull? || op.value.IsNotNull?)
  {
  }
}
