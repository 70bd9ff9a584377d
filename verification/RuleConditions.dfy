/**
 Rule conditions under an execution budget.  Whatever a budgeted evaluation
 returns without error is the plain short-circuit meaning of the condition.
 */
module RuleConditions {
  import opened Numbers
  import opened Basics
  import opened Json

  // ---------------------------------------------------------------------
  // Conditions and their plain meaning
  // ---------------------------------------------------------------------

  datatype LeafOp = Eq | Neq | Lt | Lte | Gt | Gte | In | Between

  /** what the text of a window bound reads as; infinities and NaN are readable, an overflow is not */
  datatype WindowBound = Unreadable | NotANumber | Infinite(negative: bool) | Finite(value: Number)

  datatype Condition =
    | All(items: seq<Condition>)
    | Any(items: seq<Condition>)
    | Not(items: seq<Condition>)
    | IsNull(path: seq<string>)
    | Leaf(op: LeafOp, path: seq<string>, want: Json, window: seq<WindowBound>)
    | UnknownOp

  datatype BudgetKind = Steps | Depth | Nesting | Timeout

  datatype Failure = Invalid | Exceeded(kind: BudgetKind)

  datatype Answer = Yes | No | Failed(failure: Failure)

  function Truth(b: bool): Answer {
    if b then Yes else No
  }

  type Context = map<string, Json>

  /** resolvePath: a non-empty path of object members */
  function Resolve(v: Json, path: seq<string>): Option<Json> {
    if path == [] then Some(v)
    else if !v.Obj? || path[0] !in v.fields then None
    else Resolve(v.fields[path[0]], path[1..])
  }

  function Lookup(ctx: Context, path: seq<string>): Option<Json> {
    if path == [] then None else Resolve(Obj(ctx), path)
  }

  function Compare(op: LeafOp, got: Json, want: Json): Answer
    requires op.Lt? || op.Lte? || op.Gt? || op.Gte?
  {
    if got.Null? || want.Null? then No
    else if !got.Num? || !want.Num? then Failed(Invalid)
    else
      var g, w := got.n.Value(), want.n.Value();
      Truth(match op
            case Lt => g < w
            case Lte => g <= w
            case Gt => g > w
            case _ => g >= w)
  }

  predicate NotBelow(n: Number, bound: WindowBound) {
    (bound.Infinite? && bound.negative) || (bound.Finite? && bound.value.Value() <= n.Value())
  }

  predicate NotAbove(n: Number, bound: WindowBound) {
    (bound.Infinite? && !bound.negative) || (bound.Finite? && n.Value() <= bound.value.Value())
  }

  /** evalLeaf: null matches nothing, and nothing is coerced */
  function EvalLeaf(op: LeafOp, got: Json, want: Json, window: seq<WindowBound>): Answer {
    match op
    case Eq => Truth(!got.Null? && !want.Null? && got == want)
    case Neq => Truth(!got.Null? && !want.Null? && got != want)
    case In =>
      if !want.Arr? then Failed(Invalid)
      else Truth(!got.Null? && exists i :: 0 <= i < |want.items| && !want.items[i].Null? && want.items[i] == got)
    case Between =>
      if |window| != 2 then Failed(Invalid)
      else if got.Null? then No
      else if !got.Num? || window[0].Unreadable? || window[1].Unreadable? then Failed(Invalid)
      else Truth(NotBelow(got.n, window[0]) && NotAbove(got.n, window[1]))
    case _ => Compare(op, got, want)
  }

  function Meaning(c: Condition, ctx: Context): Answer
    decreases c, 1
  {
    match c
    case All(items) => ListOf(items, ctx, Yes)
    case Any(items) => ListOf(items, ctx, No)
    case Not(items) =>
      if |items| != 1 then Failed(Invalid)
      else
        var a := Meaning(items[0], ctx);
        if a.Failed? then a else Truth(a.No?)
    case IsNull(path) => Truth(Lookup(ctx, path).None? || Lookup(ctx, path).value.Null?)
    case Leaf(op, path, want, window) =>
      if Lookup(ctx, path).None? then Failed(Invalid) else EvalLeaf(op, Lookup(ctx, path).value, want, window)
    case UnknownOp => Failed(Invalid)
  }

  /** items left to right until one answers other than `on`: "and" goes on after Yes, "or" after No */
  function ListOf(items: seq<Condition>, ctx: Context, on: Answer): Answer
    decreases items, 0
  {
    if items == [] then on
    else
      var a := Meaning(items[0], ctx);
      if a == on then ListOf(items[1..], ctx, on) else a
  }

  // ---------------------------------------------------------------------
  // What a short-circuit evaluation visits
  // ---------------------------------------------------------------------

  function Visits(c: Condition, ctx: Context): (n: nat)
    ensures n >= 1
    decreases c, 1
  {
    match c
    case All(items) => 1 + VisitsOf(items, ctx, Yes)
    case Any(items) => 1 + VisitsOf(items, ctx, No)
    case Not(items) => if |items| != 1 then 1 else 1 + Visits(items[0], ctx)
    case _ => 1
  }

  function VisitsOf(items: seq<Condition>, ctx: Context, on: Answer): nat
    decreases items, 0
  {
    if items == [] then 0
    else Visits(items[0], ctx) + (if Meaning(items[0], ctx) == on then VisitsOf(items[1..], ctx, on) else 0)
  }

  /** how many levels below the condition the evaluation goes */
  function Height(c: Condition, ctx: Context): nat
    decreases c, 1
  {
    match c
    case All(items) => HeightOf(items, ctx, Yes)
    case Any(items) => HeightOf(items, ctx, No)
    case Not(items) => if |items| != 1 then 0 else 1 + Height(items[0], ctx)
    case _ => 0
  }

  function HeightOf(items: seq<Condition>, ctx: Context, on: Answer): nat
    decreases items, 0
  {
    if items == [] then 0
    else
      Max(1 + Height(items[0], ctx),
          if Meaning(items[0], ctx) == on then HeightOf(items[1..], ctx, on) else 0)
  }

  // ---------------------------------------------------------------------
  // The budget
  // ---------------------------------------------------------------------

  class Budget {
    const maxSteps: int
    const maxDepth: int
    const maxNesting: int
    /** whether the deadline has passed when the given step is charged */
    const expired: int -> bool
    var steps: int
    var nesting: int

    constructor (maxSteps: int, maxDepth: int, maxNesting: int, expired: int -> bool)
      ensures this.maxSteps == maxSteps && this.maxDepth == maxDepth && this.maxNesting == maxNesting
      ensures this.expired == expired && steps == 0 && nesting == 0
    {
      this.maxSteps, this.maxDepth, this.maxNesting, this.expired := maxSteps, maxDepth, maxNesting, expired;
      steps, nesting := 0, 0;
    }

    method Step() returns (r: Option<BudgetKind>)
      modifies this`steps
      ensures steps == old(steps) + 1
      ensures r == if steps > maxSteps then Some(Steps) else if expired(steps) then Some(Timeout) else None
    {
      steps := steps + 1;
      if steps > maxSteps {
        return Some(Steps);
      }
      if expired(steps) {
        return Some(Timeout);
      }
      r := None;
    }

    /** a failed depth check leaves the nesting alone, a failed nesting check has already raised it */
    method Enter(depth: int) returns (r: Option<BudgetKind>)
      modifies this`nesting
      ensures r == if depth > maxDepth then Some(Depth) else if old(nesting) + 1 > maxNesting then Some(Nesting) else None
      ensures nesting == old(nesting) + (if depth > maxDepth then 0 else 1)
    {
      if depth > maxDepth {
        return Some(Depth);
      }
      nesting := nesting + 1;
      if nesting > maxNesting {
        return Some(Nesting);
      }
      r := None;
    }

    method Exit()
      modifies this`nesting
      ensures nesting == if old(nesting) > 0 then old(nesting) - 1 else old(nesting)
    {
      if nesting > 0 {
        nesting := nesting - 1;
      }
    }

    /** so many more steps stay within the limit and before the deadline */
    ghost predicate StepsLeft(from: int, visits: nat) {
      visits > 0 ==> from + visits <= maxSteps && forall k :: from < k <= from + visits ==> !expired(k)
    }

    lemma StepsSplit(from: int, v: nat, w: nat)
      ensures StepsLeft(from, v + w) <==> StepsLeft(from, v) && StepsLeft(from + v, w)
    {
    }

    lemma StepsNone(from: int)
      ensures StepsLeft(from, 0)
      ensures StepsLeft(from, 1) <==> from + 1 <= maxSteps && !expired(from + 1)
    {
    }

    /** a node at this depth and the levels below it stay within both level limits */
    ghost predicate LevelsLeft(nesting: int, depth: int, height: int) {
      depth + height <= maxDepth && nesting + 1 + height <= maxNesting
    }

    /** enough budget left to visit so many nodes, so many levels deep */
    ghost predicate Allows(from: int, nesting: int, depth: int, visits: nat, height: nat) {
      StepsLeft(from, visits) && LevelsLeft(nesting, depth, height)
    }
  }

  // ---------------------------------------------------------------------
  // Budgeted evaluation
  // ---------------------------------------------------------------------

  /** the plain meaning when the budget allows the whole evaluation, else a budget failure */
  ghost predicate Faithful(a: Answer, meaning: Answer, allowed: bool) {
    if allowed then a == meaning else a.Failed? && a.failure.Exceeded?
  }

  lemma {:induction false} MeaningInBudget(c: Condition, ctx: Context)
    ensures Meaning(c, ctx).Failed? ==> Meaning(c, ctx).failure.Invalid?
    decreases c, 1
  {
    match c
    case All(items) => ListInBudget(items, ctx, Yes);
    case Any(items) => ListInBudget(items, ctx, No);
    case Not(items) => if |items| == 1 { MeaningInBudget(items[0], ctx); }
    case _ =>
  }

  lemma {:induction false} ListInBudget(items: seq<Condition>, ctx: Context, on: Answer)
    requires on.Yes? || on.No?
    ensures ListOf(items, ctx, on).Failed? ==> ListOf(items, ctx, on).failure.Invalid?
    decreases items, 0
  {
    if items != [] {
      MeaningInBudget(items[0], ctx);
      ListInBudget(items[1..], ctx, on);
    }
  }

  /** Budgeted evaluation: within the budget it gives the plain meaning and
      charges exactly the nodes a short-circuit evaluation visits; beyond it, it
      fails.  The nesting is restored, except that a nesting failure leaves one level. */
  method EvalCondition(c: Condition, ctx: Context, b: Budget, depth: int) returns (a: Answer)
    requires b.nesting >= 0
    modifies b
    ensures Faithful(a, Meaning(c, ctx),
                     b.Allows(old(b.steps), old(b.nesting), depth, Visits(c, ctx), Height(c, ctx)))
    ensures !(a.Failed? && a.failure.Exceeded?) ==> b.steps == old(b.steps) + Visits(c, ctx)
    ensures b.nesting == old(b.nesting) + (if a == Failed(Exceeded(Nesting)) then 1 else 0)
    decreases c, 1
  {
    hide Budget.StepsLeft, Meaning, Visits, Height;
    b.StepsNone(b.steps);
    b.StepsSplit(b.steps, 1, Visits(c, ctx) - 1);
    MeaningInBudget(c, ctx);
    var e := b.Step();
    if e.Some? {
      return Failed(Exceeded(e.value));
    }
    e := b.Enter(depth);
    if e.Some? {
      return Failed(Exceeded(e.value));
    }
    a := EvalEntered(c, ctx, b, depth);
    b.Exit();
  }

  /** a condition whose own step and level have been charged */
  method EvalEntered(c: Condition, ctx: Context, b: Budget, depth: int) returns (a: Answer)
    requires b.nesting >= 1 && b.LevelsLeft(b.nesting - 1, depth, 0)
    modifies b
    ensures Faithful(a, Meaning(c, ctx),
                     b.Allows(old(b.steps), old(b.nesting) - 1, depth, Visits(c, ctx) - 1, Height(c, ctx)))
    ensures !(a.Failed? && a.failure.Exceeded?) ==> b.steps == old(b.steps) + Visits(c, ctx) - 1
    ensures b.nesting == old(b.nesting) + (if a == Failed(Exceeded(Nesting)) then 1 else 0)
    decreases c, 0
  {
    hide Budget.StepsLeft, ListOf, VisitsOf, HeightOf, EvalLeaf, Lookup;
    b.StepsNone(b.steps);
    MeaningInBudget(c, ctx);
    match c {
      case All(items) => a := EvalItems(items, ctx, b, depth + 1, Yes);
      case Any(items) => a := EvalItems(items, ctx, b, depth + 1, No);
      case Not(items) =>
        if |items| != 1 {
          a := Failed(Invalid);
        } else {
          a := EvalCondition(items[0], ctx, b, depth + 1);
          if !a.Failed? {
            a := Truth(a.No?);
          }
        }
      case IsNull(path) => a := Truth(Lookup(ctx, path).None? || Lookup(ctx, path).value.Null?);
      case Leaf(op, path, want, window) =>
        a := if Lookup(ctx, path).None? then Failed(Invalid) else EvalLeaf(op, Lookup(ctx, path).value, want, window);
      case UnknownOp => a := Failed(Invalid);
    }
  }

  lemma NoItems(ctx: Context, on: Answer)
    ensures ListOf([], ctx, on) == on && VisitsOf([], ctx, on) == 0 && HeightOf([], ctx, on) == 0
  {
  }

  lemma StopsHere(items: seq<Condition>, ctx: Context, on: Answer)
    requires items != [] && Meaning(items[0], ctx) != on
    ensures ListOf(items, ctx, on) == Meaning(items[0], ctx)
    ensures VisitsOf(items, ctx, on) == Visits(items[0], ctx)
    ensures HeightOf(items, ctx, on) == 1 + Height(items[0], ctx)
  {
  }

  lemma GoesOn(items: seq<Condition>, ctx: Context, on: Answer)
    requires items != [] && Meaning(items[0], ctx) == on
    ensures ListOf(items, ctx, on) == ListOf(items[1..], ctx, on)
    ensures VisitsOf(items, ctx, on) == Visits(items[0], ctx) + VisitsOf(items[1..], ctx, on)
    ensures HeightOf(items, ctx, on) == Max(1 + Height(items[0], ctx), HeightOf(items[1..], ctx, on))
  {
  }

  /** the loop over the items of an "and" or an "or", one level below a node already entered */
  method EvalItems(items: seq<Condition>, ctx: Context, b: Budget, depth: int, on: Answer) returns (a: Answer)
    requires b.nesting >= 0 && (on.Yes? || on.No?)
    requires b.LevelsLeft(b.nesting - 1, depth - 1, 0)
    modifies b
    ensures Faithful(a, ListOf(items, ctx, on),
                     b.Allows(old(b.steps), old(b.nesting) - 1, depth - 1, VisitsOf(items, ctx, on), HeightOf(items, ctx, on)))
    ensures !(a.Failed? && a.failure.Exceeded?) ==> b.steps == old(b.steps) + VisitsOf(items, ctx, on)
    ensures b.nesting == old(b.nesting) + (if a == Failed(Exceeded(Nesting)) then 1 else 0)
    decreases items, 0
  {
    hide Budget.StepsLeft, ListOf, VisitsOf, HeightOf, Visits, Height, Meaning;
    ghost var whole, cost, tall := ListOf(items, ctx, on), VisitsOf(items, ctx, on), HeightOf(items, ctx, on);
    ghost var visited: nat, height: nat := 0, 0;
    b.StepsNone(b.steps);
    var i := 0;
    assert items[0..] == items;
    while i < |items|
      invariant 0 <= i <= |items|
      invariant whole == ListOf(items[i..], ctx, on)
      invariant b.steps == old(b.steps) + visited && b.nesting == old(b.nesting)
      invariant cost == visited + VisitsOf(items[i..], ctx, on)
      invariant tall == Max(height, HeightOf(items[i..], ctx, on))
      invariant b.StepsLeft(old(b.steps), visited) && b.LevelsLeft(old(b.nesting) - 1, depth - 1, height)
    {
      assert items[i..][0] == items[i] && items[i..][1..] == items[i + 1..];
      ghost var v, h := Visits(items[i], ctx), Height(items[i], ctx);
      if Meaning(items[i], ctx) == on {
        GoesOn(items[i..], ctx, on);
      } else {
        StopsHere(items[i..], ctx, on);
      }
      b.StepsSplit(old(b.steps), visited, v);
      b.StepsSplit(old(b.steps), visited + v, cost - (visited + v));
      MeaningInBudget(items[i], ctx);
      a := EvalCondition(items[i], ctx, b, depth);
      if a != on {
        return;
      }
      visited, height := visited + v, Max(height, 1 + h);
      i := i + 1;
    }
    assert items[i..] == [];
    NoItems(ctx, on);
    a := on;
  }
}
