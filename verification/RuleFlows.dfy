/**
 Rule flows: finite trees of operations, branches and sequences, run against a
 handler under the same budget as conditions.
 */
module RuleFlows {
  import opened Numbers
  import opened Basics
  import opened Json
  import opened RuleConditions

  datatype FlowStep =
    | Op(name: string)
    | If(condition: Condition, thenSteps: seq<FlowStep>, elseSteps: seq<FlowStep>)
    | Sequence(steps: seq<FlowStep>)
    | UnknownKind

  /** executes a named operation; its output is merged into the variables, None is an error */
  type Handler = (string, Context, Context) -> Option<Context>

  /** the variables after a run, the operations it called in order, and whether it completed */
  datatype Effect = Effect(vars: Context, log: seq<string>, ok: bool)

  function EvalContext(vars: Context, request: Context): Context {
    vars["request" := Obj(request)]
  }

  /** whether the condition of a branch answers, and how */
  function Answered(s: FlowStep, vars: Context, request: Context): Answer
    requires s.If?
  {
    Meaning(s.condition, EvalContext(vars, request))
  }

  // ---------------------------------------------------------------------
  // Plain meaning, cost and height
  // ---------------------------------------------------------------------

  function RunOne(s: FlowStep, vars: Context, request: Context, h: Handler): Effect
    decreases s, 1
  {
    match s
    case Op(name) =>
      var out := h(name, vars, request);
      if out.None? then Effect(vars, [name], false) else Effect(vars + out.value, [name], true)
    case If(_, _, _) =>
      var a := Answered(s, vars, request);
      if a.Failed? then Effect(vars, [], false)
      else if a.Yes? then RunAll(s.thenSteps, vars, request, h)
      else RunAll(s.elseSteps, vars, request, h)
    case Sequence(steps) => RunAll(steps, vars, request, h)
    case UnknownKind => Effect(vars, [], false)
  }

  function RunAll(steps: seq<FlowStep>, vars: Context, request: Context, h: Handler): Effect
    decreases steps, 0
  {
    if steps == [] then Effect(vars, [], true)
    else
      var e := RunOne(steps[0], vars, request, h);
      if !e.ok then e
      else
        var r := RunAll(steps[1..], e.vars, request, h);
        Effect(r.vars, e.log + r.log, r.ok)
  }

  function CostOne(s: FlowStep, vars: Context, request: Context, h: Handler): (n: nat)
    ensures n >= 1
    decreases s, 1
  {
    match s
    case If(c, t, e) =>
      var a := Answered(s, vars, request);
      1 + Visits(c, EvalContext(vars, request)) +
      (if a.Failed? then 0 else if a.Yes? then CostAll(t, vars, request, h) else CostAll(e, vars, request, h))
    case Sequence(steps) => 1 + CostAll(steps, vars, request, h)
    case _ => 1
  }

  function CostAll(steps: seq<FlowStep>, vars: Context, request: Context, h: Handler): nat
    decreases steps, 0
  {
    if steps == [] then 0
    else
      var e := RunOne(steps[0], vars, request, h);
      CostOne(steps[0], vars, request, h) + (if e.ok then CostAll(steps[1..], e.vars, request, h) else 0)
  }

  /** levels below the list that holds the step */
  function HeightOne(s: FlowStep, vars: Context, request: Context, h: Handler): nat
    decreases s, 1
  {
    match s
    case If(c, t, e) =>
      var a := Answered(s, vars, request);
      Max(1 + Height(c, EvalContext(vars, request)),
          if a.Failed? then 0
          else if a.Yes? then 1 + HeightAll(t, vars, request, h) else 1 + HeightAll(e, vars, request, h))
    case Sequence(steps) => 1 + HeightAll(steps, vars, request, h)
    case _ => 0
  }

  function HeightAll(steps: seq<FlowStep>, vars: Context, request: Context, h: Handler): nat
    decreases steps, 0
  {
    if steps == [] then 0
    else
      var e := RunOne(steps[0], vars, request, h);
      Max(HeightOne(steps[0], vars, request, h), if e.ok then HeightAll(steps[1..], e.vars, request, h) else 0)
  }

  // ---------------------------------------------------------------------
  // No operation runs more often than it is written
  // ---------------------------------------------------------------------

  function PreorderOne(s: FlowStep): seq<string>
    decreases s, 1
  {
    match s
    case Op(name) => [name]
    case If(_, t, e) => Preorder(t) + Preorder(e)
    case Sequence(steps) => Preorder(steps)
    case UnknownKind => []
  }

  /** every operation of a flow, in the order written */
  function Preorder(steps: seq<FlowStep>): seq<string>
    decreases steps, 0
  {
    if steps == [] then [] else PreorderOne(steps[0]) + Preorder(steps[1..])
  }

  predicate Subsequence(a: seq<string>, b: seq<string>) {
    if a == [] then true
    else if b == [] then false
    else if a[0] == b[0] && Subsequence(a[1..], b[1..]) then true
    else Subsequence(a, b[1..])
  }

  lemma {:induction false} SubsequenceSkip(a: seq<string>, x: seq<string>, b: seq<string>)
    requires Subsequence(a, b)
    ensures Subsequence(a, x + b)
    decreases |x|
  {
    if x == [] {
      assert x + b == b;
    } else {
      SubsequenceSkip(a, x[1..], b);
      assert (x + b)[1..] == x[1..] + b;
    }
  }

  lemma {:induction false} SubsequenceConcat(a: seq<string>, b: seq<string>, c: seq<string>, d: seq<string>)
    requires Subsequence(a, b) && Subsequence(c, d)
    ensures Subsequence(a + c, b + d)
    decreases |b|
  {
    if a == [] {
      assert a + c == c;
      SubsequenceSkip(c, b, d);
    } else {
      assert (b + d)[1..] == b[1..] + d;
      if a[0] == b[0] && Subsequence(a[1..], b[1..]) {
        SubsequenceConcat(a[1..], b[1..], c, d);
        assert (a + c)[1..] == a[1..] + c;
      } else {
        SubsequenceConcat(a, b[1..], c, d);
      }
    }
  }

  lemma {:induction false} SubsequencePrefix(p: seq<string>, a: seq<string>, b: seq<string>)
    requires p <= a && Subsequence(a, b)
    ensures Subsequence(p, b)
    decreases |b|
  {
    if p != [] {
      if a[0] == b[0] && Subsequence(a[1..], b[1..]) {
        SubsequencePrefix(p[1..], a[1..], b[1..]);
      } else {
        SubsequencePrefix(p, a, b[1..]);
      }
    }
  }

  lemma SubsequenceLeft(a: seq<string>, b: seq<string>, c: seq<string>)
    requires Subsequence(a, b)
    ensures Subsequence(a, b + c)
  {
    SubsequenceConcat(a, b, [], c);
    assert a + [] == a;
  }

  lemma {:induction false} LogOneWritten(s: FlowStep, vars: Context, request: Context, h: Handler)
    ensures Subsequence(RunOne(s, vars, request, h).log, PreorderOne(s))
    decreases s, 1
  {
    match s
    case Op(name) =>
    case If(_, t, e) =>
      LogWritten(t, vars, request, h);
      LogWritten(e, vars, request, h);
      SubsequenceLeft(RunAll(t, vars, request, h).log, Preorder(t), Preorder(e));
      SubsequenceSkip(RunAll(e, vars, request, h).log, Preorder(t), Preorder(e));
    case Sequence(steps) => LogWritten(steps, vars, request, h);
    case UnknownKind =>
  }

  /** The operations of a run are a subsequence of the flow as written. */
  lemma {:induction false} LogWritten(steps: seq<FlowStep>, vars: Context, request: Context, h: Handler)
    ensures Subsequence(RunAll(steps, vars, request, h).log, Preorder(steps))
    decreases steps, 0
  {
    if steps != [] {
      var e := RunOne(steps[0], vars, request, h);
      LogOneWritten(steps[0], vars, request, h);
      if e.ok {
        var r := RunAll(steps[1..], e.vars, request, h);
        LogWritten(steps[1..], e.vars, request, h);
        SubsequenceConcat(e.log, PreorderOne(steps[0]), r.log, Preorder(steps[1..]));
      } else {
        SubsequenceLeft(e.log, PreorderOne(steps[0]), Preorder(steps[1..]));
      }
    }
  }

  // ---------------------------------------------------------------------
  // Running a flow under a budget
  // ---------------------------------------------------------------------

  class FlowContext {
    const request: Context
    const handler: Handler
    var vars: Context
    /** the operations handed to the handler so far */
    var log: seq<string>

    constructor (vars: Context, request: Context, handler: Handler)
      ensures this.vars == vars && this.request == request && this.handler == handler && log == []
    {
      this.vars, this.request, this.handler, log := vars, request, handler, [];
    }
  }

  /** the outcome of a budgeted run against its plain effect: all of it when the
      budget allows, and never an operation outside it */
  ghost predicate Refines(failure: Option<Failure>, e: Effect, allowed: bool, vars: Context, log: seq<string>) {
    && log <= e.log
    && (if allowed then vars == e.vars && log == e.log && failure == (if e.ok then None else Some(Invalid))
        else failure.Some? && failure.value.Exceeded?)
  }

  method RunStep(s: FlowStep, ctx: FlowContext, b: Budget, depth: int) returns (failure: Option<Failure>)
    requires b.nesting >= 1 && b.LevelsLeft(b.nesting - 1, depth, 0)
    modifies ctx, b
    ensures old(ctx.log) <= ctx.log
    ensures Refines(failure, RunOne(s, old(ctx.vars), ctx.request, ctx.handler),
                    && b.StepsLeft(old(b.steps), CostOne(s, old(ctx.vars), ctx.request, ctx.handler))
                    && b.LevelsLeft(old(b.nesting) - 1, depth, HeightOne(s, old(ctx.vars), ctx.request, ctx.handler)),
                    ctx.vars, ctx.log[|old(ctx.log)|..])
    ensures !(failure.Some? && failure.value.Exceeded?) ==>
              b.steps == old(b.steps) + CostOne(s, old(ctx.vars), ctx.request, ctx.handler)
    ensures b.nesting == old(b.nesting) + (if failure == Some(Exceeded(Nesting)) then 1 else 0)
    decreases s, 1
  {
    hide Visits, Height, Meaning, Budget.StepsLeft;
    ghost var vars0, steps0 := ctx.vars, b.steps;
    ghost var cost := CostOne(s, vars0, ctx.request, ctx.handler);
    ChargeOne(b, steps0);
    Spent(b, steps0, 1, cost - 1);
    var e := b.Step();
    if e.Some? {
      return Some(Exceeded(e.value));
    }
    match s {
      case Op(name) =>
        ctx.log := ctx.log + [name];
        var out := ctx.handler(name, ctx.vars, ctx.request);
        if out.None? {
          return Some(Invalid);
        }
        ctx.vars := ctx.vars + out.value;
        failure := None;
      case If(_, _, _) =>
        failure := RunIf(s, ctx, b, depth);
      case Sequence(steps) =>
        failure := RunSteps(steps, ctx, b, depth + 1);
      case UnknownKind =>
        failure := Some(Invalid);
    }
  }

  /** a branch step after its own step has been charged */
  method RunIf(s: FlowStep, ctx: FlowContext, b: Budget, depth: int) returns (failure: Option<Failure>)
    requires s.If? && b.nesting >= 1 && b.LevelsLeft(b.nesting - 1, depth, 0)
    modifies ctx, b
    ensures old(ctx.log) <= ctx.log
    ensures Refines(failure, RunOne(s, old(ctx.vars), ctx.request, ctx.handler),
                    && b.StepsLeft(old(b.steps), CostOne(s, old(ctx.vars), ctx.request, ctx.handler) - 1)
                    && b.LevelsLeft(old(b.nesting) - 1, depth, HeightOne(s, old(ctx.vars), ctx.request, ctx.handler)),
                    ctx.vars, ctx.log[|old(ctx.log)|..])
    ensures !(failure.Some? && failure.value.Exceeded?) ==>
              b.steps == old(b.steps) + CostOne(s, old(ctx.vars), ctx.request, ctx.handler) - 1
    ensures b.nesting == old(b.nesting) + (if failure == Some(Exceeded(Nesting)) then 1 else 0)
    decreases s, 0
  {
    hide Visits, Height, Meaning, Budget.StepsLeft;
    ghost var vars0, steps0 := ctx.vars, b.steps;
    ghost var cost := CostOne(s, vars0, ctx.request, ctx.handler) - 1;
    var at := EvalContext(ctx.vars, ctx.request);
    var a := EvalCondition(s.condition, at, b, depth + 1);
    MeaningInBudget(s.condition, at);
    ghost var visits := Visits(s.condition, at);
    Spent(b, steps0, visits, cost - visits);
    if a.Failed? {
      return Some(a.failure);
    }
    if a.Yes? {
      failure := RunSteps(s.thenSteps, ctx, b, depth + 1);
    } else {
      failure := RunSteps(s.elseSteps, ctx, b, depth + 1);
    }
  }

  lemma ChargeOne(b: Budget, from: int)
    ensures b.StepsLeft(from, 1) <==> from + 1 <= b.maxSteps && !b.expired(from + 1)
  {
  }

  lemma Spent(b: Budget, from: int, v: nat, w: nat)
    ensures b.StepsLeft(from, v + w) <==> b.StepsLeft(from, v) && b.StepsLeft(from + v, w)
  {
  }

  /** a next member of cost c and height t, out of a list of the given total cost and height */
  lemma Progress(b: Budget, from: int, nesting: int, depth: int,
                 spent: nat, c: nat, cost: nat, height: nat, t: nat, tall: nat)
    requires spent + c <= cost && Max(height, t) <= tall
    requires b.StepsLeft(from, spent) && b.LevelsLeft(nesting, depth, height)
    ensures b.LevelsLeft(nesting, depth, 0)
    ensures b.Allows(from, nesting, depth, cost, tall) ==> b.StepsLeft(from + spent, c) && b.LevelsLeft(nesting, depth, t)
    ensures b.StepsLeft(from + spent, c) && b.LevelsLeft(nesting, depth, t) ==>
      b.StepsLeft(from, spent + c) && b.LevelsLeft(nesting, depth, Max(height, t))
  {
    Spent(b, from, spent, c);
    Spent(b, from, spent + c, cost - (spent + c));
  }

  lemma NothingSpent(b: Budget, from: int)
    ensures b.StepsLeft(from, 0)
  {
  }

  lemma EmptyList(vars: Context, request: Context, h: Handler)
    ensures RunAll([], vars, request, h) == Effect(vars, [], true)
    ensures CostAll([], vars, request, h) == 0 && HeightAll([], vars, request, h) == 0
  {
  }

  /** a failed step ends its list */
  lemma ListStops(steps: seq<FlowStep>, vars: Context, request: Context, h: Handler)
    requires steps != [] && !RunOne(steps[0], vars, request, h).ok
    ensures RunAll(steps, vars, request, h) == RunOne(steps[0], vars, request, h)
    ensures CostAll(steps, vars, request, h) == CostOne(steps[0], vars, request, h)
    ensures HeightAll(steps, vars, request, h) == HeightOne(steps[0], vars, request, h)
  {
  }

  /** what a list comes to once its first step has completed */
  lemma ListGoesOn(steps: seq<FlowStep>, vars: Context, request: Context, h: Handler)
    requires steps != [] && RunOne(steps[0], vars, request, h).ok
    ensures
      var e := RunOne(steps[0], vars, request, h);
      var r := RunAll(steps[1..], e.vars, request, h);
      && RunAll(steps, vars, request, h) == Effect(r.vars, e.log + r.log, r.ok)
      && CostAll(steps, vars, request, h) == CostOne(steps[0], vars, request, h) + CostAll(steps[1..], e.vars, request, h)
      && HeightAll(steps, vars, request, h)
         == Max(HeightOne(steps[0], vars, request, h), HeightAll(steps[1..], e.vars, request, h))
  {
  }

  /** the effect, cost and height of the rest of a list after i members, from the next member's */
  lemma MemberEffect(steps: seq<FlowStep>, i: nat, vars: Context, request: Context, h: Handler, before: seq<string>)
    requires i < |steps|
    ensures
      var e := RunOne(steps[i], vars, request, h);
      var whole := RunAll(steps[i..], vars, request, h);
      var r := RunAll(steps[i + 1..], e.vars, request, h);
      && (e.ok ==> Effect(whole.vars, before + whole.log, whole.ok) == Effect(r.vars, before + e.log + r.log, r.ok))
      && (!e.ok ==> whole == e)
      && CostAll(steps[i..], vars, request, h)
         == CostOne(steps[i], vars, request, h) + (if e.ok then CostAll(steps[i + 1..], e.vars, request, h) else 0)
      && HeightAll(steps[i..], vars, request, h)
         == Max(HeightOne(steps[i], vars, request, h), if e.ok then HeightAll(steps[i + 1..], e.vars, request, h) else 0)
  {
    hide RunOne, CostOne, HeightOne, RunAll, CostAll, HeightAll;
    var e := RunOne(steps[i], vars, request, h);
    assert steps[i..][0] == steps[i] && steps[i..][1..] == steps[i + 1..];
    if e.ok {
      ListGoesOn(steps[i..], vars, request, h);
      var r := RunAll(steps[i + 1..], e.vars, request, h);
      assert before + (e.log + r.log) == before + e.log + r.log;
    } else {
      ListStops(steps[i..], vars, request, h);
    }
  }

  lemma LogGrows(start: seq<string>, mid: seq<string>, now: seq<string>, all: seq<string>)
    requires start <= mid <= now && now[|mid|..] <= all
    ensures now[|start|..] == mid[|start|..] + now[|mid|..]
    ensures now[|start|..] <= mid[|start|..] + all
  {
    assert now == mid + now[|mid|..];
  }

  /** RunFlow below the top: one level for the list, one step for each member run */
  method RunSteps(steps: seq<FlowStep>, ctx: FlowContext, b: Budget, depth: int) returns (failure: Option<Failure>)
    requires b.nesting >= 0
    modifies ctx, b
    ensures old(ctx.log) <= ctx.log
    ensures Refines(failure, RunAll(steps, old(ctx.vars), ctx.request, ctx.handler),
                    b.Allows(old(b.steps), old(b.nesting), depth,
                             CostAll(steps, old(ctx.vars), ctx.request, ctx.handler),
                             HeightAll(steps, old(ctx.vars), ctx.request, ctx.handler)),
                    ctx.vars, ctx.log[|old(ctx.log)|..])
    ensures !(failure.Some? && failure.value.Exceeded?) ==>
              b.steps == old(b.steps) + CostAll(steps, old(ctx.vars), ctx.request, ctx.handler)
    ensures b.nesting == old(b.nesting) + (if failure == Some(Exceeded(Nesting)) then 1 else 0)
    decreases steps, 1
  {
    var e := b.Enter(depth);
    if e.Some? {
      return Some(Exceeded(e.value));
    }
    failure := RunMembers(steps, ctx, b, depth);
    b.Exit();
  }

  /** the loop of runSteps */
  method RunMembers(steps: seq<FlowStep>, ctx: FlowContext, b: Budget, depth: int) returns (failure: Option<Failure>)
    requires b.nesting >= 1 && b.LevelsLeft(b.nesting - 1, depth, 0)
    modifies ctx, b
    ensures old(ctx.log) <= ctx.log
    ensures Refines(failure, RunAll(steps, old(ctx.vars), ctx.request, ctx.handler),
                    b.Allows(old(b.steps), old(b.nesting) - 1, depth,
                             CostAll(steps, old(ctx.vars), ctx.request, ctx.handler),
                             HeightAll(steps, old(ctx.vars), ctx.request, ctx.handler)),
                    ctx.vars, ctx.log[|old(ctx.log)|..])
    ensures !(failure.Some? && failure.value.Exceeded?) ==>
              b.steps == old(b.steps) + CostAll(steps, old(ctx.vars), ctx.request, ctx.handler)
    ensures b.nesting == old(b.nesting) + (if failure == Some(Exceeded(Nesting)) then 1 else 0)
    decreases steps, 0
  {
    hide RunOne, CostOne, HeightOne, Budget.StepsLeft, Budget.LevelsLeft, RunAll, CostAll, HeightAll;
    ghost var whole := RunAll(steps, ctx.vars, ctx.request, ctx.handler);
    ghost var cost := CostAll(steps, ctx.vars, ctx.request, ctx.handler);
    ghost var tall := HeightAll(steps, ctx.vars, ctx.request, ctx.handler);
    ghost var spent: nat, height: nat := 0, 0;
    NothingSpent(b, b.steps);
    var i := 0;
    assert steps[0..] == steps;
    while i < |steps|
      invariant 0 <= i <= |steps| && b.nesting == old(b.nesting) && b.steps == old(b.steps) + spent
      invariant old(ctx.log) <= ctx.log
      invariant
        var r := RunAll(steps[i..], ctx.vars, ctx.request, ctx.handler);
        whole == Effect(r.vars, ctx.log[|old(ctx.log)|..] + r.log, r.ok)
      invariant cost == spent + CostAll(steps[i..], ctx.vars, ctx.request, ctx.handler)
      invariant tall == Max(height, HeightAll(steps[i..], ctx.vars, ctx.request, ctx.handler))
      invariant b.StepsLeft(old(b.steps), spent) && b.LevelsLeft(old(b.nesting) - 1, depth, height)
    {
      ghost var vars1, log1 := ctx.vars, ctx.log;
      ghost var e := RunOne(steps[i], vars1, ctx.request, ctx.handler);
      ghost var c, t := CostOne(steps[i], vars1, ctx.request, ctx.handler), HeightOne(steps[i], vars1, ctx.request, ctx.handler);
      MemberEffect(steps, i, vars1, ctx.request, ctx.handler, log1[|old(ctx.log)|..]);
      Progress(b, old(b.steps), old(b.nesting) - 1, depth, spent, c, cost, height, t, tall);
      failure := RunStep(steps[i], ctx, b, depth);
      LogGrows(old(ctx.log), log1, ctx.log, e.log);
      if failure.Some? {
        return;
      }
      spent, height := spent + c, Max(height, t);
      i := i + 1;
    }
    assert steps[i..] == [];
    EmptyList(ctx.vars, ctx.request, ctx.handler);
    failure := None;
  }

  /** RunFlow: whatever it returns, the operations it ran are a subsequence of the
      flow as written, so no operation runs more often than it is written */
  method RunFlow(steps: seq<FlowStep>, ctx: FlowContext, b: Budget) returns (failure: Option<Failure>)
    requires b.nesting >= 0
    modifies ctx, b
    ensures old(ctx.log) <= ctx.log && Subsequence(ctx.log[|old(ctx.log)|..], Preorder(steps))
    ensures failure.None? ==>
              var e := RunAll(steps, old(ctx.vars), ctx.request, ctx.handler);
              && e.ok && ctx.vars == e.vars && ctx.log == old(ctx.log) + e.log
              && b.steps == old(b.steps) + CostAll(steps, old(ctx.vars), ctx.request, ctx.handler)
    ensures failure != Some(Exceeded(Nesting)) ==> b.nesting == old(b.nesting)
  {
    ghost var e := RunAll(steps, ctx.vars, ctx.request, ctx.handler);
    LogWritten(steps, ctx.vars, ctx.request, ctx.handler);
    failure := RunSteps(steps, ctx, b, 0);
    SubsequencePrefix(ctx.log[|old(ctx.log)|..], e.log, Preorder(steps));
  }
}
