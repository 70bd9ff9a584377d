/**
 What conditions and flows answer, said of the values compared: the order
 operators against each other, lists against their items, branches against
 their conditions.
 */
module ConditionLaws {
  import opened Numbers
  import opened NumberValues
  import opened Json
  import opened RuleConditions
  import opened RuleFlows

  // ---------------------------------------------------------------------
  // Paths
  // ---------------------------------------------------------------------

  lemma {:induction false} ResolveLast(v: Json, path: seq<string>, k: string)
    ensures Resolve(v, path + [k]) ==
      var inner := Resolve(v, path);
      if inner.Some? && inner.value.Obj? && k in inner.value.fields then Some(inner.value.fields[k]) else None
  {
    var whole := path + [k];
    if path == [] {
      assert whole == [k] && whole[1..] == [];
    } else {
      assert whole[0] == path[0] && whole[1..] == path[1..] + [k];
      if v.Obj? && path[0] in v.fields {
        ResolveLast(v.fields[path[0]], path[1..], k);
      }
    }
  }

  /** A path looks up its first name in the context and each further name in the object so far. */
  lemma {:induction false} LookupByName(ctx: Context, path: seq<string>, k: string)
    ensures Lookup(ctx, []) == None
    ensures Lookup(ctx, [k]) == if k in ctx then Some(ctx[k]) else None
    ensures path != [] ==>
      Lookup(ctx, path + [k]) ==
      var inner := Lookup(ctx, path);
      if inner.Some? && inner.value.Obj? && k in inner.value.fields then Some(inner.value.fields[k]) else None
  {
    ResolveLast(Obj(ctx), path, k);
    ResolveLast(Obj(ctx), [], k);
    assert [] + [k] == [k];
  }

  // ---------------------------------------------------------------------
  // Comparisons
  // ---------------------------------------------------------------------

  /** the answer of one comparison of what stands at a path */
  function Ask(ctx: Context, op: LeafOp, path: seq<string>, want: Json): Answer {
    Meaning(Leaf(op, path, want, []), ctx)
  }

  /** On two numbers exactly one of "less", "equal" and "greater" answers yes,
      as their values say; the others are their combinations. */
  lemma {:induction false} NumbersCompare(ctx: Context, path: seq<string>, got: Number, want: Number)
    requires Lookup(ctx, path) == Some(Num(got))
    ensures
      var w := Num(want);
      && (Ask(ctx, Lt, path, w) == Yes <==> got.Value() < want.Value())
      && (Ask(ctx, Eq, path, w) == Yes <==> got.Value() == want.Value())
      && (Ask(ctx, Gt, path, w) == Yes <==> got.Value() > want.Value())
      && (Ask(ctx, Lte, path, w) == Yes <==> Ask(ctx, Lt, path, w) == Yes || Ask(ctx, Eq, path, w) == Yes)
      && (Ask(ctx, Gte, path, w) == Yes <==> Ask(ctx, Gt, path, w) == Yes || Ask(ctx, Eq, path, w) == Yes)
      && (Ask(ctx, Neq, path, w) == Yes <==> Ask(ctx, Eq, path, w) == No)
    ensures forall op: LeafOp :: !op.In? && !op.Between? ==> !Ask(ctx, op, path, Num(want)).Failed?
  {
    NumberUnique(got, want);
    hide Decimal.Value, Lookup;
  }

  /** "in" answers yes exactly when "equal" does for one of the values listed, and fails only off a list. */
  lemma {:induction false} InIsSomeEqual(ctx: Context, path: seq<string>, items: seq<Json>)
    requires Lookup(ctx, path).Some?
    ensures Ask(ctx, In, path, Arr(items)) == Yes <==> exists x :: x in items && Ask(ctx, Eq, path, x) == Yes
    ensures !Ask(ctx, In, path, Arr(items)).Failed?
  {
    hide Lookup;
    var got := Lookup(ctx, path).value;
    if Ask(ctx, In, path, Arr(items)) == Yes {
      var i :| 0 <= i < |items| && !items[i].Null? && items[i] == got;
      assert items[i] in items && Ask(ctx, Eq, path, items[i]) == Yes;
    }
    if x :| x in items && Ask(ctx, Eq, path, x) == Yes {
      var i :| 0 <= i < |items| && items[i] == x;
    }
  }

  /** "between" two numbers answers yes exactly when "at least" the first and "at most" the second do. */
  lemma {:induction false} BetweenIsBoth(ctx: Context, path: seq<string>, want: Json, got: Number, lo: Number, hi: Number)
    requires Lookup(ctx, path) == Some(Num(got))
    ensures Meaning(Leaf(Between, path, want, [Finite(lo), Finite(hi)]), ctx) == Yes <==>
            Ask(ctx, Gte, path, Num(lo)) == Yes && Ask(ctx, Lte, path, Num(hi)) == Yes
  {
    hide Lookup, Decimal.Value;
  }

  /** Null matches nothing: no comparison with it or of it answers yes. */
  lemma {:induction false} NullMatchesNothing(ctx: Context, path: seq<string>, op: LeafOp, want: Json, window: seq<WindowBound>)
    requires Lookup(ctx, path) == Some(Null)
    ensures Meaning(Leaf(op, path, want, window), ctx) != Yes
    ensures Meaning(IsNull(path), ctx) == Yes
  {
    hide Lookup;
  }

  /** What is absent or null is null, and nothing else. */
  lemma {:induction false} NullTest(ctx: Context, path: seq<string>)
    ensures Meaning(IsNull(path), ctx) == if Lookup(ctx, path) == None || Lookup(ctx, path) == Some(Null) then Yes else No
  {
    hide Lookup;
  }

  // ---------------------------------------------------------------------
  // Lists of conditions
  // ---------------------------------------------------------------------

  /** the first item that answers other than on */
  predicate FirstOther(items: seq<Condition>, ctx: Context, on: Answer, i: int) {
    0 <= i < |items| && Meaning(items[i], ctx) != on && forall j :: 0 <= j < i ==> Meaning(items[j], ctx) == on
  }

  lemma {:induction false} ListAnswers(items: seq<Condition>, ctx: Context, on: Answer)
    ensures (forall i :: 0 <= i < |items| ==> Meaning(items[i], ctx) == on) ==> ListOf(items, ctx, on) == on
    ensures forall i :: FirstOther(items, ctx, on, i) ==> ListOf(items, ctx, on) == Meaning(items[i], ctx)
  {
    hide Meaning;
    if items != [] {
      var tail := items[1..];
      ListAnswers(tail, ctx, on);
      assert forall i :: 0 <= i < |tail| ==> tail[i] == items[i + 1];
      forall i | FirstOther(items, ctx, on, i) ensures ListOf(items, ctx, on) == Meaning(items[i], ctx) {
        if i > 0 {
          assert Meaning(items[0], ctx) == on;
          assert FirstOther(tail, ctx, on, i - 1);
        }
      }
    }
  }

  /** "And" answers yes when all its items do, otherwise what its first other
      item answers; "or" answers no when all do, otherwise likewise. */
  lemma {:induction false} AllAndAny(items: seq<Condition>, ctx: Context)
    ensures (forall i :: 0 <= i < |items| ==> Meaning(items[i], ctx) == Yes) ==> Meaning(All(items), ctx) == Yes
    ensures forall i :: FirstOther(items, ctx, Yes, i) ==> Meaning(All(items), ctx) == Meaning(items[i], ctx)
    ensures (forall i :: 0 <= i < |items| ==> Meaning(items[i], ctx) == No) ==> Meaning(Any(items), ctx) == No
    ensures forall i :: FirstOther(items, ctx, No, i) ==> Meaning(Any(items), ctx) == Meaning(items[i], ctx)
  {
    ListAnswers(items, ctx, Yes);
    ListAnswers(items, ctx, No);
    assert Meaning(All(items), ctx) == ListOf(items, ctx, Yes) && Meaning(Any(items), ctx) == ListOf(items, ctx, No);
    hide Meaning, ListOf;
  }

  function Negated(items: seq<Condition>): seq<Condition> {
    seq(|items|, i requires 0 <= i < |items| => Not([items[i]]))
  }

  lemma {:induction false} ListNegated(items: seq<Condition>, ctx: Context, on: Answer)
    requires on.Yes? || on.No?
    ensures
      var a, b := ListOf(items, ctx, on), ListOf(Negated(items), ctx, Truth(on.No?));
      b == if a.Failed? then a else Truth(a.No?)
  {
    if items != [] {
      ListNegated(items[1..], ctx, on);
      assert Negated(items)[1..] == Negated(items[1..]);
      assert Meaning(Negated(items)[0], ctx) == Meaning(Not([items[0]]), ctx);
    }
  }

  /** Negation passes through lists, failures included. */
  lemma {:induction false} DeMorgan(items: seq<Condition>, ctx: Context)
    ensures Meaning(Not([All(items)]), ctx) == Meaning(Any(Negated(items)), ctx)
    ensures Meaning(Not([Any(items)]), ctx) == Meaning(All(Negated(items)), ctx)
  {
    ListNegated(items, ctx, Yes);
    ListNegated(items, ctx, No);
  }

  // ---------------------------------------------------------------------
  // Flows
  // ---------------------------------------------------------------------

  /** Running two flows end to end is running the second from where the first left off. */
  lemma {:induction false} FlowsCompose(a: seq<FlowStep>, b: seq<FlowStep>, vars: Context, request: Context, h: Handler)
    ensures
      var first := RunAll(a, vars, request, h);
      RunAll(a + b, vars, request, h) ==
      if !first.ok then first
      else
        var second := RunAll(b, first.vars, request, h);
        Effect(second.vars, first.log + second.log, second.ok)
    decreases |a|
  {
    hide RunOne;
    if a == [] {
      assert a + b == b;
      var second := RunAll(b, vars, request, h);
      assert [] + second.log == second.log;
    } else {
      var e := RunOne(a[0], vars, request, h);
      assert (a + b)[0] == a[0] && (a + b)[1..] == a[1..] + b;
      if e.ok {
        FlowsCompose(a[1..], b, e.vars, request, h);
        var first := RunAll(a[1..], e.vars, request, h);
        if first.ok {
          var second := RunAll(b, first.vars, request, h);
          assert e.log + (first.log + second.log) == e.log + first.log + second.log;
        }
      }
    }
  }

  /** A branch runs its first list when its condition answers yes over the
      variables and the request, its second when it answers no, and nothing when it fails. */
  lemma {:induction false} BranchTaken(c: Condition, t: seq<FlowStep>, e: seq<FlowStep>, vars: Context, request: Context, h: Handler)
    ensures
      var ctx := vars["request" := Obj(request)];
      var run := RunOne(If(c, t, e), vars, request, h);
      && (Meaning(c, ctx) == Yes ==> run == RunAll(t, vars, request, h))
      && (Meaning(c, ctx) == No ==> run == RunAll(e, vars, request, h))
      && (Meaning(c, ctx).Failed? ==> run == Effect(vars, [], false))
  {
    hide Meaning, RunAll;
  }

  /** An operation is called once; its output replaces the variables it names, an error stops the flow. */
  lemma {:induction false} OperationRuns(name: string, rest: seq<FlowStep>, vars: Context, request: Context, h: Handler)
    ensures
      var out := h(name, vars, request);
      var run := RunAll([Op(name)] + rest, vars, request, h);
      if out.None? then run == Effect(vars, [name], false)
      else
        var after := RunAll(rest, map k | k in vars.Keys + out.value.Keys :: if k in out.value then out.value[k] else vars[k], request, h);
        run == Effect(after.vars, [name] + after.log, after.ok)
  {
    var steps := [Op(name)] + rest;
    assert steps[0] == Op(name) && steps[1..] == rest;
    var out := h(name, vars, request);
    if out.Some? {
      assert vars + out.value == map k | k in vars.Keys + out.value.Keys :: if k in out.value then out.value[k] else vars[k];
    }
  }
}
