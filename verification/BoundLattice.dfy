/**
 The order structure of Bounds: containment is a preorder that is sound for
 acceptance, and the meet is the greatest lower bound in it and accepts exactly
 what both sides accept.
 */
module BoundLattice {
  import opened Numbers
  import opened Basics
  import opened Binary64
  import opened Json
  import opened Caps
  import opened Bounds

  // ---------------------------------------------------------------------
  // The step rule
  // ---------------------------------------------------------------------

  /** a step on which the rule is plain divisibility */
  predicate WholeStep(step: Number) {
    Whole(Float(step)) && Abs(Float(step)) <= MAX_INTEGER as real
  }

  /** only the step tests of a Bound, everything else aside */
  predicate StepsHold(v: Json, b: Bound) {
    if b.nested.Fields? then
      v.Obj? ==> forall k :: k in b.nested.fields && k in v.fields ==> StepsHold(v.fields[k], b.nested.fields[k])
    else b.step.Some? && v.Num? ==> IsMultipleOf(v.n, b.step.value)
  }

  /** the finer of two steps is a power of two */
  predicate FinerIsPower(a: Number, b: Number) {
    && Interoperable(Float(a)) && Interoperable(Float(b))
    && ((Float(a) <= Float(b) && PowerOfTwo(Float(a))) || (Float(b) <= Float(a) && PowerOfTwo(Float(b))))
  }

  /** two steps between which the rule composes */
  predicate Aligned(a: Option<Number>, b: Option<Number>) {
    a.Some? && b.Some? ==> a == b || (WholeStep(a.value) && WholeStep(b.value)) || FinerIsPower(a.value, b.value)
  }

  /** wherever both Bounds declare a step, the steps are equal, both whole, or the finer is a power of two */
  predicate Commensurable(a: Bound, b: Bound) {
    && Aligned(a.step, b.step)
    && (a.nested.Fields? && b.nested.Fields? ==>
         forall k :: k in a.nested.fields && k in b.nested.fields ==> Commensurable(a.nested.fields[k], b.nested.fields[k]))
  }

  lemma StepReflexive(step: Number)
    requires Float(step) > 0.0
    ensures IsMultipleOf(step, step)
  {
    hide Round, MultipleOf;
    RoundIdempotent(step.Value());
    MultipleReflexive(Float(step));
  }

  /** a multiple of a positive step is at least that step */
  lemma MultipleAtLeast(a: Number, b: Number)
    requires Float(a) > 0.0 && Float(b) > 0.0 && IsMultipleOf(a, b)
    ensures Float(a) >= Float(b)
  {
    hide Round;
    RoundIdempotent(b.Value());
    PositiveMultiple(Float(a), Float(b));
  }

  lemma PowerIsPositive(x: real)
    requires PowerOfTwo(x)
    ensures x > 0.0
  {
  }

  lemma StepUnderPower(v: Number, s: Number, t: Number)
    requires IsMultipleOf(v, s) && IsMultipleOf(s, t) && Interoperable(Float(v)) && FinerIsPower(s, t)
    ensures IsMultipleOf(v, t)
  {
    hide Round, MultipleOf, PowerOfTwo, Interoperable;
    PowerIsPositive(if Float(s) <= Float(t) && PowerOfTwo(Float(s)) then Float(s) else Float(t));
    MultipleAtLeast(s, t);
    RoundIdempotent(v.Value());
    PowerTransitive(Float(v), Float(s), Float(t));
  }

  /** On aligned steps the rule is transitive. */
  lemma StepTransitive(v: Number, s: Number, t: Number)
    requires IsMultipleOf(v, s) && IsMultipleOf(s, t) && Interoperable(Float(v))
    requires Aligned(Some(s), Some(t))
    ensures IsMultipleOf(v, t)
  {
    if s != t {
      if WholeStep(s) && WholeStep(t) {
        assert Float(s) != 0.0 && Float(t) != 0.0;
        hide MultipleOf, Float;
        WholeMultipleTransitive(Float(v), Float(s).Floor, Float(t).Floor);
      } else {
        hide WholeStep, IsMultipleOf, FinerIsPower;
        StepUnderPower(v, s, t);
      }
    }
  }

  // ---------------------------------------------------------------------
  // Containment
  // ---------------------------------------------------------------------

  lemma {:induction false} WithinReflexive(b: Bound)
    requires ValidBound(b)
    ensures BoundWithin(b, b)
  {
    hide IsMultipleOf, Float;
    if b.step.Some? {
      StepReflexive(b.step.value);
    }
    if b.nested.Fields? {
      forall k | k in b.nested.fields ensures BoundWithin(b.nested.fields[k], b.nested.fields[k]) {
        WithinReflexive(b.nested.fields[k]);
      }
    }
  }

  /** only the step tests of containment */
  predicate StepsWithin(c: Bound, p: Bound)
    decreases p
  {
    && CoarserStep(c.step, p.step)
    && (p.nested.Fields? && c.nested.Fields? ==>
         forall k :: k in p.nested.fields && k in c.nested.fields ==> StepsWithin(c.nested.fields[k], p.nested.fields[k]))
  }

  /** Containment composes in all but its step tests, whatever the steps. */
  lemma {:induction false} WithinTransitive(a: Bound, b: Bound, c: Bound)
    requires BoundWithin(a, b) && BoundWithin(b, c)
    ensures BoundWithin(a, c) <==> StepsWithin(a, c)
    ensures Commensurable(a, b) && Commensurable(b, c) ==> BoundWithin(a, c)
    decreases c
  {
    hide IsMultipleOf, WholeStep, FinerIsPower, Float;
    if c.step.Some? && Aligned(a.step, b.step) && Aligned(b.step, c.step) {
      StepsCompose(a.step.value, b.step.value, c.step.value);
    }
    if c.nested.Fields? {
      forall k | k in c.nested.fields
        ensures
          var x, y, z := a.nested.fields[k], b.nested.fields[k], c.nested.fields[k];
          && (BoundWithin(x, z) <==> StepsWithin(x, z))
          && (Commensurable(x, y) && Commensurable(y, z) ==> BoundWithin(x, z))
      {
        WithinTransitive(a.nested.fields[k], b.nested.fields[k], c.nested.fields[k]);
      }
    }
  }

  lemma StepsCompose(a: Number, b: Number, c: Number)
    requires IsMultipleOf(a, b) && IsMultipleOf(b, c) && Aligned(Some(a), Some(b)) && Aligned(Some(b), Some(c))
    ensures IsMultipleOf(a, c)
  {
    hide MultipleOf, Float;
    if a != b {
      StepTransitive(a, b, c);
    }
  }

  lemma EnumWithin(v: Json, c: seq<Json>, p: seq<Json>)
    requires InEnum(v, c) && forall i :: 0 <= i < |c| ==> Member(c[i], p)
    ensures InEnum(v, p)
  {
    assert Member(c[0], p);
    forall i | 0 <= i < |Elements(v)| ensures Member(Elements(v)[i], p) {
      var j :| 0 <= j < |c| && c[j] == Elements(v)[i];
      assert Member(c[j], p);
    }
  }

  /** acceptance with the step tests left out */
  predicate Loose(v: Json, b: Bound) {
    && (b.members.Some? ==> InEnum(v, b.members.value))
    && CountAtLeast(v, b.minItems)
    && CountAtMost(v, b.maxItems)
    && if b.nested.Fields? then
         && v.Obj?
         && (forall k :: k in b.nested.fields ==>
              if k in v.fields then Loose(v.fields[k], b.nested.fields[k]) else b.nested.fields[k].IsOptional())
         && (forall k :: k in v.fields ==> k in b.nested.fields)
       else b.HasNumeric() ==>
         && v.Num?
         && (b.min.Some? ==> AtMost(b.min.value, v.n))
         && (b.max.Some? ==> AtMost(v.n, b.max.value))
  }

  /** A Bound accepts a value exactly when it does so apart from steps and the step tests pass. */
  lemma {:induction false} LooseAndSteps(v: Json, b: Bound)
    ensures BoundSubset(v, b) <==> Loose(v, b) && StepsHold(v, b)
    decreases b
  {
    hide IsMultipleOf, AtMost, InEnum, CountAtLeast, CountAtMost;
    if b.nested.Fields? && v.Obj? {
      forall k | k in b.nested.fields && k in v.fields
        ensures BoundSubset(v.fields[k], b.nested.fields[k]) <==>
                Loose(v.fields[k], b.nested.fields[k]) && StepsHold(v.fields[k], b.nested.fields[k])
      {
        LooseAndSteps(v.fields[k], b.nested.fields[k]);
      }
      NestedSplit(v.fields, b);
    }
  }

  lemma NestedSplit(o: map<string, Json>, b: Bound)
    requires b.nested.Fields?
    requires forall k :: k in b.nested.fields && k in o ==>
      (BoundSubset(o[k], b.nested.fields[k]) <==> Loose(o[k], b.nested.fields[k]) && StepsHold(o[k], b.nested.fields[k]))
    ensures NestedSubset(o, b) <==>
      && StepsHold(Obj(o), b)
      && (forall k :: k in b.nested.fields ==>
           if k in o then Loose(o[k], b.nested.fields[k]) else b.nested.fields[k].IsOptional())
      && (forall k :: k in o ==> k in b.nested.fields)
  {
    hide BoundSubset, Loose, IsMultipleOf;
  }

  lemma AcceptedSteps(v: Json, b: Bound)
    requires BoundSubset(v, b)
    ensures StepsHold(v, b)
  {
    hide BoundSubset, Loose, StepsHold;
    LooseAndSteps(v, b);
  }

  /** Containment carries acceptance apart from steps. */
  lemma {:induction false} WithinLoose(v: Json, c: Bound, p: Bound)
    requires ValidBound(c) && BoundWithin(c, p) && Loose(v, c)
    ensures Loose(v, p)
    decreases p
  {
    hide IsMultipleOf, Float;
    if p.members.Some? {
      EnumWithin(v, c.members.value, p.members.value);
    }
    if p.nested.Fields? {
      forall k | k in p.nested.fields
        ensures if k in v.fields then Loose(v.fields[k], p.nested.fields[k]) else p.nested.fields[k].IsOptional()
      {
        assert k in c.nested.fields;
        if k in v.fields {
          WithinLoose(v.fields[k], c.nested.fields[k], p.nested.fields[k]);
        }
      }
    }
  }

  /** A value a Bound accepts is accepted by every Bound it is within exactly
      when it passes that Bound's own step tests. */
  lemma {:induction false} WithinSound(v: Json, c: Bound, p: Bound)
    requires ValidBound(c) && BoundWithin(c, p) && BoundSubset(v, c)
    ensures BoundSubset(v, p) <==> StepsHold(v, p)
  {
    hide BoundSubset, Loose, StepsHold, ValidBound, BoundWithin;
    LooseAndSteps(v, c);
    LooseAndSteps(v, p);
    WithinLoose(v, c, p);
  }

  /** On commensurable steps the outer Bound's step tests follow, so acceptance carries. */
  lemma {:induction false} StepsCarry(v: Json, c: Bound, p: Bound)
    requires ValidBound(c) && BoundWithin(c, p) && Commensurable(c, p) && StepsHold(v, c) && InRange(v)
    ensures StepsHold(v, p)
    decreases p
  {
    hide IsMultipleOf, Float, WholeStep, Interoperable;
    if p.nested.Fields? {
      if v.Obj? {
        forall k | k in p.nested.fields && k in v.fields ensures StepsHold(v.fields[k], p.nested.fields[k]) {
          StepsCarry(v.fields[k], c.nested.fields[k], p.nested.fields[k]);
        }
      }
    } else if p.step.Some? && v.Num? {
      StepTransitive(v.n, c.step.value, p.step.value);
    }
  }

  // ---------------------------------------------------------------------
  // Meet
  // ---------------------------------------------------------------------

  /** one Bound is below two others, and everything below both is below it */
  ghost predicate IsGreatestLower(m: Bound, a: Bound, b: Bound) {
    && BoundWithin(m, a) && BoundWithin(m, b)
    && forall c :: BoundWithin(c, a) && BoundWithin(c, b) ==> BoundWithin(c, m)
  }

  /** apart from steps, m accepts exactly what both accept */
  ghost predicate AcceptsBoth(m: Bound, a: Bound, b: Bound) {
    forall v :: Loose(v, m) <==> Loose(v, a) && Loose(v, b)
  }

  /** Meet laws for one pair of Bounds, as the induction below carries them. */
  ghost predicate MeetLaws(a: Bound, b: Bound) {
    var m := BoundMeet(a, b);
    m.Some? ==> ValidBound(m.value) && IsGreatestLower(m.value, a, b) && AcceptsBoth(m.value, a, b)
  }

  function BothOptional(a: Bound, b: Bound): Option<bool> {
    if a.IsOptional() && b.IsOptional() then Some(true) else None
  }

  ghost predicate StepShape(m: Option<Number>, a: Option<Number>, b: Option<Number>) {
    if a.None? then m == b
    else if b.None? then m == a
    else (m == a && IsMultipleOf(a.value, b.value)) || (m == b && IsMultipleOf(b.value, a.value))
  }

  // Numeric family

  ghost predicate NumericShape(m: Bound, a: Bound, b: Bound) {
    && m == Bound(BothOptional(a, b), Greater(a.min, b.min), Lesser(a.max, b.max), m.step, None, None, None, NoNested)
    && Ordered(m.min, m.max) && StepShape(m.step, a.step, b.step)
  }

  lemma NumericMeetShape(a: Bound, b: Bound, m: Bound)
    requires a.HasNumeric() && b.HasNumeric() && OneFamily(a) && OneFamily(b)
    requires BoundMeet(a, b) == Some(m)
    ensures NumericShape(m, a, b)
  {
    hide IsMultipleOf, AtMost;
  }

  lemma NumericLower(a: Bound, b: Bound, m: Bound)
    requires ValidBound(a) && ValidBound(b) && a.HasNumeric() && b.HasNumeric() && NumericShape(m, a, b)
    ensures ValidBound(m) && BoundWithin(m, a) && BoundWithin(m, b)
  {
    hide IsMultipleOf, Decimal.Value, Float;
    if a.step.Some? { StepReflexive(a.step.value); }
    if b.step.Some? { StepReflexive(b.step.value); }
  }

  lemma NumericGreatest(a: Bound, b: Bound, m: Bound, c: Bound)
    requires NumericShape(m, a, b) && BoundWithin(c, a) && BoundWithin(c, b)
    ensures BoundWithin(c, m)
  {
    hide IsMultipleOf, Decimal.Value;
  }

  lemma NumericAccepts(a: Bound, b: Bound, m: Bound, v: Json)
    requires ValidBound(a) && ValidBound(b) && a.HasNumeric() && b.HasNumeric() && NumericShape(m, a, b)
    ensures Loose(v, m) <==> Loose(v, a) && Loose(v, b)
  {
    hide IsMultipleOf, Decimal.Value, Float;
  }

  // Enum family

  ghost predicate MembersShape(m: Option<seq<Json>>, a: Option<seq<Json>>, b: Option<seq<Json>>) {
    if a.None? then m == b
    else if b.None? then m == a
    else m.Some? && m.value != [] && forall x :: x in m.value <==> x in a.value && x in b.value
  }

  ghost predicate EnumShape(m: Bound, a: Bound, b: Bound) {
    && m == Bound(BothOptional(a, b), None, None, None, m.members,
                  Greater(a.minItems, b.minItems), Lesser(a.maxItems, b.maxItems), NoNested)
    && Ordered(m.minItems, m.maxItems) && MembersShape(m.members, a.members, b.members)
  }

  lemma EnumMeetShape(a: Bound, b: Bound, m: Bound)
    requires a.HasEnum() && b.HasEnum() && OneFamily(a) && OneFamily(b)
    requires BoundMeet(a, b) == Some(m)
    ensures EnumShape(m, a, b)
  {
    hide AtMost, CanonicalMembers, Filter;
  }

  lemma EnumLower(a: Bound, b: Bound, m: Bound)
    requires ValidBound(a) && ValidBound(b) && a.HasEnum() && b.HasEnum() && EnumShape(m, a, b)
    ensures ValidBound(m) && BoundWithin(m, a) && BoundWithin(m, b)
  {
    hide Decimal.Value, Truncate;
  }

  lemma EnumGreatest(a: Bound, b: Bound, m: Bound, c: Bound)
    requires EnumShape(m, a, b) && BoundWithin(c, a) && BoundWithin(c, b)
    ensures BoundWithin(c, m)
  {
    hide Decimal.Value;
  }

  lemma EnumAccepts(a: Bound, b: Bound, m: Bound, v: Json)
    requires ValidBound(a) && ValidBound(b) && a.HasEnum() && b.HasEnum() && EnumShape(m, a, b)
    ensures Loose(v, m) <==> Loose(v, a) && Loose(v, b)
  {
    hide Decimal.Value, Cardinality;
    if a.members.Some? && b.members.Some? {
      InBothEnums(v, a.members.value, b.members.value, m.members.value);
    }
    hide InEnum;
  }

  lemma InBothEnums(v: Json, a: seq<Json>, b: seq<Json>, m: seq<Json>)
    requires m != [] && forall x :: x in m <==> x in a && x in b
    ensures InEnum(v, m) <==> InEnum(v, a) && InEnum(v, b)
  {
    assert m[0] in a && m[0] in b;
  }

  // Nested family

  ghost predicate NestedShape(m: Bound, a: Bound, b: Bound) {
    && a.nested.Fields? && b.nested.Fields? && m.nested.Fields?
    && m == EMPTY.(optional := BothOptional(a, b), nested := m.nested)
    && a.nested.fields.Keys == b.nested.fields.Keys == m.nested.fields.Keys
    && forall k :: k in a.nested.fields ==>
         BoundMeet(a.nested.fields[k], b.nested.fields[k]) == Some(m.nested.fields[k])
  }

  lemma NestedMeetShape(a: Bound, b: Bound, m: Bound)
    requires a.HasNested() && b.HasNested() && OneFamily(a) && OneFamily(b)
    requires BoundMeet(a, b) == Some(m)
    ensures NestedShape(m, a, b)
  {
    hide NestedMeet;
    assert NestedMeet(a, b).Some? && m == NestedMeet(a, b).value.(optional := BothOptional(a, b));
    hide BoundMeet;
    NestedMeetFields(a, b, NestedMeet(a, b).value);
  }

  lemma NestedMeetFields(a: Bound, b: Bound, x: Bound)
    requires a.HasNested() && b.HasNested() && NestedMeet(a, b) == Some(x)
    ensures x == EMPTY.(nested := x.nested) && x.nested.Fields?
    ensures a.nested.fields.Keys == b.nested.fields.Keys == x.nested.fields.Keys
    ensures forall k :: k in a.nested.fields ==>
      BoundMeet(a.nested.fields[k], b.nested.fields[k]) == Some(x.nested.fields[k])
  {
    hide BoundMeet;
    SameKeySets(a.nested.fields, b.nested.fields);
  }

  ghost predicate NestedLaws(a: Bound, b: Bound) {
    a.nested.Fields? && b.nested.Fields? ==>
      forall k :: k in a.nested.fields && k in b.nested.fields ==> MeetLaws(a.nested.fields[k], b.nested.fields[k])
  }

  lemma NestedBelow(m: Bound, p: Bound)
    requires m.nested.Fields? && p.nested.Fields? && m.nested.fields.Keys == p.nested.fields.Keys && OneFamily(p)
    requires m.IsOptional() ==> p.IsOptional()
    requires forall k :: k in p.nested.fields ==> BoundWithin(m.nested.fields[k], p.nested.fields[k])
    ensures BoundWithin(m, p)
  {
  }

  lemma NestedLower(a: Bound, b: Bound, m: Bound)
    requires NestedShape(m, a, b) && NestedLaws(a, b) && OneFamily(a) && OneFamily(b)
    ensures ValidBound(m) && BoundWithin(m, a) && BoundWithin(m, b)
  {
    hide BoundMeet, BoundWithin;
    forall k | k in m.nested.fields
      ensures
        var x := m.nested.fields[k];
        ValidBound(x) && BoundWithin(x, a.nested.fields[k]) && BoundWithin(x, b.nested.fields[k])
    {
      hide ValidBound;
      assert MeetLaws(a.nested.fields[k], b.nested.fields[k]);
    }
    NestedBelow(m, a);
    NestedBelow(m, b);
  }

  lemma NestedWithin(c: Bound, p: Bound, k: string)
    requires BoundWithin(c, p) && p.nested.Fields? && k in p.nested.fields
    ensures c.nested.Fields? && k in c.nested.fields && BoundWithin(c.nested.fields[k], p.nested.fields[k])
  {
  }

  lemma NestedGreatest(a: Bound, b: Bound, m: Bound, c: Bound)
    requires NestedShape(m, a, b) && NestedLaws(a, b) && BoundWithin(c, a) && BoundWithin(c, b)
    ensures BoundWithin(c, m)
  {
    hide BoundMeet, ValidBound;
    NestedKeys(c, a);
    forall k | k in m.nested.fields ensures BoundWithin(c.nested.fields[k], m.nested.fields[k]) {
      NestedWithin(c, a, k);
      NestedWithin(c, b, k);
      hide BoundWithin;
      assert MeetLaws(a.nested.fields[k], b.nested.fields[k]);
    }
    assert OneFamily(m);
    hide NestedLaws;
    assert c.IsOptional() ==> m.IsOptional();
    NestedBelow(c, m);
  }

  lemma NestedKeys(c: Bound, p: Bound)
    requires BoundWithin(c, p) && p.nested.Fields?
    ensures c.nested.Fields? && c.nested.fields.Keys == p.nested.fields.Keys && (c.IsOptional() ==> p.IsOptional())
  {
    hide IsMultipleOf, AtMost;
  }

  lemma NestedAccepts(a: Bound, b: Bound, m: Bound, v: Json)
    requires NestedShape(m, a, b) && NestedLaws(a, b) && OneFamily(a) && OneFamily(b)
    ensures Loose(v, m) <==> Loose(v, a) && Loose(v, b)
  {
    hide BoundMeet, BoundWithin;
    if v.Obj? {
      forall k | k in a.nested.fields
        ensures
          var x, y, z := a.nested.fields[k], b.nested.fields[k], m.nested.fields[k];
          && (z.IsOptional() <==> x.IsOptional() && y.IsOptional())
          && (k in v.fields ==> (Loose(v.fields[k], z) <==> Loose(v.fields[k], x) && Loose(v.fields[k], y)))
      {
        hide Loose;
        assert MeetLaws(a.nested.fields[k], b.nested.fields[k]);
        MeetOptional(a.nested.fields[k], b.nested.fields[k]);
      }
    }
  }

  lemma MeetOptional(a: Bound, b: Bound)
    ensures
      var m := BoundMeet(a, b);
      m.Some? ==> (m.value.IsOptional() <==> a.IsOptional() && b.IsOptional())
  {
  }

  // The empty Bound

  predicate IsEmptyFamily(b: Bound) {
    !b.HasNumeric() && !b.HasEnum() && !b.HasNested()
  }

  lemma EmptyMeetShape(a: Bound, b: Bound)
    requires IsEmptyFamily(a) || IsEmptyFamily(b)
    ensures BoundMeet(a, b) == Some((if IsEmptyFamily(a) then b else a).(optional := BothOptional(a, b)))
  {
  }

  /** Only the optional marker tells m from x, and y is the empty Bound. */
  lemma EmptyMeetLaws(x: Bound, y: Bound, m: Bound)
    requires ValidBound(x) && IsEmptyFamily(y) && m == x.(optional := BothOptional(x, y))
    ensures ValidBound(m) && IsGreatestLower(m, x, y) && AcceptsBoth(m, x, y)
  {
    hide IsMultipleOf, AtMost, Float, Decimal.Value, InEnum, CountAtLeast, CountAtMost;
    assert ValidBound(m);
    EmptyLower(x, y, m);
    forall c | BoundWithin(c, x) && BoundWithin(c, y) ensures BoundWithin(c, m) {
      Unmarked(c, x, m);
    }
    forall v ensures Loose(v, m) <==> Loose(v, x) && Loose(v, y) {
      LooseUnmarked(v, x, m);
      EmptyAccepts(v, y);
    }
  }

  lemma EmptyLower(x: Bound, y: Bound, m: Bound)
    requires ValidBound(x) && IsEmptyFamily(y) && m == x.(optional := BothOptional(x, y))
    ensures BoundWithin(m, x) && BoundWithin(m, y)
  {
    hide IsMultipleOf, AtMost, Float, Decimal.Value;
    WithinReflexive(x);
  }

  /** containment looks at the optional marker alone besides the rest of the Bound */
  lemma Unmarked(c: Bound, x: Bound, m: Bound)
    requires BoundWithin(c, x) && m == x.(optional := m.optional) && (c.IsOptional() ==> m.IsOptional())
    ensures BoundWithin(c, m)
  {
    hide IsMultipleOf, AtMost, Float, Decimal.Value;
  }

  lemma EmptyAccepts(v: Json, y: Bound)
    requires IsEmptyFamily(y)
    ensures Loose(v, y)
  {
  }

  lemma LooseUnmarked(v: Json, x: Bound, m: Bound)
    requires m == x.(optional := m.optional)
    ensures Loose(v, m) <==> Loose(v, x)
  {
    hide AtMost, InEnum, CountAtLeast, CountAtMost;
  }

  lemma GreatestLowerSymmetric(m: Bound, a: Bound, b: Bound)
    requires IsGreatestLower(m, a, b) && AcceptsBoth(m, a, b)
    ensures IsGreatestLower(m, b, a) && AcceptsBoth(m, b, a)
  {
    hide BoundWithin, Loose;
  }

  /** On valid Bounds the meet, where defined, is valid, is the greatest Bound
      within both, and apart from steps accepts exactly what both accept. */
  lemma {:induction false} MeetIsGreatestLower(a: Bound, b: Bound)
    requires ValidBound(a) && ValidBound(b)
    ensures MeetLaws(a, b)
    decreases a
  {
    if BoundMeet(a, b).None? {
    } else if IsEmptyFamily(a) {
      EmptyMeetShape(a, b);
      EmptyMeetLaws(b, a, BoundMeet(a, b).value);
      GreatestLowerSymmetric(BoundMeet(a, b).value, b, a);
    } else if IsEmptyFamily(b) {
      EmptyMeetShape(a, b);
      EmptyMeetLaws(a, b, BoundMeet(a, b).value);
    } else {
      FamiliesAgree(a, b);
      if a.HasNested() {
        forall k | k in a.nested.fields && k in b.nested.fields
          ensures MeetLaws(a.nested.fields[k], b.nested.fields[k])
        {
          MeetIsGreatestLower(a.nested.fields[k], b.nested.fields[k]);
        }
      }
      FamilyMeetLaws(a, b, BoundMeet(a, b).value);
    }
  }

  lemma FamiliesAgree(a: Bound, b: Bound)
    requires BoundMeet(a, b).Some? && !IsEmptyFamily(a) && !IsEmptyFamily(b)
    requires OneFamily(a) && OneFamily(b)
    ensures a.HasNested() == b.HasNested() && a.HasEnum() == b.HasEnum() && a.HasNumeric() == b.HasNumeric()
  {
  }

  lemma FamilyMeetLaws(a: Bound, b: Bound, m: Bound)
    requires ValidBound(a) && ValidBound(b) && BoundMeet(a, b) == Some(m)
    requires a.HasNested() == b.HasNested() && a.HasEnum() == b.HasEnum() && a.HasNumeric() == b.HasNumeric()
    requires !IsEmptyFamily(a) && NestedLaws(a, b)
    ensures ValidBound(m) && IsGreatestLower(m, a, b) && AcceptsBoth(m, a, b)
  {
    if a.HasNested() {
      NestedMeetShape(a, b, m);
      NestedLower(a, b, m);
    } else if a.HasEnum() {
      EnumMeetShape(a, b, m);
      EnumLower(a, b, m);
    } else {
      NumericMeetShape(a, b, m);
      NumericLower(a, b, m);
    }
    hide BoundMeet, BoundWithin, Loose;
    forall c | BoundWithin(c, a) && BoundWithin(c, b) ensures BoundWithin(c, m) {
      if a.HasNested() { NestedGreatest(a, b, m, c); }
      else if a.HasEnum() { EnumGreatest(a, b, m, c); }
      else { NumericGreatest(a, b, m, c); }
    }
    forall v ensures Loose(v, m) <==> Loose(v, a) && Loose(v, b) {
      if a.HasNested() { NestedAccepts(a, b, m, v); }
      else if a.HasEnum() { EnumAccepts(a, b, m, v); }
      else { NumericAccepts(a, b, m, v); }
    }
  }
}
