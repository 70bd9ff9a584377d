/**
 The steps of Bounds and of their meets: which step a meet keeps, and when the
 step tests of one Bound follow from those of another.
 */
module BoundSteps {
  import opened Numbers
  import opened Binary64
  import opened Json
  import opened Caps
  import opened Bounds
  import opened BoundLattice

  // ---------------------------------------------------------------------
  // Steps of a meet
  // ---------------------------------------------------------------------

  /** a meet takes every step from one of its sides */
  lemma {:induction false} MeetSteps(a: Bound, b: Bound, m: Bound, v: Json)
    requires ValidBound(a) && ValidBound(b) && BoundMeet(a, b) == Some(m) && StepsHold(v, a) && StepsHold(v, b)
    ensures StepsHold(v, m)
    decreases a
  {
    hide IsMultipleOf, AtMost, Float, CanonicalMembers, Filter;
    if IsEmptyFamily(a) || IsEmptyFamily(b) {
      EmptyMeetShape(a, b);
      hide BoundMeet;
      SameSteps(v, m, if IsEmptyFamily(a) then b else a);
    } else {
      FamiliesAgree(a, b);
      if a.HasNested() {
        NestedMeetShape(a, b, m);
        hide BoundMeet;
        if v.Obj? {
          forall k | k in m.nested.fields && k in v.fields ensures StepsHold(v.fields[k], m.nested.fields[k]) {
            MeetSteps(a.nested.fields[k], b.nested.fields[k], m.nested.fields[k], v.fields[k]);
          }
        }
      } else if a.HasEnum() {
        EnumMeetShape(a, b, m);
      } else {
        NumericMeetShape(a, b, m);
      }
    }
  }

  lemma SameSteps(v: Json, m: Bound, x: Bound)
    requires m == x.(optional := m.optional)
    ensures StepsHold(v, m) <==> StepsHold(v, x)
  {
    hide IsMultipleOf;
  }

  lemma {:induction false} MeetCommensurable(a: Bound, b: Bound, m: Bound, x: Bound)
    requires ValidBound(a) && ValidBound(b) && BoundMeet(a, b) == Some(m)
    requires Commensurable(a, x) && Commensurable(b, x)
    ensures Commensurable(m, x)
    decreases a
  {
    hide IsMultipleOf, AtMost, WholeStep, FinerIsPower, Float, CanonicalMembers, Filter;
    if IsEmptyFamily(a) || IsEmptyFamily(b) {
      EmptyMeetShape(a, b);
    } else {
      FamiliesAgree(a, b);
      if a.HasNested() {
        NestedMeetShape(a, b, m);
        hide BoundMeet;
        if x.nested.Fields? {
          forall k | k in m.nested.fields && k in x.nested.fields
            ensures Commensurable(m.nested.fields[k], x.nested.fields[k])
          {
            MeetCommensurable(a.nested.fields[k], b.nested.fields[k], m.nested.fields[k], x.nested.fields[k]);
          }
        }
      } else if a.HasEnum() {
        EnumMeetShape(a, b, m);
      } else {
        NumericMeetShape(a, b, m);
      }
    }
  }

  lemma {:induction false} CommensurableWithItself(b: Bound)
    ensures Commensurable(b, b)
  {
    if b.nested.Fields? {
      forall k | k in b.nested.fields ensures Commensurable(b.nested.fields[k], b.nested.fields[k]) {
        CommensurableWithItself(b.nested.fields[k]);
      }
    }
  }

  lemma {:induction false} CommensurableSymmetric(a: Bound, b: Bound)
    requires Commensurable(a, b)
    ensures Commensurable(b, a)
  {
    hide WholeStep;
    if a.nested.Fields? && b.nested.Fields? {
      forall k | k in a.nested.fields && k in b.nested.fields ensures Commensurable(b.nested.fields[k], a.nested.fields[k]) {
        CommensurableSymmetric(a.nested.fields[k], b.nested.fields[k]);
      }
    }
  }

  /** Both sides accept a value exactly when the meet does and their own step tests pass. */
  lemma {:induction false} MeetExact(a: Bound, b: Bound, v: Json)
    requires ValidBound(a) && ValidBound(b) && BoundMeet(a, b).Some?
    ensures BoundSubset(v, a) && BoundSubset(v, b) <==>
            BoundSubset(v, BoundMeet(a, b).value) && StepsHold(v, a) && StepsHold(v, b)
  {
    hide BoundMeet, BoundWithin, BoundSubset, Loose, StepsHold, ValidBound;
    var m := BoundMeet(a, b).value;
    MeetIsGreatestLower(a, b);
    LooseAndSteps(v, a);
    LooseAndSteps(v, b);
    LooseAndSteps(v, m);
    if StepsHold(v, a) && StepsHold(v, b) {
      MeetSteps(a, b, m, v);
    }
  }

  /** On commensurable Bounds the meet accepts exactly the interoperable values both accept. */
  lemma {:induction false} MeetAccepts(a: Bound, b: Bound, v: Json)
    requires ValidBound(a) && ValidBound(b) && BoundMeet(a, b).Some? && Commensurable(a, b) && InRange(v)
    ensures BoundSubset(v, BoundMeet(a, b).value) <==> BoundSubset(v, a) && BoundSubset(v, b)
  {
    hide BoundMeet, BoundWithin, BoundSubset, StepsHold, Commensurable, InRange, ValidBound, Loose;
    var m := BoundMeet(a, b).value;
    MeetIsGreatestLower(a, b);
    MeetExact(a, b, v);
    if BoundSubset(v, m) {
      AcceptedSteps(v, m);
      CommensurableWithItself(a);
      CommensurableWithItself(b);
      CommensurableSymmetric(a, b);
      MeetCommensurable(a, b, m, a);
      MeetCommensurable(a, b, m, b);
      StepsCarry(v, m, a);
      StepsCarry(v, m, b);
    }
  }

  // ---------------------------------------------------------------------
  // The coarser step
  // ---------------------------------------------------------------------

  predicate StepAtLeast(a: Option<Number>, b: Option<Number>) {
    b.Some? ==> a.Some? && Float(a.value) >= Float(b.value)
  }

  /** at every place a's step is at least b's */
  predicate Coarser(a: Bound, b: Bound)
    decreases b
  {
    && StepAtLeast(a.step, b.step)
    && (b.nested.Fields? ==>
         && a.nested.Fields?
         && forall k :: k in b.nested.fields ==> k in a.nested.fields && Coarser(a.nested.fields[k], b.nested.fields[k]))
  }

  lemma {:induction false} CoarserReflexive(b: Bound)
    ensures Coarser(b, b)
  {
    hide Float;
    if b.nested.Fields? {
      forall k | k in b.nested.fields ensures Coarser(b.nested.fields[k], b.nested.fields[k]) {
        CoarserReflexive(b.nested.fields[k]);
      }
    }
  }

  lemma {:induction false} CoarserTransitive(a: Bound, b: Bound, c: Bound)
    requires Coarser(a, b) && Coarser(b, c)
    ensures Coarser(a, c)
    decreases c
  {
    hide Float;
    if c.nested.Fields? {
      forall k | k in c.nested.fields ensures k in a.nested.fields && Coarser(a.nested.fields[k], c.nested.fields[k]) {
        CoarserTransitive(a.nested.fields[k], b.nested.fields[k], c.nested.fields[k]);
      }
    }
  }

  /** what is within a Bound has at every place the coarser step */
  lemma {:induction false} WithinCoarser(c: Bound, p: Bound)
    requires ValidBound(c) && ValidBound(p) && BoundWithin(c, p)
    ensures Coarser(c, p)
    decreases p
  {
    hide Float, IsMultipleOf, AtMost;
    if p.step.Some? {
      MultipleAtLeast(c.step.value, p.step.value);
    }
    if p.nested.Fields? {
      forall k | k in p.nested.fields ensures Coarser(c.nested.fields[k], p.nested.fields[k]) {
        WithinCoarser(c.nested.fields[k], p.nested.fields[k]);
      }
    }
  }

  /** A meet is coarser than both sides. */
  lemma {:induction false} MeetIsCoarser(a: Bound, b: Bound, m: Bound)
    requires ValidBound(a) && ValidBound(b) && BoundMeet(a, b) == Some(m)
    ensures Coarser(m, a) && Coarser(m, b)
  {
    hide BoundMeet, BoundWithin, ValidBound, Coarser, Loose;
    MeetIsGreatestLower(a, b);
    WithinCoarser(m, a);
    WithinCoarser(m, b);
  }

  /** Whatever is coarser than both sides is coarser than their meet. */
  lemma {:induction false} MeetIsLeast(a: Bound, b: Bound, m: Bound, x: Bound)
    requires ValidBound(a) && ValidBound(b) && BoundMeet(a, b) == Some(m)
    requires Coarser(x, a) && Coarser(x, b)
    ensures Coarser(x, m)
    decreases a
  {
    hide IsMultipleOf, AtMost, Float, CanonicalMembers, Filter;
    if IsEmptyFamily(a) || IsEmptyFamily(b) {
      EmptyMeetShape(a, b);
    } else {
      FamiliesAgree(a, b);
      if a.HasNested() {
        NestedMeetShape(a, b, m);
        hide BoundMeet;
        forall k | k in m.nested.fields
          ensures k in x.nested.fields && Coarser(x.nested.fields[k], m.nested.fields[k])
        {
          MeetIsLeast(a.nested.fields[k], b.nested.fields[k], m.nested.fields[k], x.nested.fields[k]);
        }
      } else if a.HasEnum() {
        EnumMeetShape(a, b, m);
      } else {
        NumericMeetShape(a, b, m);
      }
    }
  }

  /** Bounds coarser than each other make the same step tests. */
  lemma {:induction false} SameCoarseness(v: Json, a: Bound, b: Bound)
    requires Coarser(a, b) && Coarser(b, a)
    ensures StepsHold(v, a) <==> StepsHold(v, b)
    decreases b
  {
    hide Float, MultipleOf;
    if b.nested.Fields? && v.Obj? {
      forall k | k in b.nested.fields && k in v.fields
        ensures StepsHold(v.fields[k], a.nested.fields[k]) <==> StepsHold(v.fields[k], b.nested.fields[k])
      {
        SameCoarseness(v.fields[k], a.nested.fields[k], b.nested.fields[k]);
      }
      assert a.nested.fields.Keys == b.nested.fields.Keys;
    }
  }
}
