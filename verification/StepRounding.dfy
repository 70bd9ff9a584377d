/**
 The step rule on decimal fractions: in binary64 it is not transitive, so a
 contained step can admit a value the containing step refuses.
 */
module StepRounding {
  import opened Numbers
  import opened Binary64
  import opened Json
  import opened Bounds
  import opened Collation
  import opened Caps
  import opened Ids
  import opened Grants
  import opened Authorization
  import opened Delegation

  const HUNDREDTH: Number := Decimal(false, "1", -1)
  const THREE_HUNDREDTHS: Number := Decimal(false, "3", -1)
  const REQUEST: Number := Decimal(false, "57", 0)

  function OfStep(step: Number): Bound {
    EMPTY.(step := Some(step))
  }

  lemma DecimalValues()
    ensures HUNDREDTH.Value() == 0.01 && THREE_HUNDREDTHS.Value() == 0.03 && REQUEST.Value() == 0.57
  {
    assert Pow10(-1) == 0.1 && Pow10(-2) == 0.01;
    assert "1"[1..] == "" && "3"[1..] == "" && "57"[1..] == "7" && "7"[1..] == "";
    assert Magnitude("7", -1) == 0.07;
  }

  lemma InverseFigure(k: nat, w: real)
    requires Pow2(k) == w
    ensures Pow2(0 - k) == 1.0 / w
  {
    Pow2Inverse(k);
  }

  lemma Figures()
    ensures Pow2(-47) == 1.0 / 140737488355328.0 && Pow2(-48) == 1.0 / 281474976710656.0
    ensures Pow2(-54) == 1.0 / 18014398509481984.0
    ensures Pow2(-51) == 1.0 / 2251799813685248.0 && Pow2(-53) == 1.0 / 9007199254740992.0
    ensures Pow2(-58) == 1.0 / 288230376151711744.0 && Pow2(-59) == 1.0 / 576460752303423488.0
  {
    Pow2Figures();
    hide Pow2;
    Pow2Next(51);
    Pow2Next(50);
    Pow2Next(49);
    Pow2Next(48);
    Pow2Next(47);
    Pow2Next(53);
    Pow2Next(54);
    Pow2Next(55);
    Pow2Next(56);
    Pow2Next(57);
    Pow2Next(58);
    InverseFigure(47, 140737488355328.0);
    InverseFigure(48, 281474976710656.0);
    InverseFigure(51, 2251799813685248.0);
    InverseFigure(53, 9007199254740992.0);
    InverseFigure(54, 18014398509481984.0);
    InverseFigure(58, 288230376151711744.0);
    InverseFigure(59, 576460752303423488.0);
  }

  /** Round at a number whose unit p is known: n is the nearest whole number of units, the even one on a tie */
  lemma RoundIs(x: real, e: int, p: real, n: int)
    requires e > MIN_EXPONENT && p == Pow2(e) && 4503599627370496.0 * p <= x < 9007199254740992.0 * p
    requires n as real - 0.5 <= x / p <= n as real + 0.5
    requires x / p == n as real - 0.5 || x / p == n as real + 0.5 ==> n % 2 == 0
    ensures Round(x) == n as real * p
  {
    hide Pow2, Exponent, Nearest;
    Bracket(e, p);
    ExponentIs(x, e);
    NearestIs(x / p, n);
  }

  lemma Bracket(e: int, p: real)
    requires p == Pow2(e)
    ensures Pow2(e + 52) == 4503599627370496.0 * p && Pow2(e + 53) == 9007199254740992.0 * p
  {
    hide Pow2;
    Pow2Figures();
    Pow2Sum(52, e);
    Pow2Next(e + 52);
  }

  lemma ExponentIs(x: real, e: int)
    requires e > MIN_EXPONENT && Pow2(e + 52) <= x < Pow2(e + 53)
    ensures Exponent(x, MIN_EXPONENT) == e
  {
    hide Pow2;
    ExponentAtMost(x, MIN_EXPONENT, e);
    var r := Exponent(x, MIN_EXPONENT);
    hide Exponent;
    if r < e {
      Pow2Grows(r + 53, e + 52);
    }
  }

  lemma NearestIs(y: real, n: int)
    requires n as real - 0.5 <= y <= n as real + 0.5
    requires y == n as real - 0.5 || y == n as real + 0.5 ==> n % 2 == 0
    ensures Nearest(y) == n
  {
    if y < n as real {
      assert y.Floor == n - 1;
    } else {
      assert y.Floor == n;
    }
  }

  const F57 := 5134103575202365.0 / 9007199254740992.0
  const F03 := 8646911284551352.0 / 288230376151711744.0
  const F01 := 5764607523034235.0 / 576460752303423488.0

  lemma ReadValues()
    ensures Float(REQUEST) == F57 && Float(THREE_HUNDREDTHS) == F03 && Float(HUNDREDTH) == F01
  {
    DecimalValues();
    Figures();
    hide Pow2, Round, Decimal.Value;
    RoundIs(0.57, -53, 1.0 / 9007199254740992.0, 5134103575202365);
    RoundIs(0.03, -58, 1.0 / 288230376151711744.0, 8646911284551352);
    RoundIs(0.01, -59, 1.0 / 576460752303423488.0, 5764607523034235);
  }

  lemma StepOverStep()
    ensures MultipleOf(F03, F01)
  {
    Figures();
    hide Pow2, Round;
    RoundIs(F03 / F01, -51, 1.0 / 2251799813685248.0, 6755399441055744);
    assert Divide(F03, F01) == 3.0;
    RoundIs(3.0 * F01, -58, 1.0 / 288230376151711744.0, 8646911284551352);
    assert Multiply(3.0, F01) == F03;
    FiniteWhole(3);
  }

  lemma RequestOverInner()
    ensures MultipleOf(F57, F03)
  {
    Figures();
    hide Pow2, Round;
    RoundIs(F57 / F03, -48, 1.0 / 281474976710656.0, 5348024557502464);
    assert Divide(F57, F03) == 19.0;
    RoundIs(19.0 * F03, -53, 1.0 / 9007199254740992.0, 5134103575202365);
    assert Multiply(19.0, F03) == F57;
    FiniteWhole(19);
  }

  lemma RequestOverOuter()
    ensures !MultipleOf(F57, F01)
  {
    Figures();
    hide Pow2, Round;
    RoundIs(F57 / F01, -47, 1.0 / 140737488355328.0, 8022036836253695);
    assert Divide(F57, F01) == 8022036836253695.0 / 140737488355328.0;
    assert (8022036836253695.0 / 140737488355328.0).Floor == 56;
  }

  lemma OuterOverInner()
    ensures !MultipleOf(F01, F03)
  {
    Figures();
    hide Pow2, Round;
    RoundIs(F01 / F03, -54, 1.0 / 18014398509481984.0, 6004799503160662);
    assert Divide(F01, F03) == 6004799503160662.0 / 18014398509481984.0;
    assert (6004799503160662.0 / 18014398509481984.0).Floor == 0;
  }

  lemma StepFacts()
    ensures Float(HUNDREDTH) > 0.0 && Float(THREE_HUNDREDTHS) > 0.0
    ensures IsMultipleOf(THREE_HUNDREDTHS, HUNDREDTH) && !IsMultipleOf(HUNDREDTH, THREE_HUNDREDTHS)
    ensures IsMultipleOf(REQUEST, THREE_HUNDREDTHS) && !IsMultipleOf(REQUEST, HUNDREDTH)
  {
    hide MultipleOf, Float;
    ReadValues();
    StepOverStep();
    RequestOverInner();
    RequestOverOuter();
    OuterOverInner();
  }

  /** Step 0.03 is within step 0.01 and is their meet, and it accepts 0.57; step 0.01 refuses 0.57. */
  lemma {:induction false} DecimalStepsLeak()
    ensures
      var parent, child := OfStep(HUNDREDTH), OfStep(THREE_HUNDREDTHS);
      && ValidBound(parent) && ValidBound(child)
      && BoundWithin(child, parent) && BoundMeet(parent, child) == Some(child)
      && BoundSubset(Num(REQUEST), child) && !BoundSubset(Num(REQUEST), parent)
  {
    hide IsMultipleOf, Float, Decimal.Value;
    StepFacts();
  }

  /** Containment itself does not compose: step 0.57 is within 0.03, which is within 0.01, and not within 0.01. */
  lemma {:induction false} DecimalStepsDoNotCompose()
    ensures BoundWithin(OfStep(REQUEST), OfStep(THREE_HUNDREDTHS)) && BoundWithin(OfStep(THREE_HUNDREDTHS), OfStep(HUNDREDTH))
    ensures !BoundWithin(OfStep(REQUEST), OfStep(HUNDREDTH))
  {
    hide IsMultipleOf, Float, Decimal.Value;
    StepFacts();
  }

  // ---------------------------------------------------------------------
  // The same leak through a chain
  // ---------------------------------------------------------------------

  function Stepped(id: string, k: string, step: Number): Grant {
    Grant(id, map[], map[k := OfStep(step)], [])
  }

  function Asked(id: string, k: string): Operation {
    Operation(id, map[k := Num(REQUEST)])
  }

  predicate SmallEnough(k: string) {
    && FitsCaps(Wire.EncodeAll(map[k := OfStep(HUNDREDTH)]))
    && FitsCaps(Wire.EncodeAll(map[k := OfStep(THREE_HUNDREDTHS)]))
    && FitsCaps(map[k := Num(REQUEST)])
  }

  lemma RequestInRange()
    ensures InRange(Num(REQUEST))
  {
    ReadValues();
    hide Float;
    assert F57.Floor == 0;
  }

  lemma SteppedEntails(id: string, k: string, step: Number)
    requires ValidId(id) && k != "" && FitsCaps(Wire.EncodeAll(map[k := OfStep(step)])) && Float(step) > 0.0
    requires FitsCaps(map[k := Num(REQUEST)])
    ensures Entails(Stepped(id, k, step), Asked(id, k)) <==> IsMultipleOf(REQUEST, step)
  {
    hide FitsCaps, IsMultipleOf, Float, ValidId, Split;
    RequestInRange();
    MatchReflexive(id);
    hide InRange, MatchId;
    var g, op := Stepped(id, k, step), Asked(id, k);
    assert k in g.bounds && k in Declared(g) && k in op.params;
    assert Declared(g) == {k};
  }

  lemma SteppedWellFormed(id: string, k: string, step: Number)
    requires ValidId(id) && k != "" && Float(step) > 0.0 && FitsCaps(Wire.EncodeAll(map[k := OfStep(step)]))
    ensures WellFormed(Stepped(id, k, step)) && Declared(Stepped(id, k, step)) != {}
  {
    hide FitsCaps, Float, ValidId;
    assert k in Stepped(id, k, step).bounds && k in Declared(Stepped(id, k, step));
  }

  lemma SteppedContains(id: string, k: string)
    requires ValidId(id) && k != "" && SmallEnough(k)
    ensures Contains(Stepped(id, k, HUNDREDTH), Stepped(id, k, THREE_HUNDREDTHS))
  {
    hide FitsCaps, IsMultipleOf, Float, ValidId, MatchId, WellFormed;
    StepFacts();
    DecimalStepsLeak();
    MatchReflexive(id);
    SteppedWellFormed(id, k, HUNDREDTH);
    SteppedWellFormed(id, k, THREE_HUNDREDTHS);
    hide BoundWithin, ValidBound, BoundSubset, BoundMeet, Declared;
  }

  lemma SteppedMergeable(id: string, k: string, step: Number)
    requires k != "" && Float(step) > 0.0 && FitsCaps(Wire.EncodeAll(map[k := OfStep(step)]))
    ensures MergeableSource(Stepped(id, k, step))
  {
    hide FitsCaps, Float;
  }

  lemma SteppedMerge(id: string, k: string)
    ensures Merge(Stepped(id, k, HUNDREDTH), Stepped(id, k, THREE_HUNDREDTHS)) == Some(Stepped(id, k, THREE_HUNDREDTHS))
  {
    hide IdEntails, SortedKeys;
    DecimalStepsLeak();
    hide BoundMeet, BoundWithin, BoundSubset, ValidBound;
    var p, c := Stepped(id, k, HUNDREDTH), Stepped(id, k, THREE_HUNDREDTHS);
    assert BoundsMeet(p.bounds, c.bounds) && MergeBounds(p.bounds, c.bounds) == c.bounds;
    assert MergeParams(p.params, c.params) == map[];
    NothingSorted();
    assert (set x | x in p.constraints) + (set x | x in c.constraints) == {};
  }

  lemma SteppedMeet(id: string, k: string)
    requires k != "" && SmallEnough(k)
    ensures Intersect([Stepped(id, k, HUNDREDTH), Stepped(id, k, THREE_HUNDREDTHS)]) == Some(Stepped(id, k, THREE_HUNDREDTHS))
  {
    hide FitsCaps, IsMultipleOf, Float, MergeableSource, Merge;
    StepFacts();
    SteppedMergeable(id, k, HUNDREDTH);
    SteppedMergeable(id, k, THREE_HUNDREDTHS);
    SteppedMerge(id, k);
    MergePair(Stepped(id, k, HUNDREDTH), Stepped(id, k, THREE_HUNDREDTHS));
    hide MergeAll;
  }

  lemma MergePair(p: Grant, c: Grant)
    ensures MergeAll([p, c]) == Merge(p, c)
  {
    hide Merge;
    assert [p, c][..1] == [p];
    assert MergeAll([p]) == Some(p);
  }

  lemma NothingSorted()
    ensures SortedKeys(CodePoints, {}) == []
  {
  }

  /** A chain of the two allows 0.57 although its first grant alone refuses it. */
  lemma {:induction false} DecimalChainLeaks(id: string, k: string, grammar: Grammar)
    requires ValidId(id) && k != "" && SmallEnough(k)
    ensures
      var parent, child := Stepped(id, k, HUNDREDTH), Stepped(id, k, THREE_HUNDREDTHS);
      && AuthorizeWithChain([parent, child], Asked(id, k), grammar) == Allow
      && Entails(child, Asked(id, k)) && !Entails(parent, Asked(id, k))
  {
    var parent, child, op := Stepped(id, k, HUNDREDTH), Stepped(id, k, THREE_HUNDREDTHS), Asked(id, k);
    hide FitsCaps, IsMultipleOf, Float, ValidId, Contains, Intersect, Entails;
    StepFacts();
    SteppedEntails(id, k, HUNDREDTH);
    SteppedEntails(id, k, THREE_HUNDREDTHS);
    SteppedContains(id, k);
    SteppedMeet(id, k);
    RequestInRange();
    hide InRange;
    SingleGrant(child, op, grammar);
    assert Obligations(child) == {};
    assert ContainedChain([parent, child]);
  }
}
