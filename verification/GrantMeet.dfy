/**
 The n-ary meet is exact: the merged grant entails an operation exactly when
 every source entails the part of it that the source declares.
 */
module GrantMeet {
  import opened Numbers
  import opened Basics
  import opened Json
  import opened Caps
  import opened Bounds
  import opened BoundLattice
  import opened BoundSteps
  import opened Ids
  import opened Grants

  // ---------------------------------------------------------------------
  // Values
  // ---------------------------------------------------------------------

  lemma ObjectExact(a: map<string, Json>, b: map<string, Json>, m: map<string, Json>, o: map<string, Json>)
    requires a.Keys == b.Keys == m.Keys && a != map[]
    requires forall k :: k in a && k in o ==>
               (ValueSubset(o[k], m[k]) <==> ValueSubset(o[k], a[k]) && ValueSubset(o[k], b[k]))
    ensures ValueSubset(Obj(o), Obj(m)) <==> ValueSubset(Obj(o), Obj(a)) && ValueSubset(Obj(o), Obj(b))
  {
    NonEmpty(a, b);
    NonEmpty(a, m);
  }

  lemma NonEmpty(a: map<string, Json>, b: map<string, Json>)
    requires a.Keys == b.Keys && a != map[]
    ensures b != map[]
  {
    var k :| k in a;
    assert k in b.Keys;
  }

  /** The meet of two granted values admits exactly what both admit. */
  lemma {:induction false} IntersectValueExact(a: Json, b: Json, o: Json)
    requires IntersectValue(a, b).Some?
    ensures ValueSubset(o, IntersectValue(a, b).value) <==> ValueSubset(o, a) && ValueSubset(o, b)
    decreases a
  {
    var m := IntersectValue(a, b).value;
    hide Decimal.Value;
    match a
    case Num(_) =>
    case Arr(items) =>
      InBothEnums(o, items, b.items, m.items);
    case Obj(fields) =>
      SameKeySets(fields, b.fields);
      if o.Obj? {
        forall k | k in fields && k in o.fields
          ensures ValueSubset(o.fields[k], m.fields[k])
                  <==> ValueSubset(o.fields[k], fields[k]) && ValueSubset(o.fields[k], b.fields[k])
        {
          IntersectValueExact(fields[k], b.fields[k], o.fields[k]);
        }
        ObjectExact(fields, b.fields, m.fields, o.fields);
      }
    case _ =>
  }

  /** what the merge keeps of two admissible values */
  lemma {:induction false} IntersectValueKeeps(a: Json, b: Json)
    requires IntersectValue(a, b).Some? && InRange(a) && InRange(b)
    ensures InRange(IntersectValue(a, b).value)
    ensures !a.Null? ==> !IntersectValue(a, b).value.Null?
    ensures !IsEmptyValue(a) ==> !IsEmptyValue(IntersectValue(a, b).value)
    decreases a
  {
    var m := IntersectValue(a, b).value;
    hide Decimal.Value;
    match a
    case Arr(items) =>
      forall i | 0 <= i < |m.items| ensures InRange(m.items[i]) {
        assert m.items[i] in items;
      }
    case Obj(fields) =>
      assert m.fields.Keys == fields.Keys;
      forall k | k in fields ensures InRange(m.fields[k]) {
        IntersectValueKeeps(fields[k], b.fields[k]);
      }
    case _ =>
  }

  // ---------------------------------------------------------------------
  // One merge
  // ---------------------------------------------------------------------

  lemma MergedParamKey(a: map<string, Json>, b: map<string, Json>, k: string, o: Json)
    requires ParamsMeet(a, b) && (k in a || k in b)
    ensures ValueSubset(o, MergeParams(a, b)[k])
            <==> (k in a ==> ValueSubset(o, a[k])) && (k in b ==> ValueSubset(o, b[k]))
  {
    hide IntersectValue, ValueSubset;
    if k in a && k in b {
      IntersectValueExact(a[k], b[k], o);
    }
  }

  lemma MergedBoundKey(a: map<string, Bound>, b: map<string, Bound>, k: string, o: Json)
    requires BoundsMeet(a, b) && (k in a || k in b)
    requires (k in a ==> ValidBound(a[k])) && (k in b ==> ValidBound(b[k]))
    ensures
      var m := MergeBounds(a, b)[k];
      && ValidBound(m)
      && (Loose(o, m) <==> (k in a ==> Loose(o, a[k])) && (k in b ==> Loose(o, b[k])))
      && (m.IsOptional() <==> (k in a ==> a[k].IsOptional()) && (k in b ==> b[k].IsOptional()))
  {
    hide BoundMeet, Loose, ValidBound, BoundWithin;
    if k in a && k in b {
      MeetIsGreatestLower(a[k], b[k]);
      MeetOptional(a[k], b[k]);
    }
  }

  predicate BoundsValid(g: Grant) {
    forall k :: k in g.bounds ==> k != "" && ValidBound(g.bounds[k])
  }

  predicate ParamsAdmissible(g: Grant) {
    forall k :: k in g.params ==> !g.params[k].Null? && !IsEmptyValue(g.params[k]) && InRange(g.params[k])
  }

  /** what every intermediate result of the merge loop satisfies */
  predicate Merged(g: Grant) {
    BoundsValid(g) && ParamsAdmissible(g)
  }

  lemma SourceIsMerged(g: Grant)
    requires MergeableSource(g)
    ensures Merged(g)
  {
    hide ValidBound, FitsCaps, InRange, DeniesClass;
  }

  lemma MergeKeeps(r: Grant, g: Grant, m: Grant)
    requires Merged(r) && Merged(g) && Merge(r, g) == Some(m)
    ensures Merged(m)
    ensures m.params.Keys == r.params.Keys + g.params.Keys && m.bounds.Keys == r.bounds.Keys + g.bounds.Keys
  {
    hide IntersectValue, BoundMeet, ValidBound, InRange, BoundsValid, ParamsAdmissible;
    MergeKeepsBounds(r, g, m);
    MergeKeepsParams(r, g, m);
  }

  lemma MergeKeepsBounds(r: Grant, g: Grant, m: Grant)
    requires BoundsValid(r) && BoundsValid(g) && Merge(r, g) == Some(m)
    ensures BoundsValid(m)
  {
    hide BoundMeet, ValidBound, ParamsMeet, MergeParams, MergeIds, MergeConstraints;
    forall k | k in m.bounds ensures k != "" && ValidBound(m.bounds[k]) {
      MergedBoundKey(r.bounds, g.bounds, k, Null);
    }
  }

  lemma MergeKeepsParams(r: Grant, g: Grant, m: Grant)
    requires ParamsAdmissible(r) && ParamsAdmissible(g) && Merge(r, g) == Some(m)
    ensures ParamsAdmissible(m)
  {
    hide IntersectValue, InRange, BoundsMeet, MergeBounds, MergeIds, MergeConstraints;
    forall k | k in m.params ensures !m.params[k].Null? && !IsEmptyValue(m.params[k]) && InRange(m.params[k]) {
      if k in r.params && k in g.params {
        IntersectValueKeeps(r.params[k], g.params[k]);
      }
    }
  }

  /** a grant's own step tests at one key */
  predicate KeySteps(g: Grant, op: map<string, Json>, k: string) {
    k in g.bounds && k in op ==> StepsHold(op[k], g.bounds[k])
  }

  /** one declared key apart from its step tests */
  predicate KeyLoose(g: Grant, op: map<string, Json>, k: string) {
    && (k in g.params ==> k in op && ValueSubset(op[k], g.params[k]))
    && (k in g.bounds ==> if k in op then Loose(op[k], g.bounds[k]) else g.bounds[k].IsOptional())
  }

  lemma KeyHoldsSplit(g: Grant, op: map<string, Json>, k: string)
    ensures KeyHolds(g, op, k) <==> KeyLoose(g, op, k) && KeySteps(g, op, k)
  {
    hide ValueSubset, BoundSubset, StepsHold, Loose;
    if k in g.bounds && k in op {
      LooseAndSteps(op[k], g.bounds[k]);
    }
  }

  /** Apart from steps a merged grant holds a key exactly when both of its sources do. */
  lemma MergeKeyLoose(r: Grant, g: Grant, m: Grant, op: map<string, Json>, k: string)
    requires Merged(r) && Merged(g) && Merge(r, g) == Some(m)
    ensures KeyLoose(m, op, k) <==> KeyLoose(r, op, k) && KeyLoose(g, op, k)
  {
    hide IntersectValue, BoundMeet, ValidBound, InRange, ValueSubset, Loose;
    var o := if k in op then op[k] else Null;
    if k in r.params || k in g.params {
      MergedParamKey(r.params, g.params, k, o);
    }
    if k in r.bounds || k in g.bounds {
      MergedBoundKey(r.bounds, g.bounds, k, o);
    }
  }

  /** A merged step test passes when those of both sources do. */
  lemma MergeKeySteps(r: Grant, g: Grant, m: Grant, op: map<string, Json>, k: string)
    requires Merged(r) && Merged(g) && Merge(r, g) == Some(m) && KeySteps(r, op, k) && KeySteps(g, op, k)
    ensures KeySteps(m, op, k)
  {
    hide BoundMeet, ValidBound, InRange, StepsHold, ParamsMeet, MergeParams, MergeIds, MergeConstraints;
    if k in op && k in r.bounds && k in g.bounds {
      MeetSteps(r.bounds[k], g.bounds[k], m.bounds[k], op[k]);
    }
  }

  lemma MergeIdExact(a: string, b: string, o: string)
    requires MergeIds(a, b).Some?
    ensures IdEntails(MergeIds(a, b).value, o) <==> IdEntails(a, o) && IdEntails(b, o)
  {
    hide ValidId, MatchId, Split;
    if IdEntails(a, b) && IdEntails(b, o) {
      MatchTransitive(a, b, o);
    }
    if IdEntails(b, a) && IdEntails(a, o) {
      MatchTransitive(b, a, o);
    }
  }

  // ---------------------------------------------------------------------
  // The whole merge
  // ---------------------------------------------------------------------

  lemma {:induction false} MergeAllKeeps(grants: seq<Grant>, m: Grant)
    requires grants != [] && (forall i :: 0 <= i < |grants| ==> Merged(grants[i])) && MergeAll(grants) == Some(m)
    ensures Merged(m)
    ensures forall k :: k in m.params <==> exists i :: 0 <= i < |grants| && k in grants[i].params
    ensures forall k :: k in m.bounds <==> exists i :: 0 <= i < |grants| && k in grants[i].bounds
  {
    hide Merged, Merge;
    var n := |grants| - 1;
    if n > 0 {
      var init := grants[..n];
      var r := MergeAll(init).value;
      MergeAllKeeps(init, r);
      MergeKeeps(r, grants[n], m);
      assert forall i :: 0 <= i < n ==> init[i] == grants[i];
      forall k ensures k in m.params <==> exists i :: 0 <= i < |grants| && k in grants[i].params {
        if k in r.params {
          var i :| 0 <= i < |init| && k in init[i].params;
          assert k in grants[i].params;
        }
        if i :| 0 <= i < |grants| && k in grants[i].params {
          assert i < n ==> k in init[i].params;
        }
      }
      forall k ensures k in m.bounds <==> exists i :: 0 <= i < |grants| && k in grants[i].bounds {
        if k in r.bounds {
          var i :| 0 <= i < |init| && k in init[i].bounds;
          assert k in grants[i].bounds;
        }
        if i :| 0 <= i < |grants| && k in grants[i].bounds {
          assert i < n ==> k in init[i].bounds;
        }
      }
    }
  }

  lemma {:induction false} MergeAllKeyLoose(grants: seq<Grant>, m: Grant, op: map<string, Json>, k: string)
    requires grants != [] && (forall i :: 0 <= i < |grants| ==> Merged(grants[i])) && MergeAll(grants) == Some(m)
    ensures KeyLoose(m, op, k) <==> forall i :: 0 <= i < |grants| ==> KeyLoose(grants[i], op, k)
  {
    hide Merged, Merge, KeyLoose;
    var n := |grants| - 1;
    if n > 0 {
      var init := grants[..n];
      var r := MergeAll(init).value;
      MergeAllKeyLoose(init, r, op, k);
      MergeAllKeeps(init, r);
      MergeKeyLoose(r, grants[n], m, op, k);
      assert forall i :: 0 <= i < n ==> init[i] == grants[i];
    }
  }

  lemma {:induction false} MergeAllKeySteps(grants: seq<Grant>, m: Grant, op: map<string, Json>, k: string)
    requires grants != [] && (forall i :: 0 <= i < |grants| ==> Merged(grants[i])) && MergeAll(grants) == Some(m)
    requires forall i :: 0 <= i < |grants| ==> KeySteps(grants[i], op, k)
    ensures KeySteps(m, op, k)
  {
    hide Merged, Merge, KeySteps;
    var n := |grants| - 1;
    if n > 0 {
      var init := grants[..n];
      var r := MergeAll(init).value;
      assert forall i :: 0 <= i < n ==> init[i] == grants[i];
      MergeAllKeySteps(init, r, op, k);
      MergeAllKeeps(init, r);
      MergeKeySteps(r, grants[n], m, op, k);
    }
  }

  lemma IdsSplit(grants: seq<Grant>, o: string)
    requires grants != []
    ensures var n := |grants| - 1;
      (forall i :: 0 <= i < |grants| ==> IdEntails(grants[i].id, o)) <==>
      IdEntails(grants[n].id, o) && forall i :: 0 <= i < |grants[..n]| ==> IdEntails(grants[..n][i].id, o)
  {
    hide IdEntails;
    var n := |grants| - 1;
    assert forall i :: 0 <= i < n ==> grants[..n][i] == grants[i];
  }

  lemma {:induction false} MergeAllId(grants: seq<Grant>, m: Grant, o: string)
    requires grants != [] && MergeAll(grants) == Some(m)
    ensures IdEntails(m.id, o) <==> forall i :: 0 <= i < |grants| ==> IdEntails(grants[i].id, o)
  {
    hide IdEntails, ParamsMeet, BoundsMeet, MergeParams, MergeBounds;
    var n := |grants| - 1;
    if n > 0 {
      var init := grants[..n];
      var r := MergeAll(init).value;
      MergeAllId(init, r, o);
      MergeIdExact(r.id, grants[n].id, o);
      hide MergeAll, Merge;
      IdsSplit(grants, o);
    }
  }

  // ---------------------------------------------------------------------
  // Main results
  // ---------------------------------------------------------------------

  /** the part of an operation that a grant declares */
  function Cut(op: Operation, g: Grant): Operation {
    Operation(op.id, Restrict(op.params, Declared(g)))
  }

  /** a grant whose own parameter objects stay inside the size caps */
  predicate Fits(g: Grant) {
    (g.params != map[] ==> FitsCaps(g.params)) && (g.bounds != map[] ==> FitsCaps(Wire.EncodeAll(g.bounds)))
  }

  /** the operation's parameters are valid and none is undeclared */
  predicate Closed(op: Operation, g: Grant) {
    Declared(g) != {} ==> ValidParams(op.params) && op.params.Keys <= Declared(g)
  }

  /** entailment with its validity conditions taken apart */
  lemma EntailsParts(g: Grant, op: Operation)
    requires Merged(g) && g.params.Keys !! g.bounds.Keys
    ensures Entails(g, op) <==>
            && IdEntails(g.id, op.id)
            && Fits(g) && Closed(op, g)
            && forall k :: k in Declared(g) ==> KeyHolds(g, op.params, k)
  {
    hide IdEntails, FitsCaps, KeyHolds, ValidBound, InRange;
    if Declared(g) == {} {
      assert g.params.Keys == {} && g.bounds.Keys == {};
      assert g.params == map[] && g.bounds == map[];
    } else {
      assert ValidGrantParams(g) && ValidBounds(g) <==> Fits(g);
    }
  }

  lemma KeyHoldsCut(g: Grant, op: Operation, k: string)
    ensures KeyHolds(g, Cut(op, g).params, k) <==> KeyHolds(g, op.params, k)
  {
    hide ValueSubset, BoundSubset;
  }

  /** A source entails its own part of an operation when it holds each declared key. */
  lemma SourceEntailsCut(g: Grant, op: Operation)
    requires MergeableSource(g) && g.params.Keys !! g.bounds.Keys
    requires Declared(g) != {} ==> ValidParams(Cut(op, g).params)
    ensures Entails(g, Cut(op, g)) <==>
            IdEntails(g.id, op.id) && forall k :: k in Declared(g) ==> KeyHolds(g, op.params, k)
  {
    SourceIsMerged(g);
    EntailsParts(g, Cut(op, g));
    hide Entails, MergeableSource, IdEntails, FitsCaps, ValidBound, InRange, KeyHolds, ValidParams;
    assert Fits(g) by { SourceFits(g); }
    forall k ensures KeyHolds(g, Cut(op, g).params, k) <==> KeyHolds(g, op.params, k) {
      KeyHoldsCut(g, op, k);
    }
  }

  lemma SourceFits(g: Grant)
    requires MergeableSource(g)
    ensures Fits(g)
  {
    hide FitsCaps, ValidBound, InRange;
  }

  /** all step tests of a grant, and nothing else of it */
  predicate GrantSteps(g: Grant, op: Operation) {
    forall k :: k in g.bounds ==> KeySteps(g, op.params, k)
  }

  /** a source's own part of entailment, on the operation as it is */
  predicate SourceAdmits(g: Grant, op: Operation) {
    IdEntails(g.id, op.id) && forall k :: k in Declared(g) ==> KeyHolds(g, op.params, k)
  }

  /** the same apart from steps */
  predicate SourceAdmitsLoosely(g: Grant, op: Operation) {
    IdEntails(g.id, op.id) && forall k :: k in Declared(g) ==> KeyLoose(g, op.params, k)
  }

  lemma AdmitsSplit(g: Grant, op: Operation)
    ensures SourceAdmits(g, op) <==> SourceAdmitsLoosely(g, op) && GrantSteps(g, op)
  {
    hide KeyHolds, KeyLoose, KeySteps, IdEntails;
    forall k ensures KeyHolds(g, op.params, k) <==> KeyLoose(g, op.params, k) && KeySteps(g, op.params, k) {
      KeyHoldsSplit(g, op.params, k);
    }
    forall k | k !in g.bounds ensures KeySteps(g, op.params, k) {
      NoSteps(g, op.params, k);
    }
  }

  /** apart from steps the merged grant admits exactly what all sources admit */
  lemma SourcesAdmitLoosely(grants: seq<Grant>, m: Grant, op: Operation)
    requires grants != [] && (forall i :: 0 <= i < |grants| ==> Merged(grants[i])) && MergeAll(grants) == Some(m)
    requires forall i :: 0 <= i < |grants| ==> Declared(grants[i]) <= Declared(m)
    ensures SourceAdmitsLoosely(m, op) <==> forall i :: 0 <= i < |grants| ==> SourceAdmitsLoosely(grants[i], op)
  {
    hide KeyLoose, IdEntails, Merged, MergeAll;
    MergeAllId(grants, m, op.id);
    forall k ensures KeyLoose(m, op.params, k) <==> forall i :: 0 <= i < |grants| ==> KeyLoose(grants[i], op.params, k) {
      MergeAllKeyLoose(grants, m, op.params, k);
    }
    LooseKeys(grants, m, op.params);
  }

  /** A key a source does not declare constrains nothing. */
  lemma LooseKeys(grants: seq<Grant>, m: Grant, op: map<string, Json>)
    requires forall i :: 0 <= i < |grants| ==> Declared(grants[i]) <= Declared(m)
    ensures (forall k, i :: 0 <= i < |grants| && k in Declared(m) ==> KeyLoose(grants[i], op, k))
            <==> forall i, k :: 0 <= i < |grants| && k in Declared(grants[i]) ==> KeyLoose(grants[i], op, k)
  {
    hide ValueSubset, Loose;
    forall i, k | 0 <= i < |grants| && k !in Declared(grants[i]) ensures KeyLoose(grants[i], op, k) {
    }
    hide KeyLoose;
  }

  lemma NoSteps(g: Grant, op: map<string, Json>, k: string)
    requires k !in g.bounds
    ensures KeySteps(g, op, k)
  {
  }

  /** a merged grant and its sources, with what entailment asks of them apart from the operation */
  lemma Sources(grants: seq<Grant>, m: Grant)
    requires Intersect(grants) == Some(m)
    ensures grants != [] && MergeAll(grants) == Some(m) && Merged(m) && m.params.Keys !! m.bounds.Keys
    ensures forall i :: 0 <= i < |grants| ==>
      && Merged(grants[i]) && MergeableSource(grants[i]) && grants[i].params.Keys !! grants[i].bounds.Keys
      && Declared(grants[i]) <= Declared(m)
  {
    hide MergeableSource, MergeAll, Merged, SitesAgree, Declared;
    forall i | 0 <= i < |grants| ensures Merged(grants[i]) {
      SourceIsMerged(grants[i]);
    }
    MergeAllKeeps(grants, m);
    IntersectSites(grants, m);
  }

  /** What the merged grant entails, each source entails in its own part exactly
      when the operation passes that source's own step tests. */
  lemma {:induction false} IntersectPerSource(grants: seq<Grant>, m: Grant, op: Operation, i: nat)
    requires Intersect(grants) == Some(m) && Entails(m, op) && i < |grants|
    ensures Entails(grants[i], Cut(op, grants[i])) <==> GrantSteps(grants[i], op)
  {
    hide Entails, MergeableSource, FitsCaps, Fits, Merged, Cut, SourceAdmits, SourceAdmitsLoosely, GrantSteps, ValidParams, MergeAll, Intersect;
    Sources(grants, m);
    MergedAdmits(m, op);
    AdmitsSplit(m, op);
    SourcesAdmitLoosely(grants, m, op);
    AdmitsSplit(grants[i], op);
    SourceCut(grants, m, op, i);
  }

  lemma MergedAdmits(m: Grant, op: Operation)
    requires Merged(m) && m.params.Keys !! m.bounds.Keys
    ensures Entails(m, op) <==> SourceAdmits(m, op) && Fits(m) && Closed(op, m)
  {
    hide Entails, Fits, Closed, Merged, KeyHolds, IdEntails;
    EntailsParts(m, op);
  }

  lemma SourceCut(grants: seq<Grant>, m: Grant, op: Operation, i: nat)
    requires Closed(op, m) && i < |grants| && Declared(grants[i]) <= Declared(m)
    requires MergeableSource(grants[i]) && grants[i].params.Keys !! grants[i].bounds.Keys
    ensures Entails(grants[i], Cut(op, grants[i])) <==> SourceAdmits(grants[i], op)
  {
    hide Entails, MergeableSource, ValidParams, Cut, IdEntails, KeyHolds;
    CutIsValid(grants, m, op, i);
    SourceEntailsCut(grants[i], op);
  }

  /** The merged grant fits the caps, the operation is valid and declared, and
      every source entails its own part, exactly when the merged grant entails
      the operation and every source's own step tests pass. */
  lemma {:induction false} IntersectExact(grants: seq<Grant>, m: Grant, op: Operation)
    requires Intersect(grants) == Some(m)
    ensures (Fits(m) && Closed(op, m) && forall i :: 0 <= i < |grants| ==> Entails(grants[i], Cut(op, grants[i]))) <==>
            (Entails(m, op) && forall i :: 0 <= i < |grants| ==> GrantSteps(grants[i], op))
  {
    hide Entails, MergeableSource, Fits, Closed, Merged, Cut, SourceAdmits, SourceAdmitsLoosely, GrantSteps, MergeAll, Intersect;
    Sources(grants, m);
    MergedAdmits(m, op);
    if Entails(m, op) {
      forall i | 0 <= i < |grants| ensures Entails(grants[i], Cut(op, grants[i])) <==> GrantSteps(grants[i], op) {
        IntersectPerSource(grants, m, op, i);
      }
    }
    if Closed(op, m) && forall i :: 0 <= i < |grants| ==> Entails(grants[i], Cut(op, grants[i])) {
      forall i | 0 <= i < |grants| ensures SourceAdmitsLoosely(grants[i], op) && GrantSteps(grants[i], op) {
        SourceCut(grants, m, op, i);
        AdmitsSplit(grants[i], op);
      }
      SourcesAdmitLoosely(grants, m, op);
      MergedSteps(grants, m, op);
      AdmitsSplit(m, op);
    }
  }

  lemma MergedSteps(grants: seq<Grant>, m: Grant, op: Operation)
    requires grants != [] && (forall i :: 0 <= i < |grants| ==> Merged(grants[i])) && MergeAll(grants) == Some(m)
    requires forall i :: 0 <= i < |grants| ==> GrantSteps(grants[i], op)
    ensures GrantSteps(m, op)
  {
    hide Merged, MergeAll, KeySteps;
    forall k | k in m.bounds ensures KeySteps(m, op.params, k) {
      forall i | 0 <= i < |grants| ensures KeySteps(grants[i], op.params, k) {
        if k !in grants[i].bounds {
          NoSteps(grants[i], op.params, k);
        }
      }
      MergeAllKeySteps(grants, m, op.params, k);
    }
  }

  lemma IntersectSites(grants: seq<Grant>, m: Grant)
    requires Intersect(grants) == Some(m)
    requires forall k :: k in m.params <==> exists i :: 0 <= i < |grants| && k in grants[i].params
    requires forall k :: k in m.bounds <==> exists i :: 0 <= i < |grants| && k in grants[i].bounds
    ensures m.params.Keys !! m.bounds.Keys
    ensures forall i :: 0 <= i < |grants| ==> grants[i].params.Keys !! grants[i].bounds.Keys
    ensures forall i :: 0 <= i < |grants| ==> Declared(grants[i]) <= Declared(m)
  {
    hide MergeAll, MergeableSource;
  }

  lemma CutIsValid(grants: seq<Grant>, m: Grant, op: Operation, i: nat)
    requires i < |grants| && Declared(grants[i]) <= Declared(m) && Closed(op, m)
    ensures Declared(grants[i]) != {} ==> ValidParams(Cut(op, grants[i]).params)
  {
    hide ValidParams, Restrict;
    if Declared(grants[i]) != {} {
      RestrictValid(op.params, Declared(grants[i]));
    }
  }

  /** sources that declare the same keys, or none at all */
  predicate Uniform(grants: seq<Grant>, m: Grant) {
    forall i :: 0 <= i < |grants| ==> Declared(grants[i]) == {} || Declared(grants[i]) == Declared(m)
  }

  lemma CutOfUniform(g: Grant, op: Operation)
    requires op.params.Keys <= Declared(g) || Declared(g) == {}
    ensures Entails(g, Cut(op, g)) <==> Entails(g, op)
  {
    hide ValidBounds, ValidGrantParams, ValidParams, EntailsDeclared, IdEntails;
    if Declared(g) != {} {
      assert Restrict(op.params, Declared(g)) == op.params;
    }
  }

  lemma EntailsIsClosed(g: Grant, op: Operation)
    requires Entails(g, op)
    ensures Closed(op, g)
  {
    hide ValidBounds, ValidGrantParams, ValidParams, KeyHolds, IdEntails;
  }

  /** When sources declare the same keys, all of them entail the operation and
      the merged grant fits the caps exactly when the merged grant entails it
      and every source's own step tests pass. */
  lemma {:induction false} IntersectUniform(grants: seq<Grant>, m: Grant, op: Operation)
    requires Intersect(grants) == Some(m) && Uniform(grants, m)
    ensures (Fits(m) && forall i :: 0 <= i < |grants| ==> Entails(grants[i], op)) <==>
            (Entails(m, op) && forall i :: 0 <= i < |grants| ==> GrantSteps(grants[i], op))
  {
    IntersectExact(grants, m, op);
    hide Entails, FitsCaps, Fits, ValidParams, Cut, Intersect, GrantSteps;
    if Closed(op, m) {
      forall i | 0 <= i < |grants|
        ensures Entails(grants[i], Cut(op, grants[i])) <==> Entails(grants[i], op)
      {
        CutOfUniform(grants[i], op);
      }
    }
    hide Closed;
    if forall i :: 0 <= i < |grants| ==> Entails(grants[i], op) {
      UniformClosed(grants, m, op);
    }
  }

  /** When sources declare the same keys and the merged grant entails the
      operation, each source entails it exactly when its own step tests pass. */
  lemma {:induction false} UniformPerSource(grants: seq<Grant>, m: Grant, op: Operation, i: nat)
    requires Intersect(grants) == Some(m) && Uniform(grants, m) && Entails(m, op) && i < |grants|
    ensures Entails(grants[i], op) <==> GrantSteps(grants[i], op)
  {
    IntersectPerSource(grants, m, op, i);
    EntailsIsClosed(m, op);
    hide Entails, ValidParams, Cut, Intersect, GrantSteps;
    CutOfUniform(grants[i], op);
  }

  lemma UniformClosed(grants: seq<Grant>, m: Grant, op: Operation)
    requires Intersect(grants) == Some(m) && Uniform(grants, m)
    requires forall i :: 0 <= i < |grants| ==> Entails(grants[i], op)
    ensures Closed(op, m)
  {
    hide Entails, FitsCaps, ValidParams, MergeAll, Merged, MergeableSource, SitesAgree;
    if k :| k in Declared(m) {
      forall i | 0 <= i < |grants| ensures Merged(grants[i]) {
        SourceIsMerged(grants[i]);
      }
      MergeAllKeeps(grants, m);
      var i :| 0 <= i < |grants| && (k in grants[i].params || k in grants[i].bounds);
      assert k in Declared(grants[i]);
      EntailsIsClosed(grants[i], op);
    }
  }
}
