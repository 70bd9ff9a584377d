/**
 The order of the sources of a merge, and sources whose step tests follow from
 those of the merged grant.
 */
module GrantOrder {
  import opened Numbers
  import opened Json
  import opened Caps
  import opened Bounds
  import opened BoundLattice
  import opened BoundSteps
  import opened Grants
  import opened GrantMeet

  // ---------------------------------------------------------------------
  // The steps of a merged grant
  // ---------------------------------------------------------------------

  lemma MergeIsCoarser(r: Grant, g: Grant, m: Grant, k: string)
    requires Merged(r) && Merged(g) && Merge(r, g) == Some(m) && k in m.bounds
    ensures (k in r.bounds ==> Coarser(m.bounds[k], r.bounds[k])) && (k in g.bounds ==> Coarser(m.bounds[k], g.bounds[k]))
  {
    hide BoundMeet, ValidBound, InRange, Coarser, ParamsMeet, MergeParams, MergeIds, MergeConstraints;
    if k in r.bounds && k in g.bounds {
      MeetIsCoarser(r.bounds[k], g.bounds[k], m.bounds[k]);
    } else {
      CoarserReflexive(m.bounds[k]);
    }
  }

  lemma MergeIsLeast(r: Grant, g: Grant, m: Grant, k: string, x: Bound)
    requires Merged(r) && Merged(g) && Merge(r, g) == Some(m) && k in m.bounds
    requires (k in r.bounds ==> Coarser(x, r.bounds[k])) && (k in g.bounds ==> Coarser(x, g.bounds[k]))
    ensures Coarser(x, m.bounds[k])
  {
    hide BoundMeet, ValidBound, InRange, Coarser, ParamsMeet, MergeParams, MergeIds, MergeConstraints;
    if k in r.bounds && k in g.bounds {
      MeetIsLeast(r.bounds[k], g.bounds[k], m.bounds[k], x);
    }
  }

  /** a merged step is at least every source's */
  lemma {:induction false} MergeAllCoarser(grants: seq<Grant>, m: Grant, k: string)
    requires grants != [] && (forall i :: 0 <= i < |grants| ==> Merged(grants[i])) && MergeAll(grants) == Some(m)
    ensures forall i :: 0 <= i < |grants| && k in grants[i].bounds ==> k in m.bounds && Coarser(m.bounds[k], grants[i].bounds[k])
  {
    hide Merged, Merge, Coarser;
    var n := |grants| - 1;
    MergeAllKeeps(grants, m);
    if n == 0 {
      if k in m.bounds {
        CoarserReflexive(m.bounds[k]);
      }
    } else if k in m.bounds {
      var init := grants[..n];
      var r := MergeAll(init).value;
      assert forall i :: 0 <= i < n ==> init[i] == grants[i];
      MergeAllKeeps(init, r);
      MergeAllCoarser(init, r, k);
      MergeIsCoarser(r, grants[n], m, k);
      hide MergeAll;
      forall i | 0 <= i < n && k in grants[i].bounds ensures Coarser(m.bounds[k], grants[i].bounds[k]) {
        assert init[i] == grants[i];
        CoarserTransitive(m.bounds[k], r.bounds[k], grants[i].bounds[k]);
      }
    }
  }

  /** and at most whatever is at least every source's */
  lemma {:induction false} MergeAllLeast(grants: seq<Grant>, m: Grant, k: string, x: Bound)
    requires grants != [] && (forall i :: 0 <= i < |grants| ==> Merged(grants[i])) && MergeAll(grants) == Some(m)
    requires forall i :: 0 <= i < |grants| && k in grants[i].bounds ==> Coarser(x, grants[i].bounds[k])
    ensures k in m.bounds ==> Coarser(x, m.bounds[k])
  {
    hide Merged, Merge, Coarser;
    var n := |grants| - 1;
    if n > 0 {
      var init := grants[..n];
      var r := MergeAll(init).value;
      assert forall i :: 0 <= i < n ==> init[i] == grants[i];
      MergeAllKeeps(init, r);
      MergeAllLeast(init, r, k, x);
      if k in m.bounds {
        MergeIsLeast(r, grants[n], m, k, x);
      }
    }
  }

  // ---------------------------------------------------------------------
  // Any two orders
  // ---------------------------------------------------------------------

  /** two merges of the same sources make the same step tests */
  lemma OrdersCoarser(a: seq<Grant>, b: seq<Grant>, m: Grant, n: Grant, k: string)
    requires a != [] && (forall i :: 0 <= i < |a| ==> Merged(a[i])) && MergeAll(a) == Some(m)
    requires b != [] && (forall i :: 0 <= i < |b| ==> Merged(b[i])) && MergeAll(b) == Some(n)
    requires (forall g :: g in a <==> g in b) && k in m.bounds && k in n.bounds
    ensures Coarser(m.bounds[k], n.bounds[k])
  {
    hide Merged, MergeAll, Coarser;
    MergeAllCoarser(a, m, k);
    forall i | 0 <= i < |b| && k in b[i].bounds ensures Coarser(m.bounds[k], b[i].bounds[k]) {
      assert b[i] in a;
      var j :| 0 <= j < |a| && a[j] == b[i];
    }
    MergeAllLeast(b, n, k, m.bounds[k]);
  }

  lemma OrdersStep(a: seq<Grant>, b: seq<Grant>, m: Grant, n: Grant, op: Operation)
    requires a != [] && (forall i :: 0 <= i < |a| ==> Merged(a[i])) && MergeAll(a) == Some(m)
    requires b != [] && (forall i :: 0 <= i < |b| ==> Merged(b[i])) && MergeAll(b) == Some(n)
    requires forall g :: g in a <==> g in b
    ensures GrantSteps(m, op) ==> GrantSteps(n, op)
  {
    hide Merged, MergeAll, Coarser, StepsHold;
    MergeAllKeeps(a, m);
    MergeAllKeeps(b, n);
    if GrantSteps(m, op) {
      forall k | k in n.bounds ensures KeySteps(n, op.params, k) {
        var i :| 0 <= i < |b| && k in b[i].bounds;
        assert b[i] in a;
        assert k in m.bounds;
        OrdersCoarser(a, b, m, n, k);
        OrdersCoarser(b, a, n, m, k);
        if k in op.params {
          SameCoarseness(op.params[k], m.bounds[k], n.bounds[k]);
        }
      }
    }
  }

  lemma OrdersEntail(a: seq<Grant>, b: seq<Grant>, m: Grant, n: Grant, op: Operation)
    requires (forall g :: g in a <==> g in b) && Intersect(a) == Some(m) && Intersect(b) == Some(n)
    requires Fits(m) && Fits(n) && Declared(m) == Declared(n) && Entails(m, op)
    ensures Entails(n, op)
  {
    hide Entails, Fits, Merged, MergeAll, Intersect, MergeableSource, SourceAdmits, SourceAdmitsLoosely, GrantSteps, ValidParams;
    Sources(a, m);
    Sources(b, n);
    MergedAdmits(m, op);
    MergedAdmits(n, op);
    assert Closed(op, n);
    hide Closed;
    AdmitsSplit(m, op);
    AdmitsSplit(n, op);
    SourcesAdmitLoosely(a, m, op);
    SourcesAdmitLoosely(b, n, op);
    OrdersStep(a, b, m, n, op);
    forall i | 0 <= i < |b| ensures SourceAdmitsLoosely(b[i], op) {
      assert b[i] in a;
    }
  }

  /** Any two orders of the same sources that both merge within the caps accept the same operations. */
  lemma {:induction false} IntersectOrderIrrelevant(a: seq<Grant>, b: seq<Grant>, m: Grant, n: Grant, op: Operation)
    requires multiset(a) == multiset(b) && Intersect(a) == Some(m) && Intersect(b) == Some(n)
    requires Fits(m) && Fits(n)
    ensures Entails(m, op) <==> Entails(n, op)
  {
    hide Entails, Fits, Intersect;
    SameMembers(a, b);
    SameDeclared(a, b, m, n);
    if Entails(m, op) {
      OrdersEntail(a, b, m, n, op);
    }
    if Entails(n, op) {
      OrdersEntail(b, a, n, m, op);
    }
  }

  lemma SameMembers(a: seq<Grant>, b: seq<Grant>)
    requires multiset(a) == multiset(b)
    ensures forall g :: g in a <==> g in b
  {
    forall g ensures g in a <==> g in b {
      assert g in a <==> g in multiset(a);
      assert g in b <==> g in multiset(b);
    }
  }

  lemma SameDeclared(a: seq<Grant>, b: seq<Grant>, m: Grant, n: Grant)
    requires multiset(a) == multiset(b) && Intersect(a) == Some(m) && Intersect(b) == Some(n)
    ensures Declared(m) == Declared(n)
  {
    DeclaredFrom(a, b, m, n);
    DeclaredFrom(b, a, n, m);
  }

  lemma DeclaredFrom(a: seq<Grant>, b: seq<Grant>, m: Grant, n: Grant)
    requires multiset(a) == multiset(b) && Intersect(a) == Some(m) && Intersect(b) == Some(n)
    ensures Declared(m) <= Declared(n)
  {
    hide MergeAll, Merged, MergeableSource, SitesAgree;
    forall i | 0 <= i < |a| ensures Merged(a[i]) { SourceIsMerged(a[i]); }
    forall i | 0 <= i < |b| ensures Merged(b[i]) { SourceIsMerged(b[i]); }
    MergeAllKeeps(a, m);
    MergeAllKeeps(b, n);
    forall k | k in Declared(m) ensures k in Declared(n) {
      var i :| 0 <= i < |a| && (k in a[i].params || k in a[i].bounds);
      assert a[i] in multiset(a);
      var j :| 0 <= j < |b| && b[j] == a[i];
    }
  }

  // ---------------------------------------------------------------------
  // Commensurable sources
  // ---------------------------------------------------------------------

  /** wherever two sources declare steps for the same place, these are equal or both whole */
  predicate Commensurate(grants: seq<Grant>) {
    forall i, j, k :: 0 <= i < |grants| && 0 <= j < |grants| && k in grants[i].bounds && k in grants[j].bounds ==>
      Commensurable(grants[i].bounds[k], grants[j].bounds[k])
  }

  lemma {:induction false} MergeAllCommensurable(grants: seq<Grant>, m: Grant, k: string, x: Bound)
    requires grants != [] && (forall i :: 0 <= i < |grants| ==> Merged(grants[i])) && MergeAll(grants) == Some(m)
    requires forall i :: 0 <= i < |grants| && k in grants[i].bounds ==> Commensurable(grants[i].bounds[k], x)
    ensures k in m.bounds ==> Commensurable(m.bounds[k], x)
  {
    hide Commensurable, BoundMeet, ValidBound, MergeIds, ParamsMeet, MergeParams, IntersectValue;
    var n := |grants| - 1;
    if n > 0 {
      var init := grants[..n];
      var r := MergeAll(init).value;
      assert forall i :: 0 <= i < n ==> init[i] == grants[i];
      MergeAllCommensurable(init, r, k, x);
      MergeAllKeeps(init, r);
      if k in r.bounds && k in grants[n].bounds {
        MeetCommensurable(r.bounds[k], grants[n].bounds[k], m.bounds[k], x);
      }
    }
  }

  lemma CarriedSteps(a: Bound, b: Bound, m: Bound, v: Json)
    requires ValidBound(a) && ValidBound(b) && BoundMeet(a, b) == Some(m) && Commensurable(b, a)
    requires StepsHold(v, m) && InRange(v)
    ensures StepsHold(v, a) && StepsHold(v, b)
  {
    hide Commensurable, BoundMeet, ValidBound, BoundWithin, BoundSubset, StepsHold, InRange;
    MeetIsGreatestLower(a, b);
    CommensurableWithItself(a);
    CommensurableWithItself(b);
    CommensurableSymmetric(b, a);
    MeetCommensurable(a, b, m, a);
    MeetCommensurable(a, b, m, b);
    StepsCarry(v, m, a);
    StepsCarry(v, m, b);
  }

  lemma CommensurateInit(grants: seq<Grant>)
    requires Commensurate(grants) && grants != []
    ensures Commensurate(grants[..|grants| - 1])
  {
    hide Commensurable;
    var init := grants[..|grants| - 1];
    assert forall i :: 0 <= i < |init| ==> init[i] == grants[i];
  }

  lemma MergeSteps(r: Grant, g: Grant, m: Grant, k: string, v: Json)
    requires Merged(r) && Merged(g) && Merge(r, g) == Some(m)
    requires k in m.bounds && StepsHold(v, m.bounds[k]) && InRange(v)
    requires k in r.bounds && k in g.bounds ==> Commensurable(g.bounds[k], r.bounds[k])
    ensures (k in r.bounds ==> StepsHold(v, r.bounds[k])) && (k in g.bounds ==> StepsHold(v, g.bounds[k]))
  {
    hide Commensurable, BoundMeet, ValidBound, MergeIds, ParamsMeet, MergeParams, IntersectValue, StepsHold, InRange;
    if k in r.bounds && k in g.bounds {
      CarriedSteps(r.bounds[k], g.bounds[k], m.bounds[k], v);
    }
  }

  lemma LastCommensurable(grants: seq<Grant>, r: Grant, k: string)
    requires |grants| > 1 && (forall i :: 0 <= i < |grants| ==> Merged(grants[i])) && Commensurate(grants)
    requires MergeAll(grants[..|grants| - 1]) == Some(r)
    ensures var g := grants[|grants| - 1]; k in r.bounds && k in g.bounds ==> Commensurable(g.bounds[k], r.bounds[k])
  {
    hide Commensurable, Merged, MergeAll;
    var n := |grants| - 1;
    var init := grants[..n];
    if k in r.bounds && k in grants[n].bounds {
      assert forall i :: 0 <= i < n ==> init[i] == grants[i];
      MergeAllCommensurable(init, r, k, grants[n].bounds[k]);
      CommensurableSymmetric(r.bounds[k], grants[n].bounds[k]);
    }
  }

  /** step tests that pass at a merged Bound pass at every source's */
  lemma {:induction false} MergeAllSteps(grants: seq<Grant>, m: Grant, k: string, v: Json)
    requires grants != [] && (forall i :: 0 <= i < |grants| ==> Merged(grants[i])) && MergeAll(grants) == Some(m)
    requires Commensurate(grants) && k in m.bounds && StepsHold(v, m.bounds[k]) && InRange(v)
    ensures forall i :: 0 <= i < |grants| && k in grants[i].bounds ==> StepsHold(v, grants[i].bounds[k])
  {
    hide StepsHold, InRange, Merge, Merged, Commensurate;
    var n := |grants| - 1;
    if n > 0 {
      var init := grants[..n];
      var r := MergeAll(init).value;
      assert forall i :: 0 <= i < n ==> init[i] == grants[i];
      MergeAllKeeps(init, r);
      CommensurateInit(grants);
      LastCommensurable(grants, r, k);
      MergeSteps(r, grants[n], m, k, v);
      if k in r.bounds {
        MergeAllSteps(init, r, k, v);
      }
      hide MergeAll;
      forall i | 0 <= i < |grants| && k in grants[i].bounds ensures StepsHold(v, grants[i].bounds[k]) {
        if i < n {
          assert init[i] == grants[i];
        }
      }
    }
  }

  /** Among commensurable sources, what the merged grant entails passes every source's step tests. */
  lemma {:induction false} IntersectSteps(grants: seq<Grant>, m: Grant, op: Operation)
    requires Intersect(grants) == Some(m) && Commensurate(grants) && Entails(m, op)
    ensures forall i :: 0 <= i < |grants| ==> GrantSteps(grants[i], op)
  {
    hide MergeableSource, IdEntails, FitsCaps, ValidBound, MergeAll, Merged, SitesAgree, Commensurate, StepsHold, InRange,
      BoundSubset, ValueSubset, ValidBounds, ValidGrantParams;
    forall i | 0 <= i < |grants| ensures Merged(grants[i]) {
      SourceIsMerged(grants[i]);
    }
    MergeAllKeeps(grants, m);
    forall i, k | 0 <= i < |grants| && k in grants[i].bounds && k in op.params
      ensures StepsHold(op.params[k], grants[i].bounds[k])
    {
      assert k in m.bounds && k in Declared(m);
      assert KeyHolds(m, op.params, k);
      AcceptedSteps(op.params[k], m.bounds[k]);
      MergeAllSteps(grants, m, k, op.params[k]);
    }
  }

  /** Among commensurable sources the merged grant entails an operation exactly
      when it fits the caps, the operation is valid and declared, and every
      source entails its own part. */
  lemma {:induction false} IntersectCommensurate(grants: seq<Grant>, m: Grant, op: Operation)
    requires Intersect(grants) == Some(m) && Commensurate(grants)
    ensures Entails(m, op) <==>
            Fits(m) && Closed(op, m) && forall i :: 0 <= i < |grants| ==> Entails(grants[i], Cut(op, grants[i]))
  {
    hide Entails, Fits, Closed, Cut, Commensurate, GrantSteps, Intersect;
    IntersectExact(grants, m, op);
    if Entails(m, op) {
      IntersectSteps(grants, m, op);
    }
  }
}
