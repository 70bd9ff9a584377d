/**
 The last grant of a chain decides: containment and a defined meet make the
 merged grant accept exactly what the last grant accepts, steps included.
 */
module ChainLast {
  import opened Numbers
  import opened Basics
  import opened Json
  import opened Caps
  import opened Bounds
  import opened BoundLattice
  import opened BoundSteps
  import opened Ids
  import opened Grants
  import opened GrantMeet
  import opened Containment
  import opened Authorization
  import opened Delegation

  // ---------------------------------------------------------------------
  // Parameter values
  // ---------------------------------------------------------------------

  /** two values of one kind, objects key by key */
  predicate SameShape(r: Json, c: Json) {
    match r
    case Num(_) => c.Num?
    case Arr(_) => c.Arr?
    case Obj(fields) => c.Obj? && fields.Keys == c.fields.Keys && forall k :: k in fields ==> SameShape(fields[k], c.fields[k])
    case _ => r == c
  }

  lemma {:induction false} SameShapeReflexive(v: Json)
    ensures SameShape(v, v)
  {
    if v.Obj? {
      forall k | k in v.fields ensures SameShape(v.fields[k], v.fields[k]) {
        SameShapeReflexive(v.fields[k]);
      }
    }
  }

  /** a meet keeps the shape of its sides */
  lemma {:induction false} MeetShape(a: Json, b: Json)
    requires IntersectValue(a, b).Some?
    ensures SameShape(IntersectValue(a, b).value, b)
    decreases a
  {
    var m := IntersectValue(a, b).value;
    hide Decimal.Value;
    match a
    case Obj(fields) =>
      SameKeySets(fields, b.fields);
      forall k | k in fields ensures SameShape(m.fields[k], b.fields[k]) {
        MeetShape(fields[k], b.fields[k]);
      }
    case _ =>
  }

  /** a child that meets something of its parent's shape is safe under the parent */
  lemma {:induction false} ShapeSafe(child: Json, parent: Json, r: Json)
    requires ValueSubset(child, parent) && SameShape(r, parent) && IntersectValue(r, child).Some?
    ensures Safe(child, parent)
    decreases parent
  {
    hide Void, Pinned, Decimal.Value;
    if parent.Obj? && parent.fields != map[] && child.Obj? {
      forall k | k in parent.fields && k in child.fields ensures Safe(child.fields[k], parent.fields[k]) {
        ShapeSafe(child.fields[k], parent.fields[k], r.fields[k]);
      }
    }
  }

  /** same shape, and the same values accepted */
  ghost predicate SameValues(r: Json, c: Json) {
    SameShape(r, c) && forall o :: ValueSubset(o, r) <==> ValueSubset(o, c)
  }

  lemma ValueStep(r: Json, p: Json, c: Json)
    requires SameValues(r, p) && ValueSubset(c, p) && IntersectValue(r, c).Some?
    ensures SameValues(IntersectValue(r, c).value, c)
  {
    hide ValueSubset, IntersectValue, SameShape, Safe;
    MeetShape(r, c);
    ShapeSafe(c, p, r);
    forall o ensures ValueSubset(o, IntersectValue(r, c).value) <==> ValueSubset(o, c) {
      IntersectValueExact(r, c, o);
      if ValueSubset(o, c) {
        SafeCarries(c, p, o);
      }
    }
  }

  // ---------------------------------------------------------------------
  // Bounds
  // ---------------------------------------------------------------------

  /** the same values accepted apart from steps, the same step tests, and the same marker */
  ghost predicate SameBound(r: Bound, c: Bound) {
    && Coarser(r, c) && Coarser(c, r) && (r.IsOptional() <==> c.IsOptional())
    && forall v :: Loose(v, r) <==> Loose(v, c)
  }

  lemma SameBoundReflexive(b: Bound)
    ensures SameBound(b, b)
  {
    hide Coarser, Loose;
    CoarserReflexive(b);
  }

  lemma BoundStep(r: Bound, p: Bound, c: Bound, m: Bound)
    requires ValidBound(r) && ValidBound(p) && ValidBound(c) && SameBound(r, p) && BoundWithin(c, p) && BoundMeet(r, c) == Some(m)
    ensures SameBound(m, c)
  {
    WithinMarker(c, p);
    hide Coarser, Loose, BoundMeet, BoundWithin, ValidBound;
    MeetIsGreatestLower(r, c);
    MeetOptional(r, c);
    MeetIsCoarser(r, c, m);
    WithinCoarser(c, p);
    CoarserTransitive(c, p, r);
    CoarserReflexive(c);
    MeetIsLeast(r, c, m, c);
    forall v ensures Loose(v, m) <==> Loose(v, c) {
      if Loose(v, c) {
        WithinLoose(v, c, p);
      }
    }
  }

  lemma WithinMarker(c: Bound, p: Bound)
    requires BoundWithin(c, p)
    ensures c.IsOptional() ==> p.IsOptional()
  {
  }

  // ---------------------------------------------------------------------
  // Grants
  // ---------------------------------------------------------------------

  ghost predicate SameGrant(r: Grant, c: Grant) {
    && r.id == c.id && r.params.Keys == c.params.Keys && r.bounds.Keys == c.bounds.Keys
    && (forall k :: k in c.params ==> SameValues(r.params[k], c.params[k]))
    && (forall k :: k in c.bounds ==> SameBound(r.bounds[k], c.bounds[k]))
  }

  lemma ContainedId(p: Grant, c: Grant)
    requires Contains(p, c)
    ensures MergeIds(p.id, c.id) == Some(c.id)
  {
    hide ValidId, MatchId, ValidGrantParams, ValidBounds, Narrower;
    FirstSegment(p.id, c.id);
  }

  lemma FirstSegment(a: string, b: string)
    requires ValidId(a) && MatchId(a, b)
    ensures Split(a)[0] == Split(b)[0]
  {
  }

  lemma GrantStep(r: Grant, p: Grant, c: Grant, m: Grant)
    requires Merged(r) && Merged(p) && Merged(c) && Contains(p, c) && SameGrant(r, p) && Merge(r, c) == Some(m)
    ensures SameGrant(m, c)
  {
    hide SameValues, SameBound, ValidBound, BoundMeet, BoundWithin, IntersectValue, ValueSubset, ValidGrantParams, ValidBounds,
      ValidId, MatchId, MergeIds, MergeConstraints;
    ContainedId(p, c);
    if Declared(p) == {} {
      assert r.params.Keys == {} && r.bounds.Keys == {};
      assert m.params == c.params && m.bounds == c.bounds;
      SameGrantReflexive(c);
    } else {
      forall k | k in c.params ensures SameValues(m.params[k], c.params[k]) {
        ValueStep(r.params[k], p.params[k], c.params[k]);
      }
      forall k | k in c.bounds ensures SameBound(m.bounds[k], c.bounds[k]) {
        BoundStep(r.bounds[k], p.bounds[k], c.bounds[k], m.bounds[k]);
      }
    }
  }

  lemma SameGrantReflexive(c: Grant)
    ensures SameGrant(c, c)
  {
    hide SameShape, SameBound, ValueSubset;
    forall k | k in c.params ensures SameValues(c.params[k], c.params[k]) {
      SameShapeReflexive(c.params[k]);
    }
    forall k | k in c.bounds ensures SameBound(c.bounds[k], c.bounds[k]) {
      SameBoundReflexive(c.bounds[k]);
    }
  }

  /** the merge of a contained chain accepts what its last grant accepts */
  lemma {:induction false} ChainIsLast(chain: seq<Grant>, m: Grant)
    requires chain != [] && ContainedChain(chain) && (forall i :: 0 <= i < |chain| ==> Merged(chain[i])) && MergeAll(chain) == Some(m)
    ensures SameGrant(m, chain[|chain| - 1])
  {
    hide Merged, Merge, SameGrant, Contains;
    var n := |chain| - 1;
    if n == 0 {
      SameGrantReflexive(m);
    } else {
      var init := chain[..n];
      var r := MergeAll(init).value;
      assert forall i :: 0 <= i < n ==> init[i] == chain[i];
      assert ContainedChain(init);
      ChainIsLast(init, r);
      MergeAllKeeps(init, r);
      assert Contains(chain[n - 1], chain[n]);
      GrantStep(r, chain[n - 1], chain[n], m);
    }
  }

  lemma SameKeyHolds(m: Grant, c: Grant, op: map<string, Json>, k: string)
    requires SameGrant(m, c)
    ensures KeyHolds(m, op, k) <==> KeyHolds(c, op, k)
  {
    hide ValueSubset, Loose, Coarser, StepsHold, BoundSubset, SameShape;
    KeyHoldsSplit(m, op, k);
    KeyHoldsSplit(c, op, k);
    if k in c.bounds && k in op {
      SameCoarseness(op[k], m.bounds[k], c.bounds[k]);
    }
  }

  lemma SameEntails(m: Grant, c: Grant, op: Operation)
    requires SameGrant(m, c) && Merged(m) && Merged(c) && Fits(c)
    requires m.params.Keys !! m.bounds.Keys && c.params.Keys !! c.bounds.Keys
    ensures Entails(m, op) <==> Fits(m) && Entails(c, op)
  {
    hide Entails, Merged, Fits, ValidParams, KeyHolds, SameValues, SameBound, IdEntails;
    MergedAdmits(m, op);
    MergedAdmits(c, op);
    assert Declared(m) == Declared(c);
    forall k ensures KeyHolds(m, op.params, k) <==> KeyHolds(c, op.params, k) {
      SameKeyHolds(m, c, op.params, k);
    }
  }

  /** A chain decision, for every step: it does not deny exactly when the chain
      is contained, its meet exists within the caps, the operation is valid,
      the last grant entails it, and the constraints of all grants hold. */
  lemma {:induction false} LastGrantDecides(chain: seq<Grant>, op: Operation, grammar: Grammar)
    ensures AuthorizeWithChain(chain, op, grammar) != Deny <==>
            && chain != [] && ContainedChain(chain)
            && Intersect(chain).Some? && Fits(Intersect(chain).value)
            && ValidOperation(op)
            && Entails(chain[|chain| - 1], op)
            && forall i :: 0 <= i < |chain| ==> ConstraintsHold(chain[i], op, grammar)
  {
    hide ValidOperation, ConstraintsHold, Entails, Fits, Contains, MergeAll, Mergeable, Merged, MergeableSource, SameGrant;
    if chain != [] && ContainedChain(chain) && Intersect(chain).Some? {
      var m := Intersect(chain).value;
      var last := chain[|chain| - 1];
      Sources(chain, m);
      ChainIsLast(chain, m);
      SourceFits(last);
      SameEntails(m, last, op);
      MergeAllConstraints(chain, m);
      MergedConstraintsHold(chain, m, op, grammar);
      SingleGrant(m, op, grammar);
    }
  }
}
