/**
 When meets exist. The results on meets speak of those that are defined; here
 is exactly which are.
 */
module MeetDefined {
  import opened Numbers
  import opened Basics
  import opened Json
  import opened Bounds
  import opened Ids
  import opened IdText
  import opened Grants
  import opened Acceptance

  // ---------------------------------------------------------------------
  // Bounds
  // ---------------------------------------------------------------------

  /** the upper limit lies below the lower one */
  predicate Cross(lo: Option<Number>, hi: Option<Number>) {
    lo.Some? && hi.Some? && hi.value.Value() < lo.value.Value()
  }

  lemma LimitsMeet(a: Option<Number>, b: Option<Number>, c: Option<Number>, d: Option<Number>)
    requires Ordered(a, c) && Ordered(b, d)
    ensures Ordered(Greater(a, b), Lesser(c, d)) <==> !Cross(a, d) && !Cross(b, c)
  {
    hide Decimal.Value;
  }

  /** Two numeric Bounds meet exactly when neither range ends before the other
      begins and, with two steps, one is a multiple of the other. */
  lemma {:induction false} NumericMeetDefined(a: Bound, b: Bound)
    requires ValidBound(a) && ValidBound(b) && a.HasNumeric() && b.HasNumeric()
    ensures BoundMeet(a, b).Some? <==>
      && !Cross(a.min, b.max) && !Cross(b.min, a.max)
      && (a.step.Some? && b.step.Some? ==> IsMultipleOf(a.step.value, b.step.value) || IsMultipleOf(b.step.value, a.step.value))
  {
    LimitsMeet(a.min, b.min, a.max, b.max);
    hide IsMultipleOf, Decimal.Value, Greater, Lesser, Ordered, Cross, IsCount, Binary64.Float;
  }

  /** Two enum Bounds meet exactly when their item limits do not cross and, with
      two listings, some member is on both. */
  lemma {:induction false} EnumMeetDefined(a: Bound, b: Bound)
    requires ValidBound(a) && ValidBound(b) && a.HasEnum() && b.HasEnum()
    ensures BoundMeet(a, b).Some? <==>
      && !Cross(a.minItems, b.maxItems) && !Cross(b.minItems, a.maxItems)
      && (a.members.Some? && b.members.Some? ==> exists x :: x in a.members.value && x in b.members.value)
  {
    LimitsMeet(a.minItems, b.minItems, a.maxItems, b.maxItems);
    if a.members.Some? && b.members.Some? {
      SharedListed(a.members.value, b.members.value);
    }
    hide IsMultipleOf, Decimal.Value, Greater, Lesser, Ordered, Cross, IsCount, Binary64.Float, CanonicalMembers, Filter;
  }

  lemma SharedListed(xs: seq<Json>, ys: seq<Json>)
    ensures CanonicalMembers(Filter(xs, ys)) != [] <==> exists x :: x in xs && x in ys
  {
    var r := CanonicalMembers(Filter(xs, ys));
    assert forall x :: x in r <==> x in xs && x in ys;
    hide CanonicalMembers, Filter;
    if r != [] {
      assert r[0] in r;
    }
  }

  /** Two nested Bounds meet exactly when they have the same keys and meet at each. */
  lemma {:induction false} NestedMeetDefined(a: Bound, b: Bound)
    requires ValidBound(a) && ValidBound(b) && a.HasNested() && b.HasNested()
    ensures BoundMeet(a, b).Some? <==>
      && a.nested.fields.Keys == b.nested.fields.Keys
      && forall k :: k in a.nested.fields && k in b.nested.fields ==> BoundMeet(a.nested.fields[k], b.nested.fields[k]).Some?
  {
    var m, n := a.nested.fields, b.nested.fields;
    if Overlapping(m, n) {
      SameKeySets(m, n);
    }
    if m.Keys == n.Keys {
      assert |m| == |m.Keys| == |n.Keys| == |n|;
    }
  }

  /** Bounds of different families never meet; one without members meets every other. */
  lemma {:induction false} MixedMeetDefined(a: Bound, b: Bound)
    requires ValidBound(a) && ValidBound(b)
    ensures !a.HasNumeric() && !a.HasEnum() && !a.HasNested() ==> BoundMeet(a, b).Some? && BoundMeet(b, a).Some?
    ensures (a.HasNumeric() && (b.HasEnum() || b.HasNested())) || (a.HasEnum() && b.HasNested()) ==>
      BoundMeet(a, b).None? && BoundMeet(b, a).None?
  {
    hide IsMultipleOf, Decimal.Value, Ordered, IsCount, Binary64.Float, NumericMeet, EnumMeet, NestedMeet;
  }

  // ---------------------------------------------------------------------
  // Plain values and grants
  // ---------------------------------------------------------------------

  /** Two numbers always meet, two lists when they share a member, two objects
      with the same keys, at least one, when they meet at each; other values only
      when equal. */
  lemma {:induction false} ValueMeetDefined(a: Json, b: Json)
    ensures IntersectValue(a, b).Some? <==>
      match a
      case Num(_) => b.Num?
      case Arr(items) => b.Arr? && exists x :: x in items && x in b.items
      case Obj(fields) =>
        && b.Obj? && fields != map[] && fields.Keys == b.fields.Keys
        && forall k :: k in fields && k in b.fields ==> IntersectValue(fields[k], b.fields[k]).Some?
      case _ => a == b
  {
    if a.Arr? && b.Arr? {
      var r := Filter(a.items, b.items);
      assert forall x :: x in r <==> x in a.items && x in b.items;
      if r != [] {
        assert r[0] in r;
      }
    } else if a.Obj? && b.Obj? {
      if |a.fields| == |b.fields| && forall k :: k in a.fields ==> k in b.fields {
        SameKeySets(a.fields, b.fields);
      }
      if a.fields.Keys == b.fields.Keys {
        assert |a.fields| == |a.fields.Keys| == |b.fields.Keys| == |b.fields|;
      }
    }
  }

  /** Two grants merge exactly when their identifiers are equal or one stands
      below the other and what both declare meets, key by key. */
  lemma {:induction false} MergeDefined(r: Grant, g: Grant)
    ensures Merge(r, g).Some? <==>
      && (r.id == g.id || (ValidId(r.id) && ValidId(g.id) && (Below(r.id, g.id) || Below(g.id, r.id))))
      && (forall k :: k in r.params && k in g.params ==> IntersectValue(r.params[k], g.params[k]).Some?)
      && (forall k :: k in r.bounds && k in g.bounds ==> BoundMeet(r.bounds[k], g.bounds[k]).Some?)
  {
    IdEntailsOnText(r.id, g.id);
    IdEntailsOnText(g.id, r.id);
    hide IdEntails, ValidId, Below, IntersectValue, BoundMeet;
  }

  /** A single source stands for itself; one more source is merged into the meet
      of the others, when each is sound and no key is a parameter of one and a
      Bound of another. */
  lemma {:induction false} IntersectNext(grants: seq<Grant>, g: Grant)
    ensures Intersect([g]) == if MergeableSource(g) && g.params.Keys !! g.bounds.Keys then Some(g) else None
    ensures grants != [] ==>
      Intersect(grants + [g]) ==
      if Intersect(grants).Some? && Intersect([g]).Some? && Apart(grants, g) then Merge(Intersect(grants).value, g) else None
  {
    hide MergeableSource, Merge, SitesAgree, Apart;
    var all := grants + [g];
    SitesNext(grants, g);
    SitesNext([], g);
    NoneApart(g);
    assert [] + [g] == [g];
    if grants != [] {
      assert all[..|grants|] == grants && all[|grants|] == g;
      SourcesNext(grants, g);
    }
  }

  lemma NoneApart(g: Grant)
    ensures SitesAgree([]) && Apart([], g)
  {
  }

  lemma SourcesNext(grants: seq<Grant>, g: Grant)
    ensures (forall i :: 0 <= i < |grants + [g]| ==> MergeableSource((grants + [g])[i])) <==>
      (forall i :: 0 <= i < |grants| ==> MergeableSource(grants[i])) && MergeableSource(g)
  {
    hide MergeableSource;
    var all := grants + [g];
    assert all[|grants|] == g && forall i :: 0 <= i < |grants| ==> all[i] == grants[i];
  }

  /** no key of g is declared on the other site by one of the grants */
  predicate Apart(grants: seq<Grant>, g: Grant) {
    forall h :: h in grants ==> h.params.Keys !! g.bounds.Keys && g.params.Keys !! h.bounds.Keys
  }

  lemma SitesNext(grants: seq<Grant>, g: Grant)
    ensures SitesAgree(grants + [g]) <==> SitesAgree(grants) && g.params.Keys !! g.bounds.Keys && Apart(grants, g)
  {
    var all, n := grants + [g], |grants|;
    assert all[n] == g && forall i :: 0 <= i < n ==> all[i] == grants[i];
    if SitesAgree(all) {
      forall h | h in grants ensures h.params.Keys !! g.bounds.Keys && g.params.Keys !! h.bounds.Keys {
        var i :| 0 <= i < n && grants[i] == h;
        assert all[i].params.Keys !! all[n].bounds.Keys && all[n].params.Keys !! all[i].bounds.Keys;
      }
      assert all[n].params.Keys !! all[n].bounds.Keys;
    }
  }
}
