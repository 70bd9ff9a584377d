/**
 What a grant accepts, said of the values themselves: which identifiers, which
 numbers, lists and objects, which row counts. Everything the lattice and chain
 results say about acceptance rests on these.
 */
module Acceptance {
  import opened Numbers
  import opened Binary64
  import opened Json
  import opened Caps
  import opened Bounds
  import opened Ids
  import opened IdText
  import opened Grants

  // ---------------------------------------------------------------------
  // Identifiers
  // ---------------------------------------------------------------------

  /** A grant's identifier covers an operation's exactly when both are valid
      and it is the same, or ends in a wildcard the operation stands below. */
  lemma {:induction false} IdEntailsOnText(g: string, o: string)
    ensures IdEntails(g, o) <==> ValidId(g) && ValidId(o) && (g == o || Below(g, o))
  {
    if ValidId(g) && ValidId(o) {
      CoverageOnText(g, o);
      ValidIsLate(g);
      ValidIsLate(o);
      hide Split, ValidId, CoversParts, Below;
      if MatchId(g, o) {
        SameNamespace(g, o);
        assert Split(g)[0] == Split(g)[..2][0] == Split(o)[..2][0];
      }
    }
  }

  /** A grant that declares no parameter entails exactly what its identifier covers. */
  lemma {:induction false} UndeclaredGrant(g: Grant, op: Operation)
    requires g.params == map[] && g.bounds == map[]
    ensures Entails(g, op) <==> ValidId(g.id) && ValidId(op.id) && (g.id == op.id || Below(g.id, op.id))
  {
    hide IdEntails, ValidId;
    IdEntailsOnText(g.id, op.id);
  }

  // ---------------------------------------------------------------------
  // Bounds
  // ---------------------------------------------------------------------

  /** the size of a list between its limits, both included */
  predicate Counted(n: nat, least: Option<Number>, most: Option<Number>) {
    && (least.Some? ==> least.value.Value() <= n as real)
    && (most.Some? ==> n as real <= most.value.Value())
  }

  lemma ElementsListed(v: Json, members: seq<Json>)
    ensures InEnum(v, members) <==>
      && members != []
      && if v.Arr? then (forall x :: x in v.items ==> x in members) else v in members
  {
    var xs := Elements(v);
    if InEnum(v, members) {
      assert forall i :: 0 <= i < |xs| ==> Bounds.Member(xs[i], members);
      assert !v.Arr? ==> xs[0] == v;
    } else if members != [] {
      var i :| 0 <= i < |xs| && !Bounds.Member(xs[i], members);
      assert v.Arr? ==> xs[i] in v.items;
    }
  }

  /** An enum Bound accepts a list exactly when its length lies within the item
      limits and, where members are listed, there are some and each item is one. */
  lemma {:induction false} EnumAcceptsLists(xs: seq<Json>, b: Bound)
    requires b.HasEnum() && OneFamily(b)
    ensures BoundSubset(Arr(xs), b) <==>
      && Counted(|xs|, b.minItems, b.maxItems)
      && (b.members.Some? ==> b.members.value != [] && forall x :: x in xs ==> x in b.members.value)
  {
    hide InEnum;
    if b.members.Some? {
      ElementsListed(Arr(xs), b.members.value);
    }
  }

  /** It accepts anything else exactly when it accepts the list of that one thing. */
  lemma {:induction false} EnumAcceptsScalars(v: Json, b: Bound)
    requires b.HasEnum() && OneFamily(b) && !v.Arr?
    ensures BoundSubset(v, b) <==> BoundSubset(Arr([v]), b)
  {
    if b.members.Some? {
      assert InEnum(v, b.members.value) <==> InEnum(Arr([v]), b.members.value) by {
        assert Elements(v) == Elements(Arr([v])) == [v];
      }
    }
    hide InEnum;
  }

  /** A numeric Bound accepts exactly the numbers from its minimum to its
      maximum, both included, that are multiples of its step. */
  lemma {:induction false} NumericAccepts(v: Json, b: Bound)
    requires b.HasNumeric() && OneFamily(b)
    ensures BoundSubset(v, b) <==>
      && v.Num?
      && (b.min.Some? ==> b.min.value.Value() <= v.n.Value())
      && (b.max.Some? ==> v.n.Value() <= b.max.value.Value())
      && (b.step.Some? ==> MultipleOf(Float(v.n), Float(b.step.value)))
  {
    hide MultipleOf, Float, Decimal.Value;
  }

  /** A nested Bound accepts exactly the objects that have only its keys, every
      key but the optional ones, and at each key a value its Bound accepts. */
  lemma {:induction false} NestedAccepts(v: Json, b: Bound)
    requires b.HasNested() && OneFamily(b)
    ensures BoundSubset(v, b) <==>
      && v.Obj?
      && v.fields.Keys <= b.nested.fields.Keys
      && (forall k :: k in b.nested.fields && b.nested.fields[k].optional != Some(true) ==> k in v.fields)
      && (forall k :: k in v.fields && k in b.nested.fields ==> BoundSubset(v.fields[k], b.nested.fields[k]))
  {
  }

  /** A Bound without members accepts everything. */
  lemma {:induction false} EmptyAccepts(v: Json, b: Bound)
    requires !b.HasNumeric() && !b.HasEnum() && !b.HasNested()
    ensures BoundSubset(v, b)
  {
  }

  // ---------------------------------------------------------------------
  // Plain values
  // ---------------------------------------------------------------------

  /** Below a granted number stand exactly the numbers up to it; a granted text
      or truth value stands for itself, a granted null for nothing. */
  lemma {:induction false} ScalarAccepts(o: Json, g: Json)
    requires !g.Arr? && !g.Obj?
    ensures ValueSubset(o, g) <==>
      if g.Num? then o.Num? && o.n.Value() <= g.n.Value() else !g.Null? && o == g
  {
  }

  /** A granted list accepts its members and the lists of them, and nothing when it is empty. */
  lemma {:induction false} ListAccepts(o: Json, members: seq<Json>)
    ensures ValueSubset(o, Arr(members)) <==>
      && !o.Null? && members != []
      && if o.Arr? then (forall x :: x in o.items ==> x in members) else o in members
  {
    hide InEnum;
    ElementsListed(o, members);
  }

  /** A granted object accepts the objects with exactly its keys and an accepted
      value at each; one without keys accepts every object. */
  lemma {:induction false} ObjectAccepts(o: Json, fields: map<string, Json>)
    ensures ValueSubset(o, Obj(fields)) <==>
      && o.Obj?
      && (fields != map[] ==> o.fields.Keys == fields.Keys && forall k :: k in fields ==> ValueSubset(o.fields[k], fields[k]))
  {
  }

  // ---------------------------------------------------------------------
  // Entailment
  // ---------------------------------------------------------------------

  /** the keys an operation must carry */
  function Required(g: Grant): set<string> {
    g.params.Keys + (set k | k in g.bounds && g.bounds[k].optional != Some(true))
  }

  /** A grant that declares parameters entails an operation exactly when its
      identifier covers it, both sides keep the limits, no granted value is
      empty, the operation carries every required key and no undeclared one,
      and each value is accepted where its key is declared. */
  lemma {:induction false} DeclaredGrant(g: Grant, op: Operation)
    requires g.params != map[] || g.bounds != map[]
    ensures Entails(g, op) <==>
      && IdEntails(g.id, op.id)
      && ValidBounds(g) && (g.params != map[] ==> ValidParams(g.params)) && ValidParams(op.params)
      && (forall k :: k in g.params ==> g.params[k] != Arr([]) && g.params[k] != Obj(map[]))
      && Required(g) <= op.params.Keys <= g.params.Keys + g.bounds.Keys
      && (forall k :: k in g.params && k in op.params ==> ValueSubset(op.params[k], g.params[k]))
      && (forall k :: k in g.bounds && k in op.params ==> BoundSubset(op.params[k], g.bounds[k]))
  {
    hide IdEntails, FitsCaps, InRange, ValueSubset, BoundSubset, ValidBounds;
    DeclaresSome(g);
    if Entails(g, op) {
      forall k | k in Required(g) ensures k in op.params {
        assert KeyHolds(g, op.params, k);
      }
      assert forall k :: k in Declared(g) ==> KeyHolds(g, op.params, k);
    }
  }

  // ---------------------------------------------------------------------
  // Containment
  // ---------------------------------------------------------------------

  /** A child grant is contained exactly when both are sound, the parent's
      identifier covers the child's and, once the parent declares parameters, the
      child declares the same keys on the same sites, each within the parent's. */
  lemma {:induction false} ContainsOnText(parent: Grant, child: Grant)
    ensures Contains(parent, child) <==>
      && ValidId(parent.id) && ValidId(child.id)
      && (parent.params != map[] ==> ValidParams(parent.params)) && (child.params != map[] ==> ValidParams(child.params))
      && ValidBounds(parent) && ValidBounds(child)
      && (parent.id == child.id || Below(parent.id, child.id))
      && (parent.params != map[] || parent.bounds != map[] ==>
           && parent.params.Keys == child.params.Keys && parent.bounds.Keys == child.bounds.Keys
           && (forall k :: k in parent.params && k in child.params ==> ValueSubset(child.params[k], parent.params[k]))
           && (forall k :: k in parent.bounds && k in child.bounds ==> BoundWithin(child.bounds[k], parent.bounds[k])))
  {
    hide ValidId, MatchId, Below, ValidParams, ValidBounds, ValueSubset, BoundWithin;
    if ValidId(parent.id) && ValidId(child.id) {
      CoverageOnText(parent.id, child.id);
    }
    DeclaresSome(parent);
    DeclaresSome(child);
  }

  lemma DeclaresSome(g: Grant)
    ensures Declared(g) != {} <==> g.params != map[] || g.bounds != map[]
  {
    if k :| k in g.params { assert k in Declared(g); }
    if k :| k in g.bounds { assert k in Declared(g); }
    if k :| k in Declared(g) { assert k in g.params || k in g.bounds; }
  }
}
