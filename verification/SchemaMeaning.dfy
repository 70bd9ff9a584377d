/**
 The meaning of a schema without a depth cut obeys the keywords directly: it
 accepts when every keyword does, and a reference means what it names.
 */
module SchemaMeaning {
  import opened Json
  import opened SchemaValidation
  import opened SchemaKeywords

  // ---------------------------------------------------------------------
  // Depths only count up to the limit
  // ---------------------------------------------------------------------

  lemma ShiftStep(verdict: bool, schema: Json, v: Json, defs: map<string, Json>, depth: nat, limit: nat)
    requires schema.Obj? && Word("$ref", schema).None?
    requires forall d :: d in Duties(schema, v) ==>
      (Follows(verdict, d.schema, d.value, defs, depth + 1, limit) <==> Follows(verdict, d.schema, d.value, defs, depth + 2, limit + 1))
    requires Choices(schema).Some? ==> forall c :: c in Choices(schema).value ==>
      (Follows(verdict, c, v, defs, depth + 1, limit) <==> Follows(verdict, c, v, defs, depth + 2, limit + 1))
    requires Forbidden(schema).Some? ==>
      (Follows(!verdict, Forbidden(schema).value, v, defs, depth + 1, limit) <==>
       Follows(!verdict, Forbidden(schema).value, v, defs, depth + 2, limit + 1))
    ensures Follows(verdict, schema, v, defs, depth, limit) <==> Follows(verdict, schema, v, defs, depth + 1, limit + 1)
  {
    hide OwnKeywordsHold, Duties, Choices, Forbidden, Resolve, Word, Left;
  }

  lemma {:induction false} FollowsShift(verdict: bool, schema: Json, v: Json, defs: map<string, Json>, depth: nat, limit: nat)
    requires schema.Obj?
    ensures Follows(verdict, schema, v, defs, depth, limit) <==> Follows(verdict, schema, v, defs, depth + 1, limit + 1)
    decreases Left(depth, limit), schema
  {
    hide OwnKeywordsHold, Duties, Choices, Forbidden, Resolve, Word, Follows;
    if Word("$ref", schema).Some? {
      FollowsRef(verdict, schema, v, defs, depth, limit);
      FollowsRef(verdict, schema, v, defs, depth + 1, limit + 1);
      var target := Resolve(Word("$ref", schema).value, defs);
      if target.Some? && depth < limit {
        FollowsShift(verdict, target.value, v, defs, depth + 1, limit);
      }
    } else {
      forall d | d in Duties(schema, v)
        ensures Follows(verdict, d.schema, d.value, defs, depth + 1, limit) <==>
                Follows(verdict, d.schema, d.value, defs, depth + 2, limit + 1)
      {
        FollowsShift(verdict, d.schema, d.value, defs, depth + 1, limit);
      }
      if Choices(schema).Some? {
        forall c | c in Choices(schema).value
          ensures Follows(verdict, c, v, defs, depth + 1, limit) <==> Follows(verdict, c, v, defs, depth + 2, limit + 1)
        {
          FollowsShift(verdict, c, v, defs, depth + 1, limit);
        }
      }
      if Forbidden(schema).Some? {
        FollowsShift(!verdict, Forbidden(schema).value, v, defs, depth + 1, limit);
      }
      ShiftStep(verdict, schema, v, defs, depth, limit);
    }
  }

  /** a verdict that follows one level down is meant */
  lemma FollowsIsMeant(verdict: bool, schema: Json, v: Json, defs: map<string, Json>, limit: nat)
    requires schema.Obj? && Follows(verdict, schema, v, defs, 1, limit)
    ensures Means(verdict, schema, v, defs)
  {
    hide Follows;
    FollowsMonotone(verdict, schema, v, defs, 1, limit, limit + 1);
    FollowsShift(verdict, schema, v, defs, 0, limit);
  }

  /** a verdict that is meant follows one level down, from some limit on */
  lemma MeantFollows(verdict: bool, schema: Json, v: Json, defs: map<string, Json>) returns (limit: nat)
    requires schema.Obj? && Means(verdict, schema, v, defs)
    ensures Follows(verdict, schema, v, defs, 1, limit)
  {
    hide Follows;
    var n: nat :| Follows(verdict, schema, v, defs, 0, n);
    FollowsShift(verdict, schema, v, defs, 0, n);
    limit := n + 1;
  }

  // ---------------------------------------------------------------------
  // Finitely many subschemas share a limit
  // ---------------------------------------------------------------------

  lemma {:induction false} CommonLimit(duties: set<Duty>, defs: map<string, Json>) returns (limit: nat)
    requires forall d :: d in duties ==> d.schema.Obj? && Means(true, d.schema, d.value, defs)
    ensures forall d :: d in duties ==> Follows(true, d.schema, d.value, defs, 1, limit)
    decreases duties
  {
    hide Follows;
    limit := 0;
    if duties != {} {
      var d :| d in duties;
      var rest := CommonLimit(duties - {d}, defs);
      var own := MeantFollows(true, d.schema, d.value, defs);
      limit := rest + own;
      FollowsMonotone(true, d.schema, d.value, defs, 1, own, limit);
      forall x | x in duties ensures Follows(true, x.schema, x.value, defs, 1, limit) {
        if x != d {
          FollowsMonotone(true, x.schema, x.value, defs, 1, rest, limit);
        }
      }
    }
  }

  /** an accepting verdict from its parts, all at one limit */
  lemma AcceptUnfolded(schema: Json, v: Json, defs: map<string, Json>, limit: nat)
    requires schema.Obj? && Word("$ref", schema).None?
    ensures Follows(true, schema, v, defs, 0, limit) <==>
      && OwnKeywordsHold(schema, v)
      && (forall d :: d in Duties(schema, v) ==> Follows(true, d.schema, d.value, defs, 1, limit))
      && (Choices(schema).Some? ==> exists c :: c in Choices(schema).value && Follows(true, c, v, defs, 1, limit))
      && (Forbidden(schema).Some? ==> Follows(false, Forbidden(schema).value, v, defs, 1, limit))
  {
    hide OwnKeywordsHold, Duties, Choices, Forbidden, Word, Left;
  }

  /** the parts an accepting meaning asks for */
  ghost predicate Parts(schema: Json, v: Json, at: Judge)
    requires schema.Obj?
  {
    && OwnKeywordsHold(schema, v)
    && Met(Duties(schema, v), at)
    && (Choices(schema).Some? ==> exists c :: c in Choices(schema).value && Passes(c, v, at))
    && (Forbidden(schema).Some? ==> Fails(Forbidden(schema).value, v, at))
  }

  lemma MeansHasParts(schema: Json, v: Json, defs: map<string, Json>)
    requires schema.Obj? && Word("$ref", schema).None? && Means(true, schema, v, defs)
    ensures Parts(schema, v, Unbounded(defs))
  {
    hide OwnKeywordsHold, Duties, Choices, Forbidden, Word, Follows;
    var limit: nat :| Follows(true, schema, v, defs, 0, limit);
    AcceptUnfolded(schema, v, defs, limit);
    hide Means;
    forall d | d in Duties(schema, v) ensures Passes(d.schema, d.value, Unbounded(defs)) {
      FollowsIsMeant(true, d.schema, d.value, defs, limit);
    }
    if Choices(schema).Some? {
      var c :| c in Choices(schema).value && Follows(true, c, v, defs, 1, limit);
      FollowsIsMeant(true, c, v, defs, limit);
      assert Passes(c, v, Unbounded(defs));
    }
    if Forbidden(schema).Some? {
      FollowsIsMeant(false, Forbidden(schema).value, v, defs, limit);
    }
  }

  lemma PartsAreMeant(schema: Json, v: Json, defs: map<string, Json>)
    requires schema.Obj? && Word("$ref", schema).None? && Parts(schema, v, Unbounded(defs))
    ensures Means(true, schema, v, defs)
  {
    hide OwnKeywordsHold, Duties, Choices, Forbidden, Word, Follows, Means;
    forall d | d in Duties(schema, v) ensures d.schema.Obj? && Means(true, d.schema, d.value, defs) {
      assert Passes(d.schema, d.value, Unbounded(defs));
    }
    var limit := CommonLimit(Duties(schema, v), defs);
    var more := 0;
    if Choices(schema).Some? {
      var c :| c in Choices(schema).value && Passes(c, v, Unbounded(defs));
      more := MeantFollows(true, c, v, defs);
      FollowsMonotone(true, c, v, defs, 1, more, limit + more);
    }
    var last := 0;
    if Forbidden(schema).Some? {
      last := MeantFollows(false, Forbidden(schema).value, v, defs);
    }
    AtOneLimit(schema, v, defs, limit, more, last);
  }

  lemma AtOneLimit(schema: Json, v: Json, defs: map<string, Json>, a: nat, b: nat, c: nat)
    requires schema.Obj? && Word("$ref", schema).None? && OwnKeywordsHold(schema, v)
    requires forall d :: d in Duties(schema, v) ==> Follows(true, d.schema, d.value, defs, 1, a)
    requires Choices(schema).Some? ==> exists x :: x in Choices(schema).value && Follows(true, x, v, defs, 1, a + b)
    requires Forbidden(schema).Some? ==> Follows(false, Forbidden(schema).value, v, defs, 1, c)
    ensures Means(true, schema, v, defs)
  {
    hide OwnKeywordsHold, Duties, Choices, Forbidden, Word, Follows;
    var limit := a + b + c;
    forall d | d in Duties(schema, v) ensures Follows(true, d.schema, d.value, defs, 1, limit) {
      FollowsMonotone(true, d.schema, d.value, defs, 1, a, limit);
    }
    if Choices(schema).Some? {
      var x :| x in Choices(schema).value && Follows(true, x, v, defs, 1, a + b);
      FollowsMonotone(true, x, v, defs, 1, a + b, limit);
    }
    if Forbidden(schema).Some? {
      FollowsMonotone(false, Forbidden(schema).value, v, defs, 1, c, limit);
    }
    AcceptUnfolded(schema, v, defs, limit);
  }

  /** A schema without a reference means acceptance exactly when each of its
      keywords accepts, a subschema under `not` meaning rejection. */
  lemma {:induction false} MeansByKeyword(schema: Json, v: Json, defs: map<string, Json>)
    requires schema.Obj? && ("$ref" in schema.fields ==> !schema.fields["$ref"].Str?)
    ensures Means(true, schema, v, defs) <==>
      PlainKeywords(schema.fields, v) && SchemaKeywordsHold(schema.fields, v, Unbounded(defs))
  {
    var at := Unbounded(defs);
    OwnAgree(schema, v);
    DutiesAgree(schema, v, at);
    ChoicesAgree(schema, v, at);
    ExtraSplits(schema.fields, v, at);
    assert Word("$ref", schema).None?;
    assert Parts(schema, v, at) <==> PlainKeywords(schema.fields, v) && SchemaKeywordsHold(schema.fields, v, at) by {
      hide Passes, Fails, OwnKeywordsHold, Duties, Choices, PlainKeywords, PropertiesKeyword, ExtraKeyword, Closes,
        ExtrasPass, ItemsKeyword, OneOfKeyword, Met;
    }
    hide *;
    if Means(true, schema, v, defs) {
      MeansHasParts(schema, v, defs);
    }
    if Parts(schema, v, at) {
      PartsAreMeant(schema, v, defs);
    }
  }

  /** A reference means what the definition it names means; one that names none means rejection. */
  lemma {:induction false} MeansReference(verdict: bool, schema: Json, v: Json, defs: map<string, Json>)
    requires schema.Obj? && "$ref" in schema.fields && schema.fields["$ref"].Str?
    ensures forall name :: schema.fields["$ref"].s == "#/$defs/" + name && name in defs && defs[name].Obj? ==>
      (Means(verdict, schema, v, defs) <==> Means(verdict, defs[name], v, defs))
    ensures !(exists name :: schema.fields["$ref"].s == "#/$defs/" + name && name in defs && defs[name].Obj?) ==>
      (Means(verdict, schema, v, defs) <==> !verdict)
  {
    var ref := schema.fields["$ref"].s;
    var target := Resolve(ref, defs);
    if target.Some? {
      var name := ref[|"#/$defs/"|..];
      assert ref == "#/$defs/" + name;
      ReferenceIsTarget(verdict, schema, v, defs);
    } else {
      FollowsRef(verdict, schema, v, defs, 0, 0);
      hide Follows;
      if n: nat :| Follows(verdict, schema, v, defs, 0, n) {
        FollowsRef(verdict, schema, v, defs, 0, n);
      }
    }
    hide Means;
    forall name | ref == "#/$defs/" + name ensures ref[..|"#/$defs/"|] == "#/$defs/" && ref[|"#/$defs/"|..] == name {
    }
  }

  lemma ReferenceIsTarget(verdict: bool, schema: Json, v: Json, defs: map<string, Json>)
    requires schema.Obj? && Word("$ref", schema).Some? && Resolve(Word("$ref", schema).value, defs).Some?
    ensures Means(verdict, schema, v, defs) <==> Means(verdict, Resolve(Word("$ref", schema).value, defs).value, v, defs)
  {
    hide Follows, Word, Resolve;
    var target := Resolve(Word("$ref", schema).value, defs).value;
    if n: nat :| Follows(verdict, schema, v, defs, 0, n) {
      FollowsRef(verdict, schema, v, defs, 0, n);
      FollowsIsMeant(verdict, target, v, defs, n);
    }
    if Means(verdict, target, v, defs) {
      var n: nat :| Follows(verdict, target, v, defs, 0, n);
      FollowsShift(verdict, target, v, defs, 0, n);
      FollowsRef(verdict, schema, v, defs, 0, n + 1);
    }
  }

  // ---------------------------------------------------------------------
  // Schemas that never meet the cut
  // ---------------------------------------------------------------------

  /** no reference anywhere in a schema */
  predicate ReferenceFree(schema: Json) {
    match schema
    case Obj(fields) =>
      && ("$ref" in fields ==> !fields["$ref"].Str?)
      && forall k :: k in fields ==> ReferenceFree(fields[k])
    case Arr(items) => forall i :: 0 <= i < |items| ==> ReferenceFree(items[i])
    case _ => true
  }

  lemma FreeParts(schema: Json, v: Json)
    requires schema.Obj? && ReferenceFree(schema)
    ensures Word("$ref", schema).None?
    ensures forall d :: d in Duties(schema, v) ==> ReferenceFree(d.schema)
    ensures Choices(schema).Some? ==> forall c :: c in Choices(schema).value ==> ReferenceFree(c)
    ensures Forbidden(schema).Some? ==> ReferenceFree(Forbidden(schema).value)
  {
    var props := Properties(schema);
    assert forall k :: k in props ==> ReferenceFree(props[k]) by {
      if "properties" in schema.fields {
        assert ReferenceFree(schema.fields["properties"]);
      }
    }
    if Choices(schema).Some? {
      assert ReferenceFree(schema.fields["oneOf"]);
    }
  }

  /** A schema without references is never cut, so the validator gives its meaning at every limit. */
  lemma {:induction false} ReferenceFreeIsExact(schema: Json, v: Json, defs: map<string, Json>, limit: nat)
    requires schema.Obj? && ReferenceFree(schema)
    ensures Validates(schema, v, defs, 0, limit) <==> Means(true, schema, v, defs)
    ensures !Validates(schema, v, defs, 0, limit) <==> Means(false, schema, v, defs)
  {
    hide Validates, Means, StaysWithin, ReferenceFree;
    FreeStaysWithin(schema, v, defs, 0, limit);
    ValidatesMeaning(schema, v, defs, limit, limit);
  }

  lemma {:induction false} FreeStaysWithin(schema: Json, v: Json, defs: map<string, Json>, depth: nat, limit: nat)
    requires schema.Obj? && ReferenceFree(schema)
    ensures StaysWithin(schema, v, defs, depth, limit)
    decreases schema
  {
    hide ReferenceFree, Duties, Choices, Forbidden, Word;
    FreeParts(schema, v);
    forall d | d in Duties(schema, v) ensures StaysWithin(d.schema, d.value, defs, depth + 1, limit) {
      FreeStaysWithin(d.schema, d.value, defs, depth + 1, limit);
    }
    if Choices(schema).Some? {
      forall c | c in Choices(schema).value ensures StaysWithin(c, v, defs, depth + 1, limit) {
        FreeStaysWithin(c, v, defs, depth + 1, limit);
      }
    }
    if Forbidden(schema).Some? {
      FreeStaysWithin(Forbidden(schema).value, v, defs, depth + 1, limit);
    }
  }
}
