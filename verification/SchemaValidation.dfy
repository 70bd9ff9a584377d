/**
 Validation of parameters against a JSON Schema subset with local references.
 Reference following is cut at a depth, so that cyclic definitions end; the
 rules below say what a schema means without any cut.
 */
module SchemaValidation {
  import opened Numbers
  import opened Json

  const MAX_REF_DEPTH := 100

  // ---------------------------------------------------------------------
  // Keywords
  // ---------------------------------------------------------------------

  predicate IsWhole(n: Number) {
    n.Value().Floor as real == n.Value()
  }

  /** checkType; an unknown type name refuses every value */
  predicate HasType(name: string, value: Json) {
    if name == "object" then value.Obj?
    else if name == "array" then value.Arr?
    else if name == "string" then value.Str?
    else if name == "integer" then value.Num? && IsWhole(value.n)
    else if name == "number" then value.Num?
    else name == "boolean" && value.Bool?
  }

  predicate Distinct(items: seq<Json>) {
    forall i, j :: 0 <= i < j < |items| ==> items[i] != items[j]
  }

  function Word(keyword: string, schema: Json): Option<string> {
    if schema.Obj? && keyword in schema.fields && schema.fields[keyword].Str? then Some(schema.fields[keyword].s) else None
  }

  function Limit(keyword: string, schema: Json): Option<real> {
    if schema.Obj? && keyword in schema.fields && schema.fields[keyword].Num?
    then Some(schema.fields[keyword].n.Value()) else None
  }

  function Members(keyword: string, schema: Json): Option<map<string, Json>> {
    if schema.Obj? && keyword in schema.fields && schema.fields[keyword].Obj?
    then Some(schema.fields[keyword].fields) else None
  }

  function Items(keyword: string, schema: Json): Option<seq<Json>> {
    if schema.Obj? && keyword in schema.fields && schema.fields[keyword].Arr?
    then Some(schema.fields[keyword].items) else None
  }

  function Properties(schema: Json): map<string, Json> {
    var p := Members("properties", schema);
    if p.Some? then p.value else map[]
  }

  /** keys beyond the declared ones are refused */
  predicate IsClosed(schema: Json)
    requires schema.Obj?
  {
    if "additionalProperties" !in schema.fields then Properties(schema) != map[]
    else schema.fields["additionalProperties"] == Bool(false)
  }

  predicate ScalarsHold(schema: Json, value: Json)
    requires schema.Obj?
  {
    && ("const" in schema.fields ==> schema.fields["const"] == value)
    && (var e := Items("enum", schema); e.Some? ==> value in e.value)
    && (var t := Word("type", schema); t.Some? ==> HasType(t.value, value))
    && (value.Num? ==>
      && (var mn := Limit("minimum", schema); mn.Some? ==> mn.value <= value.n.Value())
      && (var mx := Limit("maximum", schema); mx.Some? ==> value.n.Value() <= mx.value))
  }

  predicate MembersHold(schema: Json, obj: map<string, Json>)
    requires schema.Obj?
  {
    && (var r := Items("required", schema);
        r.Some? ==> forall i :: 0 <= i < |r.value| ==> (if r.value[i].Str? then r.value[i].s else "") in obj)
    && (IsClosed(schema) ==> forall k :: k in obj ==> k in Properties(schema))
  }

  predicate CountsHold(schema: Json, items: seq<Json>)
    requires schema.Obj?
  {
    && (var mn := Limit("minItems", schema); mn.Some? ==> mn.value <= |items| as real)
    && (var mx := Limit("maxItems", schema); mx.Some? ==> |items| as real <= mx.value)
    && ("uniqueItems" in schema.fields && schema.fields["uniqueItems"] == Bool(true) ==> Distinct(items))
  }

  /** the keywords that look at no other schema */
  predicate OwnKeywordsHold(schema: Json, value: Json)
    requires schema.Obj?
  {
    && ScalarsHold(schema, value)
    && (value.Obj? ==> MembersHold(schema, value.fields))
    && (value.Arr? ==> CountsHold(schema, value.items))
  }

  // ---------------------------------------------------------------------
  // Subschemas
  // ---------------------------------------------------------------------

  /** a subschema with the part of the value it has to hold of */
  datatype Duty = Duty(schema: Json, value: Json)

  function PropertyDuties(schema: Json, obj: map<string, Json>): (r: set<Duty>)
    ensures forall d :: d in r ==> d.schema < schema && d.schema.Obj?
  {
    var props := Properties(schema);
    set k | k in props && k in obj && props[k].Obj? :: Duty(props[k], obj[k])
  }

  function ExtraDuties(schema: Json, obj: map<string, Json>): (r: set<Duty>)
    ensures forall d :: d in r ==> d.schema < schema && d.schema.Obj?
  {
    if Members("additionalProperties", schema).None? then {}
    else set k | k in obj && k !in Properties(schema) :: Duty(schema.fields["additionalProperties"], obj[k])
  }

  function ItemDuties(schema: Json, items: seq<Json>): (r: set<Duty>)
    ensures forall d :: d in r ==> d.schema < schema && d.schema.Obj?
  {
    if Members("items", schema).None? then {}
    else set i | 0 <= i < |items| :: Duty(schema.fields["items"], items[i])
  }

  /** what properties, additionalProperties and items ask for */
  function Duties(schema: Json, value: Json): (r: set<Duty>)
    ensures forall d :: d in r ==> d.schema < schema && d.schema.Obj?
  {
    if value.Obj? then PropertyDuties(schema, value.fields) + ExtraDuties(schema, value.fields)
    else if value.Arr? then ItemDuties(schema, value.items)
    else {}
  }

  function Choices(schema: Json): (r: Option<set<Json>>)
    ensures r.Some? ==> forall c :: c in r.value ==> c < schema && c.Obj?
  {
    var o := Items("oneOf", schema);
    if o.None? then None else Some(set i | 0 <= i < |o.value| && o.value[i].Obj? :: o.value[i])
  }

  function Forbidden(schema: Json): (r: Option<Json>)
    ensures r.Some? ==> r.value < schema && r.value.Obj?
  {
    if Members("not", schema).Some? then Some(schema.fields["not"]) else None
  }

  const REF_PREFIX := "#/$defs/"

  /** resolveRef */
  function Resolve(ref: string, defs: map<string, Json>): (r: Option<Json>)
    ensures r.Some? ==> r.value.Obj?
  {
    if |REF_PREFIX| <= |ref| && ref[..|REF_PREFIX|] == REF_PREFIX then
      var name := ref[|REF_PREFIX|..];
      if name in defs && defs[name].Obj? then Some(defs[name]) else None
    else None
  }

  // ---------------------------------------------------------------------
  // Validation with the depth cut
  // ---------------------------------------------------------------------

  function Left(depth: nat, limit: nat): nat {
    if depth < limit then limit - depth else 0
  }

  predicate Validates(schema: Json, value: Json, defs: map<string, Json>, depth: nat, limit: nat)
    requires schema.Obj?
    decreases Left(depth, limit), schema
  {
    var ref := Word("$ref", schema);
    if ref.Some? then
      var target := Resolve(ref.value, defs);
      target.Some? && depth < limit && Validates(target.value, value, defs, depth + 1, limit)
    else
      && OwnKeywordsHold(schema, value)
      && (forall d :: d in Duties(schema, value) ==> Validates(d.schema, d.value, defs, depth + 1, limit))
      && (Choices(schema).Some? ==> exists c :: c in Choices(schema).value && Validates(c, value, defs, depth + 1, limit))
      && (Forbidden(schema).Some? ==> !Validates(Forbidden(schema).value, value, defs, depth + 1, limit))
  }

  // ---------------------------------------------------------------------
  // Meaning without a cut
  // ---------------------------------------------------------------------

  /** the verdict follows from the schema rules, references followed at most limit deep */
  predicate Follows(verdict: bool, schema: Json, value: Json, defs: map<string, Json>, depth: nat, limit: nat)
    requires schema.Obj?
    decreases Left(depth, limit), schema
  {
    var ref := Word("$ref", schema);
    if ref.Some? then
      var target := Resolve(ref.value, defs);
      if target.None? then !verdict
      else depth < limit && Follows(verdict, target.value, value, defs, depth + 1, limit)
    else if verdict then
      && OwnKeywordsHold(schema, value)
      && (forall d :: d in Duties(schema, value) ==> Follows(true, d.schema, d.value, defs, depth + 1, limit))
      && (Choices(schema).Some? ==> exists c :: c in Choices(schema).value && Follows(true, c, value, defs, depth + 1, limit))
      && (Forbidden(schema).Some? ==> Follows(false, Forbidden(schema).value, value, defs, depth + 1, limit))
    else
      || !OwnKeywordsHold(schema, value)
      || (exists d :: d in Duties(schema, value) && Follows(false, d.schema, d.value, defs, depth + 1, limit))
      || (Choices(schema).Some? && forall c :: c in Choices(schema).value ==> Follows(false, c, value, defs, depth + 1, limit))
      || (Forbidden(schema).Some? && Follows(true, Forbidden(schema).value, value, defs, depth + 1, limit))
  }

  /** the unbounded meaning: some finite chain of rules gives the verdict */
  ghost predicate Means(verdict: bool, schema: Json, value: Json, defs: map<string, Json>)
    requires schema.Obj?
  {
    exists limit: nat :: Follows(verdict, schema, value, defs, 0, limit)
  }

  /** Follows at a reference */
  lemma FollowsRef(verdict: bool, schema: Json, value: Json, defs: map<string, Json>, depth: nat, limit: nat)
    requires schema.Obj? && Word("$ref", schema).Some?
    ensures
      var target := Resolve(Word("$ref", schema).value, defs);
      Follows(verdict, schema, value, defs, depth, limit) <==>
      if target.None? then !verdict else depth < limit && Follows(verdict, target.value, value, defs, depth + 1, limit)
  {
    hide OwnKeywordsHold, Duties, Choices, Forbidden, Resolve, Word;
  }

  /** Validates at a reference */
  lemma ValidatesRef(schema: Json, value: Json, defs: map<string, Json>, depth: nat, limit: nat)
    requires schema.Obj? && Word("$ref", schema).Some?
    ensures
      var target := Resolve(Word("$ref", schema).value, defs);
      Validates(schema, value, defs, depth, limit) <==>
      target.Some? && depth < limit && Validates(target.value, value, defs, depth + 1, limit)
  {
    hide OwnKeywordsHold, Duties, Choices, Forbidden, Resolve, Word;
  }

  lemma MonotoneStep(verdict: bool, schema: Json, value: Json, defs: map<string, Json>, depth: nat, limit: nat, more: nat)
    requires schema.Obj? && Word("$ref", schema).None? && Follows(verdict, schema, value, defs, depth, limit)
    requires forall d :: d in Duties(schema, value) && Follows(verdict, d.schema, d.value, defs, depth + 1, limit) ==>
      Follows(verdict, d.schema, d.value, defs, depth + 1, more)
    requires Choices(schema).Some? ==> forall c :: c in Choices(schema).value && Follows(verdict, c, value, defs, depth + 1, limit) ==>
      Follows(verdict, c, value, defs, depth + 1, more)
    requires Forbidden(schema).Some? && Follows(!verdict, Forbidden(schema).value, value, defs, depth + 1, limit) ==>
      Follows(!verdict, Forbidden(schema).value, value, defs, depth + 1, more)
    ensures Follows(verdict, schema, value, defs, depth, more)
  {
    hide OwnKeywordsHold, Duties, Choices, Forbidden, Resolve, Word, Left;
  }

  lemma {:induction false} FollowsMonotone(verdict: bool, schema: Json, value: Json, defs: map<string, Json>, depth: nat, limit: nat, more: nat)
    requires schema.Obj? && limit <= more
    requires Follows(verdict, schema, value, defs, depth, limit)
    ensures Follows(verdict, schema, value, defs, depth, more)
    decreases Left(depth, limit), schema
  {
    hide OwnKeywordsHold, Duties, Choices, Forbidden, Resolve, Word, Follows;
    var ref := Word("$ref", schema);
    if ref.Some? {
      FollowsRef(verdict, schema, value, defs, depth, limit);
      FollowsRef(verdict, schema, value, defs, depth, more);
      var target := Resolve(ref.value, defs);
      if target.Some? {
        FollowsMonotone(verdict, target.value, value, defs, depth + 1, limit, more);
      }
    } else {
      forall d | d in Duties(schema, value) && Follows(verdict, d.schema, d.value, defs, depth + 1, limit)
        ensures Follows(verdict, d.schema, d.value, defs, depth + 1, more)
      {
        FollowsMonotone(verdict, d.schema, d.value, defs, depth + 1, limit, more);
      }
      if Choices(schema).Some? {
        forall c | c in Choices(schema).value && Follows(verdict, c, value, defs, depth + 1, limit)
          ensures Follows(verdict, c, value, defs, depth + 1, more)
        {
          FollowsMonotone(verdict, c, value, defs, depth + 1, limit, more);
        }
      }
      if Forbidden(schema).Some? && Follows(!verdict, Forbidden(schema).value, value, defs, depth + 1, limit) {
        FollowsMonotone(!verdict, Forbidden(schema).value, value, defs, depth + 1, limit, more);
      }
      MonotoneStep(verdict, schema, value, defs, depth, limit, more);
    }
  }

  lemma DecidesStep(verdict: bool, schema: Json, value: Json, defs: map<string, Json>, depth: nat, limit: nat)
    requires schema.Obj? && Word("$ref", schema).None? && Follows(verdict, schema, value, defs, depth, limit)
    requires forall d :: d in Duties(schema, value) && Follows(verdict, d.schema, d.value, defs, depth + 1, limit) ==>
      Validates(d.schema, d.value, defs, depth + 1, limit) == verdict
    requires Choices(schema).Some? ==> forall c :: c in Choices(schema).value && Follows(verdict, c, value, defs, depth + 1, limit) ==>
      Validates(c, value, defs, depth + 1, limit) == verdict
    requires Forbidden(schema).Some? && Follows(!verdict, Forbidden(schema).value, value, defs, depth + 1, limit) ==>
      Validates(Forbidden(schema).value, value, defs, depth + 1, limit) == !verdict
    ensures Validates(schema, value, defs, depth, limit) == verdict
  {
    hide OwnKeywordsHold, Duties, Choices, Forbidden, Resolve, Word, Left;
  }

  /** a verdict that follows is the validator's answer at that limit */
  lemma {:induction false} FollowsDecides(verdict: bool, schema: Json, value: Json, defs: map<string, Json>, depth: nat, limit: nat)
    requires schema.Obj?
    requires Follows(verdict, schema, value, defs, depth, limit)
    ensures Validates(schema, value, defs, depth, limit) == verdict
    decreases Left(depth, limit), schema
  {
    hide OwnKeywordsHold, Duties, Choices, Forbidden, Resolve, Word, Follows, Validates;
    var ref := Word("$ref", schema);
    if ref.Some? {
      FollowsRef(verdict, schema, value, defs, depth, limit);
      ValidatesRef(schema, value, defs, depth, limit);
      var target := Resolve(ref.value, defs);
      if target.Some? {
        FollowsDecides(verdict, target.value, value, defs, depth + 1, limit);
      }
    } else {
      forall d | d in Duties(schema, value) && Follows(verdict, d.schema, d.value, defs, depth + 1, limit)
        ensures Validates(d.schema, d.value, defs, depth + 1, limit) == verdict
      {
        FollowsDecides(verdict, d.schema, d.value, defs, depth + 1, limit);
      }
      if Choices(schema).Some? {
        forall c | c in Choices(schema).value && Follows(verdict, c, value, defs, depth + 1, limit)
          ensures Validates(c, value, defs, depth + 1, limit) == verdict
        {
          FollowsDecides(verdict, c, value, defs, depth + 1, limit);
        }
      }
      if Forbidden(schema).Some? && Follows(!verdict, Forbidden(schema).value, value, defs, depth + 1, limit) {
        FollowsDecides(!verdict, Forbidden(schema).value, value, defs, depth + 1, limit);
      }
      DecidesStep(verdict, schema, value, defs, depth, limit);
    }
  }

  /** A schema never means both verdicts. */
  lemma {:induction false} MeansOneVerdict(schema: Json, value: Json, defs: map<string, Json>)
    requires schema.Obj? && Means(true, schema, value, defs)
    ensures !Means(false, schema, value, defs)
  {
    hide Follows, Validates;
    if Means(false, schema, value, defs) {
      var a: nat :| Follows(true, schema, value, defs, 0, a);
      var b: nat :| Follows(false, schema, value, defs, 0, b);
      var m := if a < b then b else a;
      FollowsMonotone(true, schema, value, defs, 0, a, m);
      FollowsMonotone(false, schema, value, defs, 0, b, m);
      FollowsDecides(true, schema, value, defs, 0, m);
      FollowsDecides(false, schema, value, defs, 0, m);
      assert false;
    }
  }

  /** no reference in the whole tree of checks meets the depth cut */
  predicate StaysWithin(schema: Json, value: Json, defs: map<string, Json>, depth: nat, limit: nat)
    requires schema.Obj?
    decreases Left(depth, limit), schema
  {
    var ref := Word("$ref", schema);
    if ref.Some? then
      var target := Resolve(ref.value, defs);
      target.Some? ==> depth < limit && StaysWithin(target.value, value, defs, depth + 1, limit)
    else
      && (forall d :: d in Duties(schema, value) ==> StaysWithin(d.schema, d.value, defs, depth + 1, limit))
      && (Choices(schema).Some? ==> forall c :: c in Choices(schema).value ==> StaysWithin(c, value, defs, depth + 1, limit))
      && (Forbidden(schema).Some? ==> StaysWithin(Forbidden(schema).value, value, defs, depth + 1, limit))
  }

  /** what StaysWithin asks of the parts of a schema */
  lemma WithinParts(schema: Json, value: Json, defs: map<string, Json>, depth: nat, limit: nat)
    requires schema.Obj? && StaysWithin(schema, value, defs, depth, limit)
    ensures Word("$ref", schema).Some? && Resolve(Word("$ref", schema).value, defs).Some? ==>
      depth < limit && StaysWithin(Resolve(Word("$ref", schema).value, defs).value, value, defs, depth + 1, limit)
    ensures Word("$ref", schema).None? ==>
      && (forall d :: d in Duties(schema, value) ==> StaysWithin(d.schema, d.value, defs, depth + 1, limit))
      && (Choices(schema).Some? ==> forall c :: c in Choices(schema).value ==> StaysWithin(c, value, defs, depth + 1, limit))
      && (Forbidden(schema).Some? ==> StaysWithin(Forbidden(schema).value, value, defs, depth + 1, limit))
  {
    hide OwnKeywordsHold, Duties, Choices, Forbidden, Resolve, Word;
  }

  lemma WithinStep(schema: Json, value: Json, defs: map<string, Json>, depth: nat, limit: nat)
    requires schema.Obj? && Word("$ref", schema).None?
    requires forall d :: d in Duties(schema, value) ==>
      Follows(Validates(d.schema, d.value, defs, depth + 1, limit), d.schema, d.value, defs, depth + 1, limit)
    requires Choices(schema).Some? ==> forall c :: c in Choices(schema).value ==>
      Follows(Validates(c, value, defs, depth + 1, limit), c, value, defs, depth + 1, limit)
    requires Forbidden(schema).Some? ==>
      Follows(Validates(Forbidden(schema).value, value, defs, depth + 1, limit), Forbidden(schema).value, value, defs, depth + 1, limit)
    ensures Follows(Validates(schema, value, defs, depth, limit), schema, value, defs, depth, limit)
  {
    hide OwnKeywordsHold, Duties, Choices, Forbidden, Resolve, Word, Left;
  }

  lemma {:induction false} WithinFollows(schema: Json, value: Json, defs: map<string, Json>, depth: nat, limit: nat)
    requires schema.Obj? && StaysWithin(schema, value, defs, depth, limit)
    ensures Follows(Validates(schema, value, defs, depth, limit), schema, value, defs, depth, limit)
    decreases Left(depth, limit), schema
  {
    hide OwnKeywordsHold, Duties, Choices, Forbidden, Resolve, Word, Follows, Validates, StaysWithin;
    WithinParts(schema, value, defs, depth, limit);
    var ref := Word("$ref", schema);
    if ref.Some? {
      FollowsRef(Validates(schema, value, defs, depth, limit), schema, value, defs, depth, limit);
      ValidatesRef(schema, value, defs, depth, limit);
      var target := Resolve(ref.value, defs);
      if target.Some? {
        WithinFollows(target.value, value, defs, depth + 1, limit);
      }
    } else {
      forall d | d in Duties(schema, value)
        ensures Follows(Validates(d.schema, d.value, defs, depth + 1, limit), d.schema, d.value, defs, depth + 1, limit)
      {
        WithinFollows(d.schema, d.value, defs, depth + 1, limit);
      }
      if Choices(schema).Some? {
        forall c | c in Choices(schema).value
          ensures Follows(Validates(c, value, defs, depth + 1, limit), c, value, defs, depth + 1, limit)
        {
          WithinFollows(c, value, defs, depth + 1, limit);
        }
      }
      if Forbidden(schema).Some? {
        WithinFollows(Forbidden(schema).value, value, defs, depth + 1, limit);
      }
      WithinStep(schema, value, defs, depth, limit);
    }
  }

  /**
   When no branch meets the cut, the validator accepts exactly what the
   schema means, rejects exactly what it excludes, and every larger limit
   answers the same.
   */
  lemma {:induction false} ValidatesMeaning(schema: Json, value: Json, defs: map<string, Json>, limit: nat, more: nat)
    requires schema.Obj? && limit <= more && StaysWithin(schema, value, defs, 0, limit)
    ensures Validates(schema, value, defs, 0, limit) <==> Means(true, schema, value, defs)
    ensures !Validates(schema, value, defs, 0, limit) <==> Means(false, schema, value, defs)
    ensures Validates(schema, value, defs, 0, more) == Validates(schema, value, defs, 0, limit)
  {
    hide Follows, Validates, StaysWithin;
    var verdict := Validates(schema, value, defs, 0, limit);
    WithinFollows(schema, value, defs, 0, limit);
    FollowsMonotone(verdict, schema, value, defs, 0, limit, more);
    FollowsDecides(verdict, schema, value, defs, 0, more);
    assert Means(verdict, schema, value, defs);
    if Means(true, schema, value, defs) {
      MeansOneVerdict(schema, value, defs);
    }
  }

  /** Wherever the rules settle a verdict within the limit, the validator gives it, cut branches or not. */
  lemma {:induction false} SettledMeaning(verdict: bool, schema: Json, value: Json, defs: map<string, Json>, limit: nat)
    requires schema.Obj? && Follows(verdict, schema, value, defs, 0, limit)
    ensures Validates(schema, value, defs, 0, limit) == verdict
    ensures Means(verdict, schema, value, defs) && !Means(!verdict, schema, value, defs)
  {
    hide Follows, Validates;
    FollowsDecides(verdict, schema, value, defs, 0, limit);
    if Means(true, schema, value, defs) {
      MeansOneVerdict(schema, value, defs);
    }
  }

  // ---------------------------------------------------------------------
  // The validator's loops
  // ---------------------------------------------------------------------

  /** properties, visited in whatever order the map gives */
  method CheckProperties(schema: Json, obj: map<string, Json>, defs: map<string, Json>, depth: nat) returns (ok: bool)
    requires schema.Obj?
    ensures ok <==> forall d :: d in PropertyDuties(schema, obj) ==> Validates(d.schema, d.value, defs, depth + 1, MAX_REF_DEPTH)
    decreases Left(depth, MAX_REF_DEPTH), schema, 0
  {
    hide Validates;
    var props := Properties(schema);
    var left := props.Keys;
    while left != {}
      invariant left <= props.Keys
      invariant forall k :: k in props && k !in left && k in obj && props[k].Obj? ==>
        Validates(props[k], obj[k], defs, depth + 1, MAX_REF_DEPTH)
      decreases |left|
    {
      var name :| name in left;
      left := left - {name};
      if name in obj && props[name].Obj? {
        assert Duty(props[name], obj[name]) in PropertyDuties(schema, obj);
        var sub := ValidateSchema(props[name], obj[name], defs, depth + 1);
        if !sub {
          return false;
        }
      }
    }
    return true;
  }

  /** additionalProperties given as a schema, in whatever order */
  method CheckExtras(schema: Json, obj: map<string, Json>, defs: map<string, Json>, depth: nat) returns (ok: bool)
    requires schema.Obj?
    ensures ok <==> forall d :: d in ExtraDuties(schema, obj) ==> Validates(d.schema, d.value, defs, depth + 1, MAX_REF_DEPTH)
    decreases Left(depth, MAX_REF_DEPTH), schema, 0
  {
    hide Validates;
    if Members("additionalProperties", schema).None? {
      return true;
    }
    var extra := schema.fields["additionalProperties"];
    var left := obj.Keys;
    while left != {}
      invariant left <= obj.Keys
      invariant forall k :: k in obj && k !in left && k !in Properties(schema) ==>
        Validates(extra, obj[k], defs, depth + 1, MAX_REF_DEPTH)
      decreases |left|
    {
      var name :| name in left;
      left := left - {name};
      if name !in Properties(schema) {
        assert Duty(extra, obj[name]) in ExtraDuties(schema, obj);
        var sub := ValidateSchema(extra, obj[name], defs, depth + 1);
        if !sub {
          return false;
        }
      }
    }
    return true;
  }

  method CheckItems(schema: Json, items: seq<Json>, defs: map<string, Json>, depth: nat) returns (ok: bool)
    requires schema.Obj?
    ensures ok <==> forall d :: d in ItemDuties(schema, items) ==> Validates(d.schema, d.value, defs, depth + 1, MAX_REF_DEPTH)
    decreases Left(depth, MAX_REF_DEPTH), schema, 0
  {
    hide Validates;
    if Members("items", schema).None? {
      return true;
    }
    var item := schema.fields["items"];
    var i := 0;
    while i < |items|
      invariant 0 <= i <= |items|
      invariant forall j :: 0 <= j < i ==> Validates(item, items[j], defs, depth + 1, MAX_REF_DEPTH)
    {
      assert Duty(item, items[i]) in ItemDuties(schema, items);
      var sub := ValidateSchema(item, items[i], defs, depth + 1);
      if !sub {
        return false;
      }
      i := i + 1;
    }
    return true;
  }

  /** oneOf stops at the first match */
  method CheckChoices(schema: Json, value: Json, defs: map<string, Json>, depth: nat) returns (ok: bool)
    requires schema.Obj?
    ensures ok <==> (Choices(schema).Some? ==>
      exists c :: c in Choices(schema).value && Validates(c, value, defs, depth + 1, MAX_REF_DEPTH))
    decreases Left(depth, MAX_REF_DEPTH), schema, 0
  {
    hide Validates;
    var options := Items("oneOf", schema);
    if options.None? {
      return true;
    }
    var i := 0;
    while i < |options.value|
      invariant 0 <= i <= |options.value|
      invariant forall j :: 0 <= j < i && options.value[j].Obj? ==>
        !Validates(options.value[j], value, defs, depth + 1, MAX_REF_DEPTH)
    {
      var option := options.value[i];
      if option.Obj? {
        assert option in Choices(schema).value;
        var sub := ValidateSchema(option, value, defs, depth + 1);
        if sub {
          return true;
        }
      }
      i := i + 1;
    }
    return false;
  }

  /** schemaValidator.validate; its answer does not depend on the order the maps are visited in */
  method ValidateSchema(schema: Json, value: Json, defs: map<string, Json>, depth: nat) returns (ok: bool)
    requires schema.Obj?
    ensures ok == Validates(schema, value, defs, depth, MAX_REF_DEPTH)
    decreases Left(depth, MAX_REF_DEPTH), schema, 1
  {
    hide PropertyDuties, ExtraDuties, ItemDuties, Choices, OwnKeywordsHold;
    var ref := Word("$ref", schema);
    if ref.Some? {
      var target := Resolve(ref.value, defs);
      if target.None? || depth >= MAX_REF_DEPTH {
        return false;
      }
      ok := ValidateSchema(target.value, value, defs, depth + 1);
      return;
    }
    if !OwnKeywordsHold(schema, value) {
      return false;
    }
    if value.Obj? {
      ok := CheckProperties(schema, value.fields, defs, depth);
      if !ok { return; }
      ok := CheckExtras(schema, value.fields, defs, depth);
      if !ok { return; }
    } else if value.Arr? {
      ok := CheckItems(schema, value.items, defs, depth);
      if !ok { return; }
    }
    ok := CheckChoices(schema, value, defs, depth);
    if !ok { return; }
    if Forbidden(schema).Some? {
      var sub := ValidateSchema(Forbidden(schema).value, value, defs, depth + 1);
      return !sub;
    }
  }

  /** validateParamsSchema */
  method ValidateParams(schema: Json, params: Json) returns (ok: bool)
    requires schema.Obj?
    ensures var defs := Members("$defs", schema);
      ok == Validates(schema, params, if defs.Some? then defs.value else map[], 0, MAX_REF_DEPTH)
  {
    var defs := Members("$defs", schema);
    ok := ValidateSchema(schema, params, if defs.Some? then defs.value else map[], 0);
  }
}
