/**
 What a schema asks of a value, keyword by keyword and read off the schema's own
 JSON. The validator accepts exactly what every keyword lets through.
 */
module SchemaKeywords {
  import opened Numbers
  import opened Json
  import opened SchemaValidation

  /** who judges subschemas: the validator at some depth, or the meaning without a cut */
  datatype Judge =
    | Validator(defs: map<string, Json>, depth: nat, limit: nat)
    | Unbounded(defs: map<string, Json>)

  /** a subschema accepts a value; the validator looks one level deeper */
  ghost predicate Passes(sub: Json, v: Json, at: Judge) {
    sub.Obj? &&
    match at
    case Validator(defs, depth, limit) => Validates(sub, v, defs, depth + 1, limit)
    case Unbounded(defs) => Means(true, sub, v, defs)
  }

  ghost predicate Fails(sub: Json, v: Json, at: Judge) {
    sub.Obj? &&
    match at
    case Validator(defs, depth, limit) => !Validates(sub, v, defs, depth + 1, limit)
    case Unbounded(defs) => Means(false, sub, v, defs)
  }

  // ---------------------------------------------------------------------
  // Keywords about the value alone
  // ---------------------------------------------------------------------

  predicate ConstKeyword(s: map<string, Json>, v: Json) {
    "const" in s ==> v == s["const"]
  }

  predicate EnumKeyword(s: map<string, Json>, v: Json) {
    "enum" in s && s["enum"].Arr? ==> v in s["enum"].items
  }

  /** a type name that is none of the six admits nothing */
  predicate TypeKeyword(s: map<string, Json>, v: Json) {
    "type" in s && s["type"].Str? ==>
      var t := s["type"].s;
      || (v.Obj? && t == "object")
      || (v.Arr? && t == "array")
      || (v.Str? && t == "string")
      || (v.Bool? && t == "boolean")
      || (v.Num? && t == "number")
      || (v.Num? && t == "integer" && v.n.Value() == v.n.Value().Floor as real)
  }

  predicate MinimumKeyword(s: map<string, Json>, v: Json) {
    v.Num? && "minimum" in s && s["minimum"].Num? ==> v.n.Value() >= s["minimum"].n.Value()
  }

  predicate MaximumKeyword(s: map<string, Json>, v: Json) {
    v.Num? && "maximum" in s && s["maximum"].Num? ==> v.n.Value() <= s["maximum"].n.Value()
  }

  /** an entry that is no text asks for the key "" */
  predicate RequiredKeyword(s: map<string, Json>, v: Json) {
    v.Obj? && "required" in s && s["required"].Arr? ==>
      forall r :: r in s["required"].items ==> (if r.Str? then r.s else "") in v.fields
  }

  predicate MinItemsKeyword(s: map<string, Json>, v: Json) {
    v.Arr? && "minItems" in s && s["minItems"].Num? ==> |v.items| as real >= s["minItems"].n.Value()
  }

  predicate MaxItemsKeyword(s: map<string, Json>, v: Json) {
    v.Arr? && "maxItems" in s && s["maxItems"].Num? ==> |v.items| as real <= s["maxItems"].n.Value()
  }

  predicate UniqueItemsKeyword(s: map<string, Json>, v: Json) {
    v.Arr? && "uniqueItems" in s && s["uniqueItems"] == Bool(true) ==>
      forall i, j :: 0 <= i < j < |v.items| ==> v.items[i] != v.items[j]
  }

  predicate PlainKeywords(s: map<string, Json>, v: Json) {
    && ConstKeyword(s, v) && EnumKeyword(s, v) && TypeKeyword(s, v)
    && MinimumKeyword(s, v) && MaximumKeyword(s, v)
    && RequiredKeyword(s, v)
    && MinItemsKeyword(s, v) && MaxItemsKeyword(s, v) && UniqueItemsKeyword(s, v)
  }

  // ---------------------------------------------------------------------
  // Keywords that hold subschemas
  // ---------------------------------------------------------------------

  predicate Declares(s: map<string, Json>, k: string) {
    "properties" in s && s["properties"].Obj? && k in s["properties"].fields
  }

  ghost predicate PropertiesKeyword(s: map<string, Json>, v: Json, at: Judge) {
    v.Obj? ==>
      forall k :: k in v.fields && Declares(s, k) ==>
        var sub := s["properties"].fields[k];
        sub.Obj? ==> Passes(sub, v.fields[k], at)
  }

  /** an undeclared key: refused by false, judged by a schema, and without the
      keyword refused as soon as any property is declared */
  ghost predicate ExtraKeyword(s: map<string, Json>, v: Json, at: Judge) {
    v.Obj? ==>
      forall k :: k in v.fields && !Declares(s, k) ==>
        if "additionalProperties" in s then
          var extra := s["additionalProperties"];
          extra != Bool(false) && (extra.Obj? ==> Passes(extra, v.fields[k], at))
        else !(exists name :: Declares(s, name))
  }

  ghost predicate ItemsKeyword(s: map<string, Json>, v: Json, at: Judge) {
    v.Arr? && "items" in s && s["items"].Obj? ==> forall x :: x in v.items ==> Passes(s["items"], x, at)
  }

  /** at least one of the schemas listed accepts */
  ghost predicate OneOfKeyword(s: map<string, Json>, v: Json, at: Judge) {
    "oneOf" in s && s["oneOf"].Arr? ==> exists c :: c in s["oneOf"].items && Passes(c, v, at)
  }

  ghost predicate NotKeyword(s: map<string, Json>, v: Json, at: Judge) {
    "not" in s && s["not"].Obj? ==> Fails(s["not"], v, at)
  }

  ghost predicate SchemaKeywordsHold(s: map<string, Json>, v: Json, at: Judge) {
    && PropertiesKeyword(s, v, at) && ExtraKeyword(s, v, at) && ItemsKeyword(s, v, at)
    && OneOfKeyword(s, v, at) && NotKeyword(s, v, at)
  }

  // ---------------------------------------------------------------------
  // The validator, keyword by keyword
  // ---------------------------------------------------------------------

  lemma TypeAgrees(name: string, v: Json)
    ensures HasType(name, v) <==> TypeKeyword(map["type" := Str(name)], v)
  {
    hide Decimal.Value;
    assert "integer" != "number" && "array" != "object" && "string" != "object" by {
      assert "integer"[0] != "number"[0] && "array"[0] != "object"[0] && "string"[0] != "object"[0];
    }
  }

  lemma ScalarsAgree(schema: Json, v: Json)
    requires schema.Obj?
    ensures ScalarsHold(schema, v) <==>
      && ConstKeyword(schema.fields, v) && EnumKeyword(schema.fields, v) && TypeKeyword(schema.fields, v)
      && MinimumKeyword(schema.fields, v) && MaximumKeyword(schema.fields, v)
  {
    if Word("type", schema).Some? {
      TypeAgrees(schema.fields["type"].s, v);
    }
    hide HasType, Decimal.Value;
  }

  lemma RequiredAgrees(schema: Json, obj: map<string, Json>)
    requires schema.Obj?
    ensures MembersHold(schema, obj) <==>
      RequiredKeyword(schema.fields, Obj(obj)) && (IsClosed(schema) ==> forall k :: k in obj ==> k in Properties(schema))
  {
    hide IsClosed, Properties;
    var r := Items("required", schema);
    if r.Some? {
      assert forall i :: 0 <= i < |r.value| ==> r.value[i] in schema.fields["required"].items;
    }
  }

  lemma CountsAgree(schema: Json, items: seq<Json>)
    requires schema.Obj?
    ensures CountsHold(schema, items) <==>
      && MinItemsKeyword(schema.fields, Arr(items)) && MaxItemsKeyword(schema.fields, Arr(items))
      && UniqueItemsKeyword(schema.fields, Arr(items))
  {
    hide Decimal.Value;
  }

  /** the declared properties close a schema that says nothing more, and false closes any */
  ghost predicate Closes(s: map<string, Json>, v: Json) {
    v.Obj? ==>
      forall k :: k in v.fields && !Declares(s, k) ==>
        if "additionalProperties" in s then s["additionalProperties"] != Bool(false)
        else !(exists name :: Declares(s, name))
  }

  lemma ClosedAgrees(schema: Json, obj: map<string, Json>)
    requires schema.Obj?
    ensures (IsClosed(schema) ==> forall k :: k in obj ==> k in Properties(schema)) <==> Closes(schema.fields, Obj(obj))
  {
    assert forall k :: k in Properties(schema) <==> Declares(schema.fields, k);
    assert Properties(schema) != map[] <==> exists name :: name in Properties(schema);
  }

  lemma OwnAgree(schema: Json, v: Json)
    requires schema.Obj?
    ensures OwnKeywordsHold(schema, v) <==> PlainKeywords(schema.fields, v) && Closes(schema.fields, v)
  {
    ScalarsAgree(schema, v);
    if v.Obj? {
      RequiredAgrees(schema, v.fields);
      ClosedAgrees(schema, v.fields);
    }
    if v.Arr? {
      CountsAgree(schema, v.items);
    }
    hide ScalarsHold, MembersHold, CountsHold, IsClosed, Properties, ConstKeyword, EnumKeyword, TypeKeyword;
  }

  /** every duty is met */
  ghost predicate Met(duties: set<Duty>, at: Judge) {
    forall d :: d in duties ==> Passes(d.schema, d.value, at)
  }

  lemma PropertiesAgree(schema: Json, obj: map<string, Json>, at: Judge)
    requires schema.Obj?
    ensures Met(PropertyDuties(schema, obj), at) <==> PropertiesKeyword(schema.fields, Obj(obj), at)
  {
    hide Passes;
    var props := Properties(schema);
    var duties := PropertyDuties(schema, obj);
    assert forall k :: k in props <==> Declares(schema.fields, k);
    if Met(duties, at) {
      forall k | k in obj && k in props && props[k].Obj? ensures Passes(props[k], obj[k], at) {
        assert Duty(props[k], obj[k]) in duties;
      }
    }
  }

  /** what a schema under additionalProperties asks */
  ghost predicate ExtrasPass(s: map<string, Json>, v: Json, at: Judge) {
    v.Obj? && "additionalProperties" in s && s["additionalProperties"].Obj? ==>
      forall k :: k in v.fields && !Declares(s, k) ==> Passes(s["additionalProperties"], v.fields[k], at)
  }

  lemma ExtrasAgree(schema: Json, obj: map<string, Json>, at: Judge)
    requires schema.Obj?
    ensures Met(ExtraDuties(schema, obj), at) <==> ExtrasPass(schema.fields, Obj(obj), at)
  {
    hide Passes;
    var duties := ExtraDuties(schema, obj);
    assert forall k :: k in Properties(schema) <==> Declares(schema.fields, k);
    if Met(duties, at) && Members("additionalProperties", schema).Some? {
      var extra := schema.fields["additionalProperties"];
      forall k | k in obj && !Declares(schema.fields, k) ensures Passes(extra, obj[k], at) {
        assert Duty(extra, obj[k]) in duties;
      }
    }
  }

  lemma ItemsAgree(schema: Json, items: seq<Json>, at: Judge)
    requires schema.Obj?
    ensures Met(ItemDuties(schema, items), at) <==> ItemsKeyword(schema.fields, Arr(items), at)
  {
    hide Passes;
    var duties := ItemDuties(schema, items);
    if Met(duties, at) && Members("items", schema).Some? {
      forall x | x in items ensures Passes(schema.fields["items"], x, at) {
        var i :| 0 <= i < |items| && items[i] == x;
        assert Duty(schema.fields["items"], items[i]) in duties;
      }
    }
  }

  lemma DutiesAgree(schema: Json, v: Json, at: Judge)
    requires schema.Obj?
    ensures Met(Duties(schema, v), at) <==>
      PropertiesKeyword(schema.fields, v, at) && ExtrasPass(schema.fields, v, at) && ItemsKeyword(schema.fields, v, at)
  {
    if v.Obj? {
      PropertiesAgree(schema, v.fields, at);
      ExtrasAgree(schema, v.fields, at);
    } else if v.Arr? {
      ItemsAgree(schema, v.items, at);
    }
    hide Passes, PropertyDuties, ExtraDuties, ItemDuties;
  }

  lemma ChoicesAgree(schema: Json, v: Json, at: Judge)
    requires schema.Obj?
    ensures (Choices(schema).Some? ==> exists c :: c in Choices(schema).value && Passes(c, v, at)) <==>
      OneOfKeyword(schema.fields, v, at)
  {
    if "oneOf" in schema.fields && schema.fields["oneOf"].Arr? {
      var options := schema.fields["oneOf"].items;
      forall c | c in options && Passes(c, v, at) ensures c in Choices(schema).value {
        var i :| 0 <= i < |options| && options[i] == c;
      }
    }
    hide Validates;
  }

  lemma ExtraSplits(s: map<string, Json>, v: Json, at: Judge)
    ensures ExtraKeyword(s, v, at) <==> Closes(s, v) && ExtrasPass(s, v, at)
  {
    hide Passes, Declares;
  }

  lemma Opened(schema: Json, v: Json, defs: map<string, Json>, depth: nat, limit: nat)
    requires schema.Obj? && Word("$ref", schema).None?
    ensures Validates(schema, v, defs, depth, limit) <==>
      && OwnKeywordsHold(schema, v)
      && (forall d :: d in Duties(schema, v) ==> Validates(d.schema, d.value, defs, depth + 1, limit))
      && (Choices(schema).Some? ==> exists c :: c in Choices(schema).value && Validates(c, v, defs, depth + 1, limit))
      && (Forbidden(schema).Some? ==> !Validates(Forbidden(schema).value, v, defs, depth + 1, limit))
  {
    hide OwnKeywordsHold, Duties, Choices, Forbidden, Word, Left, Resolve;
  }

  lemma Unfolded(schema: Json, v: Json, at: Judge)
    requires at.Validator? && schema.Obj? && Word("$ref", schema).None?
    ensures Validates(schema, v, at.defs, at.depth, at.limit) <==>
      && OwnKeywordsHold(schema, v)
      && Met(Duties(schema, v), at)
      && (Choices(schema).Some? ==> exists c :: c in Choices(schema).value && Passes(c, v, at))
      && (Forbidden(schema).Some? ==> Fails(Forbidden(schema).value, v, at))
  {
    hide OwnKeywordsHold, Duties, Choices, Forbidden, Word, Means, Validates;
    Opened(schema, v, at.defs, at.depth, at.limit);
  }

  /** A schema without a reference accepts a value exactly when each of its
      keywords does, subschemas judged one level deeper. */
  lemma {:induction false} ValidatesByKeyword(schema: Json, v: Json, at: Judge)
    requires at.Validator? && schema.Obj? && ("$ref" in schema.fields ==> !schema.fields["$ref"].Str?)
    ensures Validates(schema, v, at.defs, at.depth, at.limit) <==>
      PlainKeywords(schema.fields, v) && SchemaKeywordsHold(schema.fields, v, at)
  {
    Unfolded(schema, v, at);
    OwnAgree(schema, v);
    DutiesAgree(schema, v, at);
    ChoicesAgree(schema, v, at);
    ExtraSplits(schema.fields, v, at);
    hide Validates, Passes, Fails, OwnKeywordsHold, Duties, Choices, PlainKeywords, PropertiesKeyword, ExtraKeyword, Closes,
      ExtrasPass, ItemsKeyword, OneOfKeyword, Met;
  }

  /** A reference accepts exactly when it names a local definition that is a
      schema, the depth limit is not reached, and that definition accepts one
      level deeper; the other keywords beside it say nothing. */
  lemma {:induction false} ValidatesReference(schema: Json, v: Json, at: Judge)
    requires at.Validator? && schema.Obj? && "$ref" in schema.fields && schema.fields["$ref"].Str?
    ensures Validates(schema, v, at.defs, at.depth, at.limit) <==>
      exists name :: schema.fields["$ref"].s == "#/$defs/" + name && name in at.defs && at.depth < at.limit && Passes(at.defs[name], v, at)
  {
    var ref := schema.fields["$ref"].s;
    ValidatesRef(schema, v, at.defs, at.depth, at.limit);
    hide Validates;
    var target := Resolve(ref, at.defs);
    if target.Some? {
      var name := ref[|"#/$defs/"|..];
      assert ref == "#/$defs/" + name;
    }
    forall name | ref == "#/$defs/" + name ensures ref[..|"#/$defs/"|] == "#/$defs/" && ref[|"#/$defs/"|..] == name {
    }
  }
}
