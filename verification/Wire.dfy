/**
 Bounds on the wire: the closed JSON object of a Bound and the record it is
 read into are the same thing, member for member.
 */
module Wire {
  import opened Numbers
  import opened Json
  import opened Bounds

  /** the closed set of Bound members */
  const NAMES: set<string> := {"optional", "min", "max", "step", "enum", "min_items", "max_items", "nested"}

  /** the wire value of one member, when the Bound declares it */
  function Field(b: Bound, name: string): Option<Json>
    decreases b, 0
  {
    var num := (n: Option<Number>) => if n.Some? then Some(Num(n.value)) else None;
    match name
    case "optional" => if b.optional.Some? then Some(Bool(b.optional.value)) else None
    case "min" => num(b.min)
    case "max" => num(b.max)
    case "step" => num(b.step)
    case "enum" => if b.members.Some? then Some(Arr(b.members.value)) else None
    case "min_items" => num(b.minItems)
    case "max_items" => num(b.maxItems)
    case "nested" =>
      if b.nested.Fields? then Some(Obj(map k | k in b.nested.fields :: Encode(b.nested.fields[k]))) else None
    case _ => None
  }

  function Encode(b: Bound): Json
    decreases b, 1
  {
    Obj(map k | k in NAMES && Field(b, k).Some? :: Field(b, k).value)
  }

  function EncodeAll(bounds: map<string, Bound>): map<string, Json> {
    map k | k in bounds :: Encode(bounds[k])
  }

  function NumberAt(m: map<string, Json>, k: string): Option<Number> {
    if k in m && m[k].Num? then Some(m[k].n) else None
  }

  /** the shape part of validateBound: closed, and every member of its own type */
  predicate WellTyped(v: Json) {
    && v.Obj?
    && (forall k :: k in v.fields ==> k in NAMES)
    && (forall k :: k in v.fields ==>
         match k
         case "optional" => v.fields[k].Bool?
         case "enum" => v.fields[k].Arr?
         case "nested" =>
           v.fields[k].Obj? && forall x :: x in v.fields[k].fields ==> WellTyped(v.fields[k].fields[x])
         case _ => v.fields[k].Num?)
  }

  function Decode(v: Json): Bound
    requires WellTyped(v)
  {
    var m := v.fields;
    Bound(
      if "optional" in m then Some(m["optional"].b) else None,
      NumberAt(m, "min"), NumberAt(m, "max"), NumberAt(m, "step"),
      if "enum" in m then Some(m["enum"].items) else None,
      NumberAt(m, "min_items"), NumberAt(m, "max_items"),
      if "nested" in m then Fields(map k | k in m["nested"].fields :: Decode(m["nested"].fields[k])) else NoNested)
  }

  lemma {:induction false} EncodeWellTyped(b: Bound)
    ensures WellTyped(Encode(b))
  {
    if b.nested.Fields? {
      forall k | k in b.nested.fields ensures WellTyped(Encode(b.nested.fields[k])) {
        EncodeWellTyped(b.nested.fields[k]);
      }
    }
  }

  lemma Names(name: string)
    requires name in NAMES
    ensures name == "optional" || name == "min" || name == "max" || name == "step" || name == "enum"
            || name == "min_items" || name == "max_items" || name == "nested"
  {
  }

  function Wrapped(n: Option<Number>): Option<Json> {
    if n.Some? then Some(Num(n.value)) else None
  }

  lemma FieldsByName(b: Bound)
    ensures Field(b, "min") == Wrapped(b.min) && Field(b, "max") == Wrapped(b.max)
    ensures Field(b, "step") == Wrapped(b.step)
    ensures Field(b, "min_items") == Wrapped(b.minItems) && Field(b, "max_items") == Wrapped(b.maxItems)
    ensures Field(b, "enum") == if b.members.Some? then Some(Arr(b.members.value)) else None
    ensures Field(b, "optional") == if b.optional.Some? then Some(Bool(b.optional.value)) else None
    ensures Field(b, "nested") == if b.nested.Fields? then Some(Obj(EncodeAll(b.nested.fields))) else None
  {
    assert "max"[1] != "min"[1] && "max_items"[1] != "min_items"[1] && "step"[0] != "enum"[0];
  }

  lemma EncodeLookup(b: Bound, name: string)
    requires name in NAMES
    ensures name in Encode(b).fields <==> Field(b, name).Some?
    ensures Field(b, name).Some? ==> Encode(b).fields[name] == Field(b, name).value
  {
    hide Field;
  }

  lemma {:induction false} DecodeFieldwise(v: Json, name: string)
    requires WellTyped(v) && name in NAMES
    requires "nested" in v.fields ==> EncodeAll(Decode(v).nested.fields) == v.fields["nested"].fields
    ensures Field(Decode(v), name) == if name in v.fields then Some(v.fields[name]) else None
  {
    Names(name);
    FieldsByName(Decode(v));
    hide Field;
  }

  /** an object whose fields are those of a record is its encoding */
  lemma EncodeFrom(b: Bound, v: Json)
    requires v.Obj? && (forall k :: k in v.fields ==> k in NAMES)
    requires forall name :: name in NAMES ==> Field(b, name) == if name in v.fields then Some(v.fields[name]) else None
    ensures Encode(b) == v
  {
    hide Field;
    assert Encode(b).fields == v.fields;
  }

  lemma TypedNames(v: Json)
    requires WellTyped(v)
    ensures v.Obj? && (forall k :: k in v.fields ==> k in NAMES)
    ensures "nested" in v.fields ==> v.fields["nested"].Obj?
    ensures "nested" in v.fields ==> (forall k :: k in v.fields["nested"].fields ==> WellTyped(v.fields["nested"].fields[k]))
  {
  }

  lemma DecodeNested(v: Json)
    requires WellTyped(v) && "nested" in v.fields
    requires v.fields["nested"].Obj?
    requires forall k :: k in v.fields["nested"].fields ==> WellTyped(v.fields["nested"].fields[k])
    ensures Decode(v).nested == Fields(map k | k in v.fields["nested"].fields :: Decode(v.fields["nested"].fields[k]))
  {
    hide WellTyped, NumberAt;
  }

  lemma {:induction false} EncodeUndoesDecode(v: Json)
    requires WellTyped(v)
    ensures Encode(Decode(v)) == v
  {
    hide Field, Decode, Encode, WellTyped;
    var b := Decode(v);
    TypedNames(v);
    if "nested" in v.fields {
      var m := v.fields["nested"].fields;
      DecodeNested(v);
      forall k | k in m ensures WellTyped(m[k]) && Encode(Decode(m[k])) == m[k] {
        EncodeUndoesDecode(m[k]);
      }
      assert EncodeAll(b.nested.fields) == m;
    }
    forall name | name in NAMES
      ensures Field(b, name) == if name in v.fields then Some(v.fields[name]) else None
    {
      DecodeFieldwise(v, name);
    }
    EncodeFrom(b, v);
  }

  /** equal encodings give the two records equal members, name by name */
  lemma SameFields(b: Bound, c: Bound, name: string)
    requires Encode(b) == Encode(c) && name in NAMES
    ensures Field(b, name) == Field(c, name)
  {
    hide Field, Encode;
    EncodeLookup(b, name);
    EncodeLookup(c, name);
  }

  /** records whose members agree by name are equal, up to what is nested */
  lemma SameRecord(b: Bound, c: Bound)
    requires forall name :: name in NAMES ==> Field(b, name) == Field(c, name)
    ensures b.nested.Fields? <==> c.nested.Fields?
    ensures b.nested.Fields? ==> EncodeAll(b.nested.fields) == EncodeAll(c.nested.fields)
    ensures b.(nested := NoNested) == c.(nested := NoNested)
  {
    FieldsByName(b);
    FieldsByName(c);
    hide Field, Encode, EncodeAll;
    assert "optional" in NAMES && "enum" in NAMES && "nested" in NAMES;
    assert "min" in NAMES && "max" in NAMES && "step" in NAMES && "min_items" in NAMES && "max_items" in NAMES;
  }

  lemma {:induction false} EncodeInjective(b: Bound, c: Bound)
    requires Encode(b) == Encode(c)
    ensures b == c
  {
    hide Field, Encode;
    forall name | name in NAMES ensures Field(b, name) == Field(c, name) {
      SameFields(b, c, name);
    }
    SameRecord(b, c);
    if b.nested.Fields? {
      var m, n := b.nested.fields, c.nested.fields;
      assert m.Keys == EncodeAll(m).Keys == EncodeAll(n).Keys == n.Keys;
      forall k | k in m ensures m[k] == n[k] {
        assert EncodeAll(m)[k] == EncodeAll(n)[k];
        EncodeInjective(m[k], n[k]);
      }
      assert m == n;
    }
  }

  lemma {:induction false} DecodeUndoesEncode(b: Bound)
    ensures WellTyped(Encode(b)) && Decode(Encode(b)) == b
  {
    hide *;
    EncodeWellTyped(b);
    EncodeUndoesDecode(Encode(b));
    EncodeInjective(Decode(Encode(b)), b);
  }
}
