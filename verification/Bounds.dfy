/**
 Extended parameter bounds: what a Bound accepts, when one Bound is within
 another, and the meet of two Bounds.  A Bound is read here from its closed JSON
 object into a record; Wire.dfy relates the two.
 */
module Bounds {
  import opened Numbers
  import opened Binary64
  import opened Json
  import opened CanonicalJson
  import opened Collation

  datatype Bound = Bound(
    optional: Option<bool>,
    min: Option<Number>,
    max: Option<Number>,
    step: Option<Number>,
    members: Option<seq<Json>>,
    minItems: Option<Number>,
    maxItems: Option<Number>,
    nested: Nested)
  {
    predicate IsOptional() { optional == Some(true) }
    predicate HasNumeric() { min.Some? || max.Some? || step.Some? }
    predicate HasEnum() { members.Some? || minItems.Some? || maxItems.Some? }
    predicate HasNested() { nested.Fields? }
  }

  datatype Nested = NoNested | Fields(fields: map<string, Bound>)

  const EMPTY := Bound(None, None, None, None, None, None, None, NoNested)

  predicate AtMost(a: Number, b: Number) {
    a.Value() <= b.Value()
  }

  function Truncate(r: real): int {
    if r >= 0.0 then r.Floor else -((-r).Floor)
  }

  /** the step rule, on binary64 values */
  predicate IsMultipleOf(v: Number, step: Number) {
    MultipleOf(Float(v), Float(step))
  }

  predicate IsCount(n: Number) {
    n.Value() >= 0.0 && n.Value() == Truncate(n.Value()) as real
  }

  // ---------------------------------------------------------------------
  // validateBound
  // ---------------------------------------------------------------------

  predicate OneFamily(b: Bound) {
    && !(b.HasNumeric() && b.HasEnum())
    && !(b.HasNumeric() && b.HasNested())
    && !(b.HasEnum() && b.HasNested())
  }

  predicate Ordered(lo: Option<Number>, hi: Option<Number>) {
    lo.Some? && hi.Some? ==> AtMost(lo.value, hi.value)
  }

  predicate ValidBound(b: Bound) {
    && OneFamily(b)
    && (b.step.Some? ==> Float(b.step.value) > 0.0)
    && Ordered(b.min, b.max)
    && (b.minItems.Some? ==> IsCount(b.minItems.value))
    && (b.maxItems.Some? ==> IsCount(b.maxItems.value))
    && Ordered(b.minItems, b.maxItems)
    && (b.nested.Fields? ==> forall k :: k in b.nested.fields ==> ValidBound(b.nested.fields[k]))
  }

  // ---------------------------------------------------------------------
  // Acceptance: boundSubset
  // ---------------------------------------------------------------------

  /** membership by canonical equality */
  predicate Member(x: Json, xs: seq<Json>)
    ensures Member(x, xs) <==> x in xs
  {
    exists i :: 0 <= i < |xs| && EnumEqual(x, xs[i])
  }

  /** the values an enum is checked against: the elements of an array, or the scalar itself */
  function Elements(v: Json): seq<Json> {
    if v.Arr? then v.items else [v]
  }

  predicate InEnum(v: Json, members: seq<Json>) {
    members != [] && forall i :: 0 <= i < |Elements(v)| ==> Member(Elements(v)[i], members)
  }

  function Cardinality(v: Json): nat {
    if v.Arr? then |v.items| else 1
  }

  predicate CountAtLeast(v: Json, n: Option<Number>) {
    n.Some? ==> n.value.Value() <= Cardinality(v) as real
  }

  predicate CountAtMost(v: Json, n: Option<Number>) {
    n.Some? ==> Cardinality(v) as real <= n.value.Value()
  }

  predicate NumericBound(v: Json, b: Bound) {
    && v.Num?
    && (b.min.Some? ==> AtMost(b.min.value, v.n))
    && (b.max.Some? ==> AtMost(v.n, b.max.value))
    && (b.step.Some? ==> IsMultipleOf(v.n, b.step.value))
  }

  predicate BoundSubset(v: Json, b: Bound)
    decreases b, 1
  {
    && (b.members.Some? ==> InEnum(v, b.members.value))
    && CountAtLeast(v, b.minItems)
    && CountAtMost(v, b.maxItems)
    && if b.nested.Fields? then v.Obj? && NestedSubset(v.fields, b)
       else b.HasNumeric() ==> NumericBound(v, b)
  }

  /** the keys of an object value against a nested Bound map, closed on both sides */
  predicate NestedSubset(op: map<string, Json>, b: Bound)
    requires b.nested.Fields?
    decreases b, 0
  {
    && (forall k :: k in b.nested.fields ==>
         if k in op then BoundSubset(op[k], b.nested.fields[k]) else b.nested.fields[k].IsOptional())
    && (forall k :: k in op ==> k in b.nested.fields)
  }

  // ---------------------------------------------------------------------
  // Containment: boundWithin
  // ---------------------------------------------------------------------

  predicate NoLower(c: Option<Number>, p: Option<Number>) {
    p.Some? ==> c.Some? && AtMost(p.value, c.value)
  }

  predicate NoHigher(c: Option<Number>, p: Option<Number>) {
    p.Some? ==> c.Some? && AtMost(c.value, p.value)
  }

  predicate CoarserStep(c: Option<Number>, p: Option<Number>) {
    p.Some? ==> c.Some? && IsMultipleOf(c.value, p.value)
  }

  predicate FewerMembers(c: Option<seq<Json>>, p: Option<seq<Json>>) {
    p.Some? ==> c.Some? && forall i :: 0 <= i < |c.value| ==> Member(c.value[i], p.value)
  }

  predicate BoundWithin(c: Bound, p: Bound)
    decreases p
  {
    && (c.IsOptional() ==> p.IsOptional())
    && NoLower(c.min, p.min) && NoHigher(c.max, p.max) && CoarserStep(c.step, p.step)
    && FewerMembers(c.members, p.members)
    && NoLower(c.minItems, p.minItems) && NoHigher(c.maxItems, p.maxItems)
    && (p.nested.Fields? ==>
         && c.nested.Fields?
         && (forall k :: k in p.nested.fields ==>
              k in c.nested.fields && BoundWithin(c.nested.fields[k], p.nested.fields[k]))
         && (forall k :: k in c.nested.fields ==> k in p.nested.fields))
  }

  // ---------------------------------------------------------------------
  // Meet: boundMeet
  // ---------------------------------------------------------------------

  function Greater(a: Option<Number>, b: Option<Number>): Option<Number> {
    if a.None? then b else if b.None? then a
    else if AtMost(a.value, b.value) then b else a
  }

  function Lesser(a: Option<Number>, b: Option<Number>): Option<Number> {
    if a.None? then b else if b.None? then a
    else if AtMost(b.value, a.value) then b else a
  }

  function NumericMeet(a: Bound, b: Bound): Option<Bound> {
    if a.step.Some? && b.step.Some?
       && !IsMultipleOf(a.step.value, b.step.value) && !IsMultipleOf(b.step.value, a.step.value) then None
    else
      var step :=
        if a.step.None? then b.step else if b.step.None? then a.step
        else if IsMultipleOf(a.step.value, b.step.value) then a.step else b.step;
      var res := EMPTY.(min := Greater(a.min, b.min), max := Lesser(a.max, b.max), step := step);
      if Ordered(res.min, res.max) then Some(res) else None
  }

  /** the entries of a that b also lists, in order */
  function Filter(a: seq<Json>, b: seq<Json>): (r: seq<Json>)
    ensures forall x :: x in r <==> x in a && x in b
    ensures |r| <= |a|
  {
    if a == [] then []
    else
      assert forall x :: x in a <==> x == a[0] || x in a[1..];
      if Member(a[0], b) then [a[0]] + Filter(a[1..], b) else Filter(a[1..], b)
  }

  function Texts(xs: seq<Json>): set<string> {
    set x | x in xs :: Canonical(x)
  }

  /** enum members without repeats, ordered by canonical text */
  function CanonicalMembers(xs: seq<Json>): (r: seq<Json>)
    ensures forall x :: x in r <==> x in xs
    ensures forall i, j :: 0 <= i < j < |r| ==> Less(CodePoints, Canonical(r[i]), Canonical(r[j]))
  {
    var texts := SortedKeys(CodePoints, Texts(xs));
    TextsListed(xs, texts);
    var r := seq(|texts|, i requires 0 <= i < |texts| => WithText(texts[i], xs));
    assert forall x :: x in r <==> x in xs by { CanonicalMembersSame(xs, texts, r); }
    r
  }

  predicate IsTextOf(text: string, xs: seq<Json>) {
    exists x :: x in xs && Canonical(x) == text
  }

  function WithText(text: string, xs: seq<Json>): (x: Json)
    requires IsTextOf(text, xs)
    ensures x in xs && Canonical(x) == text
  {
    if Canonical(xs[0]) == text then xs[0] else WithText(text, xs[1..])
  }

  lemma TextsListed(xs: seq<Json>, texts: seq<string>)
    requires SameKeys(texts, Texts(xs))
    ensures forall i :: 0 <= i < |texts| ==> IsTextOf(texts[i], xs)
  {
    forall i | 0 <= i < |texts| ensures IsTextOf(texts[i], xs) {
      assert texts[i] in texts;
    }
  }

  lemma CanonicalMembersSame(xs: seq<Json>, texts: seq<string>, r: seq<Json>)
    requires SameKeys(texts, Texts(xs))
    requires |r| == |texts| && forall i :: 0 <= i < |r| ==> r[i] in xs && Canonical(r[i]) == texts[i]
    ensures forall x :: x in r <==> x in xs
  {
    forall x | x in xs ensures x in r {
      assert Canonical(x) in texts;
      var i :| 0 <= i < |texts| && texts[i] == Canonical(x);
      CanonicalInjective(x, r[i]);
    }
  }

  function EnumMeet(a: Bound, b: Bound): Option<Bound> {
    var members :=
      if a.members.Some? && b.members.Some? then Some(CanonicalMembers(Filter(a.members.value, b.members.value)))
      else if a.members.Some? then a.members else b.members;
    var res := EMPTY.(members := members,
                      minItems := Greater(a.minItems, b.minItems),
                      maxItems := Lesser(a.maxItems, b.maxItems));
    if a.members.Some? && b.members.Some? && members.value == [] then None
    else if Ordered(res.minItems, res.maxItems) then Some(res) else None
  }

  predicate Overlapping(a: map<string, Bound>, b: map<string, Bound>) {
    |a| == |b| && forall k :: k in a ==> k in b
  }

  function BoundMeet(a: Bound, b: Bound): Option<Bound>
    decreases a, 1
  {
    var optional := if a.IsOptional() && b.IsOptional() then Some(true) else None;
    var none := (x: Bound) => !x.HasNumeric() && !x.HasEnum() && !x.HasNested();
    var res :=
      if none(a) then Some(b)
      else if none(b) then Some(a)
      else if a.HasNested() && b.HasNested() then NestedMeet(a, b)
      else if a.HasNested() || b.HasNested() then None
      else if a.HasEnum() && b.HasEnum() then EnumMeet(a, b)
      else if a.HasEnum() || b.HasEnum() then None
      else NumericMeet(a, b);
    if res.None? then None else Some(res.value.(optional := optional))
  }

  function NestedMeet(a: Bound, b: Bound): Option<Bound>
    requires a.HasNested() && b.HasNested()
    decreases a, 0
  {
    if !Overlapping(a.nested.fields, b.nested.fields) then None
    else if exists k :: k in a.nested.fields && BoundMeet(a.nested.fields[k], b.nested.fields[k]).None? then None
    else
      Some(EMPTY.(nested := Fields(map k | k in a.nested.fields ::
        BoundMeet(a.nested.fields[k], b.nested.fields[k]).value)))
  }
}
