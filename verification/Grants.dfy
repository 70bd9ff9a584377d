/**
 Grants and operations: entailment, containment and the n-ary meet.
 A nil parameter map and an empty one behave alike and are one value here.
 */
module Grants {
  import opened Numbers
  import opened Json
  import opened CanonicalJson
  import opened Collation
  import opened Caps
  import opened Bounds
  import opened Ids
  import Wire

  datatype Grant = Grant(id: string, params: map<string, Json>, bounds: map<string, Bound>, constraints: seq<string>)

  datatype Operation = Operation(id: string, params: map<string, Json>)

  function Declared(g: Grant): set<string> {
    g.params.Keys + g.bounds.Keys
  }

  // ---------------------------------------------------------------------
  // Plain parameter values: valueSubset and intersectValue
  // ---------------------------------------------------------------------

  /** an operation value against a granted value: numbers are upper bounds,
      arrays are sets of allowed values, objects are closed and compared by key */
  predicate ValueSubset(o: Json, g: Json) {
    !o.Null? &&
    match g
    case Null => false
    case Bool(_) => o == g
    case Str(_) => o == g
    case Num(n) => o.Num? && AtMost(o.n, n)
    case Arr(items) => InEnum(o, items)
    case Obj(fields) =>
      && o.Obj?
      && (fields != map[] ==>
           && (forall k :: k in fields ==> k in o.fields && ValueSubset(o.fields[k], fields[k]))
           && (forall k :: k in o.fields ==> k in fields))
  }

  function IntersectValue(a: Json, b: Json): Option<Json> {
    match a
    case Num(x) =>
      if !b.Num? then None else if AtMost(b.n, x) then Some(b) else Some(a)
    case Arr(items) =>
      if !b.Arr? then None
      else
        var r := Filter(items, b.items);
        if r == [] then None else Some(Arr(r))
    case Obj(fields) =>
      if !b.Obj? || |fields| != |b.fields| || fields == map[]
         || exists k :: k in fields && (k !in b.fields || IntersectValue(fields[k], b.fields[k]).None?) then None
      else
        Some(Obj(map k | k in fields :: IntersectValue(fields[k], b.fields[k]).value))
    case _ => if EnumEqual(a, b) then Some(a) else None
  }

  predicate IsEmptyValue(v: Json) {
    (v.Arr? && v.items == []) || (v.Obj? && v.fields == map[])
  }

  // ---------------------------------------------------------------------
  // Entails
  // ---------------------------------------------------------------------

  /** ValidateParamBounds */
  predicate ValidBounds(g: Grant) {
    g.bounds != map[] ==>
      && FitsCaps(Wire.EncodeAll(g.bounds))
      && forall k :: k in g.bounds ==> k != "" && k !in g.params && ValidBound(g.bounds[k])
  }

  predicate ValidGrantParams(g: Grant) {
    g.params != map[] ==> ValidParams(g.params)
  }

  /** one declared key of a grant against the operation's parameters */
  predicate KeyHolds(g: Grant, op: map<string, Json>, k: string) {
    && (k in g.params ==> k in op && ValueSubset(op[k], g.params[k]))
    && (k in g.bounds ==> if k in op then BoundSubset(op[k], g.bounds[k]) else g.bounds[k].IsOptional())
  }

  /** entailsDeclared: empty and null bounds, presence, key closure, values */
  predicate EntailsDeclared(g: Grant, op: map<string, Json>) {
    && (forall k :: k in g.params ==> !IsEmptyValue(g.params[k]) && !g.params[k].Null?)
    && (forall k :: k in op ==> !op[k].Null?)
    && (forall k :: k in Declared(g) ==> KeyHolds(g, op, k))
    && (forall k :: k in op ==> k in Declared(g))
  }

  predicate IdEntails(g: string, o: string) {
    ValidId(g) && ValidId(o) && Split(g)[0] == Split(o)[0] && MatchId(g, o)
  }

  predicate Entails(g: Grant, op: Operation) {
    && IdEntails(g.id, op.id)
    && (Declared(g) != {} ==>
         && ValidBounds(g) && ValidGrantParams(g)
         && ValidParams(op.params)
         && EntailsDeclared(g, op.params))
  }

  // ---------------------------------------------------------------------
  // Contains
  // ---------------------------------------------------------------------

  predicate WellFormed(g: Grant) {
    ValidId(g.id) && ValidGrantParams(g) && ValidBounds(g)
  }

  predicate Narrower(parent: Grant, child: Grant) {
    && parent.params.Keys == child.params.Keys && parent.bounds.Keys == child.bounds.Keys
    && (forall k :: k in parent.params ==> ValueSubset(child.params[k], parent.params[k]))
    && (forall k :: k in parent.bounds ==> BoundWithin(child.bounds[k], parent.bounds[k]))
  }

  predicate Contains(parent: Grant, child: Grant) {
    && WellFormed(parent) && WellFormed(child)
    && MatchId(parent.id, child.id)
    && (Declared(parent) != {} ==> Declared(child) != {} && Narrower(parent, child))
  }

  // ---------------------------------------------------------------------
  // Intersect
  // ---------------------------------------------------------------------

  /** an explicitly empty enum somewhere in a Bound */
  predicate DeniesClass(b: Bound) {
    b.members == Some([]) || (b.nested.Fields? && exists k :: k in b.nested.fields && DeniesClass(b.nested.fields[k]))
  }

  predicate NoEmptyBound(g: Grant) {
    && (forall k :: k in g.params ==> !IsEmptyValue(g.params[k]))
    && (forall k :: k in g.bounds ==> !DeniesClass(g.bounds[k]))
  }

  /** no key is declared in params by one source and in param_bounds by another */
  predicate SitesAgree(grants: seq<Grant>) {
    forall i, j :: 0 <= i < |grants| && 0 <= j < |grants| ==> grants[i].params.Keys !! grants[j].bounds.Keys
  }

  predicate MergeableSource(g: Grant) {
    NoEmptyBound(g) && ValidGrantParams(g) && ValidBounds(g)
  }

  function MergeIds(a: string, b: string): Option<string> {
    if a == b then Some(a)
    else if IdEntails(a, b) then Some(b)
    else if IdEntails(b, a) then Some(a)
    else None
  }

  predicate ParamsMeet(a: map<string, Json>, b: map<string, Json>) {
    forall k :: k in a && k in b ==> IntersectValue(a[k], b[k]).Some?
  }

  function MergeParams(a: map<string, Json>, b: map<string, Json>): map<string, Json>
    requires ParamsMeet(a, b)
  {
    map k | k in a.Keys + b.Keys ::
      if k in a && k in b then IntersectValue(a[k], b[k]).value else if k in a then a[k] else b[k]
  }

  predicate BoundsMeet(a: map<string, Bound>, b: map<string, Bound>) {
    forall k :: k in a && k in b ==> BoundMeet(a[k], b[k]).Some?
  }

  /** intersectBounds */
  function MergeBounds(a: map<string, Bound>, b: map<string, Bound>): map<string, Bound>
    requires BoundsMeet(a, b)
  {
    map k | k in a.Keys + b.Keys ::
      if k in a && k in b then BoundMeet(a[k], b[k]).value else if k in a then a[k] else b[k]
  }

  /** mergeConstraints: the union, sorted */
  function MergeConstraints(a: seq<string>, b: seq<string>): seq<string> {
    SortedKeys(CodePoints, (set c | c in a) + (set c | c in b))
  }

  /** one round of the merge loop */
  function Merge(r: Grant, g: Grant): Option<Grant> {
    var id := MergeIds(r.id, g.id);
    if id.None? || !ParamsMeet(r.params, g.params) || !BoundsMeet(r.bounds, g.bounds) then None
    else Some(Grant(id.value, MergeParams(r.params, g.params), MergeBounds(r.bounds, g.bounds),
                    MergeConstraints(r.constraints, g.constraints)))
  }

  function MergeAll(grants: seq<Grant>): Option<Grant>
    requires grants != []
  {
    if |grants| == 1 then Some(grants[0])
    else
      var r := MergeAll(grants[..|grants| - 1]);
      if r.None? then None else Merge(r.value, grants[|grants| - 1])
  }

  predicate Mergeable(grants: seq<Grant>) {
    && SitesAgree(grants)
    && forall i :: 0 <= i < |grants| ==> MergeableSource(grants[i])
  }

  function Intersect(grants: seq<Grant>): Option<Grant> {
    if grants == [] || !Mergeable(grants) then None else MergeAll(grants)
  }
}
