/**
 The meets as the program runs them: result maps and lists filled in loops,
 maps visited in whatever order they give.
 */
module MeetLoops {
  import opened Numbers
  import opened Json
  import opened Collation
  import opened CanonicalJson
  import opened Bounds
  import opened Grants

  // ---------------------------------------------------------------------
  // Shared members
  // ---------------------------------------------------------------------

  lemma {:induction false} FilterBack(a: seq<Json>, b: seq<Json>)
    requires a != []
    ensures var n := |a| - 1; Filter(a, b) == Filter(a[..n], b) + (if a[n] in b then [a[n]] else [])
  {
    hide Bounds.Member;
    var n := |a| - 1;
    if n > 0 {
      assert a[1..][..n - 1] == a[..n][1..];
      FilterBack(a[1..], b);
      var last := if a[n] in b then [a[n]] else [];
      assert a[1..][n - 1] == a[n];
      assert Filter(a[1..], b) == Filter(a[..n][1..], b) + last;
      assert [a[0]] + (Filter(a[..n][1..], b) + last) == [a[0]] + Filter(a[..n][1..], b) + last;
    }
  }

  method Listed(x: Json, xs: seq<Json>) returns (found: bool)
    ensures found <==> x in xs
  {
    for j := 0 to |xs|
      invariant forall k :: 0 <= k < j ==> xs[k] != x
    {
      if EnumEqual(x, xs[j]) {
        return true;
      }
    }
    return false;
  }

  /** the double loop of enumMeet and of the array case of intersectValue */
  method SharedMembers(a: seq<Json>, b: seq<Json>) returns (r: seq<Json>)
    ensures r == Filter(a, b)
  {
    r := [];
    assert Filter(a[..0], b) == [];
    hide Filter;
    for i := 0 to |a|
      invariant r == Filter(a[..i], b)
    {
      var found := Listed(a[i], b);
      FilterBack(a[..i + 1], b);
      assert a[..i + 1][..i] == a[..i];
      if found {
        r := r + [a[i]];
      }
    }
    assert a[..|a|] == a;
  }

  /** s holds the canonical texts of the members and nothing else */
  ghost predicate TextsOf(s: set<string>, members: seq<Json>) {
    && (forall x :: x in members ==> Canonical(x) in s)
    && (forall k :: k in s ==> exists x :: x in members && Canonical(x) == k)
  }

  /** canonicalEnumMembers: one entry per canonical text, then ordered by it */
  method CanonicalEnumMembers(members: seq<Json>) returns (r: seq<Json>)
    ensures r == CanonicalMembers(members)
  {
    hide Canonical, Less, SortedKeys, Sorted, CanonicalMembers;
    var seen: map<string, Json> := map[];
    for i := 0 to |members|
      invariant forall k :: k in seen ==> seen[k] in members && Canonical(seen[k]) == k
      invariant forall j :: 0 <= j < i ==> Canonical(members[j]) in seen
    {
      var key := Canonical(members[i]);
      if key !in seen {
        seen := seen[key := members[i]];
      }
    }
    assert TextsOf(seen.Keys, members);
    var keys := SortedKeys(CodePoints, seen.Keys);
    assert forall i :: 0 <= i < |keys| ==> keys[i] in keys;
    r := [];
    for i := 0 to |keys|
      invariant |r| == i && forall j :: 0 <= j < i ==> r[j] == seen[keys[j]]
    {
      r := r + [seen[keys[i]]];
    }
    SameListing(members, seen.Keys, r);
  }

  lemma SameListing(members: seq<Json>, s: set<string>, r: seq<Json>)
    requires TextsOf(s, members)
    requires var keys := SortedKeys(CodePoints, s);
      |r| == |keys| && forall i :: 0 <= i < |r| ==> r[i] in members && Canonical(r[i]) == keys[i]
    ensures r == CanonicalMembers(members)
  {
    hide Canonical, Less, SortedKeys, CanonicalMembers;
    var c := CanonicalMembers(members);
    var texts := seq(|c|, i requires 0 <= i < |c| => Canonical(c[i]));
    assert Sorted(CodePoints, texts);
    hide Sorted;
    SameTexts(members, s, c, texts);
    SortedUnique(CodePoints, texts, s);
    forall i | 0 <= i < |c| ensures c[i] == r[i] {
      assert texts[i] == Canonical(c[i]);
      CanonicalInjective(c[i], r[i]);
    }
  }

  lemma SameTexts(members: seq<Json>, s: set<string>, c: seq<Json>, texts: seq<string>)
    requires |texts| == |c| && forall i :: 0 <= i < |c| ==> texts[i] == Canonical(c[i])
    requires TextsOf(s, members) && forall x :: x in c <==> x in members
    ensures SameKeys(texts, s)
  {
    hide Canonical;
    forall k | k in s ensures k in texts {
      var x :| x in members && Canonical(x) == k;
      assert x in c;
      var i :| 0 <= i < |c| && c[i] == x;
      assert texts[i] == k;
    }
    forall k | k in texts ensures k in s {
      var i :| 0 <= i < |texts| && texts[i] == k;
      assert c[i] in c;
    }
  }

  lemma NoMembers()
    ensures CanonicalMembers([]) == []
  {
    var none: seq<Json> := [];
    assert SortedKeys(CodePoints, {}) == [];
    hide SortedKeys;
    assert (set x | x in none :: Canonical(x)) == {};
  }

  // ---------------------------------------------------------------------
  // boundMeet
  // ---------------------------------------------------------------------

  /** numericMeet */
  method MeetNumeric(a: Bound, b: Bound) returns (r: Option<Bound>)
    ensures r == NumericMeet(a, b)
  {
    hide IsMultipleOf;
    var res := EMPTY;
    if a.min.Some? && b.min.Some? {
      res := res.(min := if a.min.value.Value() > b.min.value.Value() then a.min else b.min);
    } else {
      res := res.(min := if a.min.Some? then a.min else b.min);
    }
    if a.max.Some? && b.max.Some? {
      res := res.(max := if a.max.value.Value() < b.max.value.Value() then a.max else b.max);
    } else {
      res := res.(max := if a.max.Some? then a.max else b.max);
    }
    if a.step.Some? && b.step.Some? {
      if IsMultipleOf(a.step.value, b.step.value) {
        res := res.(step := a.step);
      } else if IsMultipleOf(b.step.value, a.step.value) {
        res := res.(step := b.step);
      } else {
        return None;
      }
    } else {
      res := res.(step := if a.step.Some? then a.step else b.step);
    }
    if res.min.Some? && res.max.Some? && res.min.value.Value() > res.max.value.Value() {
      return None;
    }
    return Some(res);
  }

  /** enumMeet */
  method MeetEnum(a: Bound, b: Bound) returns (r: Option<Bound>)
    ensures r == EnumMeet(a, b)
  {
    hide CanonicalMembers, Filter;
    var members := if a.members.Some? then a.members else b.members;
    if a.members.Some? && b.members.Some? {
      var shared := SharedMembers(a.members.value, b.members.value);
      var listed := CanonicalEnumMembers(shared);
      if shared == [] {
        NoMembers();
        return None;
      }
      assert shared[0] in listed;
      members := Some(listed);
    }
    var least, most := Greater(a.minItems, b.minItems), Lesser(a.maxItems, b.maxItems);
    if least.Some? && most.Some? && least.value.Value() > most.value.Value() {
      return None;
    }
    return Some(EMPTY.(members := members, minItems := least, maxItems := most));
  }

  /** nestedMeet */
  method MeetNested(a: Bound, b: Bound) returns (r: Option<Bound>)
    requires a.HasNested() && b.HasNested()
    ensures r == NestedMeet(a, b)
    decreases a, 0
  {
    hide BoundMeet;
    var an, bn := a.nested.fields, b.nested.fields;
    if |an| != |bn| {
      return None;
    }
    var res: map<string, Bound> := map[];
    var left := an.Keys;
    while left != {}
      invariant left <= an.Keys && res.Keys == an.Keys - left
      invariant forall k :: k in res ==> k in bn && BoundMeet(an[k], bn[k]) == Some(res[k])
      decreases |left|
    {
      var k :| k in left;
      left := left - {k};
      if k !in bn {
        return None;
      }
      var m := MeetBounds(an[k], bn[k]);
      if m.None? {
        return None;
      }
      res := res[k := m.value];
    }
    assert res == map k | k in an :: BoundMeet(an[k], bn[k]).value;
    return Some(EMPTY.(nested := Fields(res)));
  }

  /** boundMeet */
  method MeetBounds(a: Bound, b: Bound) returns (r: Option<Bound>)
    ensures r == BoundMeet(a, b)
    decreases a, 1
  {
    hide NumericMeet, EnumMeet, NestedMeet;
    var optional := if a.IsOptional() && b.IsOptional() then Some(true) else None;
    if !a.HasNumeric() && !a.HasEnum() && !a.HasNested() {
      return Some(b.(optional := optional));
    }
    if !b.HasNumeric() && !b.HasEnum() && !b.HasNested() {
      return Some(a.(optional := optional));
    }
    if a.HasNested() && b.HasNested() {
      r := MeetNested(a, b);
    } else if a.HasNested() || b.HasNested() {
      return None;
    } else if a.HasEnum() && b.HasEnum() {
      r := MeetEnum(a, b);
    } else if a.HasEnum() || b.HasEnum() {
      return None;
    } else {
      r := MeetNumeric(a, b);
    }
    if r.Some? {
      r := Some(r.value.(optional := optional));
    }
  }

  // ---------------------------------------------------------------------
  // Intersect
  // ---------------------------------------------------------------------

  /** v is what the merge of a and b gives at key k */
  predicate MergedBound(a: map<string, Bound>, b: map<string, Bound>, k: string, v: Bound) {
    if k in a && k in b then BoundMeet(a[k], b[k]) == Some(v)
    else (k in a && v == a[k]) || (k in b && v == b[k])
  }

  lemma KeptBound(a: map<string, Bound>, b: map<string, Bound>, k: string)
    requires k in a <==> k !in b
    ensures k in a ==> MergedBound(a, b, k, a[k])
    ensures k in b ==> MergedBound(a, b, k, b[k])
  {
  }

  lemma MetBound(a: map<string, Bound>, b: map<string, Bound>, k: string, v: Bound)
    requires k in a && k in b && BoundMeet(a[k], b[k]) == Some(v)
    ensures MergedBound(a, b, k, v)
  {
    hide BoundMeet;
  }

  /** intersectBounds */
  method IntersectBounds(a: map<string, Bound>, b: map<string, Bound>) returns (r: Option<map<string, Bound>>)
    ensures r.Some? <==> BoundsMeet(a, b)
    ensures r.Some? ==> r.value == MergeBounds(a, b)
  {
    hide BoundMeet, MergeBounds, MergedBound;
    var out, left := a, b.Keys;
    forall k | k in a && k !in b ensures MergedBound(a, b, k, a[k]) {
      KeptBound(a, b, k);
    }
    while left != {}
      invariant left <= b.Keys && forall k :: k in out <==> k in a || (k in b && k !in left)
      invariant forall k :: k in out && k in left ==> k in a && out[k] == a[k]
      invariant forall k :: k in out && k !in left ==> MergedBound(a, b, k, out[k])
      decreases |left|
    {
      var k :| k in left;
      left := left - {k};
      if k in out {
        var m := MeetBounds(out[k], b[k]);
        if m.None? {
          return None;
        }
        MetBound(a, b, k, m.value);
        out := out[k := m.value];
      } else {
        KeptBound(a, b, k);
        out := out[k := b[k]];
      }
    }
    BoundsMerged(a, b, out);
    return Some(out);
  }

  lemma BoundsMerged(a: map<string, Bound>, b: map<string, Bound>, out: map<string, Bound>)
    requires (forall k :: k in out <==> k in a || k in b) && forall k :: k in out ==> MergedBound(a, b, k, out[k])
    ensures BoundsMeet(a, b) && out == MergeBounds(a, b)
  {
    hide BoundMeet;
    assert forall k :: k in a ==> k in out;
    var m := MergeBounds(a, b);
    assert forall k :: k in out ==> k in m && m[k] == out[k];
  }

  predicate MergedParam(a: map<string, Json>, b: map<string, Json>, k: string, v: Json) {
    if k in a && k in b then IntersectValue(a[k], b[k]) == Some(v)
    else (k in a && v == a[k]) || (k in b && v == b[k])
  }

  lemma KeptParam(a: map<string, Json>, b: map<string, Json>, k: string)
    requires k in a <==> k !in b
    ensures k in a ==> MergedParam(a, b, k, a[k])
    ensures k in b ==> MergedParam(a, b, k, b[k])
  {
  }

  lemma MetParam(a: map<string, Json>, b: map<string, Json>, k: string, v: Json)
    requires k in a && k in b && IntersectValue(a[k], b[k]) == Some(v)
    ensures MergedParam(a, b, k, v)
  {
    hide IntersectValue;
  }

  /** the params step of Intersect: first the keys of a, then those only in b */
  method IntersectParams(a: map<string, Json>, b: map<string, Json>) returns (r: Option<map<string, Json>>)
    ensures r.Some? <==> ParamsMeet(a, b)
    ensures r.Some? ==> r.value == MergeParams(a, b)
  {
    hide IntersectValue, MergeParams, MergedParam;
    var out: map<string, Json>, left := map[], a.Keys;
    while left != {}
      invariant left <= a.Keys && forall k :: k in out <==> k in a && k !in left
      invariant forall k :: k in out ==> MergedParam(a, b, k, out[k])
      decreases |left|
    {
      var k :| k in left;
      left := left - {k};
      if k in b {
        var v := IntersectValue(a[k], b[k]);
        if v.None? {
          return None;
        }
        MetParam(a, b, k, v.value);
        out := out[k := v.value];
      } else {
        KeptParam(a, b, k);
        out := out[k := a[k]];
      }
    }
    left := b.Keys;
    while left != {}
      invariant left <= b.Keys && forall k :: k in out <==> k in a || (k in b && k !in left)
      invariant forall k :: k in out ==> MergedParam(a, b, k, out[k])
      decreases |left|
    {
      var k :| k in left;
      left := left - {k};
      if k !in a {
        KeptParam(a, b, k);
        out := out[k := b[k]];
      }
    }
    ParamsMerged(a, b, out);
    return Some(out);
  }

  lemma ParamsMerged(a: map<string, Json>, b: map<string, Json>, out: map<string, Json>)
    requires (forall k :: k in out <==> k in a || k in b) && forall k :: k in out ==> MergedParam(a, b, k, out[k])
    ensures ParamsMeet(a, b) && out == MergeParams(a, b)
  {
    hide IntersectValue;
    assert forall k :: k in a ==> k in out;
    var m := MergeParams(a, b);
    assert forall k :: k in out ==> k in m && m[k] == out[k];
  }

  method CheckSites(grants: seq<Grant>) returns (ok: bool)
    ensures ok == SitesAgree(grants)
  {
    var paramKeys: set<string>, boundKeys: set<string> := {}, {};
    for i := 0 to |grants|
      invariant forall k :: k in paramKeys <==> exists j :: 0 <= j < i && k in grants[j].params
      invariant forall k :: k in boundKeys <==> exists j :: 0 <= j < i && k in grants[j].bounds
    {
      paramKeys, boundKeys := paramKeys + grants[i].params.Keys, boundKeys + grants[i].bounds.Keys;
    }
    SitesByKey(grants, paramKeys, boundKeys);
    return paramKeys !! boundKeys;
  }

  lemma SitesByKey(grants: seq<Grant>, paramKeys: set<string>, boundKeys: set<string>)
    requires forall k :: k in paramKeys <==> exists j :: 0 <= j < |grants| && k in grants[j].params
    requires forall k :: k in boundKeys <==> exists j :: 0 <= j < |grants| && k in grants[j].bounds
    ensures SitesAgree(grants) <==> paramKeys !! boundKeys
  {
    if paramKeys !! boundKeys {
      forall i, j | 0 <= i < |grants| && 0 <= j < |grants| ensures grants[i].params.Keys !! grants[j].bounds.Keys {
        assert forall k :: k in grants[i].params.Keys ==> k in paramKeys;
        assert forall k :: k in grants[j].bounds.Keys ==> k in boundKeys;
      }
    } else {
      var k :| k in paramKeys && k in boundKeys;
      var i :| 0 <= i < |grants| && k in grants[i].params;
      var j :| 0 <= j < |grants| && k in grants[j].bounds;
      assert !(grants[i].params.Keys !! grants[j].bounds.Keys) by {
        assert k in grants[i].params.Keys && k in grants[j].bounds.Keys;
      }
    }
  }

  /** Intersect: every source is checked before the first merge */
  method IntersectGrants(grants: seq<Grant>) returns (r: Option<Grant>)
    ensures r == Intersect(grants)
  {
    hide MergeableSource, SitesAgree, Merge;
    if grants == [] {
      return None;
    }
    var sites := CheckSites(grants);
    if !sites {
      return None;
    }
    for i := 0 to |grants|
      invariant forall j :: 0 <= j < i ==> MergeableSource(grants[j])
    {
      if !MergeableSource(grants[i]) {
        return None;
      }
    }
    r := MergeSources(grants);
  }

  method MergeSources(grants: seq<Grant>) returns (r: Option<Grant>)
    requires grants != []
    ensures r == MergeAll(grants)
  {
    var result := grants[0];
    assert MergeAll(grants[..1]) == Some(result);
    hide Merge, MergeAll;
    for i := 1 to |grants|
      invariant MergeAll(grants[..i]) == Some(result)
    {
      MergeAllNext(grants, i);
      var merged := MergeOne(result, grants[i]);
      if merged.None? {
        MergeFails(grants, i + 1);
        return None;
      }
      result := merged.value;
    }
    assert grants[..|grants|] == grants;
    return Some(result);
  }

  method MergeOne(result: Grant, g: Grant) returns (r: Option<Grant>)
    ensures r == Merge(result, g)
  {
    hide IdEntails, ParamsMeet, BoundsMeet, MergeParams, MergeBounds;
    var id := result.id;
    if result.id != g.id {
      if IdEntails(result.id, g.id) {
        id := g.id;
      } else if !IdEntails(g.id, result.id) {
        return None;
      }
    }
    var params := IntersectParams(result.params, g.params);
    if params.None? {
      return None;
    }
    var bounds := IntersectBounds(result.bounds, g.bounds);
    if bounds.None? {
      return None;
    }
    return Some(Grant(id, params.value, bounds.value, MergeConstraints(result.constraints, g.constraints)));
  }

  lemma MergeAllNext(grants: seq<Grant>, i: nat)
    requires 1 <= i < |grants|
    ensures var r := MergeAll(grants[..i]);
      MergeAll(grants[..i + 1]) == if r.None? then None else Merge(r.value, grants[i])
  {
    hide Merge;
    assert grants[..i + 1][..i] == grants[..i];
  }

  /** a merge that fails part way fails as a whole */
  lemma {:induction false} MergeFails(grants: seq<Grant>, i: nat)
    requires 1 <= i <= |grants| && MergeAll(grants[..i]).None?
    ensures MergeAll(grants).None?
    decreases |grants| - i
  {
    hide Merge, MergeAll;
    if i < |grants| {
      MergeAllNext(grants, i);
      MergeFails(grants, i + 1);
    } else {
      assert grants[..i] == grants;
    }
  }
}
