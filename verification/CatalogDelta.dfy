/**
 Catalog deltas: removals, replacements and additions against one exact base.
 Applying a delta and accepting the full snapshot it announces agree.
 */
module CatalogDelta {
  import opened Numbers
  import opened Collation
  import opened Catalog
  import opened CatalogRuns

  datatype DeltaDoc = DeltaDoc(
    domain: string, catalogId: string, baseGeneration: int, targetGeneration: int,
    baseDigest: string, targetDigest: string, issuedAt: int, validUntil: int, producer: string,
    add: seq<Entry>, replace: seq<Entry>, remove: seq<string>)

  function Capabilities(entries: seq<Entry>): seq<string> {
    seq(|entries|, i requires 0 <= i < |entries| => entries[i].capability)
  }

  /** every capability a delta names, in the order Validate notes them */
  function Touched(d: DeltaDoc): seq<string> {
    Capabilities(d.add) + Capabilities(d.replace) + d.remove
  }

  predicate AllDistinct(xs: seq<string>) {
    forall i, j :: 0 <= i < j < |xs| ==> xs[i] != xs[j]
  }

  predicate ValidDelta(env: Env, d: DeltaDoc) {
    && env.isName(d.domain) && env.isName(d.catalogId) && env.isPrincipal(d.producer)
    && d.baseGeneration >= 1 && d.targetGeneration == d.baseGeneration + 1
    && env.isDigest(d.baseDigest) && env.isDigest(d.targetDigest)
    && d.issuedAt < d.validUntil
    && Touched(d) != []
    && (forall e :: e in d.add + d.replace ==> env.entryOk(e))
    && "" !in Touched(d) && AllDistinct(Touched(d))
  }

  /** the touched-capabilities loop of Delta.Validate */
  method NoteTouched(d: DeltaDoc) returns (ok: bool)
    ensures ok <==> "" !in Touched(d) && AllDistinct(Touched(d))
  {
    var names := Touched(d);
    var touched: set<string> := {};
    for i := 0 to |names|
      invariant forall x :: x in touched <==> x in names[..i]
      invariant "" !in names[..i] && AllDistinct(names[..i])
    {
      var name := names[i];
      assert names[..i + 1] == names[..i] + [name];
      if name == "" || name in touched {
        if name != "" {
          var j :| 0 <= j < i && names[..i][j] == name;
          assert names[j] == names[i];
        }
        return false;
      }
      touched := touched + {name};
    }
    assert names[..|names|] == names;
    ok := true;
  }

  // ---------------------------------------------------------------------
  // Apply
  // ---------------------------------------------------------------------

  type Listing = map<string, Entry>

  function ByCapability(entries: seq<Entry>): Listing {
    if entries == [] then map[]
    else
      var e := entries[|entries| - 1];
      ByCapability(entries[..|entries| - 1])[e.capability := e]
  }

  /** the entries of a listing, ordered by capability */
  function Listed(m: Listing): seq<Entry> {
    var names := SortedKeys(CodePoints, m.Keys);
    seq(|names|, i requires 0 <= i < |names| => assert names[i] in names; m[names[i]])
  }

  /** every removal and replacement names a base capability, no addition does */
  predicate Applicable(base: Listing, d: DeltaDoc) {
    && (forall c :: c in d.remove ==> c in base)
    && (forall e :: e in d.replace ==> e.capability in base)
    && (forall e :: e in d.add ==> e.capability !in base)
  }

  /** base minus removals, with replacements and additions */
  function Target(base: Listing, d: DeltaDoc): Listing {
    (base - (set c | c in d.remove)) + ByCapability(d.replace) + ByCapability(d.add)
  }

  predicate BasedOn(env: Env, base: Catalog, d: DeltaDoc) {
    && base.domain == d.domain && base.catalogId == d.catalogId
    && base.generation == d.baseGeneration && env.digest(base) == d.baseDigest
  }

  function NextCatalog(env: Env, base: Catalog, d: DeltaDoc): Catalog {
    Catalog(VERSION, base.domain, base.catalogId, d.targetGeneration, d.issuedAt, d.validUntil,
            env.digest(base), base.producer, Listed(Target(ByCapability(base.entries), d)))
  }

  function Apply(env: Env, base: Catalog, d: DeltaDoc): Option<Catalog> {
    var next := NextCatalog(env, base, d);
    if !ValidDelta(env, d) || !BasedOn(env, base, d) || !Applicable(ByCapability(base.entries), d) then None
    else if !ValidCatalog(env, next) || env.digest(next) != d.targetDigest then None
    else Some(next)
  }

  lemma {:induction false} ByCapabilitySound(entries: seq<Entry>, k: string)
    ensures k in ByCapability(entries) <==> exists e :: e in entries && e.capability == k
    ensures k in ByCapability(entries) ==> ByCapability(entries)[k] in entries && ByCapability(entries)[k].capability == k
  {
    if entries != [] {
      var init, e := entries[..|entries| - 1], entries[|entries| - 1];
      ByCapabilitySound(init, k);
      assert entries == init + [e];
      if k in ByCapability(init) {
        var x :| x in init && x.capability == k;
        assert x in entries;
      }
      if x :| x in entries && x.capability == k {
        assert x in init || x == e;
      }
    }
  }

  predicate DistinctEntries(entries: seq<Entry>) {
    forall i, j :: 0 <= i < j < |entries| ==> entries[i].capability != entries[j].capability
  }

  lemma ByCapabilityExact(entries: seq<Entry>, e: Entry)
    requires DistinctEntries(entries)
    ensures e in entries <==> e.capability in ByCapability(entries) && ByCapability(entries)[e.capability] == e
  {
    ByCapabilitySound(entries, e.capability);
    if e in entries {
      var x := ByCapability(entries)[e.capability];
      var i :| 0 <= i < |entries| && entries[i] == e;
      var j :| 0 <= j < |entries| && entries[j] == x;
    }
  }

  lemma ListedExact(m: Listing, e: Entry)
    requires forall k :: k in m ==> m[k].capability == k
    ensures e in Listed(m) <==> e.capability in m && m[e.capability] == e
  {
    var names := SortedKeys(CodePoints, m.Keys);
    if e.capability in m && m[e.capability] == e {
      var i :| 0 <= i < |names| && names[i] == e.capability;
      assert Listed(m)[i] == e;
    }
  }

  lemma ConcatApart(x: seq<string>, y: seq<string>)
    requires AllDistinct(x + y)
    ensures AllDistinct(x) && AllDistinct(y) && forall k :: k in x ==> k !in y
  {
    var t := x + y;
    assert forall i :: 0 <= i < |x| ==> t[i] == x[i];
    assert forall i :: 0 <= i < |y| ==> t[|x| + i] == y[i];
    forall k | k in x ensures k !in y {
      var i :| 0 <= i < |x| && x[i] == k;
    }
  }

  lemma NamesOf(entries: seq<Entry>)
    ensures AllDistinct(Capabilities(entries)) <==> DistinctEntries(entries)
    ensures forall e :: e in entries ==> e.capability in Capabilities(entries)
    ensures forall k :: k in Capabilities(entries) ==> exists e :: e in entries && e.capability == k
  {
    var names := Capabilities(entries);
    forall i, j | 0 <= i < j < |entries|
      ensures names[i] != names[j] <==> entries[i].capability != entries[j].capability
    {
    }
    forall e | e in entries ensures e.capability in names {
      var i :| 0 <= i < |entries| && entries[i] == e;
      assert names[i] == e.capability;
    }
    forall k | k in names ensures exists e :: e in entries && e.capability == k {
      var i :| 0 <= i < |names| && names[i] == k;
      assert entries[i] in entries;
    }
  }

  /** a delta names each capability on one side only, once */
  predicate Apart(d: DeltaDoc) {
    && DistinctEntries(d.add) && DistinctEntries(d.replace) && AllDistinct(d.remove)
    && (forall e, f :: e in d.add && f in d.replace ==> e.capability != f.capability)
    && (forall e :: e in d.add ==> e.capability !in d.remove)
    && (forall f :: f in d.replace ==> f.capability !in d.remove)
  }

  lemma ValidIsApart(env: Env, d: DeltaDoc)
    requires ValidDelta(env, d)
    ensures Apart(d)
  {
    var a, r := Capabilities(d.add), Capabilities(d.replace);
    assert AllDistinct(a + r + d.remove);
    hide ValidDelta, AllDistinct, Capabilities, DistinctEntries;
    ConcatApart(a + r, d.remove);
    ConcatApart(a, r);
    NamesOf(d.add);
    NamesOf(d.replace);
    assert forall k :: k in a + r <==> k in a || k in r;
  }

  lemma TargetNamed(base: Listing, d: DeltaDoc)
    requires forall k :: k in base ==> base[k].capability == k
    ensures forall k :: k in Target(base, d) ==> Target(base, d)[k].capability == k
  {
    forall k | k in Target(base, d) ensures Target(base, d)[k].capability == k {
      ByCapabilitySound(d.add, k);
      ByCapabilitySound(d.replace, k);
    }
  }

  /** One entry of the result: kept from the base untouched, replaced, or added. */
  lemma TargetExact(base: Listing, d: DeltaDoc, e: Entry)
    requires Apart(d) && Applicable(base, d)
    ensures e.capability in Target(base, d) && Target(base, d)[e.capability] == e <==>
            || e in d.add || e in d.replace
            || (&& e.capability in base && base[e.capability] == e
                && e.capability !in d.remove && forall f :: f in d.replace ==> f.capability != e.capability)
  {
    ByCapabilityExact(d.add, e);
    ByCapabilityExact(d.replace, e);
    ByCapabilitySound(d.add, e.capability);
    ByCapabilitySound(d.replace, e.capability);
    hide ByCapability, DistinctEntries;
  }

  /** Apply yields exactly the base entries that are neither removed nor
      replaced, the replacements and the additions, ordered by capability. */
  lemma {:induction false} ApplyExact(env: Env, base: Catalog, d: DeltaDoc, next: Catalog)
    requires Apply(env, base, d) == Some(next) && ValidCatalog(env, base)
    ensures forall e :: e in next.entries <==>
              || e in d.add || e in d.replace
              || (&& e in base.entries && e.capability !in d.remove
                  && forall f :: f in d.replace ==> f.capability != e.capability)
    ensures forall i, j :: 0 <= i < j < |next.entries| ==>
              Less(CodePoints, next.entries[i].capability, next.entries[j].capability)
  {
    ValidIsApart(env, d);
    var m := ByCapability(base.entries);
    hide ValidDelta, ByCapability, Apart;
    forall k | k in m ensures m[k].capability == k { ByCapabilitySound(base.entries, k); }
    TargetNamed(m, d);
    hide Target;
    forall e ensures e in next.entries <==>
              || e in d.add || e in d.replace
              || (&& e in base.entries && e.capability !in d.remove
                  && forall f :: f in d.replace ==> f.capability != e.capability)
    {
      ByCapabilityExact(base.entries, e);
      TargetExact(m, d, e);
      ListedExact(Target(m, d), e);
    }
    ListedSorted(Target(m, d));
  }

  lemma ListedSorted(m: Listing)
    requires forall k :: k in m ==> m[k].capability == k
    ensures forall i, j :: 0 <= i < j < |Listed(m)| ==> Less(CodePoints, Listed(m)[i].capability, Listed(m)[j].capability)
  {
    var names := SortedKeys(CodePoints, m.Keys);
    assert forall i :: 0 <= i < |names| ==> names[i] in names;
  }

  /** the same change set written in any order */
  predicate SameChanges(a: DeltaDoc, b: DeltaDoc) {
    && multiset(a.add) == multiset(b.add) && multiset(a.replace) == multiset(b.replace)
    && multiset(a.remove) == multiset(b.remove)
    && a.(add := [], replace := [], remove := []) == b.(add := [], replace := [], remove := [])
  }

  lemma SameMembers<T>(a: seq<T>, b: seq<T>)
    requires multiset(a) == multiset(b)
    ensures forall x :: x in a <==> x in b
  {
    forall x ensures x in a <==> x in b {
      assert x in a <==> x in multiset(a);
      assert x in b <==> x in multiset(b);
    }
  }

  lemma SameListing(a: seq<Entry>, b: seq<Entry>)
    requires DistinctEntries(a) && DistinctEntries(b) && forall e :: e in a <==> e in b
    ensures ByCapability(a) == ByCapability(b)
  {
    forall k ensures k in ByCapability(a) <==> k in ByCapability(b) {
      ByCapabilitySound(a, k);
      ByCapabilitySound(b, k);
    }
    forall k | k in ByCapability(a) ensures ByCapability(a)[k] == ByCapability(b)[k] {
      ByCapabilitySound(a, k);
      ByCapabilityExact(b, ByCapability(a)[k]);
    }
  }

  lemma TwoOf<T>(a: seq<T>, x: T) returns (p: nat, q: nat)
    requires multiset(a)[x] >= 2
    ensures p < |a| && q < |a| && p != q && a[p] == x && a[q] == x
  {
    assert x in multiset(a);
    p :| p < |a| && a[p] == x;
    var before, after := a[..p], a[p + 1..];
    assert a == before + ([x] + after);
    assert multiset(a) == multiset(before) + (multiset{x} + multiset(after));
    if x in multiset(before) {
      q :| q < |before| && before[q] == x;
    } else {
      assert x in multiset(after);
      var t :| 0 <= t < |after| && after[t] == x;
      q := p + 1 + t;
    }
  }

  lemma CountsPair<T>(b: seq<T>, i: nat, j: nat)
    requires i < j < |b| && b[i] == b[j]
    ensures multiset(b)[b[i]] >= 2
  {
    assert b == b[..j] + ([b[j]] + b[j + 1..]);
    assert b[i] in b[..j];
    assert multiset(b) == multiset(b[..j]) + (multiset{b[j]} + multiset(b[j + 1..]));
  }

  /** Two positions of a sequence have counterparts in any rearrangement of it. */
  lemma PairPreserved<T>(a: seq<T>, b: seq<T>, i: nat, j: nat) returns (p: nat, q: nat)
    requires multiset(a) == multiset(b) && i < j < |b|
    ensures p < |a| && q < |a| && p != q && a[p] == b[i] && a[q] == b[j]
  {
    if b[i] == b[j] {
      CountsPair(b, i, j);
      p, q := TwoOf(a, b[i]);
    } else {
      assert b[i] in multiset(b) && b[j] in multiset(b);
      assert b[i] in multiset(a) && b[j] in multiset(a);
      p :| p < |a| && a[p] == b[i];
      q :| q < |a| && a[q] == b[j];
    }
  }

  lemma ApartPreserved(a: DeltaDoc, b: DeltaDoc)
    requires SameChanges(a, b) && Apart(a)
    ensures Apart(b)
  {
    SameMembers(a.add, b.add);
    SameMembers(a.replace, b.replace);
    SameMembers(a.remove, b.remove);
    forall i, j | 0 <= i < j < |b.add| ensures b.add[i].capability != b.add[j].capability {
      var p, q := PairPreserved(a.add, b.add, i, j);
    }
    forall i, j | 0 <= i < j < |b.replace| ensures b.replace[i].capability != b.replace[j].capability {
      var p, q := PairPreserved(a.replace, b.replace, i, j);
    }
    forall i, j | 0 <= i < j < |b.remove| ensures b.remove[i] != b.remove[j] {
      var p, q := PairPreserved(a.remove, b.remove, i, j);
    }
  }

  lemma ConcatDistinct(x: seq<string>, y: seq<string>)
    requires AllDistinct(x) && AllDistinct(y) && forall k :: k in x ==> k !in y
    ensures AllDistinct(x + y)
  {
    var t := x + y;
    forall i, j | 0 <= i < j < |t| ensures t[i] != t[j] {
      assert i < |x| ==> t[i] in x;
      assert j >= |x| ==> t[j] == y[j - |x|];
    }
  }

  lemma ApartIsDistinct(d: DeltaDoc)
    requires Apart(d)
    ensures AllDistinct(Touched(d))
  {
    var a, r := Capabilities(d.add), Capabilities(d.replace);
    NamesOf(d.add);
    NamesOf(d.replace);
    hide AllDistinct, Capabilities, DistinctEntries;
    ConcatDistinct(a, r);
    assert forall k :: k in a + r <==> k in a || k in r;
    ConcatDistinct(a + r, d.remove);
  }

  lemma ValidPreserved(env: Env, a: DeltaDoc, b: DeltaDoc)
    requires SameChanges(a, b) && ValidDelta(env, a)
    ensures ValidDelta(env, b)
  {
    ValidIsApart(env, a);
    ApartPreserved(a, b);
    ApartIsDistinct(b);
    SameMembers(a.add, b.add);
    SameMembers(a.replace, b.replace);
    SameMembers(a.remove, b.remove);
    NamesOf(a.add);
    NamesOf(a.replace);
    NamesOf(b.add);
    NamesOf(b.replace);
    hide AllDistinct, Capabilities, DistinctEntries, Apart;
    assert |a.add| == |multiset(a.add)| == |b.add|;
    assert |a.replace| == |multiset(a.replace)| == |b.replace|;
    assert |a.remove| == |multiset(a.remove)| == |b.remove|;
    assert |Touched(b)| == |Touched(a)| by { TouchedLength(a); TouchedLength(b); }
    forall k | k in Touched(b) ensures k in Touched(a) {
      assert k in Capabilities(b.add) || k in Capabilities(b.replace) || k in b.remove;
    }
  }

  lemma TouchedLength(d: DeltaDoc)
    ensures |Touched(d)| == |d.add| + |d.replace| + |d.remove|
  {
  }

  /** The result of a delta does not depend on the order of its lists. */
  lemma {:induction false} ApplyOrderIrrelevant(env: Env, base: Catalog, a: DeltaDoc, b: DeltaDoc)
    requires SameChanges(a, b)
    ensures Apply(env, base, a) == Apply(env, base, b)
  {
    if ValidDelta(env, a) || ValidDelta(env, b) {
      if ValidDelta(env, a) { ValidPreserved(env, a, b); } else { ValidPreserved(env, b, a); }
      ValidIsApart(env, a);
      ValidIsApart(env, b);
      SameMembers(a.add, b.add);
      SameMembers(a.replace, b.replace);
      SameMembers(a.remove, b.remove);
      SameListing(a.add, b.add);
      SameListing(a.replace, b.replace);
      hide ValidDelta, ByCapability, Apart, Listed, ValidCatalog;
      var m := ByCapability(base.entries);
      assert (set c | c in a.remove) == (set c | c in b.remove);
      assert Target(m, a) == Target(m, b);
      assert BasedOn(env, base, a) == BasedOn(env, base, b) && Applicable(m, a) == Applicable(m, b);
    }
  }

  /** On a reachable state whose head is the base, advancing by the delta gives
      the same state as accepting the full snapshot with the target digest. */
  lemma {:induction false} DeltaAgreesWithSnapshot(env: Env, s: State, base: Catalog, d: DeltaDoc, next: Catalog, c: Catalog,
                                dv: Verified, sv: Verified)
    requires Collisionless(env) && Inv(env, s) && Apply(env, base, d) == Some(next)
    requires s.generation == base.generation && s.digest == env.digest(base)
    requires env.digest(c) == d.targetDigest
    requires dv.delta && dv.accepted && Binds(env, dv, next)
    requires sv.signature && sv.accepted && Binds(env, sv, c)
    ensures c == next
    ensures AcceptDelta(env, s, base, next, dv) == Accept(env, s, c, sv)
    ensures AcceptDelta(env, s, base, next, dv).Some?
  {
    SameCatalog(env, c, next);
    hide ValidCatalog, ValidDelta, Applicable, NextHistory, Listed, Target;
    AdvanceSame(env, s, next, dv, sv);
    BaseIsHead(env, s, base);
    AdvanceExact(env, s, next, dv);
  }

  lemma AdvanceSame(env: Env, s: State, c: Catalog, v: Verified, w: Verified)
    requires Binds(env, v, c) && Binds(env, w, c)
    ensures Advance(env, s, c, v) == Advance(env, s, c, w)
  {
    hide ValidCatalog, NextHistory, DigestAt;
  }

  lemma BaseIsHead(env: Env, s: State, base: Catalog)
    requires Collisionless(env) && Inv(env, s) && s.generation != 0 && s.digest == env.digest(base)
    ensures s.domain == base.domain && s.catalogId == base.catalogId && s.producer == base.producer
  {
    var cats :| Heads(env, s, cats);
    SameCatalog(env, cats[|cats| - 1], base);
  }

  // ---------------------------------------------------------------------
  // The update in place
  // ---------------------------------------------------------------------

  method RemoveAll(base: Listing, remove: seq<string>) returns (ok: bool, existing: Listing)
    requires AllDistinct(remove)
    ensures ok <==> forall c :: c in remove ==> c in base
    ensures ok ==> existing == base - (set c | c in remove)
  {
    existing := base;
    for i := 0 to |remove|
      invariant existing == base - (set c | c in remove[..i])
      invariant forall c :: c in remove[..i] ==> c in base
    {
      var c := remove[i];
      assert remove[..i + 1] == remove[..i] + [c];
      RemovedOnce(remove, i);
      if c !in existing {
        assert c in remove;
        return false, map[];
      }
      existing := existing - {c};
    }
    assert remove[..|remove|] == remove;
    ok := true;
  }

  method ReplaceAll(base: Listing, replace: seq<Entry>) returns (ok: bool, existing: Listing)
    ensures ok <==> forall e :: e in replace ==> e.capability in base
    ensures ok ==> existing == base + ByCapability(replace) && existing.Keys == base.Keys
  {
    existing := base;
    for i := 0 to |replace|
      invariant existing == base + ByCapability(replace[..i]) && existing.Keys == base.Keys
      invariant forall e :: e in replace[..i] ==> e.capability in base
    {
      var e := replace[i];
      assert replace[..i + 1] == replace[..i] + [e] && replace[..i + 1][..i] == replace[..i];
      if e.capability !in existing {
        assert e in replace;
        return false, map[];
      }
      existing := existing[e.capability := e];
    }
    assert replace[..|replace|] == replace;
    ok := true;
  }

  method AddAll(base: Listing, add: seq<Entry>) returns (ok: bool, existing: Listing)
    requires DistinctEntries(add)
    ensures ok <==> forall e :: e in add ==> e.capability !in base
    ensures ok ==> existing == base + ByCapability(add)
  {
    existing := base;
    assert ByCapability([]) == map[] && base + map[] == base;
    hide ByCapability, DistinctEntries;
    for i := 0 to |add|
      invariant existing == base + ByCapability(add[..i])
      invariant forall e :: e in add[..i] ==> e.capability !in base
    {
      var e := add[i];
      assert add[..i + 1] == add[..i] + [e];
      AddedOnce(add, i);
      if e.capability in existing {
        assert e in add;
        return false, map[];
      }
      existing := existing[e.capability := e];
    }
    assert add[..|add|] == add;
    ok := true;
  }

  /** Apply: the base map is updated in place by removals, replacements and
      additions in turn, then listed in order and checked against the target digest */
  method ApplyDelta(env: Env, base: Catalog, d: DeltaDoc) returns (r: Option<Catalog>)
    ensures r == Apply(env, base, d)
  {
    hide ValidCatalog, AllDistinct, DistinctEntries, ByCapability, Listed;
    if !ValidDelta(env, d) || !BasedOn(env, base, d) {
      return None;
    }
    ValidIsApart(env, d);
    hide ValidDelta;
    var m := ByCapability(base.entries);
    var ok, existing := RemoveAll(m, d.remove);
    if !ok {
      return None;
    }
    ghost var kept := existing;
    ok, existing := ReplaceAll(existing, d.replace);
    if !ok {
      assert !Applicable(m, d);
      return None;
    }
    ok, existing := AddAll(existing, d.add);
    if !ok {
      return None;
    }
    assert existing == Target(m, d) && Applicable(m, d);
    var next := Catalog(VERSION, base.domain, base.catalogId, d.targetGeneration, d.issuedAt, d.validUntil,
                        env.digest(base), base.producer, Listed(existing));
    r := if ValidCatalog(env, next) && env.digest(next) == d.targetDigest then Some(next) else None;
  }

  lemma RemovedOnce(remove: seq<string>, i: nat)
    requires AllDistinct(remove) && i < |remove|
    ensures remove[i] !in remove[..i]
  {
  }

  lemma AddedOnce(add: seq<Entry>, i: nat)
    requires DistinctEntries(add) && i < |add|
    ensures add[i].capability !in ByCapability(add[..i])
    ensures ByCapability(add[..i + 1]) == ByCapability(add[..i])[add[i].capability := add[i]]
  {
    ByCapabilitySound(add[..i], add[i].capability);
    assert add[..i + 1][..i] == add[..i];
  }

  /** A delta applies exactly when it is valid, names this base, removes and
      replaces only capabilities the base has, adds only ones it has not, and what
      comes out is a valid catalog with the digest announced. */
  lemma {:induction false} ApplyDefined(env: Env, base: Catalog, d: DeltaDoc)
    ensures Apply(env, base, d).Some? <==>
      && ValidDelta(env, d)
      && base.domain == d.domain && base.catalogId == d.catalogId
      && base.generation == d.baseGeneration && env.digest(base) == d.baseDigest
      && (forall c :: c in d.remove ==> exists e :: e in base.entries && e.capability == c)
      && (forall e :: e in d.replace ==> exists f :: f in base.entries && f.capability == e.capability)
      && (forall e, f :: e in d.add && f in base.entries ==> f.capability != e.capability)
      && ValidCatalog(env, NextCatalog(env, base, d)) && env.digest(NextCatalog(env, base, d)) == d.targetDigest
  {
    hide ValidDelta, ValidCatalog, NextCatalog, ByCapability;
    var m := ByCapability(base.entries);
    forall k ensures k in m <==> exists e :: e in base.entries && e.capability == k {
      ByCapabilitySound(base.entries, k);
    }
    assert (forall e :: e in d.add ==> e.capability !in m) <==>
           (forall e, f :: e in d.add && f in base.entries ==> f.capability != e.capability);
  }
}
