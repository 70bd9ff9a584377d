/**
 The size, depth and number limits on parameter objects: nesting counted from
 the outermost object, size counted on the canonical text in UTF-8 bytes, and
 integers kept in the interoperable range (section 2.2 of RFC 7493).
 */
module Caps {
  import opened Basics
  import opened Binary64
  import opened Json
  import opened CanonicalJson
  import opened Collation

  const MAX_BYTES: nat := 512
  const MAX_NESTING: nat := 32

  function CharBytes(c: char): (n: nat)
    ensures 1 <= n <= 4
  {
    if c as int < 0x80 then 1 else if c as int < 0x800 then 2 else if c as int < 0x10000 then 3 else 4
  }

  function Bytes(s: string): nat {
    if s == [] then 0 else CharBytes(s[0]) + Bytes(s[1..])
  }

  lemma {:induction false} BytesConcat(a: string, b: string)
    ensures Bytes(a + b) == Bytes(a) + Bytes(b)
  {
    if a == [] {
      assert a + b == b;
    } else {
      assert (a + b)[1..] == a[1..] + b;
      BytesConcat(a[1..], b);
    }
  }

  /** deepest container level under v when v itself sits at the given level */
  function ParamsDepth(v: Json, depth: int): (d: int)
    ensures d >= depth - 1
    decreases v, 1
  {
    match v
    case Arr(items) => ItemsDepth(items, depth)
    case Obj(fields) => FieldsDepth(v, SortedKeys(Utf16Units, fields.Keys), depth)
    case _ => depth - 1
  }

  function ItemsDepth(items: seq<Json>, depth: int): (d: int)
    ensures d >= depth
    decreases items, 0
  {
    if items == [] then depth else Max(ParamsDepth(items[0], depth + 1), ItemsDepth(items[1..], depth))
  }

  function FieldsDepth(v: Json, keys: seq<string>, depth: int): (d: int)
    requires v.Obj? && forall k :: k in keys ==> k in v.fields
    ensures d >= depth
    decreases v, 0, |keys|
  {
    if keys == [] then depth else Max(ParamsDepth(v.fields[keys[0]], depth + 1), FieldsDepth(v, keys[1..], depth))
  }

  /** rejectNonFinite: whole numbers stay within the interoperable range */
  predicate InRange(v: Json) {
    match v
    case Num(n) => Interoperable(Float(n))
    case Arr(items) => forall i :: 0 <= i < |items| ==> InRange(items[i])
    case Obj(fields) => forall k :: k in fields ==> InRange(fields[k])
    case _ => true
  }

  predicate FitsCaps(params: map<string, Json>) {
    && ParamsDepth(Obj(params), 1) <= MAX_NESTING
    && Bytes(Canonical(Obj(params))) <= MAX_BYTES
  }

  /** ValidateGrantParams and ValidateOperationParams */
  predicate ValidParams(params: map<string, Json>) {
    && FitsCaps(params)
    && forall k :: k in params ==> !params[k].Null? && InRange(params[k])
  }

  function Restrict<V>(m: map<string, V>, keys: set<string>): map<string, V> {
    map k | k in m && k in keys :: m[k]
  }

  // ---------------------------------------------------------------------
  // Dropping members never breaks a limit
  // ---------------------------------------------------------------------

  lemma {:induction false} FieldsDepthAt(v: Json, keys: seq<string>, depth: int, limit: int)
    requires v.Obj? && forall k :: k in keys ==> k in v.fields
    ensures FieldsDepth(v, keys, depth) <= limit
            <==> depth <= limit && forall k :: k in keys ==> ParamsDepth(v.fields[k], depth + 1) <= limit
  {
    if keys != [] {
      FieldsDepthAt(v, keys[1..], depth, limit);
      assert forall k :: k in keys <==> k == keys[0] || k in keys[1..];
    }
  }

  lemma DepthOfRestrict(m: map<string, Json>, keys: set<string>, depth: int, limit: int)
    requires ParamsDepth(Obj(m), depth) <= limit
    ensures ParamsDepth(Obj(Restrict(m, keys)), depth) <= limit
  {
    var r := Restrict(m, keys);
    FieldsDepthAt(Obj(m), SortedKeys(Utf16Units, m.Keys), depth, limit);
    FieldsDepthAt(Obj(r), SortedKeys(Utf16Units, r.Keys), depth, limit);
  }

  /** the summed size of the listed members, each with a separator */
  function MembersBytes(v: Json, keys: seq<string>): nat
    requires v.Obj? && forall k :: k in keys ==> k in v.fields
  {
    if keys == [] then 0 else Bytes(Member(v, keys[0])) + 1 + MembersBytes(v, keys[1..])
  }

  lemma {:induction false} MembersSize(v: Json, keys: seq<string>)
    requires v.Obj? && keys != [] && forall k :: k in keys ==> k in v.fields
    ensures Bytes(Members(v, keys)) + 1 == MembersBytes(v, keys)
  {
    hide Member;
    if |keys| == 1 {
      assert MembersBytes(v, keys[1..]) == 0;
    } else {
      MembersSize(v, keys[1..]);
      BytesConcat([','], Members(v, keys[1..]));
      BytesConcat(Member(v, keys[0]), [','] + Members(v, keys[1..]));
      assert Bytes([',']) == 1 by { assert [','][1..] == []; }
    }
  }

  lemma {:induction false} MembersBytesConcat(v: Json, a: seq<string>, b: seq<string>)
    requires v.Obj? && (forall k :: k in a ==> k in v.fields) && (forall k :: k in b ==> k in v.fields)
    ensures MembersBytes(v, a + b) == MembersBytes(v, a) + MembersBytes(v, b)
  {
    hide Member;
    if a == [] {
      assert a + b == b;
    } else {
      assert (a + b)[1..] == a[1..] + b;
      MembersBytesConcat(v, a[1..], b);
    }
  }

  lemma {:induction false} MembersBytesSame(v: Json, w: Json, keys: seq<string>)
    requires v.Obj? && w.Obj? && forall k :: k in keys ==> k in v.fields && k in w.fields && v.fields[k] == w.fields[k]
    ensures MembersBytes(v, keys) == MembersBytes(w, keys)
  {
    if keys != [] {
      MembersBytesSame(v, w, keys[1..]);
    }
  }

  /** an object's canonical size from its members */
  lemma ObjectSize(v: Json)
    requires v.Obj?
    ensures Bytes(Canonical(v)) ==
            if v.fields == map[] then 2 else 1 + MembersBytes(v, SortedKeys(Utf16Units, v.fields.Keys))
  {
    var keys := SortedKeys(Utf16Units, v.fields.Keys);
    var text := Members(v, keys);
    BytesConcat(['{'] + text, ['}']);
    BytesConcat(['{'], text);
    assert Bytes(['{']) == 1 by { assert ['{'][1..] == []; }
    assert Bytes(['}']) == 1 by { assert ['}'][1..] == []; }
    if keys == [] {
      assert v.fields.Keys == {};
      assert v.fields == map[];
    } else {
      assert keys[0] in v.fields.Keys;
      MembersSize(v, keys);
    }
  }

  lemma WithoutIndex(keys: seq<string>, i: nat)
    requires i < |keys| && Sorted(Utf16Units, keys)
    ensures Sorted(Utf16Units, keys[..i] + keys[i + 1..])
    ensures forall k :: k in keys[..i] + keys[i + 1..] <==> k in keys && k != keys[i]
  {
    var r := keys[..i] + keys[i + 1..];
    SortedDistinct(keys);
    assert forall j :: 0 <= j < |r| ==> r[j] == if j < i then keys[j] else keys[j + 1];
    hide Less;
    forall k | k in keys && k != keys[i] ensures k in r {
      var j :| 0 <= j < |keys| && keys[j] == k;
      assert k == if j < i then r[j] else r[j - 1];
    }
  }

  lemma RemoveFromSorted(keys: seq<string>, s: set<string>, i: nat)
    requires i < |keys| && keys == SortedKeys(Utf16Units, s)
    ensures SortedKeys(Utf16Units, s - {keys[i]}) == keys[..i] + keys[i + 1..]
  {
    hide Sorted, SortedKeys;
    WithoutIndex(keys, i);
    var rest := keys[..i] + keys[i + 1..];
    forall k ensures k in rest <==> k in s - {keys[i]} {
      assert k in keys <==> k in s;
    }
    SortedUnique(Utf16Units, keys[..i] + keys[i + 1..], s - {keys[i]});
  }

  lemma MembersBytesWithout(v: Json, keys: seq<string>, i: nat)
    requires v.Obj? && i < |keys| && forall k :: k in keys ==> k in v.fields
    ensures forall k :: k in keys[..i] + keys[i + 1..] ==> k in v.fields
    ensures MembersBytes(v, keys[..i] + keys[i + 1..]) < MembersBytes(v, keys)
  {
    hide Member;
    var k := keys[i];
    assert keys == keys[..i] + ([k] + keys[i + 1..]);
    assert k in keys;
    MembersBytesConcat(v, keys[..i], [k] + keys[i + 1..]);
    MembersBytesConcat(v, [k], keys[i + 1..]);
    MembersBytesConcat(v, keys[..i], keys[i + 1..]);
    assert MembersBytes(v, [k]) >= 1;
  }

  lemma RemoveShrinks(m: map<string, Json>, k: string)
    requires k in m
    ensures Bytes(Canonical(Obj(m - {k}))) <= Bytes(Canonical(Obj(m)))
  {
    hide Member, Canonical, Bytes, MembersBytes, SortedKeys, Sorted;
    var v, w := Obj(m), Obj(m - {k});
    var keys := SortedKeys(Utf16Units, m.Keys);
    ObjectSize(v);
    ObjectSize(w);
    assert k in keys;
    var i :| 0 <= i < |keys| && keys[i] == k;
    assert (m - {k}).Keys == m.Keys - {k};
    RemoveFromSorted(keys, m.Keys, i);
    MembersBytesWithout(v, keys, i);
    MembersBytesSame(v, w, SortedKeys(Utf16Units, (m - {k}).Keys));
    if w.fields == map[] {
      ObjectAtLeastTwo(v);
    }
  }

  lemma ObjectAtLeastTwo(v: Json)
    requires v.Obj?
    ensures Bytes(Canonical(v)) >= 2
  {
    ObjectSize(v);
    hide Member;
  }

  lemma {:induction false} RestrictShrinks(m: map<string, Json>, keys: set<string>)
    ensures Bytes(Canonical(Obj(Restrict(m, keys)))) <= Bytes(Canonical(Obj(m)))
    decreases |m|
  {
    if k :| k in m && k !in keys {
      RemoveShrinks(m, k);
      RestrictShrinks(m - {k}, keys);
      assert Restrict(m - {k}, keys) == Restrict(m, keys);
    } else {
      assert Restrict(m, keys) == m;
    }
  }

  /** A valid parameter object stays valid when members are dropped. */
  lemma {:induction false} RestrictValid(m: map<string, Json>, keys: set<string>)
    requires ValidParams(m)
    ensures ValidParams(Restrict(m, keys))
  {
    hide InRange, ParamsDepth, Bytes, Canonical;
    DepthOfRestrict(m, keys, 1, MAX_NESTING);
    RestrictShrinks(m, keys);
  }
}
