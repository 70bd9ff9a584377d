/**
 Sorted listings of string sets.  Object members are ordered by UTF-16 code
 units (section 3.2.3 of RFC 8785); everything else the policy code sorts is
 ordered by UTF-8 bytes, which for valid text is the order of code points.
 */
module Collation {

  datatype Order = Utf16Units | CodePoints

  /** a code point as it is compared: itself, or its one or two UTF-16 units */
  function Units(o: Order, c: char): (u: seq<nat>)
    ensures 1 <= |u| <= 2
  {
    var n := c as int;
    if o.CodePoints? || n < 0x10000 then [n]
    else [0xD800 + (n - 0x10000) / 0x400, 0xDC00 + (n - 0x10000) % 0x400]
  }

  function Encode(o: Order, s: string): seq<nat> {
    if s == [] then [] else Units(o, s[0]) + Encode(o, s[1..])
  }

  predicate UnitsLess(a: seq<nat>, b: seq<nat>) {
    if b == [] then false
    else if a == [] then true
    else if a[0] != b[0] then a[0] < b[0]
    else UnitsLess(a[1..], b[1..])
  }

  predicate Less(o: Order, a: string, b: string) {
    UnitsLess(Encode(o, a), Encode(o, b))
  }

  lemma {:induction false} UnitsTotal(a: seq<nat>, b: seq<nat>)
    ensures a == b || UnitsLess(a, b) || UnitsLess(b, a)
  {
    if a != [] && b != [] && a[0] == b[0] {
      UnitsTotal(a[1..], b[1..]);
      assert a == [a[0]] + a[1..] && b == [b[0]] + b[1..];
    }
  }

  lemma {:induction false} UnitsTransitive(a: seq<nat>, b: seq<nat>, c: seq<nat>)
    requires UnitsLess(a, b) && UnitsLess(b, c)
    ensures UnitsLess(a, c)
  {
    if a != [] && a[0] == b[0] == c[0] {
      UnitsTransitive(a[1..], b[1..], c[1..]);
    }
  }

  lemma {:induction false} UnitsIrreflexive(a: seq<nat>)
    ensures !UnitsLess(a, a)
  {
    if a != [] {
      UnitsIrreflexive(a[1..]);
    }
  }

  /** A surrogate is never a whole character, so the first units tell the first characters apart. */
  lemma UnitsPrefixFree(o: Order, c: char, d: char, x: seq<nat>, y: seq<nat>)
    requires Units(o, c) + x == Units(o, d) + y
    ensures c == d && x == y
  {
    var s := Units(o, c) + x;
    assert s[0] == Units(o, c)[0] == Units(o, d)[0];
    if |Units(o, c)| == 2 {
      assert s[1] == Units(o, c)[1];
    }
    if |Units(o, d)| == 2 {
      assert s[1] == Units(o, d)[1];
    }
    assert c as int == d as int;
    assert x == s[|Units(o, c)|..] == y;
  }

  lemma {:induction false} EncodeInjective(o: Order, a: string, b: string)
    requires Encode(o, a) == Encode(o, b)
    ensures a == b
  {
    if a != [] && b != [] {
      UnitsPrefixFree(o, a[0], b[0], Encode(o, a[1..]), Encode(o, b[1..]));
      EncodeInjective(o, a[1..], b[1..]);
      assert a == [a[0]] + a[1..] && b == [b[0]] + b[1..];
    }
  }

  /** The member order is a strict total order on keys. */
  lemma {:induction false} LessIsStrictTotalOrder(o: Order, a: string, b: string, c: string)
    ensures a == b || Less(o, a, b) || Less(o, b, a)
    ensures !(Less(o, a, b) && Less(o, b, a)) && !Less(o, a, a)
    ensures Less(o, a, b) && Less(o, b, c) ==> Less(o, a, c)
  {
    UnitsTotal(Encode(o, a), Encode(o, b));
    if Encode(o, a) == Encode(o, b) {
      EncodeInjective(o, a, b);
    }
    UnitsIrreflexive(Encode(o, a));
    if Less(o, a, b) && Less(o, b, a) {
      UnitsTransitive(Encode(o, a), Encode(o, b), Encode(o, a));
    }
    if Less(o, a, b) && Less(o, b, c) {
      UnitsTransitive(Encode(o, a), Encode(o, b), Encode(o, c));
    }
  }

  // ---------------------------------------------------------------------
  // Sorted key lists
  // ---------------------------------------------------------------------

  predicate IsLeast(o: Order, k: string, keys: set<string>) {
    k in keys && forall x :: x in keys ==> x == k || Less(o, k, x)
  }

  lemma {:induction false} LeastExists(o: Order, keys: set<string>)
    requires keys != {}
    ensures exists k :: IsLeast(o, k, keys)
  {
    var k0 :| k0 in keys;
    if keys == {k0} {
      assert IsLeast(o, k0, keys);
    } else {
      assert keys - {k0} != {};
      LeastExists(o, keys - {k0});
      var k1 :| IsLeast(o, k1, keys - {k0});
      LessIsStrictTotalOrder(o, k0, k1, k1);
      if Less(o, k0, k1) {
        forall x | x in keys ensures x == k0 || Less(o, k0, x) {
          LessIsStrictTotalOrder(o, k0, k1, x);
        }
        assert IsLeast(o, k0, keys);
      } else {
        assert IsLeast(o, k1, keys);
      }
    }
  }

  lemma LeastUnique(o: Order, k: string, x: string, keys: set<string>)
    requires IsLeast(o, k, keys) && IsLeast(o, x, keys)
    ensures k == x
  {
    LessIsStrictTotalOrder(o, k, x, x);
  }

  function Least(o: Order, keys: set<string>): (k: string)
    requires keys != {}
    ensures IsLeast(o, k, keys)
  {
    LeastExists(o, keys);
    assert forall x, y :: IsLeast(o, x, keys) && IsLeast(o, y, keys) ==> x == y by {
      forall x, y | IsLeast(o, x, keys) && IsLeast(o, y, keys) ensures x == y {
        LeastUnique(o, x, y, keys);
      }
    }
    var k :| k in keys && IsLeast(o, k, keys);
    k
  }

  predicate Sorted(o: Order, keys: seq<string>) {
    forall i, j :: 0 <= i < j < |keys| ==> Less(o, keys[i], keys[j])
  }

  ghost predicate SameKeys(keys: seq<string>, s: set<string>) {
    forall k :: k in keys <==> k in s
  }

  /** the keys of an object in the order the writer emits them */
  function SortedKeys(o: Order, keys: set<string>): (r: seq<string>)
    ensures SameKeys(r, keys) && Sorted(o, r)
    decreases |keys|
  {
    if keys == {} then []
    else
      var k := Least(o, keys);
      var rest := SortedKeys(o, keys - {k});
      SortedCons(o, k, rest, keys);
      [k] + rest
  }

  lemma SortedCons(o: Order, k: string, rest: seq<string>, keys: set<string>)
    requires IsLeast(o, k, keys) && SameKeys(rest, keys - {k}) && Sorted(o, rest)
    ensures SameKeys([k] + rest, keys) && Sorted(o, [k] + rest)
  {
    var r := [k] + rest;
    forall x ensures x in r <==> x in keys {
      assert x in r <==> x == k || x in rest;
    }
    forall i, j | 0 <= i < j < |r| ensures Less(o, r[i], r[j]) {
      assert r[j] == rest[j - 1];
      if i == 0 {
        assert rest[j - 1] in keys - {k};
      } else {
        assert r[i] == rest[i - 1];
      }
    }
  }

  lemma SortedTail(o: Order, a: seq<string>, s: set<string>)
    requires a != [] && Sorted(o, a) && SameKeys(a, s)
    ensures Sorted(o, a[1..]) && SameKeys(a[1..], s - {a[0]}) && IsLeast(o, a[0], s)
  {
    forall x ensures x in a[1..] <==> x in s - {a[0]} {
      LessIsStrictTotalOrder(o, a[0], x, x);
      assert x in a <==> x == a[0] || x in a[1..];
      assert x in a[1..] ==> Less(o, a[0], x);
    }
    assert a[0] in s;
    forall x | x in s && x != a[0] ensures Less(o, a[0], x) {
      assert x in a;
    }
  }

  /** Any sorted listing of a key set is the one the writer emits. */
  lemma {:induction false} SortedUnique(o: Order, a: seq<string>, s: set<string>)
    requires Sorted(o, a) && SameKeys(a, s)
    ensures a == SortedKeys(o, s)
    decreases |a|
  {
    if a == [] {
      assert s == {};
    } else {
      assert a[0] in s;
      SortedTail(o, a, s);
      LeastUnique(o, a[0], Least(o, s), s);
      SortedUnique(o, a[1..], s - {a[0]});
      assert a == [a[0]] + a[1..];
    }
  }
}
