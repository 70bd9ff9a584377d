/**
 The order of keys, character by character, and the order in which an object's
 members stand in its canonical text.
 */
module KeyOrder {
  import opened Json
  import opened Collation
  import opened CanonicalJson

  /** Of two different characters the one with the smaller code comes first,
      except that by UTF-16 units a character above 0xFFFF is written with
      surrogates and so comes before those from 0xE000 to 0xFFFF. */
  predicate CharBefore(o: Order, c: char, d: char) {
    var m, n := c as int, d as int;
    if o.CodePoints? || (m < 0x10000 <==> n < 0x10000) then m < n
    else if m >= 0x10000 then n >= 0xE000
    else m < 0xE000
  }

  /** a proper prefix comes first; otherwise the first difference decides */
  predicate Before(o: Order, a: string, b: string) {
    exists n :: 0 <= n <= |a| && n < |b| && a[..n] == b[..n] && (n < |a| ==> CharBefore(o, a[n], b[n]))
  }

  lemma UnitsDiffer(o: Order, c: char, d: char, x: seq<nat>, y: seq<nat>)
    requires c != d
    ensures UnitsLess(Units(o, c) + x, Units(o, d) + y) <==> CharBefore(o, c, d)
  {
    var u, v := Units(o, c) + x, Units(o, d) + y;
    assert u[0] == Units(o, c)[0] && v[0] == Units(o, d)[0];
    if u[0] == v[0] {
      assert |Units(o, c)| == |Units(o, d)| == 2;
      assert u[1..][0] == Units(o, c)[1] && v[1..][0] == Units(o, d)[1];
      assert Units(o, c)[1] != Units(o, d)[1];
    }
  }

  lemma UnitsAgree(u: seq<nat>, x: seq<nat>, y: seq<nat>)
    requires 1 <= |u| <= 2
    ensures UnitsLess(u + x, u + y) <==> UnitsLess(x, y)
  {
    assert (u + x)[1..] == u[1..] + x && (u + y)[1..] == u[1..] + y;
    if |u| == 1 {
      assert u[1..] + x == x && u[1..] + y == y;
    } else {
      assert (u[1..] + x)[1..] == x && (u[1..] + y)[1..] == y;
    }
  }

  lemma BeforeTail(o: Order, a: string, b: string)
    requires a != [] && b != [] && a[0] == b[0]
    ensures Before(o, a, b) <==> Before(o, a[1..], b[1..])
  {
    hide CharBefore;
    if n :| 0 <= n <= |a| && n < |b| && a[..n] == b[..n] && (n < |a| ==> CharBefore(o, a[n], b[n])) {
      if n > 0 {
        assert a[1..][..n - 1] == a[..n][1..] == b[..n][1..] == b[1..][..n - 1];
      } else {
        assert CharBefore(o, a[0], a[0]);
        NotBeforeItself(o, a[0]);
      }
    }
    if n :| 0 <= n <= |a| - 1 && n < |b| - 1 && a[1..][..n] == b[1..][..n] && (n < |a| - 1 ==> CharBefore(o, a[1..][n], b[1..][n])) {
      assert a[..n + 1] == [a[0]] + a[1..][..n] == [b[0]] + b[1..][..n] == b[..n + 1];
    }
  }

  lemma NotBeforeItself(o: Order, c: char)
    ensures !CharBefore(o, c, c)
  {
  }

  /** The order of keys is decided by prefix or by the first different character. */
  lemma {:induction false} OrderDecided(o: Order, a: string, b: string)
    ensures Less(o, a, b) <==> Before(o, a, b)
  {
    hide CharBefore, Units;
    if b == [] {
    } else if a == [] {
      assert a[..0] == b[..0];
    } else if a[0] == b[0] {
      OrderDecided(o, a[1..], b[1..]);
      UnitsAgree(Units(o, a[0]), Encode(o, a[1..]), Encode(o, b[1..]));
      BeforeTail(o, a, b);
    } else {
      UnitsDiffer(o, a[0], b[0], Encode(o, a[1..]), Encode(o, b[1..]));
      assert a[..0] == b[..0];
      assert forall n :: 0 < n <= |a| && n <= |b| ==> a[..n][0] != b[..n][0];
    }
  }

  // ---------------------------------------------------------------------
  // Printed objects and lists
  // ---------------------------------------------------------------------

  /** texts with commas between them */
  function Commas(texts: seq<string>): string {
    if texts == [] then "" else if |texts| == 1 then texts[0] else texts[0] + ("," + Commas(texts[1..]))
  }

  function MemberTexts(fields: map<string, Json>, keys: seq<string>): (texts: seq<string>)
    requires forall i :: 0 <= i < |keys| ==> keys[i] in fields
  {
    seq(|keys|, i requires 0 <= i < |keys| => "\"" + EscapeAll(keys[i]) + "\":" + Canonical(fields[keys[i]]))
  }

  lemma {:induction false} MembersText(v: Json, keys: seq<string>)
    requires v.Obj? && forall k :: k in keys ==> k in v.fields
    ensures Members(v, keys) == Commas(MemberTexts(v.fields, keys))
  {
    hide Canonical, EscapeAll;
    if keys != [] {
      var texts := MemberTexts(v.fields, keys);
      assert Member(v, keys[0]) == texts[0];
      if |keys| > 1 {
        MembersText(v, keys[1..]);
        assert texts[1..] == MemberTexts(v.fields, keys[1..]);
      }
    }
  }

  /** The members of a printed object stand in increasing order of their keys. */
  lemma {:induction false} ObjectText(fields: map<string, Json>) returns (keys: seq<string>)
    ensures forall k :: k in keys <==> k in fields
    ensures forall i, j :: 0 <= i < j < |keys| ==> Before(Utf16Units, keys[i], keys[j])
    ensures Canonical(Obj(fields)) == "{" + Commas(MemberTexts(fields, keys)) + "}"
  {
    keys := SortedKeys(Utf16Units, fields.Keys);
    assert Canonical(Obj(fields)) == "{" + Members(Obj(fields), keys) + "}";
    hide Canonical, SortedKeys, Less, Before;
    MembersText(Obj(fields), keys);
    forall i, j | 0 <= i < j < |keys| ensures Before(Utf16Units, keys[i], keys[j]) {
      OrderDecided(Utf16Units, keys[i], keys[j]);
    }
  }

  lemma {:induction false} ItemsText(items: seq<Json>)
    ensures Items(items) == Commas(seq(|items|, i requires 0 <= i < |items| => Canonical(items[i])))
  {
    hide Canonical;
    var texts := seq(|items|, i requires 0 <= i < |items| => Canonical(items[i]));
    if |items| > 1 {
      ItemsText(items[1..]);
      assert texts[1..] == seq(|items[1..]|, i requires 0 <= i < |items[1..]| => Canonical(items[1..][i]));
    }
  }

  /** The items of a printed list stand in their own order. */
  lemma {:induction false} ListText(items: seq<Json>)
    ensures Canonical(Arr(items)) == "[" + Commas(seq(|items|, i requires 0 <= i < |items| => Canonical(items[i]))) + "]"
  {
    ItemsText(items);
  }
}
