/**
 The canonical writer as the program runs it: appending to one shared buffer.
 */
module CanonicalWriter {
  import opened Numbers
  import opened Json
  import opened Collation
  import opened CanonicalJson

  /** utf16Less: the first differing unit decides, then the length */
  method Utf16Less(a: string, b: string) returns (less: bool)
    ensures less == Less(Utf16Units, a, b)
  {
    var ua, ub := Encode(Utf16Units, a), Encode(Utf16Units, b);
    var i := 0;
    while i < |ua| && i < |ub|
      invariant 0 <= i <= |ua| && i <= |ub|
      invariant UnitsLess(ua, ub) == UnitsLess(ua[i..], ub[i..])
    {
      if ua[i] != ub[i] {
        return ua[i] < ub[i];
      }
      assert ua[i..][1..] == ua[i + 1..] && ub[i..][1..] == ub[i + 1..];
      i := i + 1;
    }
    return |ua| < |ub|;
  }

  /** formatCanonicalFloat, from the shortest digits and the place of the point */
  method FormatNumber(d: Number) returns (text: string)
    ensures text == Layout(d)
  {
    hide Unsigned;
    if d.digits == [] {
      return "0";
    }
    text := FormatDigits(d.digits, d.point);
    text := (if d.neg then "-" else "") + text;
  }

  method FormatDigits(digits: string, n: int) returns (text: string)
    requires digits != [] && AllDigits(digits)
    ensures text == Unsigned(digits, n)
  {
    hide AllDigits, SignedInt;
    var k := |digits|;
    if k <= n <= 21 {
      text := PadZeros(digits, n - k);
    } else if 0 < n <= 21 {
      text := digits[..n] + ("." + digits[n..]);
    } else if -6 < n <= 0 {
      text := PadZeros("0.", -n);
      text := text + digits;
      assert text == "0" + ("." + (Zeros(-n) + digits));
    } else {
      text := if k == 1 then digits else digits[..1] + ("." + digits[1..]);
      text := text + ("e" + SignedInt(n - 1));
      assert k != 1 ==> text == digits[..1] + (("." + digits[1..]) + ("e" + SignedInt(n - 1)));
    }
  }

  method PadZeros(text: string, count: nat) returns (r: string)
    ensures r == text + Zeros(count)
  {
    r := text;
    var i := 0;
    while i < count
      invariant 0 <= i <= count && r == text + Zeros(i)
    {
      r := r + "0";
      i := i + 1;
    }
  }

  lemma Rejoin(base: string, a: string, b: string)
    ensures base + (a + b) == base + a + b
  {
  }

  /** what is still to be written after i of the members or items of a list */
  function Pending(done: nat, rest: string): string {
    if done == 0 || rest == [] then rest else [','] + rest
  }

  lemma PendingStep(text: string, i: nat, head: string, tail: string)
    requires head != []
    ensures text + Pending(i, head + Pending(1, tail)) == (if i > 0 then text + [','] else text) + head + Pending(i + 1, tail)
  {
  }

  lemma ItemsStep(text: string, items: seq<Json>, i: nat)
    requires i < |items|
    ensures text + Pending(i, Items(items[i..])) ==
      (if i > 0 then text + [','] else text) + Canonical(items[i]) + Pending(i + 1, Items(items[i + 1..]))
  {
    hide Canonical;
    var rest := items[i..];
    assert rest[1..] == items[i + 1..];
    assert Items(rest) == Canonical(items[i]) + Pending(1, Items(items[i + 1..])) by {
      if |rest| > 1 {
        assert Items(rest[1..]) != [];
      } else {
        assert Canonical(items[i]) + [] == Canonical(items[i]);
      }
    }
    PendingStep(text, i, Canonical(items[i]), Items(items[i + 1..]));
  }

  lemma MembersStep(text: string, v: Json, keys: seq<string>, i: nat)
    requires v.Obj? && i < |keys| && forall k :: k in keys ==> k in v.fields
    ensures text + Pending(i, Members(v, keys[i..])) ==
      (if i > 0 then text + [','] else text) + Member(v, keys[i]) + Pending(i + 1, Members(v, keys[i + 1..]))
  {
    var rest := keys[i..];
    assert rest[1..] == keys[i + 1..];
    assert Member(v, keys[i])[0] == '"';
    hide Member;
    assert Members(v, rest) == Member(v, keys[i]) + Pending(1, Members(v, keys[i + 1..])) by {
      if |rest| > 1 {
        MembersFirstChar(v, rest[1..]);
      } else {
        assert Member(v, keys[i]) + [] == Member(v, keys[i]);
      }
    }
    PendingStep(text, i, Member(v, keys[i]), Members(v, keys[i + 1..]));
  }

  lemma NothingPending(i: nat)
    ensures Pending(i, Items([])) == []
  {
  }

  lemma NoMemberPending(v: Json, i: nat)
    requires v.Obj?
    ensures Pending(i, Members(v, [])) == []
  {
  }

  lemma Bracketed(base: string, a: string, b: string, c: string)
    ensures base + a + b + c == base + (a + b + c)
  {
  }

  class Buffer {
    var text: string

    constructor ()
      ensures text == ""
    {
      text := "";
    }

    method Write(s: string)
      modifies this
      ensures text == old(text) + s
    {
      text := text + s;
    }

    /** writeCanonicalString */
    method WriteCanonicalString(s: string)
      modifies this
      ensures text == old(text) + Quote(s)
    {
      Write(['"']);
      var i := 0;
      while i < |s|
        invariant 0 <= i <= |s|
        invariant old(text) + ['"'] + EscapeAll(s) == text + EscapeAll(s[i..])
      {
        assert EscapeAll(s[i..]) == Escape(s[i]) + EscapeAll(s[i + 1..]) by {
          assert s[i..][1..] == s[i + 1..];
        }
        Rejoin(text, Escape(s[i]), EscapeAll(s[i + 1..]));
        Write(Escape(s[i]));
        i := i + 1;
      }
      assert text == old(text) + ['"'] + EscapeAll(s);
      Write(['"']);
      Rejoin(old(text), ['"'] + EscapeAll(s), ['"']);
      Rejoin(old(text), ['"'], EscapeAll(s));
    }

    /** writeCanonicalJSON */
    method WriteCanonicalJson(v: Json)
      modifies this
      ensures text == old(text) + Canonical(v)
      decreases v, 1
    {
      hide Items, Members, Quote, Layout, SortedKeys;
      match v
      case Null => Write("null");
      case Bool(b) => Write(if b then "true" else "false");
      case Num(n) =>
        var s := FormatNumber(n);
        Write(s);
      case Str(s) => WriteCanonicalString(s);
      case Arr(items) =>
        Write(['[']);
        WriteItems(items);
        Write([']']);
        Bracketed(old(text), ['['], Items(items), [']']);
      case Obj(fields) =>
        Write(['{']);
        var keys := SortedKeys(Utf16Units, fields.Keys);
        WriteMembers(v, keys);
        Write(['}']);
        Bracketed(old(text), ['{'], Members(v, keys), ['}']);
    }

    method WriteItems(items: seq<Json>)
      modifies this
      ensures text == old(text) + Items(items)
      decreases items, 0
    {
      hide Items, Canonical;
      var i := 0;
      assert items[0..] == items;
      while i < |items|
        invariant 0 <= i <= |items|
        invariant old(text) + Items(items) == text + Pending(i, Items(items[i..]))
      {
        ItemsStep(text, items, i);
        if i > 0 {
          Write([',']);
        }
        WriteCanonicalJson(items[i]);
        i := i + 1;
      }
      assert items[i..] == [];
      NothingPending(i);
    }

    method WriteMembers(v: Json, keys: seq<string>)
      requires v.Obj? && forall k :: k in keys ==> k in v.fields
      modifies this
      ensures text == old(text) + Members(v, keys)
      decreases v, 0
    {
      hide Members, Canonical, Quote;
      var i := 0;
      assert keys[0..] == keys;
      while i < |keys|
        invariant 0 <= i <= |keys|
        invariant old(text) + Members(v, keys) == text + Pending(i, Members(v, keys[i..]))
      {
        MembersStep(text, v, keys, i);
        if i > 0 {
          Write([',']);
        }
        ghost var base := text;
        WriteCanonicalString(keys[i]);
        Write([':']);
        WriteCanonicalJson(v.fields[keys[i]]);
        Bracketed(base, Quote(keys[i]), [':'], Canonical(v.fields[keys[i]]));
        Rejoin(Quote(keys[i]), [':'], Canonical(v.fields[keys[i]]));
        i := i + 1;
      }
      assert keys[i..] == [];
      NoMemberPending(v, i);
    }
  }
}
