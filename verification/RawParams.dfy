/**
 Parameters checked on their raw text: the token walk that keeps duplicate
 keys and member order, and its agreement with the checks on decoded objects.
 */
module RawParams {
  import opened Numbers
  import opened Json
  import opened Collation
  import opened CanonicalJson
  import opened CanonicalWriter
  import opened Caps

  /**
   A document as the decoder's tokens give it: members in order, repeated keys
   kept, numbers with their literal, their value when finite, and whether the
   literal passes the shape and precision check.
   */
  datatype Raw =
    | Word(value: Json)
    | Numeral(literal: string, number: Option<Number>, exact: bool)
    | List(items: seq<Raw>)
    | Record(members: seq<Pair>)

  datatype Pair = Pair(key: string, item: Raw)

  ghost predicate WellFormed(raw: Raw) {
    match raw
    case Word(v) => v.Null? || v.Bool? || v.Str?
    case Numeral(_, number, exact) => exact ==> number.Some?
    case List(items) => forall i :: 0 <= i < |items| ==> WellFormed(items[i])
    case Record(members) => forall i :: 0 <= i < |members| ==> WellFormed(members[i].item)
  }

  function Keys(members: seq<Pair>): seq<string> {
    seq(|members|, i requires 0 <= i < |members| => members[i].key)
  }

  predicate Unique(keys: seq<string>) {
    forall i, j :: 0 <= i < j < |keys| ==> keys[i] != keys[j]
  }

  /** no object repeats a key */
  predicate NoRepeats(raw: Raw) {
    match raw
    case Word(_) => true
    case Numeral(_, _, _) => true
    case List(items) => forall i :: 0 <= i < |items| ==> NoRepeats(items[i])
    case Record(members) =>
      Unique(Keys(members)) && forall i :: 0 <= i < |members| ==> NoRepeats(members[i].item)
  }

  predicate AllFinite(raw: Raw) {
    match raw
    case Word(_) => true
    case Numeral(_, number, _) => number.Some?
    case List(items) => forall i :: 0 <= i < |items| ==> AllFinite(items[i])
    case Record(members) => forall i :: 0 <= i < |members| ==> AllFinite(members[i].item)
  }

  predicate AllExact(raw: Raw) {
    match raw
    case Word(_) => true
    case Numeral(_, _, exact) => exact
    case List(items) => forall i :: 0 <= i < |items| ==> AllExact(items[i])
    case Record(members) => forall i :: 0 <= i < |members| ==> AllExact(members[i].item)
  }

  // ---------------------------------------------------------------------
  // Decoding
  // ---------------------------------------------------------------------

  /** the decoded value; a later member replaces an earlier one of the same key */
  function Decode(raw: Raw): Json
    requires AllFinite(raw)
    decreases raw, 1
  {
    match raw
    case Word(v) => v
    case Numeral(_, number, _) => Num(number.value)
    case List(items) => Arr(seq(|items|, i requires 0 <= i < |items| => Decode(items[i])))
    case Record(members) => Obj(DecodeMembers(members))
  }

  function DecodeMembers(members: seq<Pair>): map<string, Json>
    requires forall i :: 0 <= i < |members| ==> AllFinite(members[i].item)
    decreases members, 0
  {
    if members == [] then map[]
    else
      var last := members[|members| - 1];
      DecodeMembers(members[..|members| - 1])[last.key := Decode(last.item)]
  }

  // ---------------------------------------------------------------------
  // The walk
  // ---------------------------------------------------------------------

  /** the compact text the walk writes, members in the order they came */
  function Written(raw: Raw): string
    decreases raw, 1
  {
    match raw
    case Word(v) => Canonical(v)
    case Numeral(literal, number, _) => if number.Some? then Layout(number.value) else literal
    case List(items) => ['['] + WrittenItems(items) + [']']
    case Record(members) => ['{'] + WrittenMembers(members) + ['}']
  }

  function WrittenItems(items: seq<Raw>): string
    decreases items, 0
  {
    if items == [] then []
    else
      var n := |items| - 1;
      WrittenItems(items[..n]) + Comma(n) + Written(items[n])
  }

  function WrittenMembers(members: seq<Pair>): string
    decreases members, 0
  {
    if members == [] then []
    else
      var n := |members| - 1;
      WrittenMembers(members[..n]) + Comma(n) + (Quote(members[n].key) + [':'] + Written(members[n].item))
  }

  function Comma(n: nat): string {
    if n == 0 then [] else [',']
  }

  /** no container deeper than the limit */
  predicate Shallow(raw: Raw, depth: int)
    decreases raw
  {
    match raw
    case Word(_) => true
    case Numeral(_, _, _) => true
    case List(items) => depth <= MAX_NESTING && forall i :: 0 <= i < |items| ==> Shallow(items[i], depth + 1)
    case Record(members) => depth <= MAX_NESTING && forall i :: 0 <= i < |members| ==> Shallow(members[i].item, depth + 1)
  }

  class Walker {
    const buffer: Buffer
    var repeated: bool
    var inexact: bool

    constructor ()
      ensures fresh(buffer) && buffer.text == "" && !repeated && !inexact
    {
      buffer := new Buffer();
      repeated, inexact := false, false;
    }

    /** walkParamsValue: false only for a container that is too deep */
    method Walk(raw: Raw, depth: int) returns (ok: bool)
      modifies this, buffer
      ensures ok == Shallow(raw, depth)
      ensures ok ==> buffer.text == old(buffer.text) + Written(raw)
      ensures ok ==> repeated == (old(repeated) || !NoRepeats(raw))
      ensures ok ==> inexact == (old(inexact) || !AllExact(raw))
      decreases raw, 1
    {
      match raw
      case Word(v) =>
        buffer.WriteCanonicalJson(v);
        return true;
      case Numeral(literal, number, exact) =>
        if !exact {
          inexact := true;
        }
        if number.Some? {
          var text := FormatNumber(number.value);
          buffer.Write(text);
        } else {
          buffer.Write(literal);
        }
        return true;
      case List(items) =>
        if depth > MAX_NESTING {
          return false;
        }
        buffer.Write(['[']);
        ok := WalkItems(items, depth);
        if ok {
          buffer.Write([']']);
          Bracketed(old(buffer.text), ['['], WrittenItems(items), [']']);
        }
      case Record(members) =>
        if depth > MAX_NESTING {
          return false;
        }
        buffer.Write(['{']);
        ok := WalkMembers(members, depth);
        if ok {
          buffer.Write(['}']);
          Bracketed(old(buffer.text), ['{'], WrittenMembers(members), ['}']);
        }
    }

    method WalkItems(items: seq<Raw>, depth: int) returns (ok: bool)
      modifies this, buffer
      ensures ok <==> forall i :: 0 <= i < |items| ==> Shallow(items[i], depth + 1)
      ensures ok ==> buffer.text == old(buffer.text) + WrittenItems(items)
      ensures ok ==> (repeated <==> old(repeated) || exists i :: 0 <= i < |items| && !NoRepeats(items[i]))
      ensures ok ==> (inexact <==> old(inexact) || exists i :: 0 <= i < |items| && !AllExact(items[i]))
      decreases items, 0
    {
      hide Shallow, Written, NoRepeats, AllExact, WrittenItems;
      var i := 0;
      assert WrittenItems(items[..0]) == [] by { WrittenStart(items); }
      while i < |items|
        invariant 0 <= i <= |items|
        invariant forall j :: 0 <= j < i ==> Shallow(items[j], depth + 1)
        invariant buffer.text == old(buffer.text) + WrittenItems(items[..i])
        invariant repeated <==> old(repeated) || exists j :: 0 <= j < i && !NoRepeats(items[j])
        invariant inexact <==> old(inexact) || exists j :: 0 <= j < i && !AllExact(items[j])
      {
        if i > 0 {
          buffer.Write([',']);
        }
        ok := Walk(items[i], depth + 1);
        if !ok {
          return;
        }
        WrittenStep(items, i);
        Appended(old(buffer.text), WrittenItems(items[..i]), Comma(i), Written(items[i]));
        i := i + 1;
      }
      assert items[..i] == items;
      return true;
    }

    method WalkMember(member: Pair, depth: int) returns (ok: bool)
      modifies this, buffer
      ensures ok == Shallow(member.item, depth + 1)
      ensures ok ==> buffer.text == old(buffer.text) + (Quote(member.key) + [':'] + Written(member.item))
      ensures ok ==> repeated == (old(repeated) || !NoRepeats(member.item))
      ensures ok ==> inexact == (old(inexact) || !AllExact(member.item))
      decreases member, 0
    {
      hide Shallow, Written, NoRepeats, AllExact, Quote;
      buffer.WriteCanonicalString(member.key);
      buffer.Write([':']);
      ok := Walk(member.item, depth + 1);
      if ok {
        Bracketed(old(buffer.text), Quote(member.key), [':'], Written(member.item));
      }
    }

    method WalkMembers(members: seq<Pair>, depth: int) returns (ok: bool)
      modifies this, buffer
      ensures ok <==> forall i :: 0 <= i < |members| ==> Shallow(members[i].item, depth + 1)
      ensures ok ==> buffer.text == old(buffer.text) + WrittenMembers(members)
      ensures ok ==> (repeated <==>
        old(repeated) || !Unique(Keys(members)) || exists i :: 0 <= i < |members| && !NoRepeats(members[i].item))
      ensures ok ==> (inexact <==> old(inexact) || exists i :: 0 <= i < |members| && !AllExact(members[i].item))
      decreases members, 0
    {
      hide Shallow, Written, NoRepeats, AllExact, Quote, Unique, Keys, RepeatsUpTo, InexactUpTo;
      var i, keys := 0, {};
      NothingYet(members);
      while i < |members|
        invariant 0 <= i <= |members|
        invariant keys == set k | k in Keys(members[..i])
        invariant forall j :: 0 <= j < i ==> Shallow(members[j].item, depth + 1)
        invariant buffer.text == old(buffer.text) + WrittenMembers(members[..i])
        invariant repeated <==> old(repeated) || RepeatsUpTo(members, i)
        invariant inexact <==> old(inexact) || InexactUpTo(members, i)
      {
        var key := members[i].key;
        UniqueStep(members, i);
        OneMore(members, i);
        if key in keys {
          repeated := true;
        }
        keys := keys + {key};
        if i > 0 {
          buffer.Write([',']);
        }
        ok := WalkMember(members[i], depth);
        if !ok {
          return;
        }
        assert members[..i + 1][..i] == members[..i];
        Appended(old(buffer.text), WrittenMembers(members[..i]), Comma(i), Quote(key) + [':'] + Written(members[i].item));
        i := i + 1;
      }
      assert members[..i] == members;
      WholeList(members);
      return true;
    }
  }

  lemma WrittenStart(items: seq<Raw>)
    ensures WrittenItems(items[..0]) == []
  {
  }

  lemma WrittenStep(items: seq<Raw>, i: nat)
    requires i < |items|
    ensures WrittenItems(items[..i + 1]) == WrittenItems(items[..i]) + Comma(i) + Written(items[i])
  {
    hide Written, Comma;
    assert items[..i + 1][..i] == items[..i];
  }

  /** a repeated key among the first i members, or inside one of them */
  predicate RepeatsUpTo(members: seq<Pair>, i: nat)
    requires i <= |members|
  {
    !Unique(Keys(members[..i])) || exists j :: 0 <= j < i && !NoRepeats(members[j].item)
  }

  predicate InexactUpTo(members: seq<Pair>, i: nat)
    requires i <= |members|
  {
    exists j :: 0 <= j < i && !AllExact(members[j].item)
  }

  lemma NothingYet(members: seq<Pair>)
    ensures Keys(members[..0]) == [] && !RepeatsUpTo(members, 0) && !InexactUpTo(members, 0)
  {
    UniqueStart(members);
  }

  lemma OneMore(members: seq<Pair>, i: nat)
    requires i < |members|
    ensures RepeatsUpTo(members, i + 1) <==>
            RepeatsUpTo(members, i) || members[i].key in Keys(members[..i]) || !NoRepeats(members[i].item)
    ensures InexactUpTo(members, i + 1) <==> InexactUpTo(members, i) || !AllExact(members[i].item)
  {
    hide Keys, Unique, NoRepeats, AllExact;
    UniqueStep(members, i);
  }

  lemma WholeList(members: seq<Pair>)
    ensures RepeatsUpTo(members, |members|) <==>
            !Unique(Keys(members)) || exists i :: 0 <= i < |members| && !NoRepeats(members[i].item)
    ensures InexactUpTo(members, |members|) <==> exists i :: 0 <= i < |members| && !AllExact(members[i].item)
  {
    assert members[..|members|] == members;
    hide Keys, Unique, NoRepeats, AllExact;
  }

  lemma Appended(base: string, done: string, comma: string, next: string)
    ensures base + done + comma + next == base + (done + comma + next)
    ensures comma == [] ==> base + done + next == base + (done + comma + next)
  {
  }

  lemma UniqueStart(members: seq<Pair>)
    ensures Keys(members[..0]) == [] && Unique(Keys(members[..0]))
  {
  }

  lemma UniqueStep(members: seq<Pair>, i: nat)
    requires i < |members|
    ensures Keys(members[..i + 1]) == Keys(members[..i]) + [members[i].key]
    ensures Unique(Keys(members[..i + 1])) <==> Unique(Keys(members[..i])) && members[i].key !in Keys(members[..i])
  {
    var a, b := Keys(members[..i]), Keys(members[..i + 1]);
    assert b == a + [members[i].key];
    if Unique(b) {
      assert forall x, y :: 0 <= x < y < |a| ==> b[x] == a[x] && b[y] == a[y];
      assert b[i] == members[i].key;
      assert forall x :: 0 <= x < i ==> a[x] == b[x] != b[i];
    }
  }

  // ---------------------------------------------------------------------
  // Agreement with the decoded object
  // ---------------------------------------------------------------------

  lemma {:induction false} MembersBytesOfSet(v: Json, keys: seq<string>, s: set<string>)
    requires v.Obj? && Unique(keys) && SameKeys(keys, s) && s <= v.fields.Keys
    ensures MembersBytes(v, keys) == MembersBytes(v, SortedKeys(Utf16Units, s))
    decreases |keys|
  {
    hide Member, SortedKeys, Sorted, Less;
    var sorted := SortedKeys(Utf16Units, s);
    if keys == [] {
      assert s == {};
      NothingSorted();
    } else {
      var k := keys[0];
      assert k in keys && k in sorted;
      var i :| 0 <= i < |sorted| && sorted[i] == k;
      RemoveFromSorted(sorted, s, i);
      TailKeys(keys, s);
      MembersBytesOfSet(v, keys[1..], s - {k});
      MembersBytesSplit(v, sorted, i);
    }
  }

  lemma NothingSorted()
    ensures SortedKeys(Utf16Units, {}) == []
  {
  }

  lemma TailKeys(keys: seq<string>, s: set<string>)
    requires keys != [] && Unique(keys) && SameKeys(keys, s)
    ensures Unique(keys[1..]) && SameKeys(keys[1..], s - {keys[0]})
  {
    forall k ensures k in keys[1..] <==> k in s - {keys[0]} {
      assert k in keys <==> k == keys[0] || k in keys[1..];
    }
  }

  lemma MembersBytesSplit(v: Json, keys: seq<string>, i: nat)
    requires v.Obj? && i < |keys| && forall k :: k in keys ==> k in v.fields
    ensures forall k :: k in keys[..i] + keys[i + 1..] ==> k in v.fields
    ensures MembersBytes(v, keys) == Bytes(Member(v, keys[i])) + 1 + MembersBytes(v, keys[..i] + keys[i + 1..])
  {
    hide Member;
    var k := keys[i];
    assert keys == keys[..i] + ([k] + keys[i + 1..]);
    MembersBytesConcat(v, keys[..i], [k] + keys[i + 1..]);
    MembersBytesConcat(v, [k], keys[i + 1..]);
    MembersBytesConcat(v, keys[..i], keys[i + 1..]);
    assert [k][1..] == [] && MembersBytes(v, []) == 0;
  }

  lemma {:induction false} DecodedMembers(members: seq<Pair>)
    requires Unique(Keys(members)) && forall i :: 0 <= i < |members| ==> AllFinite(members[i].item)
    ensures SameKeys(Keys(members), DecodeMembers(members).Keys)
    ensures forall i :: 0 <= i < |members| ==>
      members[i].key in DecodeMembers(members) && DecodeMembers(members)[members[i].key] == Decode(members[i].item)
  {
    hide Decode, AllFinite;
    if members != [] {
      var n := |members| - 1;
      var front := members[..n];
      UniqueStep(members, n);
      assert members[..n + 1] == members;
      DecodedMembers(front);
      var m := DecodeMembers(members);
      forall i | 0 <= i < n ensures members[i].key in m && m[members[i].key] == Decode(members[i].item) {
        assert front[i] == members[i];
        assert Keys(members)[i] == members[i].key && Keys(members)[n] == members[n].key;
      }
    }
  }

  lemma BytesOfThree(a: string, b: string, c: string)
    ensures Bytes(a + b + c) == Bytes(a) + Bytes(b) + Bytes(c)
  {
    BytesConcat(a + b, c);
    BytesConcat(a, b);
  }

  lemma BytesOfMarks()
    ensures Bytes([]) == 0
    ensures Bytes([',']) == Bytes(['[']) == Bytes([']']) == Bytes(['{']) == Bytes(['}']) == Bytes([':']) == 1
  {
    assert [','][1..] == [] && ['['][1..] == [] && [']'][1..] == [] && ['{'][1..] == [] && ['}'][1..] == [] && [':'][1..] == [];
  }

  predicate SameSize(raw: Raw)
    requires AllFinite(raw)
  {
    Bytes(Written(raw)) == Bytes(Canonical(Decode(raw)))
  }

  /** the walk's size of the first members: each with its separator, less the one the first does without */
  lemma {:induction false} WrittenMembersSize(members: seq<Pair>, v: Json)
    requires v.Obj? && members != []
    requires forall i :: 0 <= i < |members| ==> AllFinite(members[i].item) && SameSize(members[i].item)
    requires forall i :: 0 <= i < |members| ==>
      members[i].key in v.fields && v.fields[members[i].key] == Decode(members[i].item)
    ensures forall k :: k in Keys(members) ==> k in v.fields
    ensures Bytes(WrittenMembers(members)) + 1 == MembersBytes(v, Keys(members))
  {
    hide Written, Canonical, Decode, AllFinite, Quote, Bytes, Members;
    var n := |members| - 1;
    var last := members[n];
    var text := Quote(last.key) + [':'] + Written(last.item);
    var keys := Keys(members);
    assert keys == Keys(members[..n]) + [last.key];
    BytesOfMarks();
    BytesOfThree(Quote(last.key), [':'], Written(last.item));
    assert Bytes(Member(v, last.key)) == Bytes(text) by {
      BytesConcat(Quote(last.key), [':'] + Canonical(v.fields[last.key]));
      BytesConcat([':'], Canonical(v.fields[last.key]));
    }
    BytesOfThree(WrittenMembers(members[..n]), Comma(n), text);
    hide Member;
    assert [last.key][1..] == [];
    assert MembersBytes(v, [last.key]) == Bytes(Member(v, last.key)) + 1;
    if n > 0 {
      WrittenMembersSize(members[..n], v);
      MembersBytesConcat(v, Keys(members[..n]), [last.key]);
    } else {
      assert Keys(members[..n]) == [] && keys == [last.key];
    }
  }

  lemma {:induction false} ItemsBack(items: seq<Json>)
    requires items != []
    ensures var n := |items| - 1; Items(items) == Items(items[..n]) + Comma(n) + Canonical(items[n])
  {
    hide Canonical;
    var n := |items| - 1;
    if n == 0 {
      assert Items(items) == [] + [] + Canonical(items[n]);
    } else {
      var tail := items[1..];
      ItemsBack(tail);
      assert tail[..n - 1] == items[..n][1..];
      ItemsBackStep(Canonical(items[0]), Items(tail[..n - 1]), Canonical(items[n]), n);
    }
  }

  lemma ItemsBackStep(head: string, middle: string, last: string, n: nat)
    requires n >= 1 && (n == 1 ==> middle == [])
    ensures head + ([','] + (middle + Comma(n - 1) + last)) == (if n == 1 then head else head + ([','] + middle)) + Comma(n) + last
  {
  }

  lemma {:induction false} WrittenItemsSize(items: seq<Raw>, decoded: seq<Json>)
    requires |items| == |decoded|
    requires forall i :: 0 <= i < |items| ==> AllFinite(items[i]) && SameSize(items[i]) && decoded[i] == Decode(items[i])
    ensures Bytes(WrittenItems(items)) == Bytes(Items(decoded))
  {
    hide Written, Canonical, Decode, AllFinite, Bytes;
    if items != [] {
      var n := |items| - 1;
      ItemsBack(decoded);
      hide Items;
      WrittenItemsSize(items[..n], decoded[..n]);
      BytesOfThree(WrittenItems(items[..n]), Comma(n), Written(items[n]));
      BytesOfThree(Items(decoded[..n]), Comma(n), Canonical(decoded[n]));
    }
  }

  /** The walk measures what the canonical text of the decoded value measures, in any member order. */
  lemma {:induction false} WrittenSize(raw: Raw)
    requires WellFormed(raw) && NoRepeats(raw) && AllFinite(raw)
    ensures SameSize(raw)
    decreases raw
  {
    hide Bytes, SortedKeys, Quote, Layout, Items, Members, WrittenItems, WrittenMembers;
    BytesOfMarks();
    match raw
    case Word(_) =>
    case Numeral(_, _, _) =>
    case List(items) =>
      forall i | 0 <= i < |items| ensures SameSize(items[i]) {
        WrittenSize(items[i]);
      }
      var decoded := Decode(raw).items;
      WrittenItemsSize(items, decoded);
      BytesOfThree(['['], WrittenItems(items), [']']);
      BytesOfThree(['['], Items(decoded), [']']);
    case Record(members) =>
      forall i | 0 <= i < |members| ensures SameSize(members[i].item) {
        WrittenSize(members[i].item);
      }
      RecordSize(members);
  }

  lemma NothingDecoded()
    ensures DecodeMembers([]) == map[] && WrittenMembers([]) == []
  {
  }

  lemma RecordSize(members: seq<Pair>)
    requires Unique(Keys(members))
    requires forall i :: 0 <= i < |members| ==> AllFinite(members[i].item) && SameSize(members[i].item)
    ensures SameSize(Record(members))
  {
    hide Bytes, SortedKeys, Quote, Layout, Members, MembersBytes, DecodeMembers, Unique;
    var v := Obj(DecodeMembers(members));
    assert Decode(Record(members)) == v;
    BytesOfMarks();
    DecodedMembers(members);
    ObjectSize(v);
    assert Written(Record(members)) == ['{'] + WrittenMembers(members) + ['}'];
    hide Written, Canonical, Decode, AllFinite;
    BytesOfThree(['{'], WrittenMembers(members), ['}']);
    if members == [] {
      NothingDecoded();
    } else {
      assert members[0].key in v.fields;
      WrittenMembersSize(members, v);
      MembersBytesOfSet(v, Keys(members), v.fields.Keys);
    }
  }

  lemma {:induction false} ItemsDepthAt(items: seq<Json>, depth: int, limit: int)
    ensures ItemsDepth(items, depth) <= limit
            <==> depth <= limit && forall i :: 0 <= i < |items| ==> ParamsDepth(items[i], depth + 1) <= limit
  {
    hide ParamsDepth;
    if items != [] {
      ItemsDepthAt(items[1..], depth, limit);
      assert forall i :: 1 <= i < |items| ==> items[i] == items[1..][i - 1];
    }
  }

  /** The walk's depth check agrees with the depth of the decoded value. */
  lemma {:induction false} ShallowExact(raw: Raw, depth: int)
    requires WellFormed(raw) && NoRepeats(raw) && AllFinite(raw) && depth - 1 <= MAX_NESTING
    ensures Shallow(raw, depth) <==> ParamsDepth(Decode(raw), depth) <= MAX_NESTING
    decreases raw
  {
    hide SortedKeys, ItemsDepth, FieldsDepth;
    match raw
    case Word(_) =>
    case Numeral(_, _, _) =>
    case List(items) =>
      ItemsDepthAt(Decode(raw).items, depth, MAX_NESTING);
      if depth <= MAX_NESTING {
        forall i | 0 <= i < |items|
          ensures Shallow(items[i], depth + 1) <==> ParamsDepth(Decode(raw).items[i], depth + 1) <= MAX_NESTING
        {
          ShallowExact(items[i], depth + 1);
        }
      }
    case Record(members) =>
      if depth <= MAX_NESTING {
        forall i | 0 <= i < |members|
          ensures Shallow(members[i].item, depth + 1) <==> ParamsDepth(Decode(members[i].item), depth + 1) <= MAX_NESTING
        {
          ShallowExact(members[i].item, depth + 1);
        }
      }
      RecordDepth(members, depth);
  }

  lemma RecordDepth(members: seq<Pair>, depth: int)
    requires Unique(Keys(members)) && forall i :: 0 <= i < |members| ==> AllFinite(members[i].item)
    requires depth <= MAX_NESTING ==> forall i :: 0 <= i < |members| ==>
      (Shallow(members[i].item, depth + 1) <==> ParamsDepth(Decode(members[i].item), depth + 1) <= MAX_NESTING)
    ensures Shallow(Record(members), depth) <==> ParamsDepth(Decode(Record(members)), depth) <= MAX_NESTING
  {
    hide SortedKeys, FieldsDepth, DecodeMembers, Unique;
    var m := DecodeMembers(members);
    DecodedMembers(members);
    FieldsDepthAt(Obj(m), SortedKeys(Utf16Units, m.Keys), depth, MAX_NESTING);
    assert Decode(Record(members)) == Obj(m);
    assert ParamsDepth(Obj(m), depth) == FieldsDepth(Obj(m), SortedKeys(Utf16Units, m.Keys), depth);
    assert Shallow(Record(members), depth) <==>
      depth <= MAX_NESTING && forall i :: 0 <= i < |members| ==> Shallow(members[i].item, depth + 1);
    hide ParamsDepth, Shallow, Decode;
    if depth <= MAX_NESTING {
      DepthByKey(members, m, depth);
    }
  }

  lemma DepthByKey(members: seq<Pair>, m: map<string, Json>, depth: int)
    requires SameKeys(Keys(members), m.Keys) && forall i :: 0 <= i < |members| ==> AllFinite(members[i].item)
    requires forall i :: 0 <= i < |members| ==> members[i].key in m && m[members[i].key] == Decode(members[i].item)
    ensures (forall k :: k in m ==> ParamsDepth(m[k], depth + 1) <= MAX_NESTING)
       <==> forall i :: 0 <= i < |members| ==> ParamsDepth(Decode(members[i].item), depth + 1) <= MAX_NESTING
  {
    hide ParamsDepth, Decode, AllFinite;
    if forall i :: 0 <= i < |members| ==> ParamsDepth(Decode(members[i].item), depth + 1) <= MAX_NESTING {
      forall k | k in m ensures ParamsDepth(m[k], depth + 1) <= MAX_NESTING {
        assert k in Keys(members);
        var i :| 0 <= i < |members| && Keys(members)[i] == k;
        assert members[i].key == k;
      }
    }
  }

  // ---------------------------------------------------------------------
  // The two entry points
  // ---------------------------------------------------------------------

  datatype Verdict = Accepted | TooLarge | RepeatedKey | BadNumber

  function RawVerdict(raw: Raw): Verdict {
    if !raw.Record? then BadNumber
    else if !Shallow(raw, 1) || Bytes(Written(raw)) > MAX_BYTES then TooLarge
    else if !NoRepeats(raw) then RepeatedKey
    else if !AllExact(raw) then BadNumber
    else Accepted
  }

  /** ValidateRawParams, on text the decoder reads to the end */
  method ValidateRawParams(raw: Raw) returns (verdict: Verdict)
    ensures verdict == RawVerdict(raw)
  {
    hide Shallow, Written, NoRepeats, AllExact, Bytes;
    if !raw.Record? {
      return BadNumber;
    }
    var walker := new Walker();
    var ok := walker.Walk(raw, 1);
    if !ok {
      return TooLarge;
    }
    assert "" + Written(raw) == Written(raw);
    if Bytes(walker.buffer.text) > MAX_BYTES {
      return TooLarge;
    }
    if walker.repeated {
      return RepeatedKey;
    }
    if walker.inexact {
      return BadNumber;
    }
    return Accepted;
  }

  /** The raw and the decoded entry point make the same size and depth refusals. */
  lemma {:induction false} EntryPointsAgree(raw: Raw)
    requires raw.Record? && WellFormed(raw) && NoRepeats(raw) && AllFinite(raw)
    ensures RawVerdict(raw) == TooLarge <==> !FitsCaps(Decode(raw).fields)
  {
    hide Shallow, Written, NoRepeats, AllExact, Bytes, ParamsDepth, DecodeMembers, WellFormed, AllFinite, Canonical;
    WrittenSize(raw);
    ShallowExact(raw, 1);
  }

  lemma {:induction false} ExactIsFinite(raw: Raw)
    requires WellFormed(raw) && AllExact(raw)
    ensures AllFinite(raw)
  {
    match raw
    case Word(_) =>
    case Numeral(_, _, _) =>
    case List(items) =>
      forall i | 0 <= i < |items| ensures AllFinite(items[i]) {
        ExactIsFinite(items[i]);
      }
    case Record(members) =>
      forall i | 0 <= i < |members| ensures AllFinite(members[i].item) {
        ExactIsFinite(members[i].item);
      }
  }

  /** Whatever the raw check accepts decodes, key by key, to an object within the caps. */
  lemma {:induction false} AcceptedRawFits(raw: Raw)
    requires WellFormed(raw) && RawVerdict(raw) == Accepted
    ensures AllFinite(raw) && FitsCaps(Decode(raw).fields)
    ensures Unique(Keys(raw.members)) && SameKeys(Keys(raw.members), Decode(raw).fields.Keys)
  {
    hide Shallow, Written, AllExact, Bytes, ParamsDepth, WellFormed, Canonical, FitsCaps;
    ExactIsFinite(raw);
    EntryPointsAgree(raw);
    DecodedMembers(raw.members);
  }
}
