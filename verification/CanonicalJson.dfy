/**
 The canonical JSON writer (section 3.2 of RFC 8785) and a reader that undoes
 it.  Every digest and every enum comparison in the policy code is a comparison
 of canonical text, so the writer has to be injective on JSON values.
 */
module CanonicalJson {
  import opened Numbers
  import opened Basics
  import opened Json
  import opened Collation

  // ---------------------------------------------------------------------
  // Strings
  // ---------------------------------------------------------------------

  function HexValue(c: char): Option<nat> {
    if '0' <= c <= '9' then Some(c as int - '0' as int)
    else if 'a' <= c <= 'f' then Some(c as int - 'a' as int + 10)
    else if 'A' <= c <= 'F' then Some(c as int - 'A' as int + 10)
    else None
  }

  lemma HexValueOfDigit(n: nat)
    requires n < 16
    ensures HexValue(HexDigit(n)) == Some(n)
  {
  }

  const BACKSPACE: char := '\U{0008}'
  const FORMFEED: char := '\U{000C}'

  /** one character inside a canonical string (section 3.2.2.2) */
  function Escape(c: char): string {
    if c == '"' then ['\\', '"']
    else if c == '\\' then ['\\', '\\']
    else if c == BACKSPACE then ['\\', 'b']
    else if c == FORMFEED then ['\\', 'f']
    else if c == '\n' then ['\\', 'n']
    else if c == '\r' then ['\\', 'r']
    else if c == '\t' then ['\\', 't']
    else if c as int < 0x20 then ['\\', 'u', '0', '0', HexDigit(c as int / 16), HexDigit(c as int % 16)]
    else [c]
  }

  function EscapeAll(s: string): string {
    if s == [] then [] else Escape(s[0]) + EscapeAll(s[1..])
  }

  function Quote(s: string): string {
    ['"'] + EscapeAll(s) + ['"']
  }

  /** one character of string contents, escapes undone */
  function ReadChar(s: string): (r: Parsed<char>)
    ensures r.Done? ==> |r.rest| < |s|
  {
    if s == [] || s[0] == '"' || s[0] as int < 0x20 then Fail
    else if s[0] != '\\' then Done(s[0], s[1..])
    else if |s| < 2 then Fail
    else
      match s[1]
      case '"' => Done('"', s[2..])
      case '\\' => Done('\\', s[2..])
      case '/' => Done('/', s[2..])
      case 'b' => Done(BACKSPACE, s[2..])
      case 'f' => Done(FORMFEED, s[2..])
      case 'n' => Done('\n', s[2..])
      case 'r' => Done('\r', s[2..])
      case 't' => Done('\t', s[2..])
      case 'u' => ReadHexEscape(s)
      case _ => Fail
  }

  function ReadHexEscape(s: string): (r: Parsed<char>)
    ensures r.Done? ==> |r.rest| < |s|
  {
    if |s| < 6 then Fail else
    var h := seq(4, i requires 0 <= i < 4 => HexValue(s[2 + i]));
    if h[0].None? || h[1].None? || h[2].None? || h[3].None? then Fail else
    var n := 4096 * h[0].value + 256 * h[1].value + 16 * h[2].value + h[3].value;
    if n < 0xD800 || 0xE000 <= n < 0x10000 then Done(n as char, s[6..]) else Fail
  }

  /** string contents up to and including the closing quote */
  function ReadChars(s: string): (r: Parsed<string>)
    ensures r.Done? ==> |r.rest| < |s|
  {
    if s == [] then Fail
    else if s[0] == '"' then Done("", s[1..])
    else
      var c := ReadChar(s);
      if c.Fail? then Fail else
      var t := ReadChars(c.rest);
      if t.Fail? then Fail else Done([c.value] + t.value, t.rest)
  }

  lemma ReadCharOfEscape(c: char, t: string)
    ensures ReadChar(Escape(c) + t) == Done(c, t)
    ensures (Escape(c) + t)[0] != '"'
  {
    var s := Escape(c) + t;
    assert s[|Escape(c)|..] == t;
    assert |Escape(c)| > 1 ==> s[0] == '\\' && s[1] == Escape(c)[1];
    if |Escape(c)| == 6 {
      assert s[2] == '0' && s[3] == '0' && s[4] == HexDigit(c as int / 16) && s[5] == HexDigit(c as int % 16);
      HexValueOfDigit(c as int / 16);
      HexValueOfDigit(c as int % 16);
    }
  }

  lemma {:induction false} ReadCharsOfEscapeAll(s: string, rest: string)
    ensures ReadChars(EscapeAll(s) + (['"'] + rest)) == Done(s, rest)
  {
    hide ReadChar, Escape;
    if s == [] {
      assert EscapeAll(s) + (['"'] + rest) == ['"'] + rest;
      assert (['"'] + rest)[1..] == rest;
    } else {
      var tail := EscapeAll(s[1..]) + (['"'] + rest);
      assert EscapeAll(s) + (['"'] + rest) == Escape(s[0]) + tail;
      ReadCharOfEscape(s[0], tail);
      ReadCharsOfEscapeAll(s[1..], rest);
      assert s == [s[0]] + s[1..];
    }
  }

  // ---------------------------------------------------------------------
  // Values: writeCanonicalJSON
  // ---------------------------------------------------------------------

  function Canonical(v: Json): (text: string)
    ensures text != []
    decreases v, 1
  {
    match v
    case Null => "null"
    case Bool(b) => if b then "true" else "false"
    case Num(n) => Layout(n)
    case Str(s) => Quote(s)
    case Arr(items) => ['['] + Items(items) + [']']
    case Obj(fields) => ['{'] + Members(v, SortedKeys(Utf16Units, fields.Keys)) + ['}']
  }

  function Items(items: seq<Json>): string
    decreases items, 0
  {
    if items == [] then []
    else if |items| == 1 then Canonical(items[0])
    else Canonical(items[0]) + ([','] + Items(items[1..]))
  }

  function Member(v: Json, k: string): string
    requires v.Obj? && k in v.fields
    decreases v, 0, 0
  {
    Quote(k) + ([':'] + Canonical(v.fields[k]))
  }

  function Members(v: Json, keys: seq<string>): string
    requires v.Obj? && forall k :: k in keys ==> k in v.fields
    decreases v, 0, |keys| + 1
  {
    if keys == [] then []
    else if |keys| == 1 then Member(v, keys[0])
    else Member(v, keys[0]) + ([','] + Members(v, keys[1..]))
  }

  // ---------------------------------------------------------------------
  // A reader for JSON text without insignificant white space
  // ---------------------------------------------------------------------

  function ReadLiteral(s: string, lit: string, v: Json): (r: Parsed<Json>)
    requires lit != []
    ensures r.Done? ==> |r.rest| < |s|
  {
    if lit <= s then Done(v, s[|lit|..]) else Fail
  }

  function ReadValue(s: string): (r: Parsed<Json>)
    ensures r.Done? ==> |r.rest| < |s|
    decreases |s|, 1
  {
    if s == [] then Fail
    else if s[0] == 'n' then ReadLiteral(s, "null", Null)
    else if s[0] == 't' then ReadLiteral(s, "true", Bool(true))
    else if s[0] == 'f' then ReadLiteral(s, "false", Bool(false))
    else if s[0] == '"' then
      var t := ReadChars(s[1..]);
      if t.Fail? then Fail else Done(Str(t.value), t.rest)
    else if s[0] == '[' then
      if |s| > 1 && s[1] == ']' then Done(Arr([]), s[2..]) else
      var t := ReadItems(s[1..]);
      if t.Fail? then Fail else Done(Arr(t.value), t.rest)
    else if s[0] == '{' then
      if |s| > 1 && s[1] == '}' then Done(Obj(map[]), s[2..]) else
      var t := ReadMembers(s[1..]);
      if t.Fail? then Fail else Done(Obj(t.value), t.rest)
    else
      var t := ReadNumber(s);
      if t.Fail? then Fail else Done(Num(t.value), t.rest)
  }

  function ReadItems(s: string): (r: Parsed<seq<Json>>)
    ensures r.Done? ==> |r.rest| < |s|
    decreases |s|, 2
  {
    var v := ReadValue(s);
    if v.Fail? || v.rest == [] then Fail
    else if v.rest[0] == ']' then Done([v.value], v.rest[1..])
    else if v.rest[0] == ',' then
      var t := ReadItems(v.rest[1..]);
      if t.Fail? then Fail else Done([v.value] + t.value, t.rest)
    else Fail
  }

  function ReadMember(s: string): (r: Parsed<(string, Json)>)
    ensures r.Done? ==> |r.rest| < |s|
    decreases |s|, 2
  {
    if !StartsWith(s, '"') then Fail else
    var k := ReadChars(s[1..]);
    if k.Fail? || !StartsWith(k.rest, ':') then Fail else
    var v := ReadValue(k.rest[1..]);
    if v.Fail? then Fail else Done((k.value, v.value), v.rest)
  }

  function ReadMembers(s: string): (r: Parsed<map<string, Json>>)
    ensures r.Done? ==> |r.rest| < |s|
    decreases |s|, 3
  {
    var m := ReadMember(s);
    if m.Fail? || m.rest == [] then Fail
    else if m.rest[0] == '}' then Done(map[m.value.0 := m.value.1], m.rest[1..])
    else if m.rest[0] == ',' then
      var t := ReadMembers(m.rest[1..]);
      if t.Fail? || m.value.0 in t.value then Fail
      else Done(t.value[m.value.0 := m.value.1], t.rest)
    else Fail
  }

  // ---------------------------------------------------------------------
  // Reading undoes writing
  // ---------------------------------------------------------------------

  /** what can follow a complete JSON value */
  predicate Delimited(rest: string) {
    rest != [] ==> rest[0] == ',' || rest[0] == ']' || rest[0] == '}'
  }

  lemma FirstChar(v: Json)
    ensures
      var c := Canonical(v)[0];
      && c != ']' && c != '}'
      && (c == '[' <==> v.Arr?) && (c == '{' <==> v.Obj?) && (c == '"' <==> v.Str?)
      && (c == 'n' <==> v.Null?) && (c == 't' <==> v == Bool(true)) && (c == 'f' <==> v == Bool(false))
  {
  }

  lemma {:induction false} RoundTrip(v: Json, rest: string)
    requires Delimited(rest)
    ensures ReadValue(Canonical(v) + rest) == Done(v, rest)
    decreases v, 1
  {
    match v
    case Null => RoundTripLiteral("null", Null, rest);
    case Bool(b) => RoundTripLiteral(if b then "true" else "false", v, rest);
    case Num(n) =>
      FirstChar(v);
      RoundTripNumber(n, rest);
    case Str(s) => RoundTripString(s, rest);
    case Arr(items) => RoundTripArr(items, rest);
    case Obj(fields) => RoundTripObj(v, rest);
  }

  lemma RoundTripLiteral(lit: string, v: Json, rest: string)
    requires (lit == "null" && v == Null) || (lit == "true" && v == Bool(true)) || (lit == "false" && v == Bool(false))
    ensures ReadValue(lit + rest) == Done(v, rest)
  {
    assert (lit + rest)[|lit|..] == rest;
    assert lit <= lit + rest;
    assert (lit + rest)[0] == lit[0];
  }

  lemma RoundTripNumber(n: Number, rest: string)
    requires Delimited(rest)
    ensures ReadValue(Layout(n) + rest) == Done(Num(n), rest)
  {
    hide Layout, ReadNumber, ReadChars, ReadItems, ReadMembers, ReadLiteral;
    var s := Layout(n) + rest;
    assert s[0] == Layout(n)[0];
    ReadUndoesLayout(n, rest);
  }

  lemma RoundTripString(s: string, rest: string)
    ensures ReadValue(Quote(s) + rest) == Done(Str(s), rest)
  {
    var text := Quote(s) + rest;
    assert text[1..] == EscapeAll(s) + (['"'] + rest);
    ReadCharsOfEscapeAll(s, rest);
  }

  lemma {:induction false} RoundTripArr(items: seq<Json>, rest: string)
    ensures ReadValue(Canonical(Arr(items)) + rest) == Done(Arr(items), rest)
    decreases items, 2
  {
    var s := Canonical(Arr(items)) + rest;
    hide Layout, ReadNumber, ReadChars, ReadItems, ReadMembers, ReadLiteral;
    if items == [] {
      assert s[2..] == rest;
    } else {
      assert s[1..] == Items(items) + ([']'] + rest);
      FirstChar(items[0]);
      assert s[1] == Canonical(items[0])[0];
      RoundTripItems(items, rest);
    }
  }

  lemma {:induction false} RoundTripItems(items: seq<Json>, rest: string)
    requires items != []
    ensures ReadItems(Items(items) + ([']'] + rest)) == Done(items, rest)
    decreases items, 0
  {
    var s := Items(items) + ([']'] + rest);
    hide Canonical, ReadValue;
    if |items| == 1 {
      RoundTrip(items[0], [']'] + rest);
      assert ([']'] + rest)[1..] == rest;
      assert items == [items[0]];
    } else {
      var tail := [','] + (Items(items[1..]) + ([']'] + rest));
      assert s == Canonical(items[0]) + tail;
      RoundTrip(items[0], tail);
      assert tail[1..] == Items(items[1..]) + ([']'] + rest);
      RoundTripItems(items[1..], rest);
      assert items == [items[0]] + items[1..];
    }
  }

  lemma ReadBraces(text: string, m: map<string, Json>, rest: string)
    requires text != [] && text[0] == '"' && ReadMembers(text) == Done(m, rest)
    ensures ReadValue(['{'] + text) == Done(Obj(m), rest)
  {
    hide ReadMembers;
    assert (['{'] + text)[1..] == text;
  }

  lemma RoundTripEmptyObj(v: Json, rest: string)
    requires v.Obj? && SortedKeys(Utf16Units, v.fields.Keys) == []
    ensures ReadValue(Canonical(v) + rest) == Done(v, rest)
  {
    assert v.fields.Keys == {};
    assert v.fields == map[];
    assert Canonical(v) + rest == ['{', '}'] + rest;
    assert (['{', '}'] + rest)[2..] == rest;
  }

  lemma Braced(members: string, rest: string)
    ensures ['{'] + members + ['}'] + rest == ['{'] + (members + (['}'] + rest))
  {
  }

  lemma AllFields(v: Json, keys: seq<string>)
    requires v.Obj? && SameKeys(keys, v.fields.Keys)
    ensures (map k | k in keys :: v.fields[k]) == v.fields
  {
  }

  lemma {:induction false} RoundTripObj(v: Json, rest: string)
    requires v.Obj?
    ensures ReadValue(Canonical(v) + rest) == Done(v, rest)
    decreases v, 0
  {
    var keys := SortedKeys(Utf16Units, v.fields.Keys);
    if keys == [] {
      RoundTripEmptyObj(v, rest);
    } else {
      assert Canonical(v) == ['{'] + Members(v, keys) + ['}'];
      hide ReadValue, ReadMembers, Members, Canonical, SortedKeys, Sorted;
      var text := Members(v, keys) + (['}'] + rest);
      Braced(Members(v, keys), rest);
      MembersFirstChar(v, keys);
      SortedDistinct(keys);
      RoundTripMembers(v, keys, rest);
      AllFields(v, keys);
      ReadBraces(text, v.fields, rest);
    }
  }

  lemma MembersFirstChar(v: Json, keys: seq<string>)
    requires v.Obj? && keys != [] && forall k :: k in keys ==> k in v.fields
    ensures Members(v, keys) != [] && Members(v, keys)[0] == '"'
  {
    assert Member(v, keys[0])[0] == '"';
  }

  lemma SortedDistinct(keys: seq<string>)
    requires Sorted(Utf16Units, keys)
    ensures forall i, j :: 0 <= i < j < |keys| ==> keys[i] != keys[j]
  {
    forall i, j | 0 <= i < j < |keys| ensures keys[i] != keys[j] {
      LessIsStrictTotalOrder(Utf16Units, keys[i], keys[j], keys[j]);
    }
  }

  lemma DropQuote(e: string, c: string, rest: string)
    ensures ((['"'] + e + ['"']) + ([':'] + c) + rest)[1..] == e + (['"'] + ([':'] + (c + rest)))
  {
  }

  lemma {:induction false} RoundTripMember(v: Json, k: string, rest: string)
    requires v.Obj? && k in v.fields && Delimited(rest)
    ensures ReadMember(Member(v, k) + rest) == Done((k, v.fields[k]), rest)
    decreases v, 0, 0
  {
    hide Canonical, ReadValue, ReadChars, EscapeAll;
    var s := Member(v, k) + rest;
    var tail := [':'] + (Canonical(v.fields[k]) + rest);
    DropQuote(EscapeAll(k), Canonical(v.fields[k]), rest);
    assert s[1..] == EscapeAll(k) + (['"'] + tail);
    ReadCharsOfEscapeAll(k, tail);
    assert tail[1..] == Canonical(v.fields[k]) + rest;
    RoundTrip(v.fields[k], rest);
  }

  lemma CommaOrBrace(c: char, rest: string)
    requires c == ',' || c == '}'
    ensures Delimited([c] + rest)
  {
  }

  lemma {:induction false} RoundTripMembers(v: Json, keys: seq<string>, rest: string)
    requires v.Obj? && keys != [] && forall k :: k in keys ==> k in v.fields
    requires forall i, j :: 0 <= i < j < |keys| ==> keys[i] != keys[j]
    ensures ReadMembers(Members(v, keys) + (['}'] + rest)) == Done(map k | k in keys :: v.fields[k], rest)
    decreases v, 0, |keys|
  {
    hide Member, ReadMember, Delimited;
    var s := Members(v, keys) + (['}'] + rest);
    assert Delimited(['}'] + rest) by { CommaOrBrace('}', rest); }
    if |keys| == 1 {
      RoundTripMember(v, keys[0], ['}'] + rest);
      assert (['}'] + rest)[1..] == rest;
      assert map[keys[0] := v.fields[keys[0]]] == map k | k in keys :: v.fields[k];
    } else {
      var tail := [','] + (Members(v, keys[1..]) + (['}'] + rest));
      CommaOrBrace(',', Members(v, keys[1..]) + (['}'] + rest));
      assert s == Member(v, keys[0]) + tail;
      RoundTripMember(v, keys[0], tail);
      assert tail[1..] == Members(v, keys[1..]) + (['}'] + rest);
      RoundTripMembers(v, keys[1..], rest);
      var m := map k | k in keys[1..] :: v.fields[k];
      assert keys[0] !in m;
      assert m[keys[0] := v.fields[keys[0]]] == map k | k in keys :: v.fields[k];
    }
  }

  /** Two values have the same canonical text exactly when they are equal. */
  lemma {:induction false} CanonicalInjective(a: Json, b: Json)
    ensures Canonical(a) == Canonical(b) <==> a == b
  {
    if Canonical(a) == Canonical(b) {
      RoundTrip(a, "");
      RoundTrip(b, "");
    }
  }

  /** enumEqual: equality of canonical text, which is value equality */
  predicate EnumEqual(a: Json, b: Json)
    ensures EnumEqual(a, b) <==> a == b
  {
    CanonicalInjective(a, b);
    Canonical(a) == Canonical(b)
  }
}
