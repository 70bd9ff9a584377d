/**
 The chain that leaks, with nothing left open: its identifier, key, steps and
 request are given, and its texts are measured against the caps.
 */
module DecimalChain {
  import opened Numbers
  import opened Json
  import opened Collation
  import opened CanonicalJson
  import opened Caps
  import opened Ids
  import opened Grants
  import opened Authorization
  import opened StepRounding

  const ID := "a/b-v1:c"
  const KEY := "x"

  // ---------------------------------------------------------------------
  // The identifier
  // ---------------------------------------------------------------------

  lemma {:induction false} SplitWord(s: string)
    requires forall i :: 0 <= i < |s| ==> s[i] != ':'
    ensures Split(s) == [s]
  {
    if s != [] {
      SplitWord(s[1..]);
      assert [s[0]] + s[1..] == s;
    }
  }

  lemma {:induction false} SplitAt(a: string, b: string)
    requires forall i :: 0 <= i < |a| ==> a[i] != ':'
    ensures Split(a + (":" + b)) == [a] + Split(b)
  {
    var s := a + (":" + b);
    if a == [] {
      assert s == ":" + b && s[1..] == b;
    } else {
      assert s[0] == a[0] && s[1..] == a[1..] + (":" + b);
      SplitAt(a[1..], b);
      assert [a[0]] + a[1..] == a;
    }
  }

  lemma TwoParts(scheme: string, action: string)
    requires forall i :: 0 <= i < |scheme| ==> scheme[i] != ':' && Harmless(scheme[i])
    requires forall i :: 0 <= i < |action| ==> action[i] != ':' && Harmless(action[i])
    requires ValidScheme(scheme)
    ensures ValidId(scheme + (":" + action))
  {
    var id := scheme + (":" + action);
    SplitAt(scheme, action);
    SplitWord(action);
    hide Split, ValidScheme;
    assert forall i :: 0 <= i < |id| ==> Harmless(id[i]);
  }

  /** a character that is neither a wildcard nor a bracket */
  predicate Harmless(c: char) {
    c != '*' && c != '{' && c != '}' && c != '[' && c != ']'
  }

  lemma IdIsValid()
    ensures ValidId(ID)
  {
    hide ValidId, ValidScheme;
    SchemeIsValid();
    TwoParts("a/b-v1", "c");
    assert ID == "a/b-v1" + (":" + "c");
  }

  lemma SchemeIsValid()
    ensures ValidScheme("a/b-v1")
  {
    var s := "a/b-v1";
    assert s[..1] == "a" && s[2..3] == "b" && s[5..] == "1";
    assert AllWord(s[..1]) && AllWord(s[1 + 1..3]) && AllDecimal(s[3 + 2..]);
    assert s[1] == '/' && s[3] == '-' && s[3 + 1] == 'v';
  }

  // ---------------------------------------------------------------------
  // Sizes
  // ---------------------------------------------------------------------

  lemma {:induction false} AsciiBytes(s: string)
    requires forall i :: 0 <= i < |s| ==> s[i] as int < 0x80
    ensures Bytes(s) == |s|
  {
    if s != [] {
      AsciiBytes(s[1..]);
    }
  }

  predicate Plain(c: char) {
    0x20 <= c as int < 0x80 && c != '"' && c != '\\'
  }

  lemma {:induction false} PlainEscape(s: string)
    requires forall i :: 0 <= i < |s| ==> Plain(s[i])
    ensures EscapeAll(s) == s
  {
    if s != [] {
      PlainEscape(s[1..]);
      assert Escape(s[0]) == [s[0]];
      assert [s[0]] + s[1..] == s;
    }
  }

  lemma PlainQuote(s: string)
    requires forall i :: 0 <= i < |s| ==> Plain(s[i])
    ensures Bytes(Quote(s)) == |s| + 2
  {
    PlainEscape(s);
    AsciiBytes(Quote(s));
  }

  lemma OneKey(k: string)
    ensures SortedKeys(Utf16Units, {k}) == [k]
  {
    hide SortedKeys;
    SortedUnique(Utf16Units, [k], {k});
  }

  /** an object of one member */
  lemma SingletonSize(k: string, v: Json)
    ensures Bytes(Canonical(Obj(map[k := v]))) == Bytes(Quote(k)) + Bytes(Canonical(v)) + 3
  {
    hide Canonical, Bytes, Quote, SortedKeys;
    var o := Obj(map[k := v]);
    ObjectSize(o);
    OneKey(k);
    assert o.fields.Keys == {k} && k in o.fields;
    MemberSize(o, k);
    hide CanonicalJson.Member;
    assert [k][1..] == [] && MembersBytes(o, []) == 0;
  }

  lemma MemberSize(o: Json, k: string)
    requires o.Obj? && k in o.fields
    ensures Bytes(CanonicalJson.Member(o, k)) == Bytes(Quote(k)) + 1 + Bytes(Canonical(o.fields[k]))
  {
    BytesConcat(Quote(k), [':'] + Canonical(o.fields[k]));
    BytesConcat([':'], Canonical(o.fields[k]));
    AsciiBytes([':']);
    hide Bytes, Quote, Canonical;
  }

  lemma SingletonDepth(k: string, v: Json, depth: int)
    requires depth <= MAX_NESTING
    ensures ParamsDepth(Obj(map[k := v]), depth) <= MAX_NESTING <==> ParamsDepth(v, depth + 1) <= MAX_NESTING
  {
    var o := Obj(map[k := v]);
    OneKey(k);
    assert o.fields.Keys == {k};
    FieldsDepthAt(o, [k], depth, MAX_NESTING);
    assert ParamsDepth(o, depth) == FieldsDepth(o, [k], depth);
    hide FieldsDepth, SortedKeys, ParamsDepth;
  }

  lemma SmallNumber(n: Number)
    requires |Layout(n)| <= 4 && forall i :: 0 <= i < |Layout(n)| ==> Layout(n)[i] as int < 0x80
    ensures FitsCaps(map[KEY := Num(n)])
    ensures FitsCaps(map[KEY := Obj(map["step" := Num(n)])])
  {
    AsciiBytes(Layout(n));
    PlainQuote(KEY);
    PlainQuote("step");
    assert Canonical(Num(n)) == Layout(n) && ParamsDepth(Num(n), 2) <= MAX_NESTING && ParamsDepth(Num(n), 3) <= MAX_NESTING;
    hide Canonical, Bytes, Quote, Layout, ParamsDepth;
    SingletonSize("step", Num(n));
    SingletonSize(KEY, Num(n));
    SingletonSize(KEY, Obj(map["step" := Num(n)]));
    SingletonDepth("step", Num(n), 2);
    SingletonDepth(KEY, Num(n), 1);
    SingletonDepth(KEY, Obj(map["step" := Num(n)]), 1);
  }

  lemma Layouts()
    ensures Layout(HUNDREDTH) == "0.01" && Layout(THREE_HUNDREDTHS) == "0.03" && Layout(REQUEST) == "0.57"
  {
    assert Zeros(1) == "0" && Zeros(0) == "";
    assert "0" + ("." + ("0" + "1")) == "0.01";
    assert "0" + ("." + ("0" + "3")) == "0.03";
    assert "0" + ("." + ("" + "57")) == "0.57";
    assert "" + "0.01" == "0.01" && "" + "0.03" == "0.03" && "" + "0.57" == "0.57";
  }

  lemma StepOnWire(n: Number)
    ensures Wire.EncodeAll(map[KEY := OfStep(n)]) == map[KEY := Obj(map["step" := Num(n)])]
  {
    var b := OfStep(n);
    var e := Wire.Encode(b);
    Wire.FieldsByName(b);
    hide Wire.Field;
    assert e.fields == map["step" := Num(n)] by {
      assert "step" in Wire.NAMES;
      forall name | name in Wire.NAMES && name != "step" ensures Wire.Field(b, name).None? {
        Wire.Names(name);
      }
    }
  }

  lemma TextsFit()
    ensures SmallEnough(KEY)
  {
    Layouts();
    hide Layout, FitsCaps;
    SmallNumber(HUNDREDTH);
    SmallNumber(THREE_HUNDREDTHS);
    SmallNumber(REQUEST);
    StepOnWire(HUNDREDTH);
    StepOnWire(THREE_HUNDREDTHS);
  }

  /** Two grants for `a/b-v1:c` with steps 0.01 and 0.03 on `x`: the chain allows x = 0.57, the first grant alone refuses it. */
  lemma {:induction false} ChainLeaks(grammar: Grammar)
    ensures AuthorizeWithChain([Stepped(ID, KEY, HUNDREDTH), Stepped(ID, KEY, THREE_HUNDREDTHS)], Asked(ID, KEY), grammar) == Allow
    ensures !Entails(Stepped(ID, KEY, HUNDREDTH), Asked(ID, KEY))
  {
    hide ValidId, SmallEnough, Entails, AuthorizeWithChain, Stepped, Asked;
    IdIsValid();
    TextsFit();
    DecimalChainLeaks(ID, KEY, grammar);
  }
}
