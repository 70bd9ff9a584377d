/**
 When the backfill preserves every other byte: exactly on documents without
 whitespace where the rewriting joins its pieces.
 */
module BackfillTight {
  import opened Numbers
  import opened Basics
  import opened SchemaDigest
  import opened BackfillRuns

  predicate NoBlank(s: string) {
    s == [] || !IsSpace(s[0])
  }

  /** where the scan goes on after what follows a params_schema value */
  function Resumed(after: string): (r: string)
    ensures |r| <= |after|
  {
    if after == [] then []
    else if after[0] == ',' && HasDigestKey(after[1..]) then
      var span := DigestSpan(after[1..]);
      if span.NoSpan? then [] else after[1 + span.length..]
    else if after[0] == '}' then Trim(after[1..])
    else after
  }

  /** no params_schema value is followed by whitespace before its terminator,
      and no brace that gets an entry before it is followed by whitespace */
  predicate Tight(rest: string)
    decreases |rest|
  {
    var key := FindKey(rest);
    if !key.At? then true
    else
      var v := Trim(rest[key.colon + 1..]);
      var n := ValueLen(v);
      if n.None? then true
      else
        var end := v[n.value..];
        && NoBlank(end)
        && (end != [] && end[0] == '}' ==> NoBlank(end[1..]))
        && Tight(Resumed(Trim(end)))
  }

  lemma {:induction false} TrimDrops(s: string)
    ensures NoBlank(s) <==> Trim(s) == s
    ensures !NoBlank(s) ==> |Trim(s)| < |s|
  {
    if s != [] && IsSpace(s[0]) {
      TrimDrops(s[1..]);
      assert Trim(s) == Trim(s[1..]);
    } else {
      assert s[0..] == s;
    }
  }

  /** what one turn keeps of the text from the end of the value on, and what it leaves to do */
  lemma AfterValueLength(kept: string, value: string, after: string, tools: Tools)
    requires AfterValue(kept, value, after, tools).Move?
    ensures
      var m := AfterValue(kept, value, after, tools);
      && after != [] && m.rest == Resumed(after)
      && |m.kept| + |m.close| + |m.rest| <= |kept| + |after|
      && (|m.kept| + |m.close| + |m.rest| == |kept| + |after| <==> (after[0] == '}' ==> NoBlank(after[1..])))
      && ((after[0] == '}' ==> NoBlank(after[1..])) ==> m.kept + (m.close + m.rest) == kept + after)
  {
    hide HasDigestKey, DigestSpan, Trim, Entry;
    TrimDrops(after[1..]);
    hide NoBlank;
    var m := AfterValue(kept, value, after, tools);
    if after[0] == ',' && HasDigestKey(after[1..]) {
      var n := 1 + DigestSpan(after[1..]).length;
      Cut(after, n);
      assert m.kept + ("" + m.rest) == kept + (after[..n] + after[n..]);
    } else if after[0] == '}' {
      assert after == "}" + after[1..];
    } else {
      assert "" + after == after;
    }
  }

  lemma TurnLength(rest: string, tools: Tools)
    requires Turn(rest, tools).Move?
    ensures
      var m := Turn(rest, tools);
      var v := Trim(rest[FindKey(rest).colon + 1..]);
      var end := v[ValueLen(v).value..];
      var tight := NoBlank(end) && (end[0] == '}' ==> NoBlank(end[1..]));
      && end != [] && m.rest == Resumed(Trim(end))
      && |m.kept| + |m.close| + |m.rest| <= |rest|
      && (|m.kept| + |m.close| + |m.rest| == |rest| <==> tight)
      && (tight ==> m.kept + (m.close + m.rest) == rest)
  {
    hide FindKey, ValueLen, SpaceLen, Trim, AfterValue, Resumed;
    var v := Trim(rest[FindKey(rest).colon + 1..]);
    var end := v[ValueLen(v).value..];
    var kept := rest[..|rest| - |end|];
    AfterValueLength(kept, v[..|v| - |end|], Trim(end), tools);
    TrimDrops(end);
    TrimSuffix(rest[FindKey(rest).colon + 1..]);
    assert rest == kept + end by {
      SuffixTwice(rest, FindKey(rest).colon + 1, v, ValueLen(v).value);
    }
  }

  lemma TrimSuffix(s: string)
    ensures Trim(s) == s[|s| - |Trim(s)|..]
  {
  }

  lemma SuffixTwice(s: string, a: nat, v: string, b: nat)
    requires a <= |s| && |v| <= |s| - a && v == s[a..][|s| - a - |v|..] && b <= |v|
    ensures s == s[..|s| - |v[b..]|] + v[b..]
  {
    assert v[b..] == s[|s| - |v| + b..];
  }

  /** along the whole rewriting: nothing kept is added, and all is kept exactly on tight text */
  lemma {:induction false} RewriteKept(rest: string, tools: Tools)
    requires Rewrite(rest, tools).Some?
    ensures
      var kept := Rewrite(rest, tools).value.kept;
      |kept| <= |rest| && (|kept| == |rest| <==> Tight(rest)) && (Tight(rest) ==> kept == rest)
    decreases |rest|
  {
    hide Turn;
    var m := Turn(rest, tools);
    if m.Move? {
      TurnLength(rest, tools);
      RewriteKept(m.rest, tools);
      TightTurn(rest, tools);
    } else {
      TightFinish(rest, tools);
    }
  }

  lemma TightFinish(rest: string, tools: Tools)
    requires Turn(rest, tools) == Finish
    ensures Tight(rest)
  {
    hide FindKey, ValueLen, Trim, DigestSpan, HasDigestKey, Entry;
  }

  lemma TightTurn(rest: string, tools: Tools)
    requires Turn(rest, tools).Move?
    ensures
      var v := Trim(rest[FindKey(rest).colon + 1..]);
      var end := v[ValueLen(v).value..];
      end != [] &&
      (Tight(rest) <==> NoBlank(end) && (end[0] == '}' ==> NoBlank(end[1..])) && Tight(Turn(rest, tools).rest))
  {
    TurnLength(rest, tools);
    hide AfterValue, Resumed, Trim, ValueLen, NoBlank;
  }

  lemma {:induction false} FoundIsContained(s: string)
    requires FindKey(s).At?
    ensures Contains(s, KEY)
    decreases |s|
  {
    if s[0] == '"' && s[..StringLen(s).value] == KEY {
      assert HasPrefix(s[0..], KEY);
    } else {
      var n := if s[0] == '"' then StringLen(s).value else 1;
      FoundIsContained(s[n..]);
      var i :| 0 <= i <= |s[n..]| && HasPrefix(s[n..][i..], KEY);
      assert s[n..][i..] == s[n + i..];
    }
  }

  /** The backfill preserves every other byte exactly on tight documents. */
  lemma {:induction false} BackfillPreservesBytes(data: string, tools: Tools)
    requires Backfill(data, tools).Some?
    ensures Backfill(data, tools).value.kept == data <==> Tight(data)
  {
    if Contains(data, KEY) {
      RewriteKept(data, tools);
    } else {
      hide FindKey, Contains;
      if FindKey(data).At? {
        FoundIsContained(data);
      }
    }
  }

  // ---------------------------------------------------------------------
  // A document that loses a byte
  // ---------------------------------------------------------------------

  const OPENING := "{" + (KEY + ":")
  const SPACED := OPENING + "1 }"

  lemma KeyAlone()
    ensures KeyPrefix(OPENING)
  {
    var t := KEY + ":";
    Dropped("{", t);
    assert FindKey(t) == At(|KEY|) by {
      KeyLength();
      Dropped(KEY, ":");
      SpaceLenOf([], ":");
      assert [] + ":" == ":";
      hide StringLen, Trim;
    }
    hide FindKey;
    assert FindKey(OPENING) == Shift(1, FindKey(t)) by { AfterBrace(t); }
  }

  lemma AfterBrace(t: string)
    ensures FindKey("{" + t) == Shift(1, FindKey(t))
  {
    Dropped("{", t);
  }

  lemma QuotedLength(d: string, rest: string)
    requires forall i :: 0 <= i < |d| ==> d[i] != '"' && d[i] != '\\'
    ensures StringLen("\"" + (d + "\"") + rest) == Some(|d| + 2)
  {
    var q := "\"" + (d + "\"");
    PlainRun(d);
    Dropped("\"", d + "\"");
    assert StringLen(q) == Some(|q|);
    assert q + [] == q;
    StringStable(q, [], rest);
  }

  lemma KeyLength()
    ensures StringLen(KEY + ":") == Some(|KEY|)
  {
    hide StringLen;
    var d := "params_schema";
    assert KEY == "\"" + (d + "\"");
    QuotedLength(d, ":");
  }

  lemma ValueOfOne()
    ensures Trim("1 }") == "1 }" && ValueLen("1 }") == Some(1) && Trim(" }") == "}" && Trim("") == ""
  {
    SpaceLenOf([], "1 }");
    assert [] + "1 }" == "1 }";
    SpaceLenOf(" ", "}");
    assert " " + "}" == " }";
    assert !IsNumeric(' ') && IsNumeric('1');
    assert " }"[0] == ' ' && "1"[0] == '1';
    NumberLenOf("1", " }");
    assert "1" + " }" == "1 }";
  }

  /** The space before the brace is dropped although nothing asks for it. */
  lemma {:induction false} SpaceIsDropped(tools: Tools)
    ensures Backfill(SPACED, tools).Some? && Backfill(SPACED, tools).value.kept == OPENING + "1}" != SPACED
  {
    hide Trim, ValueLen, FindKey, Entry;
    KeyAlone();
    KeyThen(OPENING, "1 }");
    ValueOfOne();
    FoundIsContained(SPACED);
    assert "1 }"[1..] == " }" && "1 }"[..1] == "1";
    assert SPACED[..|SPACED| - 2] == OPENING + "1";
    var e := Entry(tools.digest("1"));
    assert AfterValue(OPENING + "1", "1", "}", tools) == Move(OPENING + "1", e, "}", "") by {
      assert "}"[1..] == "";
    }
    hide AfterValue;
    assert AtValue(SPACED, "1 }", tools) == Move(OPENING + "1", e, "}", "");
    hide AtValue;
    assert Turn(SPACED, tools) == Move(OPENING + "1", e, "}", "");
    NothingLeft(tools);
    hide Turn, Contains;
    assert "}" + "" == "}" && OPENING + "1" + "}" == OPENING + "1}";
    assert |OPENING + "1}"| < |SPACED|;
  }

  lemma NothingLeft(tools: Tools)
    ensures Rewrite("", tools) == Some(Output("", ""))
  {
    assert FindKey("") == Missing;
  }
}
