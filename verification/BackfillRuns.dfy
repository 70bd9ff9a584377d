/**
 Backfilling a document twice, and undoing a backfill: the second run changes
 nothing, and without the inserted entries the output is the input up to
 whitespace outside strings.
 */
module BackfillRuns {
  import opened Numbers
  import opened Basics
  import opened SchemaDigest

  // ---------------------------------------------------------------------
  // Running again changes nothing
  // ---------------------------------------------------------------------

  lemma InsertedAgain(p: string, w0: string, value: string, t: string, tools: Tools)
    requires Sound(tools) && KeyPrefix(p) && AllSpace(w0) && WholeValue(value)
    ensures var k := p + (w0 + value); var e := Entry(tools.digest(value));
      Turn(k + (e + t), tools) == Move(k + e, "", "", t)
  {
    hide Turn, KeyPrefix, WholeValue, WholeString, Entry, Glue, Quoted;
    var d := tools.digest(value);
    QuotedIsWhole(d);
    EntryIsGlue(d, t);
    TurnPasses(p, w0, value, " ", "", " ", Quoted(d), t, tools);
    Regroup(p, w0, value, Entry(d) + t);
  }

  lemma StandingAgain(p: string, w0: string, value: string, s: string, t: string, tools: Tools)
    requires Sound(tools) && KeyPrefix(p) && AllSpace(w0) && WholeValue(value)
    requires DigestSpan(s).Span? && tools.decode(DigestSpan(s).raw) == Some(tools.digest(value))
    ensures var k := p + (w0 + value) + ("," + s[..DigestSpan(s).length]); Turn(k + t, tools) == Move(k, "", "", t)
  {
    hide Turn, KeyPrefix, WholeValue, Entry, DigestSpan, Glue;
    var span := DigestSpan(s);
    var w1, w2, w3 := SpanShape(s);
    assert WholeString(span.raw) by {
      WholeCut(span.raw, s[span.length..]);
      WholeRaw(span.raw, s[span.length..]);
    }
    hide WholeString;
    TurnPasses(p, w0, value, w1, w2, w3, span.raw, t, tools);
    GlueSplit(w1, w2, w3, span.raw, t);
    GlueSplit(w1, w2, w3, span.raw, s[span.length..]);
    var g := Glue(w1, w2, w3, span.raw, "");
    assert s[..span.length] == g by {
      Cut(s, span.length);
      Dropped(g, s[span.length..]);
    }
    Regroup(p + (w0 + value), ",", g, t);
    Regroup(p, w0, value, "," + (g + t));
  }

  lemma WholeCut(raw: string, t: string)
    requires ValueLen(raw + t) == Some(|raw|)
    ensures WholeValue(raw)
  {
    hide ValueLen;
    ValueStable(raw, t, []);
    assert raw + [] == raw;
  }

  lemma WholeRaw(raw: string, t: string)
    requires ValueLen(raw + t) == Some(|raw|) && raw != "" && raw[0] == '"'
    ensures WholeString(raw)
  {
    StringStable(raw, t, []);
    assert raw + [] == raw;
  }

  /** What a turn writes, the next run passes over in one turn. */
  lemma TurnAgain(rest: string, t: string, tools: Tools)
    requires Sound(tools) && Turn(rest, tools).Move?
    ensures var m := Turn(rest, tools);
      Turn(m.kept + (m.inserted + (m.close + t)), tools) == Move(m.kept + m.inserted, "", "", m.close + t)
  {
    hide Turn, KeyPrefix, WholeValue, Entry, DigestSpan, HasDigestKey, SpaceLen, Trim;
    var m := Turn(rest, tools);
    var p, w0, value, w, after := TurnShape(rest, tools);
    if after[0] == ',' && HasDigestKey(after[1..]) {
      StandingAgain(p, w0, value, after[1..], t, tools);
      var n := DigestSpan(after[1..]).length;
      assert after[..1 + n] == "," + after[1..][..n];
      assert "" + ("" + t) == t && m.kept + "" == m.kept && "" + t == t;
    } else {
      InsertedAgain(p, w0, value, m.close + t, tools);
    }
  }

  lemma TurnAfterBrace(s: string, tools: Tools)
    ensures var m := Turn(s, tools);
      Turn("}" + s, tools) == if m.Move? then m.(kept := "}" + m.kept) else m
  {
    hide ValueLen, SpaceLen, Trim, AfterValue;
    var t := "}" + s;
    Dropped("}", s);
    var f := FindKey(s);
    assert FindKey(t) == Shift(1, f);
    hide FindKey;
    if f.At? {
      assert t[f.colon + 2..] == s[f.colon + 1..];
      var tail := s[f.colon + 1..];
      var v := Trim(tail);
      if ValueLen(v).Some? {
        var end := v[ValueLen(v).value..];
        var k := |s| - |end|;
        assert t[..|t| - |end|] == "}" + s[..k];
        var after := Trim(end);
        AfterValueFrames("}", s[..k], v[..ValueLen(v).value], after, tools);
      }
    }
  }

  lemma AfterValueFrames(front: string, kept: string, value: string, after: string, tools: Tools)
    ensures var m := AfterValue(kept, value, after, tools);
      AfterValue(front + kept, value, after, tools) == if m.Move? then m.(kept := front + m.kept) else m
  {
    hide HasDigestKey, DigestSpan, SpaceLen, Trim, Entry;
    var m := AfterValue(kept, value, after, tools);
    if m.Move? && after[0] == ',' && HasDigestKey(after[1..]) {
      var n := DigestSpan(after[1..]).length;
      assert front + kept + after[..1 + n] == front + (kept + after[..1 + n]);
    }
  }

  lemma RewriteAfterBrace(s: string, tools: Tools)
    requires Rewrite(s, tools).Some?
    ensures Rewrite("}" + s, tools)
         == Some(Output("}" + Rewrite(s, tools).value.text, "}" + Rewrite(s, tools).value.kept))
  {
    hide Turn;
    TurnAfterBrace(s, tools);
    var m := Turn(s, tools);
    if m.Move? {
      var r := Rewrite(m.rest, tools).value;
      assert "}" + m.kept + (m.inserted + (m.close + r.text)) == "}" + (m.kept + (m.inserted + (m.close + r.text)));
      assert "}" + m.kept + (m.close + r.kept) == "}" + (m.kept + (m.close + r.kept));
    }
  }

  lemma {:induction false} RewriteAgain(rest: string, tools: Tools)
    requires Sound(tools) && Rewrite(rest, tools).Some?
    ensures var o := Rewrite(rest, tools).value; Rewrite(o.text, tools) == Some(Output(o.text, o.text))
    decreases |rest|
  {
    hide Turn;
    var m := Turn(rest, tools);
    if m.Move? {
      var t := Rewrite(m.rest, tools).value.text;
      RewriteAgain(m.rest, tools);
      TurnAgain(rest, t, tools);
      assert m.close == "" || m.close == "}" by { CloseShapes(rest, tools); }
      RewriteAgainStep(m.kept, m.inserted, m.close, t, tools);
    }
  }

  lemma CloseShapes(rest: string, tools: Tools)
    requires Turn(rest, tools).Move?
    ensures Turn(rest, tools).close == "" || Turn(rest, tools).close == "}"
  {
    hide Turn;
    var _, _, _, _, _ := TurnShape(rest, tools);
  }

  lemma RewriteAgainStep(kept: string, inserted: string, close: string, t: string, tools: Tools)
    requires close == "" || close == "}"
    requires Rewrite(t, tools) == Some(Output(t, t))
    requires Turn(kept + (inserted + (close + t)), tools) == Move(kept + inserted, "", "", close + t)
    ensures var o := kept + (inserted + (close + t)); Rewrite(o, tools) == Some(Output(o, o))
  {
    hide Turn;
    if close == "" {
      assert close + t == t;
    } else {
      RewriteAfterBrace(t, tools);
    }
    assert "" + ("" + (close + t)) == close + t && "" + (close + t) == close + t;
    assert kept + inserted + (close + t) == kept + (inserted + (close + t));
  }

  /** Whenever a backfill succeeds, backfilling its output succeeds, inserts nothing and returns it unchanged. */
  lemma {:induction false} BackfillIdempotent(data: string, tools: Tools)
    requires Sound(tools) && Backfill(data, tools).Some?
    ensures var o := Backfill(data, tools).value; Backfill(o.text, tools) == Some(Output(o.text, o.text))
  {
    hide Rewrite;
    if Contains(data, KEY) {
      RewriteAgain(data, tools);
    }
  }

  // ---------------------------------------------------------------------
  // Without the insertions, the input comes back
  // ---------------------------------------------------------------------

  /** whitespace outside strings removed */
  function Squeeze(s: string): string
    decreases |s|
  {
    if s == [] then []
    else if s[0] == '"' then
      var n := StringLen(s);
      if n.None? then s else s[..n.value] + Squeeze(s[n.value..])
    else (if IsSpace(s[0]) then [] else [s[0]]) + Squeeze(s[1..])
  }

  /** every string opened in s is closed in s */
  predicate Closed(s: string)
    decreases |s|
  {
    if s == [] then true
    else if s[0] == '"' then StringLen(s).Some? && Closed(s[StringLen(s).value..])
    else Closed(s[1..])
  }

  lemma {:induction false} SqueezeSplit(a: string, b: string)
    requires Closed(a)
    ensures Squeeze(a + b) == Squeeze(a) + Squeeze(b)
    decreases |a|
  {
    hide StringLen;
    if a == [] {
      assert a + b == b;
    } else if a[0] == '"' {
      var n := StringLen(a).value;
      assert a == a[..n] + a[n..] && a + b == a[..n] + (a[n..] + b);
      StringStable(a[..n], a[n..], a[n..] + b);
      Dropped(a[..n], a[n..] + b);
      SqueezeSplit(a[n..], b);
      assert a[..n] + (Squeeze(a[n..]) + Squeeze(b)) == a[..n] + Squeeze(a[n..]) + Squeeze(b);
    } else {
      SkipFront(a, b, 1);
      SqueezeSplit(a[1..], b);
      var c := if IsSpace(a[0]) then [] else [a[0]];
      assert c + (Squeeze(a[1..]) + Squeeze(b)) == c + Squeeze(a[1..]) + Squeeze(b);
    }
  }

  lemma {:induction false} ClosedSplit(a: string, b: string)
    requires Closed(a)
    ensures Closed(a + b) == Closed(b)
    decreases |a|
  {
    hide StringLen;
    if a == [] {
      assert a + b == b;
    } else if a[0] == '"' {
      var n := StringLen(a).value;
      assert a == a[..n] + a[n..] && a + b == a[..n] + (a[n..] + b);
      StringStable(a[..n], a[n..], a[n..] + b);
      Dropped(a[..n], a[n..] + b);
      ClosedSplit(a[n..], b);
    } else {
      SkipFront(a, b, 1);
      ClosedSplit(a[1..], b);
    }
  }

  lemma {:induction false} PlainClosed(s: string)
    requires forall i :: 0 <= i < |s| ==> s[i] != '"'
    ensures Closed(s)
  {
    if s != [] {
      PlainClosed(s[1..]);
    }
  }

  lemma {:induction false} SpaceSqueezed(s: string)
    requires AllSpace(s)
    ensures Squeeze(s) == []
  {
    if s != [] {
      SpaceSqueezed(s[1..]);
    }
  }

  lemma {:induction false} NestClosed(s: string, open: char, close: char, depth: nat)
    requires open != close && open != '"' && close != '"'
    requires NestLen(s, open, close, depth) == Some(|s|)
    ensures Closed(s)
    decreases |s|
  {
    hide StringLen;
    if s[0] == '"' {
      NestClosed(s[StringLen(s).value..], open, close, depth);
    } else if s[0] == open {
      NestClosed(s[1..], open, close, depth + 1);
    } else if s[0] == close {
      if depth > 1 {
        NestClosed(s[1..], open, close, depth - 1);
      }
    } else {
      NestClosed(s[1..], open, close, depth);
    }
  }

  lemma ValueClosed(s: string)
    requires WholeValue(s)
    ensures Closed(s)
  {
    hide NestLen, StringLen, NumberLen;
    if s[0] == '{' {
      NestClosed(s, '{', '}', 0);
    } else if s[0] == '[' {
      NestClosed(s, '[', ']', 0);
    } else if s[0] == '"' {
      assert s[|s|..] == [];
    } else {
      assert s[..|s|] == s;
      NumberRun(s);
      PlainClosed(s);
    }
  }

  lemma {:induction false} KeyClosed(p: string)
    requires KeyPrefix(p)
    ensures Closed(p)
    decreases |p|
  {
    hide StringLen, SpaceLen, Trim;
    if p[0] == '"' {
      var n := StringLen(p).value;
      var rest := p[n..];
      var after := Trim(rest);
      if p[..n] == KEY && after != [] && after[0] == ':' {
        var w := LeadingSpace(rest);
        assert after == [':'];
        PlainClosed(rest);
      } else {
        KeyClosed(rest);
      }
    } else {
      KeyClosed(p[1..]);
    }
  }

  lemma SpanClosed(s: string)
    requires DigestSpan(s).Span?
    ensures Closed(s[..DigestSpan(s).length])
  {
    hide DigestSpan, ValueLen, StringLen, Glue;
    var span := DigestSpan(s);
    var t := s[span.length..];
    var w1, w2, w3 := SpanShape(s);
    GlueSplit(w1, w2, w3, span.raw, t);
    assert s[..span.length] == Glue(w1, w2, w3, span.raw, "") by {
      Cut(s, span.length);
      Dropped(Glue(w1, w2, w3, span.raw, ""), t);
    }
    ValueStable(span.raw, t, []);
    assert span.raw + [] == span.raw;
    ValueClosed(span.raw);
    GlueClosed(w1, w2, w3, span.raw);
  }

  lemma GlueClosed(w1: string, w2: string, w3: string, raw: string)
    requires AllSpace(w1) && AllSpace(w2) && AllSpace(w3) && Closed(raw)
    ensures Closed(Glue(w1, w2, w3, raw, ""))
  {
    hide Closed;
    assert raw + "" == raw;
    PlainClosed(w3);
    ClosedSplit(w3, raw);
    PlainClosed(":");
    ClosedSplit(":", w3 + raw);
    PlainClosed(w2);
    ClosedSplit(w2, ":" + (w3 + raw));
    DigestKeyClosed();
    ClosedSplit(DIGEST_KEY, w2 + (":" + (w3 + raw)));
    PlainClosed(w1);
    ClosedSplit(w1, DIGEST_KEY + (w2 + (":" + (w3 + raw))));
  }

  lemma DigestKeyClosed()
    ensures Closed(DIGEST_KEY)
  {
    hide Closed;
    var d := "params_schema_digest";
    assert DIGEST_KEY == "\"" + (d + "\"");
    LiteralClosed(d);
  }

  lemma LiteralClosed(d: string)
    requires forall i :: 0 <= i < |d| ==> d[i] != '"' && d[i] != '\\'
    ensures Closed("\"" + (d + "\""))
  {
    var s := "\"" + (d + "\"");
    PlainRun(d);
    Dropped("\"", d + "\"");
    assert s[|s|..] == [];
  }

  lemma {:induction false} PlainRun(d: string)
    requires forall i :: 0 <= i < |d| ==> d[i] != '"' && d[i] != '\\'
    ensures Closing(d + "\"") == Some(|d| + 1)
  {
    if d != [] {
      SkipFront(d, "\"", 1);
      PlainRun(d[1..]);
    }
  }

  lemma StandingKeeps(k: string, front: string, back: string, t: string)
    requires Closed(k) && Closed(front) && Squeeze(t) == Squeeze(back)
    ensures Squeeze(k + front + t) == Squeeze(k) + Squeeze(front + back)
  {
    hide Squeeze, Closed;
    SqueezeSplit(front, back);
    SqueezeSplit(front, t);
    SqueezeSplit(k, front + t);
    assert k + front + t == k + (front + t);
  }

  lemma FrontClosed(after: string, n: nat)
    requires 1 + n <= |after| && after[0] == ',' && Closed(after[1..][..n])
    ensures Closed(after[..1 + n])
  {
    hide Closed;
    PlainClosed(",");
    ClosedSplit(",", after[1..][..n]);
    assert after[..1 + n] == "," + after[1..][..n];
  }

  lemma BraceKeeps(k: string, after: string, t: string)
    requires Closed(k) && after != [] && after[0] == '}'
    requires Squeeze(t) == Squeeze(Trim(after[1..]))
    ensures Squeeze(k + ("}" + t)) == Squeeze(k) + Squeeze(after)
  {
    hide Squeeze, Closed, SpaceLen, Trim;
    var tail := after[1..];
    var rest := Trim(tail);
    var blank := LeadingSpace(tail);
    assert after == "}" + tail;
    PlainClosed(blank);
    SpaceSqueezed(blank);
    SqueezeSplit(blank, rest);
    assert [] + Squeeze(rest) == Squeeze(rest);
    PlainClosed("}");
    SqueezeSplit("}", tail);
    SqueezeSplit("}", t);
    SqueezeSplit(k, "}" + t);
  }

  lemma AfterValueKeeps(k: string, value: string, after: string, t: string, tools: Tools)
    requires Closed(k) && AfterValue(k, value, after, tools).Move?
    requires Squeeze(t) == Squeeze(AfterValue(k, value, after, tools).rest)
    ensures var m := AfterValue(k, value, after, tools); Squeeze(m.kept + (m.close + t)) == Squeeze(k) + Squeeze(after)
  {
    hide Entry, DigestSpan, HasDigestKey, SpaceLen, Trim, Squeeze, Closed;
    assert "" + t == t;
    if after[0] == ',' && HasDigestKey(after[1..]) {
      SpanClosed(after[1..]);
      var n := DigestSpan(after[1..]).length;
      FrontClosed(after, n);
      Cut(after, 1 + n);
      StandingKeeps(k, after[..1 + n], after[1 + n..], t);
    } else if after[0] == '}' {
      BraceKeeps(k, after, t);
    } else {
      SqueezeSplit(k, t);
    }
  }

  /** one turn keeps everything it consumes but whitespace outside strings */
  lemma TurnKeeps(rest: string, t: string, tools: Tools)
    requires Turn(rest, tools).Move?
    requires Squeeze(t) == Squeeze(Turn(rest, tools).rest)
    ensures var m := Turn(rest, tools); Squeeze(m.kept + (m.close + t)) == Squeeze(rest)
  {
    hide Turn, KeyPrefix, WholeValue, AfterValue, Squeeze, Closed;
    var p, w0, value, w, after := TurnShape(rest, tools);
    var k := p + (w0 + value);
    HeadClosed(p, w0, value);
    PlainClosed(w);
    SpaceSqueezed(w);
    Regroup(p, w0, value, w + after);
    SqueezeSplit(k, w + after);
    SqueezeSplit(w, after);
    assert [] + Squeeze(after) == Squeeze(after);
    AfterValueKeeps(k, value, after, t, tools);
  }

  lemma {:induction false} RewriteKeeps(rest: string, tools: Tools)
    requires Rewrite(rest, tools).Some?
    ensures Squeeze(Rewrite(rest, tools).value.kept) == Squeeze(rest)
    decreases |rest|
  {
    hide Turn, Squeeze;
    var m := Turn(rest, tools);
    if m.Move? {
      RewriteKeeps(m.rest, tools);
      TurnKeeps(rest, Rewrite(m.rest, tools).value.kept, tools);
    }
  }

  /** text has, outside any string, a params_schema key and its whole value,
      then the entry with that value's digest, which kept has not */
  predicate OneEntry(text: string, kept: string, front: string, p: string, w: string, value: string, t: string, k: string, tools: Tools) {
    && Closed(front) && KeyPrefix(p) && AllSpace(w) && WholeValue(value)
    && text == front + (p + (w + (value + (Entry(tools.digest(value)) + t))))
    && kept == front + (p + (w + (value + k)))
  }

  /** kept is text without some entries, each the digest of the params_schema value it follows */
  ghost predicate Erases(text: string, kept: string, tools: Tools)
    decreases |text|
  {
    text == kept ||
    exists front, p, w, value, t, k ::
      OneEntry(text, kept, front, p, w, value, t, k, tools) && |t| < |text| && Erases(t, k, tools)
  }

  lemma ErasesNothing(text: string, tools: Tools)
    ensures Erases(text, text, tools)
  {
  }

  lemma ErasesAfter(before: string, text: string, kept: string, tools: Tools)
    requires Erases(text, kept, tools) && Closed(before)
    ensures Erases(before + text, before + kept, tools)
  {
    hide Entry, KeyPrefix, WholeValue, AllSpace, Closed;
    if text != kept {
      var front, p, w, value, t, k :|
        OneEntry(text, kept, front, p, w, value, t, k, tools) && |t| < |text| && Erases(t, k, tools);
      ClosedSplit(before, front);
      var x, y := p + (w + (value + (Entry(tools.digest(value)) + t))), p + (w + (value + k));
      assert before + (front + x) == before + front + x && before + (front + y) == before + front + y;
      assert OneEntry(before + text, before + kept, before + front, p, w, value, t, k, tools);
    }
  }

  lemma ErasesOne(p: string, w: string, value: string, t: string, k: string, tools: Tools)
    requires Erases(t, k, tools) && KeyPrefix(p) && AllSpace(w) && WholeValue(value)
    ensures Erases(p + (w + value) + (Entry(tools.digest(value)) + t), p + (w + value) + k, tools)
  {
    var e := Entry(tools.digest(value));
    var text, kept := p + (w + value) + (e + t), p + (w + value) + k;
    assert |t| < |text|;
    hide Entry, KeyPrefix, WholeValue, AllSpace;
    Regroup(p, w, value, e + t);
    Regroup(p, w, value, k);
    assert [] + (p + (w + (value + (e + t)))) == text && [] + (p + (w + (value + k))) == kept;
    assert OneEntry(text, kept, [], p, w, value, t, k, tools);
  }

  lemma HeadClosed(p: string, w: string, value: string)
    requires KeyPrefix(p) && AllSpace(w) && WholeValue(value)
    ensures Closed(p + (w + value))
  {
    hide Closed, KeyPrefix, WholeValue;
    KeyClosed(p);
    PlainClosed(w);
    ValueClosed(value);
    ClosedSplit(w, value);
    ClosedSplit(p, w + value);
  }

  lemma {:induction false} RewriteInsertsDigests(rest: string, tools: Tools)
    requires Rewrite(rest, tools).Some?
    ensures Erases(Rewrite(rest, tools).value.text, Rewrite(rest, tools).value.kept, tools)
    decreases |rest|
  {
    hide Turn, KeyPrefix, WholeValue, Entry, DigestSpan, HasDigestKey, SpaceLen, Trim, Erases, Closed;
    var m := Turn(rest, tools);
    if m.Move? {
      var r := Rewrite(m.rest, tools).value;
      RewriteInsertsDigests(m.rest, tools);
      var p, w0, value, w, after := TurnShape(rest, tools);
      HeadClosed(p, w0, value);
      CloseShapes(rest, tools);
      PlainClosed(m.close);
      ErasesAfter(m.close, r.text, r.kept, tools);
      if after[0] == ',' && HasDigestKey(after[1..]) {
        var n := DigestSpan(after[1..]).length;
        SpanClosed(after[1..]);
        FrontClosed(after, n);
        ClosedSplit(p + (w0 + value), after[..1 + n]);
        assert "" + (m.close + r.text) == m.close + r.text;
        ErasesAfter(m.kept, m.close + r.text, m.close + r.kept, tools);
      } else {
        ErasesOne(p, w0, value, m.close + r.text, m.close + r.kept, tools);
      }
    } else {
      ErasesNothing(rest, tools);
    }
  }

  /**
   The output differs from the input by inserted entries, each the digest of
   the value it follows, and by whitespace outside strings.
   */
  lemma {:induction false} BackfillKeepsInput(data: string, tools: Tools)
    requires Backfill(data, tools).Some?
    ensures Erases(Backfill(data, tools).value.text, Backfill(data, tools).value.kept, tools)
    ensures Squeeze(Backfill(data, tools).value.kept) == Squeeze(data)
  {
    if Contains(data, KEY) {
      RewriteKeeps(data, tools);
      RewriteInsertsDigests(data, tools);
    }
  }
}
