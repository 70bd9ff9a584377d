/**
 After a backfill every params_schema key of the document is followed by the
 digest of its value, and nothing is inserted exactly where that already held.
 */
module BackfillComplete {
  import opened Numbers
  import opened SchemaDigest
  import opened BackfillRuns
  import opened BackfillTight

  /** each params_schema key the scanner finds has a value followed by a digest entry that matches it */
  predicate AllDigested(t: string, tools: Tools)
    decreases |t|
  {
    var key := FindKey(t);
    key.At? ==>
      var v := Trim(t[key.colon + 1..]);
      var n := ValueLen(v);
      n.Some? &&
      var after := Trim(v[n.value..]);
      after != [] && after[0] == ',' && HasDigestKey(after[1..]) &&
      var span := DigestSpan(after[1..]);
      span.Span? && tools.decode(span.raw) == Some(tools.digest(v[..n.value])) &&
      AllDigested(after[1 + span.length..], tools)
  }

  /** a turn either passes a matching entry or inserts one */
  lemma TurnDigests(t: string, tools: Tools)
    requires Turn(t, tools).Move?
    ensures var m := Turn(t, tools); AllDigested(t, tools) <==> m.inserted == "" && AllDigested(m.rest, tools)
  {
    hide FindKey, ValueLen, Trim, DigestSpan, HasDigestKey, Entry;
    var v := Trim(t[FindKey(t).colon + 1..]);
    var n := ValueLen(v).value;
    assert v[..|v| - |v[n..]|] == v[..n];
    EntryNotEmpty(tools.digest(v[..n]));
  }

  lemma EntryNotEmpty(d: string)
    ensures Entry(d) != ""
  {
  }

  lemma {:induction false} RewriteInserts(t: string, tools: Tools)
    requires Rewrite(t, tools).Some?
    ensures var o := Rewrite(t, tools).value; |o.kept| <= |o.text| && (AllDigested(t, tools) <==> |o.kept| == |o.text|)
    decreases |t|
  {
    hide Turn, AllDigested;
    var m := Turn(t, tools);
    if m.Move? {
      RewriteInserts(m.rest, tools);
      TurnDigests(t, tools);
    } else {
      NoKeyLeft(t, tools);
    }
  }

  lemma NoKeyLeft(t: string, tools: Tools)
    requires Turn(t, tools).Finish?
    ensures AllDigested(t, tools)
  {
    hide FindKey, ValueLen, Trim, DigestSpan, HasDigestKey, Entry;
  }

  /** A backfill inserts nothing exactly when every params_schema key already has the digest of its value. */
  lemma {:induction false} InsertsExactly(data: string, tools: Tools)
    requires Backfill(data, tools).Some?
    ensures var o := Backfill(data, tools).value; AllDigested(data, tools) <==> o.text == o.kept
  {
    hide Rewrite, FindKey;
    if Contains(data, KEY) {
      RewriteInserts(data, tools);
      KeptOrLonger(data, tools);
    } else if FindKey(data).At? {
      FoundIsContained(data);
    }
  }

  lemma {:induction false} KeptOrLonger(t: string, tools: Tools)
    requires Rewrite(t, tools).Some?
    ensures var o := Rewrite(t, tools).value; |o.kept| == |o.text| ==> o.kept == o.text
    decreases |t|
  {
    hide Turn, AllDigested;
    var m := Turn(t, tools);
    if m.Move? {
      RewriteInserts(m.rest, tools);
      KeptOrLonger(m.rest, tools);
      var r := Rewrite(m.rest, tools).value;
      if |m.kept + (m.close + r.kept)| == |m.kept + (m.inserted + (m.close + r.text))| {
        assert m.inserted == "";
        assert "" + (m.close + r.text) == m.close + r.text;
      }
    }
  }

  /** In the output of a backfill every params_schema key has the digest of its value. */
  lemma {:induction false} EveryKeyDigested(data: string, tools: Tools)
    requires Sound(tools) && Backfill(data, tools).Some?
    ensures AllDigested(Backfill(data, tools).value.text, tools)
  {
    hide Backfill, AllDigested, Sound;
    BackfillIdempotent(data, tools);
    InsertsExactly(Backfill(data, tools).value.text, tools);
  }

  /** what makes a document unfit: a broken string before the next key; a value
      that is missing, broken or followed by neither comma nor brace; a digest
      entry that is broken or does not match; or any of these further on */
  predicate Unfit(t: string, tools: Tools)
    decreases |t|
  {
    var key := FindKey(t);
    || key.Broken?
    || (key.At? &&
        var v := Trim(t[key.colon + 1..]);
        var n := ValueLen(v);
        n.None? ||
        var after := Trim(v[n.value..]);
        if after == [] then true
        else if after[0] == ',' then
          if HasDigestKey(after[1..]) then
            var span := DigestSpan(after[1..]);
            || span.NoSpan? || tools.decode(span.raw) != Some(tools.digest(v[..n.value]))
            || Unfit(after[1 + span.length..], tools)
          else Unfit(after, tools)
        else if after[0] == '}' then Unfit(Trim(after[1..]), tools)
        else true)
  }

  lemma TurnFit(t: string, tools: Tools)
    ensures var m := Turn(t, tools); Unfit(t, tools) <==> m.Reject? || (m.Move? && Unfit(m.rest, tools))
  {
    hide FindKey, ValueLen, Trim, DigestSpan, HasDigestKey, Entry;
    if FindKey(t).At? {
      var v := Trim(t[FindKey(t).colon + 1..]);
      if ValueLen(v).Some? {
        var n := ValueLen(v).value;
        assert v[..|v| - |v[n..]|] == v[..n];
      }
    }
  }

  lemma {:induction false} RewriteFit(t: string, tools: Tools)
    ensures Rewrite(t, tools).None? <==> Unfit(t, tools)
    decreases |t|
  {
    hide Turn, Unfit;
    TurnFit(t, tools);
    var m := Turn(t, tools);
    if m.Move? {
      RewriteFit(m.rest, tools);
    }
  }

  /** A backfill is refused exactly for a document that mentions the key and is unfit. */
  lemma {:induction false} RefusedExactly(data: string, tools: Tools)
    ensures Backfill(data, tools).None? <==> Contains(data, KEY) && Unfit(data, tools)
  {
    hide Rewrite, Unfit, Contains;
    RewriteFit(data, tools);
  }
}
