/**
 The scanning and rewriting loops of the digest backfill.
 */
module BackfillLoops {
  import opened Numbers
  import opened Basics
  import opened SchemaDigest

  method SkipSpace(s: string) returns (t: string)
    ensures t == Trim(s)
  {
    var n := 0;
    while n < |s| && IsSpace(s[n])
      invariant 0 <= n <= |s| && SpaceLen(s) == n + SpaceLen(s[n..])
    {
      n := n + 1;
    }
    t := s[n..];
  }

  method SkipNumber(s: string) returns (t: Option<string>)
    ensures t == if NumberLen(s) == 0 then None else Some(s[NumberLen(s)..])
  {
    var i := 0;
    while i < |s| && IsNumeric(s[i])
      invariant 0 <= i <= |s| && NumberLen(s) == i + NumberLen(s[i..])
    {
      i := i + 1;
    }
    t := if i == 0 then None else Some(s[i..]);
  }

  method SkipString(s: string) returns (t: Option<string>)
    requires s != []
    ensures t == if StringLen(s).None? then None else Some(s[StringLen(s).value..])
  {
    if s[0] != '"' {
      return None;
    }
    var i := 1;
    while i < |s|
      invariant 1 <= i <= |s| + 1
      invariant Closing(s[1..]) == if i <= |s| then Further(i - 1, Closing(s[i..])) else None
    {
      if s[i] == '\\' {
        i := i + 1;
      } else if s[i] == '"' {
        return Some(s[i + 1..]);
      }
      i := i + 1;
    }
    return None;
  }

  /** the index just past the string at i */
  method StringEnd(s: string, i: nat) returns (end: Option<nat>)
    requires i < |s|
    ensures end == Further(i, StringLen(s[i..]))
  {
    hide StringLen;
    var rest := SkipString(s[i..]);
    end := if rest.None? then None else Some(|s| - |rest.value|);
  }

  lemma NestStep(s: string, i: nat, open: char, close: char, depth: nat)
    requires open != close && open != '"' && close != '"' && i < |s|
    ensures s[i] == open ==> NestLen(s[i..], open, close, depth) == Further(1, NestLen(s[i + 1..], open, close, depth + 1))
    ensures s[i] == close && depth <= 1 ==> NestLen(s[i..], open, close, depth) == Some(1)
    ensures s[i] == close && depth > 1 ==>
      NestLen(s[i..], open, close, depth) == Further(1, NestLen(s[i + 1..], open, close, depth - 1))
    ensures s[i] == '"' && StringLen(s[i..]).None? ==> NestLen(s[i..], open, close, depth).None?
    ensures s[i] == '"' && StringLen(s[i..]).Some? ==> var n := StringLen(s[i..]).value;
      NestLen(s[i..], open, close, depth) == Further(n, NestLen(s[i + n..], open, close, depth))
    ensures s[i] != open && s[i] != close && s[i] != '"' ==>
      NestLen(s[i..], open, close, depth) == Further(1, NestLen(s[i + 1..], open, close, depth))
  {
    hide StringLen;
    assert s[i..][1..] == s[i + 1..];
    if StringLen(s[i..]).Some? {
      assert s[i..][StringLen(s[i..]).value..] == s[i + StringLen(s[i..]).value..];
    }
  }

  lemma NestEnds(open: char, close: char, depth: nat)
    requires open != close && open != '"' && close != '"'
    ensures NestLen([], open, close, depth) == None
  {
  }

  lemma NothingToFind()
    ensures FindKey([]) == Missing
  {
  }

  lemma NoValue()
    ensures ValueLen([]) == None
  {
  }

  /** a scan either ends or goes on from a later position */
  datatype Scan<R> = Ended(result: R) | Going(next: nat, depth: nat)

  /** one round of skipObject and skipArray */
  method NestRound(s: string, i: nat, open: char, close: char, depth: nat) returns (r: Scan<Option<nat>>)
    requires open != close && open != '"' && close != '"' && i < |s| && (depth > 0 || s[i] == open)
    ensures r.Ended? ==> NestLen(s[i..], open, close, depth) == r.result
    ensures r.Going? ==> i < r.next <= |s| && r.depth > 0
    ensures r.Going? ==> NestLen(s[i..], open, close, depth) == Further(r.next - i, NestLen(s[r.next..], open, close, r.depth))
  {
    hide NestLen, StringLen;
    NestStep(s, i, open, close, depth);
    if s[i] == open {
      return Going(i + 1, depth + 1);
    }
    if s[i] == close {
      return if depth == 1 then Ended(Some(1)) else Going(i + 1, depth - 1);
    }
    if s[i] != '"' {
      return Going(i + 1, depth);
    }
    var end := StringEnd(s, i);
    return if end.None? then Ended(None) else Going(end.value, depth);
  }

  /** skipObject and skipArray */
  method SkipNested(s: string, open: char, close: char) returns (t: Option<string>)
    requires open != close && open != '"' && close != '"'
    requires s != [] && s[0] == open
    ensures var n := NestLen(s, open, close, 0); t == if n.None? then None else Some(s[n.value..])
  {
    hide NestLen;
    var depth, i := 0, 0;
    assert s[0..] == s;
    while i < |s|
      invariant 0 <= i <= |s| && (i > 0 ==> depth > 0)
      invariant NestLen(s, open, close, 0) == Further(i, NestLen(s[i..], open, close, depth))
      decreases |s| - i
    {
      var round := NestRound(s, i, open, close, depth);
      if round.Ended? {
        return if round.result.None? then None else Some(s[i + round.result.value..]);
      }
      i, depth := round.next, round.depth;
    }
    assert s[i..] == [];
    NestEnds(open, close, depth);
    return None;
  }

  method SkipValue(s: string) returns (t: Option<string>)
    ensures var n := ValueLen(s); t == if n.None? then None else Some(s[n.value..])
  {
    hide NestLen, StringLen, NumberLen;
    if s == [] {
      return None;
    }
    match s[0]
    case '{' => t := SkipNested(s, '{', '}');
    case '[' => t := SkipNested(s, '[', ']');
    case '"' => t := SkipString(s);
    case 't' => t := if HasPrefix(s, "true") then Some(s[4..]) else None;
    case 'f' => t := if HasPrefix(s, "false") then Some(s[5..]) else None;
    case 'n' => t := if HasPrefix(s, "null") then Some(s[4..]) else None;
    case _ => t := SkipNumber(s);
  }

  predicate KeyHere(s: string, i: nat, n: nat)
    requires i + n <= |s|
  {
    s[i..i + n] == KEY && Trim(s[i + n..]) != [] && Trim(s[i + n..])[0] == ':'
  }

  lemma FindStep(s: string, i: nat)
    requires i < |s|
    ensures s[i] != '"' ==> FindKey(s[i..]) == Shift(1, FindKey(s[i + 1..]))
    ensures s[i] == '"' && StringLen(s[i..]).None? ==> FindKey(s[i..]) == Broken
    ensures s[i] == '"' && StringLen(s[i..]).Some? ==> var n := StringLen(s[i..]).value;
      FindKey(s[i..]) == if KeyHere(s, i, n) then At(|s| - i - |Trim(s[i + n..])|) else Shift(n, FindKey(s[i + n..]))
  {
    hide StringLen, SpaceLen, Trim;
    assert s[i..][1..] == s[i + 1..];
    if StringLen(s[i..]).Some? {
      var n := StringLen(s[i..]).value;
      assert s[i..][n..] == s[i + n..] && s[i..][..n] == s[i..i + n];
    }
  }

  method KeyAt(s: string, i: nat, n: nat) returns (r: Option<Search>)
    requires i + n <= |s|
    ensures r == if KeyHere(s, i, n) then Some(At(|s| - |Trim(s[i + n..])|)) else None
  {
    hide SpaceLen, Trim;
    if s[i..i + n] == KEY {
      var after := SkipSpace(s[i + n..]);
      if after != [] && after[0] == ':' {
        return Some(At(|s| - |after|));
      }
    }
    return None;
  }

  method FindRound(s: string, i: nat) returns (r: Scan<Search>)
    requires i < |s|
    ensures r.Ended? ==> Shift(i, FindKey(s[i..])) == r.result
    ensures r.Going? ==> i < r.next <= |s| && FindKey(s[i..]) == Shift(r.next - i, FindKey(s[r.next..]))
  {
    hide StringLen, SpaceLen, Trim, FindKey, KeyHere;
    FindStep(s, i);
    if s[i] != '"' {
      return Going(i + 1, 0);
    }
    var end := StringEnd(s, i);
    if end.None? {
      return Ended(Broken);
    }
    var found := KeyAt(s, i, end.value - i);
    return if found.Some? then Ended(found.value) else Going(end.value, 0);
  }

  method FindParamsSchemaKey(s: string) returns (r: Search)
    ensures r == FindKey(s)
  {
    hide FindKey;
    var i := 0;
    assert s[0..] == s;
    while i < |s|
      invariant 0 <= i <= |s| && FindKey(s) == Shift(i, FindKey(s[i..]))
      decreases |s| - i
    {
      var round := FindRound(s, i);
      if round.Ended? {
        return round.result;
      }
      i := round.next;
    }
    assert s[i..] == [];
    NothingToFind();
    return Missing;
  }

  method BackfillParamsSchemaDigests(data: string, tools: Tools) returns (r: Option<string>)
    ensures var o := Backfill(data, tools); r == if o.None? then None else Some(o.value.text)
  {
    hide Turn, Contains;
    if !Contains(data, KEY) {
      return Some(data);
    }
    var out, rest := "", data;
    while true
      invariant Rewrite(data, tools).Some? <==> Rewrite(rest, tools).Some?
      invariant Rewrite(rest, tools).Some? ==> Rewrite(data, tools).value.text == out + Rewrite(rest, tools).value.text
      decreases |rest|
    {
      var step := TakeTurn(rest, tools);
      match step
      case Reject => return None;
      case Finish => return Some(out + rest);
      case Move(kept, inserted, close, more) =>
        ghost var t := if Rewrite(more, tools).Some? then Rewrite(more, tools).value.text else "";
        assert out + (kept + (inserted + (close + t))) == out + kept + inserted + close + t;
        out := out + kept + inserted + close;
        rest := more;
    }
  }

  /** the body of the loop, with what it writes set apart */
  method TakeTurn(rest: string, tools: Tools) returns (r: Step)
    ensures r == Turn(rest, tools)
  {
    hide FindKey, SpaceLen, Trim, AtValue;
    var key := FindParamsSchemaKey(rest);
    if key.Broken? {
      return Reject;
    }
    if key.Missing? {
      return Finish;
    }
    var v := SkipSpace(rest[key.colon + 1..]);
    r := TakeValue(rest, v, tools);
  }

  method TakeValue(rest: string, v: string, tools: Tools) returns (r: Step)
    requires |v| <= |rest|
    ensures r == AtValue(rest, v, tools)
  {
    hide ValueLen, SpaceLen, Trim, AfterValue;
    if v == [] {
      NoValue();
      return Reject;
    }
    var end := SkipValue(v);
    if end.None? {
      return Reject;
    }
    var after := SkipSpace(end.value);
    r := FollowValue(rest[..|rest| - |end.value|], v[..|v| - |end.value|], after, tools);
  }

  method ReadDigestSpan(s: string, key: string) returns (r: Span)
    requires key == Trim(s) && HasPrefix(key, DIGEST_KEY)
    ensures r == DigestSpan(s)
  {
    hide ValueLen, SpaceLen, Trim;
    var colon := SkipSpace(key[|DIGEST_KEY|..]);
    if colon == [] || colon[0] != ':' {
      return NoSpan;
    }
    var v := SkipSpace(colon[1..]);
    var end := SkipValue(v);
    if end.None? {
      return NoSpan;
    }
    return Span(|s| - |end.value|, v[..|v| - |end.value|]);
  }

  method FollowValue(kept: string, value: string, after: string, tools: Tools) returns (r: Step)
    ensures r == AfterValue(kept, value, after, tools)
  {
    hide ValueLen, SpaceLen, Trim, Entry, DigestSpan;
    var digest := tools.digest(value);
    if after == [] || (after[0] != ',' && after[0] != '}') {
      return Reject;
    }
    var next := SkipSpace(after[1..]);
    if after[0] == ',' && HasPrefix(next, DIGEST_KEY) {
      var span := ReadDigestSpan(after[1..], next);
      if span.NoSpan? || tools.decode(span.raw) != Some(digest) {
        return Reject;
      }
      return Move(kept + after[..1 + span.length], "", "", after[1 + span.length..]);
    }
    if after[0] == '}' {
      return Move(kept, Entry(digest), "}", next);
    }
    return Move(kept, Entry(digest), "", after);
  }
}
