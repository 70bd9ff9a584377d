/**
 Insertion of params_schema_digest entries into a capability document, byte by
 byte: the scanners, one step of the rewriting, and the whole rewriting.
 */
module SchemaDigest {
  import opened Numbers
  import opened Basics

  const KEY := "\"params_schema\""
  const DIGEST_KEY := "\"params_schema_digest\""

  // ---------------------------------------------------------------------
  // Scanners
  // ---------------------------------------------------------------------

  predicate IsNumeric(c: char) {
    '0' <= c <= '9' || c == '-' || c == '+' || c == '.' || c == 'e' || c == 'E'
  }

  /** length of the whitespace at the front */
  function SpaceLen(s: string): (n: nat)
    ensures n <= |s|
  {
    if s == [] || !IsSpace(s[0]) then 0 else 1 + SpaceLen(s[1..])
  }

  /** skipJSONSpace */
  function Trim(s: string): (t: string)
    ensures |t| <= |s|
  {
    s[SpaceLen(s)..]
  }

  function NumberLen(s: string): (n: nat)
    ensures n <= |s|
  {
    if s == [] || !IsNumeric(s[0]) then 0 else 1 + NumberLen(s[1..])
  }

  function Further(n: nat, r: Option<nat>): Option<nat> {
    if r.None? then None else Some(n + r.value)
  }

  /** from inside a string, the length up to and including its closing quote */
  function Closing(s: string): (r: Option<nat>)
    ensures r.Some? ==> 0 < r.value <= |s|
    decreases |s|
  {
    if s == [] then None
    else if s[0] == '\\' then if |s| == 1 then None else Further(2, Closing(s[2..]))
    else if s[0] == '"' then Some(1)
    else Further(1, Closing(s[1..]))
  }

  function StringLen(s: string): (r: Option<nat>)
    ensures r.Some? ==> 0 < r.value <= |s|
  {
    if s == [] || s[0] != '"' then None else Further(1, Closing(s[1..]))
  }

  /** with depth brackets open, the length up to the bracket that closes the last */
  function NestLen(s: string, open: char, close: char, depth: nat): (r: Option<nat>)
    requires open != close && open != '"' && close != '"'
    ensures r.Some? ==> 0 < r.value <= |s|
    decreases |s|
  {
    if s == [] then None
    else if s[0] == open then Further(1, NestLen(s[1..], open, close, depth + 1))
    else if s[0] == close then
      if depth <= 1 then Some(1) else Further(1, NestLen(s[1..], open, close, depth - 1))
    else if s[0] == '"' then
      var n := StringLen(s);
      if n.None? then None else Further(n.value, NestLen(s[n.value..], open, close, depth))
    else Further(1, NestLen(s[1..], open, close, depth))
  }

  predicate HasPrefix(s: string, p: string) {
    |p| <= |s| && s[..|p|] == p
  }

  function LiteralLen(s: string, word: string): Option<nat> {
    if HasPrefix(s, word) then Some(|word|) else None
  }

  function ValueLen(s: string): (r: Option<nat>)
    ensures r.Some? ==> 0 < r.value <= |s|
  {
    if s == [] then None
    else if s[0] == '{' then NestLen(s, '{', '}', 0)
    else if s[0] == '[' then NestLen(s, '[', ']', 0)
    else if s[0] == '"' then StringLen(s)
    else if s[0] == 't' then LiteralLen(s, "true")
    else if s[0] == 'f' then LiteralLen(s, "false")
    else if s[0] == 'n' then LiteralLen(s, "null")
    else if NumberLen(s) == 0 then None else Some(NumberLen(s))
  }

  datatype Search = Broken | Missing | At(colon: nat)

  function Shift(n: nat, r: Search): Search {
    if r.At? then At(n + r.colon) else r
  }

  /** where the colon stands, when the first n bytes are the key and a colon follows it */
  function ColonAfterKey(s: string, n: nat): (r: Option<nat>)
    requires n <= |s|
    ensures r.Some? ==> r.value < |s| && s[r.value] == ':'
  {
    var after := Trim(s[n..]);
    if s[..n] == KEY && after != [] && after[0] == ':' then Some(|s| - |after|) else None
  }

  /** the colon after the first params_schema key outside string values */
  function FindKey(s: string): (r: Search)
    ensures r.At? ==> r.colon < |s| && s[r.colon] == ':'
    decreases |s|
  {
    if s == [] then Missing
    else if s[0] != '"' then Shift(1, FindKey(s[1..]))
    else
      var n := StringLen(s);
      if n.None? then Broken
      else
        var colon := ColonAfterKey(s, n.value);
        if colon.Some? then At(colon.value) else Shift(n.value, FindKey(s[n.value..]))
  }

  // ---------------------------------------------------------------------
  // The rewriting
  // ---------------------------------------------------------------------

  /** digest of a raw value, and decoding of a stored JSON string */
  datatype Tools = Tools(digest: string -> string, decode: string -> Option<string>)

  function Entry(digest: string): string {
    "," + (" " + (DIGEST_KEY + (":" + (" " + ("\"" + (digest + "\""))))))
  }

  datatype Span = NoSpan | Span(length: nat, raw: string)

  /** the text from the value of the digest entry at the front of s */
  function DigestValue(s: string): (r: Option<string>)
    ensures r.Some? ==> |r.value| <= |s|
  {
    var key := Trim(s);
    if !HasPrefix(key, DIGEST_KEY) then None
    else
      var a := key[|DIGEST_KEY|..];
      var colon := Trim(a);
      if colon == [] || colon[0] != ':' then None
      else
        var b := colon[1..];
        Some(Trim(b))
  }

  /** the digest entry at the front of s: its whole length and its raw value */
  function DigestSpan(s: string): (r: Span)
    ensures r.Span? ==> r.length <= |s|
  {
    var v := DigestValue(s);
    if v.None? then NoSpan
    else
      var n := ValueLen(v.value);
      if n.None? then NoSpan else Span(|s| - |v.value| + n.value, v.value[..n.value])
  }

  predicate HasDigestKey(s: string) {
    HasPrefix(Trim(s), DIGEST_KEY)
  }

  /** one turn of the loop: text kept, text inserted, text kept after it, text still to do */
  datatype Step = Finish | Reject | Move(kept: string, inserted: string, close: string, rest: string)

  /** what follows a params_schema value, whose text and all before it is `kept` */
  function AfterValue(kept: string, value: string, after: string, tools: Tools): (r: Step)
    ensures r.Move? ==> |r.rest| <= |after|
  {
    if after == [] || (after[0] != ',' && after[0] != '}') then Reject
    else if after[0] == ',' && HasDigestKey(after[1..]) then
      var span := DigestSpan(after[1..]);
      if span.NoSpan? || tools.decode(span.raw) != Some(tools.digest(value)) then Reject
      else Move(kept + after[..1 + span.length], "", "", after[1 + span.length..])
    else if after[0] == '}' then
      Move(kept, Entry(tools.digest(value)), "}", Trim(after[1..]))
    else Move(kept, Entry(tools.digest(value)), "", after)
  }

  /** the value at v, the tail of rest that follows a params_schema key */
  function AtValue(rest: string, v: string, tools: Tools): (r: Step)
    requires |v| <= |rest|
    ensures r.Move? ==> |r.rest| <= |v|
  {
    var n := ValueLen(v);
    if n.None? then Reject
    else
      var end := v[n.value..];
      AfterValue(rest[..|rest| - |end|], v[..|v| - |end|], Trim(end), tools)
  }

  function Turn(rest: string, tools: Tools): (r: Step)
    ensures r.Move? ==> |r.rest| < |rest|
  {
    var key := FindKey(rest);
    if key.Broken? then Reject
    else if key.Missing? then Finish
    else AtValue(rest, Trim(rest[key.colon + 1..]), tools)
  }

  /** what is written, and what of it was already there */
  datatype Output = Output(text: string, kept: string)

  function Rewrite(rest: string, tools: Tools): Option<Output>
    decreases |rest|
  {
    match Turn(rest, tools)
    case Reject => None
    case Finish => Some(Output(rest, rest))
    case Move(kept, inserted, close, more) =>
      var r := Rewrite(more, tools);
      if r.None? then None
      else Some(Output(kept + (inserted + (close + r.value.text)), kept + (close + r.value.kept)))
  }

  predicate Contains(s: string, p: string) {
    exists i :: 0 <= i <= |s| && HasPrefix(s[i..], p)
  }

  /** BackfillParamsSchemaDigests */
  function Backfill(data: string, tools: Tools): Option<Output> {
    if !Contains(data, KEY) then Some(Output(data, data)) else Rewrite(data, tools)
  }

  // ---------------------------------------------------------------------
  // Scanners look no further than what they consume
  // ---------------------------------------------------------------------

  lemma Dropped(a: string, b: string)
    ensures (a + b)[|a|..] == b && (a + b)[..|a|] == a
  {
  }

  lemma SkipFront(a: string, b: string, n: nat)
    requires n <= |a|
    ensures (a + b)[n..] == a[n..] + b
  {
  }

  lemma {:induction false} ClosingStable(a: string, u: string, v: string)
    requires Closing(a + u) == Some(|a|)
    ensures Closing(a + v) == Some(|a|)
    decreases |a|
  {
    if a == [] {
      assert false;
    } else if a[0] == '\\' {
      if |a| == 1 {
        assert false;
      } else {
        SkipFront(a, u, 2);
        SkipFront(a, v, 2);
        ClosingStable(a[2..], u, v);
      }
    } else if a[0] != '"' {
      SkipFront(a, u, 1);
      SkipFront(a, v, 1);
      ClosingStable(a[1..], u, v);
    }
  }

  lemma StringStable(a: string, u: string, v: string)
    requires StringLen(a + u) == Some(|a|)
    ensures StringLen(a + v) == Some(|a|)
  {
    SkipFront(a, u, 1);
    SkipFront(a, v, 1);
    ClosingStable(a[1..], u, v);
  }

  lemma {:induction false} NestStable(a: string, u: string, v: string, open: char, close: char, depth: nat)
    requires open != close && open != '"' && close != '"'
    requires NestLen(a + u, open, close, depth) == Some(|a|)
    ensures NestLen(a + v, open, close, depth) == Some(|a|)
    decreases |a|
  {
    hide StringLen;
    if a == [] {
      assert false;
    } else if a[0] == '"' {
      var n := StringLen(a + u).value;
      var rest := (a + u)[n..];
      assert NestLen(rest, open, close, depth).Some?;
      assert n <= |a|;
      assert a + u == a[..n] + (a[n..] + u) && a + v == a[..n] + (a[n..] + v);
      StringStable(a[..n], a[n..] + u, a[n..] + v);
      SkipFront(a, u, n);
      SkipFront(a, v, n);
      NestStable(a[n..], u, v, open, close, depth);
    } else {
      SkipFront(a, u, 1);
      SkipFront(a, v, 1);
      if a[0] == open {
        NestStable(a[1..], u, v, open, close, depth + 1);
      } else if a[0] == close {
        if depth > 1 { NestStable(a[1..], u, v, open, close, depth - 1); }
      } else {
        NestStable(a[1..], u, v, open, close, depth);
      }
    }
  }

  predicate StopsNumber(t: string) {
    t == [] || !IsNumeric(t[0])
  }

  lemma {:induction false} NumberRun(s: string)
    ensures forall i :: 0 <= i < NumberLen(s) ==> IsNumeric(s[i])
  {
    if s != [] && IsNumeric(s[0]) {
      NumberRun(s[1..]);
    }
  }

  lemma {:induction false} NumberLenOf(a: string, v: string)
    requires forall i :: 0 <= i < |a| ==> IsNumeric(a[i])
    requires StopsNumber(v)
    ensures NumberLen(a + v) == |a|
  {
    if a == [] {
      assert a + v == v;
    } else {
      SkipFront(a, v, 1);
      NumberLenOf(a[1..], v);
    }
  }

  lemma ValueStable(a: string, u: string, v: string)
    requires ValueLen(a + u) == Some(|a|)
    requires StopsNumber(v) || StringLen(a + u).Some?
    ensures ValueLen(a + v) == Some(|a|)
  {
    hide NestLen, Closing, NumberLen;
    assert a != [] && a[0] == (a + u)[0] == (a + v)[0];
    SkipFront(a, u, 1);
    SkipFront(a, v, 1);
    Dropped(a, u);
    Dropped(a, v);
    if a[0] == '{' {
      NestStable(a, u, v, '{', '}', 0);
    } else if a[0] == '[' {
      NestStable(a, u, v, '[', ']', 0);
    } else if a[0] == '"' {
      StringStable(a, u, v);
    } else if a[0] != 't' && a[0] != 'f' && a[0] != 'n' {
      NumberRun(a + u);
      assert forall i :: 0 <= i < |a| ==> a[i] == (a + u)[i];
      NumberLenOf(a, v);
    }
  }

  lemma {:induction false} SpaceLenOf(a: string, v: string)
    requires forall i :: 0 <= i < |a| ==> IsSpace(a[i])
    requires v == [] || !IsSpace(v[0])
    ensures SpaceLen(a + v) == |a| && Trim(a + v) == v
  {
    if a == [] {
      assert a + v == v;
    } else {
      SkipFront(a, v, 1);
      SpaceLenOf(a[1..], v);
    }
  }

  /** text that ends with the colon of its first params_schema key */
  predicate KeyPrefix(p: string) {
    p != [] && FindKey(p) == At(|p| - 1)
  }

  /** FindKey at a string of length n */
  lemma FindAtString(s: string, n: nat)
    requires s != [] && s[0] == '"' && StringLen(s) == Some(n)
    ensures
      var rest := s[n..];
      var after := Trim(rest);
      FindKey(s) == if s[..n] == KEY && after != [] && after[0] == ':' then At(|s| - |after|) else Shift(n, FindKey(rest))
  {
    hide StringLen, Trim;
  }

  /** a string that ends inside p is the same whatever follows p */
  lemma StringInside(p: string, u: string, v: string, n: nat)
    requires n <= |p| && StringLen(p + u) == Some(n)
    ensures StringLen(p + v) == Some(n) && (p + v)[..n] == p[..n] && (p + v)[n..] == p[n..] + v
    ensures (p + u)[..n] == p[..n] && (p + u)[n..] == p[n..] + u
  {
    hide StringLen;
    assert p + u == p[..n] + (p[n..] + u) && p + v == p[..n] + (p[n..] + v);
    StringStable(p[..n], p[n..] + u, p[n..] + v);
  }

  /** FindKey steps over a byte that opens no string */
  lemma FindPastOther(p: string, u: string)
    requires p != [] && p[0] != '"'
    ensures FindKey(p + u) == Shift(1, FindKey(p[1..] + u))
    ensures FindKey(p + u) == At(|p| - 1) ==> |p| > 1 && FindKey(p[1..] + u) == At(|p| - 2)
    ensures |p| > 1 && FindKey(p[1..] + u) == At(|p| - 2) ==> FindKey(p + u) == At(|p| - 1)
  {
    SkipFront(p, u, 1);
    hide StringLen, SpaceLen, Trim;
  }

  /** a string at the front ends before the colon that the search stops at */
  lemma FindInside(p: string, u: string) returns (n: nat)
    requires p != [] && p[0] == '"' && FindKey(p + u) == At(|p| - 1)
    ensures n < |p| && StringLen(p + u) == Some(n) && p[|p| - 1] == ':'
  {
    hide StringLen, Trim;
    n := StringLen(p + u).value;
    FindAtString(p + u, n);
    assert (p + u)[|p| - 1] == p[|p| - 1];
  }

  /** the first n bytes are the key, followed by a colon */
  predicate Keyed(p: string, n: nat)
    requires n <= |p|
  {
    p[..n] == KEY && Trim(p[n..]) != [] && Trim(p[n..])[0] == ':'
  }

  /** FindKey at a string that ends before the colon p ends with */
  lemma FindPastString(p: string, u: string, n: nat)
    requires n < |p| && p[0] == '"' && p[|p| - 1] == ':' && StringLen(p + u) == Some(n)
    ensures FindKey(p + u) == At(|p| - 1) <==>
            if Keyed(p, n) then |Trim(p[n..])| == 1 else FindKey(p[n..] + u) == At(|p| - n - 1)
  {
    hide FindKey, StringLen, Trim;
    SkipFront(p, u, n);
    FindAtString(p + u, n);
    assert (p + u)[..n] == p[..n];
    TrimStable(p[n..], u, |p| - 1 - n);
  }

  lemma {:induction false} FindStable(p: string, u: string, v: string)
    requires p != [] && FindKey(p + u) == At(|p| - 1)
    ensures FindKey(p + v) == At(|p| - 1)
    decreases |p|
  {
    if p[0] != '"' {
      FindPastOther(p, u);
      FindPastOther(p, v);
      hide *;
      FindStable(p[1..], u, v);
    } else {
      var n := FindInside(p, u);
      hide FindKey, StringLen, Trim;
      StringInside(p, u, v, n);
      FindPastString(p, u, n);
      FindPastString(p, v, n);
      if !Keyed(p, n) {
        FindStable(p[n..], u, v);
      }
    }
  }

  /** whitespace stops inside a, at or before the non-blank at k */
  lemma {:induction false} TrimStable(a: string, u: string, k: nat)
    requires k < |a| && !IsSpace(a[k])
    ensures Trim(a + u) == Trim(a) + u && |a| - k <= |Trim(a)|
  {
    if IsSpace(a[0]) {
      SkipFront(a, u, 1);
      TrimStable(a[1..], u, k - 1);
      assert Trim(a) == Trim(a[1..]) && Trim(a + u) == Trim(a[1..] + u);
    }
  }

  lemma {:induction false} FoundPrefix(s: string)
    requires FindKey(s).At?
    ensures KeyPrefix(s[..FindKey(s).colon + 1])
  {
    var p, u := s[..FindKey(s).colon + 1], s[FindKey(s).colon + 1..];
    assert s == p + u && p + [] == p;
    FindStable(p, u, []);
  }

  // ---------------------------------------------------------------------
  // Running again changes nothing
  // ---------------------------------------------------------------------

  predicate AllSpace(s: string) {
    forall i :: 0 <= i < |s| ==> IsSpace(s[i])
  }

  /** a complete string literal */
  predicate WholeString(raw: string) {
    StringLen(raw) == Some(|raw|)
  }

  predicate WholeValue(value: string) {
    ValueLen(value) == Some(|value|)
  }

  function Glue(w1: string, w2: string, w3: string, raw: string, t: string): string {
    w1 + (DIGEST_KEY + (w2 + (":" + (w3 + (raw + t)))))
  }

  lemma WholeStringThen(raw: string, t: string)
    requires WholeString(raw)
    ensures ValueLen(raw + t) == Some(|raw|) && !IsSpace((raw + t)[0])
  {
    assert raw + [] == raw;
    StringStable(raw, [], t);
  }

  lemma SpanOf(w1: string, w2: string, w3: string, raw: string, t: string)
    requires AllSpace(w1) && AllSpace(w2) && AllSpace(w3) && WholeString(raw)
    ensures var s := Glue(w1, w2, w3, raw, t);
      HasDigestKey(s) && DigestSpan(s) == Span(|s| - |t|, raw) && s[|s| - |t|..] == t
  {
    hide SpaceLen, Trim, ValueLen, StringLen;
    var v := raw + t;
    var colon := ":" + (w3 + v);
    var key := DIGEST_KEY + (w2 + colon);
    WholeStringThen(raw, t);
    SpaceLenOf(w3, v);
    SpaceLenOf(w2, colon);
    SpaceLenOf(w1, key);
    Dropped(DIGEST_KEY, w2 + colon);
    Dropped(":", w3 + v);
    Dropped(raw, t);
    var s := Glue(w1, w2, w3, raw, t);
    assert s[|s| - |t|..] == t;
  }

  /** every digest entry has this shape */
  lemma SpanShape(s: string) returns (w1: string, w2: string, w3: string)
    requires DigestSpan(s).Span?
    ensures AllSpace(w1) && AllSpace(w2) && AllSpace(w3)
    ensures s == Glue(w1, w2, w3, DigestSpan(s).raw, s[DigestSpan(s).length..])
    ensures ValueLen(DigestSpan(s).raw + s[DigestSpan(s).length..]) == Some(|DigestSpan(s).raw|)
  {
    hide ValueLen, DigestValue, AllSpace, Glue;
    var v := DigestValue(s).value;
    w1, w2, w3 := DigestValueShape(s);
    SpanParts(s, w1, w2, w3, v, ValueLen(v).value);
  }

  lemma {:induction false} LeadingSpace(s: string) returns (w: string)
    ensures AllSpace(w) && s == w + Trim(s)
    ensures Trim(s) != [] ==> !IsSpace(Trim(s)[0])
  {
    if s == [] || !IsSpace(s[0]) {
      w := [];
    } else {
      var rest := LeadingSpace(s[1..]);
      w := [s[0]] + rest;
      assert s == [s[0]] + s[1..] && Trim(s) == Trim(s[1..]);
    }
  }

  lemma DigestValueShape(s: string) returns (w1: string, w2: string, w3: string)
    requires DigestValue(s).Some?
    ensures AllSpace(w1) && AllSpace(w2) && AllSpace(w3)
    ensures s == w1 + (DIGEST_KEY + (w2 + (":" + (w3 + DigestValue(s).value))))
  {
    hide SpaceLen, Trim, AllSpace;
    var key := Trim(s);
    var a := key[|DIGEST_KEY|..];
    var colon := Trim(a);
    var b := colon[1..];
    var v := Trim(b);
    assert DigestValue(s) == Some(v) && key[..|DIGEST_KEY|] == DIGEST_KEY && colon[..1] == ":";
    hide DigestValue, HasPrefix;
    w1 := LeadingSpace(s);
    Cut(key, |DIGEST_KEY|);
    w2 := LeadingSpace(a);
    Cut(colon, 1);
    w3 := LeadingSpace(b);
  }

  lemma SpanParts(s: string, w1: string, w2: string, w3: string, v: string, n: nat)
    requires n <= |v| && s == w1 + (DIGEST_KEY + (w2 + (":" + (w3 + v))))
    ensures s[|s| - |v| + n..] == v[n..]
    ensures s == Glue(w1, w2, w3, v[..n], v[n..]) && v[..n] + v[n..] == v
  {
    Cut(v, n);
    CutDeep(s, v, n);
  }

  lemma Cut(s: string, n: nat)
    requires n <= |s|
    ensures s == s[..n] + s[n..]
  {
  }

  lemma CutDeep(s: string, v: string, n: nat)
    requires |v| <= |s| && v == s[|s| - |v|..] && n <= |v|
    ensures s[|s| - |v| + n..] == v[n..]
  {
  }

  predicate IsHex(c: char) {
    '0' <= c <= '9' || 'a' <= c <= 'f'
  }

  /** what a JSON decoder and a hexadecimal digest provide: a digest is not
      empty and is read back from quotes, and of the values the scanner cuts out
      only strings decode to a non-empty text */
  ghost predicate Sound(tools: Tools) {
    && (forall v :: tools.digest(v) != "" && forall i :: 0 <= i < |tools.digest(v)| ==> IsHex(tools.digest(v)[i]))
    && (forall v :: tools.decode(Quoted(tools.digest(v))) == Some(tools.digest(v)))
    && (forall raw :: WholeValue(raw) && tools.decode(raw).Some? && tools.decode(raw).value != "" ==> raw[0] == '"')
  }

  function Quoted(d: string): string {
    "\"" + (d + "\"")
  }

  lemma {:induction false} ClosingOfHex(d: string)
    requires forall i :: 0 <= i < |d| ==> IsHex(d[i])
    ensures Closing(d + "\"") == Some(|d| + 1)
  {
    if d != [] {
      assert (d + "\"")[0] == d[0] && IsHex(d[0]);
      SkipFront(d, "\"", 1);
      ClosingOfHex(d[1..]);
    }
  }

  lemma QuotedIsWhole(d: string)
    requires forall i :: 0 <= i < |d| ==> IsHex(d[i])
    ensures WholeString(Quoted(d))
  {
    ClosingOfHex(d);
    assert Quoted(d)[1..] == d + "\"";
  }

  lemma Regroup(a: string, b: string, c: string, d: string)
    ensures a + (b + (c + d)) == (a + (b + c)) + d == (a + b) + (c + d)
  {
    assert b + (c + d) == (b + c) + d;
  }

  lemma ValueThen(value: string, after: string)
    requires WholeValue(value) && StopsNumber(after)
    ensures value != [] && ValueLen(value + after) == Some(|value|) && !IsSpace((value + after)[0])
  {
    hide NestLen, StringLen, NumberLen;
    assert value + [] == value;
    ValueStable(value, [], after);
    NumberRun(value);
  }

  lemma KeyThen(p: string, t: string)
    requires KeyPrefix(p)
    ensures FindKey(p + t) == At(|p| - 1) && (p + t)[|p|..] == t
  {
    hide FindKey;
    assert p + [] == p;
    FindStable(p, [], t);
  }

  /** a key, its value, and a terminator right after it take one turn to the terminator */
  lemma TurnThrough(p: string, w0: string, value: string, after: string, tools: Tools)
    requires KeyPrefix(p) && AllSpace(w0) && WholeValue(value)
    requires after != [] && !IsSpace(after[0]) && !IsNumeric(after[0])
    ensures Turn(p + (w0 + (value + after)), tools) == AfterValue(p + (w0 + value), value, after, tools)
  {
    hide FindKey, ValueLen, SpaceLen, Trim, AfterValue, WholeValue, KeyPrefix;
    var v := value + after;
    var rest := p + (w0 + v);
    KeyThen(p, w0 + v);
    ValueThen(value, after);
    SpaceLenOf(w0, v);
    Dropped(value, after);
    Regroup(p, w0, value, after);
    Dropped(p + (w0 + value), after);
    assert Trim(after) == after by { SpaceLenOf([], after); assert [] + after == after; }
    assert rest[..|rest| - |after|] == p + (w0 + value);
  }

  /** every turn that moves has this shape */
  lemma TurnShape(rest: string, tools: Tools) returns (p: string, w0: string, value: string, w: string, after: string)
    requires Turn(rest, tools).Move?
    ensures rest == p + (w0 + (value + (w + after)))
    ensures KeyPrefix(p) && AllSpace(w0) && WholeValue(value) && AllSpace(w)
    ensures Turn(rest, tools) == AfterValue(p + (w0 + value), value, after, tools)
  {
    hide FindKey, ValueLen, SpaceLen, Trim, AfterValue;
    var k := FindKey(rest).colon + 1;
    var tail := rest[k..];
    var v := Trim(tail);
    var n := ValueLen(v).value;
    var end := v[n..];
    FoundPrefix(rest);
    p, value, after := rest[..k], v[..n], Trim(end);
    w0 := LeadingSpace(tail);
    w := LeadingSpace(end);
    assert |v| - |end| == n;
    Cut(rest, k);
    Cut(v, n);
    ValueStable(value, end, []);
    assert value + [] == value;
    Regroup(p, w0, value, end);
    Dropped(p + (w0 + value), end);
  }

  /** a key whose digest entry stands and agrees is passed over unchanged */
  lemma TurnPasses(p: string, w0: string, value: string, w1: string, w2: string, w3: string, raw: string, t: string, tools: Tools)
    requires KeyPrefix(p) && AllSpace(w0) && WholeValue(value)
    requires AllSpace(w1) && AllSpace(w2) && AllSpace(w3) && WholeString(raw)
    requires tools.decode(raw) == Some(tools.digest(value))
    ensures Turn(p + (w0 + (value + ("," + Glue(w1, w2, w3, raw, t)))), tools)
         == Move(p + (w0 + value) + ("," + Glue(w1, w2, w3, raw, "")), "", "", t)
  {
    hide FindKey, ValueLen, SpaceLen, Trim, KeyPrefix, WholeValue, Turn, HasDigestKey, DigestSpan, StringLen, Glue;
    var s := Glue(w1, w2, w3, raw, t);
    var after := "," + s;
    TurnThrough(p, w0, value, after, tools);
    SpanOf(w1, w2, w3, raw, t);
    GlueSplit(w1, w2, w3, raw, t);
    Dropped(",", s);
    Dropped("," + Glue(w1, w2, w3, raw, ""), t);
    assert after == "," + Glue(w1, w2, w3, raw, "") + t;
  }

  lemma GlueSplit(w1: string, w2: string, w3: string, raw: string, t: string)
    ensures Glue(w1, w2, w3, raw, t) == Glue(w1, w2, w3, raw, "") + t
  {
    assert raw + "" == raw;
    assert w3 + (raw + t) == w3 + raw + t;
    assert ":" + (w3 + raw + t) == ":" + (w3 + raw) + t;
    assert w2 + (":" + (w3 + raw) + t) == w2 + (":" + (w3 + raw)) + t;
    assert DIGEST_KEY + (w2 + (":" + (w3 + raw)) + t) == DIGEST_KEY + (w2 + (":" + (w3 + raw))) + t;
  }

  lemma EntryIsGlue(d: string, t: string)
    ensures Entry(d) + t == "," + Glue(" ", "", " ", Quoted(d), t)
    ensures Entry(d) == "," + Glue(" ", "", " ", Quoted(d), "")
  {
    assert Entry(d) == "," + Glue(" ", "", " ", Quoted(d), "") by {
      assert Quoted(d) + "" == Quoted(d) && "" + (":" + (" " + Quoted(d))) == ":" + (" " + Quoted(d));
    }
    GlueSplit(" ", "", " ", Quoted(d), t);
  }
}
