/** Capability identifiers: colon-separated segments, an optional trailing "*". */
module Ids {

  function Split(s: string): (parts: seq<string>)
    ensures parts != []
  {
    if s == [] then [""]
    else
      var rest := Split(s[1..]);
      if s[0] == ':' then [""] + rest else [[s[0]] + rest[0]] + rest[1..]
  }

  predicate IsWord(c: char) {
    'a' <= c <= 'z' || 'A' <= c <= 'Z' || '0' <= c <= '9' || c == '-'
  }

  predicate AllWord(s: string) {
    s != [] && forall i :: 0 <= i < |s| ==> IsWord(s[i])
  }

  predicate AllDecimal(s: string) {
    s != [] && forall i :: 0 <= i < |s| ==> '0' <= s[i] <= '9'
  }

  /** vendor "/" product "-v" major */
  predicate ValidScheme(s: string) {
    exists i, j :: 0 <= i < j < |s| - 1 && s[i] == '/' && s[j] == '-' && s[j + 1] == 'v'
                   && AllWord(s[..i]) && AllWord(s[i + 1..j]) && AllDecimal(s[j + 2..])
  }

  predicate HasStar(s: string) {
    exists i :: 0 <= i < |s| && s[i] == '*'
  }

  predicate HasBracket(s: string) {
    exists i :: 0 <= i < |s| && (s[i] == '{' || s[i] == '}' || s[i] == '[' || s[i] == ']')
  }

  predicate ValidId(id: string) {
    var parts := Split(id);
    && id != "" && !HasBracket(id)
    && (forall i :: 0 <= i < |parts| && HasStar(parts[i]) ==> parts[i] == "*" && i == |parts| - 1)
    && |parts| >= 2
    && ValidScheme(parts[0])
  }

  /** scheme and action class: the first two segments */
  function Namespace(id: string): string {
    var parts := Split(id);
    if |parts| < 2 then id else parts[0] + ":" + parts[1]
  }

  predicate CoversParts(g: seq<string>, o: seq<string>)
    requires g != []
  {
    var last := |g| - 1;
    if |g| != |o| then
      g[last] == "*" && |o| > last && forall i :: 0 <= i < last ==> g[i] == o[i]
    else
      && (forall i :: 0 <= i < last ==> g[i] != "*" && g[i] == o[i])
      && (g[last] == "*" || g[last] == o[last])
  }

  /** matchID: same namespace, and every segment covered */
  predicate MatchId(g: string, o: string) {
    Namespace(g) == Namespace(o) && CoversParts(Split(g), Split(o))
  }

  lemma StarOnlyLast(id: string)
    requires ValidId(id)
    ensures forall i :: 0 <= i < |Split(id)| - 1 ==> Split(id)[i] != "*"
  {
    assert HasStar("*") by { assert "*"[0] == '*'; }
  }

  lemma {:induction false} MatchReflexive(id: string)
    requires ValidId(id)
    ensures MatchId(id, id)
  {
    StarOnlyLast(id);
  }

  /** Identifier coverage carries down a chain of valid identifiers. */
  lemma {:induction false} MatchTransitive(a: string, b: string, c: string)
    requires ValidId(b) && MatchId(a, b) && MatchId(b, c)
    ensures MatchId(a, c)
  {
    StarOnlyLast(b);
  }
}
