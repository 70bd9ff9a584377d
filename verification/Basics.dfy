/** Small definitions that several modules share. */
module Basics {
  import opened Numbers

  function Max(a: int, b: int): int {
    if a < b then b else a
  }

  /** the blanks of JSON text and of requirement expressions */
  predicate IsSpace(c: char) {
    c == ' ' || c == '\t' || c == '\n' || c == '\r'
  }

  function HexDigit(n: int): (c: char)
    requires 0 <= n < 16
    ensures c != ':'
  {
    if n < 10 then ('0' as int + n) as char else ('a' as int + n - 10) as char
  }

  /** token lists end to end, unless one of them failed */
  function Append<T>(a: Option<seq<T>>, b: Option<seq<T>>): Option<seq<T>> {
    if a.Some? && b.Some? then Some(a.value + b.value) else None
  }

  lemma AppendSome<T>(a: seq<T>, b: Option<seq<T>>, c: Option<seq<T>>)
    ensures Append(Append(Some(a), b), c) == Append(Some(a), Append(b, c))
  {
    if b.Some? && c.Some? {
      assert a + b.value + c.value == a + (b.value + c.value);
    }
  }

  /** as many keys, all of them shared: the same keys */
  lemma SameKeySets<V>(a: map<string, V>, b: map<string, V>)
    requires |a| == |b| && forall k :: k in a ==> k in b
    ensures a.Keys == b.Keys
  {
    assert a.Keys <= b.Keys && |a.Keys| == |b.Keys|;
    assert |b.Keys| == |a.Keys| + |b.Keys - a.Keys|;
  }
}
