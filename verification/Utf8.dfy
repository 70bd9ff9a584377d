/**
 UTF-8 (section 3 of RFC 3629). The size limits count its bytes, and texts
 that the policy code sorts are compared by them.
 */
module Utf8 {
  import opened Numbers
  import opened Collation
  import opened KeyOrder
  import opened Caps

  type Octets = seq<int>

  function EncodeChar(c: char): (b: Octets)
    ensures 1 <= |b| <= 4
  {
    var n := c as int;
    if n < 0x80 then [n]
    else if n < 0x800 then [0xC0 + n / 0x40, 0x80 + n % 0x40]
    else if n < 0x10000 then [0xE0 + n / 0x1000, 0x80 + n / 0x40 % 0x40, 0x80 + n % 0x40]
    else [0xF0 + n / 0x40000, 0x80 + n / 0x1000 % 0x40, 0x80 + n / 0x40 % 0x40, 0x80 + n % 0x40]
  }

  function EncodeText(s: string): Octets {
    if s == [] then [] else EncodeChar(s[0]) + EncodeText(s[1..])
  }

  /** the code point at the front and the octets after it */
  function ReadCode(b: Octets): (r: Option<(int, Octets)>)
    ensures r.Some? ==> |r.value.1| < |b|
  {
    if b == [] then None
    else if b[0] < 0x80 then Some((b[0], b[1..]))
    else if 0xC0 <= b[0] < 0xE0 && |b| >= 2 then Some((0x40 * (b[0] - 0xC0) + (b[1] - 0x80), b[2..]))
    else if 0xE0 <= b[0] < 0xF0 && |b| >= 3 then
      Some((0x1000 * (b[0] - 0xE0) + 0x40 * (b[1] - 0x80) + (b[2] - 0x80), b[3..]))
    else if 0xF0 <= b[0] && |b| >= 4 then
      Some((0x40000 * (b[0] - 0xF0) + 0x1000 * (b[1] - 0x80) + 0x40 * (b[2] - 0x80) + (b[3] - 0x80), b[4..]))
    else None
  }

  function DecodeText(b: Octets): Option<string>
    decreases |b|
  {
    if b == [] then Some("")
    else
      var r := ReadCode(b);
      if r.None? || !(0 <= r.value.0 < 0xD800 || 0xE000 <= r.value.0 < 0x110000) then None
      else
        var t := DecodeText(r.value.1);
        if t.None? then None else Some([r.value.0 as char] + t.value)
  }

  lemma ReadCodeOf(c: char, rest: Octets)
    ensures ReadCode(EncodeChar(c) + rest) == Some((c as int, rest))
  {
    var e := EncodeChar(c);
    var b := e + rest;
    Groups(c as int);
    assert b[|e|..] == rest;
    assert forall i :: 0 <= i < |e| ==> b[i] == e[i];
  }

  /** The size of a text is the length of an encoding that can be undone. */
  lemma {:induction false} SizeIsEncodedLength(s: string)
    ensures Bytes(s) == |EncodeText(s)| && DecodeText(EncodeText(s)) == Some(s)
  {
    hide ReadCode;
    if s != [] {
      SizeIsEncodedLength(s[1..]);
      ReadCodeOf(s[0], EncodeText(s[1..]));
      assert s == [s[0]] + s[1..];
    }
  }

  // ---------------------------------------------------------------------
  // Byte order
  // ---------------------------------------------------------------------

  /** a proper prefix comes first; otherwise the first different byte decides */
  predicate BytesBefore(a: Octets, b: Octets) {
    exists n :: 0 <= n <= |a| && n < |b| && a[..n] == b[..n] && (n < |a| ==> a[n] < b[n])
  }

  lemma DecidedAt(a: Octets, b: Octets, n: nat)
    requires n < |a| && n < |b| && a[..n] == b[..n] && a[n] != b[n]
    ensures BytesBefore(a, b) <==> a[n] < b[n]
  {
    assert forall i :: 0 <= i < n ==> a[..n][i] == a[i] && b[..n][i] == b[i];
    if m :| 0 <= m <= |a| && m < |b| && a[..m] == b[..m] && (m < |a| ==> a[m] < b[m]) {
      assert forall i :: 0 <= i < m ==> a[..m][i] == a[i] && b[..m][i] == b[i];
    }
  }

  lemma SameFront(u: Octets, a: Octets, b: Octets)
    ensures BytesBefore(u + a, u + b) <==> BytesBefore(a, b)
  {
    var k := |u|;
    var x, y := u + a, u + b;
    assert forall i :: 0 <= i < k ==> x[i] == y[i];
    if n :| 0 <= n <= |x| && n < |y| && x[..n] == y[..n] && (n < |x| ==> x[n] < y[n]) {
      assert k <= n;
      assert a[..n - k] == x[..n][k..] == y[..n][k..] == b[..n - k];
    }
    if n :| 0 <= n <= |a| && n < |b| && a[..n] == b[..n] && (n < |a| ==> a[n] < b[n]) {
      assert x[..k + n] == u + a[..n] == u + b[..n] == y[..k + n];
    }
  }

  /** a code point by its groups of six bits */
  lemma Groups(n: int)
    requires 0 <= n < 0x110000
    ensures n == 0x40 * (n / 0x40) + n % 0x40
    ensures n / 0x40 == 0x40 * (n / 0x1000) + n / 0x40 % 0x40
    ensures n / 0x1000 == 0x40 * (n / 0x40000) + n / 0x1000 % 0x40
    ensures 0 <= n / 0x40 && 0 <= n / 0x1000 && 0 <= n / 0x40000 <= 4
  {
  }

  /** the leading byte tells the length, and longer encodings are of larger codes */
  lemma LeadingBytes(c: char, d: char)
    requires |EncodeChar(c)| < |EncodeChar(d)|
    ensures EncodeChar(c)[0] < EncodeChar(d)[0] && c as int < d as int
  {
    Groups(c as int);
    Groups(d as int);
  }

  /** a continuation byte carries six bits */
  predicate Continues(b: int) {
    0x80 <= b < 0xC0
  }

  lemma CodeOf(c: char)
    ensures
      var x := EncodeChar(c);
      && (forall i :: 1 <= i < |x| ==> Continues(x[i]))
      && (|x| == 1 ==> c as int == x[0])
      && (|x| == 2 ==> c as int == 0x40 * (x[0] - 0xC0) + (x[1] - 0x80))
      && (|x| == 3 ==> c as int == 0x1000 * (x[0] - 0xE0) + 0x40 * (x[1] - 0x80) + (x[2] - 0x80))
      && (|x| == 4 ==> c as int == 0x40000 * (x[0] - 0xF0) + 0x1000 * (x[1] - 0x80) + 0x40 * (x[2] - 0x80) + (x[3] - 0x80))
  {
    Groups(c as int);
  }

  lemma SameLength(c: char, d: char) returns (n: nat)
    requires c as int < d as int && |EncodeChar(c)| == |EncodeChar(d)|
    ensures n < |EncodeChar(c)| && EncodeChar(c)[..n] == EncodeChar(d)[..n] && EncodeChar(c)[n] < EncodeChar(d)[n]
  {
    hide EncodeChar;
    CodeOf(c);
    CodeOf(d);
    var x, y := EncodeChar(c), EncodeChar(d);
    n := 0;
    if x[0] == y[0] {
      n := 1;
      if x[1] == y[1] {
        n := 2;
        if x[2] == y[2] {
          n := 3;
        }
      }
    }
  }

  /** the encodings of two characters differ at a byte that orders them as their codes do */
  lemma CharsDiffer(c: char, d: char) returns (n: nat)
    requires c != d
    ensures n < |EncodeChar(c)| && n < |EncodeChar(d)| && EncodeChar(c)[..n] == EncodeChar(d)[..n]
    ensures EncodeChar(c)[n] != EncodeChar(d)[n] && (EncodeChar(c)[n] < EncodeChar(d)[n] <==> c as int < d as int)
  {
    hide EncodeChar;
    n := 0;
    if |EncodeChar(c)| < |EncodeChar(d)| {
      LeadingBytes(c, d);
    } else if |EncodeChar(d)| < |EncodeChar(c)| {
      LeadingBytes(d, c);
    } else if c as int < d as int {
      n := SameLength(c, d);
    } else {
      n := SameLength(d, c);
    }
  }

  /** Comparing texts by UTF-8 bytes is comparing them by code points. */
  lemma {:induction false} ByteOrder(a: string, b: string)
    ensures Less(CodePoints, a, b) <==> BytesBefore(EncodeText(a), EncodeText(b))
  {
    hide EncodeChar, CharBefore, Less;
    OrderDecided(CodePoints, a, b);
    var x, y := EncodeText(a), EncodeText(b);
    if b == [] {
    } else if a == [] {
      assert a[..0] == b[..0] && x[..0] == y[..0];
    } else if a[0] == b[0] {
      OrderDecided(CodePoints, a[1..], b[1..]);
      BeforeTail(CodePoints, a, b);
      ByteOrder(a[1..], b[1..]);
      SameFront(EncodeChar(a[0]), EncodeText(a[1..]), EncodeText(b[1..]));
    } else {
      var n := CharsDiffer(a[0], b[0]);
      FirstChars(a, b);
      assert x[..n] == EncodeChar(a[0])[..n] && y[..n] == EncodeChar(b[0])[..n];
      DecidedAt(x, y, n);
    }
  }

  lemma FirstChars(a: string, b: string)
    requires a != [] && b != [] && a[0] != b[0]
    ensures Before(CodePoints, a, b) <==> a[0] as int < b[0] as int
  {
    assert a[..0] == b[..0];
    assert forall n :: 0 < n <= |a| && n <= |b| ==> a[..n][0] != b[..n][0];
  }
}
