/**
 A reader for role names: base64url text, a big-endian length before each
 part, and the parts in the order from, relation, to.
 */
module RoleReader {
  import opened Numbers
  import opened BindingRoles

  // ---------------------------------------------------------------------
  // Base64url (section 5 of RFC 4648)
  // ---------------------------------------------------------------------

  /** the six bits a letter stands for */
  function LetterValue(c: char): (n: int)
    ensures 0 <= n < 64
  {
    if 'A' <= c <= 'Z' then c as int - 'A' as int
    else if 'a' <= c <= 'z' then 26 + (c as int - 'a' as int)
    else if '0' <= c <= '9' then 52 + (c as int - '0' as int)
    else if c == '-' then 62 else 63
  }

  lemma LetterValueOf(n: int)
    requires 0 <= n < 64
    ensures LetterValue(Letter(n)) == n
  {
  }

  /** the bits of up to four letters, first letter highest, cut into whole bytes */
  function ReadBase64(s: string): Option<Bytes> {
    if s == "" then Some([])
    else if |s| == 1 then None
    else if |s| == 2 then
      var n := 64 * LetterValue(s[0]) + LetterValue(s[1]);
      Some([n / 16])
    else if |s| == 3 then
      var n := 4096 * LetterValue(s[0]) + 64 * LetterValue(s[1]) + LetterValue(s[2]);
      Some([n / 1024, n / 4 % 256])
    else
      var n := 262144 * LetterValue(s[0]) + 4096 * LetterValue(s[1]) + 64 * LetterValue(s[2]) + LetterValue(s[3]);
      var rest := ReadBase64(s[4..]);
      if rest.None? then None else Some([n / 65536, n / 256 % 256, n % 256] + rest.value)
  }

  lemma GroupBits(a: int, b: int, c: int)
    requires 0 <= a < 256 && 0 <= b < 256 && 0 <= c < 256
    ensures
      var g := Group(a, b, c);
      && 262144 * LetterValue(g[0]) + 4096 * LetterValue(g[1]) + 64 * LetterValue(g[2]) + LetterValue(g[3])
         == 65536 * a + 256 * b + c
      && 4096 * LetterValue(g[0]) + 64 * LetterValue(g[1]) + LetterValue(g[2]) == 1024 * a + 4 * b + c / 64
      && 64 * LetterValue(g[0]) + LetterValue(g[1]) == 16 * a + b / 16
  {
    LetterValueOf(a / 4);
    LetterValueOf(a % 4 * 16 + b / 16);
    LetterValueOf(b % 16 * 4 + c / 64);
    LetterValueOf(c % 64);
    hide LetterValue, Letter;
  }

  lemma Bytewise(a: int, b: int, c: int, n: int)
    requires 0 <= a < 256 && 0 <= b < 256 && 0 <= c < 256 && n == 65536 * a + 256 * b + c
    ensures n / 65536 == a && n / 256 % 256 == b && n % 256 == c
  {
    assert n / 256 == 256 * a + b;
  }

  lemma ReadOne(a: int)
    requires 0 <= a < 256
    ensures ReadBase64(Group(a, 0, 0)[..2]) == Some([a])
  {
    hide Group, LetterValue;
    GroupBits(a, 0, 0);
    var g := Group(a, 0, 0);
    assert g[..2][0] == g[0] && g[..2][1] == g[1];
  }

  lemma TwoBytes(a: int, b: int, n: int)
    requires 0 <= a < 256 && 0 <= b < 256 && n == 1024 * a + 4 * b
    ensures n / 1024 == a && n / 4 % 256 == b
  {
    assert n / 4 == 256 * a + b;
  }

  lemma ReadTwo(a: int, b: int)
    requires 0 <= a < 256 && 0 <= b < 256
    ensures ReadBase64(Group(a, b, 0)[..3]) == Some([a, b])
  {
    hide Group, LetterValue;
    GroupBits(a, b, 0);
    TwoBytes(a, b, 1024 * a + 4 * b);
    var g := Group(a, b, 0);
    assert g[..3][0] == g[0] && g[..3][1] == g[1] && g[..3][2] == g[2];
  }

  lemma ReadThree(s: string, a: int, b: int, c: int, rest: Bytes)
    requires 0 <= a < 256 && 0 <= b < 256 && 0 <= c < 256
    requires |s| >= 4 && s[..4] == Group(a, b, c) && ReadBase64(s[4..]) == Some(rest)
    ensures ReadBase64(s) == Some([a, b, c] + rest)
  {
    hide Group, LetterValue;
    GroupBits(a, b, c);
    Bytewise(a, b, c, 65536 * a + 256 * b + c);
    assert s[0] == s[..4][0] && s[1] == s[..4][1] && s[2] == s[..4][2] && s[3] == s[..4][3];
  }

  lemma {:induction false} ReadBase64Of(b: Bytes)
    requires AllBytes(b)
    ensures ReadBase64(Base64(b)) == Some(b)
  {
    hide Group, ReadBase64, Base64;
    Base64Short(b);
    if |b| == 0 {
      NoLetters();
    } else if |b| == 1 {
      ReadOne(b[0]);
      assert b == [b[0]];
    } else if |b| == 2 {
      ReadTwo(b[0], b[1]);
      assert b == [b[0], b[1]];
    } else {
      Base64Long(b);
      ReadBase64Of(b[3..]);
      ReadThree(Base64(b), b[0], b[1], b[2], b[3..]);
      assert b == [b[0], b[1], b[2]] + b[3..];
    }
  }

  lemma NoLetters()
    ensures Base64([]) == "" && ReadBase64("") == Some([])
  {
  }

  // ---------------------------------------------------------------------
  // The payload
  // ---------------------------------------------------------------------

  function Text(b: Bytes): string
    requires AllBytes(b)
  {
    seq(|b|, i requires 0 <= i < |b| => b[i] as char)
  }

  /** a length of four bytes, most significant first, then so many characters */
  function ReadPart(b: Bytes): Option<(string, Bytes)>
    requires AllBytes(b)
  {
    if |b| < 4 then None
    else
      var n := 16777216 * b[0] + 65536 * b[1] + 256 * b[2] + b[3];
      if |b| < 4 + n then None else Some((Text(b[4..4 + n]), b[4 + n..]))
  }

  lemma TextOfOctets(s: string)
    requires Encodable(s)
    ensures AllBytes(Octets(s)) && Text(Octets(s)) == s
  {
  }

  lemma BigEndianValue(n: nat)
    requires n < 0x1_0000_0000
    ensures var b := BigEndian(n); n == 16777216 * b[0] + 65536 * b[1] + 256 * b[2] + b[3]
  {
  }

  lemma ReadPartOf(s: string, rest: Bytes)
    requires Encodable(s) && AllBytes(rest)
    ensures AllBytes(Part(s) + rest) && ReadPart(Part(s) + rest) == Some((s, rest))
  {
    var b := Part(s) + rest;
    BigEndianValue(|s|);
    TextOfOctets(s);
    hide BigEndian, Text;
    var n := |s|;
    var head := BigEndian(n);
    assert b[0] == head[0] && b[1] == head[1] && b[2] == head[2] && b[3] == head[3];
    assert b[4..4 + n] == Octets(s) && b[4 + n..] == rest;
  }

  function ReadPayload(b: Bytes): Option<Binding>
    requires AllBytes(b)
  {
    var from := ReadPart(b);
    if from.None? then None else
    var relation := ReadPart(from.value.1);
    if relation.None? then None else
    var to := ReadPart(relation.value.1);
    if to.None? || to.value.1 != [] then None
    else Some(Binding(from.value.0, relation.value.0, to.value.0))
  }

  function ReadRole(role: string): Option<Binding> {
    if !("clc:evidence-binding:" <= role) then None
    else
      var payload := ReadBase64(role[|"clc:evidence-binding:"|..]);
      if payload.None? || !AllBytes(payload.value) then None else ReadPayload(payload.value)
  }

  lemma ReadPayloadOf(b: Binding)
    requires EncodableBinding(b)
    ensures AllBytes(Payload(b)) && ReadPayload(Payload(b)) == Some(b)
  {
    hide Part, Encodable, ReadPart;
    PayloadBytes(b);
    ReadPartOf(b.toType, []);
    ReadPartOf(b.relation, Part(b.toType) + []);
    ReadPartOf(b.fromType, Part(b.relation) + (Part(b.toType) + []));
  }

  /** A role name reads back to the binding it was made for. */
  lemma {:induction false} ReadUndoesRoleName(b: Binding)
    requires RoleName(b).Some?
    ensures ReadRole(RoleName(b).value) == Some(b)
  {
    PayloadBytes(b);
    ReadPayloadOf(b);
    ReadBase64Of(Payload(b));
    hide Base64, Payload, EncodableBinding, ReadPayload, ReadBase64, AllBytes;
    var role := RoleName(b).value;
    assert role[|PREFIX|..] == Base64(Payload(b));
  }
}
