/**
 The role name of a required binding: a reversible encoding of the ordered
 triple, so that two different bindings never share a role.
 */
module BindingRoles {
  import opened Numbers
  import opened Requirements
  import opened RequirementText

  type Bytes = seq<int>

  predicate AllBytes(b: Bytes) {
    forall i :: 0 <= i < |b| ==> 0 <= b[i] < 256
  }

  datatype Binding = Binding(fromType: string, relation: string, toType: string)

  const PREFIX := "clc:evidence-binding:"
  const MAX_ROLE: nat := 256

  /** the AEC identifier alphabet, which is also that of requirement identifiers */
  predicate IsIdentifier(s: string) {
    s != [] && forall i :: 0 <= i < |s| ==> IsIdentChar(s[i])
  }

  predicate Encodable(s: string) {
    |s| <= MAX_ROLE && IsIdentifier(s)
  }

  // ---------------------------------------------------------------------
  // The length-prefixed payload
  // ---------------------------------------------------------------------

  function BigEndian(n: nat): (b: Bytes)
    requires n < 0x1_0000_0000
    ensures |b| == 4 && AllBytes(b)
  {
    var high := n / 256;
    [high / 256 / 256, high / 256 % 256, high % 256, n % 256]
  }

  lemma BigEndianInjective(m: nat, n: nat)
    requires m < 0x1_0000_0000 && n < 0x1_0000_0000 && BigEndian(m) == BigEndian(n)
    ensures m == n
  {
    assert BigEndian(m)[0] == BigEndian(n)[0] && BigEndian(m)[1] == BigEndian(n)[1];
    assert BigEndian(m)[2] == BigEndian(n)[2] && BigEndian(m)[3] == BigEndian(n)[3];
  }

  function Octets(s: string): Bytes {
    seq(|s|, i requires 0 <= i < |s| => s[i] as int)
  }

  function Part(s: string): Bytes
    requires Encodable(s)
  {
    BigEndian(|s|) + Octets(s)
  }

  lemma OctetsInjective(s: string, t: string)
    requires Octets(s) == Octets(t)
    ensures s == t
  {
    assert |s| == |Octets(s)| == |t|;
    forall i | 0 <= i < |s| ensures s[i] == t[i] {
      assert Octets(s)[i] == Octets(t)[i];
    }
  }

  /** the length in front tells where a part ends */
  lemma PartPrefixFree(s: string, t: string, x: Bytes, y: Bytes)
    requires Encodable(s) && Encodable(t) && Part(s) + x == Part(t) + y
    ensures s == t && x == y
  {
    assert |s| <= MAX_ROLE && |t| <= MAX_ROLE;
    hide BigEndian, Octets, Encodable;
    var a, b := Part(s) + x, Part(t) + y;
    assert a[..4] == BigEndian(|s|) && b[..4] == BigEndian(|t|);
    BigEndianInjective(|s|, |t|);
    var n := 4 + |s|;
    OctetsLength(s);
    OctetsLength(t);
    assert a[4..n] == Octets(s) && b[4..n] == Octets(t);
    OctetsInjective(s, t);
    assert a[n..] == x && b[n..] == y;
  }

  lemma OctetsLength(s: string)
    ensures |Octets(s)| == |s|
  {
  }

  function Payload(b: Binding): Bytes
    requires Encodable(b.fromType) && Encodable(b.relation) && Encodable(b.toType)
  {
    Part(b.fromType) + (Part(b.relation) + (Part(b.toType) + []))
  }

  predicate EncodableBinding(b: Binding) {
    Encodable(b.fromType) && Encodable(b.relation) && Encodable(b.toType)
  }

  lemma PayloadInjective(a: Binding, b: Binding)
    requires EncodableBinding(a) && EncodableBinding(b) && Payload(a) == Payload(b)
    ensures a == b
  {
    hide Part, Encodable;
    PartPrefixFree(a.fromType, b.fromType, Part(a.relation) + (Part(a.toType) + []), Part(b.relation) + (Part(b.toType) + []));
    PartPrefixFree(a.relation, b.relation, Part(a.toType) + [], Part(b.toType) + []);
    PartPrefixFree(a.toType, b.toType, [], []);
  }

  // ---------------------------------------------------------------------
  // Base64url without padding (section 5 of RFC 4648)
  // ---------------------------------------------------------------------

  function Letter(n: int): (c: char)
    requires 0 <= n < 64
    ensures IsIdentChar(c)
  {
    if n < 26 then ('A' as int + n) as char
    else if n < 52 then ('a' as int + n - 26) as char
    else if n < 62 then ('0' as int + n - 52) as char
    else if n == 62 then '-' else '_'
  }

  lemma LetterInjective(m: int, n: int)
    requires 0 <= m < 64 && 0 <= n < 64 && Letter(m) == Letter(n)
    ensures m == n
  {
  }

  function Group(a: int, b: int, c: int): (s: string)
    requires 0 <= a < 256 && 0 <= b < 256 && 0 <= c < 256
    ensures |s| == 4 && forall i :: 0 <= i < 4 ==> IsIdentChar(s[i])
  {
    [Letter(a / 4), Letter(a % 4 * 16 + b / 16), Letter(b % 16 * 4 + c / 64), Letter(c % 64)]
  }

  lemma GroupInjective(a: int, b: int, c: int, x: int, y: int, z: int)
    requires 0 <= a < 256 && 0 <= b < 256 && 0 <= c < 256 && 0 <= x < 256 && 0 <= y < 256 && 0 <= z < 256
    requires Group(a, b, c) == Group(x, y, z)
    ensures a == x && b == y && c == z
  {
    var g, h := Group(a, b, c), Group(x, y, z);
    assert g[0] == h[0] && g[1] == h[1] && g[2] == h[2] && g[3] == h[3];
    LetterInjective(a / 4, x / 4);
    LetterInjective(a % 4 * 16 + b / 16, x % 4 * 16 + y / 16);
    LetterInjective(b % 16 * 4 + c / 64, y % 16 * 4 + z / 64);
    LetterInjective(c % 64, z % 64);
    hide Letter;
  }

  /** a last group of one or two bytes is written with two or three letters */
  function Base64(b: Bytes): (s: string)
    requires AllBytes(b)
    ensures forall i :: 0 <= i < |s| ==> IsIdentChar(s[i])
    ensures |s| == 4 * (|b| / 3) + (if |b| % 3 == 0 then 0 else |b| % 3 + 1)
  {
    if b == [] then ""
    else if |b| == 1 then Group(b[0], 0, 0)[..2]
    else if |b| == 2 then Group(b[0], b[1], 0)[..3]
    else Group(b[0], b[1], b[2]) + Base64(b[3..])
  }

  lemma Base64Long(b: Bytes)
    requires AllBytes(b) && |b| >= 3
    ensures AllBytes(b[3..]) && |Base64(b)| >= 4
    ensures Base64(b)[..4] == Group(b[0], b[1], b[2]) && Base64(b)[4..] == Base64(b[3..])
  {
    hide Group;
  }

  lemma Base64Short(b: Bytes)
    requires AllBytes(b)
    ensures |b| == 1 ==> Base64(b) == Group(b[0], 0, 0)[..2]
    ensures |b| == 2 ==> Base64(b) == Group(b[0], b[1], 0)[..3]
  {
    hide Group;
  }

  lemma {:induction false} Base64Injective(a: Bytes, b: Bytes)
    requires AllBytes(a) && AllBytes(b) && Base64(a) == Base64(b)
    ensures a == b
    decreases |a|
  {
    hide Base64, Group;
    SameLength(|a|, |b|);
    Base64Short(a);
    Base64Short(b);
    if |a| == 1 {
      TwoLetters(a[0], b[0]);
    } else if |a| == 2 {
      ThreeLetters(a[0], a[1], b[0], b[1]);
    } else if |a| >= 3 {
      Base64Long(a);
      Base64Long(b);
      GroupInjective(a[0], a[1], a[2], b[0], b[1], b[2]);
      Base64Injective(a[3..], b[3..]);
      assert a == [a[0], a[1], a[2]] + a[3..] && b == [b[0], b[1], b[2]] + b[3..];
    }
  }

  lemma SameLength(m: nat, n: nat)
    requires 4 * (m / 3) + (if m % 3 == 0 then 0 else m % 3 + 1) == 4 * (n / 3) + (if n % 3 == 0 then 0 else n % 3 + 1)
    ensures m == n
  {
  }

  lemma TwoLetters(a: int, x: int)
    requires 0 <= a < 256 && 0 <= x < 256 && Group(a, 0, 0)[..2] == Group(x, 0, 0)[..2]
    ensures a == x
  {
    var g, h := Group(a, 0, 0), Group(x, 0, 0);
    assert g[0] == g[..2][0] == h[..2][0] == h[0] && g[1] == g[..2][1] == h[..2][1] == h[1];
    LetterInjective(a / 4, x / 4);
    LetterInjective(a % 4 * 16, x % 4 * 16);
    hide Letter;
  }

  lemma ThreeLetters(a: int, b: int, x: int, y: int)
    requires 0 <= a < 256 && 0 <= b < 256 && 0 <= x < 256 && 0 <= y < 256
    requires Group(a, b, 0)[..3] == Group(x, y, 0)[..3]
    ensures a == x && b == y
  {
    var g, h := Group(a, b, 0), Group(x, y, 0);
    assert g[0] == g[..3][0] == h[..3][0] == h[0] && g[1] == g[..3][1] == h[..3][1] == h[1];
    assert g[2] == g[..3][2] == h[..3][2] == h[2];
    LetterInjective(a / 4, x / 4);
    LetterInjective(a % 4 * 16 + b / 16, x % 4 * 16 + y / 16);
    LetterInjective(b % 16 * 4, y % 16 * 4);
    hide Letter;
  }

  // ---------------------------------------------------------------------
  // Role names
  // ---------------------------------------------------------------------

  lemma {:induction false} PayloadBytes(b: Binding)
    requires EncodableBinding(b)
    ensures AllBytes(Payload(b))
  {
    hide BigEndian;
    PartBytes(b.fromType);
    PartBytes(b.relation);
    PartBytes(b.toType);
    hide Part;
  }

  lemma PartBytes(s: string)
    requires Encodable(s)
    ensures AllBytes(Part(s))
  {
    hide BigEndian;
  }

  function RoleName(b: Binding): Option<string> {
    if !EncodableBinding(b) then None
    else
      PayloadBytes(b);
      var role := PREFIX + Base64(Payload(b));
      if |role| > MAX_ROLE then None else Some(role)
  }

  /** Two bindings share a role only when they are the same triple. */
  lemma {:induction false} RoleNameInjective(a: Binding, b: Binding)
    requires RoleName(a).Some? && RoleName(a) == RoleName(b)
    ensures a == b
  {
    PayloadBytes(a);
    PayloadBytes(b);
    hide Base64, Payload, EncodableBinding;
    var x, y := Base64(Payload(a)), Base64(Payload(b));
    assert (PREFIX + x)[|PREFIX|..] == x && (PREFIX + y)[|PREFIX|..] == y;
    Base64Injective(Payload(a), Payload(b));
    PayloadInjective(a, b);
  }

  lemma PrefixIsIdentifier()
    ensures forall i :: 0 <= i < |PREFIX| ==> IsIdentChar(PREFIX[i])
  {
  }

  /** a role name is one identifier of the requirement language */
  lemma RoleNameIsRole(b: Binding)
    requires RoleName(b).Some?
    ensures IsRole(RoleName(b).value)
  {
    PayloadBytes(b);
    hide Payload, EncodableBinding, Base64;
    PrefixIsIdentifier();
    var role := RoleName(b).value;
    assert role[0] == 'c';
    assert OperatorOf(role).None?;
  }

  function AllParts(parts: seq<string>): Bytes
    requires forall i :: 0 <= i < |parts| ==> Encodable(parts[i])
  {
    if parts == [] then [] else AllParts(parts[..|parts| - 1]) + Part(parts[|parts| - 1])
  }

  lemma ThreeParts(b: Binding)
    requires EncodableBinding(b)
    ensures AllParts([b.fromType, b.relation, b.toType]) == Payload(b)
  {
    hide Part, Encodable;
    var x, y, z := b.fromType, b.relation, b.toType;
    assert [x, y, z][..2] == [x, y] && [x, y][..1] == [x] && [x][..0] == [];
    assert AllParts([x]) == Part(x);
    assert AllParts([x, y]) == Part(x) + Part(y);
    assert Part(x) + Part(y) + Part(z) == Part(x) + (Part(y) + (Part(z) + []));
  }

  /** the loop that refuses, and the loop that appends length-prefixed parts */
  method EncodeParts(parts: seq<string>) returns (payload: Option<Bytes>)
    ensures payload.Some? <==> forall i :: 0 <= i < |parts| ==> Encodable(parts[i])
    ensures payload.Some? ==> payload.value == AllParts(parts)
  {
    hide Encodable, Part;
    for i := 0 to |parts|
      invariant forall j :: 0 <= j < i ==> Encodable(parts[j])
    {
      if !Encodable(parts[i]) {
        return None;
      }
    }
    var bytes: Bytes := [];
    for i := 0 to |parts|
      invariant bytes == AllParts(parts[..i])
    {
      assert parts[..i + 1][..i] == parts[..i];
      bytes := bytes + Part(parts[i]);
    }
    assert parts[..|parts|] == parts;
    payload := Some(bytes);
  }

  /** BindingRoleName */
  method BindingRoleName(b: Binding) returns (role: Option<string>)
    ensures role == RoleName(b)
  {
    hide Encodable, Part, Payload, AllParts;
    var parts := [b.fromType, b.relation, b.toType];
    assert parts[0] == b.fromType && parts[1] == b.relation && parts[2] == b.toType;
    var payload := EncodeParts(parts);
    if payload.None? {
      return None;
    }
    assert EncodableBinding(b);
    ThreeParts(b);
    PayloadBytes(b);
    hide Base64;
    var text := PREFIX + Base64(payload.value);
    role := if |text| > MAX_ROLE then None else Some(text);
  }

  /** Each required binding of a met projection is present under a role no other binding has. */
  lemma {:induction false} BindingsRequired(e: string, bindings: seq<Binding>, roles: seq<string>, x: Expr, present: string -> bool)
    requires |roles| == |bindings| && forall i :: 0 <= i < |bindings| ==> RoleName(bindings[i]) == Some(roles[i])
    requires ParseText(Wrap(e, FirstOnly(roles))) == Some(x) && Eval(x, present)
    ensures forall i :: 0 <= i < |bindings| ==> present(roles[i])
    ensures forall i, j :: 0 <= i < |bindings| && 0 <= j < |bindings| ==> (roles[i] == roles[j] <==> bindings[i] == bindings[j])
  {
    hide RoleName, IsRole, ParseText, Wrap;
    forall i | 0 <= i < |roles| ensures IsRole(roles[i]) {
      RoleNameIsRole(bindings[i]);
    }
    ProjectionRequiresBindings(e, roles, x, present);
    forall i, j | 0 <= i < |bindings| && 0 <= j < |bindings| && roles[i] == roles[j] ensures bindings[i] == bindings[j] {
      RoleNameInjective(bindings[i], bindings[j]);
    }
  }

  /** one to 256 characters of the identifier alphabet */
  predicate Spelled(s: string) {
    0 < |s| <= 256 && forall i :: 0 <= i < |s| ==> IsIdentChar(s[i])
  }

  /** A binding has a role name exactly when its parts are identifiers of at most
      256 bytes and the name has at most 256: a prefix of 21 and four letters for
      every three bytes of the payload, a last group of one or two with two or three. */
  lemma {:induction false} RoleNameDefined(b: Binding)
    ensures RoleName(b).Some? <==>
      && Spelled(b.fromType) && Spelled(b.relation) && Spelled(b.toType)
      && var bytes := 12 + |b.fromType| + |b.relation| + |b.toType|;
         21 + 4 * (bytes / 3) + (if bytes % 3 == 0 then 0 else bytes % 3 + 1) <= 256
  {
    assert EncodableBinding(b) <==> Spelled(b.fromType) && Spelled(b.relation) && Spelled(b.toType);
    hide EncodableBinding, Spelled;
    if EncodableBinding(b) {
      PayloadBytes(b);
      PayloadLength(b);
      assert |PREFIX| == 21;
    }
    hide Base64, Payload;
  }

  lemma PayloadLength(b: Binding)
    requires EncodableBinding(b)
    ensures |Payload(b)| == 12 + |b.fromType| + |b.relation| + |b.toType|
  {
    OctetsLength(b.fromType);
    OctetsLength(b.relation);
    OctetsLength(b.toType);
    hide BigEndian, Octets, IsIdentChar;
  }
}
