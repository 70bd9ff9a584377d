/**
 Authorization sources: content-addressed artifacts and the links claimed
 between them.  A link counts only when the source's own bytes name the target.
 */
module Sources {
  import opened Numbers
  import opened Basics
  import opened LinkGraph

  newtype Byte = b: int | 0 <= b < 256

  datatype Digest = Digest(alg: string, value: seq<Byte>)

  datatype SourceRef = SourceRef(kind: string, id: string, digest: Digest, references: seq<Digest>)

  datatype SourceLink = SourceLink(from: Digest, to: Digest)

  datatype SourceChain = SourceChain(sources: seq<SourceRef>, links: seq<SourceLink>)

  datatype SourceError = ChainEmpty | Shape | Duplicate | DanglingLink | EdgeUnbacked | ChainCycle | ChainBranch

  datatype Outcome<+T> = Ok(value: T) | Err(error: SourceError)

  // ---------------------------------------------------------------------
  // Digest keys
  // ---------------------------------------------------------------------

  function Hex(value: seq<Byte>): (s: string)
    ensures |s| == 2 * |value|
    ensures forall i :: 0 <= i < |s| ==> s[i] != ':'
  {
    if value == [] then ""
    else [HexDigit(value[0] as int / 16), HexDigit(value[0] as int % 16)] + Hex(value[1..])
  }

  function Key(d: Digest): string {
    d.alg + (":" + Hex(d.value))
  }

  lemma {:induction false} HexInjective(a: seq<Byte>, b: seq<Byte>)
    requires Hex(a) == Hex(b)
    ensures a == b
  {
    assert |a| == |b|;
    if a != [] {
      var s := Hex(a);
      assert s[0] == HexDigit(a[0] as int / 16) == HexDigit(b[0] as int / 16);
      assert s[1] == HexDigit(a[0] as int % 16) == HexDigit(b[0] as int % 16);
      assert a[0] as int == b[0] as int;
      assert Hex(a[1..]) == s[2..] == Hex(b[1..]);
      HexInjective(a[1..], b[1..]);
      assert a == [a[0]] + a[1..] && b == [b[0]] + b[1..];
    }
  }

  /** the value of a lower-case hexadecimal digit */
  function Nibble(c: char): int {
    if '0' <= c <= '9' then c as int - '0' as int else if 'a' <= c <= 'f' then 10 + (c as int - 'a' as int) else -1
  }

  /** Each byte of a digest stands in its key as two lower-case hexadecimal digits, the high one first. */
  lemma {:induction false} HexByByte(value: seq<Byte>, i: nat)
    requires i < |value|
    ensures Nibble(Hex(value)[2 * i]) >= 0 && Nibble(Hex(value)[2 * i + 1]) >= 0
    ensures value[i] as int == 16 * Nibble(Hex(value)[2 * i]) + Nibble(Hex(value)[2 * i + 1])
  {
    if i > 0 {
      HexByByte(value[1..], i - 1);
    }
  }

  lemma KeySplit(a: Digest, b: Digest)
    requires Key(a) == Key(b)
    ensures |a.alg| <= |b.alg|
  {
    assert Key(a)[|a.alg|] == ':';
    assert forall i :: |b.alg| < i < |Key(b)| ==> Key(b)[i] == Hex(b.value)[i - |b.alg| - 1];
  }

  /** Different digests have different keys, even though ":" may occur in an algorithm name. */
  lemma {:induction false} KeyInjective(a: Digest, b: Digest)
    ensures Key(a) == Key(b) <==> a == b
  {
    if Key(a) == Key(b) {
      KeySplit(a, b);
      KeySplit(b, a);
      var n := |a.alg|;
      assert Key(a)[..n] == a.alg && Key(b)[..n] == b.alg;
      assert Key(a)[n + 1..] == Hex(a.value) && Key(b)[n + 1..] == Hex(b.value);
      HexInjective(a.value, b.value);
    }
  }

  // ---------------------------------------------------------------------
  // Well-formed chains
  // ---------------------------------------------------------------------

  predicate WellShaped(s: SourceRef) {
    s.kind != "" && s.id != "" && s.digest.alg != "" && s.digest.value != []
  }

  predicate Distinct(sources: seq<SourceRef>) {
    forall i, j :: 0 <= i < j < |sources| ==> Key(sources[i].digest) != Key(sources[j].digest)
  }

  type Index = map<string, SourceRef>

  /** the sources by digest key */
  predicate Indexes(index: Index, sources: seq<SourceRef>) {
    && (forall k :: k in index ==> index[k] in sources && Key(index[k].digest) == k)
    && (forall i :: 0 <= i < |sources| ==>
          Key(sources[i].digest) in index && index[Key(sources[i].digest)] == sources[i])
  }

  /** both ends are disclosed and the source's own bytes name the target */
  predicate Backed(l: SourceLink, sources: seq<SourceRef>) {
    exists s, t :: s in sources && t in sources && s.digest == l.from && t.digest == l.to && l.to in s.references
  }

  /** the links out of a node, in order */
  function LinksFrom(links: seq<SourceLink>, n: string): seq<string> {
    if links == [] then []
    else
      var init, l := links[..|links| - 1], links[|links| - 1];
      LinksFrom(init, n) + (if Key(l.from) == n then [Key(l.to)] else [])
  }

  function EdgesOf(links: seq<SourceLink>): Edges {
    map n | n in (set l | l in links :: Key(l.from)) :: LinksFrom(links, n)
  }

  lemma {:induction false} LinksFromExact(links: seq<SourceLink>, n: string, k: string)
    ensures k in LinksFrom(links, n) <==> exists l :: l in links && Key(l.from) == n && Key(l.to) == k
  {
    hide Key;
    if links != [] {
      var init, l := links[..|links| - 1], links[|links| - 1];
      LinksFromExact(init, n, k);
      assert links == init + [l];
      assert forall x :: x in links <==> x in init || x == l;
    }
  }

  /** There is an edge from one digest to another exactly when a link names the two, in that direction. */
  lemma {:induction false} EdgesExact(links: seq<SourceLink>, a: Digest, b: Digest)
    ensures Key(a) in EdgesOf(links) && Key(b) in EdgesOf(links)[Key(a)] <==> exists l :: l in links && l.from == a && l.to == b
  {
    hide Key, LinksFrom;
    LinksFromExact(links, Key(a), Key(b));
    if Key(a) in EdgesOf(links) && Key(b) in EdgesOf(links)[Key(a)] {
      var l :| l in links && Key(l.from) == Key(a) && Key(l.to) == Key(b);
      KeyInjective(l.from, a);
      KeyInjective(l.to, b);
    }
    if l :| l in links && l.from == a && l.to == b {
      assert Key(l.from) in set x | x in links :: Key(x.from);
    }
  }

  predicate ShapeOk(c: SourceChain) {
    && c.sources != []
    && (forall s :: s in c.sources ==> WellShaped(s))
    && Distinct(c.sources)
  }

  predicate LinksOk(c: SourceChain) {
    forall l :: l in c.links ==> Backed(l, c.sources)
  }

  ghost predicate Validated(c: SourceChain) {
    ShapeOk(c) && LinksOk(c) && !HasCycle(EdgesOf(c.links))
  }

  /** A chain is sound exactly when it has sources, each with a kind, an
      identifier and a digest, no two the same digest, every link runs between
      disclosed sources of which the first names the second, and the links form no cycle. */
  lemma {:induction false} ValidatedExactly(c: SourceChain)
    ensures Validated(c) <==>
      && c.sources != []
      && (forall s :: s in c.sources ==> s.kind != "" && s.id != "" && s.digest.alg != "" && s.digest.value != [])
      && (forall i, j :: 0 <= i < j < |c.sources| ==> c.sources[i].digest != c.sources[j].digest)
      && (forall l :: l in c.links ==>
           && (exists s :: s in c.sources && s.digest == l.from && l.to in s.references)
           && (exists t :: t in c.sources && t.digest == l.to))
      && !HasCycle(EdgesOf(c.links))
  {
    hide Key, EdgesOf, HasCycle;
    assert Distinct(c.sources) <==> forall i, j :: 0 <= i < j < |c.sources| ==> c.sources[i].digest != c.sources[j].digest by {
      forall i, j | 0 <= i < j < |c.sources|
        ensures Key(c.sources[i].digest) == Key(c.sources[j].digest) <==> c.sources[i].digest == c.sources[j].digest
      {
        KeyInjective(c.sources[i].digest, c.sources[j].digest);
      }
    }
    hide Distinct;
  }

  lemma IndexFind(index: Index, sources: seq<SourceRef>, d: Digest)
    requires Indexes(index, sources)
    ensures Key(d) in index <==> exists s :: s in sources && s.digest == d
    ensures Key(d) in index ==> index[Key(d)].digest == d && index[Key(d)] in sources
  {
    hide Key;
    if Key(d) in index {
      KeyInjective(index[Key(d)].digest, d);
    }
    if s :| s in sources && s.digest == d {
      var i :| 0 <= i < |sources| && sources[i] == s;
    }
  }

  lemma BackedByIndex(index: Index, c: SourceChain, l: SourceLink)
    requires Indexes(index, c.sources) && Distinct(c.sources)
    ensures Backed(l, c.sources) <==>
            Key(l.from) in index && Key(l.to) in index && l.to in index[Key(l.from)].references
  {
    hide Key;
    IndexFind(index, c.sources, l.from);
    IndexFind(index, c.sources, l.to);
    if Backed(l, c.sources) {
      var s, t :| s in c.sources && t in c.sources && s.digest == l.from && t.digest == l.to && l.to in s.references;
      var i :| 0 <= i < |c.sources| && c.sources[i] == s;
    }
  }

  lemma LinksFromSnoc(links: seq<SourceLink>, l: SourceLink, n: string)
    ensures LinksFrom(links + [l], n) == LinksFrom(links, n) + (if Key(l.from) == n then [Key(l.to)] else [])
  {
    hide Key;
    var all := links + [l];
    assert all[..|all| - 1] == links && all[|all| - 1] == l;
  }

  lemma EdgesSnoc(links: seq<SourceLink>, l: SourceLink)
    ensures EdgesOf(links + [l])
            == EdgesOf(links)[Key(l.from) := Next(EdgesOf(links), Key(l.from)) + [Key(l.to)]]
  {
    hide Key;
    var all := links + [l];
    assert forall x :: x in all <==> x in links || x == l;
    if Key(l.from) !in EdgesOf(links) {
      NoLinksFrom(links, Key(l.from));
    }
    var r := EdgesOf(links)[Key(l.from) := Next(EdgesOf(links), Key(l.from)) + [Key(l.to)]];
    assert EdgesOf(all).Keys == r.Keys;
    hide LinksFrom;
    forall n | n in r ensures EdgesOf(all)[n] == r[n] {
      LinksFromSnoc(links, l, n);
      assert LinksFrom(links, n) + [] == LinksFrom(links, n);
    }
  }

  lemma {:induction false} NoLinksFrom(links: seq<SourceLink>, n: string)
    requires forall l :: l in links ==> Key(l.from) != n
    ensures LinksFrom(links, n) == []
  {
    if links != [] {
      NoLinksFrom(links[..|links| - 1], n);
    }
  }

  // What each refusal says: the first defect in list order

  predicate MisshapenAt(sources: seq<SourceRef>, i: nat) {
    i < |sources| && Distinct(sources[..i]) && (forall j :: 0 <= j < i ==> WellShaped(sources[j])) && !WellShaped(sources[i])
  }

  predicate DuplicateAt(sources: seq<SourceRef>, i: nat) {
    && i < |sources| && Distinct(sources[..i]) && (forall j :: 0 <= j <= i ==> WellShaped(sources[j]))
    && exists j :: 0 <= j < i && sources[j].digest == sources[i].digest
  }

  predicate Disclosed(d: Digest, sources: seq<SourceRef>) {
    exists s :: s in sources && s.digest == d
  }

  predicate DanglingAt(c: SourceChain, i: nat) {
    && i < |c.links| && (forall j :: 0 <= j < i ==> Backed(c.links[j], c.sources))
    && !(Disclosed(c.links[i].from, c.sources) && Disclosed(c.links[i].to, c.sources))
  }

  predicate UnbackedAt(c: SourceChain, i: nat) {
    && i < |c.links| && (forall j :: 0 <= j < i ==> Backed(c.links[j], c.sources))
    && Disclosed(c.links[i].from, c.sources) && Disclosed(c.links[i].to, c.sources) && !Backed(c.links[i], c.sources)
  }

  /** Validate: shape, duplicates, backed links, then the cycle search */
  method Validate(c: SourceChain) returns (r: Outcome<Index>)
    ensures r.Ok? <==> Validated(c)
    ensures r.Ok? ==> Indexes(r.value, c.sources)
    ensures r == Err(ChainEmpty) <==> c.sources == []
    ensures r == Err(Shape) ==> exists i :: MisshapenAt(c.sources, i)
    ensures r == Err(Duplicate) ==> exists i :: DuplicateAt(c.sources, i)
    ensures r == Err(Shape) || r == Err(Duplicate) ==> c.sources != [] && !ShapeOk(c)
    ensures r == Err(DanglingLink) ==> ShapeOk(c) && exists i :: DanglingAt(c, i)
    ensures r == Err(EdgeUnbacked) ==> ShapeOk(c) && exists i :: UnbackedAt(c, i)
    ensures r == Err(DanglingLink) || r == Err(EdgeUnbacked) ==> !LinksOk(c)
    ensures r == Err(ChainCycle) <==> ShapeOk(c) && LinksOk(c) && HasCycle(EdgesOf(c.links))
  {
    hide Key, HasCycle, EdgesOf, LinksOk, Indexes, WellShaped, Distinct, MisshapenAt, DuplicateAt, DanglingAt, UnbackedAt;
    if c.sources == [] {
      return Err(ChainEmpty);
    }
    var indexed := IndexSources(c.sources);
    if indexed.Err? {
      return indexed;
    }
    var edges := ValidateLinks(c, indexed.value);
    r := if edges.Ok? then indexed else Err(edges.error);
  }

  lemma IndexAdds(index: Index, sources: seq<SourceRef>, s: SourceRef)
    requires Indexes(index, sources) && Distinct(sources) && Key(s.digest) !in index
    ensures Indexes(index[Key(s.digest) := s], sources + [s]) && Distinct(sources + [s])
  {
    hide Key;
    var all := sources + [s];
    assert forall i :: 0 <= i < |sources| ==> all[i] == sources[i];
    assert all[|sources|] == s;
  }

  lemma DuplicateFound(index: Index, sources: seq<SourceRef>, i: nat)
    requires i < |sources| && Indexes(index, sources[..i]) && Distinct(sources[..i]) && Key(sources[i].digest) in index
    requires forall j :: 0 <= j <= i ==> WellShaped(sources[j])
    ensures DuplicateAt(sources, i) && !Distinct(sources)
  {
    hide Key, WellShaped;
    var s := index[Key(sources[i].digest)];
    var j :| 0 <= j < i && sources[..i][j] == s;
    assert Key(sources[j].digest) == Key(sources[i].digest);
    KeyInjective(sources[j].digest, sources[i].digest);
  }

  method IndexSources(sources: seq<SourceRef>) returns (r: Outcome<Index>)
    ensures r.Ok? <==> (forall s :: s in sources ==> WellShaped(s)) && Distinct(sources)
    ensures r.Ok? ==> Indexes(r.value, sources)
    ensures r.Err? ==> r.error == Shape || r.error == Duplicate
    ensures r == Err(Shape) ==> exists i :: MisshapenAt(sources, i)
    ensures r == Err(Duplicate) ==> exists i :: DuplicateAt(sources, i)
  {
    hide Key, WellShaped;
    var index: Index := map[];
    assert Indexes(index, sources[..0]);
    hide Indexes, Distinct;
    for i := 0 to |sources|
      invariant Indexes(index, sources[..i]) && Distinct(sources[..i])
      invariant forall j :: 0 <= j < i ==> WellShaped(sources[j])
    {
      var s := sources[i];
      assert sources[..i + 1] == sources[..i] + [s];
      if !WellShaped(s) {
        assert MisshapenAt(sources, i);
        return Err(Shape);
      }
      if Key(s.digest) in index {
        DuplicateFound(index, sources, i);
        return Err(Duplicate);
      }
      IndexAdds(index, sources[..i], s);
      index := index[Key(s.digest) := s];
    }
    assert sources[..|sources|] == sources;
    r := Ok(index);
  }

  method CheckLink(c: SourceChain, index: Index, l: SourceLink) returns (defect: Option<SourceError>)
    requires ShapeOk(c) && Indexes(index, c.sources)
    ensures defect.None? <==> Backed(l, c.sources)
    ensures defect.Some? ==>
      defect.value == if Disclosed(l.from, c.sources) && Disclosed(l.to, c.sources) then EdgeUnbacked else DanglingLink
  {
    hide Key, Indexes, Backed;
    BackedByIndex(index, c, l);
    IndexFind(index, c.sources, l.from);
    IndexFind(index, c.sources, l.to);
    if Key(l.from) !in index || Key(l.to) !in index {
      return Some(DanglingLink);
    }
    return if l.to !in index[Key(l.from)].references then Some(EdgeUnbacked) else None;
  }

  lemma LinkDefect(c: SourceChain, i: nat, defect: SourceError)
    requires i < |c.links| && (forall j :: 0 <= j < i ==> Backed(c.links[j], c.sources)) && !Backed(c.links[i], c.sources)
    requires defect ==
      if Disclosed(c.links[i].from, c.sources) && Disclosed(c.links[i].to, c.sources) then EdgeUnbacked else DanglingLink
    ensures if defect == EdgeUnbacked then UnbackedAt(c, i) else DanglingAt(c, i)
  {
  }

  lemma NoLinks()
    ensures EdgesOf([]) == map[]
  {
  }

  /** the loop over the links: the edges, or the first defect */
  method CollectEdges(c: SourceChain, index: Index) returns (r: Outcome<Edges>)
    requires ShapeOk(c) && Indexes(index, c.sources)
    ensures r.Ok? <==> LinksOk(c)
    ensures r.Ok? ==> r.value == EdgesOf(c.links)
    ensures r.Err? ==> r.error == DanglingLink || r.error == EdgeUnbacked
    ensures r == Err(DanglingLink) ==> exists i :: DanglingAt(c, i)
    ensures r == Err(EdgeUnbacked) ==> exists i :: UnbackedAt(c, i)
  {
    hide Key, Backed, Indexes, DanglingAt, UnbackedAt, EdgesOf, Disclosed, ShapeOk, Next;
    var edges: Edges := map[];
    NoLinks();
    assert c.links[..0] == [];
    for i := 0 to |c.links|
      invariant edges == EdgesOf(c.links[..i])
      invariant forall j :: 0 <= j < i ==> Backed(c.links[j], c.sources)
    {
      var l := c.links[i];
      assert c.links[..i + 1] == c.links[..i] + [l];
      EdgesSnoc(c.links[..i], l);
      var defect := CheckLink(c, index, l);
      if defect.Some? {
        LinkDefect(c, i, defect.value);
        assert l in c.links;
        return Err(defect.value);
      }
      edges := edges[Key(l.from) := Next(edges, Key(l.from)) + [Key(l.to)]];
    }
    assert c.links[..|c.links|] == c.links;
    r := Ok(edges);
  }

  method ValidateLinks(c: SourceChain, index: Index) returns (r: Outcome<Edges>)
    requires ShapeOk(c) && Indexes(index, c.sources)
    ensures r.Ok? <==> LinksOk(c) && !HasCycle(EdgesOf(c.links))
    ensures r.Ok? ==> r.value == EdgesOf(c.links)
    ensures r == Err(ChainCycle) <==> LinksOk(c) && HasCycle(EdgesOf(c.links))
    ensures r.Err? ==> r.error in {DanglingLink, EdgeUnbacked, ChainCycle}
    ensures r == Err(DanglingLink) ==> exists i :: DanglingAt(c, i)
    ensures r == Err(EdgeUnbacked) ==> exists i :: UnbackedAt(c, i)
  {
    hide HasCycle, LinksOk, Indexes, DanglingAt, UnbackedAt, EdgesOf, ShapeOk;
    r := CollectEdges(c, index);
    if r.Ok? {
      var found := DetectCycle(r.value);
      if found {
        r := Err(ChainCycle);
      }
    }
  }

  // ---------------------------------------------------------------------
  // StandingOn
  // ---------------------------------------------------------------------

  function Keys(path: seq<SourceRef>): seq<string> {
    seq(|path|, i requires 0 <= i < |path| => Key(path[i].digest))
  }

  /** a byte-backed hop of the chain */
  predicate Hop(c: SourceChain, a: SourceRef, b: SourceRef) {
    SourceLink(a.digest, b.digest) in c.links && b.digest in a.references
  }

  /** a simple path of disclosed sources from one artifact to one that names nothing */
  predicate StandsOn(c: SourceChain, from: Digest, path: seq<SourceRef>) {
    && path != [] && path[0].digest == from
    && (forall i :: 0 <= i < |path| ==> path[i] in c.sources)
    && (forall i, j :: 0 <= i < j < |path| ==> path[i] != path[j])
    && (forall i :: 0 <= i < |path| - 1 ==> Hop(c, path[i], path[i + 1]))
    && (forall l :: l in c.links ==> l.from != path[|path| - 1].digest)
  }

  lemma {:induction false} LinksFromLink(links: seq<SourceLink>, n: string, m: string)
    ensures m in LinksFrom(links, n) <==> exists l :: l in links && Key(l.from) == n && Key(l.to) == m
  {
    hide Key;
    if links != [] {
      var init, l := links[..|links| - 1], links[|links| - 1];
      LinksFromLink(init, n, m);
      assert links == init + [l];
      if m in LinksFrom(init, n) {
        var x :| x in init && Key(x.from) == n && Key(x.to) == m;
        assert x in links;
      }
      if x :| x in links && Key(x.from) == n && Key(x.to) == m {
        assert x in init || x == l;
      }
    }
  }

  /** hops taken so far, ending at the current source */
  ghost predicate Walk(c: SourceChain, path: seq<SourceRef>) {
    && path != []
    && (forall i :: 0 <= i < |path| ==> path[i] in c.sources)
    && (forall i :: 0 <= i < |path| - 1 ==> Hop(c, path[i], path[i + 1]))
  }

  lemma WalkIsPath(c: SourceChain, path: seq<SourceRef>)
    requires Walk(c, path)
    ensures IsPath(EdgesOf(c.links), Keys(path))
  {
    hide Key;
    forall i | 0 <= i < |path| - 1 ensures Keys(path)[i + 1] in Next(EdgesOf(c.links), Keys(path)[i]) {
      LinksFromLink(c.links, Key(path[i].digest), Key(path[i + 1].digest));
      assert SourceLink(path[i].digest, path[i + 1].digest) in c.links;
    }
  }

  lemma RepeatIsCycle(edges: Edges, p: seq<string>, i: nat, j: nat)
    requires IsPath(edges, p) && i < j < |p| && p[i] == p[j]
    ensures HasCycle(edges)
  {
    var q := p[i..j + 1];
    forall t | 0 <= t < |q| - 1 ensures q[t + 1] in Next(edges, q[t]) {
      assert p[i + t + 1] in Next(edges, p[i + t]);
    }
    assert IsCycle(edges, q);
  }

  /** On an acyclic chain a walk never meets a source twice. */
  lemma WalkIsSimple(c: SourceChain, path: seq<SourceRef>, i: nat, j: nat)
    requires !HasCycle(EdgesOf(c.links)) && Walk(c, path) && i < j < |path|
    ensures Key(path[i].digest) != Key(path[j].digest)
  {
    hide Key, EdgesOf;
    WalkIsPath(c, path);
    var keys := Keys(path);
    if keys[i] == keys[j] {
      RepeatIsCycle(EdgesOf(c.links), keys, i, j);
    }
  }

  lemma {:induction false} DistinctBound(path: seq<SourceRef>, within: set<SourceRef>)
    requires forall i :: 0 <= i < |path| ==> path[i] in within
    requires forall i, j :: 0 <= i < j < |path| ==> path[i] != path[j]
    ensures |path| <= |within|
  {
    if path != [] {
      var n := |path| - 1;
      DistinctBound(path[..n], within - {path[n]});
    }
  }

  lemma {:induction false} SetBound(sources: seq<SourceRef>)
    ensures |set s | s in sources| <= |sources|
  {
    if sources != [] {
      SetBound(sources[1..]);
      assert (set s | s in sources) == {sources[0]} + (set s | s in sources[1..]);
    }
  }

  lemma SimpleWalkBound(c: SourceChain, path: seq<SourceRef>)
    requires Walk(c, path) && forall i, j :: 0 <= i < j < |path| ==> path[i] != path[j]
    ensures |path| <= |c.sources|
  {
    DistinctBound(path, set s | s in c.sources);
    SetBound(c.sources);
  }

  lemma WalkDistinct(c: SourceChain, path: seq<SourceRef>)
    requires !HasCycle(EdgesOf(c.links)) && Walk(c, path)
    ensures forall i, j :: 0 <= i < j < |path| ==> Key(path[i].digest) != Key(path[j].digest) && path[i] != path[j]
    ensures |path| <= |c.sources|
  {
    forall i, j | 0 <= i < j < |path| ensures Key(path[i].digest) != Key(path[j].digest) && path[i] != path[j] {
      WalkIsSimple(c, path, i, j);
    }
    SimpleWalkBound(c, path);
  }

  /** a single link out of the current source is a byte-backed hop to a disclosed source */
  lemma NextIsHop(c: SourceChain, index: Index, a: SourceRef, m: string)
    requires ShapeOk(c) && LinksOk(c) && Indexes(index, c.sources) && a in c.sources
    requires m in LinksFrom(c.links, Key(a.digest))
    ensures m in index && index[m] in c.sources && Hop(c, a, index[m])
  {
    hide Key, Indexes;
    LinksFromLink(c.links, Key(a.digest), m);
    var l :| l in c.links && Key(l.from) == Key(a.digest) && Key(l.to) == m;
    KeyInjective(l.from, a.digest);
    BackedByIndex(index, c, l);
    IndexFind(index, c.sources, l.to);
    IndexOwn(index, c.sources, a);
  }

  lemma IndexOwn(index: Index, sources: seq<SourceRef>, a: SourceRef)
    requires Indexes(index, sources) && a in sources
    ensures Key(a.digest) in index && index[Key(a.digest)] == a
  {
    var i :| 0 <= i < |sources| && sources[i] == a;
  }

  lemma NothingNamed(c: SourceChain, a: SourceRef)
    requires LinksFrom(c.links, Key(a.digest)) == []
    ensures forall l :: l in c.links ==> l.from != a.digest
  {
    forall l | l in c.links ensures l.from != a.digest {
      LinksFromLink(c.links, Key(a.digest), Key(l.to));
    }
  }

  lemma NotSeen(c: SourceChain, path: seq<SourceRef>, current: SourceRef)
    requires !HasCycle(EdgesOf(c.links)) && Walk(c, path + [current])
    ensures forall s :: s in path ==> Key(s.digest) != Key(current.digest)
    ensures |path| < |c.sources|
  {
    var walk := path + [current];
    WalkDistinct(c, walk);
    forall s | s in path ensures Key(s.digest) != Key(current.digest) {
      var i :| 0 <= i < |path| && path[i] == s;
      assert walk[i] == s && walk[|path|] == current;
    }
  }

  /** a walk from an artifact to a source that names more than one */
  ghost predicate BranchesAfter(c: SourceChain, from: Digest, p: seq<SourceRef>) {
    Walk(c, p) && p[0].digest == from && |LinksFrom(c.links, Key(p[|p| - 1].digest))| > 1
  }

  /** The walk from an artifact to the source it finally stands on.  On a
      validated chain its own cycle check never fires. */
  method StandingOn(c: SourceChain, from: Digest) returns (r: Outcome<seq<SourceRef>>)
    ensures r.Ok? ==> Validated(c) && StandsOn(c, from, r.value) && |r.value| <= |c.sources|
    ensures Validated(c) ==> r != Err(ChainCycle)
    ensures Validated(c) ==> (r == Err(DanglingLink) <==> !exists s :: s in c.sources && s.digest == from)
    ensures Validated(c) && r.Err? && r.error != DanglingLink ==> r.error == ChainBranch && exists p :: BranchesAfter(c, from, p)
  {
    hide Key, Indexes, HasCycle, EdgesOf, LinksFrom, StandsOn;
    var v := Validate(c);
    if v.Err? {
      return Err(v.error);
    }
    var index := v.value;
    IndexFind(index, c.sources, from);
    if Key(from) !in index {
      return Err(DanglingLink);
    }
    var current := index[Key(from)];
    var path: seq<SourceRef> := [];
    var seen: set<string> := {};
    while true
      invariant Walk(c, path + [current]) && (path + [current])[0].digest == from
      invariant current in c.sources
      invariant seen == set s | s in path :: Key(s.digest)
      decreases |c.sources| - |path|
    {
      NotSeen(c, path, current);
      if Key(current.digest) in seen {
        assert false;  // the cycle error of the walk
      }
      seen := seen + {Key(current.digest)};
      path := path + [current];
      var next := LinksFrom(c.links, Key(current.digest));
      if |next| == 0 {
        NothingNamed(c, current);
        assert StandsOn(c, from, path) by { Concluded(c, from, path); }
        return Ok(path);
      } else if |next| == 1 {
        NextIsHop(c, index, current, next[0]);
        current := index[next[0]];
      } else {
        assert BranchesAfter(c, from, path);
        return Err(ChainBranch);
      }
    }
  }

  lemma Concluded(c: SourceChain, from: Digest, path: seq<SourceRef>)
    requires Walk(c, path) && path[0].digest == from && !HasCycle(EdgesOf(c.links))
    requires forall l :: l in c.links ==> l.from != path[|path| - 1].digest
    ensures StandsOn(c, from, path)
  {
    WalkDistinct(c, path);
  }
}
