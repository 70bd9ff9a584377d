/**
 Identifiers as text. Validity and coverage are defined on the segments of an
 identifier; here they are read off its characters.
 */
module IdText {
  import opened Ids

  /** the segments again, colons between them */
  function Joined(parts: seq<string>): string
    requires parts != []
  {
    if |parts| == 1 then parts[0] else parts[0] + (":" + Joined(parts[1..]))
  }

  lemma JoinedFront(c: char, parts: seq<string>)
    requires parts != []
    ensures Joined([[c] + parts[0]] + parts[1..]) == [c] + Joined(parts)
  {
    var more := [[c] + parts[0]] + parts[1..];
    assert more[1..] == parts[1..];
    if |parts| > 1 {
      assert [c] + parts[0] + (":" + Joined(parts[1..])) == [c] + (parts[0] + (":" + Joined(parts[1..])));
    }
  }

  lemma {:induction false} JoinedSplit(s: string)
    ensures Joined(Split(s)) == s
  {
    if s != [] {
      var rest := Split(s[1..]);
      JoinedSplit(s[1..]);
      if s[0] == ':' {
        assert ([""] + rest)[1..] == rest;
        assert Joined([""] + rest) == "" + (":" + Joined(rest));
      } else {
        JoinedFront(s[0], rest);
      }
      assert s == [s[0]] + s[1..];
    }
  }

  /** two texts with the same segments are the same text */
  lemma SplitInjective(a: string, b: string)
    requires Split(a) == Split(b)
    ensures a == b
  {
    JoinedSplit(a);
    JoinedSplit(b);
  }

  lemma {:induction false} SplitConcat(a: string, b: string)
    ensures Split(a + (":" + b)) == Split(a) + Split(b)
  {
    var s := a + (":" + b);
    if a == [] {
      assert s == ":" + b && s[1..] == b;
    } else {
      assert s[1..] == a[1..] + (":" + b);
      SplitConcat(a[1..], b);
    }
  }

  /** the text before segment n, with its colon */
  lemma {:induction false} SplitAt(s: string, n: nat) returns (p: string, q: string)
    requires 1 <= n < |Split(s)|
    ensures s == p + (":" + q) && Split(p) == Split(s)[..n] && Split(q) == Split(s)[n..]
  {
    var rest := Split(s[1..]);
    if s[0] == ':' && n == 1 {
      p, q := "", s[1..];
      assert s == p + (":" + q);
    } else {
      var front: string;
      front, q := SplitAt(s[1..], if s[0] == ':' then n - 1 else n);
      p := [s[0]] + front;
      FrontSplit(s, front, n);
      assert s == p + (":" + q);
    }
  }

  lemma FrontSplit(s: string, front: string, n: nat)
    requires s != [] && 1 <= n < |Split(s)|
    requires s[0] == ':' ==> n > 1 && Split(front) == Split(s[1..])[..n - 1]
    requires s[0] != ':' ==> Split(front) == Split(s[1..])[..n]
    ensures Split([s[0]] + front) == Split(s)[..n]
    ensures Split(s)[n..] == Split(s[1..])[if s[0] == ':' then n - 1 else n..]
  {
    var rest, parts := Split(s[1..]), Split(front);
    SplitCons(s[0], front);
    SplitCons(s[0], s[1..]);
    assert s == [s[0]] + s[1..];
    hide Split;
    if s[0] == ':' {
      assert ([""] + rest)[..n] == [""] + rest[..n - 1] && ([""] + rest)[n..] == rest[n - 1..];
    } else {
      assert parts[0] == rest[0] && parts[1..] == rest[1..n];
      Fronted([s[0]] + rest[0], rest, n);
    }
  }

  lemma SplitCons(c: char, t: string)
    ensures Split([c] + t) == if c == ':' then [""] + Split(t) else [[c] + Split(t)[0]] + Split(t)[1..]
  {
    assert ([c] + t)[1..] == t;
  }

  lemma Fronted(first: string, rest: seq<string>, n: nat)
    requires 1 <= n <= |rest|
    ensures ([first] + rest[1..])[..n] == [first] + rest[1..n] && ([first] + rest[1..])[n..] == rest[n..]
  {
  }

  lemma {:induction false} NoColon(s: string)
    ensures |Split(s)| == 1 <==> ':' !in s
    ensures ':' !in s ==> Split(s) == [s]
    ensures forall i :: 0 <= i < |Split(s)| ==> ':' !in Split(s)[i]
  {
    if s != [] {
      NoColon(s[1..]);
      assert s == [s[0]] + s[1..];
      assert ':' in s <==> s[0] == ':' || ':' in s[1..];
    }
  }

  // ---------------------------------------------------------------------
  // Coverage
  // ---------------------------------------------------------------------

  /** below a wildcard that follows at least two segments: everything before the star is in front */
  predicate Below(g: string, o: string) {
    && |g| >= 2 && g[|g| - 2..] == ":*"
    && ':' in g[..|g| - 2]
    && g[..|g| - 1] <= o
  }

  lemma StarFront(g: string) returns (p: string)
    requires |Split(g)| >= 2 && Split(g)[|Split(g)| - 1] == "*"
    ensures g == p + ":*" && Split(p) == Split(g)[..|Split(g)| - 1]
    ensures g[..|g| - 1] == p + ":" && g[..|g| - 2] == p && g[|g| - 2..] == ":*"
  {
    var n := |Split(g)| - 1;
    var q: string;
    p, q := SplitAt(g, n);
    assert Split(q) == ["*"];
    JoinedSplit(q);
  }

  lemma StarBack(g: string)
    requires |g| >= 2 && g[|g| - 2..] == ":*"
    ensures var parts := Split(g); |parts| >= 2 && parts[|parts| - 1] == "*" && parts[..|parts| - 1] == Split(g[..|g| - 2])
  {
    var p := g[..|g| - 2];
    assert g == p + (":" + "*");
    SplitConcat(p, "*");
    assert Split("*") == ["*"] by { NoColon("*"); }
  }

  /** what has the segments of p in front of others has `p:` in front */
  lemma FrontText(p: string, o: string)
    ensures p + ":" <= o <==> |Split(p)| < |Split(o)| && Split(p) == Split(o)[..|Split(p)|]
  {
    hide Split;
    if p + ":" <= o {
      var q := o[|p| + 1..];
      assert o == p + (":" + q);
      SplitConcat(p, q);
      assert (Split(p) + Split(q))[..|Split(p)|] == Split(p);
    }
    if |Split(p)| < |Split(o)| && Split(p) == Split(o)[..|Split(p)|] {
      var a, b := SplitAt(o, |Split(p)|);
      SplitInjective(a, p);
      assert o == p + ":" + b;
    }
  }

  lemma SameNamespace(g: string, o: string)
    requires |Split(g)| >= 2 && |Split(o)| >= 2
    ensures Namespace(g) == Namespace(o) <==> Split(g)[..2] == Split(o)[..2]
  {
    hide Split;
    var a, b := Split(g), Split(o);
    if Namespace(g) == Namespace(o) {
      NoColon(g);
      NoColon(o);
      NoColon(a[0]);
      NoColon(a[1]);
      NoColon(b[0]);
      NoColon(b[1]);
      SplitConcat(a[0], a[1]);
      SplitConcat(b[0], b[1]);
      assert a[0] + (":" + a[1]) == Namespace(g) && b[0] + (":" + b[1]) == Namespace(o);
      assert a[..2] == [a[0]] + [a[1]] && b[..2] == [b[0]] + [b[1]];
    }
  }

  /** a wildcard right after the scheme covers only itself */
  lemma SchemeStar(g: string, o: string)
    requires |Split(g)| == 2 && Split(g)[1] == "*" && |Split(o)| >= 2
    requires forall i :: 0 <= i < |Split(o)| - 1 ==> Split(o)[i] != "*"
    ensures Namespace(g) == Namespace(o) ==> g == o
  {
    hide Split;
    var a, b := Split(g), Split(o);
    SameNamespace(g, o);
    if Namespace(g) == Namespace(o) {
      assert b[1] == b[..2][1] == a[..2][1];
      assert a == a[..2] && b == b[..2];
      SplitInjective(g, o);
    }
  }

  lemma StarParts(a: seq<string>, b: seq<string>, last: nat)
    requires last == |a| - 1 >= 2 && a[last] == "*"
    requires forall i :: 0 <= i < last ==> a[i] != "*"
    ensures CoversParts(a, b) <==> |b| > last && a[..last] == b[..last]
    ensures |b| > last && a[..last] == b[..last] ==> a[..2] == b[..2]
  {
    if |b| > last && a[..last] == b[..last] {
      assert forall i :: 0 <= i < last ==> a[i] == a[..last][i] && b[i] == b[..last][i];
    }
  }

  /** at least two segments, no star among those before the last */
  predicate LateStar(id: string) {
    |Split(id)| >= 2 && forall i :: 0 <= i < |Split(id)| - 1 ==> Split(id)[i] != "*"
  }

  lemma ValidIsLate(id: string)
    requires ValidId(id)
    ensures LateStar(id)
  {
    StarOnlyLast(id);
    hide Split, ValidScheme, HasStar;
  }

  lemma StarCovers(g: string, o: string)
    requires LateStar(g) && LateStar(o) && Split(g)[|Split(g)| - 1] == "*" && MatchId(g, g)
    ensures MatchId(g, o) <==> g == o || Below(g, o)
  {
    hide Split, Namespace;
    var last := |Split(g)| - 1;
    var p := StarFront(g);
    NoColon(p);
    FrontText(p, o);
    assert Below(g, o) <==> last >= 2 && |Split(o)| > last && Split(g)[..last] == Split(o)[..last];
    hide Below;
    SameNamespace(g, o);
    if last == 1 {
      SchemeStar(g, o);
    } else {
      StarParts(Split(g), Split(o), last);
    }
  }

  lemma NoStarCovers(g: string, o: string)
    requires |Split(g)| >= 2 && Split(g)[|Split(g)| - 1] != "*" && MatchId(g, g)
    ensures MatchId(g, o) <==> g == o
    ensures !Below(g, o)
  {
    hide Split, Namespace;
    var a, b := Split(g), Split(o);
    if |g| >= 2 && g[|g| - 2..] == ":*" {
      StarBack(g);
    }
    if MatchId(g, o) {
      assert forall i :: 0 <= i < |a| ==> a[i] == b[i];
      assert a == b;
      SplitInjective(g, o);
    }
  }

  /** Between valid identifiers coverage is equality, or standing below the
      wildcard; an identifier without a trailing star covers only itself. */
  lemma {:induction false} CoverageOnText(g: string, o: string)
    requires ValidId(g) && ValidId(o)
    ensures MatchId(g, o) <==> g == o || Below(g, o)
  {
    hide *;
    ValidIsLate(g);
    ValidIsLate(o);
    MatchReflexive(g);
    LateParts(g);
    if Split(g)[|Split(g)| - 1] == "*" {
      StarCovers(g, o);
    } else {
      NoStarCovers(g, o);
    }
  }

  lemma LateParts(id: string)
    requires LateStar(id)
    ensures |Split(id)| >= 2
  {
  }

  // ---------------------------------------------------------------------
  // Validity
  // ---------------------------------------------------------------------

  predicate NoWildcardShape(c: char) {
    c != '{' && c != '}' && c != '[' && c != ']'
  }

  lemma {:induction false} StarsInParts(s: string)
    ensures HasStar(s) <==> exists i :: 0 <= i < |Split(s)| && HasStar(Split(s)[i])
  {
    if s != [] {
      var rest := Split(s[1..]);
      StarsInParts(s[1..]);
      assert HasStar(s) <==> s[0] == '*' || HasStar(s[1..]) by { StarFirst(s); }
      var parts := Split(s);
      if s[0] == ':' {
        assert !HasStar("");
        assert forall i :: 0 <= i < |rest| ==> parts[i + 1] == rest[i];
      } else {
        StarFirst(parts[0]);
        assert parts[0][1..] == rest[0];
        assert forall i :: 1 <= i < |rest| ==> parts[i] == rest[i];
      }
    }
  }

  lemma StarFirst(s: string)
    requires s != []
    ensures HasStar(s) <==> s[0] == '*' || HasStar(s[1..])
  {
    if i :| 0 <= i < |s| && s[i] == '*' {
      if i > 0 {
        assert s[1..][i - 1] == '*';
      }
    }
    if i :| 0 <= i < |s[1..]| && s[1..][i] == '*' {
      assert s[i + 1] == '*';
    }
  }

  /** no star, or one star that is the whole last segment */
  lemma StarsOnText(id: string)
    requires |Split(id)| >= 2
    ensures (forall i :: 0 <= i < |Split(id)| && HasStar(Split(id)[i]) ==> Split(id)[i] == "*" && i == |Split(id)| - 1)
            <==> !HasStar(id) || (|id| >= 2 && id[|id| - 2..] == ":*" && !HasStar(id[..|id| - 2]))
  {
    var parts := Split(id);
    var n := |parts| - 1;
    StarsInParts(id);
    assert HasStar("*") by { assert "*"[0] == '*'; }
    if |id| >= 2 && id[|id| - 2..] == ":*" {
      StarBack(id);
      var p := id[..|id| - 2];
      StarsInParts(p);
      assert forall i :: 0 <= i < n ==> parts[i] == Split(p)[i];
      assert HasStar(id) by { assert id[|id| - 1] == id[|id| - 2..][1] == '*'; }
    } else if parts[n] == "*" {
      var p := StarFront(id);
    }
  }

  lemma FirstColon(s: string, m: nat, n: nat)
    requires m < |s| && n < |s| && s[m] == ':' && s[n] == ':' && ':' !in s[..m] && ':' !in s[..n]
    ensures m == n
  {
  }

  /** A valid identifier is a scheme, a colon and more, without brackets, with
      no star except a trailing `:*`. */
  lemma {:induction false} ValidityOnText(id: string)
    ensures ValidId(id) <==>
      && (exists n :: 0 <= n < |id| && id[n] == ':' && ':' !in id[..n] && ValidScheme(id[..n]))
      && (forall i :: 0 <= i < |id| ==> NoWildcardShape(id[i]))
      && (!HasStar(id) || (|id| >= 2 && id[|id| - 2..] == ":*" && !HasStar(id[..|id| - 2])))
  {
    hide ValidScheme, HasStar;
    NoColon(id);
    if |Split(id)| >= 2 {
      StarsOnText(id);
      var p, q := SplitAt(id, 1);
      NoColon(p);
      assert Split(p) == [Split(id)[0]];
      assert id[|p|] == ':' && id[..|p|] == p && ':' !in p;
      forall n | 0 <= n < |id| && id[n] == ':' && ':' !in id[..n] ensures id[..n] == p {
        FirstColon(id, n, |p|);
      }
    }
  }
}
