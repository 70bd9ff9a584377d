/**
 When containment of one parameter value in another carries acceptance along.
 A child value inside a parent's list may admit values the list does not; the
 condition below tells those pairs from the sound ones, and a defined meet
 rules them out.
 */
module Containment {
  import opened Numbers
  import opened NumberValues
  import opened Json
  import opened Bounds
  import opened Grants

  /** whatever the child value accepts, the parent value accepts */
  ghost predicate Carries(child: Json, parent: Json) {
    forall o :: ValueSubset(o, child) ==> ValueSubset(o, parent)
  }

  /** values that accept nothing */
  predicate Void(c: Json) {
    match c
    case Null => true
    case Arr(items) => items == []
    case Obj(fields) => exists k :: k in fields && Void(fields[k])
    case _ => false
  }

  /** values that accept only themselves */
  predicate Pinned(c: Json) {
    match c
    case Bool(_) => true
    case Str(_) => true
    case Obj(fields) => fields != map[] && forall k :: k in fields ==> Pinned(fields[k])
    case _ => false
  }

  /** under a parent's list only a list, or a value that accepts nothing else; through objects, key by key */
  predicate Safe(child: Json, parent: Json) {
    || Void(child)
    || match parent
       case Arr(_) => child.Arr? || Pinned(child)
       case Obj(fields) => fields != map[] && child.Obj? ==>
         forall k :: k in fields && k in child.fields ==> Safe(child.fields[k], fields[k])
       case _ => true
  }

  lemma {:induction false} VoidAcceptsNothing(c: Json, o: Json)
    requires Void(c)
    ensures !ValueSubset(o, c)
    decreases c
  {
    if c.Obj? && o.Obj? {
      var k :| k in c.fields && Void(c.fields[k]);
      if k in o.fields {
        VoidAcceptsNothing(c.fields[k], o.fields[k]);
      }
    }
  }

  lemma {:induction false} PinnedAcceptsItself(c: Json, o: Json)
    requires Pinned(c) && ValueSubset(o, c)
    ensures o == c
    decreases c
  {
    if c.Obj? {
      forall k | k in c.fields ensures o.fields[k] == c.fields[k] {
        PinnedAcceptsItself(c.fields[k], o.fields[k]);
      }
      assert o.fields == c.fields;
    }
  }

  /** values c accepts: always c itself when it is pinned, else endlessly many */
  function Sample(c: Json, i: nat): Json
    decreases c
  {
    match c
    case Null => c
    case Bool(_) => c
    case Str(_) => c
    case Num(n) => Num(Below(n, i))
    case Arr(items) => if items == [] then c else Arr(seq(i, _ => items[0]))
    case Obj(fields) =>
      if fields == map[] then Obj(map["" := Arr(seq(i, _ => Null))])
      else Obj(map k | k in fields :: Sample(fields[k], i))
  }

  lemma {:induction false} SampleAccepted(c: Json, i: nat)
    requires !Void(c)
    ensures ValueSubset(Sample(c, i), c)
    decreases c
  {
    match c
    case Num(n) => BelowIsBelow(n, i);
    case Arr(items) =>
      var s := Sample(c, i);
      assert forall j :: 0 <= j < |s.items| ==> s.items[j] == items[0];
    case Obj(fields) =>
      forall k | k in fields ensures ValueSubset(Sample(fields[k], i), fields[k]) {
        SampleAccepted(fields[k], i);
      }
    case _ =>
  }

  lemma {:induction false} SamplesDiffer(c: Json, i: nat, j: nat)
    requires !Void(c) && !Pinned(c) && i != j
    ensures Sample(c, i) != Sample(c, j)
    decreases c
  {
    match c
    case Num(n) =>
      assert Below(n, i).point != Below(n, j).point;
    case Arr(_) =>
      assert |Sample(c, i).items| == i && |Sample(c, j).items| == j;
    case Obj(fields) =>
      if fields == map[] {
        assert |Sample(c, i).fields[""].items| == i && |Sample(c, j).fields[""].items| == j;
      } else {
        var k :| k in fields && !Pinned(fields[k]);
        SamplesDiffer(fields[k], i, j);
        assert Sample(c, i).fields[k] != Sample(c, j).fields[k];
      }
  }

  lemma {:induction false} ListedAtMost(xs: seq<Json>)
    ensures |set x | x in xs| <= |xs|
  {
    if xs != [] {
      ListedAtMost(xs[1..]);
      assert (set x | x in xs) == (set x | x in xs[1..]) + {xs[0]};
    }
  }

  /** the first n samples */
  function Samples(c: Json, n: nat): set<Json> {
    set i | 0 <= i < n :: Sample(c, i)
  }

  lemma {:induction false} SamplesCount(c: Json, n: nat)
    requires !Void(c) && !Pinned(c)
    ensures |Samples(c, n)| == n
  {
    hide Sample, Void, Pinned;
    if n > 0 {
      SamplesCount(c, n - 1);
      forall i | 0 <= i < n - 1 ensures Sample(c, i) != Sample(c, n - 1) {
        SamplesDiffer(c, i, n - 1);
      }
      assert Samples(c, n) == Samples(c, n - 1) + {Sample(c, n - 1)};
    }
  }

  /** endlessly many samples do not fit into one list */
  lemma UnlistedSample(c: Json, xs: seq<Json>) returns (i: nat)
    requires !Void(c) && !Pinned(c)
    ensures Sample(c, i) !in xs
  {
    hide Sample, Void, Pinned;
    var n := |xs| + 1;
    SamplesCount(c, n);
    ListedAtMost(xs);
    var listed := set x | x in xs;
    if Samples(c, n) <= listed {
      SubsetCount(Samples(c, n), listed);
    }
    var o :| o in Samples(c, n) && o !in listed;
    i :| 0 <= i < n && Sample(c, i) == o;
  }

  lemma {:induction false} SubsetCount(a: set<Json>, b: set<Json>)
    requires a <= b
    ensures |a| <= |b|
  {
    if a != {} {
      var x :| x in a;
      SubsetCount(a - {x}, b - {x});
    }
  }

  lemma {:induction false} SafeCarries(child: Json, parent: Json, o: Json)
    requires ValueSubset(child, parent) && Safe(child, parent) && ValueSubset(o, child)
    ensures ValueSubset(o, parent)
    decreases parent
  {
    if Void(child) {
      VoidAcceptsNothing(child, o);
    } else if parent.Arr? {
      if Pinned(child) {
        PinnedAcceptsItself(child, o);
      } else {
        assert forall x :: x in child.items ==> x in parent.items by {
          assert Elements(child) == child.items;
        }
      }
    } else if parent.Obj? && parent.fields != map[] {
      hide Void, Pinned;
      forall k | k in parent.fields ensures k in o.fields && ValueSubset(o.fields[k], parent.fields[k]) {
        SafeCarries(child.fields[k], parent.fields[k], o.fields[k]);
      }
    }
  }

  lemma ListLeaks(child: Json, items: seq<Json>) returns (o: Json)
    requires !Void(child) && !Pinned(child) && !child.Arr?
    ensures ValueSubset(o, child) && !ValueSubset(o, Arr(items))
  {
    var i := UnlistedSample(child, items);
    SampleAccepted(child, i);
    o := Sample(child, i);
    assert !o.Arr? && Elements(o) == [o];
    assert [o][0] == o;
  }

  lemma RecordLeaks(child: Json, parent: Json, k: string, leak: Json) returns (o: Json)
    requires child.Obj? && parent.Obj? && !Void(child) && k in child.fields && k in parent.fields
    requires ValueSubset(leak, child.fields[k]) && !ValueSubset(leak, parent.fields[k])
    ensures ValueSubset(o, child) && !ValueSubset(o, parent)
  {
    forall j | j in child.fields ensures ValueSubset(Sample(child.fields[j], 0), child.fields[j]) {
      SampleAccepted(child.fields[j], 0);
    }
    hide Sample, Void;
    o := Obj(map j | j in child.fields :: if j == k then leak else Sample(child.fields[j], 0));
    assert o.fields[k] == leak;
  }

  /** an unsafe pair comes with a value the child accepts and the parent refuses */
  lemma {:induction false} UnsafeLeaks(child: Json, parent: Json) returns (o: Json)
    requires ValueSubset(child, parent) && !Safe(child, parent)
    ensures ValueSubset(o, child) && !ValueSubset(o, parent)
    decreases parent
  {
    hide Void, Pinned;
    if parent.Arr? {
      o := ListLeaks(child, parent.items);
    } else {
      var k :| k in parent.fields && k in child.fields && !Safe(child.fields[k], parent.fields[k]);
      var leak := UnsafeLeaks(child.fields[k], parent.fields[k]);
      o := RecordLeaks(child, parent, k, leak);
    }
  }

  /** A contained child value carries acceptance to its parent exactly when the pair is safe. */
  lemma {:induction false} CarriesExactly(child: Json, parent: Json)
    requires ValueSubset(child, parent)
    ensures Carries(child, parent) <==> Safe(child, parent)
  {
    hide ValueSubset, Safe;
    if Safe(child, parent) {
      forall o | ValueSubset(o, child) ensures ValueSubset(o, parent) {
        SafeCarries(child, parent, o);
      }
    } else {
      var o := UnsafeLeaks(child, parent);
      assert !(ValueSubset(o, child) ==> ValueSubset(o, parent));
    }
  }

  /** A contained pair whose meet is defined is safe: the chain never relies on an unsound containment. */
  lemma {:induction false} MeetMakesSafe(child: Json, parent: Json)
    requires ValueSubset(child, parent) && IntersectValue(parent, child).Some?
    ensures Safe(child, parent)
    decreases parent
  {
    hide Void, Pinned;
    if parent.Obj? && parent.fields != map[] && child.Obj? {
      forall k | k in parent.fields && k in child.fields ensures Safe(child.fields[k], parent.fields[k]) {
        MeetMakesSafe(child.fields[k], parent.fields[k]);
      }
    }
  }

  // ---------------------------------------------------------------------
  // One containment check is not enough
  // ---------------------------------------------------------------------

  const FIVE: Number := Decimal(false, "5", 1)
  const TEN: Number := Decimal(false, "1", 2)
  const THREE: Number := Decimal(false, "3", 1)

  lemma SmallNumbers()
    ensures FIVE.Value() == 5.0 && TEN.Value() == 10.0 && THREE.Value() == 3.0
  {
    assert Pow10(0) == 1.0 && Pow10(1) == 10.0;
    assert "5"[1..] == "" && "1"[1..] == "" && "3"[1..] == "";
    assert Magnitude("5", 1) == 5.0 && Magnitude("1", 2) == 10.0 && Magnitude("3", 1) == 3.0;
  }

  /** A parent that lists 5 and 10 contains the child value 5, yet the child
      value is an upper bound that admits 3, which the parent refuses.  The
      meet of the two is undefined. */
  lemma {:induction false} ContainmentAloneIsUnsound()
    ensures
      var parent, child, request := Arr([Num(FIVE), Num(TEN)]), Num(FIVE), Num(THREE);
      && ValueSubset(child, parent) && ValueSubset(request, child) && !ValueSubset(request, parent)
      && IntersectValue(parent, child).None?
  {
    SmallNumbers();
    var xs := [Num(FIVE), Num(TEN)];
    assert xs[0] == Num(FIVE);
    assert Num(THREE) !in xs;
    assert Elements(Num(FIVE)) == [Num(FIVE)] && Elements(Num(THREE))[0] == Num(THREE);
  }
}
