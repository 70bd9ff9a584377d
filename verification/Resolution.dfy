/**
 Residual obligations: a consumer reports on the constraints a decision left
 open, and the decision collapses most-restrictive-first.
 */
module Resolution {
  import opened Numbers
  import opened Collation

  datatype Status = Unknown | Satisfied | Violated

  datatype Reason = Carried | InvalidResolution | InvalidTimestamp | ViolatedBy(constraint: string)

  datatype Decision =
    | Deny(reason: Reason)
    | Allow
    | AllowUnresolved(unresolved: seq<string>)
    | Unrecognized

  /** a report; a status text outside the three known ones is None */
  datatype Report = Report(constraint: string, status: Option<Status>)

  /** the instant to judge time windows at: absent, unreadable, or a second of the day */
  datatype Clock = Absent | Unreadable | At(second: int)

  /** the half-open daily windows of a time constraint, for the constraints that carry them */
  type Windows = string -> Option<seq<(int, int)>>

  function Rank(s: Status): nat {
    match s
    case Unknown => 0
    case Satisfied => 1
    case Violated => 2
  }

  function Stricter(a: Status, b: Status): Status {
    if Rank(b) > Rank(a) then b else a
  }

  predicate WellFormed(reports: seq<Report>) {
    forall r :: r in reports ==> r.constraint != "" && r.status.Some?
  }

  function Reported(c: string, reports: seq<Report>): Status
    requires WellFormed(reports)
  {
    if reports == [] then Unknown
    else
      var init, last := reports[..|reports| - 1], reports[|reports| - 1];
      assert last in reports && forall r :: r in init ==> r in reports;
      var s := Reported(c, init);
      if last.constraint == c then Stricter(s, last.status.value) else s
  }

  /** evalCoreTimeWindow */
  function Observed(c: string, clock: Clock, windows: Windows): Status {
    if !clock.At? || windows(c).None? then Unknown
    else if exists i :: 0 <= i < |windows(c).value| && windows(c).value[i].0 <= clock.second < windows(c).value[i].1
    then Satisfied else Violated
  }

  function StatusOf(c: string, reports: seq<Report>, clock: Clock, windows: Windows): Status
    requires WellFormed(reports)
  {
    Stricter(Reported(c, reports), Observed(c, clock, windows))
  }

  /** the obligations still unknown, in order, or the first violated one */
  datatype Sweep = Broken(constraint: string) | Left(remainder: seq<string>)

  function SweepAll(obligations: seq<string>, reports: seq<Report>, clock: Clock, windows: Windows): Sweep
    requires WellFormed(reports)
  {
    if obligations == [] then Left([])
    else
      var init, o := obligations[..|obligations| - 1], obligations[|obligations| - 1];
      var s := SweepAll(init, reports, clock, windows);
      if s.Broken? then s
      else
        match StatusOf(o, reports, clock, windows)
        case Violated => Broken(o)
        case Satisfied => s
        case Unknown => Left(s.remainder + [o])
  }

  function Collapse(s: Sweep): Decision {
    match s
    case Broken(o) => Deny(ViolatedBy(o))
    case Left(r) => if r == [] then Allow else AllowUnresolved(r)
  }

  function Obligations(unresolved: seq<string>): seq<string> {
    SortedKeys(CodePoints, set c | c in unresolved)
  }

  function Resolve(d: Decision, reports: seq<Report>, clock: Clock, windows: Windows): Decision {
    match d
    case Deny(_) => d
    case Allow => d
    case Unrecognized => Deny(InvalidResolution)
    case AllowUnresolved(unresolved) =>
      if !WellFormed(reports) then Deny(InvalidResolution)
      else if clock.Unreadable? then Deny(InvalidTimestamp)
      else Collapse(SweepAll(Obligations(unresolved), reports, clock, windows))
  }

  method StrictestReport(o: string, reports: seq<Report>) returns (status: Status)
    requires WellFormed(reports)
    ensures status == Reported(o, reports)
  {
    status := Unknown;
    for j := 0 to |reports|
      invariant WellFormed(reports[..j]) && status == Reported(o, reports[..j])
    {
      assert reports[..j + 1][..j] == reports[..j];
      assert reports[j] in reports && forall x :: x in reports[..j + 1] ==> x in reports;
      if reports[j].constraint == o {
        status := Stricter(status, reports[j].status.value);
      }
    }
    assert reports[..|reports|] == reports;
  }

  /** the loops of Resolve */
  method ResolveDecision(d: Decision, reports: seq<Report>, clock: Clock, windows: Windows) returns (r: Decision)
    ensures r == Resolve(d, reports, clock, windows)
  {
    hide WellFormed, Reported, Stricter, Observed, Obligations, SweepAll;
    if d.Deny? || d.Allow? {
      return d;
    }
    if !d.AllowUnresolved? || !WellFormed(reports) {
      return Deny(InvalidResolution);
    }
    if clock.Unreadable? {
      return Deny(InvalidTimestamp);
    }
    var obligations := Obligations(d.unresolved);
    var remainder: seq<string> := [];
    SweepNone(reports, clock, windows);
    for i := 0 to |obligations|
      invariant SweepAll(obligations[..i], reports, clock, windows) == Left(remainder)
    {
      var o := obligations[i];
      SweepNext(obligations, i, reports, clock, windows);
      var status := StrictestReport(o, reports);
      status := Stricter(status, Observed(o, clock, windows));
      match status {
        case Violated =>
          BrokenStays(obligations, i + 1, reports, clock, windows);
          return Deny(ViolatedBy(o));
        case Satisfied =>
        case Unknown => remainder := remainder + [o];
      }
    }
    assert obligations[..|obligations|] == obligations;
    r := if remainder == [] then Allow else AllowUnresolved(remainder);
  }

  lemma SweepNone(reports: seq<Report>, clock: Clock, windows: Windows)
    requires WellFormed(reports)
    ensures SweepAll([], reports, clock, windows) == Left([])
  {
  }

  lemma SweepNext(obligations: seq<string>, i: nat, reports: seq<Report>, clock: Clock, windows: Windows)
    requires WellFormed(reports) && i < |obligations| && SweepAll(obligations[..i], reports, clock, windows).Left?
    ensures SweepAll(obligations[..i + 1], reports, clock, windows) ==
      match StatusOf(obligations[i], reports, clock, windows)
      case Violated => Broken(obligations[i])
      case Satisfied => SweepAll(obligations[..i], reports, clock, windows)
      case Unknown => Left(SweepAll(obligations[..i], reports, clock, windows).remainder + [obligations[i]])
  {
    hide StatusOf;
    assert obligations[..i + 1][..i] == obligations[..i];
  }

  lemma {:induction false} BrokenStays(obligations: seq<string>, i: nat, reports: seq<Report>, clock: Clock, windows: Windows)
    requires i <= |obligations| && WellFormed(reports) && SweepAll(obligations[..i], reports, clock, windows).Broken?
    ensures SweepAll(obligations, reports, clock, windows) == SweepAll(obligations[..i], reports, clock, windows)
    decreases |obligations|
  {
    if i < |obligations| {
      var n := |obligations| - 1;
      assert obligations[..n][..i] == obligations[..i];
      BrokenStays(obligations[..n], i, reports, clock, windows);
    } else {
      assert obligations[..i] == obligations;
    }
  }

  // ---------------------------------------------------------------------
  // What a resolution says, obligation by obligation
  // ---------------------------------------------------------------------

  /** the obligations nothing is known about, in order */
  function Open(obligations: seq<string>, reports: seq<Report>, clock: Clock, windows: Windows): (r: seq<string>)
    requires WellFormed(reports)
    ensures forall x :: x in r <==> x in obligations && StatusOf(x, reports, clock, windows) == Unknown
  {
    if obligations == [] then []
    else
      var init, o := obligations[..|obligations| - 1], obligations[|obligations| - 1];
      assert obligations == init + [o];
      var r := Open(init, reports, clock, windows);
      if StatusOf(o, reports, clock, windows) == Unknown then r + [o] else r
  }

  lemma {:induction false} SweepExact(obligations: seq<string>, reports: seq<Report>, clock: Clock, windows: Windows)
    requires WellFormed(reports)
    ensures
      var s := SweepAll(obligations, reports, clock, windows);
      && (s.Broken? <==> exists o :: o in obligations && StatusOf(o, reports, clock, windows) == Violated)
      && (s.Left? ==> s.remainder == Open(obligations, reports, clock, windows))
  {
    if obligations != [] {
      var init, o := obligations[..|obligations| - 1], obligations[|obligations| - 1];
      SweepExact(init, reports, clock, windows);
      assert obligations == init + [o];
    }
  }

  predicate Says(c: string, reports: seq<Report>, s: Status) {
    Report(c, Some(s)) in reports
  }

  /** A reported status is the strictest one any report gives. */
  lemma {:induction false} ReportedExact(c: string, reports: seq<Report>)
    requires WellFormed(reports)
    ensures Reported(c, reports) ==
            if Says(c, reports, Violated) then Violated else if Says(c, reports, Satisfied) then Satisfied else Unknown
  {
    if reports != [] {
      var init, last := reports[..|reports| - 1], reports[|reports| - 1];
      assert last in reports && forall r :: r in init ==> r in reports;
      ReportedExact(c, init);
      assert reports == init + [last];
      assert forall r :: r in reports <==> r in init || r == last;
    }
  }

  lemma {:induction false} SweepByStatus(obligations: seq<string>, a: seq<Report>, b: seq<Report>, clock: Clock, windows: Windows)
    requires WellFormed(a) && WellFormed(b)
    requires forall o :: o in obligations ==> StatusOf(o, a, clock, windows) == StatusOf(o, b, clock, windows)
    ensures SweepAll(obligations, a, clock, windows) == SweepAll(obligations, b, clock, windows)
  {
    if obligations != [] {
      var init, o := obligations[..|obligations| - 1], obligations[|obligations| - 1];
      assert obligations == init + [o];
      SweepByStatus(init, a, b, clock, windows);
    }
  }

  /** Order and repetition of reports never matter. */
  lemma {:induction false} ReportOrderIrrelevant(d: Decision, a: seq<Report>, b: seq<Report>, clock: Clock, windows: Windows)
    requires forall r :: r in a <==> r in b
    ensures Resolve(d, a, clock, windows) == Resolve(d, b, clock, windows)
  {
    if d.AllowUnresolved? && WellFormed(a) {
      var obligations := Obligations(d.unresolved);
      forall o | o in obligations ensures StatusOf(o, a, clock, windows) == StatusOf(o, b, clock, windows) {
        ReportedExact(o, a);
        ReportedExact(o, b);
      }
      SweepByStatus(obligations, a, b, clock, windows);
    }
  }

  // ---------------------------------------------------------------------
  // Resolving twice
  // ---------------------------------------------------------------------

  lemma {:induction false} OpenSorted(obligations: seq<string>, reports: seq<Report>, clock: Clock, windows: Windows)
    requires WellFormed(reports) && Sorted(CodePoints, obligations)
    ensures Sorted(CodePoints, Open(obligations, reports, clock, windows))
  {
    hide Less, StatusOf;
    if obligations != [] {
      var init, o := obligations[..|obligations| - 1], obligations[|obligations| - 1];
      OpenSorted(init, reports, clock, windows);
      forall x | x in init ensures Less(CodePoints, x, o) {
        var i :| 0 <= i < |init| && init[i] == x;
        assert obligations[i] == x;
      }
      var k := Open(init, reports, clock, windows);
      assert forall i :: 0 <= i < |k| ==> k[i] in init;
    }
  }

  lemma RemainderIsListing(obligations: seq<string>, reports: seq<Report>, clock: Clock, windows: Windows)
    requires WellFormed(reports) && Sorted(CodePoints, obligations)
    ensures Obligations(Open(obligations, reports, clock, windows)) == Open(obligations, reports, clock, windows)
  {
    var r := Open(obligations, reports, clock, windows);
    OpenSorted(obligations, reports, clock, windows);
    hide Sorted, SortedKeys, Open;
    SortedUnique(CodePoints, r, set c | c in r);
  }

  lemma {:induction false} SweepNamesFirst(obligations: seq<string>, reports: seq<Report>, clock: Clock, windows: Windows)
    returns (k: nat)
    requires WellFormed(reports) && SweepAll(obligations, reports, clock, windows).Broken?
    ensures k < |obligations| && SweepAll(obligations, reports, clock, windows).constraint == obligations[k]
    ensures StatusOf(obligations[k], reports, clock, windows) == Violated
    ensures forall j :: 0 <= j < k ==> StatusOf(obligations[j], reports, clock, windows) != Violated
  {
    hide StatusOf;
    var n := |obligations| - 1;
    var init := obligations[..n];
    if SweepAll(init, reports, clock, windows).Broken? {
      k := SweepNamesFirst(init, reports, clock, windows);
    } else {
      k := n;
      SweepExact(init, reports, clock, windows);
      assert forall j :: 0 <= j < n ==> obligations[j] in init;
    }
  }

  /** c is violated and comes before every other violated obligation */
  ghost predicate FirstViolated(c: string, unresolved: seq<string>, reports: seq<Report>, clock: Clock, windows: Windows)
    requires WellFormed(reports)
  {
    && c in unresolved && StatusOf(c, reports, clock, windows) == Violated
    && forall o :: o in unresolved && StatusOf(o, reports, clock, windows) == Violated ==> o == c || Less(CodePoints, c, o)
  }

  lemma SweepNamesLeast(unresolved: seq<string>, reports: seq<Report>, clock: Clock, windows: Windows)
    requires WellFormed(reports) && SweepAll(Obligations(unresolved), reports, clock, windows).Broken?
    ensures FirstViolated(SweepAll(Obligations(unresolved), reports, clock, windows).constraint, unresolved, reports, clock, windows)
  {
    hide StatusOf, SweepAll, SortedKeys, Less;
    var obligations := Obligations(unresolved);
    var k := SweepNamesFirst(obligations, reports, clock, windows);
    var c := obligations[k];
    assert c in obligations;
    forall o | o in unresolved && StatusOf(o, reports, clock, windows) == Violated ensures o == c || Less(CodePoints, c, o) {
      assert o in obligations;
      var j :| 0 <= j < |obligations| && obligations[j] == o;
    }
  }

  /** A well-formed resolution denies when an obligation is violated, naming the
      first in sorted order, and otherwise keeps exactly the obligations still unknown. */
  lemma {:induction false} ResolveExact(unresolved: seq<string>, reports: seq<Report>, clock: Clock, windows: Windows)
    requires WellFormed(reports) && !clock.Unreadable?
    ensures
      var r := Resolve(AllowUnresolved(unresolved), reports, clock, windows);
      var left := Open(Obligations(unresolved), reports, clock, windows);
      if exists o :: o in unresolved && StatusOf(o, reports, clock, windows) == Violated
      then r.Deny? && r.reason.ViolatedBy? && FirstViolated(r.reason.constraint, unresolved, reports, clock, windows)
      else r == if left == [] then Allow else AllowUnresolved(left)
  {
    SweepExact(Obligations(unresolved), reports, clock, windows);
    if SweepAll(Obligations(unresolved), reports, clock, windows).Broken? {
      SweepNamesLeast(unresolved, reports, clock, windows);
    }
  }

  /** the clock stands inside one of the windows of a time constraint, or inside none */
  predicate Inside(c: string, clock: Clock, windows: Windows) {
    clock.At? && windows(c).Some? && exists w :: w in windows(c).value && w.0 <= clock.second < w.1
  }

  predicate Outside(c: string, clock: Clock, windows: Windows) {
    clock.At? && windows(c).Some? && forall w :: w in windows(c).value ==> clock.second < w.0 || w.1 <= clock.second
  }

  /** reported violated, or judged outside its windows */
  predicate Breached(c: string, reports: seq<Report>, clock: Clock, windows: Windows) {
    Report(c, Some(Violated)) in reports || Outside(c, clock, windows)
  }

  /** reported satisfied, or judged inside one of its windows */
  predicate Honoured(c: string, reports: seq<Report>, clock: Clock, windows: Windows) {
    Report(c, Some(Satisfied)) in reports || Inside(c, clock, windows)
  }

  lemma StatusOnFacts(c: string, reports: seq<Report>, clock: Clock, windows: Windows)
    requires WellFormed(reports)
    ensures StatusOf(c, reports, clock, windows) ==
      if Breached(c, reports, clock, windows) then Violated else if Honoured(c, reports, clock, windows) then Satisfied else Unknown
  {
    ReportedExact(c, reports);
    if clock.At? && windows(c).Some? {
      var ws := windows(c).value;
      assert forall i :: 0 <= i < |ws| ==> ws[i] in ws;
    }
    hide Reported, WellFormed;
  }

  /** A resolution denies exactly when an obligation is broken, allows exactly
      when all are kept and none broken, and otherwise leaves, sorted, those
      about which nothing is known. */
  lemma {:induction false} ResolveOnFacts(unresolved: seq<string>, reports: seq<Report>, clock: Clock, windows: Windows)
    requires WellFormed(reports) && !clock.Unreadable?
    ensures
      var r := Resolve(AllowUnresolved(unresolved), reports, clock, windows);
      && (r.Deny? <==> exists o :: o in unresolved && Breached(o, reports, clock, windows))
      && (r.Allow? <==> forall o :: o in unresolved ==> !Breached(o, reports, clock, windows) && Honoured(o, reports, clock, windows))
      && (r.AllowUnresolved? ==>
           && Sorted(CodePoints, r.unresolved)
           && forall o :: o in r.unresolved <==>
                o in unresolved && !Breached(o, reports, clock, windows) && !Honoured(o, reports, clock, windows))
      && !r.Unrecognized?
  {
    var obligations := Obligations(unresolved);
    forall o ensures StatusOf(o, reports, clock, windows) ==
      if Breached(o, reports, clock, windows) then Violated else if Honoured(o, reports, clock, windows) then Satisfied else Unknown
    {
      StatusOnFacts(o, reports, clock, windows);
    }
    assert SameKeys(obligations, set c | c in unresolved) && Sorted(CodePoints, obligations);
    hide StatusOf, Breached, Honoured, SortedKeys, Sorted, Obligations, WellFormed, Resolve, FirstViolated, Open;
    ResolveExact(unresolved, reports, clock, windows);
    OpenSorted(obligations, reports, clock, windows);
    var left := Open(obligations, reports, clock, windows);
    if left != [] {
      assert left[0] in left;
    }
  }

  /** A report without a constraint or with an unknown status, or a clock that
      cannot be read, denies whatever is open, before anything is discharged. */
  lemma {:induction false} MalformedIsDenied(unresolved: seq<string>, reports: seq<Report>, clock: Clock, windows: Windows)
    ensures (exists r :: r in reports && (r.constraint == "" || r.status.None?)) ==>
      Resolve(AllowUnresolved(unresolved), reports, clock, windows) == Deny(InvalidResolution)
    ensures clock.Unreadable? ==> Resolve(AllowUnresolved(unresolved), reports, clock, windows).Deny?
  {
    hide SweepAll;
  }

  /** Resolving again with the same reports and clock changes nothing. */
  lemma {:induction false} ResolveIdempotent(d: Decision, reports: seq<Report>, clock: Clock, windows: Windows)
    ensures
      var once := Resolve(d, reports, clock, windows);
      Resolve(once, reports, clock, windows) == once
  {
    var once := Resolve(d, reports, clock, windows);
    if d.AllowUnresolved? && once.AllowUnresolved? {
      var obligations := Obligations(d.unresolved);
      SweepExact(obligations, reports, clock, windows);
      RemainderIsListing(obligations, reports, clock, windows);
      SweepUnknown(once.unresolved, reports, clock, windows);
    }
  }

  lemma {:induction false} SweepUnknown(obligations: seq<string>, reports: seq<Report>, clock: Clock, windows: Windows)
    requires WellFormed(reports) && forall o :: o in obligations ==> StatusOf(o, reports, clock, windows) == Unknown
    ensures SweepAll(obligations, reports, clock, windows) == Left(obligations)
  {
    if obligations != [] {
      var init, o := obligations[..|obligations| - 1], obligations[|obligations| - 1];
      assert obligations == init + [o];
      SweepUnknown(init, reports, clock, windows);
    }
  }

  // ---------------------------------------------------------------------
  // Resolving in stages
  // ---------------------------------------------------------------------

  lemma StatusTogether(c: string, a: seq<Report>, b: seq<Report>, clock: Clock, windows: Windows)
    requires WellFormed(a) && WellFormed(b)
    ensures WellFormed(a + b)
    ensures StatusOf(c, a + b, clock, windows) ==
            Stricter(StatusOf(c, a, clock, windows), StatusOf(c, b, clock, windows))
  {
    ReportedExact(c, a);
    ReportedExact(c, b);
    ReportedExact(c, a + b);
  }

  /** Unless the batch denies, resolving in two stages gives what resolving all
      reports together gives; and a staged denial is always a batch denial. */
  lemma {:induction false} StagedVersusBatch(d: Decision, a: seq<Report>, b: seq<Report>, clock: Clock, windows: Windows)
    ensures
      var batch := Resolve(d, a + b, clock, windows);
      var staged := Resolve(Resolve(d, a, clock, windows), b, clock, windows);
      && (!batch.Deny? ==> staged == batch)
      && (staged.Deny? ==> batch.Deny?)
  {
    if d.AllowUnresolved? && WellFormed(a + b) && !clock.Unreadable? {
      SplitWellFormed(a, b);
      StagedWellFormed(d.unresolved, a, b, clock, windows);
    } else if d.AllowUnresolved? && !clock.Unreadable? {
      assert Resolve(d, a + b, clock, windows).Deny?;
    }
  }

  lemma SplitWellFormed(a: seq<Report>, b: seq<Report>)
    ensures WellFormed(a + b) <==> WellFormed(a) && WellFormed(b)
  {
    assert forall r :: r in a + b <==> r in a || r in b;
  }

  lemma {:induction false} OpenTwice(obligations: seq<string>, a: seq<Report>, b: seq<Report>, clock: Clock, windows: Windows)
    requires WellFormed(a) && WellFormed(b) && WellFormed(a + b)
    ensures Open(Open(obligations, a, clock, windows), b, clock, windows) == Open(obligations, a + b, clock, windows)
  {
    if obligations != [] {
      var init, o := obligations[..|obligations| - 1], obligations[|obligations| - 1];
      OpenTwice(init, a, b, clock, windows);
      StatusTogether(o, a, b, clock, windows);
      hide StatusOf;
      var k := Open(init, a, clock, windows);
      assert (k + [o])[..|k|] == k;
    }
  }

  lemma StagedWellFormed(unresolved: seq<string>, a: seq<Report>, b: seq<Report>, clock: Clock, windows: Windows)
    requires WellFormed(a) && WellFormed(b) && WellFormed(a + b) && !clock.Unreadable?
    ensures
      var d := AllowUnresolved(unresolved);
      var batch := Resolve(d, a + b, clock, windows);
      var staged := Resolve(Resolve(d, a, clock, windows), b, clock, windows);
      && (!batch.Deny? ==> staged == batch)
      && (staged.Deny? ==> batch.Deny?)
  {
    var d := AllowUnresolved(unresolved);
    var obligations := Obligations(unresolved);
    forall o ensures StatusOf(o, a + b, clock, windows) ==
                     Stricter(StatusOf(o, a, clock, windows), StatusOf(o, b, clock, windows)) {
      StatusTogether(o, a, b, clock, windows);
    }
    ResolveExact(unresolved, a, clock, windows);
    ResolveExact(unresolved, a + b, clock, windows);
    OpenTwice(obligations, a, b, clock, windows);
    var first := Resolve(d, a, clock, windows);
    if first.AllowUnresolved? {
      RemainderIsListing(obligations, a, clock, windows);
      ResolveExact(first.unresolved, b, clock, windows);
    }
    hide SweepAll, StatusOf;
  }
}
