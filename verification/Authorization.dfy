/**
 The decision function: constraints, the multi-grant union, and delegation
 chains judged against the meet of all their grants.
 */
module Authorization {
  import opened Numbers
  import opened Binary64
  import opened Caps
  import opened Collation
  import opened Ids
  import opened Grants

  // ---------------------------------------------------------------------
  // Constraints
  // ---------------------------------------------------------------------

  const SCHEME := "varwof/constraint-v1"

  /** the value grammars of the two constraint types the core does not evaluate */
  datatype Grammar = Grammar(window: string -> bool, cidr: string -> bool)

  /** the value part of a constraint, its own colons restored */
  function Join(parts: seq<string>): string {
    if parts == [] then "" else if |parts| == 1 then parts[0] else parts[0] + ":" + Join(parts[1..])
  }

  predicate StrictInteger(s: string) {
    s != [] && AllDigits(s) && (|s| > 1 ==> s[0] != '0')
  }

  predicate Recognized(parts: seq<string>) {
    |parts| >= 2 && parts[0] == SCHEME && (parts[1] == "max_rows" || parts[1] == "time" || parts[1] == "network")
  }

  predicate ValidConstraint(c: string, grammar: Grammar) {
    var parts := Split(c);
    && Recognized(parts)
    && var value := Join(parts[2..]);
       if parts[1] == "max_rows" then |parts| == 3 && StrictInteger(parts[2]) && TextNat(parts[2]) <= MAX_INTEGER
       else if parts[1] == "time" then "window:" <= value && grammar.window(value[|"window:"|..])
       else "cidr:" <= value && grammar.cidr(value[|"cidr:"|..])
  }

  /** CheckConstraint: only a row limit is decided here */
  predicate ConstraintHolds(c: string, op: Operation) {
    var parts := Split(c);
    Recognized(parts) && parts[1] == "max_rows" && |parts| == 3 && StrictInteger(parts[2]) ==>
      && "max_rows" in op.params && op.params["max_rows"].Num?
      && var rows := op.params["max_rows"].n.Value();
         rows == rows.Floor as real && 0.0 <= rows <= TextNat(parts[2]) as real
  }

  predicate CoreEvaluates(c: string) {
    Recognized(Split(c)) && Split(c)[1] == "max_rows"
  }

  // ---------------------------------------------------------------------
  // AuthorizeSet
  // ---------------------------------------------------------------------

  datatype Decision = Deny | Allow | AllowUnresolved(unresolved: seq<string>)

  function Residual(d: Decision): seq<string> {
    if d.AllowUnresolved? then d.unresolved else []
  }

  predicate ConstraintsHold(g: Grant, op: Operation, grammar: Grammar) {
    forall i :: 0 <= i < |g.constraints| ==>
      ValidConstraint(g.constraints[i], grammar) && ConstraintHolds(g.constraints[i], op)
  }

  /** one covering grant that allows the operation, residual obligations aside */
  predicate Allows(g: Grant, op: Operation, grammar: Grammar) {
    g.id != "" && Entails(g, op) && ConstraintsHold(g, op, grammar)
  }

  predicate ValidOperation(op: Operation) {
    ValidId(op.id) && ValidParams(op.params)
  }

  function Obligations(g: Grant): set<string> {
    set c | c in g.constraints && !CoreEvaluates(c)
  }

  function Conclude(allowed: bool, unresolved: set<string>): Decision {
    if !allowed then Deny
    else if unresolved == {} then Allow
    else AllowUnresolved(SortedKeys(CodePoints, unresolved))
  }

  /** obligations of the grants that allow, unioned */
  function AllObligations(grants: seq<Grant>, op: Operation, grammar: Grammar): set<string> {
    set g, c | g in grants && Allows(g, op, grammar) && c in Obligations(g) :: c
  }

  function AuthorizeSet(grants: seq<Grant>, op: Operation, grammar: Grammar): Decision {
    if !ValidOperation(op) then Deny
    else Conclude(exists g :: g in grants && Allows(g, op, grammar), AllObligations(grants, op, grammar))
  }

  // ---------------------------------------------------------------------
  // What a denial is blamed on
  // ---------------------------------------------------------------------

  /** the source of a denial's reason: a constraint is named by its grant and its place in the grant */
  datatype Cause =
    | NotAuthorized
    | InvalidId
    | InvalidParams
    | ParamsRefused(grant: nat)
    | ConstraintRefused(grant: nat, constraint: nat)

  /** the identifier covers the operation; every refusal after that is about parameters */
  predicate Covers(g: Grant, op: Operation) {
    g.id != "" && IdEntails(g.id, op.id)
  }

  predicate ConstraintMet(c: string, op: Operation, grammar: Grammar) {
    ValidConstraint(c, grammar) && ConstraintHolds(c, op)
  }

  /** k is the first constraint that fails */
  predicate FirstFailing(constraints: seq<string>, k: nat, op: Operation, grammar: Grammar) {
    && k < |constraints| && !ConstraintMet(constraints[k], op, grammar)
    && forall j :: 0 <= j < k ==> ConstraintMet(constraints[j], op, grammar)
  }

  /** grant i covers the operation and no grant before it does */
  predicate FirstCovering(grants: seq<Grant>, i: nat, op: Operation) {
    && i < |grants| && Covers(grants[i], op)
    && forall j :: 0 <= j < i ==> !Covers(grants[j], op)
  }

  /** unnamed grants come before the operation, its identifier before its
      parameters, and then the first covering grant speaks: its parameters
      before its constraints, its constraints in order */
  predicate Blames(cause: Cause, grants: seq<Grant>, op: Operation, grammar: Grammar) {
    var named := exists g :: g in grants && g.id != "";
    match cause
    case NotAuthorized => named ==> ValidOperation(op) && forall g :: g in grants ==> !Covers(g, op)
    case InvalidId => named && !ValidId(op.id)
    case InvalidParams => named && ValidId(op.id) && !ValidParams(op.params)
    case ParamsRefused(i) =>
      ValidOperation(op) && FirstCovering(grants, i, op) && !Entails(grants[i], op)
    case ConstraintRefused(i, k) =>
      && ValidOperation(op) && FirstCovering(grants, i, op) && Entails(grants[i], op)
      && FirstFailing(grants[i].constraints, k, op, grammar)
  }

  lemma FirstCoveringUnique(grants: seq<Grant>, i: nat, j: nat, op: Operation)
    requires FirstCovering(grants, i, op) && FirstCovering(grants, j, op)
    ensures i == j
  {
  }

  /** a denial has exactly one cause */
  lemma {:induction false} OneCause(grants: seq<Grant>, op: Operation, grammar: Grammar, a: Cause, b: Cause)
    requires Blames(a, grants, op, grammar) && Blames(b, grants, op, grammar)
    ensures a == b
  {
    hide Entails, ValidId, ValidParams, IdEntails, ConstraintMet;
    if (a.ParamsRefused? || a.ConstraintRefused?) && (b.ParamsRefused? || b.ConstraintRefused?) {
      FirstCoveringUnique(grants, a.grant, b.grant, op);
    }
  }

  /** a grant's constraints in order, stopping at the first that fails */
  method EvaluateConstraints(constraints: seq<string>, op: Operation, grammar: Grammar)
    returns (holds: bool, pending: set<string>, failing: nat)
    ensures holds <==> forall i :: 0 <= i < |constraints| ==>
                         ValidConstraint(constraints[i], grammar) && ConstraintHolds(constraints[i], op)
    ensures holds ==> pending == set c | c in constraints && !CoreEvaluates(c)
    ensures !holds ==> FirstFailing(constraints, failing, op, grammar)
  {
    hide ValidConstraint, ConstraintHolds, CoreEvaluates;
    pending, failing := {}, 0;
    for i := 0 to |constraints|
      invariant pending == set c | c in constraints[..i] && !CoreEvaluates(c)
      invariant forall j :: 0 <= j < i ==> ConstraintMet(constraints[j], op, grammar)
    {
      var c := constraints[i];
      assert constraints[..i + 1] == constraints[..i] + [c];
      if !ValidConstraint(c, grammar) || !ConstraintHolds(c, op) {
        return false, {}, i;
      }
      if !CoreEvaluates(c) {
        pending := pending + {c};
      }
    }
    assert constraints[..|constraints|] == constraints;
    holds := true;
  }

  lemma ObligationsSnoc(grants: seq<Grant>, g: Grant, op: Operation, grammar: Grammar)
    ensures AllObligations(grants + [g], op, grammar)
            == AllObligations(grants, op, grammar) + (if Allows(g, op, grammar) then Obligations(g) else {})
  {
    hide Allows, Obligations;
    assert forall x :: x in grants + [g] <==> x in grants || x == g;
  }

  /** the first of the grants that covers the operation without allowing it */
  predicate FirstRefusing(grants: seq<Grant>, i: nat, op: Operation, grammar: Grammar) {
    && i < |grants| && Covers(grants[i], op) && !Allows(grants[i], op, grammar)
    && forall j :: 0 <= j < i ==> Covers(grants[j], op) ==> Allows(grants[j], op, grammar)
  }

  /** the reason kept so far, should no grant allow in the end */
  predicate Kept(cause: Cause, grants: seq<Grant>, op: Operation, grammar: Grammar) {
    match cause
    case NotAuthorized => forall g :: g in grants && Covers(g, op) ==> Allows(g, op, grammar)
    case ParamsRefused(i) => FirstRefusing(grants, i, op, grammar) && !Entails(grants[i], op)
    case ConstraintRefused(i, k) =>
      && FirstRefusing(grants, i, op, grammar) && Entails(grants[i], op)
      && FirstFailing(grants[i].constraints, k, op, grammar)
    case _ => false
  }

  /** a reason once kept stays */
  lemma KeptStays(cause: Cause, grants: seq<Grant>, g: Grant, op: Operation, grammar: Grammar)
    requires Kept(cause, grants, op, grammar)
    requires cause.NotAuthorized? ==> !Covers(g, op) || Allows(g, op, grammar)
    ensures Kept(cause, grants + [g], op, grammar)
  {
    hide Covers, Allows, Entails, FirstFailing;
    assert forall j :: 0 <= j < |grants| ==> (grants + [g])[j] == grants[j];
  }

  /** the first refusal is kept */
  lemma KeptFirst(cause: Cause, grants: seq<Grant>, g: Grant, op: Operation, grammar: Grammar)
    requires Kept(NotAuthorized, grants, op, grammar) && Covers(g, op) && !Allows(g, op, grammar)
    requires cause.ParamsRefused? ==> !Entails(g, op)
    requires cause.ConstraintRefused? ==> Entails(g, op) && FirstFailing(g.constraints, cause.constraint, op, grammar)
    requires (cause.ParamsRefused? || cause.ConstraintRefused?) && cause.grant == |grants|
    ensures Kept(cause, grants + [g], op, grammar)
  {
    hide Covers, Allows, Entails, FirstFailing;
    assert forall j :: 0 <= j < |grants| ==> (grants + [g])[j] == grants[j];
  }

  /** with no grant allowing, the reason kept is the cause */
  lemma KeptBlames(cause: Cause, grants: seq<Grant>, op: Operation, grammar: Grammar)
    requires Kept(cause, grants, op, grammar) && ValidOperation(op)
    requires forall g :: g in grants ==> !Allows(g, op, grammar)
    ensures Blames(cause, grants, op, grammar)
  {
    hide Covers, Allows, Entails, FirstFailing, ValidOperation;
  }

  lemma AllowsOnCover(g: Grant, op: Operation, grammar: Grammar)
    ensures Allows(g, op, grammar) ==> Covers(g, op)
    ensures Entails(g, op) ==> IdEntails(g.id, op.id)
  {
    hide IdEntails;
  }

  /** the scan over grants in input order that computes the decision, and whom a denial quotes */
  method EvaluateSet(grants: seq<Grant>, op: Operation, grammar: Grammar) returns (d: Decision, cause: Cause)
    ensures d == AuthorizeSet(grants, op, grammar)
    ensures d.Deny? ==> Blames(cause, grants, op, grammar)
  {
    hide IdEntails, Entails, ValidId, ValidParams, ValidConstraint, ConstraintHolds, CoreEvaluates, AllObligations, Kept;
    d, cause := Deny, NotAuthorized;
    if forall g :: g in grants ==> g.id == "" {
      return;
    }
    if !ValidId(op.id) {
      cause := InvalidId;
      return;
    }
    if !ValidParams(op.params) {
      cause := InvalidParams;
      return;
    }
    var unresolved, allowed := {}, false;
    ObligationsNone(op, grammar);
    KeptNone(op, grammar);
    for i := 0 to |grants|
      invariant allowed <==> exists g :: g in grants[..i] && Allows(g, op, grammar)
      invariant unresolved == AllObligations(grants[..i], op, grammar)
      invariant Kept(cause, grants[..i], op, grammar)
    {
      var g := grants[i];
      assert grants[..i + 1] == grants[..i] + [g];
      ObligationsSnoc(grants[..i], g, op, grammar);
      AllowsOnCover(g, op, grammar);
      var first := cause.NotAuthorized?;
      if g.id != "" && IdEntails(g.id, op.id) {
        if !Entails(g, op) {
          if first {
            cause := ParamsRefused(i);
            KeptFirst(cause, grants[..i], g, op, grammar);
          }
        } else {
          var holds, pending, failing := EvaluateConstraints(g.constraints, op, grammar);
          if holds {
            allowed := true;
            unresolved := unresolved + pending;
          } else if first {
            cause := ConstraintRefused(i, failing);
            KeptFirst(cause, grants[..i], g, op, grammar);
          }
        }
      }
      if !first || cause.NotAuthorized? {
        KeptStays(cause, grants[..i], g, op, grammar);
      }
    }
    assert grants[..|grants|] == grants;
    d := Conclude(allowed, unresolved);
    if !allowed {
      KeptBlames(cause, grants, op, grammar);
    }
  }

  lemma KeptNone(op: Operation, grammar: Grammar)
    ensures Kept(NotAuthorized, [], op, grammar)
  {
  }

  lemma ObligationsNone(op: Operation, grammar: Grammar)
    ensures AllObligations([], op, grammar) == {}
  {
  }

  // ---------------------------------------------------------------------
  // AuthorizeWithChain
  // ---------------------------------------------------------------------

  predicate ContainedChain(chain: seq<Grant>) {
    forall i :: 0 <= i < |chain| - 1 ==> Contains(chain[i], chain[i + 1])
  }

  function AuthorizeWithChain(chain: seq<Grant>, op: Operation, grammar: Grammar): Decision {
    if chain == [] || !ContainedChain(chain) then Deny
    else
      var effective := Intersect(chain);
      if effective.None? then Deny else AuthorizeSet([effective.value], op, grammar)
  }
}
