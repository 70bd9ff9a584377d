/**
 Delegation chains.  A chain decision that does not deny speaks for every
 grant in the chain, although one containment check alone would not.
 */
module Delegation {
  import opened Numbers
  import opened Collation
  import opened Grants
  import opened GrantMeet
  import opened GrantOrder
  import opened Authorization

  // ---------------------------------------------------------------------
  // Constraints of the meet
  // ---------------------------------------------------------------------

  lemma ConstraintSomewhere(grants: seq<Grant>, c: string)
    requires grants != []
    ensures var n := |grants| - 1;
      (exists i :: 0 <= i < |grants| && c in grants[i].constraints) <==>
      c in grants[n].constraints || exists i :: 0 <= i < |grants[..n]| && c in grants[..n][i].constraints
  {
    var n := |grants| - 1;
    if i :| 0 <= i < |grants| && c in grants[i].constraints {
      assert i < n ==> grants[..n][i] == grants[i];
    }
    if i :| 0 <= i < |grants[..n]| && c in grants[..n][i].constraints {
      assert grants[..n][i] == grants[i];
    }
  }

  lemma {:induction false} MergeAllConstraints(grants: seq<Grant>, m: Grant)
    requires grants != [] && MergeAll(grants) == Some(m)
    ensures forall c :: c in m.constraints <==> exists i :: 0 <= i < |grants| && c in grants[i].constraints
  {
    hide MergeIds, ParamsMeet, BoundsMeet, MergeParams, MergeBounds;
    var n := |grants| - 1;
    if n > 0 {
      var init := grants[..n];
      var r := MergeAll(init).value;
      MergeAllConstraints(init, r);
      assert forall c :: c in m.constraints <==> c in r.constraints || c in grants[n].constraints;
      hide MergeAll, Merge;
      forall c ensures c in m.constraints <==> exists i :: 0 <= i < |grants| && c in grants[i].constraints {
        ConstraintSomewhere(grants, c);
      }
    }
  }

  // ---------------------------------------------------------------------
  // Containment fixes the key sets
  // ---------------------------------------------------------------------

  /** Once a grant of a contained chain declares keys, all later ones declare the same. */
  lemma {:induction false} KeysFixed(chain: seq<Grant>, i: nat, j: nat)
    requires ContainedChain(chain) && i <= j < |chain| && Declared(chain[i]) != {}
    ensures Declared(chain[j]) == Declared(chain[i])
    decreases j - i
  {
    if i < j {
      KeysFixed(chain, i, j - 1);
      assert Contains(chain[j - 1], chain[j]);
    }
  }

  lemma ContainedIsUniform(chain: seq<Grant>, m: Grant)
    requires ContainedChain(chain) && Intersect(chain) == Some(m)
    ensures Uniform(chain, m)
  {
    hide MergeAll, MergeableSource, SitesAgree, Contains, Merged;
    forall i | 0 <= i < |chain| ensures Merged(chain[i]) {
      SourceIsMerged(chain[i]);
    }
    MergeAllKeeps(chain, m);
    forall i | 0 <= i < |chain| && Declared(chain[i]) != {} ensures Declared(chain[i]) == Declared(m) {
      forall k | k in Declared(m) ensures k in Declared(chain[i]) {
        var j :| 0 <= j < |chain| && (k in chain[j].params || k in chain[j].bounds);
        assert Declared(chain[j]) != {};
        if i <= j { KeysFixed(chain, i, j); } else { KeysFixed(chain, j, i); }
      }
    }
  }

  // ---------------------------------------------------------------------
  // Main result
  // ---------------------------------------------------------------------

  /** a grant that on its own entails the operation and whose constraints are all well formed and hold */
  predicate Permits(g: Grant, op: Operation, grammar: Grammar) {
    Entails(g, op) && ConstraintsHold(g, op, grammar)
  }

  lemma MergedConstraintsHold(chain: seq<Grant>, m: Grant, op: Operation, grammar: Grammar)
    requires forall c :: c in m.constraints <==> exists i :: 0 <= i < |chain| && c in chain[i].constraints
    ensures ConstraintsHold(m, op, grammar) <==>
            forall i :: 0 <= i < |chain| ==> ConstraintsHold(chain[i], op, grammar)
  {
    hide ValidConstraint, ConstraintHolds;
    if ConstraintsHold(m, op, grammar) {
      forall i | 0 <= i < |chain| ensures ConstraintsHold(chain[i], op, grammar) {
        forall j | 0 <= j < |chain[i].constraints|
          ensures ValidConstraint(chain[i].constraints[j], grammar) && ConstraintHolds(chain[i].constraints[j], op)
        {
          assert chain[i].constraints[j] in m.constraints;
        }
      }
    }
    if forall i :: 0 <= i < |chain| ==> ConstraintsHold(chain[i], op, grammar) {
      forall j | 0 <= j < |m.constraints|
        ensures ValidConstraint(m.constraints[j], grammar) && ConstraintHolds(m.constraints[j], op)
      {
        var c := m.constraints[j];
        assert c in m.constraints;
        var i :| 0 <= i < |chain| && c in chain[i].constraints;
        assert ConstraintsHold(chain[i], op, grammar);
      }
    }
  }

  lemma SingleGrant(m: Grant, op: Operation, grammar: Grammar)
    ensures AuthorizeSet([m], op, grammar) ==
            if ValidOperation(op) && Permits(m, op, grammar) then Conclude(true, Obligations(m)) else Deny
  {
    hide ValidOperation, ConstraintsHold, CoreEvaluates, IdEntails;
    if Entails(m, op) {
      EntailsNamesId(m, op);
    }
    hide Entails;
    if Allows(m, op, grammar) {
      assert m in [m];
      assert AllObligations([m], op, grammar) == Obligations(m);
    }
  }

  lemma EntailsNamesId(m: Grant, op: Operation)
    requires Entails(m, op)
    ensures m.id != ""
  {
  }

  /** the chain is contained, its meet exists within the caps, the operation is
      valid, and every grant of the chain permits the operation on its own */
  predicate EveryGrantPermits(chain: seq<Grant>, op: Operation, grammar: Grammar) {
    && chain != [] && ContainedChain(chain)
    && Intersect(chain).Some? && Fits(Intersect(chain).value)
    && ValidOperation(op)
    && forall i :: 0 <= i < |chain| ==> Permits(chain[i], op, grammar)
  }

  /** A set of grants allows what one of its grants alone allows, and leaves
      open what those grants leave open. */
  lemma {:induction false} SetIsUnion(grants: seq<Grant>, op: Operation, grammar: Grammar)
    ensures AuthorizeSet(grants, op, grammar) != Deny <==> exists g :: g in grants && AuthorizeSet([g], op, grammar) != Deny
    ensures forall c :: c in Residual(AuthorizeSet(grants, op, grammar)) <==>
              exists g :: g in grants && c in Residual(AuthorizeSet([g], op, grammar))
  {
    hide ValidOperation, Allows, Obligations, SortedKeys;
    if ValidOperation(op) {
      var all := AllObligations(grants, op, grammar);
      ConcludeLists(exists g :: g in grants && Allows(g, op, grammar), all);
      forall g | g in grants
        ensures AuthorizeSet([g], op, grammar) == if Allows(g, op, grammar) then Conclude(true, Obligations(g)) else Deny
      {
        AloneInSet(g, op, grammar);
        ConcludeLists(true, Obligations(g));
      }
    }
  }

  lemma AloneInSet(g: Grant, op: Operation, grammar: Grammar)
    requires ValidOperation(op)
    ensures AuthorizeSet([g], op, grammar) == if Allows(g, op, grammar) then Conclude(true, Obligations(g)) else Deny
  {
    hide ValidOperation, Allows, Obligations, SortedKeys;
    assert g in [g];
    if Allows(g, op, grammar) {
      assert AllObligations([g], op, grammar) == Obligations(g);
    }
  }

  lemma ConcludeLists(allowed: bool, unresolved: set<string>)
    ensures Conclude(allowed, unresolved) != Deny <==> allowed
    ensures allowed ==> forall c :: c in Residual(Conclude(allowed, unresolved)) <==> c in unresolved
  {
    assert SameKeys(SortedKeys(CodePoints, unresolved), unresolved);
    hide SortedKeys;
  }

  /** A chain whose every grant permits the operation is never denied, whatever
      the steps; and a chain that is not denied speaks for every grant exactly
      when the operation passes the grants' own step tests. */
  lemma {:induction false} ChainExact(chain: seq<Grant>, op: Operation, grammar: Grammar)
    ensures EveryGrantPermits(chain, op, grammar) <==>
            AuthorizeWithChain(chain, op, grammar) != Deny && forall i :: 0 <= i < |chain| ==> GrantSteps(chain[i], op)
  {
    hide ValidOperation, ConstraintsHold, Entails, Fits, Contains, MergeAll, Mergeable, GrantSteps;
    if chain != [] && ContainedChain(chain) && Intersect(chain).Some? {
      var m := Intersect(chain).value;
      ContainedIsUniform(chain, m);
      IntersectUniform(chain, m, op);
      MergeAllConstraints(chain, m);
      MergedConstraintsHold(chain, m, op, grammar);
      SingleGrant(m, op, grammar);
    }
  }

  /** When a chain is not denied, each of its grants entails the operation
      exactly when the operation passes that grant's own step tests. */
  lemma {:induction false} ChainPerGrant(chain: seq<Grant>, op: Operation, grammar: Grammar, i: nat)
    requires AuthorizeWithChain(chain, op, grammar) != Deny && i < |chain|
    ensures Entails(chain[i], op) <==> GrantSteps(chain[i], op)
  {
    hide ValidOperation, ConstraintsHold, Entails, Contains, MergeAll, Mergeable, GrantSteps;
    var m := Intersect(chain).value;
    ContainedIsUniform(chain, m);
    SingleGrant(m, op, grammar);
    UniformPerSource(chain, m, op, i);
  }

  /** On a chain with commensurable steps the decision does not deny exactly
      when every grant permits the operation on its own. */
  lemma {:induction false} ChainCommensurate(chain: seq<Grant>, op: Operation, grammar: Grammar)
    requires Commensurate(chain)
    ensures AuthorizeWithChain(chain, op, grammar) != Deny <==> EveryGrantPermits(chain, op, grammar)
  {
    hide ValidOperation, ConstraintsHold, Entails, Contains, MergeAll, Mergeable, GrantSteps, Commensurate, EveryGrantPermits;
    ChainExact(chain, op, grammar);
    if AuthorizeWithChain(chain, op, grammar) != Deny {
      var m := Intersect(chain).value;
      SingleGrant(m, op, grammar);
      IntersectSteps(chain, m, op);
    }
  }

  /** Nothing in a chain is dropped: when the decision does not deny, each
      constraint of each grant was checked and holds, and either the core decides
      its type or it is listed as unresolved. */
  lemma {:induction false} ChainKeepsEveryConstraint(chain: seq<Grant>, op: Operation, grammar: Grammar, i: nat, c: string)
    requires AuthorizeWithChain(chain, op, grammar) != Deny
    requires i < |chain| && c in chain[i].constraints
    ensures Entails(chain[i], op) <==> GrantSteps(chain[i], op)
    ensures ValidConstraint(c, grammar) && ConstraintHolds(c, op)
    ensures CoreEvaluates(c) || c in Residual(AuthorizeWithChain(chain, op, grammar))
  {
    ChainPerGrant(chain, op, grammar, i);
    hide ValidConstraint, ConstraintHolds, CoreEvaluates, Entails, ValidOperation, Contains, MergeAll, Mergeable, SortedKeys, Fits,
      GrantSteps;
    var m := Intersect(chain).value;
    MergeAllConstraints(chain, m);
    MergedConstraintsHold(chain, m, op, grammar);
    SingleGrant(m, op, grammar);
    var j :| 0 <= j < |chain[i].constraints| && chain[i].constraints[j] == c;
    if !CoreEvaluates(c) {
      assert c in Obligations(m);
      ConcludeKeeps(Obligations(m), c);
    }
  }

  lemma ConcludeKeeps(s: set<string>, c: string)
    requires c in s
    ensures c in Residual(Conclude(true, s))
  {
  }
}
