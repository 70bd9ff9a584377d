/**
 Which way the depth cut of schema validation can err. A cut reference counts
 as a refusal; under an odd number of `not` a refusal becomes an acceptance.
 */
module SchemaCut {
  import opened Numbers
  import opened Json
  import opened SchemaValidation

  // ---------------------------------------------------------------------
  // Cut references by polarity
  // ---------------------------------------------------------------------

  /** a reference meets the cut below, under an odd (or even) number of `not` */
  predicate MeetsCut(odd: bool, schema: Json, value: Json, defs: map<string, Json>, depth: nat, limit: nat)
    requires schema.Obj?
    decreases Left(depth, limit), schema
  {
    var ref := Word("$ref", schema);
    if ref.Some? then
      var target := Resolve(ref.value, defs);
      target.Some? && if depth < limit then MeetsCut(odd, target.value, value, defs, depth + 1, limit) else !odd
    else
      || (exists d :: d in Duties(schema, value) && MeetsCut(odd, d.schema, d.value, defs, depth + 1, limit))
      || (Choices(schema).Some? && exists c :: c in Choices(schema).value && MeetsCut(odd, c, value, defs, depth + 1, limit))
      || (Forbidden(schema).Some? && MeetsCut(!odd, Forbidden(schema).value, value, defs, depth + 1, limit))
  }

  /** MeetsCut at a reference */
  lemma MeetsCutRef(odd: bool, schema: Json, value: Json, defs: map<string, Json>, depth: nat, limit: nat)
    requires schema.Obj? && Word("$ref", schema).Some?
    ensures
      var target := Resolve(Word("$ref", schema).value, defs);
      MeetsCut(odd, schema, value, defs, depth, limit) <==>
      target.Some? && if depth < limit then MeetsCut(odd, target.value, value, defs, depth + 1, limit) else !odd
  {
    hide Duties, Choices, Forbidden, Resolve, Word;
  }

  /** MeetsCut from the parts of a schema without a reference */
  lemma MeetsCutParts(odd: bool, schema: Json, value: Json, defs: map<string, Json>, depth: nat, limit: nat)
    requires schema.Obj? && Word("$ref", schema).None?
    ensures MeetsCut(odd, schema, value, defs, depth, limit) <==>
      || (exists d :: d in Duties(schema, value) && MeetsCut(odd, d.schema, d.value, defs, depth + 1, limit))
      || (Choices(schema).Some? && exists c :: c in Choices(schema).value && MeetsCut(odd, c, value, defs, depth + 1, limit))
      || (Forbidden(schema).Some? && MeetsCut(!odd, Forbidden(schema).value, value, defs, depth + 1, limit))
  {
    hide Duties, Choices, Forbidden, Resolve, Word;
  }

  /** An acceptance with no cut under an odd number of `not`, and a rejection with none under an even number, are settled. */
  lemma {:induction false} PolarityFollows(schema: Json, value: Json, defs: map<string, Json>, depth: nat, limit: nat)
    requires schema.Obj?
    requires !MeetsCut(Validates(schema, value, defs, depth, limit), schema, value, defs, depth, limit)
    ensures Follows(Validates(schema, value, defs, depth, limit), schema, value, defs, depth, limit)
    decreases Left(depth, limit), schema
  {
    hide OwnKeywordsHold, Duties, Choices, Forbidden, Resolve, Word, Follows, Validates, MeetsCut;
    var verdict := Validates(schema, value, defs, depth, limit);
    var ref := Word("$ref", schema);
    if ref.Some? {
      FollowsRef(verdict, schema, value, defs, depth, limit);
      ValidatesRef(schema, value, defs, depth, limit);
      MeetsCutRef(verdict, schema, value, defs, depth, limit);
      var target := Resolve(ref.value, defs);
      if target.Some? {
        PolarityFollows(target.value, value, defs, depth + 1, limit);
      }
    } else {
      MeetsCutParts(verdict, schema, value, defs, depth, limit);
      forall d | d in Duties(schema, value) && Validates(d.schema, d.value, defs, depth + 1, limit) == verdict
        ensures Follows(verdict, d.schema, d.value, defs, depth + 1, limit)
      {
        PolarityFollows(d.schema, d.value, defs, depth + 1, limit);
      }
      if Choices(schema).Some? {
        forall c | c in Choices(schema).value && Validates(c, value, defs, depth + 1, limit) == verdict
          ensures Follows(verdict, c, value, defs, depth + 1, limit)
        {
          PolarityFollows(c, value, defs, depth + 1, limit);
        }
      }
      if Forbidden(schema).Some? && Validates(Forbidden(schema).value, value, defs, depth + 1, limit) == !verdict {
        PolarityFollows(Forbidden(schema).value, value, defs, depth + 1, limit);
      }
      PolarityStep(verdict, schema, value, defs, depth, limit);
    }
  }

  lemma PolarityStep(verdict: bool, schema: Json, value: Json, defs: map<string, Json>, depth: nat, limit: nat)
    requires schema.Obj? && Word("$ref", schema).None? && Validates(schema, value, defs, depth, limit) == verdict
    requires forall d :: d in Duties(schema, value) && Validates(d.schema, d.value, defs, depth + 1, limit) == verdict ==>
      Follows(verdict, d.schema, d.value, defs, depth + 1, limit)
    requires Choices(schema).Some? ==>
      forall c :: c in Choices(schema).value && Validates(c, value, defs, depth + 1, limit) == verdict ==>
        Follows(verdict, c, value, defs, depth + 1, limit)
    requires Forbidden(schema).Some? && Validates(Forbidden(schema).value, value, defs, depth + 1, limit) == !verdict ==>
      Follows(!verdict, Forbidden(schema).value, value, defs, depth + 1, limit)
    ensures Follows(verdict, schema, value, defs, depth, limit)
  {
    hide OwnKeywordsHold, Duties, Choices, Forbidden, Resolve, Word, Left;
  }

  /** The validator's verdict is the meaning whenever no reference meets the cut
      on the side of that verdict: under an odd number of `not` for an
      acceptance, under an even number for a rejection. */
  lemma {:induction false} CutErrsOneWay(schema: Json, value: Json, defs: map<string, Json>, limit: nat)
    requires schema.Obj?
    ensures Validates(schema, value, defs, 0, limit) && !MeetsCut(true, schema, value, defs, 0, limit) ==>
            Means(true, schema, value, defs) && !Means(false, schema, value, defs)
    ensures !Validates(schema, value, defs, 0, limit) && !MeetsCut(false, schema, value, defs, 0, limit) ==>
            Means(false, schema, value, defs) && !Means(true, schema, value, defs)
  {
    hide Validates, Follows, MeetsCut;
    var verdict := Validates(schema, value, defs, 0, limit);
    if !MeetsCut(verdict, schema, value, defs, 0, limit) {
      PolarityFollows(schema, value, defs, 0, limit);
      SettledMeaning(verdict, schema, value, defs, limit);
    }
  }

  ghost predicate NoCut(schema: Json, value: Json, defs: map<string, Json>, depth: nat, limit: nat)
    requires schema.Obj?
  {
    !MeetsCut(true, schema, value, defs, depth, limit) && !MeetsCut(false, schema, value, defs, depth, limit)
  }

  lemma StaysWithinStep(schema: Json, value: Json, defs: map<string, Json>, depth: nat, limit: nat)
    requires schema.Obj? && Word("$ref", schema).None?
    requires forall d :: d in Duties(schema, value) ==>
      (StaysWithin(d.schema, d.value, defs, depth + 1, limit) <==> NoCut(d.schema, d.value, defs, depth + 1, limit))
    requires Choices(schema).Some? ==> forall c :: c in Choices(schema).value ==>
      (StaysWithin(c, value, defs, depth + 1, limit) <==> NoCut(c, value, defs, depth + 1, limit))
    requires Forbidden(schema).Some? ==>
      (StaysWithin(Forbidden(schema).value, value, defs, depth + 1, limit) <==>
       NoCut(Forbidden(schema).value, value, defs, depth + 1, limit))
    ensures StaysWithin(schema, value, defs, depth, limit) <==> NoCut(schema, value, defs, depth, limit)
  {
    hide Duties, Choices, Forbidden, Resolve, Word, Left, MeetsCut;
    MeetsCutParts(true, schema, value, defs, depth, limit);
    MeetsCutParts(false, schema, value, defs, depth, limit);
  }

  lemma StaysWithinRef(schema: Json, value: Json, defs: map<string, Json>, depth: nat, limit: nat)
    requires schema.Obj? && Word("$ref", schema).Some?
    ensures
      var target := Resolve(Word("$ref", schema).value, defs);
      StaysWithin(schema, value, defs, depth, limit) <==>
      (target.Some? ==> depth < limit && StaysWithin(target.value, value, defs, depth + 1, limit))
  {
    hide Duties, Choices, Forbidden, Resolve, Word;
  }

  /** no reference meets the cut exactly when none does on either side */
  lemma {:induction false} StaysWithinIsNoCut(schema: Json, value: Json, defs: map<string, Json>, depth: nat, limit: nat)
    requires schema.Obj?
    ensures StaysWithin(schema, value, defs, depth, limit) <==>
            !MeetsCut(true, schema, value, defs, depth, limit) && !MeetsCut(false, schema, value, defs, depth, limit)
    decreases Left(depth, limit), schema
  {
    hide Duties, Choices, Forbidden, Resolve, Word, MeetsCut, StaysWithin;
    var ref := Word("$ref", schema);
    if ref.Some? {
      MeetsCutRef(true, schema, value, defs, depth, limit);
      MeetsCutRef(false, schema, value, defs, depth, limit);
      StaysWithinRef(schema, value, defs, depth, limit);
      var target := Resolve(ref.value, defs);
      if target.Some? && depth < limit {
        StaysWithinIsNoCut(target.value, value, defs, depth + 1, limit);
      }
    } else {
      forall d | d in Duties(schema, value)
        ensures StaysWithin(d.schema, d.value, defs, depth + 1, limit) <==> NoCut(d.schema, d.value, defs, depth + 1, limit)
      {
        StaysWithinIsNoCut(d.schema, d.value, defs, depth + 1, limit);
      }
      if Choices(schema).Some? {
        forall c | c in Choices(schema).value
          ensures StaysWithin(c, value, defs, depth + 1, limit) <==> NoCut(c, value, defs, depth + 1, limit)
        {
          StaysWithinIsNoCut(c, value, defs, depth + 1, limit);
        }
      }
      if Forbidden(schema).Some? {
        StaysWithinIsNoCut(Forbidden(schema).value, value, defs, depth + 1, limit);
      }
      StaysWithinStep(schema, value, defs, depth, limit);
    }
  }

  // ---------------------------------------------------------------------
  // Whatever the cut references would answer
  // ---------------------------------------------------------------------

  /** what a cut reference answers, given the parity of `not` above it, its target and the value */
  type Answers = (bool, Json, Json) -> bool

  /** validation in which cut references answer as told */
  predicate ValidatesWith(answers: Answers, odd: bool, schema: Json, value: Json, defs: map<string, Json>, depth: nat, limit: nat)
    requires schema.Obj?
    decreases Left(depth, limit), schema
  {
    var ref := Word("$ref", schema);
    if ref.Some? then
      var target := Resolve(ref.value, defs);
      && target.Some?
      && if depth < limit then ValidatesWith(answers, odd, target.value, value, defs, depth + 1, limit)
         else answers(odd, target.value, value)
    else
      && OwnKeywordsHold(schema, value)
      && (forall d :: d in Duties(schema, value) ==> ValidatesWith(answers, odd, d.schema, d.value, defs, depth + 1, limit))
      && (Choices(schema).Some? ==>
           exists c :: c in Choices(schema).value && ValidatesWith(answers, odd, c, value, defs, depth + 1, limit))
      && (Forbidden(schema).Some? ==> !ValidatesWith(answers, !odd, Forbidden(schema).value, value, defs, depth + 1, limit))
  }

  /** ValidatesWith at a reference */
  lemma WithRef(answers: Answers, odd: bool, schema: Json, value: Json, defs: map<string, Json>, depth: nat, limit: nat)
    requires schema.Obj? && Word("$ref", schema).Some?
    ensures
      var target := Resolve(Word("$ref", schema).value, defs);
      ValidatesWith(answers, odd, schema, value, defs, depth, limit) <==>
      && target.Some?
      && if depth < limit then ValidatesWith(answers, odd, target.value, value, defs, depth + 1, limit)
         else answers(odd, target.value, value)
  {
    hide OwnKeywordsHold, Duties, Choices, Forbidden, Resolve, Word;
  }

  lemma NoStep(no: Answers, odd: bool, schema: Json, value: Json, defs: map<string, Json>, depth: nat, limit: nat)
    requires schema.Obj? && Word("$ref", schema).None?
    requires forall d :: d in Duties(schema, value) ==>
      ValidatesWith(no, odd, d.schema, d.value, defs, depth + 1, limit) == Validates(d.schema, d.value, defs, depth + 1, limit)
    requires Choices(schema).Some? ==> forall c :: c in Choices(schema).value ==>
      ValidatesWith(no, odd, c, value, defs, depth + 1, limit) == Validates(c, value, defs, depth + 1, limit)
    requires Forbidden(schema).Some? ==>
      ValidatesWith(no, !odd, Forbidden(schema).value, value, defs, depth + 1, limit)
      == Validates(Forbidden(schema).value, value, defs, depth + 1, limit)
    ensures ValidatesWith(no, odd, schema, value, defs, depth, limit) == Validates(schema, value, defs, depth, limit)
  {
    hide OwnKeywordsHold, Duties, Choices, Forbidden, Resolve, Word, Left;
  }

  /** the validator is the case where every cut reference answers no */
  lemma {:induction false} CutAnswersNo(odd: bool, schema: Json, value: Json, defs: map<string, Json>, depth: nat, limit: nat)
    requires schema.Obj?
    ensures ValidatesWith((_, _, _) => false, odd, schema, value, defs, depth, limit) == Validates(schema, value, defs, depth, limit)
    decreases Left(depth, limit), schema
  {
    hide OwnKeywordsHold, Duties, Choices, Forbidden, Resolve, Word, ValidatesWith, Validates;
    var no: Answers := (_, _, _) => false;
    var ref := Word("$ref", schema);
    if ref.Some? {
      WithRef(no, odd, schema, value, defs, depth, limit);
      ValidatesRef(schema, value, defs, depth, limit);
      var target := Resolve(ref.value, defs);
      if target.Some? && depth < limit {
        CutAnswersNo(odd, target.value, value, defs, depth + 1, limit);
      }
    } else {
      forall d | d in Duties(schema, value)
        ensures ValidatesWith(no, odd, d.schema, d.value, defs, depth + 1, limit) == Validates(d.schema, d.value, defs, depth + 1, limit)
      {
        CutAnswersNo(odd, d.schema, d.value, defs, depth + 1, limit);
      }
      if Choices(schema).Some? {
        forall c | c in Choices(schema).value
          ensures ValidatesWith(no, odd, c, value, defs, depth + 1, limit) == Validates(c, value, defs, depth + 1, limit)
        {
          CutAnswersNo(odd, c, value, defs, depth + 1, limit);
        }
      }
      if Forbidden(schema).Some? {
        CutAnswersNo(!odd, Forbidden(schema).value, value, defs, depth + 1, limit);
      }
      NoStep(no, odd, schema, value, defs, depth, limit);
    }
  }

  /** a verdict that follows is the answer whatever the cut references answer */
  lemma {:induction false} FollowsAnyway(answers: Answers, odd: bool, verdict: bool, schema: Json, value: Json, defs: map<string, Json>, depth: nat, limit: nat)
    requires schema.Obj? && Follows(verdict, schema, value, defs, depth, limit)
    ensures ValidatesWith(answers, odd, schema, value, defs, depth, limit) == verdict
    decreases Left(depth, limit), schema
  {
    hide OwnKeywordsHold, Duties, Choices, Forbidden, Resolve, Word, ValidatesWith, Follows;
    var ref := Word("$ref", schema);
    if ref.Some? {
      WithRef(answers, odd, schema, value, defs, depth, limit);
      FollowsRef(verdict, schema, value, defs, depth, limit);
      var target := Resolve(ref.value, defs);
      if target.Some? {
        FollowsAnyway(answers, odd, verdict, target.value, value, defs, depth + 1, limit);
      }
    } else {
      forall d | d in Duties(schema, value) && Follows(verdict, d.schema, d.value, defs, depth + 1, limit)
        ensures ValidatesWith(answers, odd, d.schema, d.value, defs, depth + 1, limit) == verdict
      {
        FollowsAnyway(answers, odd, verdict, d.schema, d.value, defs, depth + 1, limit);
      }
      if Choices(schema).Some? {
        forall c | c in Choices(schema).value && Follows(verdict, c, value, defs, depth + 1, limit)
          ensures ValidatesWith(answers, odd, c, value, defs, depth + 1, limit) == verdict
        {
          FollowsAnyway(answers, odd, verdict, c, value, defs, depth + 1, limit);
        }
      }
      if Forbidden(schema).Some? && Follows(!verdict, Forbidden(schema).value, value, defs, depth + 1, limit) {
        FollowsAnyway(answers, !odd, !verdict, Forbidden(schema).value, value, defs, depth + 1, limit);
      }
      AnywayStep(answers, odd, verdict, schema, value, defs, depth, limit);
    }
  }

  lemma AnywayStep(answers: Answers, odd: bool, verdict: bool, schema: Json, value: Json, defs: map<string, Json>, depth: nat, limit: nat)
    requires schema.Obj? && Word("$ref", schema).None? && Follows(verdict, schema, value, defs, depth, limit)
    requires forall d :: d in Duties(schema, value) && Follows(verdict, d.schema, d.value, defs, depth + 1, limit) ==>
      ValidatesWith(answers, odd, d.schema, d.value, defs, depth + 1, limit) == verdict
    requires Choices(schema).Some? ==>
      forall c :: c in Choices(schema).value && Follows(verdict, c, value, defs, depth + 1, limit) ==>
        ValidatesWith(answers, odd, c, value, defs, depth + 1, limit) == verdict
    requires Forbidden(schema).Some? && Follows(!verdict, Forbidden(schema).value, value, defs, depth + 1, limit) ==>
      ValidatesWith(answers, !odd, Forbidden(schema).value, value, defs, depth + 1, limit) == !verdict
    ensures ValidatesWith(answers, odd, schema, value, defs, depth, limit) == verdict
  {
    hide OwnKeywordsHold, Duties, Choices, Forbidden, Resolve, Word, Left;
  }

  /** every cut reference answers against the verdict, counting the `not` above it */
  function Against(verdict: bool): Answers {
    (odd: bool, _, _) => odd == verdict
  }

  /** a verdict that stands against the worst answers follows */
  lemma {:induction false} WorstFollows(verdict: bool, odd: bool, schema: Json, value: Json, defs: map<string, Json>, depth: nat, limit: nat)
    requires schema.Obj?
    requires ValidatesWith(Against(verdict), odd, schema, value, defs, depth, limit) == (verdict != odd)
    ensures Follows(verdict != odd, schema, value, defs, depth, limit)
    decreases Left(depth, limit), schema
  {
    hide OwnKeywordsHold, Duties, Choices, Forbidden, Resolve, Word, ValidatesWith, Follows;
    var here := verdict != odd;
    var worst := Against(verdict);
    var ref := Word("$ref", schema);
    if ref.Some? {
      WithRef(worst, odd, schema, value, defs, depth, limit);
      FollowsRef(here, schema, value, defs, depth, limit);
      var target := Resolve(ref.value, defs);
      if target.Some? {
        if depth < limit {
          WorstFollows(verdict, odd, target.value, value, defs, depth + 1, limit);
        }
      }
    } else {
      forall d | d in Duties(schema, value) && ValidatesWith(worst, odd, d.schema, d.value, defs, depth + 1, limit) == here
        ensures Follows(here, d.schema, d.value, defs, depth + 1, limit)
      {
        WorstFollows(verdict, odd, d.schema, d.value, defs, depth + 1, limit);
      }
      if Choices(schema).Some? {
        forall c | c in Choices(schema).value && ValidatesWith(worst, odd, c, value, defs, depth + 1, limit) == here
          ensures Follows(here, c, value, defs, depth + 1, limit)
        {
          WorstFollows(verdict, odd, c, value, defs, depth + 1, limit);
        }
      }
      if Forbidden(schema).Some? && ValidatesWith(worst, !odd, Forbidden(schema).value, value, defs, depth + 1, limit) == !here {
        WorstFollows(verdict, !odd, Forbidden(schema).value, value, defs, depth + 1, limit);
      }
      WorstStep(worst, odd, here, schema, value, defs, depth, limit);
    }
  }

  lemma WorstStep(worst: Answers, odd: bool, here: bool, schema: Json, value: Json, defs: map<string, Json>, depth: nat, limit: nat)
    requires schema.Obj? && Word("$ref", schema).None? && ValidatesWith(worst, odd, schema, value, defs, depth, limit) == here
    requires forall d :: d in Duties(schema, value) && ValidatesWith(worst, odd, d.schema, d.value, defs, depth + 1, limit) == here ==>
      Follows(here, d.schema, d.value, defs, depth + 1, limit)
    requires Choices(schema).Some? ==>
      forall c :: c in Choices(schema).value && ValidatesWith(worst, odd, c, value, defs, depth + 1, limit) == here ==>
        Follows(here, c, value, defs, depth + 1, limit)
    requires Forbidden(schema).Some? && ValidatesWith(worst, !odd, Forbidden(schema).value, value, defs, depth + 1, limit) == !here ==>
      Follows(!here, Forbidden(schema).value, value, defs, depth + 1, limit)
    ensures Follows(here, schema, value, defs, depth, limit)
  {
    hide OwnKeywordsHold, Duties, Choices, Forbidden, Resolve, Word, Left;
  }

  /** the verdict comes out whatever the cut references answer */
  ghost predicate Unavoidable(verdict: bool, schema: Json, value: Json, defs: map<string, Json>, limit: nat)
    requires schema.Obj?
  {
    forall answers: Answers :: ValidatesWith(answers, false, schema, value, defs, 0, limit) == verdict
  }

  /** A verdict is settled within the limit exactly when it comes out whatever the cut references answer. */
  lemma {:induction false} SettledExactly(verdict: bool, schema: Json, value: Json, defs: map<string, Json>, limit: nat)
    requires schema.Obj?
    ensures Follows(verdict, schema, value, defs, 0, limit) <==> Unavoidable(verdict, schema, value, defs, limit)
  {
    hide Follows, ValidatesWith;
    if Follows(verdict, schema, value, defs, 0, limit) {
      forall answers: Answers ensures ValidatesWith(answers, false, schema, value, defs, 0, limit) == verdict {
        FollowsAnyway(answers, false, verdict, schema, value, defs, 0, limit);
      }
      assert Unavoidable(verdict, schema, value, defs, limit);
    }
    if Unavoidable(verdict, schema, value, defs, limit) {
      var worst := Against(verdict);
      assert ValidatesWith(worst, false, schema, value, defs, 0, limit) == verdict;
      WorstFollows(verdict, false, schema, value, defs, 0, limit);
      assert (verdict != false) == verdict;
    }
  }

  // ---------------------------------------------------------------------
  // Schemas without `not`
  // ---------------------------------------------------------------------

  function Subschemas(schema: Json): (r: set<Json>)
    ensures forall c :: c in r ==> c < schema && c.Obj?
  {
    (set k | k in Properties(schema) && Properties(schema)[k].Obj? :: Properties(schema)[k])
    + (if Members("additionalProperties", schema).Some? then {schema.fields["additionalProperties"]} else {})
    + (if Members("items", schema).Some? then {schema.fields["items"]} else {})
    + (if Choices(schema).Some? then Choices(schema).value else {})
  }

  /** `not` is used nowhere in a schema's own subschemas */
  predicate AvoidsNot(schema: Json) {
    Forbidden(schema).None? && forall c :: c in Subschemas(schema) ==> AvoidsNot(c)
  }

  lemma DutiesAreSubschemas(schema: Json, value: Json, d: Duty)
    requires d in Duties(schema, value)
    ensures d.schema in Subschemas(schema)
  {
  }

  /** without `not`, no reference stands under an odd number of them */
  lemma {:induction false} AvoidingNot(schema: Json, value: Json, defs: map<string, Json>, depth: nat, limit: nat)
    requires schema.Obj? && AvoidsNot(schema)
    requires forall k :: k in defs ==> AvoidsNot(defs[k])
    ensures !MeetsCut(true, schema, value, defs, depth, limit)
    decreases Left(depth, limit), schema
  {
    hide OwnKeywordsHold, Duties, Choices, Forbidden;
    var ref := Word("$ref", schema);
    if ref.Some? {
      var target := Resolve(ref.value, defs);
      if target.Some? && depth < limit {
        AvoidingNot(target.value, value, defs, depth + 1, limit);
      }
    } else {
      hide Resolve;
      forall d | d in Duties(schema, value)
        ensures !MeetsCut(true, d.schema, d.value, defs, depth + 1, limit)
      {
        DutiesAreSubschemas(schema, value, d);
        AvoidingNot(d.schema, d.value, defs, depth + 1, limit);
      }
      if Choices(schema).Some? {
        forall c | c in Choices(schema).value ensures !MeetsCut(true, c, value, defs, depth + 1, limit) {
          AvoidingNot(c, value, defs, depth + 1, limit);
        }
      }
    }
  }

  /** Without `not`, the cut can only refuse: whatever is accepted is accepted by the meaning too. */
  lemma {:induction false} CutFailsClosed(schema: Json, value: Json, defs: map<string, Json>, limit: nat)
    requires schema.Obj? && AvoidsNot(schema)
    requires forall k :: k in defs ==> AvoidsNot(defs[k])
    requires Validates(schema, value, defs, 0, limit)
    ensures Means(true, schema, value, defs)
  {
    hide Validates, MeetsCut, AvoidsNot;
    AvoidingNot(schema, value, defs, 0, limit);
    CutErrsOneWay(schema, value, defs, limit);
  }

  // ---------------------------------------------------------------------
  // A cut that accepts
  // ---------------------------------------------------------------------

  function Link(n: nat): (name: string)
    ensures |name| == n
  {
    seq(n, _ => 'a')
  }

  function Reference(n: nat): (r: Json)
    ensures r.Obj?
  {
    Obj(map["$ref" := Str(REF_PREFIX + Link(n))])
  }

  /** n definitions that each only refer to the next, then one that holds of everything */
  function Chain(n: nat): map<string, Json> {
    var names := set i: nat | i <= n :: Link(i);
    map k | k in names :: if |k| < n then Reference(|k| + 1) else Obj(map[])
  }

  lemma ChainAt(n: nat, i: nat)
    requires i <= n
    ensures Word("$ref", Reference(i)) == Some(REF_PREFIX + Link(i))
    ensures Resolve(REF_PREFIX + Link(i), Chain(n)) == Some(if i < n then Reference(i + 1) else Obj(map[]))
  {
    var m := if i < n then Reference(i + 1) else Obj(map[]);
    assert Link(i) in Chain(n);
    assert Chain(n)[Link(i)] == m;
    assert (REF_PREFIX + Link(i))[|REF_PREFIX|..] == Link(i);
  }

  lemma {:induction false} ChainCut(n: nat, i: nat, value: Json, depth: nat, limit: nat)
    requires i <= n && limit <= depth + (n - i)
    ensures !Validates(Reference(i), value, Chain(n), depth, limit)
    decreases n - i
  {
    hide Chain, Resolve, Word, Reference;
    ChainAt(n, i);
    if i < n {
      ChainCut(n, i + 1, value, depth + 1, limit);
    }
  }

  lemma {:induction false} ChainHolds(n: nat, i: nat, value: Json, depth: nat, limit: nat)
    requires i <= n && depth + (n - i) < limit
    ensures Follows(true, Reference(i), value, Chain(n), depth, limit)
    decreases n - i
  {
    hide Chain, Resolve;
    ChainAt(n, i);
    if i < n {
      ChainHolds(n, i + 1, value, depth + 1, limit);
    } else {
      var top := Obj(map[]);
      assert Follows(true, top, value, Chain(n), depth + 1, limit);
    }
  }

  function Negated(schema: Json): (r: Json)
    ensures r.Obj?
  {
    Obj(map["not" := schema])
  }

  lemma NegatedShape(schema: Json, value: Json)
    requires schema.Obj?
    ensures Word("$ref", Negated(schema)).None? && OwnKeywordsHold(Negated(schema), value)
    ensures Duties(Negated(schema), value) == {}
    ensures Choices(Negated(schema)).None? && Forbidden(Negated(schema)) == Some(schema)
  {
  }

  /**
   With `not` the cut can also accept: whatever the limit, a chain of that
   many references makes the validator accept a value the schema excludes.
   */
  lemma {:induction false} CutUnderNotAccepts(limit: nat, value: Json)
    ensures var schema := Negated(Reference(0)); var defs := Chain(limit);
      Validates(schema, value, defs, 0, limit) && Means(false, schema, value, defs)
  {
    hide Chain, Resolve, Word, OwnKeywordsHold, Duties, Choices, Forbidden;
    var schema, defs := Negated(Reference(0)), Chain(limit);
    NegatedShape(Reference(0), value);
    hide Negated, Reference;
    ChainCut(limit, 0, value, 1, limit);
    ChainHolds(limit, 0, value, 1, limit + 2);
    assert Follows(false, schema, value, defs, 0, limit + 2);
  }
}
