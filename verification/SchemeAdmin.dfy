/**
 Scheme administration: packages are created, updated, revoked and re-rooted by
 confirmed transitions over one local registry state.
 */
module SchemeAdmin {
  import opened Numbers

  datatype Action = Create | Update | Revoke | RootRotate

  datatype Package = Package(scheme: string, generation: int, revision: string, previousDigest: string)

  datatype Transition = Transition(
    action: Action, scheme: string,
    fromGeneration: Option<int>, fromDigest: string,
    toGeneration: int, toDigest: string,
    effective: int, replacement: string, tombstoneGeneration: int, changeClass: string)

  datatype HistoryEntry = HistoryEntry(generation: int, digest: string)

  datatype Tombstone = Tombstone(digest: string, generation: int, effective: int, replacement: string)

  datatype State = State(scheme: string, revision: string, generation: int, digest: string,
                         history: seq<HistoryEntry>, revoked: seq<Tombstone>)

  const EMPTY_STATE := State("", "", 0, "", [], [])

  /** what the deployment supplies: content addresses and the revision rule for a change class */
  datatype Env = Env(digest: Package -> string, follows: (string, string, string) -> bool)

  /** one proposal: its documents, the deployer's clock, and whether signatures,
      authority, payload, freshness and approvals all passed */
  datatype Proposal = Proposal(p: Package, tr: Transition, now: int, checked: bool)

  // ---------------------------------------------------------------------
  // Confirmation against the state
  // ---------------------------------------------------------------------

  function DigestAt(s: State, generation: int): Option<string> {
    if s.generation == generation && s.digest != "" then Some(s.digest) else RecordedAt(s.history, generation)
  }

  function RecordedAt(history: seq<HistoryEntry>, generation: int): Option<string> {
    if history == [] then None
    else if history[0].generation == generation then Some(history[0].digest)
    else RecordedAt(history[1..], generation)
  }

  function HeadOf(s: State): int {
    Highest(s.history, s.generation)
  }

  function Highest(history: seq<HistoryEntry>, head: int): int {
    if history == [] then head
    else Highest(history[1..], if history[0].generation > head then history[0].generation else head)
  }

  /** the transition shape the state checks rely on */
  predicate ValidTransition(tr: Transition) {
    && tr.toGeneration >= 1 && tr.toDigest != ""
    && match tr.action
       case Create => tr.fromGeneration.None? && tr.fromDigest == "" && tr.toGeneration == 1
       case Revoke => tr.fromGeneration.Some? && tr.fromDigest != "" && tr.tombstoneGeneration >= tr.toGeneration
       case _ => tr.fromGeneration.Some? && tr.fromDigest != ""
  }

  predicate Matches(env: Env, p: Package, tr: Transition) {
    && p.scheme == tr.scheme && p.generation == tr.toGeneration && env.digest(p) == tr.toDigest
    && (tr.fromDigest != "" ==> p.previousDigest == tr.fromDigest)
  }

  predicate CheckState(env: Env, s: State, p: Package, tr: Transition) {
    if tr.action == Create then s.history == [] && s.generation == 0 && s.digest == ""
    else
      && (DigestAt(s, tr.toGeneration).Some? ==> DigestAt(s, tr.toGeneration).value == tr.toDigest)
      && tr.fromGeneration == Some(s.generation)
      && s.digest == tr.fromDigest
      && tr.toGeneration == s.generation + 1
      && tr.toGeneration > HeadOf(s)
      && (tr.action == Update && s.revision != "" ==> env.follows(s.revision, p.revision, tr.changeClass))
  }

  /** isRevokedAt: revoked, not revoked, or a tombstone that names itself as its replacement */
  datatype Standing = Standing | Revoked | Corrupt

  function StandingAt(revoked: seq<Tombstone>, digest: string, now: int): Standing {
    if revoked == [] then Standing
    else
      var r := revoked[0];
      if r.digest != digest then StandingAt(revoked[1..], digest, now)
      else if r.replacement != "" && r.replacement == r.digest then Corrupt
      else if r.effective <= now then Revoked
      else StandingAt(revoked[1..], digest, now)
  }

  predicate Confirmed(env: Env, s: State, x: Proposal) {
    && x.checked && ValidTransition(x.tr) && Matches(env, x.p, x.tr)
    && CheckState(env, s, x.p, x.tr)
    && StandingAt(s.revoked, x.tr.fromDigest, x.now) == Standing
    && StandingAt(s.revoked, env.digest(x.p), x.now) == Standing
  }

  // ---------------------------------------------------------------------
  // Accept
  // ---------------------------------------------------------------------

  predicate Continues(s: State, tr: Transition) {
    if tr.action == Create then s.generation == 0 && s.history == [] && s.digest == "" && tr.toGeneration == 1
    else tr.fromGeneration == Some(s.generation) && s.digest == tr.fromDigest && tr.toGeneration == s.generation + 1
  }

  function NextHistory(s: State, e: HistoryEntry): seq<HistoryEntry> {
    if s.history == [] || s.history[|s.history| - 1].generation != e.generation then s.history + [e] else s.history
  }

  predicate Revocable(s: State, tr: Transition) {
    tr.fromDigest != "" && tr.replacement != tr.fromDigest && forall r :: r in s.revoked ==> r.digest != tr.fromDigest
  }

  function Accept(env: Env, s: State, x: Proposal): Option<State> {
    var digest, tr := env.digest(x.p), x.tr;
    if x.p.scheme != tr.scheme || tr.toGeneration != x.p.generation || !Continues(s, tr) then None
    else if DigestAt(s, tr.toGeneration).Some? && DigestAt(s, tr.toGeneration).value != digest then None
    else if tr.action == Revoke && !Revocable(s, tr) then None
    else
      var revoked :=
        if tr.action == Revoke then s.revoked + [Tombstone(tr.fromDigest, tr.tombstoneGeneration, tr.effective, tr.replacement)]
        else s.revoked;
      Some(State(x.p.scheme, x.p.revision, tr.toGeneration, digest,
                 NextHistory(s, HistoryEntry(tr.toGeneration, digest)), revoked))
  }

  /** confirmed against the very state it advances; a refusal leaves the state alone */
  function Attempt(env: Env, s: State, x: Proposal): Option<State> {
    if Confirmed(env, s, x) then Accept(env, s, x) else None
  }

  function Step(env: Env, s: State, x: Proposal): State {
    var r := Attempt(env, s, x);
    if r.None? then s else r.value
  }

  function Run(env: Env, xs: seq<Proposal>): State {
    if xs == [] then EMPTY_STATE else Step(env, Run(env, xs[..|xs| - 1]), xs[|xs| - 1])
  }

  // ---------------------------------------------------------------------
  // The invariant of every run
  // ---------------------------------------------------------------------

  predicate Inv(s: State) {
    && s.generation == |s.history|
    && (forall i :: 0 <= i < |s.history| ==> s.history[i].generation == i + 1)
    && (if s.history == [] then s == EMPTY_STATE else s.history[|s.history| - 1].digest == s.digest != "")
    && (forall r :: r in s.revoked ==> r.replacement != r.digest)
    && (forall i, j :: 0 <= i < j < |s.revoked| ==> s.revoked[i].digest != s.revoked[j].digest)
  }

  ghost predicate Addressed(env: Env) {
    forall p :: env.digest(p) != ""
  }

  /** An accepted step appends one generation, and at most one tombstone: that of the digest it leaves. */
  lemma StepKeeps(env: Env, s: State, x: Proposal)
    requires Addressed(env) && Inv(s)
    ensures Inv(Step(env, s, x))
    ensures s.history <= Step(env, s, x).history && s.revoked <= Step(env, s, x).revoked
  {
    hide DigestAt, HeadOf, StandingAt;
    var n := Step(env, s, x);
    if n != s {
      assert n.history == s.history + [HistoryEntry(x.tr.toGeneration, env.digest(x.p))];
      if x.tr.action == Revoke {
        var t := Tombstone(x.tr.fromDigest, x.tr.tombstoneGeneration, x.tr.effective, x.tr.replacement);
        assert n.revoked == s.revoked + [t];
      }
    }
  }

  lemma {:induction false} RunKeeps(env: Env, xs: seq<Proposal>)
    requires Addressed(env)
    ensures Inv(Run(env, xs))
  {
    if xs != [] {
      RunKeeps(env, xs[..|xs| - 1]);
      StepKeeps(env, Run(env, xs[..|xs| - 1]), xs[|xs| - 1]);
    }
  }

  /** History and tombstones of a run only ever grow at the end. */
  lemma {:induction false} RunGrows(env: Env, xs: seq<Proposal>, i: nat)
    requires Addressed(env) && i <= |xs|
    ensures Run(env, xs[..i]).history <= Run(env, xs).history && Run(env, xs[..i]).revoked <= Run(env, xs).revoked
    decreases |xs|
  {
    var n := |xs| - 1;
    if i == |xs| {
      assert xs[..i] == xs;
    } else {
      RunGrows(env, xs[..n], i);
      assert xs[..n][..i] == xs[..i];
      RunKeeps(env, xs[..n]);
      StepKeeps(env, Run(env, xs[..n]), xs[n]);
    }
  }

  // ---------------------------------------------------------------------
  // Main results
  // ---------------------------------------------------------------------

  /** In every run the history is contiguous from generation 1 to the head and ends at the head digest. */
  lemma {:induction false} HistoryContiguous(env: Env, xs: seq<Proposal>)
    requires Addressed(env)
    ensures
      var s := Run(env, xs);
      && |s.history| == s.generation
      && (forall i :: 0 <= i < |s.history| ==> s.history[i].generation == i + 1)
      && (s.generation > 0 ==> s.history[s.generation - 1].digest == s.digest)
  {
    RunKeeps(env, xs);
  }

  predicate ClockAdvances(xs: seq<Proposal>) {
    forall i, j :: 0 <= i <= j < |xs| ==> xs[i].now <= xs[j].now
  }

  lemma {:induction false} EffectiveIsRevoked(revoked: seq<Tombstone>, r: Tombstone, now: int)
    requires r in revoked && r.effective <= now && forall t :: t in revoked ==> t.replacement != t.digest
    ensures StandingAt(revoked, r.digest, now) == Revoked
  {
    if revoked[0] != r {
      assert r in revoked[1..];
      EffectiveIsRevoked(revoked[1..], r, now);
    }
  }

  /** Once a tombstone is effective, its digest is never again the source or the
      result of an accepted step, however long the run goes on. */
  lemma {:induction false} RevokedStaysOut(env: Env, xs: seq<Proposal>, i: nat, j: nat, r: Tombstone)
    requires Addressed(env) && ClockAdvances(xs) && i <= j < |xs|
    requires r in Run(env, xs[..i]).revoked && r.effective <= xs[i].now
    requires Attempt(env, Run(env, xs[..j]), xs[j]).Some?
    ensures xs[j].tr.fromDigest != r.digest && env.digest(xs[j].p) != r.digest
    ensures Run(env, xs[..j + 1]).digest != r.digest
  {
    hide Run, Attempt, Inv, Addressed, Step;
    RunNext(env, xs, j);
    var s := Run(env, xs[..j]);
    RunGrows(env, xs[..j], i);
    assert xs[..j][..i] == xs[..i];
    RunKeeps(env, xs[..j]);
    assert r in s.revoked;
    AttemptAvoids(env, s, xs[j], r);
  }

  lemma RunNext(env: Env, xs: seq<Proposal>, j: nat)
    requires j < |xs|
    ensures Run(env, xs[..j + 1]) == Step(env, Run(env, xs[..j]), xs[j])
  {
    assert xs[..j + 1][..j] == xs[..j] && xs[..j + 1][j] == xs[j];
    hide Step;
  }

  lemma AttemptAvoids(env: Env, s: State, x: Proposal, r: Tombstone)
    requires Inv(s) && r in s.revoked && r.effective <= x.now && Attempt(env, s, x).Some?
    ensures x.tr.fromDigest != r.digest && env.digest(x.p) != r.digest && Step(env, s, x).digest == env.digest(x.p)
  {
    EffectiveIsRevoked(s.revoked, r, x.now);
    hide StandingAt, CheckState, ValidTransition, DigestAt;
  }

  lemma {:induction false} NotRecordedYet(history: seq<HistoryEntry>, n: nat, generation: int)
    requires n <= |history| && generation > |history| && forall i :: 0 <= i < |history| ==> history[i].generation == i + 1
    ensures RecordedAt(history[n..], generation) == None
    ensures forall head :: |history| <= head ==> Highest(history[n..], head) == head
    decreases |history| - n
  {
    var h := history[n..];
    if h != [] {
      NotRecordedYet(history, n + 1, generation);
      assert h[1..] == history[n + 1..];
    }
  }

  /** On a reachable state the fork and rollback checks never fire: what decides
      a checked, well-formed update is that it follows the head, keeps the revision
      rule, and neither leaves nor enters a revoked digest. */
  lemma {:induction false} UpdateExact(env: Env, s: State, x: Proposal)
    requires Addressed(env) && Inv(s) && x.tr.action == Update
    ensures Attempt(env, s, x).Some? <==>
            && x.checked && ValidTransition(x.tr) && Matches(env, x.p, x.tr)
            && x.tr.fromGeneration == Some(s.generation) && x.tr.fromDigest == s.digest
            && x.tr.toGeneration == s.generation + 1
            && (s.revision != "" ==> env.follows(s.revision, x.p.revision, x.tr.changeClass))
            && StandingAt(s.revoked, s.digest, x.now) == Standing
            && StandingAt(s.revoked, env.digest(x.p), x.now) == Standing
  {
    hide StandingAt;
    if x.tr.toGeneration == s.generation + 1 {
      NotRecordedYet(s.history, 0, x.tr.toGeneration);
      assert s.history[0..] == s.history;
    }
  }

  /** no tombstone of the digest is effective yet */
  predicate Unrevoked(s: State, digest: string, now: int) {
    forall r :: r in s.revoked && r.digest == digest ==> now < r.effective
  }

  lemma {:induction false} StandingMeans(revoked: seq<Tombstone>, digest: string, now: int)
    requires forall t :: t in revoked ==> t.replacement != t.digest
    ensures StandingAt(revoked, digest, now) == Standing <==> forall r :: r in revoked && r.digest == digest ==> now < r.effective
  {
    if revoked != [] {
      StandingMeans(revoked[1..], digest, now);
      assert forall r :: r in revoked <==> r == revoked[0] || r in revoked[1..];
    }
  }

  /** the documents of a proposal belong together */
  predicate Together(env: Env, x: Proposal) {
    && x.p.scheme == x.tr.scheme && x.p.generation == x.tr.toGeneration && env.digest(x.p) == x.tr.toDigest
    && (x.tr.fromDigest != "" ==> x.p.previousDigest == x.tr.fromDigest)
  }

  /** a creation starts from nothing, every other action from the head */
  predicate FromHead(s: State, tr: Transition) {
    if tr.action == Create then
      s.history == [] && tr.fromGeneration.None? && tr.fromDigest == "" && tr.toGeneration == 1
    else
      s.history != [] && tr.fromGeneration == Some(s.generation) && tr.fromDigest == s.digest && tr.toGeneration == s.generation + 1
  }

  /** On a reachable state an action is accepted exactly when all checks passed,
      its documents belong together, it starts where the state is, an update
      keeps the revision rule, a revocation buries a digest not yet buried under
      a sound tombstone, and neither end is revoked; it then adds one
      generation, and a revocation one tombstone. */
  lemma {:induction false} StepExact(env: Env, s: State, x: Proposal)
    requires Addressed(env) && Inv(s)
    ensures Attempt(env, s, x).Some? <==>
      && x.checked && Together(env, x) && FromHead(s, x.tr)
      && (x.tr.action == Update && s.revision != "" ==> env.follows(s.revision, x.p.revision, x.tr.changeClass))
      && (x.tr.action == Revoke ==>
           && x.tr.tombstoneGeneration >= x.tr.toGeneration && x.tr.replacement != s.digest
           && forall r :: r in s.revoked ==> r.digest != s.digest)
      && Unrevoked(s, s.digest, x.now) && Unrevoked(s, env.digest(x.p), x.now)
    ensures Attempt(env, s, x).Some? ==>
      Attempt(env, s, x).value == State(
        x.p.scheme, x.p.revision, s.generation + 1, env.digest(x.p),
        s.history + [HistoryEntry(s.generation + 1, env.digest(x.p))],
        s.revoked + if x.tr.action == Revoke
                    then [Tombstone(s.digest, x.tr.tombstoneGeneration, x.tr.effective, x.tr.replacement)] else [])
  {
    StandingMeans(s.revoked, x.tr.fromDigest, x.now);
    StandingMeans(s.revoked, env.digest(x.p), x.now);
    ConfirmedExact(env, s, x);
    hide Confirmed, StandingAt;
    if Confirmed(env, s, x) {
      AcceptExact(env, s, x);
    }
    hide Accept;
  }

  lemma ConfirmedExact(env: Env, s: State, x: Proposal)
    requires Addressed(env) && Inv(s)
    ensures Confirmed(env, s, x) <==>
      && x.checked && Together(env, x) && FromHead(s, x.tr)
      && (x.tr.action == Update && s.revision != "" ==> env.follows(s.revision, x.p.revision, x.tr.changeClass))
      && (x.tr.action == Revoke ==> x.tr.tombstoneGeneration >= x.tr.toGeneration)
      && StandingAt(s.revoked, x.tr.fromDigest, x.now) == Standing && StandingAt(s.revoked, env.digest(x.p), x.now) == Standing
  {
    hide StandingAt;
    if x.tr.toGeneration == s.generation + 1 {
      NotRecordedYet(s.history, 0, x.tr.toGeneration);
      assert s.history[0..] == s.history;
    }
    hide RecordedAt, Highest;
  }

  lemma AcceptExact(env: Env, s: State, x: Proposal)
    requires Addressed(env) && Inv(s) && Together(env, x) && FromHead(s, x.tr)
    ensures Accept(env, s, x).Some? <==>
      (x.tr.action == Revoke ==> x.tr.replacement != s.digest && forall r :: r in s.revoked ==> r.digest != s.digest)
    ensures Accept(env, s, x).Some? ==>
      Accept(env, s, x).value == State(
        x.p.scheme, x.p.revision, s.generation + 1, env.digest(x.p),
        s.history + [HistoryEntry(s.generation + 1, env.digest(x.p))],
        s.revoked + if x.tr.action == Revoke
                    then [Tombstone(s.digest, x.tr.tombstoneGeneration, x.tr.effective, x.tr.replacement)] else [])
  {
    NotRecordedYet(s.history, 0, x.tr.toGeneration);
    assert s.history[0..] == s.history;
    hide RecordedAt, Highest;
    if x.tr.action != Revoke {
      assert s.revoked + [] == s.revoked;
    }
  }
}
