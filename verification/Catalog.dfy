/**
 The capability catalog's accepted-generation state: full snapshots and deltas
 advance it one generation at a time, each naming the digest it follows.
 */
module Catalog {
  import opened Numbers
  import opened Json

  datatype Entry = Entry(capability: string, details: Json)

  datatype Catalog = Catalog(
    version: string, domain: string, catalogId: string, generation: int,
    issuedAt: int, validUntil: int, previousDigest: string, producer: string,
    entries: seq<Entry>)

  /** what the deployment supplies: content addresses and text grammars */
  datatype Env = Env(
    digest: Catalog -> string,
    isName: string -> bool,
    isPrincipal: string -> bool,
    isDigest: string -> bool,
    entryOk: Entry -> bool)

  /** content addresses are never empty, no two catalogs share one, and no name is empty */
  ghost predicate Collisionless(env: Env) {
    && (forall a, b :: env.digest(a) == env.digest(b) ==> a == b)
    && (forall c :: env.digest(c) != "")
    && !env.isName("") && !env.isPrincipal("")
  }

  const VERSION := "CLC-CAPABILITY-CATALOG-v1"

  predicate ValidCatalog(env: Env, c: Catalog) {
    && c.version == VERSION
    && env.isName(c.domain) && env.isName(c.catalogId) && env.isPrincipal(c.producer)
    && c.generation >= 1
    && c.issuedAt < c.validUntil
    && (if c.generation == 1 then c.previousDigest == "" else env.isDigest(c.previousDigest))
    && c.entries != []
    && (forall e :: e in c.entries ==> env.entryOk(e))
    && (forall i, j :: 0 <= i < j < |c.entries| ==> c.entries[i].capability != c.entries[j].capability)
  }

  datatype Record = Record(generation: int, digest: string)

  datatype State = State(domain: string, catalogId: string, producer: string,
                         generation: int, digest: string, history: seq<Record>)

  const EMPTY_STATE := State("", "", "", 0, "", [])

  /** what verification established about a catalog */
  datatype Verified = Verified(accepted: bool, signature: bool, delta: bool,
                               digest: string, generation: int, producer: string)

  // ---------------------------------------------------------------------
  // History
  // ---------------------------------------------------------------------

  /** the first record of each generation, generation zero dropped */
  function FirstOfEach(records: seq<Record>): seq<Record> {
    if records == [] then []
    else
      var init, r := records[..|records| - 1], records[|records| - 1];
      var kept := FirstOfEach(init);
      if r.generation == 0 || exists x :: x in kept && x.generation == r.generation then kept else kept + [r]
  }

  function Insert(r: Record, records: seq<Record>): seq<Record> {
    if records == [] || r.generation <= records[0].generation then [r] + records
    else [records[0]] + Insert(r, records[1..])
  }

  function SortByGeneration(records: seq<Record>): seq<Record> {
    if records == [] then [] else Insert(records[0], SortByGeneration(records[1..]))
  }

  function NextHistory(s: State, r: Record): seq<Record> {
    SortByGeneration(FirstOfEach([r] + s.history + [Record(s.generation, s.digest)]))
  }

  /** the history part of advance: new record first, then the old ones, each generation once */
  method CollectHistory(s: State, r: Record) returns (history: seq<Record>)
    ensures history == NextHistory(s, r)
  {
    var candidates := [r] + s.history + [Record(s.generation, s.digest)];
    var seen: set<int> := {};
    history := [];
    for i := 0 to |candidates|
      invariant history == FirstOfEach(candidates[..i])
      invariant forall g :: g in seen <==> exists x :: x in history && x.generation == g
    {
      var c := candidates[i];
      assert candidates[..i + 1][..i] == candidates[..i];
      if c.generation != 0 && c.generation !in seen {
        seen := seen + {c.generation};
        ghost var before := history;
        history := history + [c];
        assert forall x :: x in history <==> x in before || x == c;
      }
    }
    assert candidates[..|candidates|] == candidates;
    history := SortByGeneration(history);
  }

  function DigestAt(s: State, generation: int): string {
    if s.generation == generation then s.digest else RecordedAt(s.history, generation)
  }

  function RecordedAt(history: seq<Record>, generation: int): string {
    if history == [] then ""
    else if history[0].generation == generation then history[0].digest
    else RecordedAt(history[1..], generation)
  }

  // ---------------------------------------------------------------------
  // advance, Accept and AcceptDelta
  // ---------------------------------------------------------------------

  predicate SameIdentity(s: State, c: Catalog) {
    && (s.domain != "" ==> s.domain == c.domain)
    && (s.catalogId != "" ==> s.catalogId == c.catalogId)
    && (s.producer != "" ==> s.producer == c.producer)
  }

  predicate Binds(env: Env, v: Verified, c: Catalog) {
    v.digest == env.digest(c) && v.generation == c.generation && v.producer == c.producer
  }

  function Advance(env: Env, s: State, c: Catalog, v: Verified): Option<State> {
    var digest := env.digest(c);
    if !ValidCatalog(env, c) || !SameIdentity(s, c) || !Binds(env, v, c) then None
    else if s.generation == 0 && (s.history != [] || s.digest != "" || c.generation != 1) then None
    else if s.generation != 0 && c.generation < s.generation then None
    else if s.generation != 0 && c.generation == s.generation then
      if digest != s.digest then None else Some(s)
    else if s.generation != 0 && (c.generation != s.generation + 1 || c.previousDigest != s.digest) then None
    else if DigestAt(s, c.generation) != "" && DigestAt(s, c.generation) != digest then None
    else
      Some(State(c.domain, c.catalogId, c.producer, c.generation, digest, NextHistory(s, Record(c.generation, digest))))
  }

  function Accept(env: Env, s: State, c: Catalog, v: Verified): Option<State> {
    if !v.signature || !v.accepted then None else Advance(env, s, c, v)
  }

  function AcceptDelta(env: Env, s: State, base: Catalog, c: Catalog, v: Verified): Option<State> {
    if !v.delta || !v.accepted then None
    else if s.generation == 0 || base.generation != s.generation || env.digest(base) != s.digest then None
    else Advance(env, s, c, v)
  }

  // ---------------------------------------------------------------------
  // Runs: a refused step leaves the state as it was
  // ---------------------------------------------------------------------

  datatype Event = Snapshot(c: Catalog, v: Verified) | Delta(base: Catalog, c: Catalog, v: Verified)

  function Attempt(env: Env, s: State, e: Event): Option<State> {
    match e
    case Snapshot(c, v) => Accept(env, s, c, v)
    case Delta(base, c, v) => AcceptDelta(env, s, base, c, v)
  }

  function Step(env: Env, s: State, e: Event): State {
    var r := Attempt(env, s, e);
    if r.None? then s else r.value
  }

  function Run(env: Env, s: State, events: seq<Event>): State {
    if events == [] then s
    else Step(env, Run(env, s, events[..|events| - 1]), events[|events| - 1])
  }
}
