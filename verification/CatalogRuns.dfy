/** What holds in every run of catalog acceptance from the empty state. */
module CatalogRuns {
  import opened Numbers
  import opened Catalog

  /** the catalogs behind a history: each follows the digest of the one before */
  ghost predicate Lineage(env: Env, history: seq<Record>, cats: seq<Catalog>) {
    && |cats| == |history|
    && (forall i :: 0 <= i < |history| ==>
         history[i] == Record(i + 1, env.digest(cats[i])) && cats[i].generation == i + 1)
    && (forall i :: 1 <= i < |history| ==> Linked(history, cats, i))
  }

  /** catalog i names the digest recorded before it */
  predicate Linked(history: seq<Record>, cats: seq<Catalog>, i: int) {
    1 <= i < |history| && i < |cats| && cats[i].previousDigest == history[i - 1].digest
  }

  /** the head of the state is the last catalog of the lineage */
  ghost predicate Heads(env: Env, s: State, cats: seq<Catalog>) {
    && Lineage(env, s.history, cats)
    && s.generation == |s.history|
    && (cats == [] ==> s == EMPTY_STATE)
    && (cats != [] ==>
         var c := cats[|cats| - 1];
         && s.domain == c.domain != "" && s.catalogId == c.catalogId != "" && s.producer == c.producer != ""
         && s.digest == env.digest(c))
  }

  ghost predicate Inv(env: Env, s: State) {
    exists cats :: Heads(env, s, cats)
  }

  // ---------------------------------------------------------------------
  // Appending one generation
  // ---------------------------------------------------------------------

  predicate Contiguous(history: seq<Record>) {
    forall i :: 0 <= i < |history| ==> history[i].generation == i + 1
  }

  lemma {:induction false} FirstOfEachContiguous(r: Record, history: seq<Record>, n: nat)
    requires Contiguous(history) && r.generation == |history| + 1 && n <= |history|
    ensures FirstOfEach([r] + history[..n]) == [r] + history[..n]
  {
    var records := [r] + history[..n];
    if n == 0 {
      assert records == [r] && records[..0] == [];
    } else {
      FirstOfEachContiguous(r, history, n - 1);
      var kept, last := [r] + history[..n - 1], history[n - 1];
      forall x | x in kept ensures x.generation != last.generation {
        assert x == r || x in history[..n - 1];
      }
      assert kept + [last] == records;
      hide FirstOfEach;
      FirstOfEachAdds(kept, last);
    }
  }

  lemma {:induction false} SortContiguous(history: seq<Record>, n: nat)
    requires Contiguous(history) && n <= |history|
    ensures SortByGeneration(history[n..]) == history[n..]
    decreases |history| - n
  {
    var h := history[n..];
    if h != [] {
      SortContiguous(history, n + 1);
      assert h[1..] == history[n + 1..];
      assert h == [h[0]] + h[1..];
    }
  }

  lemma {:induction false} InsertLast(r: Record, history: seq<Record>, n: nat)
    requires Contiguous(history) && r.generation == |history| + 1 && n <= |history|
    ensures Insert(r, history[n..]) == history[n..] + [r]
    decreases |history| - n
  {
    var h := history[n..];
    if h != [] {
      InsertLast(r, history, n + 1);
      assert h[1..] == history[n + 1..];
      assert h == [h[0]] + h[1..];
    }
  }

  lemma FirstOfEachRepeated(r: Record, h: seq<Record>, last: Record)
    requires Contiguous(h) && r.generation == |h| + 1 && last.generation == |h|
    ensures FirstOfEach([r] + h + [last]) == [r] + h
  {
    hide FirstOfEach;
    FirstOfEachContiguous(r, h, |h|);
    assert h[..|h|] == h;
    if h != [] {
      var x := h[|h| - 1];
      assert x in [r] + h by { assert ([r] + h)[|h|] == x; }
      assert x.generation == last.generation;
    }
    FirstOfEachDrops([r] + h, last);
  }

  lemma FirstOfEachAdds(records: seq<Record>, last: Record)
    requires last.generation != 0 && forall x :: x in FirstOfEach(records) ==> x.generation != last.generation
    ensures FirstOfEach(records + [last]) == FirstOfEach(records) + [last]
  {
    var all := records + [last];
    assert all[..|all| - 1] == records && all[|all| - 1] == last;
  }

  lemma FirstOfEachDrops(records: seq<Record>, last: Record)
    requires last.generation == 0 || exists x :: x in FirstOfEach(records) && x.generation == last.generation
    ensures FirstOfEach(records + [last]) == FirstOfEach(records)
  {
    var all := records + [last];
    assert all[..|all| - 1] == records && all[|all| - 1] == last;
  }

  /** Deduplicating and sorting appends the new record to a contiguous history. */
  lemma NextHistoryAppends(s: State, r: Record)
    requires Contiguous(s.history) && s.generation == |s.history| && r.generation == s.generation + 1
    ensures NextHistory(s, r) == s.history + [r]
  {
    hide FirstOfEach, Insert;
    var h := s.history;
    FirstOfEachRepeated(r, h, Record(s.generation, s.digest));
    SortContiguous(h, 0);
    InsertLast(r, h, 0);
    assert h[0..] == h && ([r] + h)[1..] == h;
  }

  lemma {:induction false} NotRecordedYet(history: seq<Record>, n: nat, generation: int)
    requires Contiguous(history) && n <= |history| && generation > |history|
    ensures RecordedAt(history[n..], generation) == ""
    decreases |history| - n
  {
    var h := history[n..];
    if h != [] {
      NotRecordedYet(history, n + 1, generation);
      assert h[1..] == history[n + 1..];
    }
  }

  // ---------------------------------------------------------------------
  // The invariant
  // ---------------------------------------------------------------------

  lemma HeadsFacts(env: Env, s: State, cats: seq<Catalog>)
    requires Heads(env, s, cats)
    ensures Lineage(env, s.history, cats) && s.generation == |s.history|
    ensures Contiguous(s.history)
    ensures s.history != [] ==> s.digest == s.history[|s.history| - 1].digest
    ensures s.generation == 0 ==> s == EMPTY_STATE
  {
  }

  /** An accepted advance either keeps the state or appends exactly one generation. */
  lemma AdvanceKeeps(env: Env, s: State, cats: seq<Catalog>, c: Catalog, v: Verified, n: State)
    requires Collisionless(env) && Heads(env, s, cats) && Advance(env, s, c, v) == Some(n)
    ensures n == s || (n.history == s.history + [Record(c.generation, env.digest(c))] && Heads(env, n, cats + [c]))
  {
    HeadsFacts(env, s, cats);
    hide NextHistory, Collisionless, Advance, Lineage, Heads, ValidCatalog, Contiguous;
    if n != s {
      AdvanceMoves(env, s, c, v, n);
      NextHistoryAppends(s, Record(c.generation, env.digest(c)));
      LineageSnoc(env, s.history, cats, c);
      NewHead(env, n, cats, c);
    }
  }

  /** a valid catalog at the end of a lineage heads the state made from it */
  lemma NewHead(env: Env, n: State, cats: seq<Catalog>, c: Catalog)
    requires Collisionless(env) && ValidCatalog(env, c)
    requires n == State(c.domain, c.catalogId, c.producer, c.generation, env.digest(c), n.history)
    requires Lineage(env, n.history, cats + [c]) && n.generation == |n.history|
    ensures Heads(env, n, cats + [c])
  {
    Names(env);
    hide Lineage, Collisionless;
  }

  /** what an advance that changes the state has accepted */
  lemma AdvanceMoves(env: Env, s: State, c: Catalog, v: Verified, n: State)
    requires Advance(env, s, c, v) == Some(n) && n != s && s.generation == |s.history|
    ensures ValidCatalog(env, c) && c.generation == s.generation + 1
    ensures s.generation != 0 ==> c.previousDigest == s.digest
    ensures n == State(c.domain, c.catalogId, c.producer, c.generation, env.digest(c),
                       NextHistory(s, Record(c.generation, env.digest(c))))
  {
    hide DigestAt, NextHistory, ValidCatalog, SameIdentity, Binds;
  }

  lemma Names(env: Env)
    requires Collisionless(env)
    ensures !env.isName("") && !env.isPrincipal("")
  {
  }

  lemma LineageSnoc(env: Env, history: seq<Record>, cats: seq<Catalog>, c: Catalog)
    requires Lineage(env, history, cats) && c.generation == |history| + 1
    requires history != [] ==> c.previousDigest == history[|history| - 1].digest
    ensures Lineage(env, history + [Record(c.generation, env.digest(c))], cats + [c])
  {
    var h, k := history + [Record(c.generation, env.digest(c))], cats + [c];
    forall i | 0 <= i < |h| ensures h[i] == Record(i + 1, env.digest(k[i])) && k[i].generation == i + 1 {
      hide Lineage;
      assert i < |history| ==> h[i] == history[i] && k[i] == cats[i];
    }
    forall i | 1 <= i < |h| ensures Linked(h, k, i) {
      hide Lineage;
      assert h[i - 1] == history[i - 1];
      assert i < |history| ==> Linked(history, cats, i) && k[i] == cats[i];
    }
    assert |k| == |h|;
  }

  lemma AdvanceIdentity(env: Env, s: State, c: Catalog, v: Verified, n: State)
    requires Advance(env, s, c, v) == Some(n) && s.domain != "" && s.catalogId != "" && s.producer != ""
    ensures n.domain == s.domain && n.catalogId == s.catalogId && n.producer == s.producer
  {
    hide NextHistory, ValidCatalog, DigestAt;
  }

  lemma HeadsNamed(env: Env, s: State, cats: seq<Catalog>)
    requires Heads(env, s, cats) && s.generation != 0
    ensures s.domain != "" && s.catalogId != "" && s.producer != ""
  {
  }

  lemma StepKeeps(env: Env, s: State, e: Event)
    requires Collisionless(env) && Inv(env, s)
    ensures Inv(env, Step(env, s, e)) && s.history <= Step(env, s, e).history
    ensures s.generation != 0 ==>
              var n := Step(env, s, e);
              n.domain == s.domain && n.catalogId == s.catalogId && n.producer == s.producer
  {
    var cats :| Heads(env, s, cats);
    var r := Attempt(env, s, e);
    if r.Some? {
      AdvanceKeeps(env, s, cats, e.c, e.v, r.value);
      if s.generation != 0 {
        HeadsNamed(env, s, cats);
        AdvanceIdentity(env, s, e.c, e.v, r.value);
      }
      hide Heads, Collisionless, Advance;
    }
  }

  lemma {:induction false} RunKeeps(env: Env, events: seq<Event>)
    requires Collisionless(env)
    ensures Inv(env, Run(env, EMPTY_STATE, events))
  {
    if events == [] {
      assert Heads(env, EMPTY_STATE, []);
    } else {
      var n := |events| - 1;
      RunKeeps(env, events[..n]);
      StepKeeps(env, Run(env, EMPTY_STATE, events[..n]), events[n]);
    }
  }

  // ---------------------------------------------------------------------
  // Main results
  // ---------------------------------------------------------------------

  /** On a reachable state the recorded-fork check never fires: an advance is
      accepted exactly for a valid, bound catalog of the same identity that is the
      head again or the next generation following the head digest. */
  lemma {:induction false} AdvanceExact(env: Env, s: State, c: Catalog, v: Verified)
    requires Collisionless(env) && Inv(env, s)
    ensures Advance(env, s, c, v).Some? <==>
            && ValidCatalog(env, c) && SameIdentity(s, c) && Binds(env, v, c)
            && (|| (c.generation == s.generation && env.digest(c) == s.digest)
                || (c.generation == s.generation + 1 && (s.generation > 0 ==> c.previousDigest == s.digest)))
  {
    var cats :| Heads(env, s, cats);
    HeadsFacts(env, s, cats);
    hide NextHistory, Collisionless, Heads;
    if c.generation > s.generation {
      NotRecordedYet(s.history, 0, c.generation);
      assert s.history[0..] == s.history;
    }
  }

  /** Nothing unverified advances: an accepted event carries an accepted
      verification of that very catalog, for a snapshot its signature, for a delta
      its delta proof and the head as base; the catalog is valid and of the state's
      identity. */
  lemma {:induction false} AdvanceIsVerified(env: Env, s: State, e: Event)
    requires Attempt(env, s, e).Some?
    ensures e.v.accepted && e.v.digest == env.digest(e.c) && e.v.generation == e.c.generation && e.v.producer == e.c.producer
    ensures if e.Snapshot? then e.v.signature
            else e.v.delta && s.generation != 0 && e.base.generation == s.generation && env.digest(e.base) == s.digest
    ensures e.c.version == "CLC-CAPABILITY-CATALOG-v1" && e.c.issuedAt < e.c.validUntil && e.c.generation >= 1
    ensures env.isName(e.c.domain) && env.isName(e.c.catalogId) && env.isPrincipal(e.c.producer)
    ensures if e.c.generation == 1 then e.c.previousDigest == "" else env.isDigest(e.c.previousDigest)
    ensures e.c.entries != [] && forall x :: x in e.c.entries ==> env.entryOk(x)
    ensures forall i, j :: 0 <= i < j < |e.c.entries| ==> e.c.entries[i].capability != e.c.entries[j].capability
    ensures s.domain != "" ==> e.c.domain == s.domain
    ensures s.catalogId != "" ==> e.c.catalogId == s.catalogId
    ensures s.producer != "" ==> e.c.producer == s.producer
  {
    hide NextHistory, DigestAt;
  }

  /** In every run the history holds exactly one record per generation, in order, ending at the head. */
  lemma {:induction false} HistoryComplete(env: Env, events: seq<Event>)
    requires Collisionless(env)
    ensures
      var s := Run(env, EMPTY_STATE, events);
      && |s.history| == s.generation
      && (forall i :: 0 <= i < |s.history| ==> s.history[i].generation == i + 1)
      && (s.generation > 0 ==> s.history[s.generation - 1].digest == s.digest)
  {
    hide Run, Collisionless, Inv;
    RunKeeps(env, events);
    CompleteHistory(env, Run(env, EMPTY_STATE, events));
  }

  lemma CompleteHistory(env: Env, s: State)
    requires Inv(env, s)
    ensures |s.history| == s.generation
    ensures forall i :: 0 <= i < |s.history| ==> s.history[i].generation == i + 1
    ensures s.generation > 0 ==> s.history[s.generation - 1].digest == s.digest
  {
    var cats :| Heads(env, s, cats);
    hide Inv;
  }

  /** Whatever happens later, a recorded digest and the catalog identity never change. */
  lemma {:induction false} HistoryNeverRewritten(env: Env, events: seq<Event>, more: seq<Event>)
    requires Collisionless(env)
    ensures
      var s, n := Run(env, EMPTY_STATE, events), Run(env, EMPTY_STATE, events + more);
      && s.history <= n.history
      && (s.generation != 0 ==>
           n.generation != 0 && n.domain == s.domain && n.catalogId == s.catalogId && n.producer == s.producer)
    decreases |more|
  {
    if more == [] {
      assert events + more == events;
    } else {
      hide Collisionless, Inv;
      var k := |more| - 1;
      var all := events + more;
      assert all[..|all| - 1] == events + more[..k] && all[|all| - 1] == more[k];
      HistoryNeverRewritten(env, events, more[..k]);
      assert Run(env, EMPTY_STATE, all) == Step(env, Run(env, EMPTY_STATE, events + more[..k]), more[k]);
      hide Run, Step;
      var m := Run(env, EMPTY_STATE, events + more[..k]);
      RunKeeps(env, events + more[..k]);
      StepKeeps(env, m, more[k]);
      HistoryComplete(env, all);
    }
  }

  lemma SameCatalog(env: Env, a: Catalog, b: Catalog)
    requires Collisionless(env) && env.digest(a) == env.digest(b)
    ensures a == b
  {
  }

  lemma LineageInit(env: Env, h: seq<Record>, cats: seq<Catalog>)
    requires Lineage(env, h, cats) && |h| > 1
    ensures var n := |h| - 1; Lineage(env, h[..n], cats[..n]) && h[n - 1].digest == cats[n].previousDigest
  {
    var n := |h| - 1;
    assert Linked(h, cats, n);
    forall i | 1 <= i < n ensures Linked(h[..n], cats[..n], i) {
      assert Linked(h, cats, i);
    }
  }

  /** the last record tells the last catalog, hence the length of the history */
  lemma LineageLast(env: Env, a: seq<Record>, ca: seq<Catalog>, b: seq<Record>, cb: seq<Catalog>)
    requires Collisionless(env) && Lineage(env, a, ca) && Lineage(env, b, cb) && a != [] && b != []
    requires a[|a| - 1].digest == b[|b| - 1].digest
    ensures |a| == |b| == |ca| == |cb| && a[|a| - 1] == b[|a| - 1] && ca[|a| - 1] == cb[|a| - 1]
  {
    SameCatalog(env, ca[|a| - 1], cb[|b| - 1]);
    hide Collisionless;
  }

  lemma SameWhole<T>(a: seq<T>, b: seq<T>, n: nat)
    requires |a| == |b| == n + 1 && a[..n] == b[..n] && a[n] == b[n]
    ensures a == b
  {
    assert a == a[..n] + [a[n]] && b == b[..n] + [b[n]];
  }

  lemma {:induction false} LineagePinned(env: Env, a: seq<Record>, ca: seq<Catalog>, b: seq<Record>, cb: seq<Catalog>)
    requires Collisionless(env) && Lineage(env, a, ca) && Lineage(env, b, cb) && a != [] && b != []
    requires a[|a| - 1].digest == b[|b| - 1].digest
    ensures a == b && ca == cb
  {
    hide Lineage, Collisionless;
    var n := |a| - 1;
    LineageLast(env, a, ca, b, cb);
    if n > 0 {
      LineageInit(env, a, ca);
      LineageInit(env, b, cb);
      LineagePinned(env, a[..n], ca[..n], b[..n], cb[..n]);
    }
    SameWhole(a, b, n);
    SameWhole(ca, cb, n);
  }

  /** Two runs that end at the same head digest have the same whole history, hence the same state. */
  lemma {:induction false} HeadDigestPinsHistory(env: Env, x: seq<Event>, y: seq<Event>)
    requires Collisionless(env)
    requires
      var s, t := Run(env, EMPTY_STATE, x), Run(env, EMPTY_STATE, y);
      s.generation != 0 && t.generation != 0 && s.digest == t.digest
    ensures Run(env, EMPTY_STATE, x) == Run(env, EMPTY_STATE, y)
  {
    hide Run, Collisionless;
    RunKeeps(env, x);
    RunKeeps(env, y);
    InvPinned(env, Run(env, EMPTY_STATE, x), Run(env, EMPTY_STATE, y));
  }

  lemma InvPinned(env: Env, s: State, t: State)
    requires Collisionless(env) && Inv(env, s) && Inv(env, t)
    requires s.generation != 0 && t.generation != 0 && s.digest == t.digest
    ensures s == t
  {
    hide Collisionless, Heads;
    var cs :| Heads(env, s, cs);
    var ct :| Heads(env, t, ct);
    HeadsPinned(env, s, cs, t, ct);
  }

  lemma HeadsPinned(env: Env, s: State, cs: seq<Catalog>, t: State, ct: seq<Catalog>)
    requires Collisionless(env) && Heads(env, s, cs) && Heads(env, t, ct)
    requires s.generation != 0 && t.generation != 0 && s.digest == t.digest
    ensures s == t
  {
    HeadsFacts(env, s, cs);
    HeadsFacts(env, t, ct);
    assert |cs| == |s.history| && |ct| == |t.history|;
    hide Collisionless, Lineage, Contiguous;
    LineagePinned(env, s.history, cs, t.history, ct);
  }
}
