/** No reachable state of the lot lifecycle is a dead end. */
module LotLiveness {
  import opened Wrappers
  import opened LotPolicy
  import opened LotService
  import opened LotInvariant
  import opened LotRuns
  import opened LotTermination

  /** In every reachable state the publication re-check of an active batch reports no blocker. */
  lemma PublicationNeverBlocked(start: Db, steps: seq<Step>, b: Batch)
    requires Initial(start) && b in Run(start, steps).batches && b.status == Active
    ensures ScopeBlockers(ContextOf(Run(start, steps)), ActiveLots(b), Some(b.id)) == []
  {
    RunKeepsInvariant(start, steps);
    PublicationAllowed(Run(start, steps), b);
    BlockersDecideScope(ContextOf(Run(start, steps)), ActiveLots(b), Some(b.id));
  }

  lemma RestAllowed(db: Db)
    requires Structured(db) && Unclaimed(db) != {}
    ensures ScopeAllowed(ContextOf(db), Unclaimed(db), None)
  {
    var ctx, rest := ContextOf(db), Unclaimed(db);
    forall l | l in rest ensures ctx.lots[l].activeBatch.None? && !ctx.lots[l].IsCompleted() {
      ProgressMeaning(db, l);
      assert forall b | b in db.batches :: l !in b.details;
    }
    forall g | g in ctx.groups ensures MovesWhole(ctx, rest, g) {
      if g.mustMoveTogether {
        forall a, l | a in g.lotIds && l in g.lotIds && a in rest && l in ctx.lots ensures l in rest {
          RestTakesGroup(db, g, a, l);
        }
      }
    }
  }

  lemma RestTakesGroup(db: Db, g: DependencyGroup, a: LotId, l: LotId)
    requires Structured(db) && g in db.groups && g.mustMoveTogether
    requires a in g.lotIds && a in Unclaimed(db) && l in g.lotIds && l in db.lots
    ensures l in Unclaimed(db)
  {
    forall b | b in db.batches ensures l !in b.details {
      assert KeepsGroup(b, g, db.lots.Keys);
      assert a in g.lotIds * db.lots.Keys && a !in b.details;
    }
  }

  /** In every reachable state a batch of all unclaimed lots, if there are any, meets no blocker. */
  lemma RestNeverBlocked(start: Db, steps: seq<Step>)
    requires Initial(start) && Unclaimed(Run(start, steps)) != {}
    ensures ScopeBlockers(ContextOf(Run(start, steps)), Unclaimed(Run(start, steps)), None) == []
  {
    RunKeepsInvariant(start, steps);
    RestAllowed(Run(start, steps));
    BlockersDecideScope(ContextOf(Run(start, steps)), Unclaimed(Run(start, steps)), None);
  }

  lemma {:induction false} FreshId(batches: seq<Batch>) returns (id: BatchId)
    ensures forall b | b in batches :: |b.id| < |id|
  {
    if batches == [] {
      id := "";
    } else {
      var shorter := FreshId(batches[..|batches| - 1]);
      id := shorter + batches[|batches| - 1].id + "x";
      forall b | b in batches ensures |b.id| < |id| {
        assert batches == batches[..|batches| - 1] + [batches[|batches| - 1]];
      }
    }
  }

  lemma {:induction false} ListOf(s: set<LotId>) returns (ids: seq<LotId>)
    ensures forall l :: l in ids <==> l in s
  {
    ids := [];
    if s != {} {
      var x :| x in s;
      var rest := ListOf(s - {x});
      ids := rest + [x];
    }
  }

  /** Creating a batch of all unclaimed lots is allowed whenever there are any. */
  lemma StartRest(db: Db) returns (c: CreateCommand)
    requires Structured(db) && Unclaimed(db) != {} && PackageError(db.package).None?
    ensures c.Selected() == Unclaimed(db) && c.permitted && CreateBatch(db, c).Ok?
  {
    var ids := ListOf(Unclaimed(db));
    var id := FreshId(db.batches);
    c := CreateCommand(true, ids, Some(Consolidated), false, "", id);
    RestAllowed(db);
    BlockersDecideScope(ContextOf(db), c.Selected(), None);
  }

  const BLANK_AWARD := LotAward("", 0, "", "")

  lemma {:induction false} BlankResults(s: set<LotId>) returns (raw: seq<RawLotResult>)
    requires "" !in s
    ensures ParseResults(raw).Some? && ParseResults(raw).value.Keys == s
    ensures forall l | l in s :: ParseResults(raw).value[l] == BLANK_AWARD
  {
    raw := [];
    if s != {} {
      var x :| x in s;
      var rest := BlankResults(s - {x});
      raw := rest + [RawLotResult(x, "", 0, "", "")];
      assert raw[..|raw| - 1] == rest;
    }
  }

  lemma ActiveBatchNotRemembered(db: Db, i: nat, k: IdempotencyKey)
    requires Numbered(db.batches) && Remembered(db) && i < |db.batches| && db.batches[i].status == Active
    requires k.batchId == db.batches[i].id
    ensures k !in db.idempotency
  {
  }

  lemma FinalizeIsKey()
    ensures ValidKey("finalize")
  {
  }

  /** Some official result is acceptable for any active batch. */
  lemma FinishBatch(db: Db, i: nat) returns (c: FinalizeCommand)
    requires Invariant(db) && i < |db.batches| && db.batches[i].status == Active
    requires PackageError(db.package).None? && db.package.rowVersion >= 1 && "" !in db.lots
    ensures Commits(db, c) && FindBatch(db.batches, c.batchId) == Some(i)
  {
    var b := db.batches[i];
    assert b in db.batches && BatchShape(b, db.lots.Keys);
    ActiveLotsAll(db, b);
    var outcomes, award := BlankAward(b.details.Keys, db.package.rowVersion, db.contractors);
    c := FinalizeCommand(true, "", "finalize", b.id, outcomes, award);
    FinalizeIsKey();
    FindIsOnly(db.batches, i);
    ActiveBatchNotRemembered(db, i, KeyOf(c));
    ActiveHasNoArtifact(db, i);
    assert ScopeBlockers(ContextOf(db), ActiveLots(b), Some(b.id)) == [] by {
      PublicationAllowed(db, b);
      BlockersDecideScope(ContextOf(db), ActiveLots(b), Some(b.id));
    }
    AcceptedWhenChecked(db, i, outcomes, award, ParseResults(award.lotResults).value);
  }

  /** A body that reports no bid for every lot. */
  lemma BlankAward(lots: set<LotId>, version: nat, contractors: set<string>)
    returns (outcomes: Outcomes, award: AwardBody)
    requires "" !in lots && version >= 1 && lots != {}
    ensures BodyWellFormed(award) && award.expectedVersion == version && outcomes.Keys == lots && outcomes != map[]
    ensures ParseResults(award.lotResults).Some? && ParseResults(award.lotResults).value.Keys == lots
    ensures OutcomesMatch(outcomes, ParseResults(award.lotResults).value, contractors)
  {
    var raw := BlankResults(lots);
    outcomes := map l | l in lots :: Some(NoBid);
    award := AwardBody(version, "1", "1", "", raw);
    assert outcomes.Keys == lots;
  }

  lemma AcceptedWhenChecked(db: Db, i: nat, outcomes: Outcomes, a: AwardBody, results: map<LotId, LotAward>)
    requires i < |db.batches| && FindBatch(db.batches, db.batches[i].id) == Some(i) && db.batches[i].status == Active
    requires PackageError(db.package).None? && BodyWellFormed(a) && a.expectedVersion == db.package.rowVersion
    requires ParseResults(a.lotResults) == Some(results) && OutcomesMatch(outcomes, results, db.contractors)
    requires outcomes.Keys == ActiveLots(db.batches[i]) != {} && results.Keys <= db.lots.Keys
    requires ScopeBlockers(ContextOf(db), ActiveLots(db.batches[i]), Some(db.batches[i].id)) == []
    requires db.batches[i].id !in db.artifacts
    ensures FinalizeAward(db, db.batches[i].id, outcomes, a).Ok?
  {
  }

  lemma {:induction false} RunCons(db: Db, s: Step, steps: seq<Step>)
    ensures Run(db, [s] + steps) == Run(Next(db, s), steps)
  {
    if steps == [] {
      assert [s] + steps == [s];
      assert Run(db, [s][..0]) == db;
    } else {
      var front := steps[..|steps| - 1];
      RunCons(db, s, front);
      assert ([s] + steps)[..|steps|] == [s] + front;
    }
  }

  lemma NothingLeft(db: Db)
    requires Structured(db) && db.lots != map[] && Unclaimed(db) == {}
    requires forall b | b in db.batches :: b.status != Active
    ensures StatusOf(db) == Completed
  {
    StatusMeaning(Progress(db));
    assert Progress(db).Keys == db.lots.Keys;
    forall l | l in db.lots ensures Progress(db)[l].IsCompleted() {
      ProgressMeaning(db, l);
      assert l !in Unclaimed(db);
      assert Claimed(db.batches, l);
      var b :| b in db.batches && l in b.details;
      assert BatchShape(b, db.lots.Keys);
    }
  }

  ghost predicate Usable(db: Db) {
    && Invariant(db) && db.lots != map[] && "" !in db.lots
    && PackageError(db.package).None? && db.package.rowVersion >= 1
  }

  /** Unless the package is completed, some create or finalize advances it. */
  lemma SomethingAdvances(db: Db) returns (s: Step)
    requires Usable(db) && StatusOf(db) != Completed
    ensures Advances(db, s)
  {
    if i :| 0 <= i < |db.batches| && db.batches[i].status == Active {
      var c := FinishBatch(db, i);
      s := Finalize(c);
    } else {
      assert Unclaimed(db) != {} by { if Unclaimed(db) == {} { NothingLeft(db); } }
      var c := StartRest(db);
      s := Create(c);
    }
  }

  lemma StepKeepsUsable(db: Db, s: Step)
    requires Usable(db)
    ensures Usable(Next(db, s))
  {
    StepKeepsInvariant(db, s);
    StepKeepsScope(db, s);
    assert Next(db, s).lots.Keys == db.lots.Keys;
  }

  /** From any state that satisfies the invariant, creates and finalizes alone finish the package. */
  lemma {:induction false} CanFinish(db: Db) returns (steps: seq<Step>)
    requires Usable(db)
    ensures StatusOf(Run(db, steps)) == Completed
    ensures forall s | s in steps :: s.Create? || s.Finalize?
    decreases Potential(db)
  {
    steps := [];
    if StatusOf(db) != Completed {
      var s := SomethingAdvances(db);
      StepKeepsUsable(db, s);
      StepMovesForward(db, s);
      var rest := CanFinish(Next(db, s));
      RunCons(db, s, rest);
      steps := [s] + rest;
    }
  }

  /** No deadlock: every reachable state of a usable package can still reach COMPLETED. */
  lemma EveryRunCanComplete(start: Db, steps: seq<Step>) returns (more: seq<Step>)
    requires Initial(start) && start.lots != map[] && "" !in start.lots
    requires PackageError(start.package).None? && start.package.rowVersion >= 1
    ensures StatusOf(Run(Run(start, steps), more)) == Completed
    ensures forall s | s in more :: s.Create? || s.Finalize?
  {
    RunKeepsInvariant(start, steps);
    RunKeepsScope(start, steps);
    assert Run(start, steps).lots.Keys == start.lots.Keys;
    more := CanFinish(Run(start, steps));
  }
}
