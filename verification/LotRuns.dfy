/** What holds over every run of lot-lifecycle commands that starts from a fresh package. */
module LotRuns {
  import opened Wrappers
  import opened LotPolicy
  import opened LotService
  import opened LotInvariant

  // ---- dependency chains --------------------------------------------------------------------

  ghost predicate MustMoveTogether(db: Db, a: LotId, b: LotId) {
    a in db.lots && b in db.lots
    && exists g | g in db.groups :: g.mustMoveTogether && a in g.lotIds && b in g.lotIds
  }

  /** A chain of lots, each bound to the next by some must-move-together group. */
  ghost predicate Chain(db: Db, path: seq<LotId>) {
    && path != [] && path[0] in db.lots
    && forall i | 0 <= i < |path| - 1 :: MustMoveTogether(db, path[i], path[i + 1])
  }

  lemma BoundLotsShareBatch(db: Db, a: LotId, b: LotId)
    requires Structured(db) && MustMoveTogether(db, a, b)
    ensures LatestBatch(db.batches, a) == LatestBatch(db.batches, b)
  {
    LatestIsOnly(db.batches, a);
    LatestIsOnly(db.batches, b);
    var g :| g in db.groups && g.mustMoveTogether && a in g.lotIds && b in g.lotIds;
    assert a in g.lotIds * db.lots.Keys && b in g.lotIds * db.lots.Keys;
    forall x | x in db.batches ensures a in x.details <==> b in x.details {
      assert KeepsGroup(x, g, db.lots.Keys);
    }
    if LatestBatch(db.batches, a).Some? {
      assert db.batches[LatestBatch(db.batches, a).value] in db.batches;
    }
    if LatestBatch(db.batches, b).Some? {
      assert db.batches[LatestBatch(db.batches, b).value] in db.batches;
    }
  }

  lemma {:induction false} ChainSharesBatch(db: Db, path: seq<LotId>)
    requires Structured(db) && Chain(db, path)
    ensures LatestBatch(db.batches, path[0]) == LatestBatch(db.batches, path[|path| - 1])
  {
    if |path| > 1 {
      var front := path[..|path| - 1];
      assert Chain(db, front);
      ChainSharesBatch(db, front);
      BoundLotsShareBatch(db, path[|path| - 2], path[|path| - 1]);
    }
  }

  /** Both lots are unclaimed, or both are in the same batch, and one is approved exactly when the other is. */
  ghost predicate ShareFate(batches: seq<Batch>, a: LotId, b: LotId) {
    && LatestBatch(batches, a) == LatestBatch(batches, b)
    && (forall i | 0 <= i < |batches| :: a in batches[i].details <==> b in batches[i].details)
    && (ProgressIn(batches, a).IsCompleted() <==> ProgressIn(batches, b).IsCompleted())
  }

  lemma SameBatchSharesFate(db: Db, a: LotId, b: LotId)
    requires Structured(db) && LatestBatch(db.batches, a) == LatestBatch(db.batches, b)
    ensures ShareFate(db.batches, a, b)
  {
    LatestIsOnly(db.batches, a);
    LatestIsOnly(db.batches, b);
    forall i | 0 <= i < |db.batches| ensures a in db.batches[i].details <==> b in db.batches[i].details {
      assert db.batches[i] in db.batches;
    }
    assert ProgressIn(db.batches, a).IsCompleted() <==> ProgressIn(db.batches, b).IsCompleted() by {
      match LatestBatch(db.batches, a)
      case None =>
      case Some(i) =>
        var x := db.batches[i];
        assert x in db.batches && BatchShape(x, db.lots.Keys);
        assert DetailShape(x.details[a], x.status == Closed) && DetailShape(x.details[b], x.status == Closed);
    }
  }

  /**
   In every reachable state, lots linked by a chain of overlapping groups are all unclaimed or all
   in one batch, and one is approved exactly when the other is.
   */
  lemma LinkedLotsMoveTogether(start: Db, steps: seq<Step>, path: seq<LotId>)
    requires Initial(start) && Chain(Run(start, steps), path)
    ensures ShareFate(Run(start, steps).batches, path[0], path[|path| - 1])
  {
    RunKeepsInvariant(start, steps);
    ChainSharesBatch(Run(start, steps), path);
    SameBatchSharesFate(Run(start, steps), path[0], path[|path| - 1]);
  }

  /** Lots, groups and the kind of package never change during a run. */
  lemma {:induction false} RunKeepsScope(start: Db, steps: seq<Step>)
    requires Initial(start)
    ensures SameScope(start, Run(start, steps))
  {
    if steps != [] {
      var db := Run(start, steps[..|steps| - 1]);
      RunKeepsScope(start, steps[..|steps| - 1]);
      StepKeepsScope(db, steps[|steps| - 1]);
    }
  }

  /** What a step leaves fixed, and that versions only rise. */
  ghost predicate SameScope(db: Db, after: Db) {
    && after.lots.Keys == db.lots.Keys && after.groups == db.groups
    && after.package.present == db.package.present && after.package.lotted == db.package.lotted
    && after.package.rowVersion >= db.package.rowVersion
  }

  lemma CommitKeepsScope(db: Db, c: FinalizeCommand)
    requires Commits(db, c)
    ensures SameScope(db, FinalizeRoute(db, c).0)
    ensures c.award.expectedVersion == db.package.rowVersion < FinalizeRoute(db, c).0.package.rowVersion
    ensures FinalizeRoute(db, c).0.syncVersion == db.syncVersion + 1
  {
    var after := CommitUnfolds(db, c);
    var i, results := AwardUnfolds(db, c.batchId, c.outcomes, c.award);
    ClosedUnfolds(db, c.batchId, c.outcomes, i);
    RecordKeepsScope(FinalizeBatch(db, c.batchId, c.outcomes).value, c.batchId, c.outcomes, c.award, results);
  }

  lemma RecordKeepsScope(closed: Db, batchId: BatchId, outcomes: Outcomes, a: AwardBody, results: map<LotId, LotAward>)
    requires results.Keys <= closed.lots.Keys
    ensures var after := RecordAward(closed, batchId, outcomes, a, results);
            SameScope(closed, after) && after.package.rowVersion == closed.package.rowVersion + 1
                && after.syncVersion == closed.syncVersion + 1
  {
    assert (closed.lots + results).Keys == closed.lots.Keys;
  }

  lemma StepKeepsScope(db: Db, s: Step)
    ensures SameScope(db, Next(db, s))
    ensures s.Finalize? && Commits(db, s.finalize) ==>
              s.finalize.award.expectedVersion == db.package.rowVersion < Next(db, s).package.rowVersion
  {
    if s.Finalize? && Commits(db, s.finalize) {
      CommitKeepsScope(db, s.finalize);
    }
  }

  /** Linked lots become approved in the same step. */
  lemma LinkedLotsApprovedTogether(start: Db, steps: seq<Step>, s: Step, path: seq<LotId>)
    requires Initial(start) && Chain(start, path)
    ensures var before, after := Run(start, steps), Run(start, steps + [s]);
            var a, b := path[0], path[|path| - 1];
            !ProgressIn(before.batches, a).IsCompleted() && ProgressIn(after.batches, a).IsCompleted() ==>
              !ProgressIn(before.batches, b).IsCompleted() && ProgressIn(after.batches, b).IsCompleted()
  {
    RunKeepsScope(start, steps);
    RunKeepsScope(start, steps + [s]);
    assert Chain(Run(start, steps), path);
    assert Chain(Run(start, steps + [s]), path);
    LinkedLotsMoveTogether(start, steps, path);
    LinkedLotsMoveTogether(start, steps + [s], path);
  }

  // ---- one batch per lot --------------------------------------------------------------------

  /** Sequence numbers are 1..k and a lot belongs to at most one batch, as its only detail. */
  lemma LotsClaimedOnce(start: Db, steps: seq<Step>)
    requires Initial(start)
    ensures var batches := Run(start, steps).batches;
            && (forall i | 0 <= i < |batches| :: batches[i].sequenceNo == i + 1)
            && (forall i, l | 0 <= i < |batches| && l in batches[i].details :: LatestBatch(batches, l) == Some(i))
            && (forall i, j | 0 <= i < j < |batches| :: batches[i].details.Keys !! batches[j].details.Keys)
  {
    RunKeepsInvariant(start, steps);
    var batches := Run(start, steps).batches;
    forall i, l | 0 <= i < |batches| && l in batches[i].details ensures LatestBatch(batches, l) == Some(i) {
      LatestIsOnly(batches, l);
    }
  }

  // ---- exactly once -------------------------------------------------------------------------

  lemma {:induction false} VersionNeverFalls(start: Db, steps: seq<Step>, i: nat, j: nat)
    requires i <= j <= |steps|
    ensures Run(start, steps[..i]).package.rowVersion <= Run(start, steps[..j]).package.rowVersion
    decreases j
  {
    if i < j {
      VersionNeverFalls(start, steps, i, j - 1);
      var before := Run(start, steps[..j - 1]);
      assert steps[..j][..j - 1] == steps[..j - 1];
      StepKeepsScope(before, steps[j - 1]);
    }
  }

  /**
   Over any run, with retries, reused keys and purged idempotency rows, two finalize commands that
   both take effect carry different expected versions, the later one a larger version.
   */
  lemma FinalizeTakesEffectOnce(start: Db, steps: seq<Step>, i: nat, j: nat)
    requires i < j < |steps| && steps[i].Finalize? && steps[j].Finalize?
    requires Commits(Run(start, steps[..i]), steps[i].finalize)
    requires Commits(Run(start, steps[..j]), steps[j].finalize)
    ensures steps[i].finalize.award.expectedVersion < steps[j].finalize.award.expectedVersion
    ensures steps[i].finalize.award != steps[j].finalize.award
  {
    StepKeepsScope(Run(start, steps[..i]), steps[i]);
    assert steps[..i + 1][..i] == steps[..i];
    VersionNeverFalls(start, steps, i + 1, j);
    StepKeepsScope(Run(start, steps[..j]), steps[j]);
  }

  /** After a commit, and until its row is purged, a retry answers without change and another body is refused. */
  lemma {:induction false} RetriesAreReplayed(db: Db, c: FinalizeCommand, later: seq<Step>, retry: FinalizeCommand)
    requires Commits(db, c)
    requires forall s | s in later && s.PurgeIdempotency? :: KeyOf(c) !in s.keys
    requires retry.permitted && retry.outcomes != map[] && KeyOf(retry) == KeyOf(c)
    ensures var now := Run(FinalizeRoute(db, c).0, later);
            FinalizeRoute(now, retry) ==
              (now, if retry.outcomes == c.outcomes && retry.award == c.award then FinalizeRoute(db, c).1
                  else KeyReused)
  {
    var after := CommitUnfolds(db, c);
    var row := IdempotencyRow(c.outcomes, c.award, ReplyOf(after));
    RowSurvives(FinalizeRoute(db, c).0, KeyOf(c), row, later);
  }

  lemma {:induction false} RowSurvives(db: Db, k: IdempotencyKey, row: IdempotencyRow, steps: seq<Step>)
    requires k in db.idempotency && db.idempotency[k] == row
    requires forall s | s in steps && s.PurgeIdempotency? :: k !in s.keys
    ensures k in Run(db, steps).idempotency && Run(db, steps).idempotency[k] == row
  {
    if steps != [] {
      var front, s := steps[..|steps| - 1], steps[|steps| - 1];
      RowSurvives(db, k, row, front);
      var before := Run(db, front);
      match s
      case Finalize(c) =>
        if Commits(before, c) {
          var after := CommitUnfolds(before, c);
          FinalizeLeavesIdempotency(before, c.batchId, c.outcomes, c.award);
          assert KeyOf(c) != k;
        }
      case _ =>
    }
  }

  lemma FinalizeLeavesIdempotency(db: Db, batchId: BatchId, outcomes: Outcomes, a: AwardBody)
    requires FinalizeAward(db, batchId, outcomes, a).Ok?
    ensures FinalizeAward(db, batchId, outcomes, a).value.idempotency == db.idempotency
  {
    var i, results := AwardUnfolds(db, batchId, outcomes, a);
    ClosedUnfolds(db, batchId, outcomes, i);
  }
}
