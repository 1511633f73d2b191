/** The award ledger: the package row, the lot rows and the official artifacts add up. */
module LotLedger {
  import opened Wrappers
  import opened LotPolicy
  import opened LotService
  import opened LotInvariant
  import opened LotRuns

  // ---- sums over lot sets -------------------------------------------------------------------

  lemma {:induction false} SumRemove(s: set<LotId>, lots: map<LotId, LotAward>, x: LotId)
    requires s <= lots.Keys && x in s
    ensures SumOver(s, lots) == lots[x].price + SumOver(s - {x}, lots)
  {
    var l :| l in s && SumOver(s, lots) == lots[l].price + SumOver(s - {l}, lots);
    if l != x {
      SumRemove(s - {l}, lots, x);
      SumRemove(s - {x}, lots, l);
      assert s - {l} - {x} == s - {x} - {l};
    }
  }

  lemma {:induction false} SumUnion(a: set<LotId>, b: set<LotId>, lots: map<LotId, LotAward>)
    requires a + b <= lots.Keys && a !! b
    ensures SumOver(a + b, lots) == SumOver(a, lots) + SumOver(b, lots)
  {
    if a == {} {
      assert a + b == b;
    } else {
      var x :| x in a;
      SumRemove(a + b, lots, x);
      SumRemove(a, lots, x);
      assert a + b - {x} == (a - {x}) + b;
      SumUnion(a - {x}, b, lots);
    }
  }

  lemma {:induction false} SumZero(s: set<LotId>, lots: map<LotId, LotAward>)
    requires s <= lots.Keys && forall l | l in s :: lots[l].price == 0
    ensures SumOver(s, lots) == 0
  {
    if s != {} {
      var x :| x in s;
      SumRemove(s, lots, x);
      SumZero(s - {x}, lots);
    }
  }

  lemma {:induction false} SumAgrees(s: set<LotId>, x: map<LotId, LotAward>, y: map<LotId, LotAward>)
    requires s <= x.Keys && s <= y.Keys && forall l | l in s :: x[l] == y[l]
    ensures SumOver(s, x) == SumOver(s, y)
  {
    if s != {} {
      var l :| l in s;
      SumRemove(s, x, l);
      SumRemove(s, y, l);
      SumAgrees(s - {l}, x, y);
    }
  }

  /** The package total, added up from one read of the lot rows. */
  method TotalOf(lots: map<LotId, LotAward>) returns (total: nat)
    ensures total == TotalPrice(lots)
  {
    total := 0;
    var rest := lots.Keys;
    while rest != {}
      invariant rest <= lots.Keys
      invariant total + SumOver(rest, lots) == TotalPrice(lots)
      decreases |rest|
    {
      var l :| l in rest;
      SumRemove(rest, lots, l);
      total := total + lots[l].price;
      rest := rest - {l};
    }
  }

  // ---- the stored artifacts -----------------------------------------------------------------

  ghost function ArtifactTotal(s: Snapshot): nat {
    match ParseResults(s.lotResults)
    case None => 0
    case Some(results) => TotalPrice(results)
  }

  /** The sum of the official artifacts of the closed batches. */
  ghost function ArtifactsTotal(batches: seq<Batch>, artifacts: map<BatchId, Snapshot>): nat {
    if batches == [] then 0 else
      var last := batches[|batches| - 1];
      ArtifactsTotal(batches[..|batches| - 1], artifacts)
      + if last.status == Closed && last.id in artifacts then ArtifactTotal(artifacts[last.id]) else 0
  }

  ghost function ClosedLots(batches: seq<Batch>): set<LotId> {
    if batches == [] then {} else
      var last := batches[|batches| - 1];
      ClosedLots(batches[..|batches| - 1]) + if last.status == Closed then last.details.Keys else {}
  }

  lemma {:induction false} ClosedLotsMeaning(batches: seq<Batch>, l: LotId)
    ensures l in ClosedLots(batches) <==> Approved(batches, l)
  {
    if batches != [] {
      var front, last := batches[..|batches| - 1], batches[|batches| - 1];
      ClosedLotsMeaning(front, l);
      assert batches == front + [last];
    }
  }

  lemma RecordedTotal(db: Db, b: Batch)
    requires Recorded(db, b)
    ensures b.details.Keys <= db.lots.Keys
    ensures SumOver(b.details.Keys, db.lots) == ArtifactTotal(db.artifacts[b.id])
  {
    var results := ParseResults(db.artifacts[b.id].lotResults).value;
    SumAgrees(b.details.Keys, db.lots, results);
  }

  lemma LastIsNew(batches: seq<Batch>)
    requires batches != [] && Numbered(batches)
    ensures ClosedLots(batches[..|batches| - 1]) !! batches[|batches| - 1].details.Keys
  {
    var front, last := batches[..|batches| - 1], batches[|batches| - 1];
    forall l | l in ClosedLots(front) ensures l !in last.details {
      ClosedLotsMeaning(front, l);
      var b :| b in front && b.status == Closed && l in b.details;
      var i :| 0 <= i < |front| && front[i] == b;
      assert batches[i].details.Keys !! batches[|batches| - 1].details.Keys;
    }
  }

  lemma {:induction false} ClosedLotsSum(db: Db, batches: seq<Batch>)
    requires Numbered(batches)
    requires forall b | b in batches && b.status == Closed :: Recorded(db, b)
    ensures ClosedLots(batches) <= db.lots.Keys
    ensures SumOver(ClosedLots(batches), db.lots) == ArtifactsTotal(batches, db.artifacts)
  {
    if batches != [] {
      var front, last := batches[..|batches| - 1], batches[|batches| - 1];
      assert forall b | b in front :: b in batches;
      ClosedLotsSum(db, front);
      if last.status == Closed {
        assert last in batches;
        RecordedTotal(db, last);
        LastIsNew(batches);
        SumUnion(ClosedLots(front), last.details.Keys, db.lots);
      } else {
        assert ClosedLots(batches) == ClosedLots(front);
      }
    }
  }

  ghost function Unapproved(db: Db): set<LotId> {
    set l | l in db.lots && !Approved(db.batches, l)
  }

  /** The prices of the approved lots are those of the stored artifacts. */
  lemma LotPricesAreArtifacts(db: Db)
    requires Invariant(db)
    ensures TotalPrice(db.lots) == ArtifactsTotal(db.batches, db.artifacts) + SumOver(Unapproved(db), db.lots)
  {
    var closed := ClosedLots(db.batches);
    ClosedLotsSum(db, db.batches);
    forall l ensures l in closed <==> Approved(db.batches, l) { ClosedLotsMeaning(db.batches, l); }
    assert db.lots.Keys == closed + Unapproved(db);
    SumUnion(closed, Unapproved(db), db.lots);
  }

  // ---- lots without an official result -------------------------------------------------------

  lemma CommitKeepsOthers(db: Db, c: FinalizeCommand, l: LotId)
    requires Invariant(db) && Commits(db, c) && l in db.lots && !Approved(FinalizeRoute(db, c).0.batches, l)
    ensures !Approved(db.batches, l) && l in FinalizeRoute(db, c).0.lots && FinalizeRoute(db, c).0.lots[l] == db.lots[l]
  {
    var after := CommitUnfolds(db, c);
    var i, results := AwardUnfolds(db, c.batchId, c.outcomes, c.award);
    ClosedUnfolds(db, c.batchId, c.outcomes, i);
    if db.batches[i].status == Closed {
      ResubmissionKeepsAwards(db, c.batchId, c.outcomes, c.award, i);
    } else {
      FirstAwardKeepsInvariant(db, i, FinalizeBatch(db, c.batchId, c.outcomes).value, c.outcomes, c.award, results);
    }
  }

  lemma CreateKeepsOthers(db: Db, c: CreateCommand, l: LotId)
    requires !Approved(CreateRoute(db, c).batches, l)
    ensures !Approved(db.batches, l) && CreateRoute(db, c).lots == db.lots
  {
    var after := CreateRoute(db, c).batches;
    assert after == db.batches || after == db.batches + [after[|after| - 1]];
    forall b | b in db.batches ensures b in after {}
  }

  /** A step that does not approve a lot leaves its row as it is. */
  lemma StepKeepsOthers(db: Db, s: Step, l: LotId)
    requires Invariant(db) && l in db.lots && !Approved(Next(db, s).batches, l)
    ensures !Approved(db.batches, l) && l in Next(db, s).lots && Next(db, s).lots[l] == db.lots[l]
  {
    match s
    case Create(c) => CreateKeepsOthers(db, c, l);
    case Finalize(c) =>
      if Commits(db, c) { CommitKeepsOthers(db, c, l); }
    case _ =>
  }

  /** Over a whole run, lots without an official result keep the award columns they started with. */
  lemma {:induction false} UnapprovedLotsUntouched(start: Db, steps: seq<Step>, l: LotId)
    requires Initial(start) && l in start.lots && !Approved(Run(start, steps).batches, l)
    ensures l in Run(start, steps).lots && Run(start, steps).lots[l] == start.lots[l]
  {
    if steps != [] {
      var front := steps[..|steps| - 1];
      RunKeepsInvariant(start, front);
      RunKeepsScope(start, front);
      StepKeepsOthers(Run(start, front), steps[|steps| - 1], l);
      UnapprovedLotsUntouched(start, front, l);
    }
  }

  lemma PackageStatusMeaning(db: Db)
    requires Structured(db)
    ensures AwardStatusOf(db) == FullyAwarded <==>
        db.lots != map[] && forall l | l in db.lots :: Approved(db.batches, l)
  {
    StatusMeaning(Progress(db));
    assert Progress(db).Keys == db.lots.Keys;
    forall l | l in db.lots ensures Progress(db)[l].IsCompleted() <==> Approved(db.batches, l) {
      ProgressMeaning(db, l);
    }
  }

  /** The package row agrees with the lot rows, and these with the stored artifacts and the starting rows. */
  ghost predicate AddsUp(start: Db, db: Db) {
    && Unapproved(db) <= start.lots.Keys
    && db.package.total == TotalPrice(db.lots)
       == ArtifactsTotal(db.batches, db.artifacts) + SumOver(Unapproved(db), start.lots)
    && (forall w :: db.package.winner == Some(w) <==> Winners(db.lots) == {w})
    && (db.package.status == FullyAwarded <==> db.lots != map[] && forall l | l in db.lots :: Approved(db.batches, l))
    && (db.package.status == FullyAwarded || db.package.status == PartiallyAwarded)
  }

  lemma SoleWinnerMeaning(lots: map<LotId, LotAward>, w: string)
    ensures SoleWinner(lots) == Some(w) <==> Winners(lots) == {w}
  {
  }

  /**
   In every reachable state with an official result, the package total is the sum of the lot prices, which is the
   sum of the stored artifacts plus what the lots without a result started with. The package winner is the sole
   distinct lot winner if there is one, and it counts as fully awarded exactly when every lot is approved.
   */
  lemma PackageRowAddsUp(start: Db, steps: seq<Step>)
    requires Initial(start)
    ensures var db := Run(start, steps); db.artifacts != map[] ==> AddsUp(start, db)
  {
    var db := Run(start, steps);
    RunKeepsInvariant(start, steps);
    RunKeepsScope(start, steps);
    if db.artifacts != map[] {
      forall l | l in Unapproved(db) ensures l in start.lots && db.lots[l] == start.lots[l] {
        UnapprovedLotsUntouched(start, steps, l);
      }
      LotPricesAreArtifacts(db);
      SumAgrees(Unapproved(db), db.lots, start.lots);
      forall w ensures db.package.winner == Some(w) <==> Winners(db.lots) == {w} { SoleWinnerMeaning(db.lots, w); }
      PackageStatusMeaning(db);
    }
  }

  lemma SumPositive(s: set<LotId>, lots: map<LotId, LotAward>, l: LotId)
    requires s <= lots.Keys && l in s && lots[l].price > 0
    ensures SumOver(s, lots) > 0
  {
    SumRemove(s, lots, l);
  }

  /** The total is the sum of the stored artifacts exactly when no lot without a result started with a price. */
  lemma TotalIsArtifacts(start: Db, steps: seq<Step>)
    requires Initial(start) && Run(start, steps).artifacts != map[]
    ensures var db := Run(start, steps);
            db.package.total == ArtifactsTotal(db.batches, db.artifacts) <==>
              forall l | l in start.lots && !Approved(db.batches, l) :: start.lots[l].price == 0
  {
    var db := Run(start, steps);
    PackageRowAddsUp(start, steps);
    RunKeepsScope(start, steps);
    forall l ensures l in Unapproved(db) <==> l in start.lots && !Approved(db.batches, l) {
      assert l in db.lots.Keys <==> l in start.lots.Keys;
    }
    if l :| l in Unapproved(db) && start.lots[l].price != 0 {
      SumPositive(Unapproved(db), start.lots, l);
    } else {
      SumZero(Unapproved(db), start.lots);
    }
  }

  /** Everything the award ledger consists of. */
  ghost predicate SameAwards(db: Db, after: Db) {
    && after.lots == db.lots && after.batches == db.batches && after.artifacts == db.artifacts
    && after.package.total == db.package.total && after.package.winner == db.package.winner
    && after.package.status == db.package.status
  }

  /** A resubmission accepted for a closed batch changes only the decision reference and version counters. */
  lemma ResubmissionChangesNoAward(start: Db, steps: seq<Step>, c: FinalizeCommand, i: nat)
    requires Initial(start) && Commits(Run(start, steps), c)
    requires FindBatch(Run(start, steps).batches, c.batchId) == Some(i) && Run(start, steps).batches[i].status == Closed
    ensures SameAwards(Run(start, steps), Next(Run(start, steps), Finalize(c)))
  {
    var db := Run(start, steps);
    RunKeepsInvariant(start, steps);
    ResubmissionKeepsAwards(db, c.batchId, c.outcomes, c.award, i);
    var after := CommitUnfolds(db, c);
  }

  /**
   A resubmission for a closed batch is accepted exactly when it expects the current version and repeats the stored
   artifact, which includes the package status.
   */
  lemma ResubmissionAcceptedIff(db: Db, batchId: BatchId, outcomes: Outcomes, a: AwardBody, i: nat)
    requires Invariant(db) && PackageError(db.package).None? && BodyWellFormed(a)
    requires FindBatch(db.batches, batchId) == Some(i) && db.batches[i].status == Closed
    ensures FinalizeAward(db, batchId, outcomes, a).Ok? <==>
              && db.package.rowVersion == a.expectedVersion && batchId in db.artifacts
              && db.artifacts[batchId] == SnapshotOf(batchId, outcomes, a, AwardStatusOf(db))
  {
    var b := db.batches[i];
    assert Recorded(db, b) && BatchShape(b, db.lots.Keys);
    if db.artifacts[batchId] == SnapshotOf(batchId, outcomes, a, AwardStatusOf(db)) {
      RepetitionPasses(db, b, outcomes, a);
    }
    ClosedAwardChecks(db, batchId, outcomes, a, i);
  }

  /** The tests of an award for a closed batch. */
  lemma ClosedAwardChecks(db: Db, batchId: BatchId, outcomes: Outcomes, a: AwardBody, i: nat)
    requires FindBatch(db.batches, batchId) == Some(i) && db.batches[i].status == Closed && batchId in db.artifacts
    requires PackageError(db.package).None? && BodyWellFormed(a)
    ensures var results := ParseResults(a.lotResults);
            FinalizeAward(db, batchId, outcomes, a).Ok? <==>
              && db.package.rowVersion == a.expectedVersion
              && results.Some? && OutcomesMatch(outcomes, results.value, db.contractors)
              && results.value.Keys <= db.lots.Keys
              && db.artifacts[batchId] == SnapshotOf(batchId, outcomes, a, AwardStatusOf(db))
  {
  }

  /** What the stored artifact of a closed batch passed once, its repetition passes again. */
  lemma RepetitionPasses(db: Db, b: Batch, outcomes: Outcomes, a: AwardBody)
    requires Recorded(db, b) && b.details.Keys <= db.lots.Keys
    requires db.artifacts[b.id] == SnapshotOf(b.id, outcomes, a, AwardStatusOf(db))
    ensures var results := ParseResults(a.lotResults);
            results.Some? && OutcomesMatch(outcomes, results.value, db.contractors)
                && results.value.Keys <= db.lots.Keys
  {
  }

  /** Once a package is complete, no repetition of a result stored while it was partial is accepted any more. */
  lemma CompletionRefusesPartial(db: Db, batchId: BatchId, outcomes: Outcomes, a: AwardBody, i: nat)
    requires Invariant(db) && PackageError(db.package).None? && BodyWellFormed(a)
    requires FindBatch(db.batches, batchId) == Some(i) && db.batches[i].status == Closed
    requires batchId in db.artifacts && db.artifacts[batchId].status == PartiallyAwarded
    requires StatusCompleted(db)
    ensures FinalizeAward(db, batchId, outcomes, a).Err?
  {
    ResubmissionAcceptedIff(db, batchId, outcomes, a, i);
  }

  ghost predicate StatusCompleted(db: Db) {
    ProjectStatus(Progress(db)) == Completed
  }

  /**
   In every reachable state an approved lot has a winner exactly when its outcome is AWARDED, and the winner is a
   known contractor; a lot that is not approved keeps its starting winner and has no outcome.
   */
  lemma WinnersAreAwarded(start: Db, steps: seq<Step>, l: LotId)
    requires Initial(start) && l in Run(start, steps).lots
    ensures var db := Run(start, steps);
            if Approved(db.batches, l) then
              && (db.lots[l].winner != "" <==> ProgressIn(db.batches, l).outcome == Some(Awarded))
              && (db.lots[l].winner != "" ==> db.lots[l].winner in db.contractors)
            else
              l in start.lots && db.lots[l] == start.lots[l] && ProgressIn(db.batches, l).outcome == None
  {
    var db := Run(start, steps);
    RunKeepsInvariant(start, steps);
    RunKeepsScope(start, steps);
    assert l in start.lots.Keys;
    OutcomeOfInvariant(db, l);
    if !Approved(db.batches, l) { UnapprovedLotsUntouched(start, steps, l); }
  }

  lemma OutcomeOfInvariant(db: Db, l: LotId)
    requires Invariant(db) && l in db.lots
    ensures Approved(db.batches, l) ==>
              && (db.lots[l].winner != "" <==> ProgressIn(db.batches, l).outcome == Some(Awarded))
              && (db.lots[l].winner != "" ==> db.lots[l].winner in db.contractors)
    ensures !Approved(db.batches, l) ==> ProgressIn(db.batches, l).outcome == None
  {
    LatestIsOnly(db.batches, l);
    match LatestBatch(db.batches, l)
    case None =>
    case Some(i) =>
      var b := db.batches[i];
      assert b in db.batches && BatchShape(b, db.lots.Keys) && DetailShape(b.details[l], b.status == Closed);
      ProgressMeaning(db, l);
      if b.status == Closed {
        assert Recorded(db, b);
      }
  }

  // ---- the decision reference ---------------------------------------------------------------

  /** The package names the decision of a closed batch's artifact, unless nothing has been decided yet. */
  ghost predicate DecisionRecorded(db: Db) {
    db.artifacts != map[] ==> exists b | b in db.batches :: NamesDecisionOf(db, b)
  }

  ghost predicate NamesDecisionOf(db: Db, b: Batch) {
    && b.status == Closed && b.id in db.artifacts
    && db.package.decisionNumber == db.artifacts[b.id].decisionNumber
    && db.package.decisionDate == db.artifacts[b.id].decisionDate
  }

  /** A committed finalize names the decision of its own batch, be it the latest one or an older one. */
  lemma CommitNamesDecision(db: Db, c: FinalizeCommand)
    requires Invariant(db) && Commits(db, c)
    ensures NamesDecision(FinalizeRoute(db, c).0, c)
  {
    var after := CommitUnfolds(db, c);
    AwardStoresDecision(db, c.batchId, c.outcomes, c.award);
    AwardKeepsInvariant(db, c.batchId, c.outcomes, c.award);
    var b :| b in after.batches && b.id == c.batchId && b.status == Closed;
    assert b in FinalizeRoute(db, c).0.batches && NamesDecisionOf(FinalizeRoute(db, c).0, b);
  }

  /** The stored artifact of an accepted award carries the decision that the package then names. */
  lemma AwardStoresDecision(db: Db, batchId: BatchId, outcomes: Outcomes, a: AwardBody)
    requires FinalizeAward(db, batchId, outcomes, a).Ok?
    ensures var after := FinalizeAward(db, batchId, outcomes, a).value;
            && batchId in after.artifacts
            && after.package.decisionNumber == a.decisionNumber == after.artifacts[batchId].decisionNumber
            && after.package.decisionDate == a.decisionDate == after.artifacts[batchId].decisionDate
  {
    var i, results := AwardUnfolds(db, batchId, outcomes, a);
    ClosedUnfolds(db, batchId, outcomes, i);
  }

  lemma UncommittedKeepsRows(db: Db, s: Step)
    requires s.Finalize? ==> !Commits(db, s.finalize)
    ensures Next(db, s).artifacts == db.artifacts
    ensures Next(db, s).package.decisionNumber == db.package.decisionNumber
    ensures Next(db, s).package.decisionDate == db.package.decisionDate
    ensures forall b | b in db.batches :: b in Next(db, s).batches
  {
  }

  /** The finalize command of a run that took effect last. */
  ghost function LastCommitted(start: Db, steps: seq<Step>): Option<FinalizeCommand> {
    if steps == [] then None else
      var front, last := steps[..|steps| - 1], steps[|steps| - 1];
      if last.Finalize? && Commits(Run(start, front), last.finalize) then Some(last.finalize)
          else LastCommitted(start, front)
  }

  /** The package names the decision of the command, which is that of its batch's artifact. */
  ghost predicate NamesDecision(db: Db, c: FinalizeCommand) {
    && db.package.decisionNumber == c.award.decisionNumber && db.package.decisionDate == c.award.decisionDate
    && exists b | b in db.batches :: b.id == c.batchId && NamesDecisionOf(db, b)
  }

  /**
   In every reachable state the package names the decision of the finalize that took effect last, which is stored in
   its closed batch's artifact; without any, it keeps the decision it started with and nothing is stored.
   */
  lemma {:induction false} DecisionIsRecorded(start: Db, steps: seq<Step>)
    requires Initial(start)
    ensures DecisionRecorded(Run(start, steps))
    ensures LastCommitted(start, steps).Some? ==> NamesDecision(Run(start, steps), LastCommitted(start, steps).value)
    ensures LastCommitted(start, steps).None? ==>
              var db := Run(start, steps);
              && db.artifacts == map[] && db.package.decisionNumber == start.package.decisionNumber
              && db.package.decisionDate == start.package.decisionDate
  {
    if steps != [] {
      var front, last := steps[..|steps| - 1], steps[|steps| - 1];
      RunKeepsInvariant(start, front);
      if last.Finalize? && Commits(Run(start, front), last.finalize) {
        CommitNamesDecision(Run(start, front), last.finalize);
      } else {
        DecisionIsRecorded(start, front);
        UncommittedKeepsRows(Run(start, front), last);
        if LastCommitted(start, front).Some? {
          UncommittedKeepsDecision(Run(start, front), last, LastCommitted(start, front).value);
        }
      }
    }
  }

  lemma UncommittedKeepsDecision(db: Db, s: Step, c: FinalizeCommand)
    requires (s.Finalize? ==> !Commits(db, s.finalize)) && NamesDecision(db, c)
    ensures NamesDecision(Next(db, s), c)
  {
    UncommittedKeepsRows(db, s);
    var b :| b in db.batches && b.id == c.batchId && NamesDecisionOf(db, b);
    assert b in Next(db, s).batches && NamesDecisionOf(Next(db, s), b);
  }
}
