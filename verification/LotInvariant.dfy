/** The invariant that every command of the lot lifecycle keeps. */
module LotInvariant {
  import opened Wrappers
  import opened LotPolicy
  import opened LotService

  ghost predicate DetailShape(d: Detail, closed: bool) {
    if closed then !d.active && d.stage == ResultApproved && d.outcome.Some?
    else d.active && d.stage != ResultApproved && d.stage != NotStarted && d.outcome.None?
  }

  ghost predicate BatchShape(b: Batch, lots: set<LotId>) {
    && b.details != map[] && b.details.Keys <= lots
    && (b.status == Active || b.status == Closed)
    && forall l | l in b.details :: DetailShape(b.details[l], b.status == Closed)
  }

  /** Sequence numbers run 1..k, ids are distinct and no two batches share a lot. */
  ghost predicate Numbered(batches: seq<Batch>) {
    && (forall i | 0 <= i < |batches| :: batches[i].sequenceNo == i + 1)
    && (forall i, j | 0 <= i < j < |batches| :: batches[i].id != batches[j].id)
    && (forall i, j | 0 <= i < j < |batches| :: batches[i].details.Keys !! batches[j].details.Keys)
  }

  ghost predicate KeepsGroup(b: Batch, g: DependencyGroup, lots: set<LotId>) {
    g.mustMoveTogether && (exists a :: a in g.lotIds && a in b.details) ==> g.lotIds * lots <= b.details.Keys
  }

  ghost predicate Structured(db: Db) {
    && Numbered(db.batches)
    && (forall b | b in db.batches :: BatchShape(b, db.lots.Keys))
    && (forall b, g | b in db.batches && g in db.groups :: KeepsGroup(b, g, db.lots.Keys))
  }

  /** The official artifact of a closed batch, the lot rows and the details agree. */
  ghost predicate Recorded(db: Db, b: Batch) {
    && b.id in db.artifacts
    && var s := db.artifacts[b.id];
    && ParseResults(s.lotResults).Some?
    && var results := ParseResults(s.lotResults).value;
    && results.Keys == s.outcomes.Keys == b.details.Keys
    && OutcomesMatch(s.outcomes, results, db.contractors)
    && forall l | l in b.details :: l in db.lots && db.lots[l] == results[l] && s.outcomes[l] == b.details[l].outcome
  }

  ghost predicate Approved(batches: seq<Batch>, lot: LotId) {
    exists b | b in batches :: b.status == Closed && lot in b.details
  }

  ghost predicate AllRecorded(db: Db) {
    forall b | b in db.batches && b.status == Closed :: Recorded(db, b)
  }

  ghost predicate ArtifactsOfClosed(db: Db) {
    forall id | id in db.artifacts :: exists b | b in db.batches :: b.id == id && b.status == Closed
  }

  ghost predicate Ledger(db: Db) {
    AllRecorded(db) && ArtifactsOfClosed(db)
  }

  ghost predicate Summarised(db: Db) {
    db.artifacts != map[] ==>
      && db.package.total == TotalPrice(db.lots)
      && db.package.winner == SoleWinner(db.lots)
      && db.package.status == AwardStatusOf(db)
  }

  ghost predicate Remembered(db: Db) {
    forall k | k in db.idempotency :: exists b | b in db.batches :: b.id == k.batchId && b.status == Closed
  }

  ghost predicate Invariant(db: Db) {
    Structured(db) && Ledger(db) && Summarised(db) && Remembered(db)
  }

  // ---- reading progress under the invariant -------------------------------------------------

  /** The descending lookup of a lot finds the only batch that ever claimed it. */
  lemma {:induction false} LatestIsOnly(batches: seq<Batch>, lot: LotId)
    requires Numbered(batches)
    ensures LatestBatch(batches, lot).None? ==> forall b | b in batches :: lot !in b.details
    ensures forall i | 0 <= i < |batches| && lot in batches[i].details :: LatestBatch(batches, lot) == Some(i)
  {
    if batches != [] {
      var last := |batches| - 1;
      var rest := batches[..last];
      assert Numbered(rest);
      LatestIsOnly(rest, lot);
      assert batches == rest + [batches[last]];
      assert LatestBatch(rest, lot).Some? ==>
          batches[LatestBatch(rest, lot).value].sequenceNo <= batches[last].sequenceNo;
      forall i | 0 <= i < |batches| && lot in batches[i].details ensures LatestBatch(batches, lot) == Some(i) {
        if i < last { assert rest[i] == batches[i]; }
      }
    }
  }

  lemma FindIsOnly(batches: seq<Batch>, i: nat)
    requires Numbered(batches) && i < |batches|
    ensures FindBatch(batches, batches[i].id) == Some(i)
  {
  }

  lemma {:induction false} MaxIsLength(batches: seq<Batch>)
    requires Numbered(batches)
    ensures MaxSequence(batches) == |batches|
  {
    if batches != [] {
      MaxIsLength(batches[..|batches| - 1]);
    }
  }

  /** What the projected progress of a lot says about the batch that claimed it. */
  lemma ProgressMeaning(db: Db, lot: LotId)
    requires Structured(db)
    ensures forall b | b in db.batches && lot in b.details ::
              && ProgressIn(db.batches, lot).stage == b.details[lot].stage
              && ProgressIn(db.batches, lot).outcome == b.details[lot].outcome
              && ProgressIn(db.batches, lot).activeBatch == (if b.status == Active then Some(b.id) else None)
              && (ProgressIn(db.batches, lot).IsCompleted() <==> b.status == Closed)
    ensures (forall b | b in db.batches :: lot !in b.details) ==>
              ProgressIn(db.batches, lot) == LotProgress(NotStarted, None, None)
    ensures ProgressIn(db.batches, lot).IsCompleted() <==> Approved(db.batches, lot)
    ensures ProgressIn(db.batches, lot).stage == NotStarted <==> forall b | b in db.batches :: lot !in b.details
  {
    LatestIsOnly(db.batches, lot);
    forall b | b in db.batches && lot in b.details
      ensures exists i :: LatestBatch(db.batches, lot) == Some(i) && db.batches[i] == b
    {
      var i :| 0 <= i < |db.batches| && db.batches[i] == b;
      assert LatestBatch(db.batches, lot) == Some(i);
    }
    forall b | b in db.batches ensures BatchShape(b, db.lots.Keys) {}
    match LatestBatch(db.batches, lot)
    case None =>
    case Some(i) =>
      var b := db.batches[i];
      assert b in db.batches && DetailShape(b.details[lot], b.status == Closed);
  }

  // ---- create_batch -------------------------------------------------------------------------

  lemma NewBatchDisjoint(db: Db, c: CreateCommand)
    requires Structured(db) && c.mode.Some?
    requires ScopeAllowed(ContextOf(db), c.Selected(), None)
    ensures forall b, l | b in db.batches && l in b.details :: l !in c.Selected()
  {
    forall b, l | b in db.batches && l in b.details ensures l !in c.Selected() {
      ProgressMeaning(db, l);
      assert BatchShape(b, db.lots.Keys) && l in db.lots;
      assert ContextOf(db).lots[l] == ProgressIn(db.batches, l);
    }
  }

  /** A completed member of a group has pulled every other member into its own closed batch. */
  lemma CompletedPullsGroup(db: Db, g: DependencyGroup, a: LotId, l: LotId)
    requires Structured(db) && g in db.groups && g.mustMoveTogether
    requires a in g.lotIds && a in db.lots && l in g.lotIds && l in db.lots
    ensures ProgressIn(db.batches, l).IsCompleted() ==> ProgressIn(db.batches, a).IsCompleted()
  {
    ProgressMeaning(db, l);
    ProgressMeaning(db, a);
    if Approved(db.batches, l) {
      var b :| b in db.batches && b.status == Closed && l in b.details;
      assert KeepsGroup(b, g, db.lots.Keys);
      assert a in g.lotIds * db.lots.Keys;
    }
  }

  lemma NewBatchKeepsGroups(db: Db, c: CreateCommand, g: DependencyGroup)
    requires Structured(db) && c.mode.Some? && g in db.groups
    requires ScopeAllowed(ContextOf(db), c.Selected(), None)
    ensures KeepsGroup(NewBatch(db, c), g, db.lots.Keys)
  {
    var ctx, selected := ContextOf(db), c.Selected();
    assert NewBatch(db, c).details.Keys == selected;
    if a :| g.mustMoveTogether && a in g.lotIds && a in selected {
      assert MovesWhole(ctx, selected, g);
      forall l | l in g.lotIds * db.lots.Keys ensures l in selected {
        CompletedPullsGroup(db, g, a, l);
        assert !ctx.lots[a].IsCompleted();
        assert l in PendingAmong(ctx, g.lotIds);
      }
    }
  }

  /** b may join the batches: its number is next, its id and lots are new, its shape is right. */
  ghost predicate Joinable(db: Db, b: Batch) {
    && b.sequenceNo == |db.batches| + 1
    && (forall x | x in db.batches :: x.id != b.id)
    && (forall x, l | x in db.batches && l in x.details :: l !in b.details)
    && BatchShape(b, db.lots.Keys)
    && (forall g | g in db.groups :: KeepsGroup(b, g, db.lots.Keys))
  }

  lemma JoinKeepsStructure(db: Db, b: Batch, after: Db)
    requires Structured(db) && Joinable(db, b)
    requires after.lots == db.lots && after.groups == db.groups && after.batches == db.batches + [b]
    ensures Structured(after)
    ensures forall x :: x in after.batches <==> x in db.batches || x == b
  {
    var n := |db.batches|;
    assert forall i | 0 <= i < n :: after.batches[i] == db.batches[i] && db.batches[i] in db.batches;
    assert after.batches[n] == b;
    assert Numbered(after.batches) by {
      forall i, j, l | 0 <= i < j < n + 1 && l in after.batches[i].details ensures l !in after.batches[j].details {
        if j == n { assert db.batches[i] in db.batches; }
      }
    }
  }

  lemma NewBatchJoins(db: Db, c: CreateCommand)
    requires Structured(db) && CreateBatch(db, c).Ok?
    ensures Joinable(db, NewBatch(db, c))
  {
    var b := NewBatch(db, c);
    BlockersDecideScope(ContextOf(db), c.Selected(), None);
    NewBatchDisjoint(db, c);
    MaxIsLength(db.batches);
    assert b.details.Keys == c.Selected();
    forall g | g in db.groups ensures KeepsGroup(b, g, db.lots.Keys) {
      NewBatchKeepsGroups(db, c, g);
    }
  }

  /** Progress is decided by the batches, so a new one only starts the lots it names. */
  lemma CreateProgress(db: Db, c: CreateCommand, lot: LotId)
    requires Structured(db) && CreateBatch(db, c).Ok?
    ensures ProgressIn(CreateBatch(db, c).value.batches, lot).IsCompleted() == ProgressIn(db.batches, lot).IsCompleted()
    ensures lot !in c.Selected() ==> ProgressIn(CreateBatch(db, c).value.batches, lot) == ProgressIn(db.batches, lot)
  {
    var after, b := CreateBatch(db, c).value, NewBatch(db, c);
    NewBatchJoins(db, c);
    JoinKeepsStructure(db, b, after);
    assert after.batches[..|db.batches|] == db.batches;
    ProgressMeaning(db, lot);
    ProgressMeaning(after, lot);
  }

  lemma JoinKeepsLedger(db: Db, b: Batch, after: Db)
    requires Ledger(db) && Remembered(db) && b.status == Active
    requires after.batches == db.batches + [b] && after.lots == db.lots && after.contractors == db.contractors
    requires after.artifacts == db.artifacts && after.idempotency == db.idempotency
    ensures Ledger(after) && Remembered(after)
  {
    assert forall x :: x in after.batches <==> x in db.batches || x == b;
    forall x | x in after.batches && x.status == Closed ensures Recorded(after, x) {
      assert Recorded(db, x);
    }
  }

  lemma CreateKeepsInvariant(db: Db, c: CreateCommand)
    requires Invariant(db) && CreateBatch(db, c).Ok?
    ensures Invariant(CreateBatch(db, c).value)
  {
    var after, b := CreateBatch(db, c).value, NewBatch(db, c);
    NewBatchJoins(db, c);
    JoinKeepsStructure(db, b, after);
    JoinKeepsLedger(db, b, after);
    forall l ensures ProgressIn(after.batches, l).IsCompleted() == ProgressIn(db.batches, l).IsCompleted() {
      CreateProgress(db, c, l);
    }
    SameAwardStatus(db, after);
  }

  lemma SameAwardStatus(a: Db, b: Db)
    requires a.lots.Keys == b.lots.Keys
    requires forall l :: ProgressIn(a.batches, l).IsCompleted() == ProgressIn(b.batches, l).IsCompleted()
    ensures AwardStatusOf(a) == AwardStatusOf(b)
  {
    StatusMeaning(Progress(a));
    StatusMeaning(Progress(b));
    assert Progress(a) == map[] <==> a.lots.Keys == {} by { assert Progress(a).Keys == a.lots.Keys; }
    assert Progress(b) == map[] <==> b.lots.Keys == {} by { assert Progress(b).Keys == b.lots.Keys; }
  }

  // ---- finalize_batch_award -----------------------------------------------------------------

  /** The lots an active batch works on are exactly its details. */
  lemma ActiveLotsAll(db: Db, b: Batch)
    requires Structured(db) && b in db.batches && b.status == Active
    ensures ActiveLots(b) == b.details.Keys
  {
    assert BatchShape(b, db.lots.Keys);
    assert forall l | l in b.details :: DetailShape(b.details[l], false);
  }

  /** The publication re-check of an active batch always passes. */
  lemma PublicationAllowed(db: Db, b: Batch)
    requires Structured(db) && b in db.batches && b.status == Active
    ensures ScopeAllowed(ContextOf(db), ActiveLots(b), Some(b.id))
  {
    var ctx, lots := ContextOf(db), ActiveLots(b);
    ActiveLotsAll(db, b);
    assert BatchShape(b, db.lots.Keys);
    assert lots != {} by { var l :| l in b.details; assert l in lots; }
    forall l | l in lots ensures ctx.lots[l].activeBatch == Some(b.id) && !ctx.lots[l].IsCompleted() {
      ProgressMeaning(db, l);
    }
    forall g | g in ctx.groups ensures MovesWhole(ctx, lots, g) {
      assert KeepsGroup(b, g, db.lots.Keys);
      if g.mustMoveTogether {
        forall l, m | l in g.lotIds && m in g.lotIds && l in lots && m in ctx.lots ensures m in lots {
          assert l in b.details && m in g.lotIds * db.lots.Keys;
        }
      }
    }
  }

  /** Swapping a batch for one with the same id, number and lots keeps the structure. */
  lemma ReplaceKeepsStructure(db: Db, i: nat, b: Batch, after: Db)
    requires Structured(db) && i < |db.batches|
    requires b.id == db.batches[i].id && b.sequenceNo == db.batches[i].sequenceNo
    requires b.details.Keys == db.batches[i].details.Keys
    requires BatchShape(b, db.lots.Keys)
    requires after.batches == db.batches[i := b] && after.lots.Keys == db.lots.Keys && after.groups == db.groups
    ensures Structured(after)
    ensures forall x :: x in after.batches <==> x == b || (x in db.batches && x.id != b.id)
  {
    var was := db.batches[i];
    forall x ensures x in after.batches <==> x == b || (x in db.batches && x.id != b.id) {
      if x in db.batches && x.id != b.id {
        var j :| 0 <= j < |db.batches| && db.batches[j] == x;
        assert after.batches[j] == x;
      }
      if x in after.batches {
        var j :| 0 <= j < |after.batches| && after.batches[j] == x;
        if j != i { assert db.batches[j] == x && db.batches[j].id != was.id; }
      }
      assert after.batches[i] == b;
    }
    forall g | g in db.groups ensures KeepsGroup(b, g, db.lots.Keys) {
      assert was in db.batches && KeepsGroup(was, g, db.lots.Keys);
    }
    assert Numbered(after.batches) by {
      forall j, k, l | 0 <= j < k < |after.batches| && l in after.batches[j].details
          ensures l !in after.batches[k].details {
        assert l in db.batches[j].details;
      }
    }
  }

  /** Closing an active batch approves exactly its lots. */
  lemma CloseKeepsStructure(db: Db, i: nat, outcomes: Outcomes, after: Db)
    requires Structured(db) && i < |db.batches| && db.batches[i].status == Active
    requires outcomes.Keys == db.batches[i].details.Keys
    requires forall l | l in outcomes :: outcomes[l].Some?
    requires after.lots.Keys == db.lots.Keys && after.groups == db.groups
    requires forall l | l in ActiveLots(db.batches[i]) :: l in outcomes && outcomes[l].Some?
    requires after.batches == db.batches[i := CloseBatch(db.batches[i], outcomes)]
    ensures Structured(after)
    ensures forall l :: Approved(after.batches, l) <==> Approved(db.batches, l) || l in outcomes
  {
    var was := db.batches[i];
    var b := CloseBatch(was, outcomes);
    assert was in db.batches && BatchShape(was, db.lots.Keys);
    ActiveLotsAll(db, was);
    assert b.details.Keys == was.details.Keys;
    forall l | l in b.details ensures DetailShape(b.details[l], true) {
      assert DetailShape(was.details[l], false);
    }
    ReplaceKeepsStructure(db, i, b, after);
    forall l ensures Approved(after.batches, l) <==> Approved(db.batches, l) || l in outcomes {
      assert b in after.batches;
      if x :| x in db.batches && x.status == Closed && l in x.details {
        FindIsOnly(db.batches, i);
        assert x.id != was.id by {
          var j :| 0 <= j < |db.batches| && db.batches[j] == x;
          assert j != i;
        }
        assert x in after.batches;
      }
    }
  }

  /** The tests an accepted award command has passed. */
  lemma AwardUnfolds(db: Db, batchId: BatchId, outcomes: Outcomes, a: AwardBody)
    returns (i: nat, results: map<LotId, LotAward>)
    requires FinalizeAward(db, batchId, outcomes, a).Ok?
    ensures i < |db.batches| && FindBatch(db.batches, batchId) == Some(i)
    ensures ParseResults(a.lotResults) == Some(results) && OutcomesMatch(outcomes, results, db.contractors)
    ensures results.Keys <= db.lots.Keys
    ensures FinalizeBatch(db, batchId, outcomes).Ok?
    ensures var closed := FinalizeBatch(db, batchId, outcomes).value;
            && FinalizeAward(db, batchId, outcomes, a).value == RecordAward(closed, batchId, outcomes, a, results)
            && (batchId in db.artifacts ==>
                db.artifacts[batchId] == SnapshotOf(batchId, outcomes, a, AwardStatusOf(closed)))
    ensures BodyWellFormed(a) && db.package.rowVersion == a.expectedVersion
  {
    results := ParseResults(a.lotResults).value;
    i := FindBatch(db.batches, batchId).value;
  }

  lemma ClosedUnfolds(db: Db, batchId: BatchId, outcomes: Outcomes, i: nat)
    requires FinalizeBatch(db, batchId, outcomes).Ok? && FindBatch(db.batches, batchId) == Some(i)
    ensures db.batches[i].status == Closed || db.batches[i].status == Active
    ensures db.batches[i].status == Closed ==> FinalizeBatch(db, batchId, outcomes).value == db
    ensures db.batches[i].status == Active ==>
              && outcomes.Keys == ActiveLots(db.batches[i])
              && (forall l | l in ActiveLots(db.batches[i]) :: outcomes[l].Some?)
              && FinalizeBatch(db, batchId, outcomes).value ==
                  db.(batches := db.batches[i := CloseBatch(db.batches[i], outcomes)])
  {
  }

  lemma ActiveHasNoArtifact(db: Db, i: nat)
    requires Numbered(db.batches) && Ledger(db) && i < |db.batches| && db.batches[i].status == Active
    ensures db.batches[i].id !in db.artifacts
  {
  }

  lemma SameBatchesSameStatus(x: Db, y: Db)
    requires x.batches == y.batches && x.lots.Keys == y.lots.Keys
    ensures AwardStatusOf(x) == AwardStatusOf(y)
  {
    assert Progress(x) == Progress(y);
  }

  lemma RecordedResultsAgree(db: Db, b: Batch, results: map<LotId, LotAward>)
    requires Recorded(db, b) && ParseResults(db.artifacts[b.id].lotResults) == Some(results)
    ensures db.lots + results == db.lots
  {
  }

  /** A resubmission accepted for a closed batch changes no award. */
  lemma ResubmissionKeepsAwards(db: Db, batchId: BatchId, outcomes: Outcomes, a: AwardBody, i: nat)
    requires Ledger(db) && Summarised(db) && FinalizeAward(db, batchId, outcomes, a).Ok?
    requires FindBatch(db.batches, batchId) == Some(i) && db.batches[i].status == Closed
    ensures FinalizeAward(db, batchId, outcomes, a).value
         == db.(syncVersion := db.syncVersion + 1,
                package := db.package.(rowVersion := db.package.rowVersion + 1,
                                       decisionNumber := a.decisionNumber, decisionDate := a.decisionDate))
  {
    var j, results := AwardUnfolds(db, batchId, outcomes, a);
    ClosedUnfolds(db, batchId, outcomes, i);
    assert Recorded(db, db.batches[i]);
    RecordedResultsAgree(db, db.batches[i], results);
  }

  lemma UntouchedStaysRecorded(
      db: Db, x: Batch, batchId: BatchId, s: Snapshot, results: map<LotId, LotAward>, after: Db)
    requires Recorded(db, x) && x.id != batchId && x.details.Keys !! results.Keys
    requires after.lots == db.lots + results && after.artifacts == db.artifacts[batchId := s]
    requires after.contractors == db.contractors
    ensures Recorded(after, x)
  {
  }

  lemma ClosedIsRecorded(
      b: Batch, outcomes: Outcomes, s: Snapshot, results: map<LotId, LotAward>, lots: set<LotId>, after: Db)
    requires BatchShape(b, lots) && b.status == Active
    requires ActiveLots(b) == b.details.Keys == outcomes.Keys == results.Keys
    requires forall l | l in outcomes :: outcomes[l].Some?
    requires s.outcomes == outcomes && ParseResults(s.lotResults) == Some(results)
    requires OutcomesMatch(outcomes, results, after.contractors)
    requires b.id in after.artifacts && after.artifacts[b.id] == s
    requires forall l | l in results :: l in after.lots && after.lots[l] == results[l]
    ensures Recorded(after, CloseBatch(b, outcomes))
  {
  }

  lemma ReplacedKeys(db: Db, i: nat, b: Batch, after: Db)
    requires ArtifactsOfClosed(db) && i < |db.batches| && b.status == Closed && b.id == db.batches[i].id
    requires after.batches == db.batches[i := b]
    requires after.artifacts.Keys == db.artifacts.Keys + {b.id}
    ensures ArtifactsOfClosed(after)
  {
    forall id | id in after.artifacts ensures exists x | x in after.batches :: x.id == id && x.status == Closed {
      assert after.batches[i] == b && b in after.batches;
      if id != b.id {
        var x :| x in db.batches && x.id == id && x.status == Closed;
        var j :| 0 <= j < |db.batches| && db.batches[j] == x;
        assert after.batches[j] == x;
      }
    }
  }

  lemma AwardRecords(db: Db, i: nat, outcomes: Outcomes, s: Snapshot, results: map<LotId, LotAward>, after: Db)
    requires Structured(db) && AllRecorded(db) && i < |db.batches| && db.batches[i].status == Active
    requires s.outcomes == outcomes && ParseResults(s.lotResults) == Some(results)
    requires OutcomesMatch(outcomes, results, db.contractors) && after.contractors == db.contractors
    requires results.Keys == outcomes.Keys == ActiveLots(db.batches[i])
    requires forall l | l in ActiveLots(db.batches[i]) :: outcomes[l].Some?
    requires after.batches == db.batches[i := CloseBatch(db.batches[i], outcomes)]
    requires after.lots == db.lots + results && after.artifacts == db.artifacts[db.batches[i].id := s]
    ensures AllRecorded(after)
  {
    var was := db.batches[i];
    assert was in db.batches && BatchShape(was, db.lots.Keys);
    ActiveLotsAll(db, was);
    forall x | x in after.batches && x.status == Closed ensures Recorded(after, x) {
      var j :| 0 <= j < |after.batches| && after.batches[j] == x;
      if j == i {
        ClosedIsRecorded(was, outcomes, s, results, db.lots.Keys, after);
      } else {
        assert db.batches[j] == x && x in db.batches;
        assert forall l | l in x.details :: l !in was.details;
        UntouchedStaysRecorded(db, x, was.id, s, results, after);
      }
    }
  }

  lemma AwardKeepsLedger(db: Db, i: nat, outcomes: Outcomes, s: Snapshot, results: map<LotId, LotAward>, after: Db)
    requires Structured(db) && Ledger(db) && i < |db.batches| && db.batches[i].status == Active
    requires s.outcomes == outcomes && ParseResults(s.lotResults) == Some(results)
    requires OutcomesMatch(outcomes, results, db.contractors) && after.contractors == db.contractors
    requires results.Keys == outcomes.Keys == ActiveLots(db.batches[i]) <= db.lots.Keys
    requires forall l | l in ActiveLots(db.batches[i]) :: outcomes[l].Some?
    requires after.batches == db.batches[i := CloseBatch(db.batches[i], outcomes)]
    requires after.lots == db.lots + results && after.groups == db.groups
    requires after.artifacts == db.artifacts[db.batches[i].id := s]
    ensures Structured(after) && Ledger(after)
    ensures forall l :: Approved(after.batches, l) <==> Approved(db.batches, l) || l in outcomes
  {
    assert after.lots.Keys == db.lots.Keys;
    assert outcomes.Keys == db.batches[i].details.Keys by { ActiveLotsAll(db, db.batches[i]); }
    CloseKeepsStructure(db, i, outcomes, after);
    assert AllRecorded(after) by { AwardRecords(db, i, outcomes, s, results, after); }
    assert ArtifactsOfClosed(after) by { ReplacedKeys(db, i, CloseBatch(db.batches[i], outcomes), after); }
  }

  lemma ResubmissionKeepsInvariant(db: Db, batchId: BatchId, outcomes: Outcomes, a: AwardBody, i: nat)
    requires Invariant(db) && FinalizeAward(db, batchId, outcomes, a).Ok?
    requires FindBatch(db.batches, batchId) == Some(i) && db.batches[i].status == Closed
    ensures Invariant(FinalizeAward(db, batchId, outcomes, a).value)
    ensures db.batches[i] in FinalizeAward(db, batchId, outcomes, a).value.batches
  {
    ResubmissionKeepsAwards(db, batchId, outcomes, a, i);
    SideTablesKeepInvariant(db, FinalizeAward(db, batchId, outcomes, a).value);
  }

  lemma AwardKeepsInvariant(db: Db, batchId: BatchId, outcomes: Outcomes, a: AwardBody)
    requires Invariant(db) && FinalizeAward(db, batchId, outcomes, a).Ok?
    ensures Invariant(FinalizeAward(db, batchId, outcomes, a).value)
    ensures exists b | b in FinalizeAward(db, batchId, outcomes, a).value.batches ::
        b.id == batchId && b.status == Closed
  {
    var i, results := AwardUnfolds(db, batchId, outcomes, a);
    ClosedUnfolds(db, batchId, outcomes, i);
    if db.batches[i].status == Closed {
      ResubmissionKeepsInvariant(db, batchId, outcomes, a, i);
    } else {
      var closed := FinalizeBatch(db, batchId, outcomes).value;
      FirstAwardKeepsInvariant(db, i, closed, outcomes, a, results);
      assert closed.batches[i] in closed.batches;
    }
  }

  lemma RecordSummarises(closed: Db, batchId: BatchId, outcomes: Outcomes, a: AwardBody, results: map<LotId, LotAward>)
    requires results.Keys <= closed.lots.Keys
    ensures Summarised(RecordAward(closed, batchId, outcomes, a, results))
  {
    var after := RecordAward(closed, batchId, outcomes, a, results);
    assert after.lots.Keys == closed.lots.Keys;
    SameBatchesSameStatus(closed, after);
  }

  lemma FirstAwardKeepsInvariant(
      db: Db, i: nat, closed: Db, outcomes: Outcomes, a: AwardBody, results: map<LotId, LotAward>)
    requires Invariant(db) && i < |db.batches| && db.batches[i].status == Active
    requires ParseResults(a.lotResults) == Some(results) && results.Keys == outcomes.Keys == ActiveLots(db.batches[i])
    requires results.Keys <= db.lots.Keys && OutcomesMatch(outcomes, results, db.contractors)
    requires forall l | l in ActiveLots(db.batches[i]) :: outcomes[l].Some?
    requires closed == db.(batches := db.batches[i := CloseBatch(db.batches[i], outcomes)])
    ensures Invariant(RecordAward(closed, db.batches[i].id, outcomes, a, results))
    ensures forall l :: Approved(closed.batches, l) <==> Approved(db.batches, l) || l in outcomes
  {
    var id := db.batches[i].id;
    var after := RecordAward(closed, id, outcomes, a, results);
    assert Summarised(after) by { RecordSummarises(closed, id, outcomes, a, results); }
    assert Remembered(after) by { StillClosed(db, i, after); }
    ActiveHasNoArtifact(db, i);
    AwardKeepsLedger(db, i, outcomes, SnapshotOf(id, outcomes, a, AwardStatusOf(closed)), results, after);
  }

  lemma StillClosed(db: Db, i: nat, after: Db)
    requires i < |db.batches| && |after.batches| == |db.batches|
    requires forall j | 0 <= j < |db.batches| && j != i :: after.batches[j] == db.batches[j]
    requires db.batches[i].id == after.batches[i].id && after.batches[i].status == Closed
    requires Remembered(db) && after.idempotency == db.idempotency
    ensures Remembered(after)
  {
    forall k | k in after.idempotency ensures exists b | b in after.batches :: b.id == k.batchId && b.status == Closed {
      var b :| b in db.batches && b.id == k.batchId && b.status == Closed;
      var j :| 0 <= j < |db.batches| && db.batches[j] == b;
      assert after.batches[j] in after.batches;
    }
  }

  // ---- runs ---------------------------------------------------------------------------------

  /** A committed finalize leaves the awarded tables and the remembered answer. */
  lemma CommitUnfolds(db: Db, c: FinalizeCommand) returns (after: Db)
    requires Commits(db, c)
    ensures FinalizeAward(db, c.batchId, c.outcomes, c.award) == Ok(after)
    ensures FinalizeRoute(db, c) == (StoreIdempotency(after, c), Answer(ReplyOf(after)))
  {
    after := FinalizeAward(db, c.batchId, c.outcomes, c.award).value;
  }

  lemma RememberClosed(db: Db, c: FinalizeCommand)
    requires Remembered(db) && exists b | b in db.batches :: b.id == c.batchId && b.status == Closed
    ensures Remembered(StoreIdempotency(db, c))
  {
  }

  lemma CommitKeepsInvariant(db: Db, c: FinalizeCommand)
    requires Invariant(db) && Commits(db, c)
    ensures Invariant(FinalizeRoute(db, c).0)
  {
    var after := CommitUnfolds(db, c);
    AwardKeepsInvariant(db, c.batchId, c.outcomes, c.award);
    RememberClosed(after, c);
    SideTablesKeepInvariant(after, StoreIdempotency(after, c));
  }

  lemma StepKeepsInvariant(db: Db, s: Step)
    requires Invariant(db)
    ensures Invariant(Next(db, s))
  {
    match s
    case Create(c) =>
      if CreateBatch(db, c).Ok? { CreateKeepsInvariant(db, c); }
    case Finalize(c) =>
      if Commits(db, c) { CommitKeepsInvariant(db, c); }
    case PurgeIdempotency(_) => SideTablesKeepInvariant(db, Next(db, s));
    case TouchPackage(_) => SideTablesKeepInvariant(db, Next(db, s));
  }

  /** Idempotency rows, versions and decision references do not take part in the ledger. */
  lemma SideTablesKeepInvariant(db: Db, after: Db)
    requires Invariant(db) && Remembered(after)
    requires after.lots == db.lots && after.groups == db.groups && after.batches == db.batches
    requires after.contractors == db.contractors
    requires after.artifacts == db.artifacts
    requires after.package.total == db.package.total && after.package.winner == db.package.winner
    requires after.package.status == db.package.status
    ensures Invariant(after)
  {
    SameBatchesSameStatus(db, after);
    forall x | x in db.batches && x.status == Closed ensures Recorded(after, x) { assert Recorded(db, x); }
  }

  /** Every state of every run from a fresh package satisfies the invariant. */
  lemma {:induction false} RunKeepsInvariant(db: Db, steps: seq<Step>)
    requires Initial(db)
    ensures Invariant(Run(db, steps))
  {
    if steps != [] {
      RunKeepsInvariant(db, steps[..|steps| - 1]);
      StepKeepsInvariant(Run(db, steps[..|steps| - 1]), steps[|steps| - 1]);
    }
  }
}
