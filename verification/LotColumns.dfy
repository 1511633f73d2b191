/** What the lot-lifecycle commands accept and write, column by column. */
module LotColumns {
  import opened Wrappers
  import opened Collections
  import opened LotPolicy
  import opened LotService
  import opened LotInvariant
  import opened LotRuns
  import opened LotLedger
  import opened LotTermination

  // ---- create_batch -------------------------------------------------------------------------

  /** The batch that a create command appends. */
  ghost predicate Appended(db: Db, c: CreateCommand, b: Batch) {
    && b.id == c.batchId && c.mode == Some(b.mode) && b.procedure == db.package.procedure && b.status == Active
    && (forall l :: l in b.details <==> l in c.lotIds)
    && forall l | l in b.details ::
         && b.details[l].active && b.details[l].outcome == None && b.details[l].revision == 1
         && (db.package.procedure == TwoEnvelope ==> b.details[l].stage == TechnicalDraft)
         && (db.package.procedure == OneEnvelope ==> b.details[l].stage == EvaluationDraft)
  }

  /** A successful create appends one such batch under the next number and writes nothing else. */
  lemma CreateAppends(db: Db, c: CreateCommand)
    requires CreateBatch(db, c).Ok?
    ensures var after := CreateBatch(db, c).value;
            && |after.batches| == |db.batches| + 1 && after.batches[..|db.batches|] == db.batches
            && Appended(db, c, after.batches[|db.batches|])
            && (Numbered(db.batches) ==> after.batches[|db.batches|].sequenceNo == |db.batches| + 1)
            && after.lots == db.lots && after.groups == db.groups && after.contractors == db.contractors
            && after.package == db.package && after.artifacts == db.artifacts && after.idempotency == db.idempotency
            && after.syncVersion == db.syncVersion + 1
  {
    if Numbered(db.batches) { MaxIsLength(db.batches); }
  }

  /** When a create command succeeds, and which error it gives otherwise. */
  lemma CreateDecides(db: Db, c: CreateCommand)
    ensures CreateBatch(db, c).Ok? <==>
              && db.package.present && db.package.lotted && c.mode.Some? && (c.stagedAuthorized ==> c.basis != "")
              && ScopeAllowed(ContextOf(db), (set l | l in c.lotIds), None)
              && forall b | b in db.batches :: b.id != c.batchId
    ensures CreateBatch(db, c) == Err(NotFound) <==> !db.package.present
    ensures CreateBatch(db, c).Err? && CreateBatch(db, c).error.Blocked? <==>
              && db.package.present && db.package.lotted && c.mode.Some? && (c.stagedAuthorized ==> c.basis != "")
              && !ScopeAllowed(ContextOf(db), (set l | l in c.lotIds), None)
  {
    BlockersDecideScope(ContextOf(db), c.Selected(), None);
    FoundIffUsed(db.batches, c.batchId);
  }

  lemma FoundIffUsed(batches: seq<Batch>, id: BatchId)
    ensures FindBatch(batches, id).Some? <==> exists b | b in batches :: b.id == id
  {
    if FindBatch(batches, id).Some? { assert batches[FindBatch(batches, id).value] in batches; }
  }

  // ---- the results of an award --------------------------------------------------------------

  /** The lot row that a raw result asks for. */
  ghost predicate HasResult(lots: map<LotId, LotAward>, r: RawLotResult) {
    && r.lotId in lots
    && lots[r.lotId].winner == r.winner && lots[r.lotId].price == r.price
    && lots[r.lotId].packageDuration == r.packageDuration && lots[r.lotId].contractDuration == r.contractDuration
  }

  /** Every raw result is there under its lot, and nothing else. */
  ghost predicate HoldsExactly(lots: map<LotId, LotAward>, raw: seq<RawLotResult>) {
    && (forall i | 0 <= i < |raw| :: HasResult(lots, raw[i]))
    && (forall l | l in lots :: exists i :: 0 <= i < |raw| && raw[i].lotId == l)
  }

  ghost predicate Readable(raw: seq<RawLotResult>) {
    && (forall i | 0 <= i < |raw| :: raw[i].lotId != "" && raw[i].price >= 0)
    && (forall i, j | 0 <= i < j < |raw| :: raw[i].lotId != raw[j].lotId)
  }

  lemma HoldsOneMore(rest: map<LotId, LotAward>, front: seq<RawLotResult>, last: RawLotResult)
    requires HoldsExactly(rest, front)
    ensures last.lotId !in rest && last.price >= 0 ==> HoldsExactly(rest[last.lotId := AwardOf(last)], front + [last])
    ensures last.lotId in rest <==> exists i :: 0 <= i < |front| && front[i].lotId == last.lotId
  {
    var raw := front + [last];
    if last.lotId !in rest && last.price >= 0 {
      forall i | 0 <= i < |front| ensures front[i].lotId != last.lotId { assert HasResult(rest, front[i]); }
      forall l | l in rest ensures exists i :: 0 <= i < |raw| && raw[i].lotId == l {
        var i :| 0 <= i < |front| && front[i].lotId == l;
        assert raw[i].lotId == l;
      }
      assert raw[|front|].lotId == last.lotId;
    }
    if i :| 0 <= i < |front| && front[i].lotId == last.lotId { assert HasResult(rest, front[i]); }
  }

  lemma ReadableOneMore(front: seq<RawLotResult>, last: RawLotResult)
    ensures Readable(front + [last]) <==>
              && Readable(front) && last.lotId != "" && last.price >= 0
              && !exists i :: 0 <= i < |front| && front[i].lotId == last.lotId
  {
    var raw := front + [last];
    assert raw[|front|] == last && forall i | 0 <= i < |front| :: raw[i] == front[i];
  }

  /** Results are readable exactly when each names its own lot and no price is negative; nothing else is read. */
  lemma {:induction false} ResultsMeaning(raw: seq<RawLotResult>)
    ensures ParseResults(raw).Some? <==> Readable(raw)
    ensures ParseResults(raw).Some? ==> HoldsExactly(ParseResults(raw).value, raw)
  {
    if raw != [] {
      var front, last := raw[..|raw| - 1], raw[|raw| - 1];
      ResultsMeaning(front);
      assert raw == front + [last];
      ReadableOneMore(front, last);
      if ParseResults(front).Some? {
        HoldsOneMore(ParseResults(front).value, front, last);
      }
    }
  }

  /** A committed finalize writes exactly its results: each named lot has that result, every other lot its old row. */
  lemma CommitWritesResults(db: Db, c: FinalizeCommand)
    requires Commits(db, c)
    ensures var lots := FinalizeRoute(db, c).0.lots;
            && (forall i | 0 <= i < |c.award.lotResults| :: HasResult(lots, c.award.lotResults[i]))
            && (forall l :: l in lots <==> l in db.lots)
            && (forall l | l in lots
                && (forall i | 0 <= i < |c.award.lotResults| :: c.award.lotResults[i].lotId != l) ::
                  lots[l] == db.lots[l])
  {
    var after := CommitUnfolds(db, c);
    var i, results := AwardUnfolds(db, c.batchId, c.outcomes, c.award);
    ClosedUnfolds(db, c.batchId, c.outcomes, i);
    ResultsMeaning(c.award.lotResults);
    ResultsWritten(db.lots, results, c.award.lotResults, after.lots);
  }

  lemma ResultsWritten(
    lots: map<LotId, LotAward>, results: map<LotId, LotAward>, raw: seq<RawLotResult>, after: map<LotId, LotAward>)
    requires ParseResults(raw) == Some(results) && results.Keys <= lots.Keys && after == lots + results
    ensures forall i | 0 <= i < |raw| :: HasResult(after, raw[i])
    ensures forall l :: l in after <==> l in lots
    ensures forall l | l in after && (forall i | 0 <= i < |raw| :: raw[i].lotId != l) :: after[l] == lots[l]
  {
    assert HoldsExactly(results, raw) by { ResultsMeaning(raw); }
    WrittenOver(lots, results, raw, after);
  }

  lemma WrittenOver(
    lots: map<LotId, LotAward>, results: map<LotId, LotAward>, raw: seq<RawLotResult>, after: map<LotId, LotAward>)
    requires HoldsExactly(results, raw) && results.Keys <= lots.Keys && after == lots + results
    ensures forall i | 0 <= i < |raw| :: HasResult(after, raw[i])
    ensures forall l :: l in after <==> l in lots
    ensures forall l | l in after && (forall i | 0 <= i < |raw| :: raw[i].lotId != l) :: after[l] == lots[l]
  {
    forall i | 0 <= i < |raw| ensures HasResult(after, raw[i]) { assert HasResult(results, raw[i]); }
    forall l ensures l in after <==> l in lots { assert l in results.Keys ==> l in lots.Keys; }
  }

  /** In every reachable state the rows of approved lots are the raw results stored in their batch's artifact. */
  lemma ApprovedRowsAreStored(start: Db, steps: seq<Step>, b: Batch)
    requires Initial(start) && b in Run(start, steps).batches && b.status == Closed
    ensures var db := Run(start, steps);
            && b.id in db.artifacts && var raw := db.artifacts[b.id].lotResults;
            && (forall i | 0 <= i < |raw| :: raw[i].lotId in b.details && HasResult(db.lots, raw[i]))
            && (forall l | l in b.details :: exists i :: 0 <= i < |raw| && raw[i].lotId == l)
            && (forall l | l in b.details ::
                  l in db.artifacts[b.id].outcomes && db.artifacts[b.id].outcomes[l] == b.details[l].outcome)
  {
    RunKeepsInvariant(start, steps);
    StoredRows(Run(start, steps), b);
  }

  lemma StoredRows(db: Db, b: Batch)
    requires Recorded(db, b)
    ensures var raw := db.artifacts[b.id].lotResults;
            && (forall i | 0 <= i < |raw| :: raw[i].lotId in b.details && HasResult(db.lots, raw[i]))
            && (forall l | l in b.details :: exists i :: 0 <= i < |raw| && raw[i].lotId == l)
            && (forall l | l in b.details ::
                  l in db.artifacts[b.id].outcomes && db.artifacts[b.id].outcomes[l] == b.details[l].outcome)
  {
    var raw := db.artifacts[b.id].lotResults;
    var results := ParseResults(raw).value;
    ResultsMeaning(raw);
    forall i | 0 <= i < |raw| ensures raw[i].lotId in b.details && HasResult(db.lots, raw[i]) {
      assert HasResult(results, raw[i]) && raw[i].lotId in results.Keys;
    }
    forall l | l in b.details ensures exists i :: 0 <= i < |raw| && raw[i].lotId == l { assert l in results.Keys; }
  }

  // ---- finalize_batch_award -----------------------------------------------------------------

  /** The results cover exactly the outcomes; awarded lots and only they have a winner, whom the organization knows. */
  ghost predicate ResultsFit(outcomes: Outcomes, raw: seq<RawLotResult>, contractors: set<string>) {
    && (forall i | 0 <= i < |raw| :: raw[i].lotId != "" && raw[i].price >= 0)
    && (forall i, j | 0 <= i < j < |raw| :: raw[i].lotId != raw[j].lotId)
    && (forall l | l in outcomes :: exists i :: 0 <= i < |raw| && raw[i].lotId == l)
    && forall i | 0 <= i < |raw| ::
         && raw[i].lotId in outcomes && outcomes[raw[i].lotId].Some?
         && (outcomes[raw[i].lotId] == Some(Awarded) <==> raw[i].winner != "")
         && (raw[i].winner != "" ==> raw[i].winner in contractors)
  }

  lemma FitMeaning(outcomes: Outcomes, raw: seq<RawLotResult>, contractors: set<string>)
    ensures ResultsFit(outcomes, raw, contractors) <==>
              ParseResults(raw).Some? && OutcomesMatch(outcomes, ParseResults(raw).value, contractors)
  {
    ResultsMeaning(raw);
    if ParseResults(raw).Some? {
      ParsedFits(outcomes, raw, ParseResults(raw).value, contractors);
    }
  }

  lemma ParsedFits(outcomes: Outcomes, raw: seq<RawLotResult>, results: map<LotId, LotAward>, contractors: set<string>)
    requires forall i | 0 <= i < |raw| :: raw[i].lotId != "" && raw[i].price >= 0 && HasResult(results, raw[i])
    requires forall i, j | 0 <= i < j < |raw| :: raw[i].lotId != raw[j].lotId
    requires forall l | l in results :: exists i :: 0 <= i < |raw| && raw[i].lotId == l
    ensures ResultsFit(outcomes, raw, contractors) <==> OutcomesMatch(outcomes, results, contractors)
  {
    if OutcomesMatch(outcomes, results, contractors) {
      forall i | 0 <= i < |raw| ensures raw[i].lotId in outcomes { assert raw[i].lotId in results.Keys; }
      forall l | l in outcomes ensures exists i :: 0 <= i < |raw| && raw[i].lotId == l { assert l in results.Keys; }
    }
    if ResultsFit(outcomes, raw, contractors) {
      forall l ensures l in results.Keys <==> l in outcomes.Keys {
        if l in results { var i :| 0 <= i < |raw| && raw[i].lotId == l; }
        if l in outcomes { var i :| 0 <= i < |raw| && raw[i].lotId == l; assert HasResult(results, raw[i]); }
      }
      assert results.Keys == outcomes.Keys;
      forall l | l in outcomes
        ensures outcomes[l].Some? && (outcomes[l].value == Awarded <==> results[l].winner != "")
        ensures results[l].winner != "" ==> results[l].winner in contractors
      {
        var i :| 0 <= i < |raw| && raw[i].lotId == l;
      }
    }
  }

  /** When the first result of an active batch is accepted. */
  lemma FirstResultAcceptedIff(db: Db, i: nat, outcomes: Outcomes, a: AwardBody)
    requires Invariant(db) && i < |db.batches| && db.batches[i].status == Active
    requires db.package.present && db.package.lotted
    ensures FinalizeAward(db, db.batches[i].id, outcomes, a).Ok? <==>
              && a.expectedVersion >= 1 && a.expectedVersion == db.package.rowVersion
              && a.decisionNumber != "" && a.decisionDate != ""
              && ResultsFit(outcomes, a.lotResults, db.contractors)
              && (forall l :: l in outcomes <==> l in db.batches[i].details)
  {
    var b := db.batches[i];
    FitMeaning(outcomes, a.lotResults, db.contractors);
    FindIsOnly(db.batches, i);
    ActiveHasNoArtifact(db, i);
    assert b in db.batches && BatchShape(b, db.lots.Keys);
    ActiveLotsAll(db, b);
    assert (forall l :: l in outcomes <==> l in b.details) <==> outcomes.Keys == b.details.Keys;
    assert ScopeBlockers(ContextOf(db), ActiveLots(b), Some(b.id)) == [] by {
      PublicationAllowed(db, b);
      BlockersDecideScope(ContextOf(db), ActiveLots(b), Some(b.id));
    }
    ActiveAwardChecks(db, i, outcomes, a);
  }

  /** The tests of an award for an active batch that meets no blocker. */
  lemma ActiveAwardChecks(db: Db, i: nat, outcomes: Outcomes, a: AwardBody)
    requires i < |db.batches| && FindBatch(db.batches, db.batches[i].id) == Some(i) && db.batches[i].status == Active
    requires PackageError(db.package).None? && db.batches[i].id !in db.artifacts
    requires ActiveLots(db.batches[i]) == db.batches[i].details.Keys != {} && db.batches[i].details.Keys <= db.lots.Keys
    requires ScopeBlockers(ContextOf(db), ActiveLots(db.batches[i]), Some(db.batches[i].id)) == []
    ensures FinalizeAward(db, db.batches[i].id, outcomes, a).Ok? <==>
              && BodyWellFormed(a) && db.package.rowVersion == a.expectedVersion && ParseResults(a.lotResults).Some?
              && OutcomesMatch(outcomes, ParseResults(a.lotResults).value, db.contractors)
              && outcomes.Keys == db.batches[i].details.Keys
  {
  }

  /** A well-formed result for a missing package or an unknown batch is not found. */
  lemma UnknownIsNotFound(db: Db, id: BatchId, outcomes: Outcomes, a: AwardBody)
    requires a.expectedVersion >= 1 && a.decisionNumber != "" && a.decisionDate != ""
    ensures !db.package.present ==> FinalizeAward(db, id, outcomes, a) == Err(NotFound)
    ensures db.package.present && db.package.lotted && db.package.rowVersion == a.expectedVersion
            && ResultsFit(outcomes, a.lotResults, db.contractors) && (forall b | b in db.batches :: b.id != id)
            ==> FinalizeAward(db, id, outcomes, a) == Err(NotFound)
  {
    FitMeaning(outcomes, a.lotResults, db.contractors);
    FoundIffUsed(db.batches, id);
  }

  /** The closed batch, detail by detail. */
  ghost predicate ClosedFrom(before: Batch, outcomes: Outcomes, after: Batch) {
    && after.id == before.id && after.sequenceNo == before.sequenceNo && after.procedure == before.procedure
    && after.mode == before.mode && after.status == Closed && after.details.Keys == before.details.Keys
    && forall l | l in after.details ::
         && after.details[l].stage == ResultApproved && !after.details[l].active
         && l in outcomes && after.details[l].outcome == outcomes[l]
         && after.details[l].revision == before.details[l].revision + 1
  }

  /** A first result closes its batch, stores the body as its artifact, and updates the package row. */
  lemma FirstResultWrites(db: Db, c: FinalizeCommand, i: nat)
    requires Invariant(db) && Commits(db, c) && i < |db.batches| && db.batches[i].id == c.batchId
    requires db.batches[i].status == Active
    ensures var after := FinalizeRoute(db, c).0;
            && |after.batches| == |db.batches| && ClosedFrom(db.batches[i], c.outcomes, after.batches[i])
            && (forall k | 0 <= k < |db.batches| && k != i :: after.batches[k] == db.batches[k])
    ensures var after := FinalizeRoute(db, c).0;
            && c.batchId !in db.artifacts && after.artifacts.Keys == db.artifacts.Keys + {c.batchId}
            && ArtifactOf(after.artifacts[c.batchId], c) && after.artifacts[c.batchId].status == after.package.status
            && forall id | id in db.artifacts :: after.artifacts[id] == db.artifacts[id]
  {
    FindIsOnly(db.batches, i);
    CommitCloses(db, c, i);
    ActiveLotsAll(db, db.batches[i]);
    ActiveHasNoArtifact(db, i);
    var after := CommitUnfolds(db, c);
    FirstArtifact(db, c, i, after);
  }

  /** The artifact of a result holds its body; the status is that of the package. */
  ghost predicate ArtifactOf(s: Snapshot, c: FinalizeCommand) {
    && s.batchId == c.batchId && s.outcomes == c.outcomes && s.lotResults == c.award.lotResults
    && s.decisionNumber == c.award.decisionNumber && s.decisionDate == c.award.decisionDate
    && s.metadata == c.award.metadata
  }

  lemma FirstArtifact(db: Db, c: FinalizeCommand, i: nat, after: Db)
    requires FinalizeAward(db, c.batchId, c.outcomes, c.award) == Ok(after)
    requires FindBatch(db.batches, c.batchId) == Some(i) && db.batches[i].status == Active
    requires c.batchId !in db.artifacts
    ensures after.artifacts.Keys == db.artifacts.Keys + {c.batchId}
    ensures ArtifactOf(after.artifacts[c.batchId], c) && after.artifacts[c.batchId].status == after.package.status
    ensures forall id | id in db.artifacts :: after.artifacts[id] == db.artifacts[id]
  {
    var j, results := AwardUnfolds(db, c.batchId, c.outcomes, c.award);
    ClosedUnfolds(db, c.batchId, c.outcomes, i);
    ArtifactRecorded(FinalizeBatch(db, c.batchId, c.outcomes).value, c, results, after);
  }

  lemma ArtifactRecorded(closed: Db, c: FinalizeCommand, results: map<LotId, LotAward>, after: Db)
    requires after == RecordAward(closed, c.batchId, c.outcomes, c.award, results) && c.batchId !in closed.artifacts
    ensures after.artifacts.Keys == closed.artifacts.Keys + {c.batchId}
    ensures ArtifactOf(after.artifacts[c.batchId], c) && after.artifacts[c.batchId].status == after.package.status
    ensures forall id | id in closed.artifacts :: after.artifacts[id] == closed.artifacts[id]
  {
  }

  /** When a result for a closed batch is accepted again: version and every stored field agree. */
  lemma RepetitionAcceptedIff(db: Db, c: FinalizeCommand, i: nat)
    requires Invariant(db) && db.package.present && db.package.lotted
    requires c.award.expectedVersion >= 1 && c.award.decisionNumber != "" && c.award.decisionDate != ""
    requires i < |db.batches| && db.batches[i].id == c.batchId && db.batches[i].status == Closed
    ensures FinalizeAward(db, c.batchId, c.outcomes, c.award).Ok? <==>
              && c.award.expectedVersion == db.package.rowVersion && c.batchId in db.artifacts
              && var s := db.artifacts[c.batchId];
              ArtifactOf(s, c) && s.status != NotAwarded
              && (s.status == FullyAwarded <==> db.lots != map[] && forall l | l in db.lots :: Approved(db.batches, l))
  {
    FindIsOnly(db.batches, i);
    PackageStatusMeaning(db);
    RepetitionFields(db, c, i, AwardStatusOf(db));
  }

  lemma RepetitionFields(db: Db, c: FinalizeCommand, i: nat, status: AwardStatus)
    requires Invariant(db) && PackageError(db.package).None? && BodyWellFormed(c.award)
    requires FindBatch(db.batches, c.batchId) == Some(i) && db.batches[i].status == Closed
    requires status == AwardStatusOf(db)
    ensures FinalizeAward(db, c.batchId, c.outcomes, c.award).Ok? <==>
              && c.award.expectedVersion == db.package.rowVersion && c.batchId in db.artifacts
              && ArtifactOf(db.artifacts[c.batchId], c) && db.artifacts[c.batchId].status == status
  {
    ResubmissionAcceptedIff(db, c.batchId, c.outcomes, c.award, i);
  }

  /** The package row after a committed finalize. */
  lemma CommitWritesPackage(db: Db, c: FinalizeCommand)
    requires Commits(db, c)
    ensures var after := FinalizeRoute(db, c).0;
            && after.package.rowVersion == db.package.rowVersion + 1 && after.syncVersion == db.syncVersion + 1
            && after.package.decisionNumber == c.award.decisionNumber
            && after.package.decisionDate == c.award.decisionDate
            && after.package.present == db.package.present && after.package.lotted == db.package.lotted
            && after.package.procedure == db.package.procedure
            && forall w :: after.package.winner == Some(w) <==> SoleLotWinner(after.lots, w)
  {
    var after := CommitUnfolds(db, c);
    var i, results := AwardUnfolds(db, c.batchId, c.outcomes, c.award);
    ClosedUnfolds(db, c.batchId, c.outcomes, i);
    PackageRecorded(FinalizeBatch(db, c.batchId, c.outcomes).value, c, results, after);
  }

  /** Some lot has the winner, and no lot has another one. */
  ghost predicate SoleLotWinner(lots: map<LotId, LotAward>, w: string) {
    w != "" && (exists l | l in lots :: lots[l].winner == w)
    && forall l | l in lots :: lots[l].winner == w || lots[l].winner == ""
  }

  lemma PackageRecorded(closed: Db, c: FinalizeCommand, results: map<LotId, LotAward>, after: Db)
    requires after == RecordAward(closed, c.batchId, c.outcomes, c.award, results)
    ensures after.package.rowVersion == closed.package.rowVersion + 1 && after.syncVersion == closed.syncVersion + 1
    ensures after.package.decisionNumber == c.award.decisionNumber
    ensures after.package.decisionDate == c.award.decisionDate
    ensures after.package.present == closed.package.present && after.package.lotted == closed.package.lotted
    ensures after.package.procedure == closed.package.procedure
    ensures forall w :: after.package.winner == Some(w) <==> SoleLotWinner(after.lots, w)
  {
    forall w ensures after.package.winner == Some(w) <==> SoleLotWinner(after.lots, w) {
      SoleWinnerMeaning(after.lots, w);
      WinnersMeaning(after.lots, w);
    }
  }

  lemma WinnersMeaning(lots: map<LotId, LotAward>, w: string)
    ensures Winners(lots) == {w} <==> SoleLotWinner(lots, w)
  {
    forall x ensures x in Winners(lots) <==> x != "" && exists l | l in lots :: lots[l].winner == x {}
    if SoleLotWinner(lots, w) {
      assert w in Winners(lots);
      assert forall x | x in Winners(lots) :: x == w;
    }
    if Winners(lots) == {w} {
      forall l | l in lots ensures lots[l].winner == w || lots[l].winner == "" {
        if lots[l].winner != "" { assert lots[l].winner in Winners(lots); }
      }
      assert w in Winners(lots);
    }
  }

  // ---- the routes ---------------------------------------------------------------------------

  /** Two commands share an idempotency row exactly when actor, batch and key agree. */
  lemma KeysSeparate(c: FinalizeCommand, d: FinalizeCommand)
    ensures KeyOf(c) == KeyOf(d) <==> c.actor == d.actor && c.batchId == d.batchId && c.key == d.key
  {
  }

  /** Which keys the header may carry. */
  lemma KeyShape(key: string)
    ensures ValidKey(key) <==>
              && |key| >= 8 && |key| <= 128
              && forall c | c in key ::
                   c in "ABCDEFGHIJKLMNOPQRSTUVWXYZ" || c in "abcdefghijklmnopqrstuvwxyz" || c in "0123456789"
                   || c == '.' || c == '_' || c == ':' || c == '-'
  {
    forall c | c in key ensures KeyChar(c) <==>
        (c in "ABCDEFGHIJKLMNOPQRSTUVWXYZ" || c in "abcdefghijklmnopqrstuvwxyz" || c in "0123456789"
         || c == '.' || c == '_' || c == ':' || c == '-')
    {
      Letters(c);
    }
  }

  lemma Letters(c: char)
    ensures 'A' <= c <= 'Z' <==> c in "ABCDEFGHIJKLMNOPQRSTUVWXYZ"
    ensures 'a' <= c <= 'z' <==> c in "abcdefghijklmnopqrstuvwxyz"
    ensures '0' <= c <= '9' <==> c in "0123456789"
  {
  }

  /** A committed finalize answers with the state it leaves, and remembers its body and that answer. */
  lemma CommitAnswers(db: Db, c: FinalizeCommand)
    requires Invariant(db) && Commits(db, c)
    ensures var (after, response) := FinalizeRoute(db, c);
            && response.Answer? && ReplyFits(after, response.reply)
            && KeyOf(c) in after.idempotency && var row := after.idempotency[KeyOf(c)];
            row.outcomes == c.outcomes && row.award == c.award && row.reply == response.reply
  {
    var after := CommitUnfolds(db, c);
    AwardKeepsInvariant(db, c.batchId, c.outcomes, c.award);
    ReplyMeaning(after);
  }

  /** The answer describes the tables. */
  ghost predicate ReplyFits(db: Db, r: Reply) {
    && r.totalLots == |db.lots| && r.completedLots == |set l | l in db.lots && Approved(db.batches, l)|
    && (r.packageStatus == Completed <==> db.lots != map[] && forall l | l in db.lots :: Approved(db.batches, l))
    && (forall l :: l in r.progress <==> l in db.lots)
    && (forall l | l in r.progress :: r.progress[l] == ProgressIn(db.batches, l))
    && r.rowVersion == db.package.rowVersion && r.syncVersion == db.syncVersion
    && r.result == db.package.status && r.winner == db.package.winner && r.total == db.package.total
  }

  lemma ReplyMeaning(db: Db)
    requires Structured(db)
    ensures ReplyFits(db, ReplyOf(db))
  {
    CompletedCount(db);
    PackageStatusMeaning(db);
    assert AwardStatusOf(db) == FullyAwarded <==> ReplyOf(db).packageStatus == Completed;
  }

  lemma CompletedCount(db: Db)
    requires Structured(db)
    ensures CompletedLots(Progress(db)) == set l | l in db.lots && Approved(db.batches, l)
  {
    var progress := Progress(db);
    forall l | l in db.lots ensures progress[l].IsCompleted() <==> Approved(db.batches, l) { ProgressMeaning(db, l); }
  }
}
