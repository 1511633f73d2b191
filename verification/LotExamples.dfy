/** Concrete runs: a total that exceeds the artifacts, and an older result that is accepted again. */
module LotExamples {
  import opened Wrappers
  import opened Collections
  import opened LotPolicy
  import opened LotService
  import opened LotInvariant
  import opened LotRuns
  import opened LotLedger
  import opened LotTermination
  import opened LotLiveness

  /** A package of two lots, one of which already carries a price when its first batch is created. */
  function PricedStart(): Db {
    Db(map["A" := LotAward("", 0, "", ""), "B" := LotAward("", 5, "", "")], [], {},
      Package(true, true, OneEnvelope, NotAwarded, None, 0, "", "", 1), [], map[], map[], 0)
  }

  /** A batch of the other lot. */
  function StartA(): CreateCommand {
    CreateCommand(true, ["A"], Some(Consolidated), false, "", "batch")
  }

  /** Its official result: no bid was received. */
  function FinishA(): FinalizeCommand {
    FinalizeCommand(true, "user", "finalize", "batch", map["A" := Some(NoBid)],
      AwardBody(1, "1", "2024-01-01", "", [RawLotResult("A", "", 0, "", "")]))
  }

  function WithBatch(): Db {
    var b := Batch("batch", 1, OneEnvelope, Consolidated, Active, map["A" := Detail(EvaluationDraft, None, true, 1)]);
    PricedStart().(batches := [b], syncVersion := 1)
  }

  lemma BatchCreated()
    ensures CreateBatch(PricedStart(), StartA()) == Ok(WithBatch())
  {
    var db, c := PricedStart(), StartA();
    var ctx := ContextOf(db);
    assert c.Selected() == {"A"} by { assert "A" in ["A"]; }
    assert LatestBatch(db.batches, "A") == None;
    assert ctx.lots["A"] == LotProgress(NotStarted, None, None);
    assert ScopeAllowed(ctx, {"A"}, None);
    BlockersDecideScope(ctx, {"A"}, None);
    assert NewBatch(db, c).details == map["A" := Detail(EvaluationDraft, None, true, 1)];
    assert ScopeBlockers(ctx, c.Selected(), None) == [];
    assert db.batches + [NewBatch(db, c)] == WithBatch().batches;
  }

  lemma ResultParsed()
    ensures ParseResults(FinishA().award.lotResults) == Some(map["A" := LotAward("", 0, "", "")])
    ensures OutcomesMatch(FinishA().outcomes, map["A" := LotAward("", 0, "", "")], {})
    ensures BodyWellFormed(FinishA().award) && FinishA().award.expectedVersion == 1
  {
    var raw := FinishA().award.lotResults;
    assert raw[..0] == [];
    assert ParseResults(raw[..0]) == Some(map[]);
  }

  lemma BatchKeepsInvariant()
    ensures Invariant(WithBatch()) && FindBatch(WithBatch().batches, "batch") == Some(0)
    ensures ActiveLots(WithBatch().batches[0]) == {"A"}
  {
    BatchCreated();
    CreateKeepsInvariant(PricedStart(), StartA());
    FindIsOnly(WithBatch().batches, 0);
    assert WithBatch().batches[0] in WithBatch().batches;
    ActiveLotsAll(WithBatch(), WithBatch().batches[0]);
  }

  lemma ResultCommits()
    ensures Commits(WithBatch(), FinishA())
  {
    BatchKeepsInvariant();
    ResultParsed();
    FinalizeIsKey();
    ResultCommitsAt(WithBatch(), FinishA(), map["A" := LotAward("", 0, "", "")], 0);
  }

  /** A well-formed result for an active batch takes effect. */
  lemma ResultCommitsAt(db: Db, c: FinalizeCommand, results: map<LotId, LotAward>, i: nat)
    requires Invariant(db) && PackageError(db.package).None? && i < |db.batches| && db.batches[i].status == Active
    requires c.permitted && ValidKey(c.key) && c.batchId == db.batches[i].id && KeyOf(c) !in db.idempotency
    requires BodyWellFormed(c.award) && c.award.expectedVersion == db.package.rowVersion
    requires ParseResults(c.award.lotResults) == Some(results) && OutcomesMatch(c.outcomes, results, db.contractors)
    requires c.outcomes.Keys == ActiveLots(db.batches[i]) && results.Keys <= db.lots.Keys
    ensures Commits(db, c)
  {
    var b := db.batches[i];
    assert b in db.batches && BatchShape(b, db.lots.Keys);
    ActiveLotsAll(db, b);
    FindIsOnly(db.batches, i);
    ActiveHasNoArtifact(db, i);
    assert ScopeBlockers(ContextOf(db), ActiveLots(b), Some(b.id)) == [] by {
      PublicationAllowed(db, b);
      BlockersDecideScope(ContextOf(db), ActiveLots(b), Some(b.id));
    }
    AcceptedWhenChecked(db, i, c.outcomes, c.award, results);
  }

  function PricedRun(): seq<Step> {
    [Create(StartA()), Finalize(FinishA())]
  }

  /** After the result of the first lot, the total still counts the price the second lot came with. */
  lemma PricedLotIsCounted()
    ensures Initial(PricedStart())
    ensures var db := Run(PricedStart(), PricedRun());
            db.artifacts != map[] && db.package.total == ArtifactsTotal(db.batches, db.artifacts) + 5
  {
    var start, steps := PricedStart(), PricedRun();
    assert steps[..1] == [Create(StartA())] && steps[..1][..0] == [];
    BatchCreated();
    assert Run(start, steps[..1]) == WithBatch();
    ResultCommits();
    var db := Run(start, steps);
    FinishedLots();
    PackageRowAddsUp(start, steps);
    SumRemove({"B"}, start.lots, "B");
    assert {"B"} - {"B"} == {};
  }

  lemma FinishedLots()
    ensures var db := FinalizeRoute(WithBatch(), FinishA()).0; db.artifacts != map[] && Unapproved(db) == {"B"}
  {
    BatchKeepsInvariant();
    ResultCommits();
    FirstResultApproves(WithBatch(), FinishA(), 0);
    NothingApproved();
  }

  lemma NothingApproved()
    ensures Unapproved(WithBatch()) == {"A", "B"} && Unapproved(WithBatch()) - FinishA().outcomes.Keys == {"B"}
  {
    var db := WithBatch();
    assert !Approved(db.batches, "B") && !Approved(db.batches, "A");
    assert db.lots.Keys == {"A", "B"};
  }

  /** A first result approves exactly its lots. */
  lemma FirstResultApproves(db: Db, c: FinalizeCommand, i: nat)
    requires Invariant(db) && Commits(db, c) && FindBatch(db.batches, c.batchId) == Some(i)
    requires db.batches[i].status == Active
    ensures FinalizeRoute(db, c).0.artifacts != map[]
    ensures Unapproved(FinalizeRoute(db, c).0) == Unapproved(db) - c.outcomes.Keys
  {
    CommitNamesDecision(db, c);
    CommitCloses(db, c, i);
    CloseLowersPotential(db, c, i);
  }

  // ---- an older batch resubmitted -----------------------------------------------------------

  /** A package of three lots, no lot of which has been awarded. */
  function ThreeStart(): Db {
    Db(map["A" := BLANK_AWARD, "B" := BLANK_AWARD, "C" := BLANK_AWARD], [], {},
      Package(true, true, OneEnvelope, NotAwarded, None, 0, "", "", 1), [], map[], map[], 0)
  }

  function StartOne(lot: LotId, id: BatchId): CreateCommand {
    CreateCommand(true, [lot], Some(Consolidated), false, "", id)
  }

  /** A result without a bid for a batch of one lot. */
  function FinishOne(lot: LotId, id: BatchId, version: int, key: string, number: string): FinalizeCommand {
    FinalizeCommand(true, "user", key, id, map[lot := Some(NoBid)],
      AwardBody(version, number, "2024-01-01", "", [RawLotResult(lot, "", 0, "", "")]))
  }

  lemma OneParsed(lot: LotId, id: BatchId, version: int, key: string, number: string, contractors: set<string>)
    requires lot != ""
    ensures var c := FinishOne(lot, id, version, key, number);
            ParseResults(c.award.lotResults) == Some(map[lot := BLANK_AWARD])
            && OutcomesMatch(c.outcomes, map[lot := BLANK_AWARD], contractors)
  {
    var raw := FinishOne(lot, id, version, key, number).award.lotResults;
    assert raw[..0] == [];
    assert ParseResults(raw[..0]) == Some(map[]);
  }

  /** A batch of one unclaimed lot starts when there are no dependency groups. */
  lemma OneStarts(db: Db, lot: LotId, id: BatchId)
    requires Invariant(db) && PackageError(db.package).None? && db.groups == [] && lot in Unclaimed(db)
    requires forall b | b in db.batches :: b.id != id
    ensures CreateBatch(db, StartOne(lot, id)).Ok? && Invariant(CreateBatch(db, StartOne(lot, id)).value)
    ensures var after := CreateBatch(db, StartOne(lot, id)).value;
            && after == db.(batches := after.batches, syncVersion := db.syncVersion + 1)
            && |after.batches| == |db.batches| + 1 && after.batches[..|db.batches|] == db.batches
            && var b := after.batches[|db.batches|];
            b.id == id && b.status == Active && b.details.Keys == {lot}
  {
    var c := StartOne(lot, id);
    assert c.Selected() == {lot} by { assert lot in [lot]; }
    OneAllowed(db, lot);
    BlockersDecideScope(ContextOf(db), {lot}, None);
    CreateKeepsInvariant(db, c);
    assert NewBatch(db, c).details.Keys == {lot};
  }

  lemma OneAllowed(db: Db, lot: LotId)
    requires Structured(db) && db.groups == [] && lot in Unclaimed(db)
    ensures ScopeAllowed(ContextOf(db), {lot}, None)
  {
    ProgressMeaning(db, lot);
    assert forall b | b in db.batches :: lot !in b.details;
    assert ContextOf(db).lots[lot] == ProgressIn(db.batches, lot);
  }

  /** The batches after batch i was closed. */
  ghost predicate Closes(before: seq<Batch>, i: nat, after: seq<Batch>) {
    && i < |before| == |after| && after[i].status == Closed
    && after[i].id == before[i].id && after[i].details.Keys == before[i].details.Keys
    && forall k | 0 <= k < |before| && k != i :: after[k] == before[k]
  }

  /** The other tables after a first result. */
  ghost predicate Records(db: Db, c: FinalizeCommand, after: Db) {
    RecordsAs(db, c, AwardStatusOf(after), after)
  }

  ghost predicate RecordsAs(db: Db, c: FinalizeCommand, status: AwardStatus, after: Db) {
    && after.lots.Keys == db.lots.Keys && after.package.decisionNumber == c.award.decisionNumber
    && after.package.present == db.package.present && after.package.lotted == db.package.lotted
    && after.package.rowVersion == db.package.rowVersion + 1
    && after.idempotency.Keys == db.idempotency.Keys + {KeyOf(c)}
    && after.artifacts == db.artifacts[c.batchId := SnapshotOf(c.batchId, c.outcomes, c.award, status)]
  }

  lemma CommitClosesBatch(db: Db, c: FinalizeCommand, i: nat, after: Db)
    requires Commits(db, c) && FindBatch(db.batches, c.batchId) == Some(i) && db.batches[i].status == Active
    requires after == FinalizeRoute(db, c).0
    ensures Closes(db.batches, i, after.batches)
  {
    CommitCloses(db, c, i);
  }

  lemma CommitRecords(db: Db, c: FinalizeCommand, i: nat, after: Db)
    requires Invariant(db) && Commits(db, c) && FindBatch(db.batches, c.batchId) == Some(i)
    requires db.batches[i].status == Active && after == FinalizeRoute(db, c).0
    ensures Records(db, c, after)
  {
    ActiveHasNoArtifact(db, i);
    var awarded := CommitUnfolds(db, c);
    AwardRecordsAll(db, c, i, awarded);
    assert after == StoreIdempotency(awarded, c);
    SameBatchesSameStatus(awarded, after);
  }

  lemma AwardRecordsAll(db: Db, c: FinalizeCommand, i: nat, awarded: Db)
    requires FinalizeAward(db, c.batchId, c.outcomes, c.award) == Ok(awarded)
    requires FindBatch(db.batches, c.batchId) == Some(i) && db.batches[i].status == Active
    requires c.batchId !in db.artifacts
    ensures RecordsAs(db, c, AwardStatusOf(awarded), StoreIdempotency(awarded, c))
  {
    var j, results := AwardUnfolds(db, c.batchId, c.outcomes, c.award);
    ClosedUnfolds(db, c.batchId, c.outcomes, i);
    RecordEffect(FinalizeBatch(db, c.batchId, c.outcomes).value, c, results, awarded);
  }

  lemma RecordEffect(closed: Db, c: FinalizeCommand, results: map<LotId, LotAward>, awarded: Db)
    requires awarded == RecordAward(closed, c.batchId, c.outcomes, c.award, results)
    requires results.Keys <= closed.lots.Keys && c.batchId !in closed.artifacts
    ensures RecordsAs(closed, c, AwardStatusOf(awarded), StoreIdempotency(awarded, c))
  {
    assert (closed.lots + results).Keys == closed.lots.Keys;
    SameBatchesSameStatus(closed, awarded);
  }

  /** The batch at i has one lot. */
  ghost predicate OneLot(batches: seq<Batch>, i: nat, id: BatchId, lot: LotId, status: BatchStatus) {
    i < |batches| && batches[i].id == id && batches[i].status == status && batches[i].details.Keys == {lot}
  }

  /** The first result of the one lot of batch i takes effect. */
  lemma OneCommits(db: Db, i: nat, c: FinalizeCommand, lot: LotId)
    requires Invariant(db) && PackageError(db.package).None? && lot != ""
    requires OneLot(db.batches, i, c.batchId, lot, Active)
    requires c == FinishOne(lot, c.batchId, db.package.rowVersion, c.key, c.award.decisionNumber)
    requires ValidKey(c.key) && c.award.decisionNumber != "" && db.package.rowVersion >= 1
    requires KeyOf(c) !in db.idempotency
    ensures Commits(db, c)
  {
    OneParsed(lot, c.batchId, db.package.rowVersion, c.key, c.award.decisionNumber, db.contractors);
    OneWellFormed(c, lot, c.award.decisionNumber);
    OneActive(db, i, lot);
    ResultCommitsAt(db, c, map[lot := BLANK_AWARD], i);
  }

  lemma OneWellFormed(c: FinalizeCommand, lot: LotId, number: string)
    requires c == FinishOne(lot, c.batchId, c.award.expectedVersion, c.key, number)
    requires number != "" && c.award.expectedVersion >= 1
    ensures BodyWellFormed(c.award) && c.permitted && c.outcomes.Keys == {lot}
  {
  }

  lemma OneActive(db: Db, i: nat, lot: LotId)
    requires Structured(db) && i < |db.batches| && db.batches[i].status == Active && db.batches[i].details.Keys == {lot}
    ensures ActiveLots(db.batches[i]) == {lot} && lot in db.lots
  {
    assert db.batches[i] in db.batches && BatchShape(db.batches[i], db.lots.Keys);
    ActiveLotsAll(db, db.batches[i]);
    assert lot in db.batches[i].details.Keys;
  }

  lemma CommitGives(db: Db, c: FinalizeCommand, i: nat) returns (after: Db)
    requires Invariant(db) && Commits(db, c) && FindBatch(db.batches, c.batchId) == Some(i)
    requires db.batches[i].status == Active
    ensures after == Next(db, Finalize(c))
    ensures Closes(db.batches, i, after.batches) && Records(db, c, after)
  {
    after := FinalizeRoute(db, c).0;
    CommitClosesBatch(db, c, i, after);
    CommitRecords(db, c, i, after);
  }

  lemma OneFinishes(db: Db, i: nat, c: FinalizeCommand, lot: LotId) returns (after: Db)
    requires Invariant(db) && PackageError(db.package).None? && lot != ""
    requires OneLot(db.batches, i, c.batchId, lot, Active)
    requires c == FinishOne(lot, c.batchId, db.package.rowVersion, c.key, c.award.decisionNumber)
    requires ValidKey(c.key) && c.award.decisionNumber != "" && db.package.rowVersion >= 1
    requires KeyOf(c) !in db.idempotency
    ensures after == Next(db, Finalize(c))
    ensures Closes(db.batches, i, after.batches) && Records(db, c, after)
  {
    OneCommits(db, i, c, lot);
    FindIsOnly(db.batches, i);
    after := CommitGives(db, c, i);
  }

  /** The first result, the second one, and the repetition of the first. */
  function First(a: LotId): FinalizeCommand {
    FinishOne(a, "b1", 1, "finalize1", "1")
  }

  function Second(b: LotId): FinalizeCommand {
    FinishOne(b, "b2", 2, "finalize2", "2")
  }

  function Repeated(a: LotId): FinalizeCommand {
    FinishOne(a, "b1", 3, "finalize3", "1")
  }

  /** Two batches in work and a lot that no batch holds. */
  ghost predicate TwoInWork(db: Db, a: LotId, b: LotId, other: LotId) {
    && PackageError(db.package).None? && db.package.rowVersion == 1 && db.idempotency == map[]
    && OneLot(db.batches, 0, "b1", a, Active) && OneLot(db.batches, 1, "b2", b, Active) && |db.batches| == 2
    && a != "" && b != "" && other in db.lots && other != a && other != b
  }

  /** After the first result: the second batch is still in work. */
  ghost predicate OneInWork(d1: Db, a: LotId, b: LotId, other: LotId) {
    && PackageError(d1.package).None? && d1.package.rowVersion == 2
    && KeyOf(Second(b)) !in d1.idempotency && KeyOf(Repeated(a)) !in d1.idempotency
    && OneLot(d1.batches, 0, "b1", a, Closed) && OneLot(d1.batches, 1, "b2", b, Active) && |d1.batches| == 2
    && FirstStored(d1, a) && b != "" && other in d1.lots && other != a && other != b
  }

  ghost predicate FirstStored(db: Db, a: LotId) {
    && "b1" in db.artifacts
    && db.artifacts["b1"] == SnapshotOf("b1", First(a).outcomes, First(a).award, PartiallyAwarded)
  }

  /** After both: the first result's artifact stands as it was, and the package is still partial. */
  ghost predicate NoneInWork(d2: Db, a: LotId) {
    && PackageError(d2.package).None? && d2.package.rowVersion == 3 && KeyOf(Repeated(a)) !in d2.idempotency
    && |d2.batches| == 2 && d2.batches[0].id == "b1" && d2.batches[0].status == Closed
    && FirstStored(d2, a) && AwardStatusOf(d2) == PartiallyAwarded && d2.package.decisionNumber == "2"
  }

  /** A lot in neither of two batches keeps the package partial. */
  lemma StillPartial(db: Db, a: LotId, b: LotId, other: LotId)
    requires Structured(db) && |db.batches| == 2 && other in db.lots && other != a && other != b
    requires db.batches[0].details.Keys == {a} && db.batches[1].details.Keys == {b}
    ensures AwardStatusOf(db) == PartiallyAwarded
  {
    PackageStatusMeaning(db);
    assert !Approved(db.batches, other);
  }

  lemma FirstFinished(db: Db, a: LotId, b: LotId, other: LotId, d1: Db)
    requires TwoInWork(db, a, b, other) && Structured(d1)
    requires Closes(db.batches, 0, d1.batches) && Records(db, First(a), d1)
    ensures OneInWork(d1, a, b, other)
  {
    KeysDiffer();
    assert other in d1.lots.Keys;
    StillPartial(d1, a, b, other);
  }

  lemma SecondFinished(d1: Db, a: LotId, b: LotId, other: LotId, d2: Db)
    requires OneInWork(d1, a, b, other) && Structured(d2)
    requires Closes(d1.batches, 1, d2.batches) && Records(d1, Second(b), d2)
    ensures NoneInWork(d2, a)
  {
    KeysDiffer();
    assert other in d2.lots.Keys;
    StillPartial(d2, a, b, other);
  }

  /** The repetition is accepted. */
  lemma FirstRepeated(d2: Db, a: LotId)
    requires Invariant(d2) && NoneInWork(d2, a)
    ensures Commits(d2, Repeated(a))
  {
    var c := Repeated(a);
    KeysDiffer();
    FindIsOnly(d2.batches, 0);
    RepeatedSnapshot(a);
    assert FinalizeAward(d2, c.batchId, c.outcomes, c.award).Ok? by {
      ResubmissionAcceptedIff(d2, "b1", c.outcomes, c.award, 0);
    }
  }

  lemma RepeatedSnapshot(a: LotId)
    ensures SnapshotOf("b1", Repeated(a).outcomes, Repeated(a).award, PartiallyAwarded)
         == SnapshotOf("b1", First(a).outcomes, First(a).award, PartiallyAwarded)
    ensures BodyWellFormed(Repeated(a).award) && Repeated(a).award.expectedVersion == 3
  {
  }

  /** The package then names the first decision again. */
  lemma FirstNamedAgain(d2: Db, c: FinalizeCommand)
    requires Invariant(d2) && Commits(d2, c)
    ensures Next(d2, Finalize(c)).package.decisionNumber == c.award.decisionNumber
  {
    CommitNamesDecision(d2, c);
  }

  lemma StillUnclaimed(db: Db, a: LotId, b: LotId)
    requires |db.batches| == 1 && db.batches[0].details.Keys == {a} && a != b && b in db.lots
    ensures b in Unclaimed(db)
  {
  }

  lemma RunGrows(start: Db, before: seq<Step>, s: Step, steps: seq<Step>, after: Db)
    requires steps == before + [s] && after == Next(Run(start, before), s)
    ensures Run(start, steps) == after
  {
    assert steps[..|before|] == before;
  }

  /** A package that is ready for its first batch. */
  ghost predicate ReadyPackage(db: Db) {
    PackageError(db.package).None? && db.package.rowVersion == 1 && db.idempotency == map[] && db.groups == []
  }

  lemma StartTaken(start: Db, a: LotId, steps: seq<Step>)
    requires Initial(start) && ReadyPackage(start) && a in start.lots && steps == [] + [Create(StartOne(a, "b1"))]
    ensures var d := Run(start, steps);
            && ReadyPackage(d) && |d.batches| == 1 && OneLot(d.batches, 0, "b1", a, Active) && d.lots == start.lots
  {
    RunKeepsInvariant(start, []);
    assert Run(start, []) == start;
    var d := FirstStarts(start, a);
    RunGrows(start, [], Create(StartOne(a, "b1")), steps, d);
  }

  lemma FirstStarts(start: Db, a: LotId) returns (d: Db)
    requires Invariant(start) && start.batches == [] && ReadyPackage(start) && a in start.lots
    ensures d == Next(start, Create(StartOne(a, "b1")))
    ensures ReadyPackage(d) && |d.batches| == 1 && OneLot(d.batches, 0, "b1", a, Active) && d.lots == start.lots
  {
    assert !Claimed(start.batches, a);
    OneStarts(start, a, "b1");
    d := CreateBatch(start, StartOne(a, "b1")).value;
  }

  lemma NextStartTaken(start: Db, before: seq<Step>, a: LotId, b: LotId, other: LotId, steps: seq<Step>)
    requires Initial(start) && steps == before + [Create(StartOne(b, "b2"))]
    requires var d := Run(start, before);
             && ReadyPackage(d) && |d.batches| == 1 && OneLot(d.batches, 0, "b1", a, Active)
             && b in d.lots && other in d.lots
    requires a != "" && b != "" && a != b && other != a && other != b
    ensures TwoInWork(Run(start, steps), a, b, other)
  {
    var d := Run(start, before);
    RunKeepsInvariant(start, before);
    StillUnclaimed(d, a, b);
    OneStarts(d, b, "b2");
    var after := CreateBatch(d, StartOne(b, "b2")).value;
    assert after.batches[..1] == d.batches && d.batches[0] == after.batches[0];
    RunGrows(start, before, Create(StartOne(b, "b2")), steps, after);
  }

  lemma FirstTaken(start: Db, before: seq<Step>, a: LotId, b: LotId, other: LotId, steps: seq<Step>)
    requires Initial(start) && TwoInWork(Run(start, before), a, b, other) && steps == before + [Finalize(First(a))]
    ensures OneInWork(Run(start, steps), a, b, other)
  {
    var db := Run(start, before);
    RunKeepsInvariant(start, before);
    KeysDiffer();
    var d1 := OneFinishes(db, 0, First(a), a);
    RunGrows(start, before, Finalize(First(a)), steps, d1);
    RunKeepsInvariant(start, steps);
    FirstFinished(db, a, b, other, d1);
  }

  lemma SecondTaken(start: Db, before: seq<Step>, a: LotId, b: LotId, other: LotId, steps: seq<Step>)
    requires Initial(start) && OneInWork(Run(start, before), a, b, other) && steps == before + [Finalize(Second(b))]
    ensures NoneInWork(Run(start, steps), a)
  {
    var d1 := Run(start, before);
    RunKeepsInvariant(start, before);
    KeysDiffer();
    var d2 := OneFinishes(d1, 1, Second(b), b);
    RunGrows(start, before, Finalize(Second(b)), steps, d2);
    RunKeepsInvariant(start, steps);
    SecondFinished(d1, a, b, other, d2);
  }

  lemma RepeatTaken(start: Db, steps: seq<Step>, a: LotId)
    requires Initial(start) && NoneInWork(Run(start, steps), a)
    ensures var db := Run(start, steps);
            && db.package.decisionNumber == "2" && Commits(db, Repeated(a))
            && Next(db, Finalize(Repeated(a))).package.decisionNumber == "1"
  {
    RunKeepsInvariant(start, steps);
    FirstRepeated(Run(start, steps), a);
    FirstNamedAgain(Run(start, steps), Repeated(a));
  }

  lemma TwoBatchesTaken(start: Db, a: LotId, b: LotId, other: LotId, s1: seq<Step>, s2: seq<Step>)
    requires Initial(start) && ReadyPackage(start) && a in start.lots && b in start.lots && other in start.lots
    requires a != "" && b != "" && a != b && other != a && other != b
    requires s1 == [] + [Create(StartOne(a, "b1"))] && s2 == s1 + [Create(StartOne(b, "b2"))]
    ensures TwoInWork(Run(start, s2), a, b, other)
  {
    StartTaken(start, a, s1);
    NextStartTaken(start, s1, a, b, other, s2);
  }

  lemma BothResultsTaken(
      start: Db, a: LotId, b: LotId, other: LotId, s2: seq<Step>, s3: seq<Step>, s4: seq<Step>)
    requires Initial(start) && TwoInWork(Run(start, s2), a, b, other)
    requires s3 == s2 + [Finalize(First(a))] && s4 == s3 + [Finalize(Second(b))]
    ensures NoneInWork(Run(start, s4), a)
  {
    FirstTaken(start, s2, a, b, other, s3);
    SecondTaken(start, s3, a, b, other, s4);
  }

  function TwoStarts(a: LotId, b: LotId): seq<Step> {
    [] + [Create(StartOne(a, "b1"))] + [Create(StartOne(b, "b2"))]
  }

  /** Two batches are started and finalized. */
  function TwoResults(a: LotId, b: LotId): seq<Step> {
    TwoStarts(a, b) + [Finalize(First(a))] + [Finalize(Second(b))]
  }

  /**
   After a run of two creates and two finalizes on a fresh package with a third lot, repeating the older result is
   accepted, and sets the package's decision back to the older one.
   */
  lemma OlderResultAccepted(start: Db, a: LotId, b: LotId, other: LotId)
    requires Initial(start) && ReadyPackage(start) && a in start.lots && b in start.lots && other in start.lots
    requires a != "" && b != "" && a != b && other != a && other != b
    ensures var db := Run(start, TwoResults(a, b));
            && db.package.decisionNumber == "2" && Commits(db, Repeated(a))
            && Next(db, Finalize(Repeated(a))).package.decisionNumber == "1"
  {
    TwoBatchesTaken(start, a, b, other, [] + [Create(StartOne(a, "b1"))], TwoStarts(a, b));
    BothResultsTaken(start, a, b, other, TwoStarts(a, b), TwoStarts(a, b) + [Finalize(First(a))], TwoResults(a, b));
    RepeatTaken(start, TwoResults(a, b), a);
  }

  /** Such a package. */
  lemma ThreeStartReady()
    ensures Initial(ThreeStart()) && ReadyPackage(ThreeStart()) && ThreeStart().lots.Keys == {"A", "B", "C"}
  {
  }

  /** One such run, on a package of the lots A, B and C. */
  lemma OlderResultOfThree()
    ensures exists start, steps, c ::
              && Initial(start) && Commits(Run(start, steps), c)
              && Run(start, steps).package.decisionNumber == "2"
              && Run(start, steps + [Finalize(c)]).package.decisionNumber == "1"
  {
    ThreeStartReady();
    OlderResultRuns(ThreeStart(), "A", "B", "C");
  }

  lemma OlderResultRuns(start: Db, a: LotId, b: LotId, other: LotId)
    requires Initial(start) && ReadyPackage(start) && a in start.lots && b in start.lots && other in start.lots
    requires a != "" && b != "" && a != b && other != a && other != b
    ensures exists steps, c ::
              && Initial(start) && Commits(Run(start, steps), c)
              && Run(start, steps).package.decisionNumber == "2"
              && Run(start, steps + [Finalize(c)]).package.decisionNumber == "1"
  {
    OlderResultAccepted(start, a, b, other);
    var steps, c := TwoResults(a, b), Repeated(a);
    assert (steps + [Finalize(c)])[..|steps|] == steps;
    assert Commits(Run(start, steps), c);
  }

  lemma KeysDiffer()
    ensures ValidKey("finalize1") && ValidKey("finalize2") && ValidKey("finalize3")
    ensures "finalize1" != "finalize2" && "finalize2" != "finalize3" && "finalize1" != "finalize3"
  {
    assert "finalize1"[8] != "finalize2"[8] && "finalize2"[8] != "finalize3"[8] && "finalize1"[8] != "finalize3"[8];
  }
}
