/**
 The lot-lifecycle commands as they run against the tables, statement by statement.
 Service commands may fail half way; the routes roll the transaction back.
 */
module LotStore {
  import opened Wrappers
  import opened LotPolicy
  import opened LotService
  import opened LotLedger

  // ---- _lot_progress ------------------------------------------------------------------------

  /** One row of the detail/batch join. */
  datatype JoinRow = JoinRow(lot: LotId, batchId: BatchId, sequenceNo: int, detail: Detail)

  function RowOf(b: Batch, l: LotId): JoinRow
    requires l in b.details
  {
    JoinRow(l, b.id, b.sequenceNo, b.details[l])
  }

  ghost predicate RowsAreDetails(rows: seq<JoinRow>, batches: seq<Batch>) {
    forall r | r in rows :: exists n ::
        0 <= n < |batches| && r.lot in batches[n].details && r == RowOf(batches[n], r.lot)
  }

  ghost predicate DetailsAreRows(rows: seq<JoinRow>, batches: seq<Batch>) {
    forall n, l | 0 <= n < |batches| && l in batches[n].details :: RowOf(batches[n], l) in rows
  }

  ghost predicate Descending(rows: seq<JoinRow>) {
    forall i, j | 0 <= i < j < |rows| && rows[i].lot == rows[j].lot :: rows[i].sequenceNo >= rows[j].sequenceNo
  }

  /** rows lists the join, each lot's rows by descending sequence number, as the query orders them. */
  ghost predicate OrderedJoin(rows: seq<JoinRow>, batches: seq<Batch>) {
    RowsAreDetails(rows, batches) && DetailsAreRows(rows, batches) && Descending(rows)
  }

  /** UNIQUE(organization_id, goi_thau_id, sequence_no) */
  ghost predicate SequencesUnique(batches: seq<Batch>) {
    forall i, j | 0 <= i < j < |batches| :: batches[i].sequenceNo != batches[j].sequenceNo
  }

  lemma {:induction false} LatestIsMaximal(batches: seq<Batch>, lot: LotId)
    ensures LatestBatch(batches, lot).None? ==> forall b | b in batches :: lot !in b.details
    ensures LatestBatch(batches, lot).Some? ==>
              forall b | b in batches && lot in b.details ::
                  b.sequenceNo <= batches[LatestBatch(batches, lot).value].sequenceNo
  {
    if batches != [] {
      var last := |batches| - 1;
      LatestIsMaximal(batches[..last], lot);
      assert batches == batches[..last] + [batches[last]];
    }
  }

  lemma {:induction false} MaxIsHighest(batches: seq<Batch>)
    ensures forall b | b in batches :: b.sequenceNo <= MaxSequence(batches)
  {
    if batches != [] {
      MaxIsHighest(batches[..|batches| - 1]);
      assert batches == batches[..|batches| - 1] + [batches[|batches| - 1]];
    }
  }

  function ProgressOfRow(r: JoinRow): LotProgress {
    LotProgress(r.detail.stage, r.detail.outcome, if r.detail.active then Some(r.batchId) else None)
  }

  /** With unique sequence numbers, a holder of the lot with no higher number is the latest one. */
  lemma HighestIsLatest(batches: seq<Batch>, lot: LotId, n: nat)
    requires SequencesUnique(batches) && n < |batches| && lot in batches[n].details
    requires LatestBatch(batches, lot).Some? ==>
        batches[LatestBatch(batches, lot).value].sequenceNo <= batches[n].sequenceNo
    ensures LatestBatch(batches, lot) == Some(n)
  {
    LatestIsMaximal(batches, lot);
    assert batches[n] in batches;
  }

  lemma FirstRowIsHighest(rows: seq<JoinRow>, batches: seq<Batch>, i: nat, k: nat)
    requires DetailsAreRows(rows, batches) && Descending(rows)
    requires i < |rows| && forall j | 0 <= j < i :: rows[j].lot != rows[i].lot
    requires k < |batches| && rows[i].lot in batches[k].details
    ensures batches[k].sequenceNo <= rows[i].sequenceNo
  {
    var r := RowOf(batches[k], rows[i].lot);
    var j :| 0 <= j < |rows| && rows[j] == r;
    assert i <= j;
  }

  lemma FirstRowIsLatest(rows: seq<JoinRow>, batches: seq<Batch>, i: nat)
    requires OrderedJoin(rows, batches) && SequencesUnique(batches)
    requires i < |rows| && forall j | 0 <= j < i :: rows[j].lot != rows[i].lot
    ensures ProgressOfRow(rows[i]) == ProgressIn(batches, rows[i].lot)
  {
    var r := rows[i];
    var n :| 0 <= n < |batches| && r.lot in batches[n].details && r == RowOf(batches[n], r.lot);
    var latest := LatestBatch(batches, r.lot);
    assert latest.Some? ==> batches[latest.value].sequenceNo <= batches[n].sequenceNo by {
      if latest.Some? { FirstRowIsHighest(rows, batches, i, latest.value); }
    }
    HighestIsLatest(batches, r.lot, n);
    LatestDecidesProgress(batches, r.lot, n);
  }

  lemma LatestDecidesProgress(batches: seq<Batch>, lot: LotId, n: nat)
    requires LatestBatch(batches, lot) == Some(n)
    ensures ProgressIn(batches, lot) == ProgressOfRow(RowOf(batches[n], lot))
  {
  }

  ghost predicate FirstAt(rows: seq<JoinRow>, i: nat, l: LotId) {
    i < |rows| && rows[i].lot == l && forall j | 0 <= j < i :: rows[j].lot != l
  }

  ghost predicate KeepsFirst(rows: seq<JoinRow>, latest: map<LotId, JoinRow>) {
    && (forall r | r in rows :: r.lot in latest)
    && (forall l | l in latest :: exists i: nat :: FirstAt(rows, i, l) && latest[l] == rows[i])
  }

  /** `latest_details`: the first row met of every lot. */
  method FirstRows(rows: seq<JoinRow>) returns (latest: map<LotId, JoinRow>)
    ensures KeepsFirst(rows, latest)
  {
    latest := map[];
    for i := 0 to |rows|
      invariant forall j | 0 <= j < i :: rows[j].lot in latest
      invariant forall l | l in latest :: exists k: nat :: k < i && FirstAt(rows, k, l) && latest[l] == rows[k]
    {
      if rows[i].lot !in latest {
        latest := latest[rows[i].lot := rows[i]];
        assert FirstAt(rows, i, rows[i].lot);
      }
    }
  }

  lemma RowsDecideProgress(rows: seq<JoinRow>, batches: seq<Batch>, latest: map<LotId, JoinRow>, l: LotId)
    requires OrderedJoin(rows, batches) && SequencesUnique(batches) && KeepsFirst(rows, latest)
    ensures ProgressIn(batches, l) == if l in latest then ProgressOfRow(latest[l])
        else LotProgress(NotStarted, None, None)
  {
    if l in latest {
      var i: nat :| FirstAt(rows, i, l) && latest[l] == rows[i];
      FirstRowIsLatest(rows, batches, i);
    }
  }

  /** `_lot_progress`: reads each lot of the package from the first row its query returned for it. */
  method ReadProgress(lots: set<LotId>, rows: seq<JoinRow>, ghost batches: seq<Batch>)
    returns (m: map<LotId, LotProgress>)
    requires OrderedJoin(rows, batches) && SequencesUnique(batches)
    ensures m == map l | l in lots :: ProgressIn(batches, l)
  {
    var latest := FirstRows(rows);
    m := map l | l in lots :: if l in latest then ProgressOfRow(latest[l]) else LotProgress(NotStarted, None, None);
    forall l | l in lots ensures m[l] == ProgressIn(batches, l) {
      RowsDecideProgress(rows, batches, latest, l);
    }
  }

  /** The join, ordered by descending sequence number. */
  method QueryDetails(batches: seq<Batch>) returns (rows: seq<JoinRow>)
    ensures OrderedJoin(rows, batches)
  {
    rows := [];
    ghost var done: set<nat> := {};
    var rest: set<nat> := {};
    for n := 0 to |batches|
      invariant forall k :: k in rest <==> 0 <= k < n
    {
      rest := rest + {n};
    }
    while rest != {}
      invariant forall n :: n in rest || n in done <==> 0 <= n < |batches|
      invariant forall n | n in done :: n !in rest
      invariant JoinOf(rows, batches, done)
      invariant forall n, r | n in rest && r in rows :: batches[n].sequenceNo <= r.sequenceNo
      decreases |rest|
    {
      var top := Highest(batches, rest);
      var added := RowsOf(batches[top]);
      JoinGrows(rows, batches, done, top, added);
      rows := rows + added;
      rest, done := rest - {top}, done + {top};
    }
  }

  /** rows are exactly the details of the batches done, by descending sequence number. */
  ghost predicate JoinOf(rows: seq<JoinRow>, batches: seq<Batch>, done: set<nat>) {
    && (forall r | r in rows :: exists n :: n in done && IsRow(batches, n, r))
    && (forall n, l | n in done && n < |batches| && l in batches[n].details :: RowOf(batches[n], l) in rows)
    && (forall i, j | 0 <= i < j < |rows| :: rows[i].sequenceNo >= rows[j].sequenceNo)
  }

  ghost predicate IsRow(batches: seq<Batch>, n: nat, r: JoinRow) {
    n < |batches| && r.lot in batches[n].details && r == RowOf(batches[n], r.lot)
  }

  lemma JoinGrows(rows: seq<JoinRow>, batches: seq<Batch>, done: set<nat>, n: nat, added: seq<JoinRow>)
    requires JoinOf(rows, batches, done) && n < |batches|
    requires forall r :: r in added <==> IsRow(batches, n, r)
    requires forall r | r in rows :: batches[n].sequenceNo <= r.sequenceNo
    ensures JoinOf(rows + added, batches, done + {n})
  {
    var all := rows + added;
    forall r | r in all ensures exists k :: k in done + {n} && IsRow(batches, k, r) {
      if r in rows {
        var k :| k in done && IsRow(batches, k, r);
        assert k in done + {n};
      } else {
        assert r in added && n in done + {n};
      }
    }
    forall k, l | k in done + {n} && k < |batches| && l in batches[k].details ensures RowOf(batches[k], l) in all {
      if k == n { assert IsRow(batches, n, RowOf(batches[n], l)); }
    }
    forall i, j | 0 <= i < j < |all| ensures all[i].sequenceNo >= all[j].sequenceNo {
      if j >= |rows| {
        assert all[j] in added;
        if i < |rows| { assert all[i] in rows; } else { assert all[i] in added; }
      }
    }
  }

  method Highest(batches: seq<Batch>, among: set<nat>) returns (top: nat)
    requires among != {} && forall n | n in among :: n < |batches|
    ensures top in among && forall n | n in among :: batches[n].sequenceNo <= batches[top].sequenceNo
  {
    top :| top in among;
    var rest := among - {top};
    while rest != {}
      invariant top in among && rest <= among
      invariant forall n | n in among - rest :: batches[n].sequenceNo <= batches[top].sequenceNo
      decreases |rest|
    {
      var n :| n in rest;
      if batches[n].sequenceNo > batches[top].sequenceNo {
        top := n;
      }
      rest := rest - {n};
    }
  }

  method RowsOf(b: Batch) returns (rows: seq<JoinRow>)
    ensures forall r :: r in rows <==> r.lot in b.details && r == RowOf(b, r.lot)
  {
    rows := [];
    var rest := b.details.Keys;
    while rest != {}
      invariant rest <= b.details.Keys
      invariant forall r :: r in rows <==> r.lot in b.details && r.lot !in rest && r == RowOf(b, r.lot)
      decreases |rest|
    {
      var l :| l in rest;
      rows := rows + [RowOf(b, l)];
      rest := rest - {l};
    }
  }

  /** COALESCE(MAX(sequence_no), 0) */
  method HighestSequence(batches: seq<Batch>) returns (m: int)
    ensures m == MaxSequence(batches)
  {
    m := 0;
    for i := 0 to |batches|
      invariant m == MaxSequence(batches[..i])
    {
      assert batches[..i + 1][..i] == batches[..i];
      if i == 0 || batches[i].sequenceNo > m {
        m := batches[i].sequenceNo;
      }
    }
    assert batches[..|batches|] == batches;
  }

  /** The lots of a set, in some order. */
  method Listed(lots: set<LotId>) returns (ids: seq<LotId>)
    ensures (set l | l in ids) == lots
  {
    ids := [];
    var rest := lots;
    while rest != {}
      invariant rest <= lots && forall x :: x in ids <==> x in lots && x !in rest
      decreases |rest|
    {
      var l :| l in rest;
      ids := ids + [l];
      rest := rest - {l};
    }
  }

  // ---- finalize_batch_award, reading the body -----------------------------------------------

  lemma {:induction false} ParsePrefix(raw: seq<RawLotResult>, i: nat)
    requires i <= |raw| && ParseResults(raw[..i]).None?
    ensures ParseResults(raw).None?
  {
    if i == |raw| {
      assert raw[..i] == raw;
    } else {
      assert raw[..|raw| - 1][..i] == raw[..i];
      ParsePrefix(raw[..|raw| - 1], i);
    }
  }

  method ReadResults(raw: seq<RawLotResult>) returns (r: Option<map<LotId, LotAward>>)
    ensures r == ParseResults(raw)
  {
    var results: map<LotId, LotAward> := map[];
    for i := 0 to |raw|
      invariant ParseResults(raw[..i]) == Some(results)
    {
      var x := raw[i];
      assert raw[..i + 1][..i] == raw[..i];
      if x.lotId == "" || x.lotId in results || x.price < 0 {
        ParsePrefix(raw, i + 1);
        return None;
      }
      results := results[x.lotId := LotAward(x.winner, x.price, x.packageDuration, x.contractDuration)];
    }
    assert raw[..|raw|] == raw;
    return Some(results);
  }

  method CheckOutcomes(outcomes: Outcomes, results: map<LotId, LotAward>, contractors: set<string>) returns (ok: bool)
    ensures ok == OutcomesMatch(outcomes, results, contractors)
  {
    if results.Keys != outcomes.Keys {
      return false;
    }
    var rest := outcomes.Keys;
    while rest != {}
      invariant rest <= outcomes.Keys
      invariant forall l | l in outcomes && l !in rest ::
                  outcomes[l].Some? && (outcomes[l].value == Awarded <==> results[l].winner != "")
      decreases |rest|
    {
      var l :| l in rest;
      if outcomes[l].None?
        || (outcomes[l].value == Awarded && results[l].winner == "")
        || (outcomes[l].value != Awarded && results[l].winner != "") {
        return false;
      }
      rest := rest - {l};
    }
    var winners := Winners(results);
    ok := winners <= contractors;
    assert forall l | l in results && results[l].winner != "" :: results[l].winner in winners;
  }

  // ---- the tables ---------------------------------------------------------------------------

  class LotTables {
    const groups: seq<DependencyGroup>
    const contractors: set<string>
    var lots: map<LotId, LotAward>
    var package: Package
    var batches: seq<Batch>
    var artifacts: map<BatchId, Snapshot>
    var idempotency: map<IdempotencyKey, IdempotencyRow>
    var syncVersion: nat

    function Value(): Db
      reads this
    {
      Db(lots, groups, contractors, package, batches, artifacts, idempotency, syncVersion)
    }

    /** The schema's unique constraint on a package's sequence numbers. */
    ghost predicate Valid()
      reads this
    {
      SequencesUnique(batches)
    }

    constructor (db: Db)
      requires SequencesUnique(db.batches)
      ensures Value() == db && Valid()
    {
      groups, contractors := db.groups, db.contractors;
      lots, package, batches := db.lots, db.package, db.batches;
      artifacts, idempotency, syncVersion := db.artifacts, db.idempotency, db.syncVersion;
    }

    /** ROLLBACK to the tables as they were when the transaction began. */
    method Rollback(saved: Db)
      requires saved.groups == groups && saved.contractors == contractors
      modifies this
      ensures Value() == saved
    {
      lots, package, batches := saved.lots, saved.package, saved.batches;
      artifacts, idempotency, syncVersion := saved.artifacts, saved.idempotency, saved.syncVersion;
    }

    /** `_context`: the progress of every lot, read back from the detail rows. */
    method ReadContext() returns (ctx: Context)
      requires Valid()
      ensures ctx == ContextOf(Value())
    {
      var rows := QueryDetails(batches);
      var progress := ReadProgress(lots.Keys, rows, batches);
      assert progress == Progress(Value());
      ctx := Context(progress, groups);
    }

    method CreateBatch(c: CreateCommand) returns (failure: Option<ServiceError>)
      requires Valid()
      modifies this
      ensures Valid()
      ensures match LotService.CreateBatch(old(Value()), c)
              case Ok(after) => failure == None && Value() == after
              case Err(e) => failure == Some(e)
    {
      if !package.present {
        return Some(NotFound);
      }
      if !package.lotted || c.mode.None? || (c.stagedAuthorized && c.basis == "") {
        return Some(InvalidInput);
      }
      var ctx := ReadContext();
      var decision := AssessScope(ctx, c.lotIds, None);
      assert decision.selected == c.Selected();
      if !decision.Allowed() {
        return Some(Blocked(decision.blockers));
      }
      syncVersion := syncVersion + 1;
      if FindBatch(batches, c.batchId).Some? {
        return Some(InvalidInput);
      }
      InsertBatch(c, decision.selected);
      return None;
    }

    /** INSERT of the batch and its details under the next sequence number. */
    method InsertBatch(c: CreateCommand, selected: set<LotId>)
      requires Valid() && c.mode.Some? && selected == c.Selected()
      modifies this`batches
      ensures Valid() && batches == old(batches) + [NewBatch(old(Value()), c)]
    {
      var highest := HighestSequence(batches);
      MaxIsHighest(batches);
      var stage := if package.procedure == TwoEnvelope then TechnicalDraft else EvaluationDraft;
      var details := InsertDetails(selected, stage);
      assert forall i | 0 <= i < |batches| :: batches[i] in batches;
      batches := batches + [Batch(c.batchId, highest + 1, package.procedure, c.mode.value, Active, details)];
    }

    /** INSERT of one detail per selected lot. */
    method InsertDetails(selected: set<LotId>, stage: LotStage) returns (details: map<LotId, Detail>)
      ensures details == map l | l in selected :: Detail(stage, None, true, 1)
    {
      details := map[];
      var rest := selected;
      while rest != {}
        invariant rest <= selected && details.Keys == selected - rest
        invariant forall l | l in details :: details[l] == Detail(stage, None, true, 1)
        decreases |rest|
      {
        var l :| l in rest;
        details := details[l := Detail(stage, None, true, 1)];
        rest := rest - {l};
      }
    }

    /** UPDATE of the active details of one batch, lot by lot. */
    method ApproveDetails(b: Batch, outcomes: Outcomes) returns (r: Batch)
      requires outcomes.Keys == ActiveLots(b) && forall l | l in outcomes :: outcomes[l].Some?
      ensures r == CloseBatch(b, outcomes)
    {
      var details := b.details;
      var rest := outcomes.Keys;
      while rest != {}
        invariant rest <= outcomes.Keys
        invariant details.Keys == b.details.Keys
        invariant forall l | l in b.details ::
                    details[l] == if l in outcomes && l !in rest then ClosedDetail(b.details[l], outcomes[l].value)
                        else b.details[l]
        decreases |rest|
      {
        var l :| l in rest;
        details := details[l := Detail(ResultApproved, Some(outcomes[l].value), false, details[l].revision + 1)];
        rest := rest - {l};
      }
      r := b.(status := Closed, details := details);
      assert r.details == CloseBatch(b, outcomes).details;
    }

    /** The publication re-check of the batch's active lots. */
    method Recheck(batchId: BatchId, active: set<LotId>) returns (blockers: seq<PolicyBlocker>)
      requires Valid()
      ensures blockers == ScopeBlockers(ContextOf(Value()), active, Some(batchId))
    {
      var ctx := ReadContext();
      var ids := Listed(active);
      var publication := AssessScope(ctx, ids, Some(batchId));
      blockers := publication.blockers;
    }

    method FinalizeBatch(batchId: BatchId, outcomes: Outcomes) returns (failure: Option<ServiceError>)
      requires Valid()
      modifies this`batches
      ensures Valid()
      ensures match LotService.FinalizeBatch(old(Value()), batchId, outcomes)
              case Ok(after) => failure == None && Value() == after
              case Err(e) => failure == Some(e)
    {
      var found := FindBatch(batches, batchId);
      if found.None? {
        return Some(NotFound);
      }
      var b := batches[found.value];
      if b.status == Closed {
        return None;
      }
      var active := ActiveLots(b);
      if b.status != Active || active == {} || outcomes.Keys != active {
        return Some(InvalidInput);
      }
      var blockers := Recheck(batchId, active);
      if blockers != [] {
        return Some(Blocked(blockers));
      }
      if exists l | l in active :: outcomes[l].None? {
        return Some(InvalidInput);
      }
      var closed := ApproveDetails(b, outcomes);
      batches := batches[found.value := closed];
      return None;
    }

    /** UPDATE of the lot rows; false when some lot is not a lot of the package. */
    method WriteAwards(results: map<LotId, LotAward>) returns (ok: bool)
      modifies this`lots
      ensures ok == (results.Keys <= old(lots).Keys)
      ensures ok ==> lots == old(lots) + results
    {
      var rest := results.Keys;
      while rest != {}
        invariant rest <= results.Keys
        invariant lots.Keys == old(lots).Keys && results.Keys - rest <= lots.Keys
        invariant forall l | l in lots :: lots[l] == if l in results && l !in rest then results[l] else old(lots)[l]
        decreases |rest|
      {
        var l :| l in rest;
        if l !in lots {
          return false;
        }
        lots := lots[l := results[l]];
        rest := rest - {l};
      }
      assert results.Keys - rest == results.Keys;
      return true;
    }

    method FinalizeAward(batchId: BatchId, outcomes: Outcomes, a: AwardBody) returns (failure: Option<ServiceError>)
      requires Valid()
      modifies this
      ensures Valid()
      ensures match LotService.FinalizeAward(old(Value()), batchId, outcomes, a)
              case Ok(after) => failure == None && Value() == after
              case Err(e) => failure == Some(e)
    {
      if a.expectedVersion < 1 || a.decisionNumber == "" || a.decisionDate == "" {
        return Some(InvalidInput);
      }
      if !package.present {
        return Some(NotFound);
      }
      if !package.lotted || package.rowVersion != a.expectedVersion {
        return Some(InvalidInput);
      }
      var results := ReadResults(a.lotResults);
      if results.None? {
        return Some(InvalidInput);
      }
      var valid := CheckOutcomes(outcomes, results.value, contractors);
      if !valid {
        return Some(InvalidInput);
      }
      failure := FinalizeBatch(batchId, outcomes);
      if failure.Some? {
        return;
      }
      var ctx := ReadContext();
      var lifecycle := ProjectStatus(ctx.lots);
      var status := if lifecycle == Completed then FullyAwarded else PartiallyAwarded;
      var recorded := RecordResult(batchId, outcomes, a, results.value, status);
      return if recorded then None else Some(InvalidInput);
    }

    /** The rows written once the batch is closed. */
    method RecordResult(
        batchId: BatchId, outcomes: Outcomes, a: AwardBody, results: map<LotId, LotAward>, status: AwardStatus)
      returns (ok: bool)
      modifies this
      ensures batches == old(batches)
      ensures ok == (results.Keys <= old(lots).Keys
                     && (batchId in old(artifacts) ==>
                         old(artifacts)[batchId] == SnapshotOf(batchId, outcomes, a, status)))
      ensures ok ==> Value() == LotService.RecordResult(old(Value()), batchId, outcomes, a, results, status)
    {
      ghost var expected := LotService.RecordResult(Value(), batchId, outcomes, a, results, status);
      syncVersion := syncVersion + 1;
      ok := WriteAwards(results);
      if ok {
        assert lots == expected.lots;
        WritePackage(status, a);
        assert package == expected.package;
        ok := StoreArtifact(Snapshot(batchId, outcomes, a.lotResults, status, a.decisionNumber, a.decisionDate,
            a.metadata));
        assert ok ==> artifacts == expected.artifacts;
        assert lots == expected.lots && package == expected.package && syncVersion == expected.syncVersion;
      }
    }

    /** UPDATE of the package row. */
    method WritePackage(status: AwardStatus, a: AwardBody)
      modifies this`package
      ensures package == old(package).(
                status := status, winner := SoleWinner(lots), total := TotalPrice(lots),
                decisionNumber := a.decisionNumber, decisionDate := a.decisionDate,
                rowVersion := old(package).rowVersion + 1)
    {
      var total := TotalOf(lots);
      package := package.(
        status := status, winner := SoleWinner(lots), total := total,
        decisionNumber := a.decisionNumber, decisionDate := a.decisionDate,
        rowVersion := package.rowVersion + 1);
    }

    /** INSERT ... ON CONFLICT DO NOTHING of the official artifact; false if a different one is stored. */
    method StoreArtifact(snapshot: Snapshot) returns (ok: bool)
      modifies this`artifacts
      ensures ok <==> snapshot.batchId !in old(artifacts) || old(artifacts)[snapshot.batchId] == snapshot
      ensures snapshot.batchId in old(artifacts) ==> artifacts == old(artifacts)
      ensures snapshot.batchId !in old(artifacts) ==> artifacts == old(artifacts)[snapshot.batchId := snapshot]
    {
      if snapshot.batchId !in artifacts {
        artifacts := artifacts[snapshot.batchId := snapshot];
        return true;
      }
      return artifacts[snapshot.batchId] == snapshot;
    }

    /** `_create_lot_batch_sync` */
    method CreateRoute(c: CreateCommand) returns (created: bool)
      requires Valid()
      modifies this
      ensures Valid()
      ensures Value() == Next(old(Value()), Create(c))
      ensures created <==> c.permitted && LotService.CreateBatch(old(Value()), c).Ok?
    {
      if !c.permitted {
        return false;
      }
      var saved := Value();
      var failure := CreateBatch(c);
      if failure.Some? {
        Rollback(saved);
      }
      return failure.None?;
    }

    /** `_finalize_lot_batch_sync` */
    method FinalizeRoute(c: FinalizeCommand) returns (response: Response)
      requires Valid()
      modifies this
      ensures Valid()
      ensures (Value(), response) == LotService.FinalizeRoute(old(Value()), c)
    {
      if !c.permitted || !ValidKey(c.key) || c.outcomes == map[] {
        return Refused;
      }
      var key := IdempotencyKey(c.actor, c.batchId, c.key);
      if key in idempotency {
        var row := idempotency[key];
        return if row.outcomes != c.outcomes || row.award != c.award then KeyReused else Answer(row.reply);
      }
      var saved := Value();
      var failure := FinalizeAward(c.batchId, c.outcomes, c.award);
      if failure.Some? {
        Rollback(saved);
        return Failed(failure.value);
      }
      var reply := ReplyOf(Value());
      idempotency := idempotency[key := IdempotencyRow(c.outcomes, c.award, reply)];
      return Answer(reply);
    }
  }
}
