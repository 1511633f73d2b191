/**
 The lot-lifecycle tables of one package and the commands that change them
 (backend/lot_lifecycle_service.py and the transactions of backend/lot_lifecycle_routes.py),
 as functions from the database before a command to the database after it.
 Module LotStore runs the same commands step by step.
 */
module LotService {
  import opened Wrappers
  import opened Collections
  import opened LotPolicy

  datatype BatchStatus = Draft | Active | Closed | Void

  /** One row of dot_xu_ly_phan_lo_chi_tiet; rows are kept with the batch they reference. */
  datatype Detail = Detail(stage: LotStage, outcome: Option<LotOutcome>, active: bool, revision: nat)

  datatype Batch = Batch(
    id: BatchId, sequenceNo: int, procedure: ProcedureKind, mode: ApprovalMode, status: BatchStatus,
    details: map<LotId, Detail>)

  /** The award columns of goi_thau_phan_lo; a missing winner is the empty string. */
  datatype LotAward = LotAward(winner: string, price: nat, packageDuration: string, contractDuration: string)

  datatype AwardStatus = NotAwarded | PartiallyAwarded | FullyAwarded

  datatype Package = Package(
    present: bool, lotted: bool, procedure: ProcedureKind,
    status: AwardStatus, winner: Option<string>, total: nat,
    decisionNumber: string, decisionDate: string, rowVersion: nat)

  datatype RawLotResult = RawLotResult(
    lotId: string, winner: string, price: int, packageDuration: string, contractDuration: string)

  datatype AwardBody = AwardBody(
    expectedVersion: int, decisionNumber: string, decisionDate: string, metadata: string,
    lotResults: seq<RawLotResult>)

  /** Outcomes by lot; None stands for a value that names no outcome. */
  type Outcomes = map<LotId, Option<LotOutcome>>

  /** The JSON snapshot of an official result. Its SHA-256 is injective, so the snapshot stands for its digest. */
  datatype Snapshot = Snapshot(
    batchId: BatchId, outcomes: Outcomes, lotResults: seq<RawLotResult>, status: AwardStatus,
    decisionNumber: string, decisionDate: string, metadata: string)

  /** A finalize operation name is an injective hash of its scope, so the batch stands for it. */
  datatype IdempotencyKey = IdempotencyKey(actor: string, batchId: BatchId, key: string)

  datatype Reply = Reply(
    packageStatus: PackageStatus, totalLots: nat, completedLots: nat, progress: map<LotId, LotProgress>,
    rowVersion: nat, syncVersion: nat, result: AwardStatus, winner: Option<string>, total: nat)

  /** The request digest is injective, so a row keeps the body itself. */
  datatype IdempotencyRow = IdempotencyRow(outcomes: Outcomes, award: AwardBody, reply: Reply)

  datatype Db = Db(
    lots: map<LotId, LotAward>,
    groups: seq<DependencyGroup>,
    contractors: set<string>,
    package: Package,
    batches: seq<Batch>,
    artifacts: map<BatchId, Snapshot>,
    idempotency: map<IdempotencyKey, IdempotencyRow>,
    syncVersion: nat)

  datatype ServiceError = NotFound | InvalidInput | Blocked(blockers: seq<PolicyBlocker>)

  // ---- reading ------------------------------------------------------------------------------

  /** Position of the batch with the highest sequence number that holds a detail of the lot. */
  function LatestBatch(batches: seq<Batch>, lot: LotId): (r: Option<nat>)
    ensures r.Some? ==> r.value < |batches| && lot in batches[r.value].details
  {
    if batches == [] then None else
      var last := |batches| - 1;
      var earlier := LatestBatch(batches[..last], lot);
      if lot in batches[last].details
         && (earlier.None? || batches[earlier.value].sequenceNo <= batches[last].sequenceNo)
      then Some(last) else earlier
  }

  function ProgressIn(batches: seq<Batch>, lot: LotId): LotProgress {
    match LatestBatch(batches, lot)
    case None => LotProgress(NotStarted, None, None)
    case Some(i) =>
      var d := batches[i].details[lot];
      LotProgress(d.stage, d.outcome, if d.active then Some(batches[i].id) else None)
  }

  function Progress(db: Db): map<LotId, LotProgress> {
    map l | l in db.lots :: ProgressIn(db.batches, l)
  }

  function ContextOf(db: Db): Context {
    Context(Progress(db), db.groups)
  }

  function FindBatch(batches: seq<Batch>, id: BatchId): (r: Option<nat>)
    ensures r.Some? ==> r.value < |batches| && batches[r.value].id == id
    ensures r.None? ==> forall b | b in batches :: b.id != id
  {
    if batches == [] then None
    else if batches[|batches| - 1].id == id then Some(|batches| - 1)
    else FindBatch(batches[..|batches| - 1], id)
  }

  /** COALESCE(MAX(sequence_no), 0) */
  function MaxSequence(batches: seq<Batch>): int {
    if batches == [] then 0 else
      var m := MaxSequence(batches[..|batches| - 1]);
      var s := batches[|batches| - 1].sequenceNo;
      if |batches| == 1 || s > m then s else m
  }

  // ---- create_batch -------------------------------------------------------------------------

  /** mode is None for an unknown approval mode; batchId is the generated record id. */
  datatype CreateCommand = CreateCommand(
    permitted: bool, lotIds: seq<LotId>, mode: Option<ApprovalMode>,
    stagedAuthorized: bool, basis: string, batchId: BatchId)
  {
    function Selected(): set<LotId> { set l | l in lotIds }
  }

  function InitialStage(p: ProcedureKind): LotStage {
    if p == TwoEnvelope then TechnicalDraft else EvaluationDraft
  }

  function NewBatch(db: Db, c: CreateCommand): Batch
    requires c.mode.Some?
  {
    var stage := InitialStage(db.package.procedure);
    Batch(c.batchId, MaxSequence(db.batches) + 1, db.package.procedure, c.mode.value, Active,
      map l | l in c.Selected() :: Detail(stage, None, true, 1))
  }

  function PackageError(p: Package): Option<ServiceError> {
    if !p.present then Some(NotFound) else if !p.lotted then Some(InvalidInput) else None
  }

  function CreateBatch(db: Db, c: CreateCommand): Result<Db, ServiceError> {
    var blockers := ScopeBlockers(ContextOf(db), c.Selected(), None);
    if PackageError(db.package).Some? then Err(PackageError(db.package).value)
    else if c.mode.None? || (c.stagedAuthorized && c.basis == "") then Err(InvalidInput)
    else if blockers != [] then Err(Blocked(blockers))
    else if FindBatch(db.batches, c.batchId).Some? then Err(InvalidInput)
    else Ok(db.(batches := db.batches + [NewBatch(db, c)], syncVersion := db.syncVersion + 1))
  }

  // ---- finalize_batch -----------------------------------------------------------------------

  function ActiveLots(b: Batch): set<LotId> {
    set l | l in b.details && b.details[l].active
  }

  function ClosedDetail(d: Detail, outcome: LotOutcome): Detail {
    Detail(ResultApproved, Some(outcome), false, d.revision + 1)
  }

  function CloseBatch(b: Batch, outcomes: Outcomes): Batch
    requires forall l | l in ActiveLots(b) :: l in outcomes && outcomes[l].Some?
  {
    b.(status := Closed,
       details := map l | l in b.details ::
         if b.details[l].active then
           assert l in ActiveLots(b);
           ClosedDetail(b.details[l], outcomes[l].value)
         else b.details[l])
  }

  function FinalizeBatch(db: Db, batchId: BatchId, outcomes: Outcomes): Result<Db, ServiceError> {
    var found := FindBatch(db.batches, batchId);
    if found.None? then Err(NotFound) else
      var b := db.batches[found.value];
      var lots := ActiveLots(b);
      var blockers := ScopeBlockers(ContextOf(db), lots, Some(batchId));
      if b.status == Closed then Ok(db)
      else if b.status != Active || lots == {} || outcomes.Keys != lots then Err(InvalidInput)
      else if blockers != [] then Err(Blocked(blockers))
      else if exists l | l in lots :: outcomes[l].None? then Err(InvalidInput)
      else Ok(db.(batches := db.batches[found.value := CloseBatch(b, outcomes)]))
  }

  // ---- finalize_batch_award -----------------------------------------------------------------

  function AwardOf(r: RawLotResult): LotAward
    requires r.price >= 0
  {
    LotAward(r.winner, r.price, r.packageDuration, r.contractDuration)
  }

  /** None when some result is malformed or a lot is named twice. */
  function ParseResults(raw: seq<RawLotResult>): Option<map<LotId, LotAward>> {
    if raw == [] then Some(map[]) else
      var last := raw[|raw| - 1];
      var rest := ParseResults(raw[..|raw| - 1]);
      if rest.None? || last.lotId == "" || last.lotId in rest.value || last.price < 0 then None
      else Some(rest.value[last.lotId := AwardOf(last)])
  }

  predicate OutcomesMatch(outcomes: Outcomes, results: map<LotId, LotAward>, contractors: set<string>) {
    && results.Keys == outcomes.Keys
    && forall l | l in outcomes ::
         && outcomes[l].Some?
         && (outcomes[l].value == Awarded <==> results[l].winner != "")
         && (results[l].winner != "" ==> results[l].winner in contractors)
  }

  predicate BodyWellFormed(a: AwardBody) {
    a.expectedVersion >= 1 && a.decisionNumber != "" && a.decisionDate != ""
  }

  function Winners(lots: map<LotId, LotAward>): set<string> {
    set l | l in lots && lots[l].winner != "" :: lots[l].winner
  }

  function SoleWinner(lots: map<LotId, LotAward>): Option<string> {
    var w := Winners(lots);
    if |w| == 1 then Some(TheOnly(w)) else None
  }

  function TheOnly(s: set<string>): (x: string)
    requires |s| == 1
    ensures s == {x}
  {
    SingletonUnique(s);
    var x :| x in s;
    x
  }

  lemma SingletonUnique(s: set<string>)
    requires |s| == 1
    ensures exists x :: s == {x}
    ensures forall x, y | x in s && y in s :: x == y
  {
    var x :| x in s;
    assert s == {x} by {
      if y :| y in s && y != x { assert {x, y} <= s; SubsetSize({x, y}, s); }
    }
  }

  ghost function SumOver(s: set<LotId>, lots: map<LotId, LotAward>): nat
    requires s <= lots.Keys
  {
    if s == {} then 0 else
      var l :| l in s;
      lots[l].price + SumOver(s - {l}, lots)
  }

  ghost function TotalPrice(lots: map<LotId, LotAward>): nat {
    SumOver(lots.Keys, lots)
  }

  function AwardStatusOf(db: Db): AwardStatus {
    if ProjectStatus(Progress(db)) == Completed then FullyAwarded else PartiallyAwarded
  }

  function SnapshotOf(batchId: BatchId, outcomes: Outcomes, a: AwardBody, status: AwardStatus): Snapshot {
    Snapshot(batchId, outcomes, a.lotResults, status, a.decisionNumber, a.decisionDate, a.metadata)
  }

  /** The package, lot and artifact rows written once the batch itself is closed. */
  ghost function RecordResult(
    closed: Db, batchId: BatchId, outcomes: Outcomes, a: AwardBody, results: map<LotId, LotAward>,
    status: AwardStatus): Db
  {
    var lots := closed.lots + results;
    closed.(
      lots := lots,
      package := closed.package.(
        status := status, winner := SoleWinner(lots), total := TotalPrice(lots),
        decisionNumber := a.decisionNumber, decisionDate := a.decisionDate,
        rowVersion := closed.package.rowVersion + 1),
      artifacts := if batchId in closed.artifacts then closed.artifacts
                   else closed.artifacts[batchId := SnapshotOf(batchId, outcomes, a, status)],
      syncVersion := closed.syncVersion + 1)
  }

  ghost function RecordAward(
      closed: Db, batchId: BatchId, outcomes: Outcomes, a: AwardBody, results: map<LotId, LotAward>): Db {
    RecordResult(closed, batchId, outcomes, a, results, AwardStatusOf(closed))
  }

  ghost function FinalizeAward(db: Db, batchId: BatchId, outcomes: Outcomes, a: AwardBody): Result<Db, ServiceError> {
    var results := ParseResults(a.lotResults);
    var closed := FinalizeBatch(db, batchId, outcomes);
    if !BodyWellFormed(a) then Err(InvalidInput)
    else if PackageError(db.package).Some? then Err(PackageError(db.package).value)
    else if db.package.rowVersion != a.expectedVersion then Err(InvalidInput)
    else if results.None? || !OutcomesMatch(outcomes, results.value, db.contractors) then Err(InvalidInput)
    else if closed.Err? then closed
    else if !(results.value.Keys <= db.lots.Keys) then Err(InvalidInput)
    else if batchId in db.artifacts
            && db.artifacts[batchId] != SnapshotOf(batchId, outcomes, a, AwardStatusOf(closed.value))
                then Err(InvalidInput)
    else Ok(RecordAward(closed.value, batchId, outcomes, a, results.value))
  }

  // ---- routes -------------------------------------------------------------------------------

  predicate KeyChar(c: char) {
    'A' <= c <= 'Z' || 'a' <= c <= 'z' || '0' <= c <= '9' || c in "._:-"
  }

  /** The shape of an Idempotency-Key header. */
  predicate ValidKey(key: string) {
    8 <= |key| <= 128 && forall c | c in key :: KeyChar(c)
  }

  /** permitted joins the mutability and authorization checks. */
  datatype FinalizeCommand = FinalizeCommand(
    permitted: bool, actor: string, key: string, batchId: BatchId, outcomes: Outcomes, award: AwardBody)

  datatype Response = Refused | Failed(error: ServiceError) | KeyReused | Answer(reply: Reply)

  function KeyOf(c: FinalizeCommand): IdempotencyKey {
    IdempotencyKey(c.actor, c.batchId, c.key)
  }

  function ReplyOf(db: Db): Reply {
    Reply(ProjectStatus(Progress(db)), |db.lots|, |CompletedLots(Progress(db))|, Progress(db),
      db.package.rowVersion, db.syncVersion, db.package.status, db.package.winner, db.package.total)
  }

  function StoreIdempotency(db: Db, c: FinalizeCommand): Db {
    db.(idempotency := db.idempotency[KeyOf(c) := IdempotencyRow(c.outcomes, c.award, ReplyOf(db))])
  }

  /** The finalize command takes effect, rather than being replayed or refused. */
  ghost predicate Commits(db: Db, c: FinalizeCommand) {
    && c.permitted && ValidKey(c.key) && c.outcomes != map[] && KeyOf(c) !in db.idempotency
    && FinalizeAward(db, c.batchId, c.outcomes, c.award).Ok?
  }

  /** `_finalize_lot_batch_sync`: replay, or finalize and remember the answer; errors roll back. */
  ghost function FinalizeRoute(db: Db, c: FinalizeCommand): (Db, Response) {
    if !c.permitted || !ValidKey(c.key) || c.outcomes == map[] then (db, Refused)
    else if KeyOf(c) in db.idempotency then
      var row := db.idempotency[KeyOf(c)];
      (db, if row.outcomes == c.outcomes && row.award == c.award then Answer(row.reply) else KeyReused)
    else
      match FinalizeAward(db, c.batchId, c.outcomes, c.award)
      case Err(e) => (db, Failed(e))
      case Ok(after) => (StoreIdempotency(after, c), Answer(ReplyOf(after)))
  }

  function CreateRoute(db: Db, c: CreateCommand): Db {
    if !c.permitted then db else
      match CreateBatch(db, c)
      case Err(_) => db
      case Ok(after) => after
  }

  // ---- runs ---------------------------------------------------------------------------------

  datatype Step =
    | Create(create: CreateCommand)
    | Finalize(finalize: FinalizeCommand)
    | PurgeIdempotency(keys: set<IdempotencyKey>)
    | TouchPackage(increment: nat)

  /** One committed transaction, or none: the package row lock serialises them. */
  ghost function Next(db: Db, s: Step): Db {
    match s
    case Create(c) => CreateRoute(db, c)
    case Finalize(c) => FinalizeRoute(db, c).0
    case PurgeIdempotency(keys) => db.(idempotency := db.idempotency - keys)
    case TouchPackage(n) => db.(package := db.package.(rowVersion := db.package.rowVersion + n))
  }

  ghost function Run(db: Db, steps: seq<Step>): Db {
    if steps == [] then db else Next(Run(db, steps[..|steps| - 1]), steps[|steps| - 1])
  }

  /** A package before any batch; its lots may already carry awards written by other screens. */
  ghost predicate Initial(db: Db) {
    db.batches == [] && db.artifacts == map[] && db.idempotency == map[]
  }
}
