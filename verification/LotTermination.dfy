/** Lot processing always moves forward and can always be finished. */
module LotTermination {
  import opened Wrappers
  import opened Collections
  import opened LotPolicy
  import opened LotService
  import opened LotInvariant
  import opened LotRuns

  ghost predicate Claimed(batches: seq<Batch>, l: LotId) {
    exists b | b in batches :: l in b.details
  }

  ghost predicate WorkedOn(batches: seq<Batch>, l: LotId) {
    exists b | b in batches :: b.status == Active && l in b.details
  }

  ghost function Unclaimed(db: Db): set<LotId> {
    set l | l in db.lots && !Claimed(db.batches, l)
  }

  ghost function InWork(db: Db): set<LotId> {
    set l | l in db.lots && WorkedOn(db.batches, l)
  }

  /** Twice the unclaimed lots plus the lots in work. */
  ghost function Potential(db: Db): nat {
    2 * |Unclaimed(db)| + |InWork(db)|
  }

  function Rank(s: PackageStatus): nat {
    match s
    case PackageNotStarted => 0
    case InProgress => 1
    case PartiallyCompleted => 2
    case Completed => 3
  }

  ghost function StatusOf(db: Db): PackageStatus {
    ProjectStatus(Progress(db))
  }

  /** The step creates a batch, or closes one for the first time. */
  ghost predicate Advances(db: Db, s: Step) {
    match s
    case Create(c) => c.permitted && CreateBatch(db, c).Ok?
    case Finalize(c) => Commits(db, c) && db.batches[FindBatch(db.batches, c.batchId).value].status == Active
    case _ => false
  }

  lemma CreateLowersPotential(db: Db, c: CreateCommand)
    requires Invariant(db) && CreateBatch(db, c).Ok?
    ensures Potential(CreateBatch(db, c).value) < Potential(db)
    ensures Unclaimed(CreateBatch(db, c).value) <= Unclaimed(db)
  {
    var after, b := CreateBatch(db, c).value, NewBatch(db, c);
    NewBatchJoins(db, c);
    JoinKeepsStructure(db, b, after);
    JoinMovesLots(db, b, after);
    PotentialFalls(Unclaimed(db), InWork(db), b.details.Keys, Unclaimed(after), InWork(after));
  }

  lemma JoinMovesLots(db: Db, b: Batch, after: Db)
    requires Joinable(db, b) && b.status == Active && after.lots == db.lots && after.batches == db.batches + [b]
    requires forall x :: x in after.batches <==> x in db.batches || x == b
    ensures b.details.Keys <= Unclaimed(db) && b.details.Keys != {}
    ensures Unclaimed(after) == Unclaimed(db) - b.details.Keys && InWork(after) == InWork(db) + b.details.Keys
  {
    forall l ensures Claimed(after.batches, l) <==> Claimed(db.batches, l) || l in b.details {}
    forall l ensures WorkedOn(after.batches, l) <==> WorkedOn(db.batches, l) || l in b.details {}
  }

  lemma PotentialFalls(free: set<LotId>, work: set<LotId>, moved: set<LotId>, free': set<LotId>, work': set<LotId>)
    requires moved <= free && moved != {} && free' == free - moved && work' == work + moved
    ensures 2 * |free'| + |work'| < 2 * |free| + |work|
  {
    assert free == free' + moved;
    assert |work'| <= |work| + |moved| by { assert work' == work + (moved - work); SubsetSize(moved - work, moved); }
  }

  lemma CloseKeepsClaim(batches: seq<Batch>, i: nat, b: Batch, l: LotId)
    requires i < |batches| && b.details.Keys == batches[i].details.Keys
    ensures Claimed(batches[i := b], l) <==> Claimed(batches, l)
  {
    var closed := batches[i := b];
    if x :| x in batches && l in x.details {
      var j :| 0 <= j < |batches| && batches[j] == x;
      assert closed[j] in closed && l in closed[j].details;
    }
    if x :| x in closed && l in x.details {
      var j :| 0 <= j < |closed| && closed[j] == x;
      assert batches[j] in batches && l in batches[j].details;
    }
  }

  /** Closing batch i leaves every claim in place and ends the work on exactly its lots. */
  lemma CloseMovesLot(batches: seq<Batch>, i: nat, b: Batch, l: LotId)
    requires Numbered(batches) && i < |batches| && batches[i].status == Active
    requires b.status == Closed && b.details.Keys == batches[i].details.Keys
    ensures Claimed(batches[i := b], l) <==> Claimed(batches, l)
    ensures WorkedOn(batches[i := b], l) <==> WorkedOn(batches, l) && l !in b.details
  {
    CloseKeepsClaim(batches, i, b, l);
    var closed := batches[i := b];
    if x :| x in batches && x.status == Active && l in x.details && l !in b.details {
      var j :| 0 <= j < |batches| && batches[j] == x;
      assert closed[j] in closed;
    }
    if x :| x in closed && x.status == Active && l in x.details {
      var j :| 0 <= j < |closed| && closed[j] == x;
      assert j != i && batches[j] in batches;
      assert batches[j].details.Keys !! batches[i].details.Keys;
    }
  }

  lemma WorkShrinks(db: Db, closed: Db, gone: set<LotId>, l: LotId)
    requires closed.lots.Keys == db.lots.Keys && l in gone && l in InWork(db)
    requires forall x :: WorkedOn(closed.batches, x) <==> WorkedOn(db.batches, x) && x !in gone
    ensures |InWork(closed)| < |InWork(db)|
  {
    SubsetSize(InWork(closed), InWork(db) - {l});
  }

  lemma CloseMovesLots(db: Db, i: nat, b: Batch, closed: Db)
    requires Numbered(db.batches) && i < |db.batches| && db.batches[i].status == Active
    requires b.status == Closed && b.details.Keys == db.batches[i].details.Keys
    requires b.details != map[] && b.details.Keys <= db.lots.Keys
    requires closed.batches == db.batches[i := b] && closed.lots.Keys == db.lots.Keys
    ensures Unclaimed(closed) == Unclaimed(db) && |InWork(closed)| < |InWork(db)|
  {
    forall l
      ensures Claimed(closed.batches, l) <==> Claimed(db.batches, l)
      ensures WorkedOn(closed.batches, l) <==> WorkedOn(db.batches, l) && l !in b.details.Keys
    {
      CloseMovesLot(db.batches, i, b, l);
    }
    var l :| l in b.details.Keys;
    assert db.batches[i] in db.batches;
    assert WorkedOn(db.batches, l);
    WorkShrinks(db, closed, b.details.Keys, l);
  }

  /** The batches a first finalize leaves. */
  lemma CommitCloses(db: Db, c: FinalizeCommand, i: nat)
    requires Commits(db, c) && FindBatch(db.batches, c.batchId) == Some(i)
    requires db.batches[i].status == Active
    ensures c.outcomes.Keys == ActiveLots(db.batches[i])
    ensures forall l | l in ActiveLots(db.batches[i]) :: l in c.outcomes && c.outcomes[l].Some?
    ensures FinalizeRoute(db, c).0.batches == db.batches[i := CloseBatch(db.batches[i], c.outcomes)]
    ensures FinalizeRoute(db, c).0.lots.Keys == db.lots.Keys && FinalizeRoute(db, c).0.groups == db.groups
  {
    var after := CommitUnfolds(db, c);
    var j, results := AwardUnfolds(db, c.batchId, c.outcomes, c.award);
    ClosedUnfolds(db, c.batchId, c.outcomes, i);
    assert (db.lots + results).Keys == db.lots.Keys;
  }

  lemma SameBatchesSamePotential(x: Db, y: Db)
    requires x.batches == y.batches && x.lots.Keys == y.lots.Keys
    ensures Unclaimed(x) == Unclaimed(y) && InWork(x) == InWork(y) && Potential(x) == Potential(y)
  {
    assert Unclaimed(x) == Unclaimed(y);
    assert InWork(x) == InWork(y);
  }

  lemma CloseLowersPotential(db: Db, c: FinalizeCommand, i: nat)
    requires Structured(db) && Commits(db, c) && FindBatch(db.batches, c.batchId) == Some(i)
    requires db.batches[i].status == Active
    ensures Potential(FinalizeRoute(db, c).0) < Potential(db)
    ensures Unclaimed(FinalizeRoute(db, c).0) <= Unclaimed(db)
    ensures forall l :: Approved(FinalizeRoute(db, c).0.batches, l) <==> Approved(db.batches, l) || l in c.outcomes
  {
    CommitCloses(db, c, i);
    ActiveLotsAll(db, db.batches[i]);
    var after, b := FinalizeRoute(db, c).0, CloseBatch(db.batches[i], c.outcomes);
    assert db.batches[i] in db.batches && BatchShape(db.batches[i], db.lots.Keys);
    assert b.details.Keys == db.batches[i].details.Keys;
    CloseMovesLots(db, i, b, after);
    CloseKeepsStructure(db, i, c.outcomes, after);
  }

  ghost function ApprovedLots(db: Db): set<LotId> {
    set l | l in db.lots && Approved(db.batches, l)
  }

  lemma StatusFacts(db: Db)
    requires Structured(db)
    ensures StatusOf(db) == Completed <==> db.lots.Keys != {} && ApprovedLots(db) == db.lots.Keys
    ensures StatusOf(db) == PartiallyCompleted <==> ApprovedLots(db) != {} && ApprovedLots(db) != db.lots.Keys
    ensures StatusOf(db) == PackageNotStarted <==> Unclaimed(db) == db.lots.Keys
    ensures Unclaimed(db) <= db.lots.Keys && ApprovedLots(db) <= db.lots.Keys
  {
    var progress, done, free := Progress(db), ApprovedLots(db), Unclaimed(db);
    forall l | l in progress
        ensures (progress[l].IsCompleted() <==> l in done) && (progress[l].stage == NotStarted <==> l in free) {
      ProgressBySets(db, l);
    }
    assert progress.Keys == db.lots.Keys;
    StatusBySets(progress, done, free);
  }

  lemma ProgressBySets(db: Db, l: LotId)
    requires Structured(db) && l in db.lots
    ensures Progress(db)[l].IsCompleted() <==> l in ApprovedLots(db)
    ensures Progress(db)[l].stage == NotStarted <==> l in Unclaimed(db)
  {
    ProgressMeaning(db, l);
  }

  /** The projected status, read off the sets of approved and unclaimed lots. */
  lemma StatusBySets(progress: map<LotId, LotProgress>, done: set<LotId>, free: set<LotId>)
    requires done <= progress.Keys && free <= progress.Keys
    requires forall l | l in progress :: progress[l].IsCompleted() <==> l in done
    requires forall l | l in progress :: progress[l].stage == NotStarted <==> l in free
    ensures ProjectStatus(progress) == Completed <==> progress.Keys != {} && done == progress.Keys
    ensures ProjectStatus(progress) == PartiallyCompleted <==> done != {} && done != progress.Keys
    ensures ProjectStatus(progress) == PackageNotStarted <==> free == progress.Keys
  {
    StatusMeaning(progress);
    if l :| l in done { assert l in progress; }
    if forall l | l in progress :: l in done { assert done == progress.Keys; }
    if forall l | l in progress :: l in free { assert free == progress.Keys; }
    assert progress == map[] <==> progress.Keys == {};
  }

  lemma RankFollowsApprovals(db: Db, after: Db)
    requires Structured(db) && Structured(after) && after.lots.Keys == db.lots.Keys
    requires ApprovedLots(db) <= ApprovedLots(after)
    requires Unclaimed(after) <= Unclaimed(db)
    ensures Rank(StatusOf(db)) <= Rank(StatusOf(after))
  {
    StatusFacts(db);
    StatusFacts(after);
    RankOf(StatusOf(db), StatusOf(after), db.lots.Keys, Unclaimed(db), Unclaimed(after), ApprovedLots(db),
        ApprovedLots(after));
  }

  /** The same comparison on the sets of lots alone. */
  lemma RankOf(
      s: PackageStatus, t: PackageStatus, lots: set<LotId>, free: set<LotId>, free': set<LotId>, done: set<LotId>,
      done': set<LotId>)
    requires free' <= free <= lots && done <= done' <= lots
    requires (s == Completed <==> lots != {} && done == lots) && (t == Completed <==> lots != {} && done' == lots)
    requires (s == PartiallyCompleted <==> done != {} && done != lots)
        && (t == PartiallyCompleted <==> done' != {} && done' != lots)
    requires (s == PackageNotStarted <==> free == lots) && (t == PackageNotStarted <==> free' == lots)
    ensures Rank(s) <= Rank(t)
  {
    if done != {} { assert done' != {}; }
    if done == lots { assert done' == lots; }
    if free' == lots { assert free == lots; }
  }

  lemma AdvanceMovesForward(db: Db, s: Step)
    requires Invariant(db) && Advances(db, s)
    ensures Potential(Next(db, s)) < Potential(db) && Unclaimed(Next(db, s)) <= Unclaimed(db)
    ensures forall l | Approved(db.batches, l) :: Approved(Next(db, s).batches, l)
  {
    match s
    case Create(c) =>
      CreateLowersPotential(db, c);
      assert forall b | b in db.batches :: b in Next(db, s).batches;
    case Finalize(c) =>
      CloseLowersPotential(db, c, FindBatch(db.batches, c.batchId).value);
  }

  /** Every step keeps or lowers the potential, lowers it when it advances, and never lowers the status. */
  lemma StepMovesForward(db: Db, s: Step)
    requires Invariant(db)
    ensures Potential(Next(db, s)) <= Potential(db)
    ensures Advances(db, s) ==> Potential(Next(db, s)) < Potential(db)
    ensures Rank(StatusOf(db)) <= Rank(StatusOf(Next(db, s)))
  {
    StepKeepsInvariant(db, s);
    StepKeepsScope(db, s);
    if Advances(db, s) {
      AdvanceMovesForward(db, s);
    } else {
      IdleStepKeepsBatches(db, s);
      SameBatchesSamePotential(db, Next(db, s));
    }
    assert ApprovedLots(db) <= ApprovedLots(Next(db, s));
    RankFollowsApprovals(db, Next(db, s));
  }

  lemma IdleStepKeepsBatches(db: Db, s: Step)
    requires Invariant(db) && !Advances(db, s)
    ensures Next(db, s).batches == db.batches && Next(db, s).lots.Keys == db.lots.Keys
  {
    StepKeepsScope(db, s);
    if s.Finalize? && Commits(db, s.finalize) {
      var c := s.finalize;
      var i, _ := AwardUnfolds(db, c.batchId, c.outcomes, c.award);
      ClosedUnfolds(db, c.batchId, c.outcomes, i);
      ResubmissionKeepsAwards(db, c.batchId, c.outcomes, c.award, i);
      var after := CommitUnfolds(db, c);
    }
  }

  ghost function CountAdvances(start: Db, steps: seq<Step>): nat {
    if steps == [] then 0 else
      var front := steps[..|steps| - 1];
      CountAdvances(start, front) + if Advances(Run(start, front), steps[|steps| - 1]) then 1 else 0
  }

  /** A package of n lots sees at most 2n advancing steps and n batches over any run, whatever else happens. */
  lemma {:induction false} AdvancesAreBounded(start: Db, steps: seq<Step>)
    requires Initial(start)
    ensures CountAdvances(start, steps) + Potential(Run(start, steps)) <= 2 * |start.lots|
    ensures |Run(start, steps).batches| <= |start.lots|
  {
    if steps == [] {
      assert Unclaimed(start) == start.lots.Keys;
      assert InWork(start) == {};
    } else {
      var front := steps[..|steps| - 1];
      AdvancesAreBounded(start, front);
      RunKeepsInvariant(start, front);
      StepMovesForward(Run(start, front), steps[|steps| - 1]);
    }
    RunKeepsInvariant(start, steps);
    RunKeepsScope(start, steps);
    var db := Run(start, steps);
    BatchesFitLots(db.batches, db.lots.Keys);
  }

  lemma {:induction false} BatchesFitLots(batches: seq<Batch>, lots: set<LotId>)
    requires Numbered(batches) && forall b | b in batches :: b.details != map[] && b.details.Keys <= lots
    ensures |batches| <= |lots|
    decreases |batches|
  {
    if batches != [] {
      var front, last := batches[..|batches| - 1], batches[|batches| - 1];
      assert last in batches;
      forall b | b in front ensures b in batches && b.details.Keys <= lots - last.details.Keys {
        var i :| 0 <= i < |front| && front[i] == b;
        assert batches[i] == b && batches[i].details.Keys !! batches[|batches| - 1].details.Keys;
      }
      BatchesFitLots(front, lots - last.details.Keys);
      var l :| l in last.details;
      SubsetSize(lots - last.details.Keys, lots - {l});
    }
  }

  lemma StepKeepsRank(start: Db, steps: seq<Step>, j: nat)
    requires Initial(start) && 0 < j <= |steps|
    ensures Rank(StatusOf(Run(start, steps[..j - 1]))) <= Rank(StatusOf(Run(start, steps[..j])))
  {
    RunKeepsInvariant(start, steps[..j - 1]);
    assert steps[..j][..j - 1] == steps[..j - 1];
    assert Run(start, steps[..j]) == Next(Run(start, steps[..j - 1]), steps[j - 1]);
    StepMovesForward(Run(start, steps[..j - 1]), steps[j - 1]);
  }

  /** Along a run the projected package status never moves backwards. */
  lemma {:induction false} StatusNeverFalls(start: Db, steps: seq<Step>, i: nat, j: nat)
    requires Initial(start) && i <= j <= |steps|
    ensures Rank(StatusOf(Run(start, steps[..i]))) <= Rank(StatusOf(Run(start, steps[..j])))
    decreases j
  {
    if i < j {
      StatusNeverFalls(start, steps, i, j - 1);
      StepKeepsRank(start, steps, j);
    }
  }

  // ---- batches over a run -------------------------------------------------------------------

  /** Every batch keeps its place, id, number and lots; a closed one does not change at all. */
  ghost predicate BatchesPersist(before: seq<Batch>, after: seq<Batch>) {
    && |before| <= |after|
    && forall k | 0 <= k < |before| ::
         && after[k].id == before[k].id && after[k].sequenceNo == before[k].sequenceNo
         && after[k].details.Keys == before[k].details.Keys
         && (before[k].status == Closed ==> after[k] == before[k])
  }

  lemma ClosePersists(db: Db, c: FinalizeCommand, i: nat)
    requires Structured(db) && Commits(db, c) && FindBatch(db.batches, c.batchId) == Some(i)
    requires db.batches[i].status == Active
    ensures BatchesPersist(db.batches, FinalizeRoute(db, c).0.batches)
  {
    CommitCloses(db, c, i);
    assert CloseBatch(db.batches[i], c.outcomes).details.Keys == db.batches[i].details.Keys;
  }

  lemma StepPersists(db: Db, s: Step)
    requires Invariant(db)
    ensures BatchesPersist(db.batches, Next(db, s).batches)
  {
    if Advances(db, s) {
      match s
      case Create(_) =>
      case Finalize(c) => ClosePersists(db, c, FindBatch(db.batches, c.batchId).value);
    } else {
      IdleStepKeepsBatches(db, s);
    }
  }

  /** Over any run, batches are only appended and closed. */
  lemma {:induction false} RunPersists(start: Db, steps: seq<Step>, i: nat, j: nat)
    requires Initial(start) && i <= j <= |steps|
    ensures BatchesPersist(Run(start, steps[..i]).batches, Run(start, steps[..j]).batches)
    decreases j
  {
    if i < j {
      RunPersists(start, steps, i, j - 1);
      RunKeepsInvariant(start, steps[..j - 1]);
      assert steps[..j][..j - 1] == steps[..j - 1];
      StepPersists(Run(start, steps[..j - 1]), steps[j - 1]);
    }
  }

  /**
   A lot of batch k is in batch k, and in no other, in every later state of the run; once that batch is closed, the
   lot's approved detail never changes again.
   */
  lemma LotStaysInItsBatch(start: Db, steps: seq<Step>, i: nat, j: nat, k: nat, l: LotId)
    requires Initial(start) && i <= j <= |steps|
    requires k < |Run(start, steps[..i]).batches| && l in Run(start, steps[..i]).batches[k].details
    ensures var before, after := Run(start, steps[..i]).batches, Run(start, steps[..j]).batches;
            && k < |after| && after[k].id == before[k].id
            && (forall n | 0 <= n < |after| :: l in after[n].details <==> n == k)
            && (before[k].status == Closed ==> after[k].details[l] == before[k].details[l])
  {
    RunPersists(start, steps, i, j);
    LotsClaimedOnce(start, steps[..j]);
  }
}
