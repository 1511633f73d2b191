/**
 Business policy for processing a procurement package lot by lot
 (backend/lot_selection_lifecycle.py).
 */
module LotPolicy {
  import opened Wrappers
  import opened Collections

  type LotId = string
  type BatchId = string

  datatype ProcedureKind = OneEnvelope | TwoEnvelope
  datatype ApprovalMode = Consolidated | Staged

  datatype LotStage =
    | NotStarted | EvaluationDraft | EvaluationFinalized
    | TechnicalDraft | TechnicalEvaluated | TechnicalAppraised | TechnicalApproved
    | FinancialOpened | FinancialEvaluated | ResultAppraised | ResultApproved

  datatype LotOutcome =
    | Awarded | NoBid | NoTechnicalQualifier | NoFinancialQualifier | NoResponsiveBid
    | CancelledLot | ReprocurementRequired | OtherApprovedOutcome

  datatype PackageStatus = PackageNotStarted | InProgress | PartiallyCompleted | Completed

  datatype DependencyKind =
    | HsmtGroupEvaluation | CrossLotDiscount | AggregateCapacity | AwardOptimization | FinancialDisclosure

  datatype BlockerCode =
    | EmptyScope | UnknownLot | LotAlreadyActive | LotAlreadyCompleted
    | DependencyGroupSplit | FinancialDisclosureRisk

  datatype LotProgress = LotProgress(stage: LotStage, outcome: Option<LotOutcome>, activeBatch: Option<BatchId>) {
    predicate IsCompleted() { stage == ResultApproved }
  }

  datatype DependencyGroup = DependencyGroup(
    groupId: string, kind: DependencyKind, lotIds: set<LotId>, reason: string, mustMoveTogether: bool)

  datatype Context = Context(lots: map<LotId, LotProgress>, groups: seq<DependencyGroup>)

  datatype PolicyBlocker = PolicyBlocker(code: BlockerCode, lotIds: set<LotId>, group: Option<string>)

  datatype Decision = Decision(selected: set<LotId>, blockers: seq<PolicyBlocker>) {
    predicate Allowed() { blockers == [] }
  }

  /** Selected lots that another batch is still working on. */
  function ClaimedElsewhere(ctx: Context, selected: set<LotId>, current: Option<BatchId>): set<LotId> {
    set l | l in selected && l in ctx.lots && ctx.lots[l].activeBatch.Some? && ctx.lots[l].activeBatch != current
  }

  function CompletedAmong(ctx: Context, lots: set<LotId>): set<LotId> {
    set l | l in lots && l in ctx.lots && ctx.lots[l].IsCompleted()
  }

  function PendingAmong(ctx: Context, lots: set<LotId>): set<LotId> {
    set l | l in lots && l in ctx.lots && !ctx.lots[l].IsCompleted()
  }

  predicate SplitsGroup(ctx: Context, selected: set<LotId>, g: DependencyGroup) {
    g.mustMoveTogether && selected * g.lotIds != {} && !(PendingAmong(ctx, g.lotIds) <= selected)
  }

  /** The declarative reading of the policy: when a scope may be claimed or published. */
  ghost predicate ScopeAllowed(ctx: Context, selected: set<LotId>, current: Option<BatchId>) {
    && selected != {}
    && selected <= ctx.lots.Keys
    && (forall l | l in selected :: ctx.lots[l].activeBatch.None? || ctx.lots[l].activeBatch == current)
    && (forall l | l in selected :: !ctx.lots[l].IsCompleted())
    && (forall g | g in ctx.groups :: MovesWhole(ctx, selected, g))
  }

  /** A scope that takes one member of a must-move-together group takes every unfinished one. */
  ghost predicate MovesWhole(ctx: Context, selected: set<LotId>, g: DependencyGroup) {
    g.mustMoveTogether ==>
      forall l, m | l in g.lotIds && m in g.lotIds ::
        l in selected && m in ctx.lots && ctx.lots[m].stage != ResultApproved ==> m in selected
  }

  function SplitBlocker(ctx: Context, selected: set<LotId>, g: DependencyGroup): PolicyBlocker {
    PolicyBlocker(
      if g.kind == FinancialDisclosure then FinancialDisclosureRisk else DependencyGroupSplit,
      selected * g.lotIds + (PendingAmong(ctx, g.lotIds) - selected),
      Some(g.groupId))
  }

  function SplitBlockers(ctx: Context, selected: set<LotId>, groups: seq<DependencyGroup>): seq<PolicyBlocker> {
    if groups == [] then [] else
      var last := groups[|groups| - 1];
      SplitBlockers(ctx, selected, groups[..|groups| - 1])
      + if SplitsGroup(ctx, selected, last) then [SplitBlocker(ctx, selected, last)] else []
  }

  function LotBlockers(ctx: Context, selected: set<LotId>, current: Option<BatchId>): seq<PolicyBlocker> {
    var unknown := selected - ctx.lots.Keys;
    var active := ClaimedElsewhere(ctx, selected, current);
    var completed := CompletedAmong(ctx, selected);
    (if selected == {} then [PolicyBlocker(EmptyScope, {}, None)] else [])
    + (if unknown != {} then [PolicyBlocker(UnknownLot, unknown, None)] else [])
    + (if active != {} then [PolicyBlocker(LotAlreadyActive, active, None)] else [])
    + (if completed != {} then [PolicyBlocker(LotAlreadyCompleted, completed, None)] else [])
  }

  function ScopeBlockers(ctx: Context, selected: set<LotId>, current: Option<BatchId>): seq<PolicyBlocker> {
    LotBlockers(ctx, selected, current) + SplitBlockers(ctx, selected, ctx.groups)
  }

  /** The group blockers are exactly the blockers of the groups that the scope splits. */
  lemma {:induction false} SplitBlockersExact(ctx: Context, selected: set<LotId>, groups: seq<DependencyGroup>)
    ensures forall b :: b in SplitBlockers(ctx, selected, groups) <==>
              exists g :: g in groups && SplitsGroup(ctx, selected, g) && b == SplitBlocker(ctx, selected, g)
  {
    if groups != [] {
      var rest, last := groups[..|groups| - 1], groups[|groups| - 1];
      SplitBlockersExact(ctx, selected, rest);
      assert groups == rest + [last];
    }
  }

  lemma SplitsNone(ctx: Context, selected: set<LotId>, g: DependencyGroup)
    ensures !SplitsGroup(ctx, selected, g) <==> MovesWhole(ctx, selected, g)
  {
    if SplitsGroup(ctx, selected, g) {
      var l :| l in selected * g.lotIds;
      var m :| m in PendingAmong(ctx, g.lotIds) && m !in selected;
      assert l in g.lotIds && m in g.lotIds && l in selected;
    } else if g.mustMoveTogether {
      forall l, m | l in g.lotIds && m in g.lotIds && l in selected && m in ctx.lots
                    && ctx.lots[m].stage != ResultApproved
        ensures m in selected
      {
        assert l in selected * g.lotIds && m in PendingAmong(ctx, g.lotIds);
      }
    }
  }

  /** Which blockers are reported, each with its lots and group. */
  lemma BlockerMeaning(ctx: Context, selected: set<LotId>, current: Option<BatchId>, b: PolicyBlocker)
    ensures b in ScopeBlockers(ctx, selected, current) <==>
              match b.code
              case EmptyScope => b.group == None && b.lotIds == {} && selected == {}
              case UnknownLot =>
                b.group == None && b.lotIds != {} && forall l :: l in b.lotIds <==> l in selected && l !in ctx.lots
              case LotAlreadyActive =>
                b.group == None && b.lotIds != {}
                && forall l :: l in b.lotIds <==>
                     l in selected && l in ctx.lots && ctx.lots[l].activeBatch.Some?
                     && ctx.lots[l].activeBatch != current
              case LotAlreadyCompleted =>
                b.group == None && b.lotIds != {}
                && forall l :: l in b.lotIds <==> l in selected && l in ctx.lots && ctx.lots[l].stage == ResultApproved
              case _ =>
                exists g | g in ctx.groups ::
                  && b.group == Some(g.groupId) && SplitLots(ctx, selected, g, b.lotIds)
                  && (b.code == FinancialDisclosureRisk <==> g.kind == FinancialDisclosure)
  {
    SplitBlockersExact(ctx, selected, ctx.groups);
    LotBlockerMeaning(ctx, selected, current, b);
    if g :| g in ctx.groups && b.group == Some(g.groupId) && SplitLots(ctx, selected, g, b.lotIds)
            && (b.code == FinancialDisclosureRisk <==> g.kind == FinancialDisclosure)
    {
      SplitLotsMeaning(ctx, selected, g, b.lotIds);
    }
    if b in SplitBlockers(ctx, selected, ctx.groups) {
      var g :| g in ctx.groups && SplitsGroup(ctx, selected, g) && b == SplitBlocker(ctx, selected, g);
      SplitLotsMeaning(ctx, selected, g, b.lotIds);
    }
  }

  /** The scope takes some members of the group but not all unfinished ones; lots are the former and the latter. */
  ghost predicate SplitLots(ctx: Context, selected: set<LotId>, g: DependencyGroup, lots: set<LotId>) {
    && g.mustMoveTogether && (exists l :: l in g.lotIds && l in selected)
    && (exists m :: m in g.lotIds && m in ctx.lots && ctx.lots[m].stage != ResultApproved && m !in selected)
    && forall l :: l in lots <==>
         l in g.lotIds && (l in selected || (l in ctx.lots && ctx.lots[l].stage != ResultApproved))
  }

  lemma SplitLotsMeaning(ctx: Context, selected: set<LotId>, g: DependencyGroup, lots: set<LotId>)
    ensures SplitLots(ctx, selected, g, lots) <==>
              SplitsGroup(ctx, selected, g) && lots == SplitBlocker(ctx, selected, g).lotIds
  {
    assert forall m :: m in PendingAmong(ctx, g.lotIds) <==>
      m in g.lotIds && m in ctx.lots && ctx.lots[m].stage != ResultApproved;
    assert (exists l :: l in g.lotIds && l in selected) <==> selected * g.lotIds != {} by {
      if l :| l in g.lotIds && l in selected { assert l in selected * g.lotIds; }
    }
  }

  lemma LotBlockerMeaning(ctx: Context, selected: set<LotId>, current: Option<BatchId>, b: PolicyBlocker)
    ensures b in LotBlockers(ctx, selected, current) <==>
              || (b == PolicyBlocker(EmptyScope, {}, None) && selected == {})
              || (b == PolicyBlocker(UnknownLot, selected - ctx.lots.Keys, None) && b.lotIds != {})
              || (b == PolicyBlocker(LotAlreadyActive, ClaimedElsewhere(ctx, selected, current), None)
                  && b.lotIds != {})
              || (b == PolicyBlocker(LotAlreadyCompleted, CompletedAmong(ctx, selected), None) && b.lotIds != {})
  {
  }

  /** No blocker is reported exactly when the policy allows the scope. */
  lemma BlockersDecideScope(ctx: Context, selected: set<LotId>, current: Option<BatchId>)
    ensures ScopeBlockers(ctx, selected, current) == [] <==> ScopeAllowed(ctx, selected, current)
  {
    forall g | g in ctx.groups ensures !SplitsGroup(ctx, selected, g) <==> MovesWhole(ctx, selected, g) {
      SplitsNone(ctx, selected, g);
    }
    SplitBlockersExact(ctx, selected, ctx.groups);
    var splits := SplitBlockers(ctx, selected, ctx.groups);
    if g :| g in ctx.groups && SplitsGroup(ctx, selected, g) {
      assert SplitBlocker(ctx, selected, g) in splits;
    }
    assert splits == [] || splits[0] in splits;
    var unknown, active, completed :=
      selected - ctx.lots.Keys, ClaimedElsewhere(ctx, selected, current), CompletedAmong(ctx, selected);
    if unknown == {} {
      assert forall l | l in selected :: l in ctx.lots || l in unknown;
      if active == {} && completed == {} {
        forall l | l in selected
          ensures (ctx.lots[l].activeBatch.None? || ctx.lots[l].activeBatch == current) && !ctx.lots[l].IsCompleted()
        {
          assert l !in active && l !in completed;
        }
      }
    }
  }

  /** `_assess_scope`: collects every blocker of a requested scope. */
  method AssessScope(ctx: Context, requested: seq<LotId>, current: Option<BatchId>) returns (d: Decision)
    ensures d.selected == set l | l in requested
    ensures d.blockers == ScopeBlockers(ctx, d.selected, current)
    ensures d.Allowed() <==> ScopeAllowed(ctx, d.selected, current)
  {
    var selected := set l | l in requested;
    BlockersDecideScope(ctx, selected, current);
    var blockers := [];
    if selected == {} {
      blockers := blockers + [PolicyBlocker(EmptyScope, {}, None)];
    }
    var unknown := selected - ctx.lots.Keys;
    if unknown != {} {
      blockers := blockers + [PolicyBlocker(UnknownLot, unknown, None)];
    }
    var active := ClaimedElsewhere(ctx, selected, current);
    if active != {} {
      blockers := blockers + [PolicyBlocker(LotAlreadyActive, active, None)];
    }
    var completed := CompletedAmong(ctx, selected);
    if completed != {} {
      blockers := blockers + [PolicyBlocker(LotAlreadyCompleted, completed, None)];
    }
    assert blockers == LotBlockers(ctx, selected, current);
    var groupBlockers := AssessGroups(ctx, selected);
    d := Decision(selected, blockers + groupBlockers);
  }

  /** The loop over the dependency groups. */
  method AssessGroups(ctx: Context, selected: set<LotId>) returns (blockers: seq<PolicyBlocker>)
    ensures blockers == SplitBlockers(ctx, selected, ctx.groups)
  {
    blockers := [];
    for i := 0 to |ctx.groups|
      invariant blockers == SplitBlockers(ctx, selected, ctx.groups[..i])
    {
      var g := ctx.groups[i];
      assert ctx.groups[..i + 1][..i] == ctx.groups[..i];
      if !g.mustMoveTogether || selected * g.lotIds == {} {
        continue;
      }
      var missing := PendingAmong(ctx, g.lotIds) - selected;
      if missing == {} {
        assert forall l | l in PendingAmong(ctx, g.lotIds) :: l in selected || l in missing;
        continue;
      }
      var code := if g.kind == FinancialDisclosure then FinancialDisclosureRisk else DependencyGroupSplit;
      blockers := blockers + [PolicyBlocker(code, selected * g.lotIds + missing, Some(g.groupId))];
    }
    assert ctx.groups[..|ctx.groups|] == ctx.groups;
  }

  function CompletedLots(lots: map<LotId, LotProgress>): set<LotId> {
    set l | l in lots && lots[l].IsCompleted()
  }

  /** `project_package_status` for a package that is not cancelled. */
  function ProjectStatus(lots: map<LotId, LotProgress>): PackageStatus {
    if lots == map[] || forall l | l in lots :: lots[l].stage == NotStarted then PackageNotStarted
    else if |CompletedLots(lots)| == |lots| then Completed
    else if |CompletedLots(lots)| > 0 then PartiallyCompleted
    else InProgress
  }

  /** What each projected status says about the individual lots. */
  lemma StatusMeaning(lots: map<LotId, LotProgress>)
    ensures ProjectStatus(lots) == Completed <==> lots != map[] && forall l | l in lots :: lots[l].IsCompleted()
    ensures ProjectStatus(lots) == PartiallyCompleted <==>
            (exists l | l in lots :: lots[l].IsCompleted()) && (exists l | l in lots :: !lots[l].IsCompleted())
    ensures ProjectStatus(lots) == PackageNotStarted <==> forall l | l in lots :: lots[l].stage == NotStarted
  {
    var done := CompletedLots(lots);
    assert done <= lots.Keys;
    if |done| == |lots| {
      SubsetOfEqualSize(done, lots.Keys);
    }
    if forall l | l in lots :: lots[l].IsCompleted() {
      assert done == lots.Keys;
    }
    if lots != map[] {
      var l :| l in lots;
    }
    if exists l | l in lots :: lots[l].IsCompleted() {
      var l :| l in lots && lots[l].IsCompleted();
      assert l in done;
    }
  }
}
