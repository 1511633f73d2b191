/** Saving a plan that was loaded from the store. */
module RawRoundTrip {
  import opened Wrappers
  import opened RawSnapshots
  import opened RawReading
  import opened RawLoader

  /** The sources of a loaded bundle that saving it would visit, with their owners. */
  ghost predicate OwnsTop(rows: seq<Row>, plan: Plan, o: Owned)
    requires PlanInRange(rows, plan)
  {
    o.source.operation != "" && exists s | s in plan.sources ::
        o == Owned(None, None, None, Envelope(rows[plan.sources[s]]))
  }

  ghost predicate OwnsDetail(rows: seq<Row>, plan: Plan, n: string, o: Owned)
    requires PlanInRange(rows, plan)
  {
    n in plan.details && o.source.operation != ""
    && o == Owned(Some(n), Some(IdOf(rows[plan.details[n]])), None, Envelope(rows[plan.details[n]]))
  }

  ghost predicate OwnsPackage(rows: seq<Row>, plan: Plan, n: string, c: string, o: Owned)
    requires PlanInRange(rows, plan)
  {
    n in plan.details && c in plan.packages[n] && o.source.operation != ""
    && o == Owned(Some(n), Some(IdOf(rows[plan.details[n]])), Some(c), Envelope(rows[plan.packages[n][c]]))
  }

  lemma TopOwned(rows: seq<Row>, plan: Plan, code: string, o: Owned)
    requires PlanInRange(rows, plan) && o.source in BundleOf(rows, plan, code).sources
    ensures exists s | s in plan.sources :: o.source == Envelope(rows[plan.sources[s]])
  {
    var keys, sources := Sorted(plan.sources.Keys), BundleOf(rows, plan, code).sources;
    var i :| 0 <= i < |sources| && sources[i] == o.source;
    assert keys[i] in keys;
  }

  lemma RevisionIn(rows: seq<Row>, plan: Plan, code: string, r: Revision) returns (n: string)
    requires PlanInRange(rows, plan) && r in BundleOf(rows, plan, code).revisions
    ensures n in plan.details && r == RevisionFor(rows, plan, n)
  {
    var numbers, revisions := Sorted(plan.details.Keys), BundleOf(rows, plan, code).revisions;
    var i :| 0 <= i < |revisions| && revisions[i] == r;
    n := numbers[i];
    assert n in numbers;
  }

  lemma PackageIn(rows: seq<Row>, plan: Plan, n: string, p: Package)
    requires PlanInRange(rows, plan) && n in plan.details && p in RevisionFor(rows, plan, n).packages
    ensures p.key in plan.packages[n] && p.sources == [Envelope(rows[plan.packages[n][p.key]])]
  {
    var keys, packages := Sorted(plan.packages[n].Keys), RevisionFor(rows, plan, n).packages;
    var i :| 0 <= i < |packages| && packages[i] == p;
    assert keys[i] in keys;
  }

  /** Every source of the loaded bundle is a chosen row under its own key, except for the revision id. */
  lemma BundleOwns(rows: seq<Row>, plan: Plan, code: string, o: Owned)
    requires PlanInRange(rows, plan) && o in RawSources(BundleOf(rows, plan, code))
    ensures OwnsTop(rows, plan, o) || (exists n :: OwnsDetail(rows, plan, n, o)) || exists n, c ::
        OwnsPackage(rows, plan, n, c, o)
  {
    var b := BundleOf(rows, plan, code);
    RawSourcesMeaning(b, o);
    if r :| r in b.revisions && OwnedBy(r, o) {
      var n := RevisionIn(rows, plan, code, r);
      if o.child.None? && o.source in r.sources {
        assert OwnsDetail(rows, plan, n, o);
      } else {
        var p :| p in r.packages && o.child == Some(p.key) && o.source in p.sources;
        PackageIn(rows, plan, n, p);
        assert OwnsPackage(rows, plan, n, p.key, o);
      }
    } else {
      TopOwned(rows, plan, code, o);
    }
  }

  /** The detail of every selected revision is among them. */
  lemma BundleHasDetail(rows: seq<Row>, plan: Plan, code: string, n: string, o: Owned)
    requires PlanInRange(rows, plan) && OwnsDetail(rows, plan, n, o)
    ensures o in RawSources(BundleOf(rows, plan, code))
  {
    var b := BundleOf(rows, plan, code);
    var numbers := Sorted(plan.details.Keys);
    assert n in numbers;
    var i :| 0 <= i < |numbers| && numbers[i] == n;
    assert b.revisions[i] == RevisionFor(rows, plan, n) && b.revisions[i] in b.revisions;
    assert o.source in b.revisions[i].sources;
    assert OwnedBy(b.revisions[i], o);
    RawSourcesMeaning(b, o);
  }

  // ---- what is already stored ---------------------------------------------------------------

  /** The rows chosen for each revision carry one revision id. */
  ghost predicate OneRevisionId(rows: seq<Row>, plan: Plan)
    requires PlanInRange(rows, plan)
  {
    forall n | n in plan.details ::
      && rows[plan.details[n]].context.revisionId.Some?
      && forall c | c in plan.packages[n] ::
          rows[plan.packages[n][c]].context.revisionId == rows[plan.details[n]].context.revisionId
  }

  lemma EnvelopeIsStored(rows: seq<Row>, b: Bundle, o: Owned, i: nat)
    requires Consistent(rows) && i < |rows| && o.source == Envelope(rows[i])
    requires rows[i].context.kind == b.kind && rows[i].context.code == b.code
    requires o.revisionNumber == rows[i].context.revisionNumber && o.revisionId == rows[i].context.revisionId
    requires o.child == rows[i].context.child
    ensures Stored(rows, ContextOf(b, o))
  {
    assert rows[i] in rows && RowConsistent(rows[i]);
    assert rows[i].context == ContextOf(b, o);
  }

  lemma TopIsStored(rows: seq<Row>, plan: Plan, code: string, o: Owned)
    requires Consistent(rows) && PlanInRange(rows, plan) && PlanFrom(rows, plan, code) && OwnsTop(rows, plan, o)
    ensures Stored(rows, ContextOf(BundleOf(rows, plan, code), o))
  {
    var s :| s in plan.sources && o == Owned(None, None, None, Envelope(rows[plan.sources[s]]));
    var i := plan.sources[s];
    assert RowFor(rows, i, TopKey(OperationAt(rows, i)), code) && rows[i] in rows && RowConsistent(rows[i]);
    EnvelopeIsStored(rows, BundleOf(rows, plan, code), o, i);
  }

  lemma DetailIsStored(rows: seq<Row>, plan: Plan, code: string, n: string, o: Owned)
    requires Consistent(rows) && PlanInRange(rows, plan) && PlanFrom(rows, plan, code) && OneRevisionId(rows, plan)
    requires OwnsDetail(rows, plan, n, o)
    ensures Stored(rows, ContextOf(BundleOf(rows, plan, code), o))
  {
    assert RowFor(rows, plan.details[n], DetailKey(n), code);
    EnvelopeIsStored(rows, BundleOf(rows, plan, code), o, plan.details[n]);
  }

  lemma PackageIsStored(rows: seq<Row>, plan: Plan, code: string, n: string, c: string, o: Owned)
    requires Consistent(rows) && PlanInRange(rows, plan) && PlanFrom(rows, plan, code) && OneRevisionId(rows, plan)
    requires OwnsPackage(rows, plan, n, c, o)
    ensures Stored(rows, ContextOf(BundleOf(rows, plan, code), o))
  {
    assert RowFor(rows, plan.packages[n][c], PackageKey(n, c), code);
    EnvelopeIsStored(rows, BundleOf(rows, plan, code), o, plan.packages[n][c]);
  }

  /** Save, load, save inserts nothing when each revision's chosen rows carry one revision id. */
  lemma SavingLoadedInsertsNothing(rows: seq<Row>, plan: Plan, code: string, now: int)
    requires Consistent(rows) && PlanInRange(rows, plan) && PlanFrom(rows, plan, code) && OneRevisionId(rows, plan)
    ensures var b := BundleOf(rows, plan, code); SaveAll(rows, b, RawSources(b), now) == rows
  {
    var b := BundleOf(rows, plan, code);
    forall o | o in RawSources(b) ensures Stored(rows, ContextOf(b, o)) {
      BundleOwns(rows, plan, code, o);
      if OwnsTop(rows, plan, o) {
        TopIsStored(rows, plan, code, o);
      } else if n :| OwnsDetail(rows, plan, n, o) {
        DetailIsStored(rows, plan, code, n, o);
      } else {
        var n, c :| OwnsPackage(rows, plan, n, c, o);
        PackageIsStored(rows, plan, code, n, c, o);
      }
    }
    SaveOfStored(rows, b, RawSources(b), now);
  }

  /** All rows of one revision of the plan carry the same revision id, or all carry none. */
  ghost predicate UniformIds(rows: seq<Row>, code: string) {
    forall r, q | r in rows && q in rows && OfRevision(r, code) && OfRevision(q, code)
                  && r.context.revisionNumber == q.context.revisionNumber ::
                      r.context.revisionId == q.context.revisionId
  }

  predicate OfRevision(r: Row, code: string) {
    r.context.kind == "PLAN" && r.context.code == code && r.context.revisionNumber.Some?
  }

  lemma UniformIsOne(rows: seq<Row>, plan: Plan, code: string)
    requires PlanInRange(rows, plan) && PlanFrom(rows, plan, code) && UniformIds(rows, code)
    requires forall n | n in plan.details :: rows[plan.details[n]].context.revisionId.Some?
    ensures OneRevisionId(rows, plan)
  {
    forall n, c | n in plan.details && c in plan.packages[n]
      ensures rows[plan.packages[n][c]].context.revisionId == rows[plan.details[n]].context.revisionId
    {
      var i, j := plan.packages[n][c], plan.details[n];
      assert RowFor(rows, i, PackageKey(n, c), code) && RowFor(rows, j, DetailKey(n), code);
      assert rows[i] in rows && rows[j] in rows;
    }
  }

  /** A revision without an id comes back under an empty one, which is a new key. */
  lemma MissingIdInserts(rows: seq<Row>, plan: Plan, code: string, n: string, now: int)
    requires Consistent(rows) && PlanInRange(rows, plan) && PlanFrom(rows, plan, code) && UniformIds(rows, code)
    requires n in plan.details && rows[plan.details[n]].context.revisionId.None?
    ensures var b := BundleOf(rows, plan, code); SaveAll(rows, b, RawSources(b), now) != rows
  {
    var b, d := BundleOf(rows, plan, code), rows[plan.details[n]];
    assert RowFor(rows, plan.details[n], DetailKey(n), code) && d in rows;
    var o := Owned(Some(n), Some(IdOf(d)), None, Envelope(d));
    assert OwnsDetail(rows, plan, n, o);
    BundleHasDetail(rows, plan, code, n, o);
    assert !Stored(rows, ContextOf(b, o)) by {
      if r :| r in rows && r.context == ContextOf(b, o) {
        assert OfRevision(r, code) && OfRevision(d, code);
      }
    }
    forall x | x in RawSources(b) ensures WellOwned(x) { RawSourcesMeaning(b, x); }
    SaveKeepsConsistent(rows, b, RawSources(b), now);
  }

  /** With uniform revision ids, saving a loaded plan inserts nothing exactly when every revision has an id. */
  lemma ReSaveInsertsNothingIffIdentified(rows: seq<Row>, plan: Plan, code: string, now: int)
    requires Consistent(rows) && PlanInRange(rows, plan) && PlanFrom(rows, plan, code) && UniformIds(rows, code)
    ensures var b := BundleOf(rows, plan, code);
            SaveAll(rows, b, RawSources(b), now) == rows <==>
                forall n | n in plan.details :: rows[plan.details[n]].context.revisionId.Some?
  {
    if n :| n in plan.details && rows[plan.details[n]].context.revisionId.None? {
      MissingIdInserts(rows, plan, code, n, now);
    } else {
      UniformIsOne(rows, plan, code);
      SavingLoadedInsertsNothing(rows, plan, code, now);
    }
  }

  // ---- histories ----------------------------------------------------------------------------

  /** One call of save_bundle and its time stamp. */
  datatype Save = Save(bundle: Bundle, now: int)

  function SaveMany(saves: seq<Save>): seq<Row> {
    if saves == [] then [] else
      var last := saves[|saves| - 1];
      SaveAll(SaveMany(saves[..|saves| - 1]), last.bundle, RawSources(last.bundle), last.now)
  }

  lemma {:induction false} SavedIsConsistent(saves: seq<Save>)
    ensures Consistent(SaveMany(saves))
  {
    if saves != [] {
      var last := saves[|saves| - 1];
      var owned := RawSources(last.bundle);
      SavedIsConsistent(saves[..|saves| - 1]);
      forall o | o in owned ensures WellOwned(o) { RawSourcesMeaning(last.bundle, o); }
      SaveKeepsConsistent(SaveMany(saves[..|saves| - 1]), last.bundle, owned, last.now);
    }
  }

  /**
   For every history of saved bundles: whatever plan the loader returns, if the chosen rows of each revision carry
   one revision id, saving the loaded bundle again adds no row.
   */
  lemma SaveLoadSave(
    saves: seq<Save>, order: seq<nat>, newest: Newest, sources: map<string, nat>, mode: Mode, reader: Reader,
    code: string, cutoff: int, now: int)
    requires var rows := SaveMany(saves); ReadFrom(rows, order, code, cutoff, newest, sources)
    requires Loadable(SaveMany(saves), newest, sources, mode, reader)
    requires var plan := PlanOf(SaveMany(saves), newest, sources, mode, reader);
             PlanInRange(SaveMany(saves), plan) && OneRevisionId(SaveMany(saves), plan)
    ensures var b := BundleOf(SaveMany(saves), PlanOf(SaveMany(saves), newest, sources, mode, reader), code);
            SaveMany(saves + [Save(b, now)]) == SaveMany(saves)
  {
    var rows := SaveMany(saves);
    var plan := PlanOf(rows, newest, sources, mode, reader);
    SavedIsConsistent(saves);
    LoadedPlanIsFrom(rows, order, newest, sources, mode, reader, code, cutoff);
    SavingLoadedInsertsNothing(rows, plan, code, now);
    assert (saves + [Save(BundleOf(rows, plan, code), now)])[..|saves|] == saves;
  }
}
