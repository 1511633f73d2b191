/** A concrete history in which a loaded plan is not already stored: its revision has no id. */
module RawExamples {
  import opened Wrappers
  import opened Collections
  import opened RawSnapshots
  import opened RawReading
  import opened RawLoader
  import opened RawRoundTrip

  function Captured(operation: string, response: Json): Source {
    Source(operation, "", JNull, response, JNull, true, "unknown", 0)
  }

  /** One version row, as a version list holds it. */
  function VersionRow(): Fields {
    map["id" := JString("7"), "planVersion" := JString("01")]
  }

  function Versions(): Json {
    JArray([JObject(VersionRow())])
  }

  /** A captured plan of one revision without an id. */
  function Anonymous(): Bundle {
    Bundle("PLAN", "PL1", [Captured("SEARCH", JNull), Captured("PLAN_VERSION_LIST", Versions())],
      [Revision("01", None, [Captured("PLAN_DETAIL", JNull)], [])])
  }

  function History(): seq<Save> {
    [Save(Anonymous(), 0)]
  }

  function Text(v: Json): string {
    if v.JString? then v.s else ""
  }

  // ---- the stored rows ----------------------------------------------------------------------

  lemma {:induction false} ContainsItsChars(s: string, part: string, c: char)
    requires Contains(s, part) && c in part
    ensures c in s
  {
    if part <= s {
      var i :| 0 <= i < |part| && part[i] == c;
      assert s[i] == c;
    } else {
      ContainsItsChars(s[1..], part, c);
    }
  }

  lemma LowerNames()
    ensures Lower("id") == "id" && Lower("planVersion") == "planversion"
  {
  }

  lemma PlainKey(key: string)
    requires 'u' !in Lower(key) && 'c' !in Lower(key) && 't' !in Lower(key)
    ensures !SecretKey(key)
  {
    if part :| part in SECRET_PARTS && Contains(Lower(key), part) {
      assert 'u' in "authorization" && 'c' in "cookie" && 't' in "token" && 'c' in "captcha" && 'c' in "secret";
      if 'u' in part { ContainsItsChars(Lower(key), part, 'u'); }
      if 'c' in part { ContainsItsChars(Lower(key), part, 'c'); }
      if 't' in part { ContainsItsChars(Lower(key), part, 't'); }
    }
  }

  lemma VersionsAreClean()
    ensures Sanitize(Versions()) == Versions()
  {
    LowerNames();
    PlainKey("id");
    PlainKey("planVersion");
    assert Clean(JObject(VersionRow()));
    SanitizeKeepsClean(Versions());
  }

  function Stamped(context: Context, response: Json): Row {
    Row(context, "", JNull, response, JNull, "unknown", 0, 0)
  }

  function StoredRows(): seq<Row> {
    [Stamped(RawSnapshots.Context("PLAN", "PL1", None, None, None, "SEARCH", JNull, true), JNull),
     Stamped(RawSnapshots.Context("PLAN", "PL1", None, None, None, "PLAN_VERSION_LIST", Versions(), true), Versions()),
     Stamped(RawSnapshots.Context("PLAN", "PL1", None, Some("01"), None, "PLAN_DETAIL", JNull, true), JNull)]
  }

  lemma OwnsThree()
    ensures RawSources(Anonymous()) ==
              [Owned(None, None, None, Captured("SEARCH", JNull)),
               Owned(None, None, None, Captured("PLAN_VERSION_LIST", Versions())),
               Owned(Some("01"), None, None, Captured("PLAN_DETAIL", JNull))]
  {
    var b := Anonymous();
    assert b.sources[1..] == [b.sources[1]] && b.sources[1..][1..] == [] && b.revisions[1..] == [];
    assert b.revisions[0].sources[1..] == [];
  }

  lemma {:induction false} SaveOne(rows: seq<Row>, b: Bundle, owned: seq<Owned>, now: int)
    requires owned != [] && !Stored(rows, ContextOf(b, owned[0]))
    ensures SaveAll(rows, b, owned, now) == SaveAll(rows + [RowOf(b, owned[0], now)], b, owned[1..], now)
  {
  }

  lemma RowsOfThree()
    ensures var b, rows := Anonymous(), StoredRows();
            && RowOf(b, Owned(None, None, None, Captured("SEARCH", JNull)), 0) == rows[0]
            && RowOf(b, Owned(None, None, None, Captured("PLAN_VERSION_LIST", Versions())), 0) == rows[1]
            && RowOf(b, Owned(Some("01"), None, None, Captured("PLAN_DETAIL", JNull)), 0) == rows[2]
  {
    VersionsAreClean();
  }

  lemma {:induction false} SaveDistinct(b: Bundle, owned: seq<Owned>, rows: seq<Row>)
    requires |owned| == |rows| == 3 && forall i | 0 <= i < 3 :: RowOf(b, owned[i], 0) == rows[i]
    requires rows[0].context != rows[1].context && rows[0].context != rows[2].context
    requires rows[1].context != rows[2].context
    ensures SaveAll([], b, owned, 0) == rows
  {
    SaveOne([], b, owned, 0);
    assert [] + [rows[0]] == rows[..1] && rows[..1] + [rows[1]] == rows[..2] && rows[..2] + [rows[2]] == rows;
    SaveOne(rows[..1], b, owned[1..], 0);
    assert owned[1..][1..] == owned[2..];
    SaveOne(rows[..2], b, owned[2..], 0);
  }

  lemma ThreeRows()
    ensures SaveMany(History()) == StoredRows()
  {
    OwnsThree();
    RowsOfThree();
    SaveDistinct(Anonymous(), RawSources(Anonymous()), StoredRows());
    SavedMore([], Anonymous(), 0);
    assert [] + [Save(Anonymous(), 0)] == History();
  }

  // ---- what the loader reads ----------------------------------------------------------------

  lemma {:induction false} ScalarsAddNothing(pending: seq<Json>, budget: nat, best: seq<Fields>)
    requires forall v | v in pending :: !v.JArray? && !v.JObject?
    ensures Explore(pending, budget, best) == best
    decreases budget
  {
    if pending != [] && budget > 0 {
      var front, v := pending[..|pending| - 1], pending[|pending| - 1];
      assert v in pending && forall x | x in front :: x in pending;
      assert Children(v) == [] && front + Children(v) == front;
      ScalarsAddNothing(front, budget - 1, best);
    }
  }

  lemma FieldsAreScalars()
    ensures forall c | c in Children(JObject(VersionRow())) :: c.JString?
  {
  }

  lemma OneRowListed(row: Fields)
    requires Versioned(row)
    ensures Improved([], JArray([JObject(row)])) == [row]
  {
    assert [JObject(row)][..0] == [] && Rows(Versioned, []) == [];
  }

  lemma ListTaken(row: Fields, budget: nat)
    requires Versioned(row) && budget > 0
    ensures Explore([JArray([JObject(row)])], budget, []) == Explore([JObject(row)], budget - 1, [row])
  {
    var list := JArray([JObject(row)]);
    OneRowListed(row);
    ExploreStep([list], budget, []);
    assert [list][..0] + [JObject(row)] == [JObject(row)];
  }

  lemma OneTaken(v: Json, cs: seq<Json>, budget: nat, best: seq<Fields>)
    requires budget > 0 && cs == Children(v)
    ensures Explore([v], budget, best) == Explore(cs, budget - 1, Improved(best, v))
  {
    ExploreStep([v], budget, best);
    assert [v][..0] + cs == cs;
  }

  lemma RowTaken(row: Fields, budget: nat, best: seq<Fields>)
    requires budget > 0 && forall c | c in Children(JObject(row)) :: !c.JArray? && !c.JObject?
    ensures Explore([JObject(row)], budget, best) == best
  {
    ScalarsAddNothing(Children(JObject(row)), budget - 1, best);
    OneTaken(JObject(row), Children(JObject(row)), budget, best);
  }

  lemma AdvertisesOne()
    ensures RevisionNumbers(Text, Versions()) == {"01"}
  {
    FieldsAreScalars();
    ListTaken(VersionRow(), MAX_VISITED);
    RowTaken(VersionRow(), MAX_VISITED - 1, [VersionRow()]);
    OneNumber(VersionRow(), "01");
  }

  lemma OneNumber(row: Fields, number: string)
    requires Versioned(row) && VersionOf(row) == JString(number) && |number| >= 2
    ensures NumbersOf(Text, [row]) == {number}
  {
    assert row in [row];
  }

  // ---- the plan -----------------------------------------------------------------------------

  function Chosen(): Newest {
    map[TopKey("SEARCH") := 0, TopKey("PLAN_VERSION_LIST") := 1, DetailKey("01") := 2]
  }

  function Named(): map<string, nat> {
    map["search" := 0, "versionList" := 1]
  }

  /** What matters of the three rows to the loader. */
  ghost predicate ThreePlanRows(rows: seq<Row>) {
    && |rows| == 3 && (forall i | 0 <= i < 3 :: Fresh(rows[i], "PL1", 0) && rows[i].context.success)
    && (forall i | 0 <= i < 3 :: rows[i].retrievedAt == 0 && rows[i].created == 0)
    && KeyOf(rows[0]) == TopKey("SEARCH") && KeyOf(rows[1]) == TopKey("PLAN_VERSION_LIST")
    && KeyOf(rows[2]) == DetailKey("01")
    && rows[1].response == Versions() && rows[2].response == JNull && rows[2].context.revisionId.None?
  }

  lemma StoredRowsArePlan()
    ensures ThreePlanRows(StoredRows())
  {
  }

  lemma ReadsThree(rows: seq<Row>)
    requires ThreePlanRows(rows)
    ensures Listing(rows, [0, 1, 2], "PL1", 0) && IsNewest(rows, [0, 1, 2], "PL1", 0, Chosen())
  {
    var listed := [0, 1, 2];
    assert LimitedOrder(listed) == listed;
    assert FirstOfKey(rows, listed, 0) && FirstOfKey(rows, listed, 1) && FirstOfKey(rows, listed, 2);
    assert listed[0] == 0 && listed[1] == 1 && listed[2] == 2;
  }

  lemma NamesTwo(rows: seq<Row>)
    requires ThreePlanRows(rows)
    ensures PositionsIn(rows, [0, 1, 2]) && NamedSources(rows, Chosen(), [0, 1, 2]) == Named()
  {
    var newest := Chosen();
    assert [0][..0] == [] && [0, 1][..1] == [0] && [0, 1, 2][..2] == [0, 1];
    assert NamedSources(rows, newest, []) == map[];
    assert NamedSources(rows, newest, [0]) == map["search" := 0];
    assert NamedSources(rows, newest, [0, 1]) == Named();
  }

  lemma OneRevisionAvailable()
    ensures Available(Chosen()) == {"01"}
  {
    assert DetailKey("01") in Chosen();
  }

  lemma NothingListed()
    ensures PackageKeys(Text, JNull) == {}
  {
    assert Children(JNull) == [];
  }

  lemma ReaderReads()
    ensures ResponseReader(Text).revisionNumbers(Versions()) == {"01"}
    ensures ResponseReader(Text).packageKeys(JNull) == {}
  {
    AdvertisesOne();
    NothingListed();
  }

  lemma PlanLoads(rows: seq<Row>, reader: Reader)
    requires ThreePlanRows(rows)
    requires reader.revisionNumbers(Versions()) == {"01"} && reader.packageKeys(JNull) == {}
    ensures Loadable(rows, Chosen(), Named(), AllRevisions, reader)
  {
    OneRevisionAvailable();
    LoadableByFacts(rows, Chosen(), Named(), reader);
  }

  lemma LoadableByFacts(rows: seq<Row>, newest: Newest, sources: map<string, nat>, reader: Reader)
    requires InRange(rows, newest) && ChosenInRange(rows, sources) && Available(newest) == {"01"}
    requires Succeeds(rows, sources, "search") && Succeeds(rows, sources, "versionList")
    requires reader.revisionNumbers(rows[sources["versionList"]].response) == {"01"}
    requires DetailKey("01") in newest && ListedPackages(rows, newest, reader, "01") == {}
    ensures Loadable(rows, newest, sources, AllRevisions, reader)
  {
  }

  lemma OnlyRevisionRow(rows: seq<Row>)
    requires ThreePlanRows(rows)
    ensures UniformIds(rows, "PL1")
  {
  }

  lemma ReadsPlan(rows: seq<Row>)
    requires ThreePlanRows(rows)
    ensures ReadFrom(rows, [0, 1, 2], "PL1", 0, Chosen(), Named())
  {
    ReadsThree(rows);
    NamesTwo(rows);
    assert LimitedOrder([0, 1, 2]) == [0, 1, 2];
  }

  /** A plan whose only detail row has no revision id. */
  lemma ThreeRowsInsert(rows: seq<Row>, reader: Reader, now: int)
    requires ThreePlanRows(rows) && Consistent(rows)
    requires ReadFrom(rows, [0, 1, 2], "PL1", 0, Chosen(), Named())
    requires Loadable(rows, Chosen(), Named(), AllRevisions, reader)
    ensures var plan := PlanOf(rows, Chosen(), Named(), AllRevisions, reader);
            && PlanInRange(rows, plan)
            && var b := BundleOf(rows, plan, "PL1"); SaveAll(rows, b, RawSources(b), now) != rows
  {
    var plan := PlanOf(rows, Chosen(), Named(), AllRevisions, reader);
    LoadedPlanIsFrom(rows, [0, 1, 2], Chosen(), Named(), AllRevisions, reader, "PL1", 0);
    OneRevisionAvailable();
    assert "01" in plan.details && plan.details["01"] == 2;
    OnlyRevisionRow(rows);
    MissingIdInserts(rows, plan, "PL1", "01", now);
  }

  /** The loader returns a plan from this history, and saving what it returned inserts rows. */
  lemma AnonymousRevisionInserts(now: int)
    ensures var rows, reader := SaveMany(History()), ResponseReader(Text);
            && ReadFrom(rows, [0, 1, 2], "PL1", 0, Chosen(), Named())
            && Loadable(rows, Chosen(), Named(), AllRevisions, reader)
            && var plan := PlanOf(rows, Chosen(), Named(), AllRevisions, reader);
            && PlanInRange(rows, plan)
            && SaveMany(History() + [Save(BundleOf(rows, plan, "PL1"), now)]) != rows
  {
    ThreeRows();
    StoredRowsArePlan();
    SavedIsConsistent(History());
    ReaderReads();
    var rows, reader := SaveMany(History()), ResponseReader(Text);
    ReadsPlan(rows);
    PlanLoads(rows, reader);
    ThreeRowsInsert(rows, reader, now);
    SavedMore(History(), BundleOf(rows, PlanOf(rows, Chosen(), Named(), AllRevisions, reader), "PL1"), now);
  }

  lemma SavedMore(saves: seq<Save>, b: Bundle, now: int)
    ensures SaveMany(saves + [Save(b, now)]) == SaveAll(SaveMany(saves), b, RawSources(b), now)
  {
    assert (saves + [Save(b, now)])[..|saves|] == saves;
  }
}
