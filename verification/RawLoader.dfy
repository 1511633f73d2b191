/** Reassembling a plan from the stored responses: `load_fresh_plan_bundle` of backend/procurement_raw.py. */
module RawLoader {
  import opened Wrappers
  import opened Collections
  import opened RawSnapshots
  import opened RawReading
  import opened RawOrder

  // ---- the newest row of each key -----------------------------------------------------------

  datatype Key = Key(revision: Option<string>, child: Option<string>, operation: string)

  function KeyOf(r: Row): Key {
    Key(r.context.revisionNumber, r.context.child, r.context.operation)
  }

  const ROW_LIMIT: nat := 5000

  /** The rows the query selects: positions in the store, each once, newest first; ties come in any order. */
  ghost predicate Listing(rows: seq<Row>, order: seq<nat>, code: string, cutoff: int) {
    && Distinct(order)
    && (forall i | i in order :: i < |rows| && Fresh(rows[i], code, cutoff))
    && (forall i: nat | i < |rows| && Fresh(rows[i], code, cutoff) :: i in order)
    && (forall a, b | 0 <= a < b < |order| ::
          order[a] < |rows| && order[b] < |rows| && NoOlder(rows, order[a], order[b]))
  }

  predicate Fresh(r: Row, code: string, cutoff: int) {
    r.context.kind == "PLAN" && r.context.code == code && r.retrievedAt >= cutoff
  }

  /** ORDER BY retrieved_at DESC, created_at DESC */
  predicate NoOlder(rows: seq<Row>, i: nat, j: nat)
    requires i < |rows| && j < |rows|
  {
    rows[i].retrievedAt > rows[j].retrievedAt
        || (rows[i].retrievedAt == rows[j].retrievedAt && rows[i].created >= rows[j].created)
  }

  /** No fresh row of the same key in the whole store is newer than i. */
  ghost predicate NewestOfKey(rows: seq<Row>, i: nat, code: string, cutoff: int) {
    && i < |rows| && Fresh(rows[i], code, cutoff)
    && forall j: nat | j < |rows| && Fresh(rows[j], code, cutoff) && KeyOf(rows[j]) == KeyOf(rows[i]) ::
        NoOlder(rows, i, j)
  }

  function LimitedOrder(order: seq<nat>): seq<nat> {
    if |order| <= ROW_LIMIT then order else order[..ROW_LIMIT]
  }

  type Newest = map<Key, nat>

  predicate InRange(rows: seq<Row>, newest: Newest) {
    forall k | k in newest :: newest[k] < |rows|
  }

  predicate PositionsIn(rows: seq<Row>, listed: seq<nat>) {
    forall a | 0 <= a < |listed| :: listed[a] < |rows|
  }

  /** The n-th listed row is the first one of its key. */
  predicate FirstOfKey(rows: seq<Row>, listed: seq<nat>, n: nat)
    requires PositionsIn(rows, listed)
  {
    n < |listed| && forall a | 0 <= a < n :: KeyOf(rows[listed[a]]) != KeyOf(rows[listed[n]])
  }

  ghost predicate IsFirst(rows: seq<Row>, listed: seq<nat>, k: Key, i: nat)
    requires PositionsIn(rows, listed)
  {
    exists n :: 0 <= n < |listed| && FirstOfKey(rows, listed, n) && listed[n] == i && KeyOf(rows[i]) == k
  }

  /** newest holds the first listed row of each key, than which the whole store has none newer. */
  ghost predicate IsNewest(rows: seq<Row>, order: seq<nat>, code: string, cutoff: int, newest: Newest) {
    && PositionsIn(rows, LimitedOrder(order))
    && (forall k | k in newest ::
          IsFirst(rows, LimitedOrder(order), k, newest[k]) && NewestOfKey(rows, newest[k], code, cutoff))
    && (forall a | 0 <= a < |LimitedOrder(order)| :: KeyOf(rows[LimitedOrder(order)[a]]) in newest)
  }

  /** `newest.setdefault`: the row limit never substitutes an older row. */
  method ReadNewest(rows: seq<Row>, order: seq<nat>, code: string, cutoff: int) returns (newest: Newest)
    requires Listing(rows, order, code, cutoff)
    ensures IsNewest(rows, order, code, cutoff, newest)
  {
    newest := map[];
    var listed := LimitedOrder(order);
    ListingLimited(rows, order, code, cutoff);
    for n := 0 to |listed|
      invariant forall k | k in newest ::
          IsFirst(rows, listed, k, newest[k]) && NewestOfKey(rows, newest[k], code, cutoff)
      invariant forall a | 0 <= a < n :: KeyOf(rows[listed[a]]) in newest
    {
      var key := KeyOf(rows[listed[n]]);
      if key !in newest {
        FirstListedIsNewest(rows, order, code, cutoff, n);
        assert FirstOfKey(rows, listed, n);
        newest := newest[key := listed[n]];
      }
    }
  }

  lemma ListingLimited(rows: seq<Row>, order: seq<nat>, code: string, cutoff: int)
    requires Listing(rows, order, code, cutoff)
    ensures forall a | 0 <= a < |LimitedOrder(order)| ::
        LimitedOrder(order)[a] < |rows| && order[a] == LimitedOrder(order)[a]
  {
    forall a | 0 <= a < |LimitedOrder(order)|
        ensures LimitedOrder(order)[a] < |rows| && order[a] == LimitedOrder(order)[a] {
      assert order[a] in order;
    }
  }

  lemma FirstListedIsNewest(rows: seq<Row>, order: seq<nat>, code: string, cutoff: int, n: nat)
    requires Listing(rows, order, code, cutoff) && n < |order| && order[n] < |rows|
    requires forall a | 0 <= a < n :: order[a] < |rows| && KeyOf(rows[order[a]]) != KeyOf(rows[order[n]])
    ensures NewestOfKey(rows, order[n], code, cutoff)
  {
    assert order[n] in order;
    forall j: nat | j < |rows| && Fresh(rows[j], code, cutoff) && KeyOf(rows[j]) == KeyOf(rows[order[n]])
      ensures NoOlder(rows, order[n], j)
    {
      assert j in order;
      var b :| 0 <= b < |order| && order[b] == j;
      assert b >= n;
    }
  }

  // ---- which rows make up the plan ----------------------------------------------------------

  datatype Mode = AllRevisions | LatestRevision | SelectedRevisions(numbers: set<string>)

  /** How responses are read: the packages a detail lists and the revisions a version list advertises. */
  datatype Reader = Reader(packageKeys: Json -> set<string>, revisionNumbers: Json -> set<string>)

  function ResponseReader(text: Json -> string): Reader {
    Reader(v => PackageKeys(text, v), v => RevisionNumbers(text, v))
  }

  function DetailKey(n: string): Key {
    Key(Some(n), None, "PLAN_DETAIL")
  }

  function PackageKey(n: string, child: string): Key {
    Key(Some(n), Some(child), "PLAN_PACKAGE_DETAIL")
  }

  function TopKey(operation: string): Key {
    Key(None, None, operation)
  }

  /** The name a top-level source gets in the bundle. */
  function SourceName(operation: string): string {
    if operation == "SEARCH" then "search" else if operation == "PLAN_VERSION_LIST" then "versionList"
        else Lower(operation)
  }

  /** The rows of the top-level sources: of several operations with one name, the last one listed is kept. */
  function NamedSources(rows: seq<Row>, newest: Newest, listed: seq<nat>): map<string, nat>
    requires PositionsIn(rows, listed)
  {
    if listed == [] then map[] else
      var last := listed[|listed| - 1];
      var rest := NamedSources(rows, newest, listed[..|listed| - 1]);
      var k := KeyOf(rows[last]);
      if k in newest && newest[k] == last && k == TopKey(k.operation) then rest[SourceName(k.operation) := last]
          else rest
  }

  function Available(newest: Newest): set<string> {
    set k | k in newest && k.revision.Some? && k == DetailKey(k.revision.value) :: k.revision.value
  }

  function SelectedOf(newest: Newest, mode: Mode): set<string> {
    match mode
    case AllRevisions => Available(newest)
    case LatestRevision => if Available(newest) == {} then {} else {LatestOf(Available(newest))}
    case SelectedRevisions(numbers) => numbers
  }

  /** The mode's demand on the advertised revisions. */
  predicate Covers(selected: set<string>, advertised: set<string>, mode: Mode) {
    && advertised != {}
    && (mode.AllRevisions? ==> advertised <= selected)
    && (mode.LatestRevision? ==> selected == {LatestOf(advertised)})
  }

  predicate Succeeds(rows: seq<Row>, sources: map<string, nat>, name: string)
    requires forall s | s in sources :: sources[s] < |rows|
  {
    name in sources && rows[sources[name]].context.success
  }

  function ListedPackages(rows: seq<Row>, newest: Newest, reader: Reader, n: string): set<string>
    requires InRange(rows, newest) && DetailKey(n) in newest
  {
    reader.packageKeys(rows[newest[DetailKey(n)]].response)
  }

  /** The version list and search succeeded, and the selection covers what they advertise. */
  predicate HeaderLoadable(rows: seq<Row>, newest: Newest, sources: map<string, nat>, mode: Mode, reader: Reader)
    requires InRange(rows, newest) && forall s | s in sources :: sources[s] < |rows|
  {
    var selected := SelectedOf(newest, mode);
    && selected != {} && selected <= Available(newest)
    && Succeeds(rows, sources, "search") && Succeeds(rows, sources, "versionList")
    && Covers(selected, reader.revisionNumbers(rows[sources["versionList"]].response), mode)
  }

  /** Every package that the revision's detail lists has a row. */
  predicate RevisionLoadable(rows: seq<Row>, newest: Newest, reader: Reader, n: string)
    requires InRange(rows, newest)
  {
    DetailKey(n) in newest && forall c | c in ListedPackages(rows, newest, reader, n) :: PackageKey(n, c) in newest
  }

  /** When the loader returns a bundle rather than None. */
  predicate Loadable(rows: seq<Row>, newest: Newest, sources: map<string, nat>, mode: Mode, reader: Reader)
    requires InRange(rows, newest) && forall s | s in sources :: sources[s] < |rows|
  {
    && HeaderLoadable(rows, newest, sources, mode, reader)
    && forall n | n in SelectedOf(newest, mode) :: RevisionLoadable(rows, newest, reader, n)
  }

  /** The chosen rows, as positions in the store: sources by name, details and packages by revision. */
  datatype Plan = Plan(sources: map<string, nat>, details: map<string, nat>, packages: map<string, map<string, nat>>)

  function PackagesOf(rows: seq<Row>, newest: Newest, reader: Reader, n: string): map<string, nat>
    requires InRange(rows, newest) && RevisionLoadable(rows, newest, reader, n)
  {
    map c | c in ListedPackages(rows, newest, reader, n) :: newest[PackageKey(n, c)]
  }

  /** Every selected revision with exactly the packages its detail lists. */
  function PlanOf(rows: seq<Row>, newest: Newest, sources: map<string, nat>, mode: Mode, reader: Reader): Plan
    requires InRange(rows, newest) && (forall s | s in sources :: sources[s] < |rows|)
    requires Loadable(rows, newest, sources, mode, reader)
  {
    var selected := SelectedOf(newest, mode);
    Plan(sources,
      map n | n in selected :: newest[DetailKey(n)],
      map n | n in selected :: PackagesOf(rows, newest, reader, n))
  }

  /** The n-th listed row is the newest of a top-level operation that goes by the name s. */
  predicate NamedAt(rows: seq<Row>, newest: Newest, listed: seq<nat>, n: nat, s: string)
    requires PositionsIn(rows, listed)
  {
    n < |listed| && var k := KeyOf(rows[listed[n]]);
    k in newest && newest[k] == listed[n] && k == TopKey(k.operation) && SourceName(k.operation) == s
  }

  /** A name is present exactly when some newest top-level row goes by it, and the last such row listed is kept. */
  lemma {:induction false} NamedSourcesMeaning(rows: seq<Row>, newest: Newest, listed: seq<nat>, s: string)
    requires PositionsIn(rows, listed)
    ensures var sources := NamedSources(rows, newest, listed);
            if s in sources then
              exists n :: 0 <= n < |listed| && NamedAt(rows, newest, listed, n, s) && sources[s] == listed[n]
                          && forall m | n < m < |listed| :: !NamedAt(rows, newest, listed, m, s)
            else
              forall n | 0 <= n < |listed| :: !NamedAt(rows, newest, listed, n, s)
  {
    if listed != [] {
      var front, last := listed[..|listed| - 1], |listed| - 1;
      NamedSourcesMeaning(rows, newest, front, s);
      forall n | 0 <= n < last ensures NamedAt(rows, newest, listed, n, s) <==> NamedAt(rows, newest, front, n, s) {}
    }
  }

  /** Every top-level operation among the newest rows appears under its name. */
  lemma EveryOperationNamed(
    rows: seq<Row>, order: seq<nat>, code: string, cutoff: int, newest: Newest, operation: string)
    requires IsNewest(rows, order, code, cutoff, newest) && TopKey(operation) in newest
    ensures SourceName(operation) in NamedSources(rows, newest, LimitedOrder(order))
  {
    var listed := LimitedOrder(order);
    var n :| 0 <= n < |listed| && FirstOfKey(rows, listed, n) && listed[n] == newest[TopKey(operation)]
             && KeyOf(rows[listed[n]]) == TopKey(operation);
    assert NamedAt(rows, newest, listed, n, SourceName(operation));
    NamedSourcesMeaning(rows, newest, listed, SourceName(operation));
  }

  lemma NamedSourceIsNewest(rows: seq<Row>, newest: Newest, listed: seq<nat>, s: string)
    requires PositionsIn(rows, listed) && s in NamedSources(rows, newest, listed)
    ensures var i := NamedSources(rows, newest, listed)[s];
            i < |rows| && var k := KeyOf(rows[i]);
            k == TopKey(k.operation) && SourceName(k.operation) == s && k in newest && newest[k] == i
  {
    NamedSourcesMeaning(rows, newest, listed, s);
  }

  method CollectSources(rows: seq<Row>, newest: Newest, listed: seq<nat>) returns (sources: map<string, nat>)
    requires PositionsIn(rows, listed)
    ensures sources == NamedSources(rows, newest, listed)
  {
    sources := map[];
    for n := 0 to |listed|
      invariant sources == NamedSources(rows, newest, listed[..n])
    {
      assert listed[..n + 1][..n] == listed[..n];
      var k := KeyOf(rows[listed[n]]);
      if k in newest && newest[k] == listed[n] && k.revision.None? && k.child.None? {
        sources := sources[SourceName(k.operation) := listed[n]];
      }
    }
    assert listed[..|listed|] == listed;
  }

  /** The package rows of one revision, or None when a listed package has no row. */
  method LoadPackages(rows: seq<Row>, newest: Newest, reader: Reader, n: string)
    returns (found: Option<map<string, nat>>)
    requires InRange(rows, newest) && DetailKey(n) in newest
    ensures found.Some? <==> RevisionLoadable(rows, newest, reader, n)
    ensures found.Some? ==> found.value == PackagesOf(rows, newest, reader, n)
  {
    var listed := ListedPackages(rows, newest, reader, n);
    var packages := map c | c in listed && PackageKey(n, c) in newest :: newest[PackageKey(n, c)];
    if packages.Keys != listed {
      assert exists c :: c in listed && PackageKey(n, c) !in newest;
      return None;
    }
    assert forall c | c in listed :: c in packages;
    return Some(packages);
  }

  /** The revisions loaded so far are loadable, each with its packages. */
  ghost predicate LoadedFor(rows: seq<Row>, newest: Newest, reader: Reader, loaded: map<string, map<string, nat>>)
    requires InRange(rows, newest)
  {
    forall n | n in loaded ::
        RevisionLoadable(rows, newest, reader, n) && loaded[n] == PackagesOf(rows, newest, reader, n)
  }

  /** The packages of every selected revision, or None. */
  method LoadRevisions(rows: seq<Row>, newest: Newest, reader: Reader, selected: set<string>)
    returns (packages: Option<map<string, map<string, nat>>>)
    requires InRange(rows, newest) && selected <= Available(newest)
    ensures packages.Some? <==> forall n | n in selected :: RevisionLoadable(rows, newest, reader, n)
    ensures packages.Some? ==> packages.value.Keys == selected && LoadedFor(rows, newest, reader, packages.value)
  {
    var loaded: map<string, map<string, nat>> := map[];
    var rest := selected;
    while rest != {}
      invariant rest <= selected && loaded.Keys == selected - rest && LoadedFor(rows, newest, reader, loaded)
      decreases |rest|
    {
      var n :| n in rest;
      assert n in Available(newest);
      var found := LoadPackages(rows, newest, reader, n);
      if found.None? {
        return None;
      }
      loaded := loaded[n := found.value];
      rest := rest - {n};
    }
    return Some(loaded);
  }

  method CheckHeader(rows: seq<Row>, newest: Newest, sources: map<string, nat>, mode: Mode, reader: Reader)
    returns (ok: bool)
    requires InRange(rows, newest) && forall s | s in sources :: sources[s] < |rows|
    ensures ok == HeaderLoadable(rows, newest, sources, mode, reader)
  {
    var selected := SelectedOf(newest, mode);
    if selected == {} || !(selected <= Available(newest)) {
      return false;
    }
    if !Succeeds(rows, sources, "search") || !Succeeds(rows, sources, "versionList") {
      return false;
    }
    var advertised := reader.revisionNumbers(rows[sources["versionList"]].response);
    if advertised == {} || (mode.AllRevisions? && !(advertised <= selected)) {
      return false;
    }
    return mode.LatestRevision? ==> selected == {LatestOf(advertised)};
  }

  method LoadPlan(rows: seq<Row>, newest: Newest, sources: map<string, nat>, mode: Mode, reader: Reader)
    returns (plan: Option<Plan>)
    requires InRange(rows, newest) && forall s | s in sources :: sources[s] < |rows|
    ensures plan.Some? <==> Loadable(rows, newest, sources, mode, reader)
    ensures plan.Some? ==> plan.value == PlanOf(rows, newest, sources, mode, reader)
  {
    var header := CheckHeader(rows, newest, sources, mode, reader);
    if !header {
      return None;
    }
    var packages := LoadRevisions(rows, newest, reader, SelectedOf(newest, mode));
    if packages.None? {
      return None;
    }
    plan := Some(Plan(sources, map n | n in SelectedOf(newest, mode) :: newest[DetailKey(n)], packages.value));
  }

  /** Every chosen row is a stored row of its own key, for the plan that was asked for. */
  ghost predicate RowFor(rows: seq<Row>, i: nat, k: Key, code: string) {
    i < |rows| && KeyOf(rows[i]) == k && rows[i].context.kind == "PLAN" && rows[i].context.code == code
  }

  ghost predicate PlanFrom(rows: seq<Row>, plan: Plan, code: string) {
    && plan.packages.Keys == plan.details.Keys
    && (forall s | s in plan.sources :: RowFor(rows, plan.sources[s], TopKey(OperationAt(rows, plan.sources[s])), code))
    && (forall n | n in plan.details :: RowFor(rows, plan.details[n], DetailKey(n), code))
    && (forall n, c | n in plan.packages && c in plan.packages[n] ::
        RowFor(rows, plan.packages[n][c], PackageKey(n, c), code))
  }

  function OperationAt(rows: seq<Row>, i: nat): string {
    if i < |rows| then rows[i].context.operation else ""
  }

  // ---- the returned bundle ------------------------------------------------------------------

  function Envelope(r: Row): Source {
    Source(r.context.operation, r.endpoint, r.request, r.response, r.error, r.context.success, r.fingerprint,
        r.retrievedAt)
  }

  /** `str(revision_id or "")` */
  function IdOf(r: Row): string {
    if r.context.revisionId.Some? then r.context.revisionId.value else ""
  }

  datatype Failure = Failure(operation: string, revision: string, revisionId: string, package: Option<string>)

  datatype Loaded = Loaded(
    bundle: Bundle, failures: seq<Failure>, complete: bool, sourceCount: nat, successCount: nat, failedCount: nat)

  predicate ChosenInRange(rows: seq<Row>, chosen: map<string, nat>) {
    forall k | k in chosen :: chosen[k] < |rows|
  }

  ghost predicate PlanInRange(rows: seq<Row>, plan: Plan) {
    && plan.packages.Keys == plan.details.Keys && ChosenInRange(rows, plan.sources) && ChosenInRange(rows, plan.details)
    && (forall n | n in plan.packages :: ChosenInRange(rows, plan.packages[n]))
  }

  /** The envelopes of the chosen rows, key by key. */
  function SourcesOf(rows: seq<Row>, chosen: map<string, nat>, keys: seq<string>): seq<Source>
    requires ChosenInRange(rows, chosen) && forall i | 0 <= i < |keys| :: keys[i] in chosen
  {
    seq(|keys|, i requires 0 <= i < |keys| => Envelope(rows[chosen[keys[i]]]))
  }

  /** One package node for each chosen row. */
  function PackagesFor(rows: seq<Row>, chosen: map<string, nat>, keys: seq<string>): seq<Package>
    requires ChosenInRange(rows, chosen) && forall i | 0 <= i < |keys| :: keys[i] in chosen
  {
    seq(|keys|, i requires 0 <= i < |keys| => Package(keys[i], [Envelope(rows[chosen[keys[i]]])]))
  }

  /** The revision node: its detail and package envelopes, all under the detail's revision id. */
  function RevisionFor(rows: seq<Row>, plan: Plan, n: string): Revision
    requires PlanInRange(rows, plan) && n in plan.details
  {
    Revision(n, Some(IdOf(rows[plan.details[n]])), [Envelope(rows[plan.details[n]])],
      PackagesFor(rows, plan.packages[n], Sorted(plan.packages[n].Keys)))
  }

  function RevisionsFor(rows: seq<Row>, plan: Plan, numbers: seq<string>): seq<Revision>
    requires PlanInRange(rows, plan) && forall i | 0 <= i < |numbers| :: numbers[i] in plan.details
  {
    seq(|numbers|, i requires 0 <= i < |numbers| => RevisionFor(rows, plan, numbers[i]))
  }

  /** The bundle of a plan; dictionary entries are listed by key. */
  function BundleOf(rows: seq<Row>, plan: Plan, code: string): Bundle
    requires PlanInRange(rows, plan)
  {
    Bundle("PLAN", code, SourcesOf(rows, plan.sources, Sorted(plan.sources.Keys)),
      RevisionsFor(rows, plan, Sorted(plan.details.Keys)))
  }

  // ---- failures and counters ----------------------------------------------------------------

  function PackageSources(packages: seq<Package>): seq<Source> {
    if packages == [] then [] else PackageSources(packages[..|packages| - 1]) + packages[|packages| - 1].sources
  }

  function RevisionSources(revisions: seq<Revision>): seq<Source> {
    if revisions == [] then [] else
      var last := revisions[|revisions| - 1];
      RevisionSources(revisions[..|revisions| - 1]) + (last.sources + PackageSources(last.packages))
  }

  /** All envelopes of a bundle. */
  function Envelopes(b: Bundle): seq<Source> {
    b.sources + RevisionSources(b.revisions)
  }

  predicate AllSucceed(sources: seq<Source>) {
    forall s | s in sources :: s.success
  }

  function PackageFailures(packages: seq<Package>, n: string, id: string): seq<Failure> {
    if packages == [] then [] else
      var last := packages[|packages| - 1];
      PackageFailures(packages[..|packages| - 1], n, id)
      + if AllSucceed(last.sources) then [] else [Failure("PLAN_PACKAGE_DETAIL", n, id, Some(last.key))]
  }

  function FailuresOf(r: Revision): seq<Failure> {
    var id := if r.revisionId.Some? then r.revisionId.value else "";
    (if AllSucceed(r.sources) then [] else [Failure("PLAN_DETAIL", r.number, id, None)])
    + PackageFailures(r.packages, r.number, id)
  }

  function AllFailures(revisions: seq<Revision>): seq<Failure> {
    if revisions == [] then [] else
      AllFailures(revisions[..|revisions| - 1]) + FailuresOf(revisions[|revisions| - 1])
  }

  lemma {:induction false} PackageFailureShows(packages: seq<Package>, n: string, id: string)
    ensures PackageFailures(packages, n, id) == [] <==> AllSucceed(PackageSources(packages))
  {
    if packages != [] {
      var front, last := packages[..|packages| - 1], packages[|packages| - 1];
      PackageFailureShows(front, n, id);
      SucceedConcat(PackageSources(front), last.sources);
    }
  }

  lemma SucceedConcat(a: seq<Source>, b: seq<Source>)
    ensures AllSucceed(a + b) <==> AllSucceed(a) && AllSucceed(b)
  {
    if AllSucceed(a + b) {
      forall s | s in a || s in b ensures s.success { assert s in a + b; }
    }
  }

  /** Some detail or package failed exactly when a failure is reported. */
  lemma {:induction false} FailuresShow(revisions: seq<Revision>)
    ensures AllFailures(revisions) == [] <==> AllSucceed(RevisionSources(revisions))
  {
    if revisions != [] {
      var front, last := revisions[..|revisions| - 1], revisions[|revisions| - 1];
      FailuresShow(front);
      RevisionFailureShows(last);
      SucceedConcat(RevisionSources(front), last.sources + PackageSources(last.packages));
    }
  }

  lemma RevisionFailureShows(r: Revision)
    ensures FailuresOf(r) == [] <==> AllSucceed(r.sources + PackageSources(r.packages))
  {
    PackageFailureShows(r.packages, r.number, if r.revisionId.Some? then r.revisionId.value else "");
    SucceedConcat(r.sources, PackageSources(r.packages));
  }

  function Successes(sources: seq<Source>): nat {
    if sources == [] then 0 else
      Successes(sources[..|sources| - 1]) + if sources[|sources| - 1].success then 1 else 0
  }

  lemma {:induction false} SuccessesBounded(sources: seq<Source>)
    ensures Successes(sources) <= |sources| && (Successes(sources) == |sources| <==> AllSucceed(sources))
  {
    if sources != [] {
      var front, last := sources[..|sources| - 1], sources[|sources| - 1];
      SuccessesBounded(front);
      assert sources == front + [last];
      SucceedConcat(front, [last]);
      assert AllSucceed([last]) <==> last.success by { assert last in [last]; }
    }
  }

  /** What the manifest of a loaded bundle says. */
  ghost predicate Counted(l: Loaded) {
    && l.failures == AllFailures(l.bundle.revisions)
    && l.sourceCount == |Envelopes(l.bundle)| && l.successCount == Successes(Envelopes(l.bundle))
    && l.successCount + l.failedCount == l.sourceCount
    && (l.complete <==> AllSucceed(Envelopes(l.bundle))) && (l.complete <==> l.failedCount == 0)
  }

  // ---- assembling ---------------------------------------------------------------------------

  method AssemblePackages(rows: seq<Row>, chosen: map<string, nat>, keys: seq<string>, n: string, id: string)
    returns (packages: seq<Package>, failures: seq<Failure>)
    requires ChosenInRange(rows, chosen) && forall i | 0 <= i < |keys| :: keys[i] in chosen
    ensures packages == PackagesFor(rows, chosen, keys) && failures == PackageFailures(packages, n, id)
  {
    packages, failures := [], [];
    for i := 0 to |keys|
      invariant packages == PackagesFor(rows, chosen, keys[..i]) && failures == PackageFailures(packages, n, id)
    {
      var source := Envelope(rows[chosen[keys[i]]]);
      var node := Package(keys[i], [source]);
      assert (packages + [node])[..i] == packages && source in node.sources;
      packages := packages + [node];
      if !source.success {
        failures := failures + [Failure("PLAN_PACKAGE_DETAIL", n, id, Some(keys[i]))];
      }
    }
    assert keys[..|keys|] == keys;
  }

  method AssembleRevision(rows: seq<Row>, plan: Plan, n: string) returns (r: Revision, failures: seq<Failure>)
    requires PlanInRange(rows, plan) && n in plan.details
    ensures r == RevisionFor(rows, plan, n) && failures == FailuresOf(r)
  {
    var detail := Envelope(rows[plan.details[n]]);
    var id := IdOf(rows[plan.details[n]]);
    failures := [];
    if !detail.success {
      failures := failures + [Failure("PLAN_DETAIL", n, id, None)];
    }
    var packages, failed := AssemblePackages(rows, plan.packages[n], Sorted(plan.packages[n].Keys), n, id);
    r := Revision(n, Some(id), [detail], packages);
    failures := failures + failed;
    FailuresOfNode(detail, n, id, packages);
  }

  lemma FailuresOfNode(detail: Source, n: string, id: string, packages: seq<Package>)
    ensures FailuresOf(Revision(n, Some(id), [detail], packages))
         == (if detail.success then [] else [Failure("PLAN_DETAIL", n, id, None)]) + PackageFailures(packages, n, id)
  {
    assert detail in [detail];
  }

  method AssembleRevisions(rows: seq<Row>, plan: Plan, numbers: seq<string>)
    returns (revisions: seq<Revision>, failures: seq<Failure>)
    requires PlanInRange(rows, plan) && forall i | 0 <= i < |numbers| :: numbers[i] in plan.details
    ensures revisions == RevisionsFor(rows, plan, numbers) && failures == AllFailures(revisions)
  {
    revisions, failures := [], [];
    for i := 0 to |numbers|
      invariant revisions == RevisionsFor(rows, plan, numbers[..i]) && failures == AllFailures(revisions)
    {
      var r, failed := AssembleRevision(rows, plan, numbers[i]);
      RevisionAppended(rows, plan, numbers, i);
      assert (revisions + [r])[..i] == revisions;
      revisions, failures := revisions + [r], failures + failed;
    }
    assert numbers[..|numbers|] == numbers;
  }

  lemma RevisionAppended(rows: seq<Row>, plan: Plan, numbers: seq<string>, i: nat)
    requires PlanInRange(rows, plan) && i < |numbers| && forall j | 0 <= j < |numbers| :: numbers[j] in plan.details
    ensures RevisionsFor(rows, plan, numbers[..i + 1]) ==
        RevisionsFor(rows, plan, numbers[..i]) + [RevisionFor(rows, plan, numbers[i])]
  {
  }

  method CountSuccesses(sources: seq<Source>) returns (n: nat)
    ensures n == Successes(sources)
  {
    n := 0;
    for i := 0 to |sources|
      invariant n == Successes(sources[..i])
    {
      assert sources[..i + 1][..i] == sources[..i];
      if sources[i].success {
        n := n + 1;
      }
    }
    assert sources[..|sources|] == sources;
  }

  method Assemble(rows: seq<Row>, plan: Plan, code: string) returns (l: Loaded)
    requires PlanInRange(rows, plan)
    ensures l.bundle == BundleOf(rows, plan, code) && Counted(l)
  {
    var revisions, failures := AssembleRevisions(rows, plan, Sorted(plan.details.Keys));
    var bundle := Bundle("PLAN", code, SourcesOf(rows, plan.sources, Sorted(plan.sources.Keys)), revisions);
    var envelopes := Envelopes(bundle);
    var succeeded := CountSuccesses(envelopes);
    SuccessesBounded(envelopes);
    FailuresShow(revisions);
    SucceedConcat(bundle.sources, RevisionSources(revisions));
    l := Loaded(bundle, failures, failures == []
        && AllSucceed(envelopes), |envelopes|, succeeded, |envelopes| - succeeded);
  }

  /** What the loader reads from the store: the newest rows, and among them the named top-level sources. */
  ghost predicate ReadFrom(
      rows: seq<Row>, order: seq<nat>, code: string, cutoff: int, newest: Newest, sources: map<string, nat>) {
    && IsNewest(rows, order, code, cutoff, newest)
    && InRange(rows, newest) && sources == NamedSources(rows, newest, LimitedOrder(order))
    && ChosenInRange(rows, sources)
  }

  /** The rows to read are determined by the query result. */
  lemma NewestUnique(rows: seq<Row>, order: seq<nat>, code: string, cutoff: int, a: Newest, b: Newest)
    requires IsNewest(rows, order, code, cutoff, a) && IsNewest(rows, order, code, cutoff, b)
    ensures a == b
  {
    var listed := LimitedOrder(order);
    forall k | k in a || k in b ensures k in a && k in b && a[k] == b[k] {
      assert IsFirst(rows, listed, k, if k in a then a[k] else b[k]);
    }
  }

  /** `load_fresh_plan_bundle` */
  method LoadFreshPlan(rows: seq<Row>, order: seq<nat>, code: string, cutoff: int, mode: Mode, text: Json -> string)
    returns (r: Option<Loaded>)
    requires Listing(rows, order, code, cutoff)
    ensures exists newest, sources :: ReadFrom(rows, order, code, cutoff, newest, sources)
    ensures forall newest, sources | ReadFrom(rows, order, code, cutoff, newest, sources) ::
              && (r.Some? <==> Loadable(rows, newest, sources, mode, ResponseReader(text)))
              && (r.Some? ==>
                    var plan := PlanOf(rows, newest, sources, mode, ResponseReader(text));
                    PlanInRange(rows, plan) && r.value.bundle == BundleOf(rows, plan, code) && Counted(r.value))
  {
    var newest := ReadNewest(rows, order, code, cutoff);
    ListingLimited(rows, order, code, cutoff);
    var sources := CollectSources(rows, newest, LimitedOrder(order));
    forall s | s in sources ensures sources[s] < |rows| { NamedSourceIsNewest(rows, newest, LimitedOrder(order), s); }
    assert ReadFrom(rows, order, code, cutoff, newest, sources);
    forall other, others | ReadFrom(rows, order, code, cutoff, other, others)
        ensures other == newest && others == sources {
      NewestUnique(rows, order, code, cutoff, newest, other);
    }
    var plan := LoadPlan(rows, newest, sources, mode, ResponseReader(text));
    if plan.None? {
      return None;
    }
    LoadedPlanIsFrom(rows, order, newest, sources, mode, ResponseReader(text), code, cutoff);
    var loaded := Assemble(rows, plan.value, code);
    r := Some(loaded);
  }

  /** The loader only chooses stored rows of the right key. */
  lemma LoadedPlanIsFrom(
      rows: seq<Row>, order: seq<nat>, newest: Newest, sources: map<string, nat>, mode: Mode, reader: Reader,
      code: string, cutoff: int)
    requires ReadFrom(rows, order, code, cutoff, newest, sources) && Loadable(rows, newest, sources, mode, reader)
    ensures PlanFrom(rows, PlanOf(rows, newest, sources, mode, reader), code)
    ensures PlanInRange(rows, PlanOf(rows, newest, sources, mode, reader))
  {
    var plan := PlanOf(rows, newest, sources, mode, reader);
    forall s | s in plan.sources
        ensures RowFor(rows, plan.sources[s], TopKey(OperationAt(rows, plan.sources[s])), code) {
      NamedSourceIsNewest(rows, newest, LimitedOrder(order), s);
    }
    forall n, c | n in plan.packages && c in plan.packages[n]
        ensures RowFor(rows, plan.packages[n][c], PackageKey(n, c), code) {
      assert PackageKey(n, c) in newest && plan.packages[n][c] == newest[PackageKey(n, c)];
    }
    forall n | n in plan.details ensures RowFor(rows, plan.details[n], DetailKey(n), code) {
      assert DetailKey(n) in newest && plan.details[n] == newest[DetailKey(n)];
    }
  }

  /** Every chosen row is the newest of its key in the whole store. */
  ghost predicate AllNewest(rows: seq<Row>, plan: Plan, code: string, cutoff: int) {
    && (forall s | s in plan.sources :: NewestOfKey(rows, plan.sources[s], code, cutoff))
    && (forall n | n in plan.details :: NewestOfKey(rows, plan.details[n], code, cutoff))
    && (forall n, c | n in plan.packages && c in plan.packages[n] ::
        NewestOfKey(rows, plan.packages[n][c], code, cutoff))
  }

  lemma PlanIsNewest(
      rows: seq<Row>, order: seq<nat>, newest: Newest, sources: map<string, nat>, mode: Mode, reader: Reader,
      code: string, cutoff: int)
    requires ReadFrom(rows, order, code, cutoff, newest, sources) && Loadable(rows, newest, sources, mode, reader)
    ensures AllNewest(rows, PlanOf(rows, newest, sources, mode, reader), code, cutoff)
  {
    var plan := PlanOf(rows, newest, sources, mode, reader);
    forall s | s in plan.sources ensures NewestOfKey(rows, plan.sources[s], code, cutoff) {
      NamedSourceIsNewest(rows, newest, LimitedOrder(order), s);
    }
    forall n, c | n in plan.packages && c in plan.packages[n]
        ensures NewestOfKey(rows, plan.packages[n][c], code, cutoff) {
      assert PackageKey(n, c) in newest && plan.packages[n][c] == newest[PackageKey(n, c)];
    }
    forall n | n in plan.details ensures NewestOfKey(rows, plan.details[n], code, cutoff) {
      assert DetailKey(n) in newest && plan.details[n] == newest[DetailKey(n)];
    }
  }

  /**
   A plan loaded in ALL mode holds every advertised revision, in LATEST mode the one advertised revision that comes
   after all others, in SELECTED mode exactly those asked for; each has the packages its detail lists and no others.
   */
  lemma PlanIsComplete(rows: seq<Row>, newest: Newest, sources: map<string, nat>, mode: Mode, reader: Reader)
    requires InRange(rows, newest) && ChosenInRange(rows, sources) && Loadable(rows, newest, sources, mode, reader)
    ensures var plan := PlanOf(rows, newest, sources, mode, reader);
            && Succeeds(rows, plan.sources, "search") && Succeeds(rows, plan.sources, "versionList")
            && var advertised := reader.revisionNumbers(rows[plan.sources["versionList"]].response);
            && advertised != {}
            && match mode {
                 case AllRevisions => advertised <= plan.details.Keys
                 case LatestRevision => exists n :: plan.details.Keys == {n} && AfterAllOthers(n, advertised)
                 case SelectedRevisions(numbers) => plan.details.Keys == numbers
               }
    ensures var plan := PlanOf(rows, newest, sources, mode, reader);
            && plan.packages.Keys == plan.details.Keys
            && forall n | n in plan.details :: plan.details[n] < |rows| &&
                 plan.packages[n].Keys == reader.packageKeys(rows[plan.details[n]].response)
  {
    var plan := PlanOf(rows, newest, sources, mode, reader);
    forall n | n in plan.details ensures plan.details[n] == newest[DetailKey(n)] && DetailKey(n) in newest {}
    if mode.LatestRevision? {
      var advertised := reader.revisionNumbers(rows[plan.sources["versionList"]].response);
      LatestMeaning(advertised, LatestOf(advertised));
      assert plan.details.Keys == {LatestOf(advertised)};
    }
  }
}
