/** What is stored and loaded, column by column. */
module RawColumns {
  import opened Wrappers
  import opened Collections
  import opened RawSnapshots
  import opened RawReading
  import opened RawOrder
  import opened RawLoader

  // ---- secret keys --------------------------------------------------------------------------

  /** c is the letter x, in either case. */
  predicate SameLetter(c: char, x: char) {
    c == x || ('A' <= c <= 'Z' && 'a' <= x <= 'z' && c as int + 32 == x as int)
  }

  /** The word stands in the key at position i, in any letter case. */
  predicate WordAt(key: string, word: string, i: nat) {
    i + |word| <= |key| && forall j | 0 <= j < |word| :: SameLetter(key[i + j], word[j])
  }

  ghost predicate HasWord(key: string, word: string) {
    exists i: nat :: WordAt(key, word, i)
  }

  predicate OccursAt(s: string, part: string, i: nat) {
    i + |part| <= |s| && s[i..i + |part|] == part
  }

  lemma OccursFurther(s: string, part: string, i: nat)
    requires s != ""
    ensures OccursAt(s[1..], part, i) <==> OccursAt(s, part, i + 1)
  {
    if i + 1 + |part| <= |s| { assert s[1..][i..i + |part|] == s[i + 1..i + 1 + |part|]; }
  }

  lemma {:induction false} ContainsMeaning(s: string, part: string)
    ensures Contains(s, part) <==> exists i: nat :: OccursAt(s, part, i)
  {
    assert OccursAt(s, part, 0) <==> part <= s;
    if s != "" && !(part <= s) {
      ContainsMeaning(s[1..], part);
      if i: nat :| OccursAt(s, part, i) {
        OccursFurther(s, part, i - 1);
      }
      if i: nat :| OccursAt(s[1..], part, i) {
        OccursFurther(s, part, i);
      }
    }
  }

  lemma LowerWord(key: string, word: string, i: nat)
    requires forall x | x in word :: 'a' <= x <= 'z'
    ensures OccursAt(Lower(key), word, i) <==> WordAt(key, word, i)
  {
    if i + |word| <= |key| {
      forall j | 0 <= j < |word| ensures Lower(key)[i + j] == word[j] <==> SameLetter(key[i + j], word[j]) {
        assert word[j] in word;
      }
      if Lower(key)[i..i + |word|] == word {
        forall j | 0 <= j < |word| ensures Lower(key)[i + j] == word[j] {
          assert Lower(key)[i..i + |word|][j] == Lower(key)[i + j];
        }
      }
    }
  }

  lemma ContainsWord(key: string, word: string)
    requires forall x | x in word :: 'a' <= x <= 'z'
    ensures Contains(Lower(key), word) <==> HasWord(key, word)
  {
    ContainsMeaning(Lower(key), word);
    forall i: nat ensures OccursAt(Lower(key), word, i) <==> WordAt(key, word, i) { LowerWord(key, word, i); }
  }

  lemma WordsAreLower()
    ensures forall w, x | w in ["authorization", "cookie", "token", "captcha", "secret"] && x in w :: 'a' <= x <= 'z'
  {
  }

  /** A key is secret when one of the five words stands in it, in any letter case. */
  lemma SecretMeaning(key: string)
    ensures SecretKey(key) <==>
              HasWord(key, "authorization") || HasWord(key, "cookie") || HasWord(key, "token")
              || HasWord(key, "captcha") || HasWord(key, "secret")
  {
    WordsAreLower();
    ContainsWord(key, "authorization");
    ContainsWord(key, "cookie");
    ContainsWord(key, "token");
    ContainsWord(key, "captcha");
    ContainsWord(key, "secret");
    assert SECRET_PARTS == ["authorization", "cookie", "token", "captcha", "secret"];
    assert SECRET_PARTS[0] in SECRET_PARTS && SECRET_PARTS[1] in SECRET_PARTS && SECRET_PARTS[2] in SECRET_PARTS
      && SECRET_PARTS[3] in SECRET_PARTS && SECRET_PARTS[4] in SECRET_PARTS;
  }

  /** What sanitizing leaves of each value: only values under secret keys change. */
  lemma SanitizeMeaning(v: Json)
    ensures v.JObject? ==>
              && Sanitize(v).JObject? && (forall k :: k in Sanitize(v).fields <==> k in v.fields)
              && (forall k | k in v.fields && SecretKey(k) :: Sanitize(v).fields[k] == JString("[REDACTED]"))
              && (forall k | k in v.fields && !SecretKey(k) :: Sanitize(v).fields[k] == Sanitize(v.fields[k]))
    ensures v.JArray? ==>
              && Sanitize(v).JArray? && |Sanitize(v).items| == |v.items|
              && forall i | 0 <= i < |v.items| :: Sanitize(v).items[i] == Sanitize(v.items[i])
    ensures !v.JObject? && !v.JArray? ==> Sanitize(v) == v
  {
  }

  // ---- stored rows --------------------------------------------------------------------------

  /** The columns of a captured source. */
  ghost predicate Captures(r: Row, b: Bundle, o: Owned, now: int) {
    && SameCapture(r, b, o)
    && r.endpoint == o.source.endpoint && r.request == Sanitize(o.source.request)
    && r.response == Sanitize(o.source.response) && r.error == Sanitize(o.source.error)
    && r.fingerprint == o.source.fingerprint && r.retrievedAt == o.source.retrievedAt && r.created == now
  }

  /** The part of them that the dedup key is computed from. */
  ghost predicate SameCapture(r: Row, b: Bundle, o: Owned) {
    && r.context.kind == b.kind && r.context.code == b.code
    && r.context.revisionId == o.revisionId && r.context.revisionNumber == o.revisionNumber
    && r.context.child == o.child && r.context.operation == o.source.operation
    && r.context.content == Sanitize(o.source.response) && r.context.success == o.source.success
  }

  /** A save stores every source, and every row it adds has the columns of one of its sources. */
  lemma {:induction false} SavedColumns(rows: seq<Row>, b: Bundle, owned: seq<Owned>, now: int)
    ensures var after := SaveAll(rows, b, owned, now);
            && rows <= after
            && (forall o | o in owned :: exists r | r in after :: SameCapture(r, b, o))
            && (forall r | r in after && r !in rows :: exists o | o in owned :: Captures(r, b, o, now))
    decreases owned
  {
    if owned != [] {
      var o := owned[0];
      var next := if Stored(rows, ContextOf(b, o)) then rows else rows + [RowOf(b, o, now)];
      SavedColumns(next, b, owned[1..], now);
      var after := SaveAll(rows, b, owned, now);
      assert after == SaveAll(next, b, owned[1..], now) && owned == [o] + owned[1..];
      assert exists r | r in next :: SameCapture(r, b, o) by {
        if next == rows {
          var r :| r in rows && r.context == ContextOf(b, o);
          assert SameCapture(r, b, o);
        } else {
          assert RowOf(b, o, now) in next && SameCapture(RowOf(b, o, now), b, o);
        }
      }
      forall r | r in after && r !in rows ensures exists x | x in owned :: Captures(r, b, x, now) {
        if r in next {
          assert r == RowOf(b, o, now) && o in owned && Captures(r, b, o, now);
        } else {
          var x :| x in owned[1..] && Captures(r, b, x, now);
          assert x in owned;
        }
      }
    }
  }

  /** The envelope of a stored row gives back the captured source, sanitized. */
  lemma EnvelopeMeaning(r: Row, b: Bundle, o: Owned, now: int)
    requires Captures(r, b, o, now)
    ensures var e := Envelope(r);
            && e.operation == o.source.operation && e.endpoint == o.source.endpoint
            && e.request == Sanitize(o.source.request) && e.response == Sanitize(o.source.response)
            && e.error == Sanitize(o.source.error) && e.success == o.source.success
            && e.fingerprint == o.source.fingerprint && e.retrievedAt == o.source.retrievedAt
  {
  }

  // ---- what the loader reads ----------------------------------------------------------------

  /** A row of the plan asked for that is fresh enough. */
  predicate Asked(r: Row, code: string, cutoff: int) {
    r.context.kind == "PLAN" && r.context.code == code && r.retrievedAt >= cutoff
  }

  predicate SameSlot(r: Row, q: Row) {
    && r.context.revisionNumber == q.context.revisionNumber && r.context.child == q.context.child
    && r.context.operation == q.context.operation
  }

  /** No row asked for under the same revision, package and operation is newer. */
  ghost predicate NoneNewer(rows: seq<Row>, i: nat, code: string, cutoff: int) {
    && i < |rows| && Asked(rows[i], code, cutoff)
    && forall q | q in rows && Asked(q, code, cutoff) && SameSlot(q, rows[i]) ::
         q.retrievedAt < rows[i].retrievedAt
         || (q.retrievedAt == rows[i].retrievedAt && q.created <= rows[i].created)
  }

  lemma NewestMeaning(rows: seq<Row>, i: nat, code: string, cutoff: int)
    ensures NewestOfKey(rows, i, code, cutoff) <==> NoneNewer(rows, i, code, cutoff)
  {
    if NewestOfKey(rows, i, code, cutoff) {
      forall q | q in rows && Asked(q, code, cutoff) && SameSlot(q, rows[i])
        ensures q.retrievedAt < rows[i].retrievedAt
                || (q.retrievedAt == rows[i].retrievedAt && q.created <= rows[i].created)
      {
        var j :| 0 <= j < |rows| && rows[j] == q;
        assert Fresh(rows[j], code, cutoff) && KeyOf(rows[j]) == KeyOf(rows[i]) && NoOlder(rows, i, j);
      }
    }
    if NoneNewer(rows, i, code, cutoff) {
      forall j: nat | j < |rows| && Fresh(rows[j], code, cutoff) && KeyOf(rows[j]) == KeyOf(rows[i])
        ensures NoOlder(rows, i, j)
      {
        assert rows[j] in rows && SameSlot(rows[j], rows[i]);
      }
    }
  }

  /** Every one of the first 5000 listed rows has its slot filled, by the first listed row of that slot. */
  lemma FirstFiveThousand(rows: seq<Row>, order: seq<nat>, code: string, cutoff: int, newest: Newest, a: nat)
    requires Listing(rows, order, code, cutoff) && IsNewest(rows, order, code, cutoff, newest)
    requires a < |order| && a < 5000
    ensures order[a] < |rows| && var k := KeyOf(rows[order[a]]);
            k in newest && newest[k] < |rows| && SameSlot(rows[newest[k]], rows[order[a]])
            && NoneNewer(rows, newest[k], code, cutoff)
  {
    ListingLimited(rows, order, code, cutoff);
    assert LimitedOrder(order)[a] == order[a];
    var k := KeyOf(rows[order[a]]);
    NewestMeaning(rows, newest[k], code, cutoff);
  }

  /** The names of the two sources that must succeed, and of all others. */
  lemma SourceNames(operation: string)
    ensures SourceName("SEARCH") == "search" && SourceName("PLAN_VERSION_LIST") == "versionList"
    ensures operation != "SEARCH" && operation != "PLAN_VERSION_LIST" ==>
              |SourceName(operation)| == |operation|
              && forall i | 0 <= i < |operation| ::
                   if 'A' <= operation[i] <= 'Z' then SourceName(operation)[i] as int == operation[i] as int + 32
                   else SourceName(operation)[i] == operation[i]
  {
  }

  /** The row chosen for a slot. */
  ghost predicate InSlot(rows: seq<Row>, i: nat, number: Option<string>, child: Option<string>, operation: string) {
    && i < |rows| && rows[i].context.revisionNumber == number && rows[i].context.child == child
    && rows[i].context.operation == operation
  }

  /** The rows of a loaded plan lie in the slots they stand for, and none is outdated. */
  lemma PlanColumns(
      rows: seq<Row>, order: seq<nat>, newest: Newest, sources: map<string, nat>, mode: Mode, reader: Reader,
      code: string, cutoff: int)
    requires ReadFrom(rows, order, code, cutoff, newest, sources) && Loadable(rows, newest, sources, mode, reader)
    ensures var plan := PlanOf(rows, newest, sources, mode, reader);
            && (forall n | n in plan.details ::
                  && InSlot(rows, plan.details[n], Some(n), None, "PLAN_DETAIL")
                  && NoneNewer(rows, plan.details[n], code, cutoff))
            && (forall n, c | n in plan.packages && c in plan.packages[n] ::
                  && InSlot(rows, plan.packages[n][c], Some(n), Some(c), "PLAN_PACKAGE_DETAIL")
                  && NoneNewer(rows, plan.packages[n][c], code, cutoff))
            && (forall s | s in plan.sources ::
                  && plan.sources[s] < |rows|
                  && InSlot(rows, plan.sources[s], None, None, rows[plan.sources[s]].context.operation)
                  && SourceName(rows[plan.sources[s]].context.operation) == s
                  && NoneNewer(rows, plan.sources[s], code, cutoff))
  {
    var plan := PlanOf(rows, newest, sources, mode, reader);
    LoadedPlanIsFrom(rows, order, newest, sources, mode, reader, code, cutoff);
    PlanIsNewest(rows, order, newest, sources, mode, reader, code, cutoff);
    forall n | n in plan.details
      ensures InSlot(rows, plan.details[n], Some(n), None, "PLAN_DETAIL")
          && NoneNewer(rows, plan.details[n], code, cutoff)
    {
      assert RowFor(rows, plan.details[n], DetailKey(n), code);
      NewestMeaning(rows, plan.details[n], code, cutoff);
    }
    forall n, c | n in plan.packages && c in plan.packages[n]
      ensures InSlot(rows, plan.packages[n][c], Some(n), Some(c), "PLAN_PACKAGE_DETAIL")
      ensures NoneNewer(rows, plan.packages[n][c], code, cutoff)
    {
      assert RowFor(rows, plan.packages[n][c], PackageKey(n, c), code);
      NewestMeaning(rows, plan.packages[n][c], code, cutoff);
    }
    forall s | s in plan.sources
      ensures plan.sources[s] < |rows|
      ensures InSlot(rows, plan.sources[s], None, None, rows[plan.sources[s]].context.operation)
      ensures SourceName(rows[plan.sources[s]].context.operation) == s && NoneNewer(rows, plan.sources[s], code, cutoff)
    {
      NamedSourceIsNewest(rows, newest, LimitedOrder(order), s);
      NewestMeaning(rows, plan.sources[s], code, cutoff);
    }
  }

  // ---- when a plan is loaded ----------------------------------------------------------------

  /** The revisions a stored detail row exists for. */
  ghost predicate HasDetail(newest: Newest, n: string) {
    Key(Some(n), None, "PLAN_DETAIL") in newest
  }

  /** The selection of a mode. */
  ghost predicate Selects(newest: Newest, mode: Mode, selected: set<string>) {
    match mode
    case AllRevisions => forall n :: n in selected <==> HasDetail(newest, n)
    case LatestRevision =>
      if exists n :: HasDetail(newest, n) then
        exists n :: selected == {n} && HasDetail(newest, n)
                    && forall y | HasDetail(newest, y) && y != n :: RevisionAfter(n, y)
      else selected == {}
    case SelectedRevisions(numbers) => selected == numbers
  }

  lemma AvailableMeaning(newest: Newest, n: string)
    ensures n in Available(newest) <==> HasDetail(newest, n)
  {
    if HasDetail(newest, n) {
      var k := Key(Some(n), None, "PLAN_DETAIL");
      assert k in newest && k == DetailKey(k.revision.value);
    }
  }

  lemma SelectionMeaning(newest: Newest, mode: Mode)
    ensures Selects(newest, mode, SelectedOf(newest, mode))
  {
    forall n ensures n in Available(newest) <==> HasDetail(newest, n) { AvailableMeaning(newest, n); }
    if mode.LatestRevision? && Available(newest) != {} {
      var n := LatestOf(Available(newest));
      LatestMeaning(Available(newest), n);
      assert HasDetail(newest, n);
    }
  }

  /** A revision all of whose listed packages have rows. */
  ghost predicate DetailComplete(rows: seq<Row>, newest: Newest, reader: Reader, n: string)
    requires InRange(rows, newest)
  {
    var k := Key(Some(n), None, "PLAN_DETAIL");
    k in newest && forall c | c in reader.packageKeys(rows[newest[k]].response) ::
      Key(Some(n), Some(c), "PLAN_PACKAGE_DETAIL") in newest
  }

  lemma CompleteMeaning(rows: seq<Row>, newest: Newest, reader: Reader, n: string)
    requires InRange(rows, newest)
    ensures DetailComplete(rows, newest, reader, n) <==> RevisionLoadable(rows, newest, reader, n)
  {
    if DetailComplete(rows, newest, reader, n) {
      forall c | c in ListedPackages(rows, newest, reader, n) ensures PackageKey(n, c) in newest {
        assert Key(Some(n), Some(c), "PLAN_PACKAGE_DETAIL") == PackageKey(n, c);
      }
    }
    if RevisionLoadable(rows, newest, reader, n) {
      forall c | c in reader.packageKeys(rows[newest[DetailKey(n)]].response)
        ensures Key(Some(n), Some(c), "PLAN_PACKAGE_DETAIL") in newest
      {
        assert c in ListedPackages(rows, newest, reader, n) && PackageKey(n, c) in newest;
      }
    }
  }

  ghost predicate SourceSucceeds(rows: seq<Row>, sources: map<string, nat>, name: string) {
    name in sources && sources[name] < |rows| && rows[sources[name]].context.success
  }

  /** The exact condition under which a plan is loaded. */
  lemma LoadableMeaning(rows: seq<Row>, newest: Newest, sources: map<string, nat>, mode: Mode, reader: Reader)
    requires InRange(rows, newest) && ChosenInRange(rows, sources)
    ensures Loadable(rows, newest, sources, mode, reader) <==>
              && SourceSucceeds(rows, sources, "search") && SourceSucceeds(rows, sources, "versionList")
              && var advertised := reader.revisionNumbers(rows[sources["versionList"]].response);
              && advertised != {}
              && exists selected ::
                   && Selects(newest, mode, selected) && selected != {}
                   && (forall n | n in selected :: DetailComplete(rows, newest, reader, n))
                   && (mode.AllRevisions? ==> advertised <= selected)
                   && (mode.LatestRevision? ==>
                         exists n :: selected == {n} && AfterAllOthers(n, advertised))
  {
    SelectionMeaning(newest, mode);
    forall n ensures n in Available(newest) <==> HasDetail(newest, n) { AvailableMeaning(newest, n); }
    forall n ensures DetailComplete(rows, newest, reader, n) <==> RevisionLoadable(rows, newest, reader, n) {
      CompleteMeaning(rows, newest, reader, n);
    }
    if SourceSucceeds(rows, sources, "versionList") {
      var advertised := reader.revisionNumbers(rows[sources["versionList"]].response);
      if advertised != {} {
        LatestMeaning(advertised, LatestOf(advertised));
        forall n | AfterAllOthers(n, advertised) ensures n == LatestOf(advertised) {
          LatestMeaning(advertised, n);
        }
      }
    }
    forall selected | Selects(newest, mode, selected) ensures selected == SelectedOf(newest, mode) {
      SelectionUnique(newest, mode, selected);
    }
  }

  lemma SelectionUnique(newest: Newest, mode: Mode, selected: set<string>)
    requires Selects(newest, mode, selected)
    ensures selected == SelectedOf(newest, mode)
  {
    forall n ensures n in Available(newest) <==> HasDetail(newest, n) { AvailableMeaning(newest, n); }
    if mode.LatestRevision? && Available(newest) != {} {
      var m := LatestOf(Available(newest));
      assert HasDetail(newest, m);
      var n :| selected == {n} && HasDetail(newest, n)
               && forall y | HasDetail(newest, y) && y != n :: RevisionAfter(n, y);
      LatestMeaning(Available(newest), n);
    }
  }

  // ---- failures and counters ----------------------------------------------------------------

  ghost predicate Fails(sources: seq<Source>) {
    exists s | s in sources :: !s.success
  }

  /** Which failures are reported. */
  lemma {:induction false} FailureMeaning(revisions: seq<Revision>, f: Failure)
    ensures f in AllFailures(revisions) <==>
              exists r | r in revisions ::
                && f.revision == r.number && f.revisionId == (if r.revisionId.Some? then r.revisionId.value else "")
                && ((f.operation == "PLAN_DETAIL" && f.package == None && Fails(r.sources))
                    || (f.operation == "PLAN_PACKAGE_DETAIL"
                        && exists p | p in r.packages :: f.package == Some(p.key) && Fails(p.sources)))
  {
    if revisions != [] {
      var front, last := revisions[..|revisions| - 1], revisions[|revisions| - 1];
      FailureMeaning(front, f);
      assert revisions == front + [last];
      PackageFailureMeaning(last.packages, last.number, if last.revisionId.Some? then last.revisionId.value else "", f);
      assert AllSucceed(last.sources) <==> !Fails(last.sources);
    }
  }

  lemma {:induction false} PackageFailureMeaning(packages: seq<Package>, n: string, id: string, f: Failure)
    ensures f in PackageFailures(packages, n, id) <==>
              f.operation == "PLAN_PACKAGE_DETAIL" && f.revision == n && f.revisionId == id
              && exists p | p in packages :: f.package == Some(p.key) && Fails(p.sources)
  {
    if packages != [] {
      var front, last := packages[..|packages| - 1], packages[|packages| - 1];
      PackageFailureMeaning(front, n, id, f);
      assert packages == front + [last];
      assert AllSucceed(last.sources) <==> !Fails(last.sources);
    }
  }

  /** The success count is the number of successful positions. */
  lemma {:induction false} SuccessesMeaning(sources: seq<Source>)
    ensures Successes(sources) == |set i: nat | i < |sources| && sources[i].success|
  {
    var good := set i: nat | i < |sources| && sources[i].success;
    if sources != [] {
      var front, last := sources[..|sources| - 1], |sources| - 1;
      SuccessesMeaning(front);
      var before := set i: nat | i < |front| && front[i].success;
      if sources[last].success {
        assert good == before + {last};
      } else {
        assert good == before;
      }
    }
  }

  /** Every source of the bundle is an envelope to be counted, and nothing else is. */
  lemma EnvelopesMeaning(b: Bundle, s: Source)
    ensures s in Envelopes(b) <==>
              s in b.sources
              || exists r | r in b.revisions :: s in r.sources || exists p | p in r.packages :: s in p.sources
  {
    RevisionSourcesMeaning(b.revisions, s);
  }

  lemma {:induction false} RevisionSourcesMeaning(revisions: seq<Revision>, s: Source)
    ensures s in RevisionSources(revisions) <==>
              exists r | r in revisions :: s in r.sources || exists p | p in r.packages :: s in p.sources
  {
    if revisions != [] {
      var front, last := revisions[..|revisions| - 1], revisions[|revisions| - 1];
      RevisionSourcesMeaning(front, s);
      PackageSourcesMeaning(last.packages, s);
      assert revisions == front + [last];
    }
  }

  lemma {:induction false} PackageSourcesMeaning(packages: seq<Package>, s: Source)
    ensures s in PackageSources(packages) <==> exists p | p in packages :: s in p.sources
  {
    if packages != [] {
      var front, last := packages[..|packages| - 1], packages[|packages| - 1];
      PackageSourcesMeaning(front, s);
      assert packages == front + [last];
    }
  }

  ghost predicate OneSourceEach(r: Revision) {
    |r.sources| == 1 && forall p | p in r.packages :: |p.sources| == 1
  }

  /** Each revision counts once for itself and once for each of its packages. */
  lemma {:induction false} SourceCount(revisions: seq<Revision>)
    requires forall r | r in revisions :: OneSourceEach(r)
    ensures |RevisionSources(revisions)| == Sum(CountsOf(revisions))
  {
    if revisions != [] {
      var front, last := revisions[..|revisions| - 1], revisions[|revisions| - 1];
      SourceCount(front);
      assert OneSourceEach(last);
      PackageCount(last.packages);
      assert CountsOf(revisions)[..|front|] == CountsOf(front);
    }
  }

  function CountsOf(revisions: seq<Revision>): seq<nat> {
    seq(|revisions|, i requires 0 <= i < |revisions| => 1 + |revisions[i].packages|)
  }

  lemma {:induction false} PackageCount(packages: seq<Package>)
    requires forall p | p in packages :: |p.sources| == 1
    ensures |PackageSources(packages)| == |packages|
  {
    if packages != [] {
      assert packages == packages[..|packages| - 1] + [packages[|packages| - 1]];
      PackageCount(packages[..|packages| - 1]);
    }
  }

  // ---- the returned bundle ------------------------------------------------------------------

  /** A loaded bundle lists exactly the chosen rows, each under its own name, revision and package. */
  lemma BundleMeaning(rows: seq<Row>, plan: Plan, code: string)
    requires PlanInRange(rows, plan)
    ensures var b := BundleOf(rows, plan, code);
            && b.kind == "PLAN" && b.code == code && |b.sources| == |plan.sources| && |b.revisions| == |plan.details|
            && (forall s | s in plan.sources :: Envelope(rows[plan.sources[s]]) in b.sources)
            && (forall n | n in plan.details :: RevisionFor(rows, plan, n) in b.revisions)
    ensures forall n | n in plan.details ::
              var r := RevisionFor(rows, plan, n); var d := rows[plan.details[n]];
              && r.number == n && r.sources == [Envelope(d)] && |r.packages| == |plan.packages[n]|
              && r.revisionId == Some(if d.context.revisionId.Some? then d.context.revisionId.value else "")
              && forall c | c in plan.packages[n] :: Package(c, [Envelope(rows[plan.packages[n][c]])]) in r.packages
  {
    var b := BundleOf(rows, plan, code);
    var names, numbers := Sorted(plan.sources.Keys), Sorted(plan.details.Keys);
    forall s | s in plan.sources ensures Envelope(rows[plan.sources[s]]) in b.sources {
      var i :| 0 <= i < |names| && names[i] == s;
      assert b.sources[i] == Envelope(rows[plan.sources[s]]);
    }
    forall n | n in plan.details ensures RevisionFor(rows, plan, n) in b.revisions {
      var i :| 0 <= i < |numbers| && numbers[i] == n;
      assert b.revisions[i] == RevisionFor(rows, plan, n);
    }
    forall n, c | n in plan.details && c in plan.packages[n]
      ensures Package(c, [Envelope(rows[plan.packages[n][c]])]) in RevisionFor(rows, plan, n).packages
    {
      PackageListed(rows, plan, n, c);
    }
  }

  lemma PackageListed(rows: seq<Row>, plan: Plan, n: string, c: string)
    requires PlanInRange(rows, plan) && n in plan.details && c in plan.packages[n]
    ensures Package(c, [Envelope(rows[plan.packages[n][c]])]) in RevisionFor(rows, plan, n).packages
  {
    var keys := Sorted(plan.packages[n].Keys);
    var i :| 0 <= i < |keys| && keys[i] == c;
    assert RevisionFor(rows, plan, n).packages[i] == Package(c, [Envelope(rows[plan.packages[n][c]])]);
  }
}
