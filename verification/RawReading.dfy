/**
 How backend/procurement_raw.py reads a stored response: which packages a plan detail lists and which revisions a
 version list advertises. Stored JSON is written with sorted keys, so objects are visited in key order.
 */
module RawReading {
  import opened RawSnapshots

  // ---- orders on text -----------------------------------------------------------------------

  /** Python's order on strings. */
  predicate Less(a: string, b: string) {
    b != "" && (a == "" || a[0] < b[0] || (a[0] == b[0] && Less(a[1..], b[1..])))
  }

  ghost predicate StrictTotal(lt: (string, string) -> bool) {
    && (forall a, b :: a != b ==> lt(a, b) || lt(b, a))
    && (forall a, b :: lt(a, b) ==> !lt(b, a))
    && (forall a, b, c :: lt(a, b) && lt(b, c) ==> lt(a, c))
  }

  lemma {:induction false} LessCompares(a: string, b: string)
    ensures a != b ==> Less(a, b) || Less(b, a)
    ensures Less(a, b) ==> !Less(b, a)
  {
    if a != "" && b != "" {
      LessCompares(a[1..], b[1..]);
      assert a == [a[0]] + a[1..] && b == [b[0]] + b[1..];
    }
  }

  lemma {:induction false} LessTransitive(a: string, b: string, c: string)
    requires Less(a, b) && Less(b, c)
    ensures Less(a, c)
  {
    if a != "" && a[0] == b[0] && b[0] == c[0] {
      LessTransitive(a[1..], b[1..], c[1..]);
    }
  }

  lemma LessIsTotal()
    ensures StrictTotal(Less)
  {
    forall a, b ensures (a != b ==> Less(a, b) || Less(b, a)) && (Less(a, b) ==> !Less(b, a)) { LessCompares(a, b); }
    forall a, b, c | Less(a, b) && Less(b, c) ensures Less(a, c) { LessTransitive(a, b, c); }
  }

  predicate IsFirst(lt: (string, string) -> bool, s: set<string>, x: string) {
    x in s && forall y | y in s && y != x :: lt(x, y)
  }

  function FirstOf(lt: (string, string) -> bool, s: set<string>): (x: string)
    requires s != {} && StrictTotal(lt)
    ensures IsFirst(lt, s, x)
  {
    FirstExists(lt, s);
    var x :| x in s && IsFirst(lt, s, x);
    x
  }

  lemma {:induction false} FirstExists(lt: (string, string) -> bool, s: set<string>)
    requires s != {} && StrictTotal(lt)
    ensures exists x :: IsFirst(lt, s, x)
  {
    var z :| z in s;
    var rest := s - {z};
    assert s == rest + {z};
    if rest == {} {
      assert IsFirst(lt, s, z);
    } else {
      FirstExists(lt, rest);
      var x :| IsFirst(lt, rest, x);
      FirstOfBoth(lt, rest, x, z);
    }
  }

  lemma FirstOfBoth(lt: (string, string) -> bool, rest: set<string>, x: string, z: string)
    requires StrictTotal(lt) && IsFirst(lt, rest, x) && z !in rest
    ensures exists f :: IsFirst(lt, rest + {z}, f)
  {
    var f := if lt(x, z) then x else z;
    assert x != z;
    forall y | y in rest + {z} && y != f ensures lt(f, y) {
      if f == z && y != x { assert lt(z, x) && lt(x, y); }
    }
    assert IsFirst(lt, rest + {z}, f);
  }

  function Sorted(s: set<string>): (r: seq<string>)
    ensures forall k :: k in r <==> k in s
    ensures |r| == |s|
    decreases |s|
  {
    if s == {} then [] else
      LessIsTotal();
      var k := FirstOf(Less, s);
      [k] + Sorted(s - {k})
  }

  // ---- walking a response -------------------------------------------------------------------

  /** The members of a list, or the values of an object in key order. */
  function Children(v: Json): (r: seq<Json>)
    ensures forall c | c in r :: c < v
    ensures v.JArray? ==> r == v.items
    ensures v.JObject? ==> (forall k | k in v.fields :: v.fields[k] in r) && |r| == |v.fields|
  {
    match v
    case JArray(items) => items
    case JObject(fields) =>
      var keys := Sorted(fields.Keys);
      assert forall i | 0 <= i < |keys| :: keys[i] in fields;
      var r := seq(|keys|, i requires 0 <= i < |keys| => fields[keys[i]]);
      assert forall k | k in fields :: fields[k] in r by { ValuesListed(fields, keys, r); }
      r
    case _ => []
  }

  lemma ValuesListed(fields: map<string, Json>, keys: seq<string>, r: seq<Json>)
    requires (forall k :: k in keys <==> k in fields) && |r| == |keys|
    requires forall i | 0 <= i < |keys| :: keys[i] in fields && r[i] == fields[keys[i]]
    ensures forall k | k in fields :: fields[k] in r
  {
    forall k | k in fields ensures fields[k] in r {
      var i :| 0 <= i < |keys| && keys[i] == k;
      assert r[i] == fields[k];
    }
  }

  predicate Truthy(v: Json) {
    match v
    case JNull => false
    case JBool(b) => b
    case JNumber(n) => n != 0
    case JString(s) => s != ""
    case JArray(items) => items != []
    case JObject(fields) => fields != map[]
  }

  type Fields = map<string, Json>

  predicate TruthyAt(row: Fields, key: string) {
    key in row && Truthy(row[key])
  }

  predicate PresentAt(row: Fields, key: string) {
    key in row && row[key] != JNull
  }

  /** The objects of a list that satisfy a test, in order. */
  function Rows(test: Fields -> bool, items: seq<Json>): seq<Fields> {
    if items == [] then [] else
      Rows(test, items[..|items| - 1])
      + if items[|items| - 1].JObject? && test(items[|items| - 1].fields) then [items[|items| - 1].fields] else []
  }

  function Longer(a: seq<Fields>, b: seq<Fields>): seq<Fields> {
    if |b| > |a| then b else a
  }

  // ---- _package_keys ------------------------------------------------------------------------

  const MAX_DEPTH: nat := 12

  /** A row names its package by idDetail, else id, else bidNo. */
  predicate Identified(row: Fields) {
    TruthyAt(row, "idDetail") || TruthyAt(row, "id") || TruthyAt(row, "bidNo")
  }

  function IdentityOf(row: Fields): Json
    requires Identified(row)
  {
    if TruthyAt(row, "idDetail") then row["idDetail"] else if TruthyAt(row, "id") then row["id"] else row["bidNo"]
  }

  function PackageRows(items: seq<Json>): seq<Fields> {
    Rows(Identified, items)
  }

  /** The nested visit, with the longest list of rows found so far. */
  function Visit(v: Json, depth: nat, best: seq<Fields>): seq<Fields>
    decreases MAX_DEPTH + 1 - depth, 0, 0
  {
    if depth > MAX_DEPTH then best
    else VisitAll(Children(v), depth + 1, if v.JArray? then Longer(best, PackageRows(v.items)) else best)
  }

  function VisitAll(items: seq<Json>, depth: nat, best: seq<Fields>): seq<Fields>
    requires 0 < depth <= MAX_DEPTH + 1
    decreases MAX_DEPTH + 1 - depth, 1, |items|
  {
    if items == [] then best
    else Visit(items[|items| - 1], depth, VisitAll(items[..|items| - 1], depth, best))
  }

  /** A list that lies in v no deeper than the visit goes. */
  ghost predicate ListWithin(v: Json, depth: nat, list: seq<Json>)
    decreases MAX_DEPTH + 1 - depth
  {
    depth <= MAX_DEPTH && (v == JArray(list) || exists c | c in Children(v) :: ListWithin(c, depth + 1, list))
  }

  /** rows are those of a list in one of the values. */
  ghost predicate VisitedIn(vs: seq<Json>, depth: nat, rows: seq<Fields>) {
    exists v, l :: v in vs && ListWithin(v, depth, l) && rows == PackageRows(l)
  }

  /** No list in the values has more rows. */
  ghost predicate NoneLonger(vs: seq<Json>, depth: nat, rows: seq<Fields>) {
    forall v, l | v in vs && ListWithin(v, depth, l) :: |PackageRows(l)| <= |rows|
  }

  function Better(best: seq<Fields>, v: Json): seq<Fields> {
    if v.JArray? then Longer(best, PackageRows(v.items)) else best
  }

  lemma VisitedBelow(v: Json, depth: nat, rows: seq<Fields>)
    requires depth <= MAX_DEPTH && VisitedIn(Children(v), depth + 1, rows)
    ensures VisitedIn([v], depth, rows)
  {
    var c, l :| c in Children(v) && ListWithin(c, depth + 1, l) && rows == PackageRows(l);
    assert v in [v] && ListWithin(v, depth, l);
  }

  lemma VisitedHere(v: Json, depth: nat, best: seq<Fields>)
    requires depth <= MAX_DEPTH
    ensures |Better(best, v)| >= |best| && (Better(best, v) == best || VisitedIn([v], depth, Better(best, v)))
  {
    if v.JArray? { assert v in [v] && ListWithin(v, depth, v.items); }
  }

  lemma NoneLongerAbove(v: Json, depth: nat, best: seq<Fields>, rows: seq<Fields>)
    requires depth <= MAX_DEPTH && |rows| >= |Better(best, v)| && NoneLonger(Children(v), depth + 1, rows)
    ensures NoneLonger([v], depth, rows)
  {
    forall l | ListWithin(v, depth, l) ensures |PackageRows(l)| <= |rows| {
      if v != JArray(l) {
        var c :| c in Children(v) && ListWithin(c, depth + 1, l);
      }
    }
  }

  lemma VisitStep(v: Json, depth: nat, best: seq<Fields>)
    requires depth <= MAX_DEPTH
    ensures Visit(v, depth, best) == VisitAll(Children(v), depth + 1, Better(best, v))
  {
  }

  /** The visit ends with best or the rows of a list of v, and no list of v has more. */
  lemma {:induction false} VisitFindsLongest(v: Json, depth: nat, best: seq<Fields>)
    ensures |Visit(v, depth, best)| >= |best|
    ensures Visit(v, depth, best) == best || VisitedIn([v], depth, Visit(v, depth, best))
    ensures NoneLonger([v], depth, Visit(v, depth, best))
    decreases MAX_DEPTH + 1 - depth, 0, 0
  {
    if depth <= MAX_DEPTH {
      var found := Visit(v, depth, best);
      VisitStep(v, depth, best);
      VisitAllFindsLongest(Children(v), depth + 1, Better(best, v));
      VisitedHere(v, depth, best);
      if VisitedIn(Children(v), depth + 1, found) { VisitedBelow(v, depth, found); }
      NoneLongerAbove(v, depth, best, found);
    }
  }

  lemma {:induction false} VisitAllFindsLongest(items: seq<Json>, depth: nat, best: seq<Fields>)
    requires 0 < depth <= MAX_DEPTH + 1
    ensures |VisitAll(items, depth, best)| >= |best|
    ensures VisitAll(items, depth, best) == best || VisitedIn(items, depth, VisitAll(items, depth, best))
    ensures NoneLonger(items, depth, VisitAll(items, depth, best))
    decreases MAX_DEPTH + 1 - depth, 1, |items|
  {
    if items != [] {
      var front, last := items[..|items| - 1], items[|items| - 1];
      var before, after := VisitAll(front, depth, best), VisitAll(items, depth, best);
      VisitAllFindsLongest(front, depth, best);
      VisitFindsLongest(last, depth, before);
      VisitedInEither(front, last, depth, before);
      VisitedInEither(front, last, depth, after);
      assert items == front + [last];
      forall v, l | v in items && ListWithin(v, depth, l) ensures |PackageRows(l)| <= |after| {
        assert v in front || v in [last];
      }
    }
  }

  lemma VisitedInEither(front: seq<Json>, last: Json, depth: nat, rows: seq<Fields>)
    ensures VisitedIn(front, depth, rows) || VisitedIn([last], depth, rows) ==> VisitedIn(front + [last], depth, rows)
  {
    if v, l :| (v in front || v in [last]) && ListWithin(v, depth, l) && rows == PackageRows(l) {
      assert v in front + [last];
    }
  }

  /** text is Python's str of a value. */
  function PackageKeys(text: Json -> string, v: Json): set<string> {
    KeysOf(text, Visit(v, 0, []))
  }

  /** The keys of a list of rows. */
  function KeysOf(text: Json -> string, rows: seq<Fields>): set<string> {
    set row | row in rows && Identified(row) :: text(IdentityOf(row))
  }

  /** rows are those of a list in v, and no list in v within the same depth has more. */
  ghost predicate LongestWithin(v: Json, rows: seq<Fields>) {
    && (exists l :: ListWithin(v, 0, l) && rows == PackageRows(l))
    && (forall l | ListWithin(v, 0, l) :: |PackageRows(l)| <= |rows|)
  }

  /** The listed packages are those of a longest list of identified rows within twelve levels, if there is any. */
  lemma PackageKeysMeaning(text: Json -> string, v: Json)
    ensures PackageKeys(text, v) != {} ==>
        exists rows :: LongestWithin(v, rows) && PackageKeys(text, v) == KeysOf(text, rows)
    ensures PackageKeys(text, v) == {} ==> forall l | ListWithin(v, 0, l) :: PackageRows(l) == []
  {
    VisitFindsLongest(v, 0, []);
    assert v in [v];
    var found := Visit(v, 0, []);
    assert PackageKeys(text, v) == KeysOf(text, found);
    if found != [] {
      var x, l :| x in [v] && ListWithin(x, 0, l) && found == PackageRows(l);
      assert LongestWithin(v, found);
      RowsPassTest(Identified, l, found[0]);
      assert text(IdentityOf(found[0])) in KeysOf(text, found);
    }
  }

  lemma {:induction false} RowsPassTest(test: Fields -> bool, items: seq<Json>, row: Fields)
    ensures row in Rows(test, items) <==> JObject(row) in items && test(row)
  {
    if items != [] {
      RowsPassTest(test, items[..|items| - 1], row);
      assert items == items[..|items| - 1] + [items[|items| - 1]];
    }
  }

  // ---- _revision_numbers --------------------------------------------------------------------

  const MAX_VISITED: nat := 100_000

  predicate Versioned(row: Fields) {
    && (TruthyAt(row, "id") || TruthyAt(row, "revisionId"))
    && (PresentAt(row, "planVersion") || PresentAt(row, "notifyVersion") || PresentAt(row, "revisionNumber"))
  }

  function VersionOf(row: Fields): Json
    requires Versioned(row)
  {
    if PresentAt(row, "planVersion") then row["planVersion"]
    else if PresentAt(row, "notifyVersion") then row["notifyVersion"]
    else row["revisionNumber"]
  }

  function RevisionRows(items: seq<Json>): seq<Fields> {
    Rows(Versioned, items)
  }

  /** The worklist: the last pending value is taken, its children are appended. */
  function Explore(pending: seq<Json>, budget: nat, best: seq<Fields>): seq<Fields>
    decreases budget
  {
    if pending == [] || budget == 0 then best else
      var v := pending[|pending| - 1];
      Explore(pending[..|pending| - 1] + Children(v), budget - 1,
        if v.JArray? then Longer(best, RevisionRows(v.items)) else best)
  }

  function ZeroFilled(s: string): string {
    if |s| >= 2 then s else if s == "+" || s == "-" then s + "0" else if |s| == 1 then "0" + s else "00"
  }

  function NumbersOf(text: Json -> string, rows: seq<Fields>): set<string> {
    set row | row in rows && Versioned(row) :: ZeroFilled(text(VersionOf(row)))
  }

  function RevisionNumbers(text: Json -> string, v: Json): set<string> {
    NumbersOf(text, Explore([v], MAX_VISITED, []))
  }

  /** `_revision_numbers`; text is the stripped str of a value. */
  method ReadRevisionNumbers(text: Json -> string, v: Json) returns (numbers: set<string>)
    ensures numbers == RevisionNumbers(text, v)
  {
    var candidates: seq<Fields>, pending, visited := [], [v], 0;
    while pending != [] && visited < MAX_VISITED
      invariant visited <= MAX_VISITED
      invariant Explore(pending, MAX_VISITED - visited, candidates) == Explore([v], MAX_VISITED, [])
      decreases MAX_VISITED - visited
    {
      var candidate := pending[|pending| - 1];
      pending := pending[..|pending| - 1];
      visited := visited + 1;
      if candidate.JArray? {
        var rows := RevisionRows(candidate.items);
        if |rows| > |candidates| {
          candidates := rows;
        }
      }
      pending := pending + Children(candidate);
    }
    numbers := NumbersOf(text, candidates);
  }

  function Sum(ns: seq<nat>): nat {
    if ns == [] then 0 else Sum(ns[..|ns| - 1]) + ns[|ns| - 1]
  }

  /** The number of values in v, v included. */
  function Size(v: Json): nat {
    var cs := Children(v);
    1 + Sum(seq(|cs|, i requires 0 <= i < |cs| => assert cs[i] in cs; Size(cs[i])))
  }

  lemma SizeMeans(v: Json)
    ensures Size(v) == 1 + Sum(Sizes(Children(v)))
  {
    var cs := Children(v);
    assert seq(|cs|, i requires 0 <= i < |cs| => assert cs[i] in cs; Size(cs[i])) == Sizes(cs);
  }

  function Sizes(vs: seq<Json>): seq<nat> {
    seq(|vs|, i requires 0 <= i < |vs| => Size(vs[i]))
  }

  /** The number of values still to be seen. */
  function Weight(pending: seq<Json>): nat {
    Sum(Sizes(pending))
  }

  lemma {:induction false} SumConcat(a: seq<nat>, b: seq<nat>)
    ensures Sum(a + b) == Sum(a) + Sum(b)
  {
    if b == [] {
      assert a + b == a;
    } else {
      assert (a + b)[..|a + b| - 1] == a + b[..|b| - 1];
      SumConcat(a, b[..|b| - 1]);
    }
  }

  lemma WeightConcat(a: seq<Json>, b: seq<Json>)
    ensures Weight(a + b) == Weight(a) + Weight(b)
  {
    assert Sizes(a + b) == Sizes(a) + Sizes(b);
    SumConcat(Sizes(a), Sizes(b));
  }

  lemma WeightOfOne(v: Json)
    ensures Weight([v]) == Size(v) == 1 + Weight(Children(v))
  {
    SizeMeans(v);
    assert Sizes([v]) == [Size(v)];
    assert [Size(v)][..0] == [];
  }

  /** Taking one value off the worklist lowers the values still to be seen by one. */
  lemma PendingSize(front: seq<Json>, v: Json)
    ensures Weight(front + [v]) == 1 + Weight(front + Children(v))
  {
    WeightConcat(front, [v]);
    WeightConcat(front, Children(v));
    WeightOfOne(v);
  }

  /** A list anywhere inside v. */
  ghost predicate ListInside(v: Json, list: seq<Json>) {
    v == JArray(list) || exists c | c in Children(v) :: ListInside(c, list)
  }

  /** rows are those of a list inside one of the values. */
  ghost predicate FoundIn(vs: seq<Json>, rows: seq<Fields>) {
    exists v, l :: v in vs && ListInside(v, l) && rows == RevisionRows(l)
  }

  lemma FoundBelow(front: seq<Json>, v: Json, rows: seq<Fields>)
    requires FoundIn(front + Children(v), rows)
    ensures FoundIn(front + [v], rows)
  {
    var c, l :| c in front + Children(v) && ListInside(c, l) && rows == RevisionRows(l);
    if c in front { assert c in front + [v]; } else { assert v in front + [v] && ListInside(v, l); }
  }

  function Improved(best: seq<Fields>, v: Json): seq<Fields> {
    if v.JArray? then Longer(best, RevisionRows(v.items)) else best
  }

  lemma ExploreStep(pending: seq<Json>, budget: nat, best: seq<Fields>)
    requires pending != [] && budget > 0
    ensures var v := pending[|pending| - 1];
            Explore(pending, budget, best)
            == Explore(pending[..|pending| - 1] + Children(v), budget - 1, Improved(best, v))
  {
  }

  lemma FoundHere(front: seq<Json>, v: Json, best: seq<Fields>)
    ensures |Improved(best, v)| >= |best| && (Improved(best, v) == best || FoundIn(front + [v], Improved(best, v)))
  {
    if v.JArray? { assert v in front + [v] && ListInside(v, v.items); }
  }

  /** best improved by the lists inside the pending values. */
  lemma {:induction false} ExploreFindsList(pending: seq<Json>, budget: nat, best: seq<Fields>)
    ensures |Explore(pending, budget, best)| >= |best|
    ensures Explore(pending, budget, best) == best || FoundIn(pending, Explore(pending, budget, best))
    decreases budget
  {
    if pending != [] && budget > 0 {
      var front, v := pending[..|pending| - 1], pending[|pending| - 1];
      assert pending == front + [v];
      ExploreStep(pending, budget, best);
      ExploreFindsList(front + Children(v), budget - 1, Improved(best, v));
      FoundHere(front, v, best);
      var r := Explore(pending, budget, best);
      if FoundIn(front + Children(v), r) { FoundBelow(front, v, r); }
    }
  }

  /** A list of n rows lies inside one of the values. */
  ghost predicate Holds(vs: seq<Json>, n: nat) {
    exists v, l :: v in vs && ListInside(v, l) && n == |RevisionRows(l)|
  }

  /** Such a list is the value taken next, or lies inside what is pending afterwards. */
  lemma StillHolds(front: seq<Json>, v: Json, n: nat, best: seq<Fields>)
    requires Holds(front + [v], n)
    ensures n <= |Improved(best, v)| || Holds(front + Children(v), n)
  {
    var p, l :| p in front + [v] && ListInside(p, l) && n == |RevisionRows(l)|;
    if p in front {
      assert p in front + Children(v);
    } else if v != JArray(l) {
      var c :| c in Children(v) && ListInside(c, l);
      assert c in front + Children(v);
    }
  }

  /** When the budget covers every pending value, no list inside them has more rows. */
  lemma {:induction false} ExploreFindsLongest(pending: seq<Json>, budget: nat, best: seq<Fields>, n: nat)
    requires Weight(pending) <= budget && Holds(pending, n)
    ensures n <= |Explore(pending, budget, best)|
    decreases budget
  {
    var front, v := pending[..|pending| - 1], pending[|pending| - 1];
    var more, next := front + Children(v), Improved(best, v);
    assert pending == front + [v];
    assert Weight(more) < budget by { PendingSize(front, v); }
    StillHolds(front, v, n, best);
    if Holds(more, n) {
      ExploreFindsLongest(more, budget - 1, next, n);
    } else {
      ExploreFindsList(more, budget - 1, next);
    }
    ExploreStep(pending, budget, best);
  }

  /** rows are those of a list in v; unless v has more than 100000 values, no list in it has more. */
  ghost predicate LongestInside(v: Json, rows: seq<Fields>) {
    && (exists l :: ListInside(v, l) && rows == RevisionRows(l))
    && (Size(v) <= MAX_VISITED ==> forall l | ListInside(v, l) :: |RevisionRows(l)| <= |rows|)
  }

  /**
   The advertised revisions are those of one list of versioned rows inside the response; when the response has at
   most 100000 values it is a longest such list, and no revision is advertised only if there is none.
   */
  lemma RevisionNumbersMeaning(text: Json -> string, v: Json)
    ensures RevisionNumbers(text, v) != {} ==>
        exists rows :: LongestInside(v, rows) && RevisionNumbers(text, v) == NumbersOf(text, rows)
    ensures RevisionNumbers(text, v) == {} && Size(v) <= MAX_VISITED ==>
        forall l | ListInside(v, l) :: RevisionRows(l) == []
  {
    var found := Explore([v], MAX_VISITED, []);
    ExploreFindsList([v], MAX_VISITED, []);
    WeightOfOne(v);
    forall other | ListInside(v, other) && Size(v) <= MAX_VISITED ensures |RevisionRows(other)| <= |found| {
      assert v in [v] && Holds([v], |RevisionRows(other)|);
      ExploreFindsLongest([v], MAX_VISITED, [], |RevisionRows(other)|);
    }
    if found != [] {
      var p, l :| p in [v] && ListInside(p, l) && found == RevisionRows(l);
      assert LongestInside(v, found);
      RowsPassTest(Versioned, l, found[0]);
      assert ZeroFilled(text(VersionOf(found[0]))) in NumbersOf(text, found);
    }
  }

  // ---- _revision_sort_key -------------------------------------------------------------------

  predicate Digits(s: string) {
    s != "" && forall x | x in s :: '0' <= x <= '9'
  }

  function Decimal(s: string): int {
    if s == "" then 0 else 10 * Decimal(s[..|s| - 1]) + (s[|s| - 1] as int - '0' as int)
  }

  /** Revisions are ordered by number, then by text; text that is no number comes first. */
  predicate Newer(a: string, b: string) {
    var x, y := if Digits(a) then Decimal(a) else -1, if Digits(b) then Decimal(b) else -1;
    x > y || (x == y && Less(b, a))
  }

  lemma NewerIsTotal()
    ensures StrictTotal(Newer)
  {
    LessIsTotal();
  }

  function LatestOf(s: set<string>): (x: string)
    requires s != {}
    ensures x in s && forall y | y in s && y != x :: Newer(x, y)
  {
    NewerIsTotal();
    FirstOf(Newer, s)
  }
}
