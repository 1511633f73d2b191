/** Which list of a response the reader settles on, and which fields of its rows it reads. */
module RawSearch {
  import opened RawSnapshots
  import opened RawReading
  import opened RawOrder

  // ---- fields of a row ----------------------------------------------------------------------

  /** The field is there and Python takes it for true. */
  predicate Counts(row: Fields, key: string) {
    && key in row && row[key] != JNull && row[key] != JBool(false) && row[key] != JNumber(0)
    && row[key] != JString("") && row[key] != JArray([]) && row[key] != JObject(map[])
  }

  lemma CountsMeaning(row: Fields, key: string)
    ensures TruthyAt(row, key) <==> Counts(row, key)
  {
  }

  predicate Given(row: Fields, key: string) {
    key in row && row[key] != JNull
  }

  /** A row is identified by idDetail, else by id, else by bidNo. */
  lemma IdentityMeaning(row: Fields)
    ensures Identified(row) <==> Counts(row, "idDetail") || Counts(row, "id") || Counts(row, "bidNo")
    ensures Counts(row, "idDetail") ==> IdentityOf(row) == row["idDetail"]
    ensures !Counts(row, "idDetail") && Counts(row, "id") ==> IdentityOf(row) == row["id"]
    ensures !Counts(row, "idDetail") && !Counts(row, "id") && Counts(row, "bidNo") ==> IdentityOf(row) == row["bidNo"]
  {
    CountsMeaning(row, "idDetail");
    CountsMeaning(row, "id");
    CountsMeaning(row, "bidNo");
  }

  /** A row that has an id carries a revision by planVersion, else by notifyVersion, else by revisionNumber. */
  lemma VersionMeaning(row: Fields)
    ensures Versioned(row) <==>
              && (Counts(row, "id") || Counts(row, "revisionId"))
              && (Given(row, "planVersion") || Given(row, "notifyVersion") || Given(row, "revisionNumber"))
    ensures Versioned(row) && Given(row, "planVersion") ==> VersionOf(row) == row["planVersion"]
    ensures Versioned(row) && !Given(row, "planVersion") && Given(row, "notifyVersion") ==>
              VersionOf(row) == row["notifyVersion"]
    ensures Versioned(row) && !Given(row, "planVersion") && !Given(row, "notifyVersion") ==>
              Given(row, "revisionNumber") && VersionOf(row) == row["revisionNumber"]
  {
    CountsMeaning(row, "id");
    CountsMeaning(row, "revisionId");
  }

  /** A number is filled up to two characters with zeros, after the sign if there is one. */
  lemma FilledMeaning(s: string)
    ensures |ZeroFilled(s)| >= 2
    ensures |s| >= 2 ==> ZeroFilled(s) == s
    ensures |s| == 1 && s[0] !in "+-" ==> ZeroFilled(s) == ['0', s[0]]
    ensures |s| == 1 && s[0] in "+-" ==> ZeroFilled(s) == [s[0], '0']
    ensures s == "" ==> ZeroFilled(s) == "00"
  {
    if |s| == 1 { assert s == [s[0]]; }
  }

  // ---- the rows of a list -------------------------------------------------------------------

  predicate Passing(test: Fields -> bool, items: seq<Json>, p: nat) {
    p < |items| && items[p].JObject? && test(items[p].fields)
  }

  /** The rows stand at the given positions, which are those of the passing objects in their order. */
  ghost predicate RowsAt(test: Fields -> bool, items: seq<Json>, positions: seq<nat>, rows: seq<Fields>) {
    && |positions| == |rows|
    && (forall i | 0 <= i < |rows| :: Passing(test, items, positions[i]) && items[positions[i]].fields == rows[i])
    && (forall i, j | 0 <= i < j < |rows| :: positions[i] < positions[j])
    && (forall p: nat | Passing(test, items, p) :: p in positions)
  }

  lemma {:induction false} RowsMeaning(test: Fields -> bool, items: seq<Json>)
    ensures exists positions: seq<nat> :: RowsAt(test, items, positions, Rows(test, items))
  {
    if items == [] {
      var none: seq<nat> := [];
      assert RowsAt(test, items, none, Rows(test, items));
    } else {
      var front, last := items[..|items| - 1], |items| - 1;
      RowsMeaning(test, front);
      var positions: seq<nat> :| RowsAt(test, front, positions, Rows(test, front));
      OneMore(test, items, positions, Rows(test, front));
      assert exists ps: seq<nat> :: RowsAt(test, items, ps, Rows(test, items)) by {
        if Passing(test, items, last) {
          assert Rows(test, items) == Rows(test, front) + [items[last].fields];
          assert RowsAt(test, items, positions + [last], Rows(test, items));
        } else {
          assert Rows(test, items) == Rows(test, front);
        }
      }
    }
  }

  lemma OneMore(test: Fields -> bool, items: seq<Json>, positions: seq<nat>, rows: seq<Fields>)
    requires items != [] && RowsAt(test, items[..|items| - 1], positions, rows)
    ensures var last := |items| - 1;
            if Passing(test, items, last) then RowsAt(test, items, positions + [last], rows + [items[last].fields])
            else RowsAt(test, items, positions, rows)
  {
    var front, last := items[..|items| - 1], |items| - 1;
    forall i | 0 <= i < |rows|
      ensures positions[i] < last && Passing(test, items, positions[i]) && items[positions[i]].fields == rows[i]
    {
      assert Passing(test, front, positions[i]) && front[positions[i]] == items[positions[i]];
    }
    forall p: nat | p < last && Passing(test, items, p) ensures p in positions { assert Passing(test, front, p); }
  }

  // ---- the values of a response in visiting order -------------------------------------------

  /** The values of an object are visited in the order of its keys. */
  ghost predicate InKeyOrder(fields: map<string, Json>, keys: seq<string>, values: seq<Json>) {
    && |keys| == |values| == |fields|
    && (forall i | 0 <= i < |keys| :: keys[i] in fields && values[i] == fields[keys[i]])
    && (forall i, j | 0 <= i < j < |keys| :: TextBefore(keys[i], keys[j]))
  }

  lemma {:induction false} SortedMeaning(s: set<string>)
    ensures forall i, j | 0 <= i < j < |Sorted(s)| :: TextBefore(Sorted(s)[i], Sorted(s)[j])
    decreases |s|
  {
    if s != {} {
      LessIsTotal();
      var k := FirstOf(Less, s);
      SortedMeaning(s - {k});
      var rest := Sorted(s - {k});
      assert Sorted(s) == [k] + rest;
      forall j | 0 <= j < |rest| ensures TextBefore(k, rest[j]) {
        assert rest[j] in s - {k};
        LessMeaning(k, rest[j]);
      }
    }
  }

  lemma ChildrenMeaning(v: Json)
    ensures v.JArray? ==> Children(v) == v.items
    ensures v.JObject? ==> exists keys :: InKeyOrder(v.fields, keys, Children(v))
    ensures !v.JArray? && !v.JObject? ==> Children(v) == []
  {
    if v.JObject? {
      SortedMeaning(v.fields.Keys);
      assert InKeyOrder(v.fields, Sorted(v.fields.Keys), Children(v));
    }
  }

  /** A value, then everything below it from left to right, down to the given number of levels. */
  function LeftToRight(v: Json, levels: nat): seq<Json>
    decreases levels, 1, 0
  {
    [v] + if levels == 0 then [] else AllLeftToRight(Children(v), levels)
  }

  function AllLeftToRight(vs: seq<Json>, levels: nat): seq<Json>
    requires levels > 0
    decreases levels, 0, |vs|
  {
    if vs == [] then [] else AllLeftToRight(vs[..|vs| - 1], levels) + LeftToRight(vs[|vs| - 1], levels - 1)
  }

  /** A value, then everything below it from right to left. */
  function RightToLeft(v: Json): seq<Json>
    decreases Size(v), 0, 0
  {
    WeightOfOne(v);
    [v] + AllRightToLeft(Children(v))
  }

  function AllRightToLeft(vs: seq<Json>): seq<Json>
    decreases Weight(vs), 1
  {
    if vs == [] then [] else
      WeightSplits(vs);
      RightToLeft(vs[|vs| - 1]) + AllRightToLeft(vs[..|vs| - 1])
  }

  lemma WeightSplits(vs: seq<Json>)
    requires vs != []
    ensures Weight(vs) == Weight(vs[..|vs| - 1]) + Size(vs[|vs| - 1])
  {
    var front, last := vs[..|vs| - 1], vs[|vs| - 1];
    assert vs == front + [last];
    WeightConcat(front, [last]);
    WeightOfOne(last);
  }

  /** The rows of a list; any other value has none. */
  function RowsOf(test: Fields -> bool): Json -> seq<Fields> {
    (v: Json) => if v.JArray? then Rows(test, v.items) else []
  }

  /** The best list of rows after visiting the values in order. */
  function Best(rowsOf: Json -> seq<Fields>, best: seq<Fields>, values: seq<Json>): seq<Fields> {
    if values == [] then best
    else Longer(Best(rowsOf, best, values[..|values| - 1]), rowsOf(values[|values| - 1]))
  }

  lemma {:induction false} BestConcat(
      rowsOf: Json -> seq<Fields>, best: seq<Fields>, a: seq<Json>, b: seq<Json>)
    ensures Best(rowsOf, best, a + b) == Best(rowsOf, Best(rowsOf, best, a), b)
  {
    if b == [] {
      assert a + b == a;
    } else {
      assert (a + b)[..|a + b| - 1] == a + b[..|b| - 1];
      BestConcat(rowsOf, best, a, b[..|b| - 1]);
    }
  }

  lemma BestFirst(rowsOf: Json -> seq<Fields>, best: seq<Fields>, v: Json, rest: seq<Json>)
    ensures Best(rowsOf, best, [v] + rest) == Best(rowsOf, Longer(best, rowsOf(v)), rest)
  {
    BestConcat(rowsOf, best, [v], rest);
    assert [v][..0] == [] && Best(rowsOf, best, []) == best;
  }

  /** The rows of the first value that has the most of them. */
  ghost predicate FirstLongest(rowsOf: Json -> seq<Fields>, values: seq<Json>, rows: seq<Fields>) {
    exists i :: 0 <= i < |values| && LongestAt(rowsOf, values, i, rows)
  }

  ghost predicate LongestAt(rowsOf: Json -> seq<Fields>, values: seq<Json>, i: nat, rows: seq<Fields>) {
    && i < |values| && rows == rowsOf(values[i])
    && (forall j | 0 <= j < |values| :: |rowsOf(values[j])| <= |rows|)
    && (forall j | 0 <= j < i :: |rowsOf(values[j])| < |rows|)
  }

  ghost predicate NoRows(rowsOf: Json -> seq<Fields>, values: seq<Json>) {
    forall i | 0 <= i < |values| :: rowsOf(values[i]) == []
  }

  lemma {:induction false} BestIsFirstLongest(rowsOf: Json -> seq<Fields>, values: seq<Json>)
    ensures var rows := Best(rowsOf, [], values);
            if rows == [] then NoRows(rowsOf, values) else FirstLongest(rowsOf, values, rows)
  {
    if values != [] {
      var front, last := values[..|values| - 1], |values| - 1;
      var before, rows := Best(rowsOf, [], front), Best(rowsOf, [], values);
      BestIsFirstLongest(rowsOf, front);
      if rows != before {
        assert LongestAt(rowsOf, values, last, rows);
      } else if rows != [] {
        var i :| 0 <= i < |front| && LongestAt(rowsOf, front, i, rows);
        assert LongestAt(rowsOf, values, i, rows);
      }
    }
  }

  // ---- package keys -------------------------------------------------------------------------

  ghost predicate Improves(rowsOf: Json -> seq<Fields>) {
    forall best, v :: Longer(best, rowsOf(v)) == Better(best, v)
  }

  lemma {:induction false} VisitIsBest(
      rowsOf: Json -> seq<Fields>, v: Json, depth: nat, best: seq<Fields>, values: seq<Json>, found: seq<Fields>)
    requires depth <= 12 && Improves(rowsOf) && values == LeftToRight(v, 12 - depth)
    requires found == Visit(v, depth, best)
    ensures found == Best(rowsOf, best, values)
    decreases 12 - depth, 1, 0
  {
    var next := Better(best, v);
    var below := if depth == 12 then [] else AllLeftToRight(Children(v), 12 - depth);
    LeftToRightStep(v, 12 - depth);
    VisitStep(v, depth, best);
    if depth < 12 {
      VisitAllIsBest(rowsOf, Children(v), depth + 1, next, below, found);
    } else {
      TooDeep(Children(v), next);
    }
    BetterBy(rowsOf, best, v);
    BestFirst(rowsOf, best, v, below);
  }

  lemma BetterBy(rowsOf: Json -> seq<Fields>, best: seq<Fields>, v: Json)
    requires Improves(rowsOf)
    ensures Better(best, v) == Longer(best, rowsOf(v))
  {
  }

  lemma LeftToRightStep(v: Json, levels: nat)
    ensures LeftToRight(v, levels) == [v] + if levels == 0 then [] else AllLeftToRight(Children(v), levels)
  {
  }

  lemma {:induction false} TooDeep(vs: seq<Json>, best: seq<Fields>)
    ensures VisitAll(vs, 13, best) == best
  {
    if vs != [] { TooDeep(vs[..|vs| - 1], best); }
  }

  lemma {:induction false} VisitAllIsBest(
      rowsOf: Json -> seq<Fields>, vs: seq<Json>, depth: nat, best: seq<Fields>, values: seq<Json>,
      found: seq<Fields>)
    requires 0 < depth <= 12 && Improves(rowsOf) && values == AllLeftToRight(vs, 13 - depth)
    requires found == VisitAll(vs, depth, best)
    ensures found == Best(rowsOf, best, values)
    decreases 13 - depth, 0, |vs|
  {
    if vs != [] {
      var front, last := vs[..|vs| - 1], vs[|vs| - 1];
      var before := VisitAll(front, depth, best);
      VisitAllIsBest(rowsOf, front, depth, best, AllLeftToRight(front, 13 - depth), before);
      VisitIsBest(rowsOf, last, depth, before, LeftToRight(last, 12 - depth), found);
      BestConcat(rowsOf, best, AllLeftToRight(front, 13 - depth), LeftToRight(last, 12 - depth));
    }
  }

  /** The keys read from the rows. */
  ghost predicate KeysRead(text: Json -> string, rows: seq<Fields>, keys: set<string>) {
    forall key :: key in keys <==> exists row | row in rows && Identified(row) :: key == text(IdentityOf(row))
  }

  /**
   The packages a plan detail lists are those of the first list, from left to right and at most twelve levels down,
   that has the most identified rows; there are none only if no such list has an identified row.
   */
  lemma PackagesRead(text: Json -> string, v: Json)
    ensures exists rows :: KeysRead(text, rows, PackageKeys(text, v)) &&
              if rows == [] then NoRows(RowsOf(Identified), LeftToRight(v, 12))
              else FirstLongest(RowsOf(Identified), LeftToRight(v, 12), rows)
  {
    VisitIsBest(RowsOf(Identified), v, 0, [], LeftToRight(v, 12), Visit(v, 0, []));
    BestIsFirstLongest(RowsOf(Identified), LeftToRight(v, 12));
    var rows := Best(RowsOf(Identified), [], LeftToRight(v, 12));
    assert PackageKeys(text, v) == KeysOf(text, rows);
    assert KeysRead(text, rows, PackageKeys(text, v));
  }

  // ---- revision numbers ---------------------------------------------------------------------

  function FirstOnes(values: seq<Json>, n: nat): seq<Json> {
    if |values| <= n then values else values[..n]
  }

  lemma {:induction false} RightToLeftConcat(a: seq<Json>, b: seq<Json>)
    ensures AllRightToLeft(a + b) == AllRightToLeft(b) + AllRightToLeft(a)
  {
    if b == [] {
      assert a + b == a;
    } else {
      assert (a + b)[..|a + b| - 1] == a + b[..|b| - 1];
      RightToLeftConcat(a, b[..|b| - 1]);
    }
  }

  lemma RightToLeftStep(v: Json)
    ensures RightToLeft(v) == [v] + AllRightToLeft(Children(v))
  {
  }

  lemma AllRightToLeftStep(vs: seq<Json>)
    requires vs != []
    ensures AllRightToLeft(vs) == RightToLeft(vs[|vs| - 1]) + AllRightToLeft(vs[..|vs| - 1])
  {
  }

  lemma Regrouped(a: seq<Json>, b: seq<Json>, c: seq<Json>)
    ensures (a + b) + c == a + (b + c)
  {
  }

  lemma FirstOnesStep(v: Json, rest: seq<Json>, n: nat)
    requires n > 0
    ensures FirstOnes([v] + rest, n) == [v] + FirstOnes(rest, n - 1)
  {
  }

  /** What is visited once the last pending value is taken. */
  lemma NextVisited(pending: seq<Json>)
    requires pending != []
    ensures var front, v := pending[..|pending| - 1], pending[|pending| - 1];
            AllRightToLeft(pending) == [v] + AllRightToLeft(front + Children(v))
  {
    var front, v := pending[..|pending| - 1], pending[|pending| - 1];
    var children := Children(v);
    RightToLeftConcat(front, children);
    AllRightToLeftStep(pending);
    RightToLeftStep(v);
    Regrouped([v], AllRightToLeft(children), AllRightToLeft(front));
  }

  ghost predicate ImprovesToo(rowsOf: Json -> seq<Fields>) {
    forall best, v :: Longer(best, rowsOf(v)) == Improved(best, v)
  }

  lemma ImprovedBy(rowsOf: Json -> seq<Fields>, best: seq<Fields>, v: Json)
    requires ImprovesToo(rowsOf)
    ensures Improved(best, v) == Longer(best, rowsOf(v))
  {
  }

  lemma TakeNext(
      pending: seq<Json>, more: seq<Json>, budget: nat, best: seq<Fields>, next: seq<Fields>, found: seq<Fields>)
    requires pending != [] && budget > 0 && found == Explore(pending, budget, best)
    requires more == pending[..|pending| - 1] + Children(pending[|pending| - 1])
    requires next == Improved(best, pending[|pending| - 1])
    ensures found == Explore(more, budget - 1, next)
  {
  }

  /** The worklist visits the pending values from right to left, as many as the budget allows. */
  lemma {:induction false} ExploreIsBest(
      rowsOf: Json -> seq<Fields>, pending: seq<Json>, budget: nat, best: seq<Fields>, visited: seq<Json>,
      found: seq<Fields>)
    requires ImprovesToo(rowsOf) && visited == FirstOnes(AllRightToLeft(pending), budget)
    requires found == Explore(pending, budget, best)
    ensures found == Best(rowsOf, best, visited)
    decreases budget
  {
    if pending != [] && budget > 0 {
      var v, more := pending[|pending| - 1], pending[..|pending| - 1] + Children(pending[|pending| - 1]);
      var rest := FirstOnes(AllRightToLeft(more), budget - 1);
      var next := Longer(best, rowsOf(v));
      assert visited == [v] + rest by {
        NextVisited(pending);
        FirstOnesStep(v, AllRightToLeft(more), budget);
      }
      assert found == Explore(more, budget - 1, next) by {
        ImprovedBy(rowsOf, best, v);
        TakeNext(pending, more, budget, best, next, found);
      }
      ExploreIsBest(rowsOf, more, budget - 1, next, rest, found);
      BestFirst(rowsOf, best, v, rest);
    }
  }

  /** The numbers read from the rows. */
  ghost predicate NumbersRead(text: Json -> string, rows: seq<Fields>, numbers: set<string>) {
    forall n :: n in numbers <==> exists row | row in rows && Versioned(row) :: n == ZeroFilled(text(VersionOf(row)))
  }

  /**
   The revisions a version list advertises are those of the first list, among the first 100000 values from right to
   left, that has the most versioned rows; there are none only if no list among them has one.
   */
  lemma RevisionsRead(text: Json -> string, v: Json)
    ensures exists rows :: NumbersRead(text, rows, RevisionNumbers(text, v)) &&
              if rows == [] then NoRows(RowsOf(Versioned), FirstOnes(RightToLeft(v), 100_000))
              else FirstLongest(RowsOf(Versioned), FirstOnes(RightToLeft(v), 100_000), rows)
  {
    var visited := FirstOnes(RightToLeft(v), 100_000);
    assert [v][..0] == [];
    assert AllRightToLeft([v]) == RightToLeft(v);
    ExploreIsBest(RowsOf(Versioned), [v], 100_000, [], visited, Explore([v], 100_000, []));
    BestIsFirstLongest(RowsOf(Versioned), visited);
    var rows := Best(RowsOf(Versioned), [], visited);
    assert RevisionNumbers(text, v) == NumbersOf(text, rows);
    assert NumbersRead(text, rows, RevisionNumbers(text, v));
  }
}
