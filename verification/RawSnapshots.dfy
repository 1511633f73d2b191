/** Append-only storage of procurement source responses (backend/procurement_raw.py). */
module RawSnapshots {
  import opened Wrappers

  datatype Json =
    | JNull | JBool(b: bool) | JNumber(n: int) | JString(s: string)
    | JArray(items: seq<Json>) | JObject(fields: map<string, Json>)

  // ---- _sanitize ----------------------------------------------------------------------------

  const SECRET_PARTS: seq<string> := ["authorization", "cookie", "token", "captcha", "secret"]

  function Lower(s: string): string {
    seq(|s|, i requires 0 <= i < |s| => if 'A' <= s[i] <= 'Z' then (s[i] as int + 32) as char else s[i])
  }

  predicate Contains(s: string, part: string) {
    part <= s || (s != "" && Contains(s[1..], part))
  }

  predicate SecretKey(key: string) {
    exists part | part in SECRET_PARTS :: Contains(Lower(key), part)
  }

  const REDACTED := JString("[REDACTED]")

  function Sanitize(v: Json): Json {
    match v
    case JArray(items) => JArray(seq(|items|, i requires 0 <= i < |items| => Sanitize(items[i])))
    case JObject(fields) => JObject(map k | k in fields :: if SecretKey(k) then REDACTED else Sanitize(fields[k]))
    case _ => v
  }

  /** No object anywhere in the value holds more than the redaction mark under a secret key. */
  ghost predicate Clean(v: Json) {
    match v
    case JArray(items) => forall i | 0 <= i < |items| :: Clean(items[i])
    case JObject(fields) => forall k | k in fields :: if SecretKey(k) then fields[k] == REDACTED else Clean(fields[k])
    case _ => true
  }

  lemma {:induction false} SanitizeCleans(v: Json)
    ensures Clean(Sanitize(v))
  {
    match v
    case JArray(items) => forall i | 0 <= i < |items| ensures Clean(Sanitize(items[i])) { SanitizeCleans(items[i]); }
    case JObject(fields) => forall k | k in fields ensures Clean(Sanitize(fields[k])) { SanitizeCleans(fields[k]); }
    case _ =>
  }

  lemma {:induction false} SanitizeKeepsClean(v: Json)
    requires Clean(v)
    ensures Sanitize(v) == v
  {
    match v
    case JArray(items) =>
      forall i | 0 <= i < |items| ensures Sanitize(items[i]) == items[i] { SanitizeKeepsClean(items[i]); }
      assert Sanitize(v).items == items;
    case JObject(fields) =>
      forall k | k in fields && !SecretKey(k) ensures Sanitize(fields[k]) == fields[k] {
        SanitizeKeepsClean(fields[k]);
      }
      assert Sanitize(v).fields == fields;
    case _ =>
  }

  /** Sanitizing is idempotent over all nested values. */
  lemma SanitizeTwice(v: Json)
    ensures Sanitize(Sanitize(v)) == Sanitize(v)
  {
    SanitizeCleans(v);
    SanitizeKeepsClean(Sanitize(v));
  }

  // ---- bundles ------------------------------------------------------------------------------

  datatype Source = Source(
    operation: string, endpoint: string, request: Json, response: Json, error: Json,
    success: bool, fingerprint: string, retrievedAt: int)

  datatype Package = Package(key: string, sources: seq<Source>)
  datatype Revision = Revision(number: string, revisionId: Option<string>, sources: seq<Source>, packages: seq<Package>)
  datatype Bundle = Bundle(kind: string, code: string, sources: seq<Source>, revisions: seq<Revision>)

  /** A source with its ownership, as iter_raw_sources yields it. */
  datatype Owned = Owned(
      revisionNumber: Option<string>, revisionId: Option<string>, child: Option<string>, source: Source)

  function Own(sources: seq<Source>, number: Option<string>, id: Option<string>, child: Option<string>): seq<Owned> {
    if sources == [] then [] else
      (if sources[0].operation != "" then [Owned(number, id, child, sources[0])] else [])
      + Own(sources[1..], number, id, child)
  }

  function OwnPackages(packages: seq<Package>, number: string, id: Option<string>): seq<Owned> {
    if packages == [] then [] else
      Own(packages[0].sources, Some(number), id, Some(packages[0].key)) + OwnPackages(packages[1..], number, id)
  }

  function OwnRevisions(revisions: seq<Revision>): seq<Owned> {
    if revisions == [] then [] else
      var r := revisions[0];
      Own(r.sources, Some(r.number), r.revisionId, None) + OwnPackages(r.packages, r.number, r.revisionId)
      + OwnRevisions(revisions[1..])
  }

  /** `iter_raw_sources` */
  function RawSources(b: Bundle): seq<Owned> {
    Own(b.sources, None, None, None) + OwnRevisions(b.revisions)
  }

  /** Only a source of a revision can name a revision id or a package. */
  predicate WellOwned(o: Owned) {
    o.revisionNumber.None? ==> o.revisionId.None? && o.child.None?
  }

  lemma {:induction false} PackagesMeaning(packages: seq<Package>, number: string, id: Option<string>, o: Owned)
    ensures o in OwnPackages(packages, number, id) <==>
              exists p | p in packages ::
                  o.source in p.sources && o.source.operation != ""
                      && o == Owned(Some(number), id, Some(p.key), o.source)
  {
    if packages != [] {
      PackagesMeaning(packages[1..], number, id, o);
      OwnMeaning(packages[0].sources, Some(number), id, Some(packages[0].key), o);
      assert packages == [packages[0]] + packages[1..];
    }
  }

  /** The revision, and the package if any, that an owned source belongs to. */
  ghost predicate OwnedBy(r: Revision, o: Owned) {
    && o.source.operation != "" && o.revisionNumber == Some(r.number) && o.revisionId == r.revisionId
    && ((o.child.None? && o.source in r.sources) || exists p | p in r.packages ::
        o.child == Some(p.key) && o.source in p.sources)
  }

  lemma {:induction false} RevisionsMeaning(revisions: seq<Revision>, o: Owned)
    ensures o in OwnRevisions(revisions) <==> exists r | r in revisions :: OwnedBy(r, o)
  {
    if revisions != [] {
      var r := revisions[0];
      RevisionsMeaning(revisions[1..], o);
      OwnMeaning(r.sources, Some(r.number), r.revisionId, None, o);
      PackagesMeaning(r.packages, r.number, r.revisionId, o);
      var own := Own(r.sources, Some(r.number), r.revisionId, None);
      var inner := OwnPackages(r.packages, r.number, r.revisionId);
      assert o in own + inner <==> OwnedBy(r, o);
      assert revisions == [r] + revisions[1..];
    }
  }

  /** The ownership traversal yields exactly the named sources of the bundle, each under its owner. */
  lemma RawSourcesMeaning(b: Bundle, o: Owned)
    ensures o in RawSources(b) <==>
              (o.source in b.sources && o.source.operation != "" && o == Owned(None, None, None, o.source))
              || exists r | r in b.revisions :: OwnedBy(r, o)
    ensures o in RawSources(b) ==> WellOwned(o)
  {
    OwnMeaning(b.sources, None, None, None, o);
    RevisionsMeaning(b.revisions, o);
  }

  lemma {:induction false} OwnMeaning(
      sources: seq<Source>, number: Option<string>, id: Option<string>, child: Option<string>, o: Owned)
    ensures o in Own(sources, number, id, child) <==>
              o.source in sources && o.source.operation != "" && o == Owned(number, id, child, o.source)
  {
    if sources != [] {
      OwnMeaning(sources[1..], number, id, child, o);
      assert sources == [sources[0]] + sources[1..];
    }
  }

  // ---- the append-only store ----------------------------------------------------------------

  /** The dedup key is an injective digest of this context; contentHash of the sanitized response. */
  datatype Context = Context(
    kind: string, code: string, revisionId: Option<string>, revisionNumber: Option<string>, child: Option<string>,
    operation: string, content: Json, success: bool)

  datatype Row = Row(
    context: Context, endpoint: string, request: Json, response: Json, error: Json,
    fingerprint: string, retrievedAt: int, created: int)

  function ContextOf(b: Bundle, o: Owned): Context {
    Context(b.kind, b.code, o.revisionId, o.revisionNumber, o.child, o.source.operation, Sanitize(o.source.response),
        o.source.success)
  }

  /** now is CURRENT_TIMESTAMP, which is the same for all rows of one save. */
  function RowOf(b: Bundle, o: Owned, now: int): Row {
    Row(ContextOf(b, o), o.source.endpoint, Sanitize(o.source.request), Sanitize(o.source.response),
      Sanitize(o.source.error), o.source.fingerprint, o.source.retrievedAt, now)
  }

  predicate Stored(rows: seq<Row>, c: Context) {
    exists r | r in rows :: r.context == c
  }

  /** INSERT ... ON CONFLICT (dedup_key) DO NOTHING, source by source. */
  function SaveAll(rows: seq<Row>, b: Bundle, owned: seq<Owned>, now: int): seq<Row>
    decreases owned
  {
    if owned == [] then rows else
      SaveAll(if Stored(rows, ContextOf(b, owned[0])) then rows
          else rows + [RowOf(b, owned[0], now)], b, owned[1..], now)
  }

  /** Dedup keys are unique, and every row keeps the sanitized response its key was computed from. */
  ghost predicate Consistent(rows: seq<Row>) {
    && (forall i, j | 0 <= i < j < |rows| :: rows[i].context != rows[j].context)
    && (forall r | r in rows :: RowConsistent(r))
  }

  ghost predicate RowConsistent(r: Row) {
    && r.context.content == r.response && Sanitize(r.response) == r.response
    && (r.context.revisionNumber.None? ==> r.context.revisionId.None? && r.context.child.None?)
  }

  lemma {:induction false} SaveKeepsConsistent(rows: seq<Row>, b: Bundle, owned: seq<Owned>, now: int)
    requires Consistent(rows) && forall o | o in owned :: WellOwned(o)
    ensures Consistent(SaveAll(rows, b, owned, now)) && rows <= SaveAll(rows, b, owned, now)
    ensures forall o | o in owned :: Stored(SaveAll(rows, b, owned, now), ContextOf(b, o))
    decreases owned
  {
    if owned != [] {
      var o := owned[0];
      var next := if Stored(rows, ContextOf(b, o)) then rows else rows + [RowOf(b, o, now)];
      SanitizeTwice(o.source.response);
      assert o in owned && forall x | x in owned[1..] :: x in owned;
      assert Stored(next, ContextOf(b, o)) by { if next != rows { assert RowOf(b, o, now) in next; } }
      SaveKeepsConsistent(next, b, owned[1..], now);
      assert forall r | r in next :: r in SaveAll(next, b, owned[1..], now);
      assert owned == [o] + owned[1..];
    }
  }

  lemma {:induction false} SaveOfStored(rows: seq<Row>, b: Bundle, owned: seq<Owned>, now: int)
    requires forall o | o in owned :: Stored(rows, ContextOf(b, o))
    ensures SaveAll(rows, b, owned, now) == rows
    decreases owned
  {
    if owned != [] {
      assert owned[0] in owned && forall o | o in owned[1..] :: o in owned;
      SaveOfStored(rows, b, owned[1..], now);
    }
  }

  /** Saving the same bundle again, at any later time, inserts nothing. */
  lemma SaveTwice(rows: seq<Row>, b: Bundle, now: int, later: int)
    requires Consistent(rows)
    ensures var saved := SaveAll(rows, b, RawSources(b), now); SaveAll(saved, b, RawSources(b), later) == saved
  {
    forall o | o in RawSources(b) ensures WellOwned(o) { RawSourcesMeaning(b, o); }
    SaveKeepsConsistent(rows, b, RawSources(b), now);
    SaveOfStored(SaveAll(rows, b, RawSources(b), now), b, RawSources(b), later);
  }

  class RawStore {
    var rows: seq<Row>

    constructor ()
      ensures rows == []
    {
      rows := [];
    }

    /** `save_bundle` */
    method SaveBundle(b: Bundle, now: int) returns (inserted: nat, duplicates: nat)
      modifies this
      ensures rows == SaveAll(old(rows), b, RawSources(b), now)
      ensures inserted == |rows| - |old(rows)| && inserted + duplicates == |RawSources(b)|
    {
      var owned := RawSources(b);
      inserted, duplicates := 0, 0;
      for i := 0 to |owned|
        invariant SaveAll(rows, b, owned[i..], now) == SaveAll(old(rows), b, owned, now)
        invariant inserted == |rows| - |old(rows)| && inserted + duplicates == i
      {
        assert owned[i..][0] == owned[i] && owned[i..][1..] == owned[i + 1..];
        var row := RowOf(b, owned[i], now);
        if exists r | r in rows :: r.context == row.context {
          duplicates := duplicates + 1;
        } else {
          rows := rows + [row];
          inserted := inserted + 1;
        }
      }
    }
  }
}
