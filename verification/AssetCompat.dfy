/**
 Keeping the previous release's frontend assets in a staged release
 (scripts/prepare_frontend_asset_compatibility.py), and the packager's own check of the result
 (scripts/package_production.py).
 */
module AssetCompat {
  import opened Wrappers
  import opened Collections

  /** SHA-256 is injective; JSON files are their decoded content. */
  datatype Digest = Sha256(file: File)

  /** sourceMap marks a .js or .css file that names a source map. */
  datatype File =
    | Raw(id: string, bytes: nat, sourceMap: bool)
    | ViteManifest(assets: seq<string>)
    | SecureMarker(releaseId: string)
    | JournalFile(journal: Journal)

  datatype Record = Record(size: nat, digest: Digest)

  datatype AssetRecord = AssetRecord(name: string, record: Record)

  datatype Origin = Origin(releaseId: string, manifest: Digest, marker: Digest)

  datatype Journal = Journal(version: int, current: Origin, previous: Option<Origin>, assets: seq<AssetRecord>)

  /** A file of a release: a content-hashed asset, any other entry below dist/assets, or a file elsewhere. */
  datatype Path =
    | Asset(name: string) | LooseAsset(name: string) | NestedAsset(name: string)
    | ManifestPath | MarkerPath | JournalPath | Elsewhere(path: string)

  type Files = map<Path, File>
  type Records = map<Path, Record>

  /** PRODUCTION_MANIFEST.json gives the records; files are what the directory holds. */
  datatype Release = Release(records: Records, files: Files)

  function SizeOf(f: File): nat {
    if f.Raw? then f.bytes else 0
  }

  function RecordOf(f: File): Record {
    Record(SizeOf(f), Sha256(f))
  }

  predicate Hex(c: char) {
    '0' <= c <= '9' || 'a' <= c <= 'f' || 'A' <= c <= 'F'
  }

  predicate ImmutableId(id: string) {
    (|id| == 40 || |id| == 64) && forall c | c in id :: Hex(c)
  }

  // ---- verifying a release ------------------------------------------------------------------

  /** `_verified_package_file` */
  predicate Verified(files: Files, p: Path, records: Records) {
    p in records && p in files && RecordOf(files[p]) == records[p]
  }

  /** The assets of a Vite manifest as a list without repeats. */
  function Unique(names: seq<string>): (r: seq<string>)
    ensures Distinct(r) && forall x :: x in r <==> x in names
  {
    if names == [] then [] else
      var front, last := names[..|names| - 1], names[|names| - 1];
      assert names == front + [last];
      var rest := Unique(front);
      if last in rest then rest else rest + [last]
  }

  /** `_verified_release_metadata` */
  datatype Metadata = Metadata(origin: Origin, assets: seq<string>)

  function MetadataOf(r: Release): (m: Option<Metadata>)
    ensures m.Some? ==> Distinct(m.value.assets)
  {
    if Verified(r.files, ManifestPath, r.records) && Verified(r.files, MarkerPath, r.records)
       && r.files[ManifestPath].ViteManifest? && r.files[MarkerPath].SecureMarker?
       && ImmutableId(r.files[MarkerPath].releaseId) && r.files[ManifestPath].assets != []
    then Some(Metadata(
      Origin(r.files[MarkerPath].releaseId, r.records[ManifestPath].digest, r.records[MarkerPath].digest),
      Unique(r.files[ManifestPath].assets)))
    else None
  }

  function Names(assets: seq<AssetRecord>): seq<string> {
    seq(|assets|, i requires 0 <= i < |assets| => assets[i].name)
  }

  function Paths(names: seq<string>): set<Path> {
    set n | n in names :: Asset(n)
  }

  /** `_verified_preparation_journal` accepts the journal. */
  predicate JournalVerified(files: Files, m: Metadata) {
    && JournalPath in files && files[JournalPath].JournalFile?
    && var j := files[JournalPath].journal;
    && j.version == 1 && j.current == m.origin
    && (match j.previous
        case Some(o) => ImmutableId(o.releaseId) && o.releaseId != m.origin.releaseId
        case None => j.assets == [])
    && Distinct(Names(j.assets))
    && forall a | a in j.assets ::
        a.name !in m.assets && Asset(a.name) in files && RecordOf(files[Asset(a.name)]) == a.record
  }

  function RetainedPaths(files: Files): set<Path> {
    if JournalPath in files && files[JournalPath].JournalFile? then Paths(Names(files[JournalPath].journal.assets))
        else {}
  }

  /** A packaged asset outside the current graph that an earlier preparation has pruned. */
  predicate Pruned(files: Files, p: Path, m: Metadata) {
    JournalPath in files && p.Asset? && p.name !in m.assets && p !in files
  }

  /** `_verify_current_package_inventory` accepts the release. */
  predicate InventoryVerified(r: Release, m: Metadata) {
    && (JournalPath in r.files ==> JournalVerified(r.files, m))
    && (forall p | p in r.records && !(p == JournalPath && JournalPath in r.files) ::
          Pruned(r.files, p, m) || Verified(r.files, p, r.records))
    && r.files.Keys == (set p | p in r.records && !Pruned(r.files, p, m))
         + (if JournalPath in r.files then {JournalPath} + RetainedPaths(r.files) else {})
  }

  // ---- prepare_compatibility_assets ---------------------------------------------------------

  /** The checks made before anything is written. */
  predicate Preparable(cur: Release, prev: Option<Release>, expectedId: Option<string>) {
    && MetadataOf(cur).Some?
    && var m := MetadataOf(cur).value;
    && InventoryVerified(cur, m)
    && (expectedId.Some? ==> ImmutableId(expectedId.value) && expectedId.value == m.origin.releaseId)
    && (forall a | a in m.assets :: Verified(cur.files, Asset(a), cur.records))
    && (prev.Some? ==>
          && MetadataOf(prev.value).Some?
          && var pm := MetadataOf(prev.value).value;
          && pm.origin.releaseId != m.origin.releaseId
          && (forall a | a in pm.assets :: Verified(prev.value.files, Asset(a), prev.value.records)))
  }

  /** The previous release's asset names, none for a first deployment. */
  function PreviousAssets(prev: Option<Release>): seq<string> {
    if prev.Some? && MetadataOf(prev.value).Some? then MetadataOf(prev.value).value.assets else []
  }

  /** The previous assets that the current graph does not name itself. */
  function Retained(m: Metadata, previous: seq<string>): (r: seq<string>)
    ensures forall a :: a in r <==> a in previous && a !in m.assets
    ensures Distinct(previous) ==> Distinct(r)
  {
    if previous == [] then [] else
      var front, last := previous[..|previous| - 1], previous[|previous| - 1];
      assert previous == front + [last];
      var rest := Retained(m, front);
      if last in m.assets then rest else rest + [last]
  }

  /** The listed assets that files holds have the content of the source. */
  predicate Agrees(files: Files, source: Files, names: seq<string>) {
    forall a | a in names && Asset(a) in files :: Asset(a) in source && files[Asset(a)] == source[Asset(a)]
  }

  /** No hashed name of the previous release stands for another content here. */
  predicate Copyable(cur: Release, prev: Release, previous: seq<string>) {
    (forall a | a in previous :: Asset(a) in prev.files) && Agrees(cur.files, prev.files, previous)
  }

  predicate NoDirectories(files: Files) {
    forall p | p in files :: !p.NestedAsset?
  }

  function JournalOf(m: Metadata, prev: Option<Release>, retained: seq<string>): Journal
    requires prev.Some? ==> MetadataOf(prev.value).Some? && forall a | a in retained :: Asset(a) in prev.value.files
    requires prev.None? ==> retained == []
  {
    Journal(1, m.origin,
      if prev.Some? then Some(MetadataOf(prev.value).value.origin) else None,
      seq(|retained|, i requires 0 <= i < |retained| =>
        assert retained[i] in retained;
        AssetRecord(retained[i], RecordOf(prev.value.files[Asset(retained[i])]))))
  }

  /** What pruning keeps. */
  predicate Kept(p: Path, allowed: set<string>) {
    match p
    case Asset(n) => n in allowed
    case LooseAsset(_) => false
    case _ => true
  }

  /** The retained assets as the source release holds them. */
  function Copies(source: Files, retained: seq<string>): Files {
    map p | p in Paths(retained) && p in source :: source[p]
  }

  function PreparedFiles(cur: Release, prev: Option<Release>, m: Metadata): Files
    requires prev.Some? ==> MetadataOf(prev.value).Some? && Copyable(cur, prev.value, PreviousAssets(prev))
  {
    var previous := PreviousAssets(prev);
    var retained := Retained(m, previous);
    var allowed := (set a | a in m.assets) + (set a | a in previous);
    assert prev.None? ==> retained == [] by { if retained != [] { assert retained[0] in retained; } }
    var kept := map p | p in cur.files && Kept(p, allowed) :: cur.files[p];
    var copies := if prev.None? then map[] else Copies(prev.value.files, retained);
    (kept + copies)[JournalPath := JournalFile(JournalOf(m, prev, retained))]
  }

  /** The release after a successful preparation; None when the preparation is refused. */
  function Prepare(cur: Release, prev: Option<Release>, expectedId: Option<string>): Option<Release> {
    if Preparable(cur, prev, expectedId)
       && (prev.Some? ==> Copyable(cur, prev.value, PreviousAssets(prev)))
       && NoDirectories(cur.files)
    then Some(cur.(files := PreparedFiles(cur, prev, MetadataOf(cur).value)))
    else None
  }

  // ---- the packager's check -----------------------------------------------------------------

  predicate BelowAssets(p: Path) {
    p.Asset? || p.LooseAsset? || p.NestedAsset?
  }

  /** `_validate_frontend_artifacts`, apart from its source-map scan. */
  predicate PackagerAccepts(files: Files) {
    && ManifestPath in files && files[ManifestPath].ViteManifest? && files[ManifestPath].assets != []
    && var referenced := files[ManifestPath].assets;
    && (forall a | a in referenced :: Asset(a) in files)
    && (JournalPath in files ==>
          && files[JournalPath].JournalFile? && MarkerPath in files && files[MarkerPath].SecureMarker?
          && var j := files[JournalPath].journal;
          && j.version == 1 && ImmutableId(j.current.releaseId)
          && files[MarkerPath].releaseId == j.current.releaseId
          && (match j.previous
              case Some(o) => ImmutableId(o.releaseId) && o.releaseId != j.current.releaseId
              case None => j.assets == [])
          && j.current.manifest == Sha256(files[ManifestPath]) && j.current.marker == Sha256(files[MarkerPath])
          && Distinct(Names(j.assets))
          && (forall a | a in j.assets :: a.name !in referenced && Asset(a.name) in files
                && RecordOf(files[Asset(a.name)]) == a.record))
    && (set p | p in files && BelowAssets(p)) == Paths(referenced) + RetainedPaths(files)
  }

  predicate ExposesSourceMap(files: Files) {
    exists p | p in files :: p.Asset? && files[p].Raw? && files[p].sourceMap
  }
}
