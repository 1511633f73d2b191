/** What the asset validators accept, field by field. */
module AssetColumns {
  import opened Wrappers
  import opened Collections
  import opened AssetCompat

  /** A record tells any two files apart. */
  lemma RecordMeaning(f: File, g: File)
    ensures RecordOf(f) == RecordOf(g) <==> f == g
    ensures RecordOf(f).digest == Sha256(f) && RecordOf(f).size == (if f.Raw? then f.bytes else 0)
  {
  }

  predicate ReleaseId(id: string) {
    (|id| == 40 || |id| == 64) && forall c | c in id :: c in "0123456789abcdefABCDEF"
  }

  lemma HexDigit(c: char)
    ensures Hex(c) <==> c in "0123456789abcdefABCDEF"
  {
  }

  lemma IdMeaning(id: string)
    ensures ImmutableId(id) <==> ReleaseId(id)
  {
    forall c | c in id ensures Hex(c) <==> c in "0123456789abcdefABCDEF" { HexDigit(c); }
  }

  /** The file is there with the size and the digest on record. */
  predicate Intact(files: Files, records: Records, p: Path) {
    && p in records && p in files && records[p].digest == Sha256(files[p])
    && records[p].size == (if files[p].Raw? then files[p].bytes else 0)
  }

  /** When a release has metadata, and what they are. */
  lemma MetadataMeaning(r: Release)
    ensures MetadataOf(r).Some? <==>
              && Intact(r.files, r.records, ManifestPath) && Intact(r.files, r.records, MarkerPath)
              && r.files[ManifestPath].ViteManifest? && r.files[ManifestPath].assets != []
              && r.files[MarkerPath].SecureMarker? && ReleaseId(r.files[MarkerPath].releaseId)
    ensures MetadataOf(r).Some? ==>
              var m := MetadataOf(r).value;
              && m.origin.releaseId == r.files[MarkerPath].releaseId
              && m.origin.manifest == Sha256(r.files[ManifestPath]) && m.origin.marker == Sha256(r.files[MarkerPath])
              && Distinct(m.assets) && forall a :: a in m.assets <==> a in r.files[ManifestPath].assets
  {
    if MarkerPath in r.files && r.files[MarkerPath].SecureMarker? { IdMeaning(r.files[MarkerPath].releaseId); }
  }

  // ---- the journal --------------------------------------------------------------------------

  /** Each listed asset is outside the current graph, has a name of its own and is there as recorded. */
  ghost predicate RecordsHold(files: Files, listed: seq<AssetRecord>, current: seq<string>) {
    && (forall i, j | 0 <= i < j < |listed| :: listed[i].name != listed[j].name)
    && (forall i | 0 <= i < |listed| :: RecordHolds(files, listed[i], current))
  }

  predicate RecordHolds(files: Files, a: AssetRecord, current: seq<string>) {
    && a.name !in current && Asset(a.name) in files && a.record.digest == Sha256(files[Asset(a.name)])
    && a.record.size == (if files[Asset(a.name)].Raw? then files[Asset(a.name)].bytes else 0)
  }

  lemma RecordsMeaning(files: Files, listed: seq<AssetRecord>, current: seq<string>)
    ensures RecordsHold(files, listed, current) <==>
              Distinct(Names(listed)) && forall a | a in listed ::
                a.name !in current && Asset(a.name) in files && RecordOf(files[Asset(a.name)]) == a.record
  {
    assert forall i | 0 <= i < |listed| :: Names(listed)[i] == listed[i].name && listed[i] in listed;
  }

  /** The journal in the release stems from the given current release, and from another previous one or from none. */
  ghost predicate JournalFrom(files: Files, current: Origin, graph: seq<string>) {
    && JournalPath in files && files[JournalPath].JournalFile?
    && var j := files[JournalPath].journal;
    && j.version == 1 && j.current == current && RecordsHold(files, j.assets, graph)
    && (j.previous.None? ==> j.assets == [])
    && (j.previous.Some? ==>
          ReleaseId(j.previous.value.releaseId) && j.previous.value.releaseId != current.releaseId)
  }

  lemma JournalMeaning(files: Files, m: Metadata)
    ensures JournalVerified(files, m) <==> JournalFrom(files, m.origin, m.assets)
  {
    if JournalPath in files && files[JournalPath].JournalFile? {
      var j := files[JournalPath].journal;
      RecordsMeaning(files, j.assets, m.assets);
      if j.previous.Some? { IdMeaning(j.previous.value.releaseId); }
    }
  }

  // ---- the inventory ------------------------------------------------------------------------

  /** A packaged asset that the graph does not name may be missing once there is a journal. */
  predicate MayBeGone(files: Files, p: Path, graph: seq<string>) {
    JournalPath in files && p.Asset? && p.name !in graph
  }

  predicate InJournal(files: Files, p: Path) {
    && JournalPath in files && files[JournalPath].JournalFile?
    && exists i :: 0 <= i < |files[JournalPath].journal.assets| && p == Asset(files[JournalPath].journal.assets[i].name)
  }

  /** The files are the recorded ones, apart from what a preparation has added and pruned. */
  lemma InventoryMeaning(r: Release, m: Metadata)
    ensures InventoryVerified(r, m) <==>
              && (JournalPath in r.files ==> JournalFrom(r.files, m.origin, m.assets))
              && (forall p | p in r.records && p !in r.files :: MayBeGone(r.files, p, m.assets))
              && (forall p | p in r.records && p in r.files && p != JournalPath :: Intact(r.files, r.records, p))
              && (forall p | p in r.files && p !in r.records && p != JournalPath :: InJournal(r.files, p))
  {
    JournalMeaning(r.files, m);
    forall p | p in r.records ensures Verified(r.files, p, r.records) <==> Intact(r.files, r.records, p) {}
    forall p ensures p in RetainedPaths(r.files) <==> InJournal(r.files, p) { RetainedMeaning(r.files, p); }
    if JournalPath in r.files && JournalFrom(r.files, m.origin, m.assets) {
      forall p | InJournal(r.files, p) ensures p in r.files && p.Asset? {
        var listed := r.files[JournalPath].journal.assets;
        var i :| 0 <= i < |listed| && p == Asset(listed[i].name);
        assert RecordHolds(r.files, listed[i], m.assets);
      }
    }
    Expected(r, m);
  }

  lemma RetainedMeaning(files: Files, p: Path)
    ensures p in RetainedPaths(files) <==> InJournal(files, p)
  {
    if JournalPath in files && files[JournalPath].JournalFile? {
      var listed := files[JournalPath].journal.assets;
      assert forall i | 0 <= i < |listed| :: Names(listed)[i] == listed[i].name;
      if i :| 0 <= i < |listed| && p == Asset(listed[i].name) { assert Names(listed)[i] in Names(listed); }
    }
  }

  lemma Expected(r: Release, m: Metadata)
    ensures var expected := (set p | p in r.records && !Pruned(r.files, p, m))
              + (if JournalPath in r.files then {JournalPath} + RetainedPaths(r.files) else {});
            r.files.Keys == expected <==> forall p :: p in r.files <==> p in expected
  {
  }

  // ---- the preparation ----------------------------------------------------------------------

  /** When a preparation succeeds. */
  lemma PreparationMeaning(cur: Release, prev: Option<Release>, expectedId: Option<string>)
    ensures Prepare(cur, prev, expectedId).Some? <==>
              && MetadataOf(cur).Some? && var m := MetadataOf(cur).value;
              && InventoryVerified(cur, m)
              && (expectedId.Some? ==> expectedId.value == m.origin.releaseId)
              && (forall a | a in m.assets :: Intact(cur.files, cur.records, Asset(a)))
              && (forall name :: NestedAsset(name) !in cur.files)
              && (prev.Some? ==>
                    && MetadataOf(prev.value).Some? && var older := MetadataOf(prev.value).value;
                    && older.origin.releaseId != m.origin.releaseId
                    && (forall a | a in older.assets :: Intact(prev.value.files, prev.value.records, Asset(a)))
                    && (forall a | a in older.assets && Asset(a) in cur.files ::
                          cur.files[Asset(a)] == prev.value.files[Asset(a)]))
  {
    MetadataMeaning(cur);
    if MetadataOf(cur).Some? { IdMeaning(MetadataOf(cur).value.origin.releaseId); }
    assert NoDirectories(cur.files) <==> forall name :: NestedAsset(name) !in cur.files by {
      if !NoDirectories(cur.files) {
        var p :| p in cur.files && p.NestedAsset?;
        assert p == NestedAsset(p.name);
      }
    }
  }

  /** The journal that a preparation leaves: both origins, and the previous assets the current graph lacks. */
  lemma JournalWritten(cur: Release, prev: Option<Release>, expectedId: Option<string>)
    requires Prepare(cur, prev, expectedId).Some?
    ensures var after := Prepare(cur, prev, expectedId).value; var m := MetadataOf(cur).value;
            && after.records == cur.records && JournalPath in after.files && after.files[JournalPath].JournalFile?
            && var j := after.files[JournalPath].journal;
            && j.version == 1 && j.current == m.origin
            && (prev.None? ==> j.previous == None && j.assets == [])
            && (prev.Some? ==>
                  && MetadataOf(prev.value).Some? && j.previous == Some(MetadataOf(prev.value).value.origin)
                  && var older := MetadataOf(prev.value).value.assets;
                  && Distinct(Names(j.assets))
                  && (forall name :: name in Names(j.assets) <==> name in older && name !in m.assets)
                  && forall i | 0 <= i < |j.assets| ::
                       && Asset(j.assets[i].name) in prev.value.files
                       && j.assets[i].record == RecordOf(prev.value.files[Asset(j.assets[i].name)]))
  {
    var m := MetadataOf(cur).value;
    var retained := Retained(m, PreviousAssets(prev));
    if prev.Some? {
      assert Names(JournalOf(m, prev, retained).assets) == retained;
      forall i | 0 <= i < |retained| ensures retained[i] in PreviousAssets(prev) { assert retained[i] in retained; }
    }
  }

  // ---- the packager -------------------------------------------------------------------------

  predicate NamesSourceMap(f: File) {
    f.Raw? && f.sourceMap
  }

  /** What the packager lets through. */
  lemma ArtifactsMeaning(files: Files)
    ensures PackagerAccepts(files) && !ExposesSourceMap(files) <==>
              && ManifestPath in files && files[ManifestPath].ViteManifest? && files[ManifestPath].assets != []
              && var graph := files[ManifestPath].assets;
              && (forall a | a in graph :: Asset(a) in files)
              && (JournalPath in files ==>
                    && MarkerPath in files && files[MarkerPath].SecureMarker?
                    && ReleaseId(files[MarkerPath].releaseId)
                    && JournalFrom(files,
                         Origin(files[MarkerPath].releaseId, Sha256(files[ManifestPath]), Sha256(files[MarkerPath])),
                         graph))
              && (forall p | p in files && p.Asset? :: p.name in graph || InJournal(files, p))
              && (forall name :: LooseAsset(name) !in files && NestedAsset(name) !in files)
              && (forall name | Asset(name) in files :: !NamesSourceMap(files[Asset(name)]))
  {
    if JournalPath in files && files[JournalPath].JournalFile? && MarkerPath in files && files[MarkerPath].SecureMarker?
       && ManifestPath in files && files[ManifestPath].ViteManifest? {
      var j := files[JournalPath].journal;
      IdMeaning(files[MarkerPath].releaseId);
      if j.previous.Some? { IdMeaning(j.previous.value.releaseId); }
      RecordsMeaning(files, j.assets, files[ManifestPath].assets);
    }
    if ManifestPath in files && files[ManifestPath].ViteManifest? {
      var graph := files[ManifestPath].assets;
      JournalledPresent(files, graph);
      if (forall a | a in graph :: Asset(a) in files) && (forall p | InJournal(files, p) :: p in files) {
        BelowMeaning(files, graph);
      }
    }
    if ExposesSourceMap(files) {
      var p :| p in files && p.Asset? && files[p].Raw? && files[p].sourceMap;
      assert p == Asset(p.name) && NamesSourceMap(files[Asset(p.name)]);
    }
  }

  lemma JournalledPresent(files: Files, graph: seq<string>)
    ensures JournalPath !in files ==> forall p :: !InJournal(files, p)
    ensures JournalPath in files && files[JournalPath].JournalFile?
            && RecordsHold(files, files[JournalPath].journal.assets, graph)
            ==> forall p | InJournal(files, p) :: p in files
  {
    forall p | InJournal(files, p) && RecordsHold(files, files[JournalPath].journal.assets, graph) ensures p in files {
      var listed := files[JournalPath].journal.assets;
      var i :| 0 <= i < |listed| && p == Asset(listed[i].name);
      assert RecordHolds(files, listed[i], graph);
    }
  }

  lemma BelowMeaning(files: Files, graph: seq<string>)
    requires forall p | InJournal(files, p) :: p in files
    requires forall a | a in graph :: Asset(a) in files
    ensures (set p | p in files && BelowAssets(p)) == Paths(graph) + RetainedPaths(files) <==>
              && (forall p | p in files && p.Asset? :: p.name in graph || InJournal(files, p))
              && (forall name :: LooseAsset(name) !in files && NestedAsset(name) !in files)
  {
    var below := set p | p in files && BelowAssets(p);
    var named := Paths(graph) + RetainedPaths(files);
    forall p ensures p in named <==> (p.Asset? && p.name in graph) || InJournal(files, p) { RetainedMeaning(files, p); }
    forall p | p in named ensures p in below {
      if InJournal(files, p) { assert p.Asset?; }
    }
    if forall p | p in below :: p in named { assert below == named; }
  }
}
