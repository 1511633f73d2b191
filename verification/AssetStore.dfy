/** The preparation of a staged release, file by file, and the packager's validator. */
module AssetStore {
  import opened Wrappers
  import opened Collections
  import opened AssetCompat

  lemma DistinctGrows(assets: seq<AssetRecord>, i: nat)
    requires i < |assets| && Distinct(Names(assets[..i])) && Asset(assets[i].name) !in Paths(Names(assets[..i]))
    ensures Distinct(Names(assets[..i + 1]))
    ensures Paths(Names(assets[..i + 1])) == Paths(Names(assets[..i])) + {Asset(assets[i].name)}
  {
    var before, after := Names(assets[..i]), Names(assets[..i + 1]);
    assert after == before + [assets[i].name];
    forall j | 0 <= j < i ensures before[j] != assets[i].name {
      assert before[j] in before && Asset(before[j]) in Paths(before);
    }
  }

  lemma RepeatNotDistinct(assets: seq<AssetRecord>, i: nat)
    requires i < |assets| && Asset(assets[i].name) in Paths(Names(assets[..i]))
    ensures !Distinct(Names(assets))
  {
    var n :| n in Names(assets[..i]) && Asset(n) == Asset(assets[i].name);
    var j :| 0 <= j < i && Names(assets[..i])[j] == n;
    assert Names(assets)[j] == Names(assets)[i];
  }

  /** The loop both validators run over the journal's asset records. */
  method CheckAssets(files: Files, assets: seq<AssetRecord>, current: seq<string>) returns (r: Option<set<Path>>)
    ensures r.Some? <==> Distinct(Names(assets)) && forall a | a in assets ::
                           a.name !in current && Asset(a.name) in files && RecordOf(files[Asset(a.name)]) == a.record
    ensures r.Some? ==> r.value == Paths(Names(assets))
  {
    var records: set<Path> := {};
    assert Names(assets[..0]) == [];
    for i := 0 to |assets|
      invariant Distinct(Names(assets[..i])) && records == Paths(Names(assets[..i]))
      invariant forall j | 0 <= j < i :: assets[j].name !in current && Asset(assets[j].name) in files
                                         && RecordOf(files[Asset(assets[j].name)]) == assets[j].record
    {
      var a := assets[i];
      assert a in assets;
      var p := Asset(a.name);
      if p in records {
        RepeatNotDistinct(assets, i);
        return None;
      }
      if a.name in current || p !in files || SizeOf(files[p]) != a.record.size || Sha256(files[p]) != a.record.digest {
        return None;
      }
      DistinctGrows(assets, i);
      records := records + {p};
    }
    assert assets[..|assets|] == assets;
    return Some(records);
  }

  /** `_validate_frontend_artifacts` */
  method ValidateArtifacts(files: Files) returns (ok: bool)
    ensures ok == (PackagerAccepts(files) && !ExposesSourceMap(files))
  {
    if ManifestPath !in files || !files[ManifestPath].ViteManifest? || files[ManifestPath].assets == [] {
      return false;
    }
    var names := files[ManifestPath].assets;
    if exists a | a in names :: Asset(a) !in files {
      return false;
    }
    var compatibility: set<Path> := {};
    if JournalPath in files {
      if !files[JournalPath].JournalFile? || MarkerPath !in files || !files[MarkerPath].SecureMarker? {
        return false;
      }
      var j, marker := files[JournalPath].journal, files[MarkerPath];
      if j.version != 1 || !ImmutableId(j.current.releaseId) || marker.releaseId != j.current.releaseId
        || (j.previous.Some?
            && (!ImmutableId(j.previous.value.releaseId) || j.previous.value.releaseId == j.current.releaseId))
        || (j.previous.None? && j.assets != [])
        || j.current.manifest != Sha256(files[ManifestPath]) || j.current.marker != Sha256(marker) {
        return false;
      }
      var checked := CheckAssets(files, j.assets, names);
      if checked.None? {
        return false;
      }
      compatibility := checked.value;
    }
    var actual := set p | p in files && BelowAssets(p);
    if Paths(names) + compatibility != actual {
      return false;
    }
    ok := !exists p | p in files :: p.Asset? && files[p].Raw? && files[p].sourceMap;
  }

  class StagedRelease {
    const records: Records
    var files: Files

    constructor (r: Release)
      ensures Value() == r
    {
      records, files := r.records, r.files;
    }

    function Value(): Release
      reads this
    {
      Release(records, files)
    }

    /** `_verified_preparation_journal`: the paths the journal retains, or None. */
    method VerifyJournal(m: Metadata) returns (r: Option<set<Path>>)
      ensures r.Some? <==> JournalVerified(files, m)
      ensures r.Some? ==> r.value == RetainedPaths(files)
    {
      if JournalPath !in files || !files[JournalPath].JournalFile? {
        return None;
      }
      var j := files[JournalPath].journal;
      if j.version != 1 || j.current != m.origin
        || (j.previous.Some?
            && (!ImmutableId(j.previous.value.releaseId) || j.previous.value.releaseId == m.origin.releaseId))
        || (j.previous.None? && j.assets != []) {
        return None;
      }
      r := CheckAssets(files, j.assets, m.assets);
    }

    /** `_verify_current_package_inventory` */
    method VerifyInventory(m: Metadata) returns (ok: bool)
      ensures ok == InventoryVerified(Value(), m)
    {
      var prepared := JournalPath in files;
      var owned: set<Path> := {};
      if prepared {
        var retained := VerifyJournal(m);
        if retained.None? {
          return false;
        }
        owned := {JournalPath} + retained.value;
      }
      var expected := CheckRecords(m, prepared);
      if expected.None? {
        return false;
      }
      ok := files.Keys == expected.value + owned;
    }

    /** Verifies every packaged file that is not excused; the paths that must then be present, or None. */
    method CheckRecords(m: Metadata, prepared: bool) returns (r: Option<set<Path>>)
      requires prepared == (JournalPath in files)
      ensures r.Some? <==> forall p | p in records && !(p == JournalPath && prepared) ::
          Pruned(files, p, m) || Verified(files, p, records)
      ensures r.Some? ==> r.value == set p | p in records && !Pruned(files, p, m)
    {
      var expected: set<Path> := {};
      var rest := records.Keys;
      while rest != {}
        invariant rest <= records.Keys
        invariant forall p :: p in expected <==> p in records && p !in rest && !Pruned(files, p, m)
        invariant forall p | p in records && p !in rest && !(p == JournalPath && prepared) ::
                    Pruned(files, p, m) || Verified(files, p, records)
        decreases |rest|
      {
        var p :| p in rest;
        if prepared && p.Asset? && p.name !in m.assets && p !in files {
          // pruned by an earlier preparation
        } else {
          if !(prepared && p == JournalPath)
            && (p !in files || SizeOf(files[p]) != records[p].size || Sha256(files[p]) != records[p].digest) {
            return None;
          }
          expected := expected + {p};
        }
        rest := rest - {p};
      }
      return Some(expected);
    }

    /** `_atomic_copy` of one retained asset, or the comparison of one that the current graph names itself. */
    method KeepAsset(source: Files, name: string, copy: bool) returns (ok: bool)
      requires Asset(name) in source
      modifies this`files
      ensures ok == (Asset(name) in old(files) ==> old(files)[Asset(name)] == source[Asset(name)])
      ensures files == if ok && copy then old(files)[Asset(name) := source[Asset(name)]] else old(files)
    {
      var p := Asset(name);
      if p in files && (SizeOf(files[p]) != SizeOf(source[p]) || Sha256(files[p]) != Sha256(source[p])) {
        return false;
      }
      if copy {
        files := files[p := source[p]];
      }
      return true;
    }

    /** Copies the previous assets the current graph lacks; false on a content collision. */
    method CopyRetained(source: Files, m: Metadata, previous: seq<string>) returns (ok: bool, retained: seq<string>)
      requires forall a | a in previous :: Asset(a) in source
      modifies this`files
      ensures ok == Agrees(old(files), source, previous)
      ensures ok ==> retained == Retained(m, previous) && files == old(files) + Copies(source, retained)
    {
      retained := [];
      assert files + Copies(source, retained) == files;
      for i := 0 to |previous|
        invariant retained == Retained(m, previous[..i])
        invariant files == old(files) + Copies(source, retained)
        invariant Agrees(old(files), source, previous[..i])
      {
        var name := previous[i];
        assert name in previous;
        assert previous[..i + 1] == previous[..i] + [name];
        CurrentContent(old(files), source, previous[..i], retained, name);
        CopyOneMore(old(files), source, retained, name);
        ok := KeepAsset(source, name, name !in m.assets);
        if !ok {
          PrefixDisagrees(old(files), source, previous, i + 1);
          return;
        }
        if name !in m.assets {
          retained := retained + [name];
        }
      }
      assert previous[..|previous|] == previous;
      ok := true;
    }

    /** `_prune_unexpected_assets`: false when an entry below dist/assets is not a file. */
    method Prune(allowed: set<string>) returns (ok: bool)
      modifies this`files
      ensures ok == NoDirectories(old(files))
      ensures ok ==> files == map p | p in old(files) && Kept(p, allowed) :: old(files)[p]
    {
      var rest := files.Keys;
      while rest != {}
        invariant rest <= old(files.Keys)
        invariant files == map p | p in old(files) && (p in rest || Kept(p, allowed)) :: old(files)[p]
        invariant forall p | p in old(files) && p !in rest :: !p.NestedAsset?
        decreases |rest|
      {
        var p :| p in rest;
        if p.NestedAsset? {
          return false;
        }
        if p.LooseAsset? || (p.Asset? && p.name !in allowed) {
          files := files - {p};
        }
        rest := rest - {p};
      }
      ok := true;
    }

    /** `prepare_compatibility_assets` */
    method PrepareAssets(prev: Option<Release>, expectedId: Option<string>) returns (ok: bool)
      modifies this`files
      ensures ok <==> Prepare(old(Value()), prev, expectedId).Some?
      ensures ok ==> Value() == Prepare(old(Value()), prev, expectedId).value
    {
      ok := Check(prev, expectedId);
      if ok {
        ok := Rewrite(prev, MetadataOf(Value()).value);
      }
    }

    /** Copies, prunes and journals; false on a content collision or a directory among the assets. */
    method Rewrite(prev: Option<Release>, m: Metadata) returns (ok: bool)
      requires prev.Some? ==> MetadataOf(prev.value).Some?
      requires forall a | a in PreviousAssets(prev) :: prev.Some? && Asset(a) in prev.value.files
      modifies this`files
      ensures ok <==> (prev.Some? ==> Copyable(old(Value()), prev.value, PreviousAssets(prev)))
                      && NoDirectories(old(files))
      ensures ok ==> files == PreparedFiles(old(Value()), prev, m)
    {
      var previous := PreviousAssets(prev);
      var retained: seq<string> := [];
      if prev.Some? {
        ok, retained := CopyRetained(prev.value.files, m, previous);
        if !ok {
          return;
        }
      }
      var allowed := (set a | a in m.assets) + (set a | a in previous);
      assert prev.None? ==> files == old(files) && previous == [] && retained == Retained(m, previous);
      CopiesArePruned(old(files), if prev.None? then map[] else Copies(prev.value.files, retained), files, allowed);
      ok := Prune(allowed);
      if !ok {
        return;
      }
      files := files[JournalPath := JournalFile(JournalOf(m, prev, retained))];
    }

    /** Everything that is checked before the first write. */
    method Check(prev: Option<Release>, expectedId: Option<string>) returns (ok: bool)
      ensures ok == Preparable(Value(), prev, expectedId)
    {
      var metadata := MetadataOf(Value());
      if metadata.None? {
        return false;
      }
      var m := metadata.value;
      ok := VerifyInventory(m);
      if !ok {
        return;
      }
      if expectedId.Some? && (!ImmutableId(expectedId.value) || expectedId.value != m.origin.releaseId) {
        return false;
      }
      if exists a | a in m.assets :: !Verified(files, Asset(a), records) {
        return false;
      }
      if prev.Some? {
        var previous := MetadataOf(prev.value);
        if previous.None? || previous.value.origin.releaseId == m.origin.releaseId
          || exists a | a in previous.value.assets :: !Verified(prev.value.files, Asset(a), prev.value.records) {
          return false;
        }
      }
      return true;
    }
  }

  /** Whether a name collides can be read off the files even after earlier copies. */
  lemma CurrentContent(before: Files, source: Files, done: seq<string>, retained: seq<string>, name: string)
    requires Asset(name) in source && Agrees(before, source, done) && forall a | a in retained :: a in done
    ensures var now := before + Copies(source, retained);
            (Asset(name) in now ==> now[Asset(name)] == source[Asset(name)]) <==> Agrees(before, source, done + [name])
  {
    assert forall a :: a in done + [name] <==> a in done || a == name;
    assert Asset(name) in Paths(retained) <==> name in retained;
    if Agrees(before, source, done + [name]) {
      assert name in done + [name];
    }
  }

  lemma PrefixDisagrees(files: Files, source: Files, names: seq<string>, i: nat)
    requires i <= |names| && !Agrees(files, source, names[..i])
    ensures !Agrees(files, source, names)
  {
    assert forall a | a in names[..i] :: a in names;
  }

  lemma CopyOneMore(before: Files, source: Files, retained: seq<string>, name: string)
    requires Asset(name) in source
    ensures before + Copies(source, retained + [name]) ==
        (before + Copies(source, retained))[Asset(name) := source[Asset(name)]]
  {
    assert Paths(retained + [name]) == Paths(retained) + {Asset(name)};
  }

  /** Copying only adds allowed hashed files, so pruning afterwards keeps them all. */
  lemma CopiesArePruned(before: Files, copies: Files, after: Files, allowed: set<string>)
    requires after == before + copies && forall p | p in copies :: p.Asset? && p.name in allowed
    ensures NoDirectories(after) <==> NoDirectories(before)
    ensures (map p | p in after && Kept(p, allowed) :: after[p]) ==
        (map p | p in before && Kept(p, allowed) :: before[p]) + copies
  {
    assert forall p | p in before :: p in after;
  }
}
