/** What any successful preparation leaves, and when the release can be prepared again. */
module AssetPrepared {
  import opened Wrappers
  import opened Collections
  import opened AssetCompat

  function IdOf(r: Release): string {
    if MetadataOf(r).Some? then MetadataOf(r).value.origin.releaseId else ""
  }

  /** An expected release id only guards the preparation; it never changes what is prepared. */
  lemma ExpectedIdOnlyGuards(cur: Release, prev: Option<Release>, id: string)
    ensures Prepare(cur, prev, Some(id)) ==
              if MetadataOf(cur).Some? && id == IdOf(cur) then Prepare(cur, prev, None) else None
  {
  }

  // ---- path by path -------------------------------------------------------------------------

  /** Assets of the current graph stay, missing previous ones are copied, all others go. */
  lemma PreparedAssetAt(cur: Release, prev: Option<Release>, after: Release, a: string)
    requires Prepare(cur, prev, None) == Some(after)
    ensures Asset(a) in after.files <==> a in MetadataOf(cur).value.assets || a in PreviousAssets(prev)
    ensures a in MetadataOf(cur).value.assets ==>
              Verified(cur.files, Asset(a), cur.records) && after.files[Asset(a)] == cur.files[Asset(a)]
    ensures a in PreviousAssets(prev) ==>
              prev.Some? && Asset(a) in prev.value.files && after.files[Asset(a)] == prev.value.files[Asset(a)]
  {
    var m, previous := MetadataOf(cur).value, PreviousAssets(prev);
    var retained := Retained(m, previous);
    assert Asset(a) in Paths(retained) <==> a in retained;
    if a in m.assets {
      assert Verified(cur.files, Asset(a), cur.records);
    }
  }

  /** Everything else stays, save for the journal and loose files. */
  lemma PreparedOtherAt(cur: Release, prev: Option<Release>, after: Release, p: Path)
    requires Prepare(cur, prev, None) == Some(after) && !p.Asset?
    ensures after.records == cur.records
    ensures p.LooseAsset? || p.NestedAsset? ==> p !in after.files
    ensures !p.LooseAsset? && p != JournalPath ==>
              (p in after.files <==> p in cur.files) && (p in cur.files ==> after.files[p] == cur.files[p])
    ensures JournalPath in after.files && after.files[JournalPath].JournalFile?
  {
    FilesOtherAt(cur, prev, MetadataOf(cur).value, p);
  }

  lemma FilesOtherAt(cur: Release, prev: Option<Release>, m: Metadata, p: Path)
    requires !p.Asset?
    requires prev.Some? ==> MetadataOf(prev.value).Some? && Copyable(cur, prev.value, PreviousAssets(prev))
    ensures var files := PreparedFiles(cur, prev, m);
            && JournalPath in files && files[JournalPath].JournalFile?
            && (p.LooseAsset? ==> p !in files)
            && (!p.LooseAsset? && p != JournalPath ==>
                  (p in files <==> p in cur.files) && (p in cur.files ==> files[p] == cur.files[p]))
  {
  }

  lemma PreparedMetadata(cur: Release, prev: Option<Release>, after: Release)
    requires Prepare(cur, prev, None) == Some(after)
    ensures after.records == cur.records && MetadataOf(after) == MetadataOf(cur)
  {
    PreparedOtherAt(cur, prev, after, ManifestPath);
    PreparedOtherAt(cur, prev, after, MarkerPath);
  }

  lemma PreparedJournal(cur: Release, prev: Option<Release>, after: Release)
    requires Prepare(cur, prev, None) == Some(after)
    ensures JournalPath in after.files && after.files[JournalPath].JournalFile?
    ensures var m := MetadataOf(cur).value;
            var retained := Retained(m, PreviousAssets(prev));
            var j := after.files[JournalPath].journal;
            && j.version == 1 && j.current == m.origin && Names(j.assets) == retained
            && j.previous == (if prev.Some? then Some(MetadataOf(prev.value).value.origin) else None)
            && (prev.None? ==> j.assets == [])
            && forall a | a in j.assets :: prev.Some? && a.name in retained && Asset(a.name) in prev.value.files
                 && a.record == RecordOf(prev.value.files[Asset(a.name)])
  {
    PreparedOtherAt(cur, prev, after, JournalPath);
    var m := MetadataOf(cur).value;
    var retained := Retained(m, PreviousAssets(prev));
    assert prev.None? ==> retained == [] by { if retained != [] { assert retained[0] in retained; } }
    var j := after.files[JournalPath].journal;
    assert j == JournalOf(m, prev, retained);
    forall a | a in j.assets
      ensures prev.Some? && a.name in retained && Asset(a.name) in prev.value.files
              && a.record == RecordOf(prev.value.files[Asset(a.name)])
    {
      var i :| 0 <= i < |j.assets| && j.assets[i] == a;
      assert a.name == retained[i];
    }
  }

  /** The journal just written passes the check of the next preparation. */
  lemma PreparedJournalVerified(cur: Release, prev: Option<Release>, after: Release)
    requires Prepare(cur, prev, None) == Some(after)
    ensures JournalVerified(after.files, MetadataOf(cur).value)
    ensures RetainedPaths(after.files) == Paths(Retained(MetadataOf(cur).value, PreviousAssets(prev)))
  {
    var m := MetadataOf(cur).value;
    PreparedJournal(cur, prev, after);
    var j := after.files[JournalPath].journal;
    forall a | a in j.assets
      ensures a.name !in m.assets && Asset(a.name) in after.files && RecordOf(after.files[Asset(a.name)]) == a.record
    {
      PreparedAssetAt(cur, prev, after, a.name);
    }
  }

  // ---- the packager's validator -------------------------------------------------------------

  lemma SameMembers(a: set<Path>, b: set<Path>)
    requires forall p :: p in a <==> p in b
    ensures a == b
  {
  }

  lemma PreparedBelow(cur: Release, prev: Option<Release>, after: Release, p: Path)
    requires Prepare(cur, prev, None) == Some(after)
    ensures p in after.files && BelowAssets(p) <==>
              p in Paths(MetadataOf(cur).value.assets) + Paths(Retained(MetadataOf(cur).value, PreviousAssets(prev)))
  {
    if p.Asset? {
      PreparedAssetAt(cur, prev, after, p.name);
    } else {
      PreparedOtherAt(cur, prev, after, p);
    }
  }

  /** Below dist/assets lie exactly the current graph's assets and the journal's. */
  lemma PreparedAssetSet(cur: Release, prev: Option<Release>, after: Release)
    requires Prepare(cur, prev, None) == Some(after)
    ensures (set p | p in after.files && BelowAssets(p)) ==
              Paths(MetadataOf(cur).value.assets) + RetainedPaths(after.files)
  {
    PreparedJournalVerified(cur, prev, after);
    var below := set p | p in after.files && BelowAssets(p);
    var named := Paths(MetadataOf(cur).value.assets) + RetainedPaths(after.files);
    forall p ensures p in below <==> p in named {
      PreparedBelow(cur, prev, after, p);
    }
    SameMembers(below, named);
  }

  lemma PreparedGraphPresent(cur: Release, prev: Option<Release>, after: Release)
    requires Prepare(cur, prev, None) == Some(after)
    ensures ManifestPath in after.files && after.files[ManifestPath].ViteManifest?
    ensures var names := after.files[ManifestPath].assets;
            && names != [] && Paths(names) == Paths(MetadataOf(cur).value.assets)
            && forall a | a in names :: Asset(a) in after.files
  {
    PreparedMetadata(cur, prev, after);
    forall a | a in MetadataOf(cur).value.assets ensures Asset(a) in after.files {
      PreparedAssetAt(cur, prev, after, a);
    }
  }

  /** The journal meets the packager's own test of it. */
  lemma PreparedJournalAccepted(cur: Release, prev: Option<Release>, after: Release)
    requires Prepare(cur, prev, None) == Some(after)
    ensures MarkerPath in after.files && after.files[MarkerPath].SecureMarker? && ManifestPath in after.files
    ensures var j := after.files[JournalPath].journal;
            && ImmutableId(j.current.releaseId) && after.files[MarkerPath].releaseId == j.current.releaseId
            && j.current.manifest == Sha256(after.files[ManifestPath])
            && j.current.marker == Sha256(after.files[MarkerPath])
  {
    PreparedJournal(cur, prev, after);
    PreparedMetadata(cur, prev, after);
  }

  /** The packager's separate validator accepts what any successful preparation leaves. */
  lemma PackagerAgrees(cur: Release, prev: Option<Release>, id: Option<string>, after: Release)
    requires Prepare(cur, prev, id) == Some(after)
    ensures PackagerAccepts(after.files)
  {
    if id.Some? { ExpectedIdOnlyGuards(cur, prev, id.value); }
    PreparedGraphPresent(cur, prev, after);
    PreparedJournalVerified(cur, prev, after);
    PreparedJournalAccepted(cur, prev, after);
    PreparedAssetSet(cur, prev, after);
  }

  // ---- preparing again ----------------------------------------------------------------------

  /** The package holds only hashed files directly below dist/assets. */
  predicate OnlyHashed(r: Release) {
    forall p | p in r.records :: !p.LooseAsset?
  }

  /** Retained assets that the package records as well have the content it records. */
  predicate RecordsAgree(cur: Release, prev: Option<Release>)
    requires MetadataOf(cur).Some?
  {
    forall a | a in PreviousAssets(prev) && a !in MetadataOf(cur).value.assets && Asset(a) in cur.records ::
      prev.Some? && Asset(a) in prev.value.files && RecordOf(prev.value.files[Asset(a)]) == cur.records[Asset(a)]
  }

  /** A packaged path passes the next inventory check, or the preparation pruned it. */
  lemma RecordPasses(cur: Release, prev: Option<Release>, after: Release, p: Path)
    requires Prepare(cur, prev, None) == Some(after) && p in cur.records && p != JournalPath
    ensures Pruned(after.files, p, MetadataOf(cur).value) || Verified(after.files, p, after.records) <==>
              !p.LooseAsset?
              && (p.Asset? && p.name !in MetadataOf(cur).value.assets && p.name in PreviousAssets(prev) ==>
                    RecordOf(after.files[p]) == cur.records[p])
  {
    if p.Asset? {
      PreparedAssetAt(cur, prev, after, p.name);
      PreparedOtherAt(cur, prev, after, JournalPath);
    } else {
      PreparedOtherAt(cur, prev, after, p);
      assert Verified(cur.files, p, cur.records);
    }
  }

  lemma RecordsPass(cur: Release, prev: Option<Release>, after: Release)
    requires Prepare(cur, prev, None) == Some(after)
    ensures OnlyHashed(cur) && RecordsAgree(cur, prev) <==>
              forall p | p in after.records && p != JournalPath ::
                Pruned(after.files, p, MetadataOf(cur).value) || Verified(after.files, p, after.records)
  {
    PreparedOtherAt(cur, prev, after, JournalPath);
    forall p | p in cur.records && p != JournalPath
      ensures Pruned(after.files, p, MetadataOf(cur).value) || Verified(after.files, p, after.records) <==>
                !p.LooseAsset? && RecordAgrees(cur, prev, p)
    {
      RecordPasses(cur, prev, after, p);
      if p.Asset? { PreparedAssetAt(cur, prev, after, p.name); }
    }
    AgreesByPath(cur, prev);
  }

  predicate RecordAgrees(cur: Release, prev: Option<Release>, p: Path)
    requires MetadataOf(cur).Some? && p in cur.records
  {
    p.Asset? && p.name in PreviousAssets(prev) && p.name !in MetadataOf(cur).value.assets ==>
      prev.Some? && p in prev.value.files && RecordOf(prev.value.files[p]) == cur.records[p]
  }

  lemma AgreesByPath(cur: Release, prev: Option<Release>)
    requires MetadataOf(cur).Some?
    ensures OnlyHashed(cur) && RecordsAgree(cur, prev) <==>
              forall p | p in cur.records && p != JournalPath :: !p.LooseAsset? && RecordAgrees(cur, prev, p)
  {
    forall a | Asset(a) in cur.records && RecordAgrees(cur, prev, Asset(a))
      ensures a in PreviousAssets(prev) && a !in MetadataOf(cur).value.assets ==>
                prev.Some? && Asset(a) in prev.value.files
                && RecordOf(prev.value.files[Asset(a)]) == cur.records[Asset(a)]
    {}
  }

  /** The files left are exactly the packaged ones not pruned, the journal and the retained assets. */
  lemma KeyPasses(cur: Release, prev: Option<Release>, after: Release, p: Path)
    requires Prepare(cur, prev, None) == Some(after) && OnlyHashed(cur)
    ensures p in after.files <==>
              (p in cur.records && !Pruned(after.files, p, MetadataOf(cur).value))
              || p == JournalPath || p in Paths(Retained(MetadataOf(cur).value, PreviousAssets(prev)))
  {
    if p.Asset? {
      AssetKeyPasses(cur, prev, after, p.name);
    } else if p == JournalPath {
      PreparedJournal(cur, prev, after);
    } else {
      OtherKeyPasses(cur, prev, after, p);
    }
  }

  lemma OtherKeyPasses(cur: Release, prev: Option<Release>, after: Release, p: Path)
    requires Prepare(cur, prev, None) == Some(after) && OnlyHashed(cur) && !p.Asset? && p != JournalPath
    ensures p in after.files <==> p in cur.records
  {
    PreparedOtherAt(cur, prev, after, p);
    PackagedOther(cur, p);
    assert p.NestedAsset? ==> p !in cur.files;
  }

  lemma AssetKeyPasses(cur: Release, prev: Option<Release>, after: Release, a: string)
    requires Prepare(cur, prev, None) == Some(after)
    ensures Asset(a) in after.files <==>
              (Asset(a) in cur.records && !Pruned(after.files, Asset(a), MetadataOf(cur).value))
              || Asset(a) in Paths(Retained(MetadataOf(cur).value, PreviousAssets(prev)))
  {
    PreparedAssetAt(cur, prev, after, a);
    PreparedJournal(cur, prev, after);
  }

  /** Outside the assets, an inventory that verified holds exactly the packaged files and the journal. */
  lemma PackagedOther(cur: Release, p: Path)
    requires MetadataOf(cur).Some? && InventoryVerified(cur, MetadataOf(cur).value) && !p.Asset? && p != JournalPath
    ensures p in cur.files <==> p in cur.records
  {
    var m := MetadataOf(cur).value;
    assert p in cur.files <==>
      p in (set q | q in cur.records && !Pruned(cur.files, q, m))
           + (if JournalPath in cur.files then {JournalPath} + RetainedPaths(cur.files) else {});
  }

  lemma KeySetPasses(cur: Release, prev: Option<Release>, after: Release, packaged: set<Path>)
    requires Prepare(cur, prev, None) == Some(after) && OnlyHashed(cur)
    requires packaged == set p | p in cur.records && !Pruned(after.files, p, MetadataOf(cur).value)
    ensures after.files.Keys ==
              packaged + ({JournalPath} + Paths(Retained(MetadataOf(cur).value, PreviousAssets(prev))))
  {
    var all := packaged + ({JournalPath} + Paths(Retained(MetadataOf(cur).value, PreviousAssets(prev))));
    forall p ensures p in after.files.Keys <==> p in all {
      KeyPasses(cur, prev, after, p);
    }
    SameMembers(after.files.Keys, all);
  }

  /** A prepared release passes the inventory check exactly when it can. */
  lemma InventoryAgain(cur: Release, prev: Option<Release>, after: Release)
    requires Prepare(cur, prev, None) == Some(after)
    ensures InventoryVerified(after, MetadataOf(cur).value) <==> OnlyHashed(cur) && RecordsAgree(cur, prev)
  {
    var m := MetadataOf(cur).value;
    PreparedJournalVerified(cur, prev, after);
    PreparedOtherAt(cur, prev, after, JournalPath);
    RecordsPass(cur, prev, after);
    if OnlyHashed(cur) {
      KeySetPasses(cur, prev, after, set p | p in after.records && !Pruned(after.files, p, m));
    }
  }

  /** The previous release passes the checks made of it, and clashes with nothing the prepared release holds. */
  predicate UsableAsPrevious(after: Release, later: Option<Release>) {
    later.Some? ==>
      && MetadataOf(later.value).Some? && IdOf(later.value) != IdOf(after)
      && (forall a | a in PreviousAssets(later) :: Verified(later.value.files, Asset(a), later.value.records))
      && Agrees(after.files, later.value.files, PreviousAssets(later))
  }

  /**
   A prepared release can be prepared again, against nothing or against any other release, exactly when its package
   holds only hashed files, its retained assets agree with its records, and the other release is usable.
   */
  lemma PreparableAgain(cur: Release, prev: Option<Release>, after: Release, later: Option<Release>, id: Option<string>)
    requires Prepare(cur, prev, None) == Some(after)
    ensures Prepare(after, later, id).Some? <==>
              && OnlyHashed(cur) && RecordsAgree(cur, prev)
              && UsableAsPrevious(after, later) && (id.Some? ==> id.value == IdOf(cur))
  {
    PreparedMetadata(cur, prev, after);
    InventoryAgain(cur, prev, after);
    GraphVerified(cur, prev, after);
    if id.Some? { ExpectedIdOnlyGuards(after, later, id.value); }
    PreparableByParts(after, later);
  }

  /** The current graph of a prepared release verifies, and no directory is left below dist/assets. */
  lemma GraphVerified(cur: Release, prev: Option<Release>, after: Release)
    requires Prepare(cur, prev, None) == Some(after)
    ensures forall a | a in MetadataOf(cur).value.assets :: Verified(after.files, Asset(a), after.records)
    ensures NoDirectories(after.files)
  {
    PreparedMetadata(cur, prev, after);
    forall a | a in MetadataOf(cur).value.assets ensures Verified(after.files, Asset(a), after.records) {
      PreparedAssetAt(cur, prev, after, a);
    }
    forall p | p in after.files ensures !p.NestedAsset? {
      if !p.Asset? { PreparedOtherAt(cur, prev, after, p); }
    }
  }

  lemma PreparableByParts(r: Release, later: Option<Release>)
    requires MetadataOf(r).Some? && NoDirectories(r.files)
    requires forall a | a in MetadataOf(r).value.assets :: Verified(r.files, Asset(a), r.records)
    ensures Prepare(r, later, None).Some? <==> InventoryVerified(r, MetadataOf(r).value) && UsableAsPrevious(r, later)
  {
  }

  /** Otherwise it is refused whatever it is prepared against. */
  lemma RefusedForever(cur: Release, prev: Option<Release>, after: Release, later: Option<Release>, id: Option<string>)
    requires Prepare(cur, prev, None) == Some(after) && !(OnlyHashed(cur) && RecordsAgree(cur, prev))
    ensures Prepare(after, later, id).None?
  {
    PreparableAgain(cur, prev, after, later, id);
  }

  lemma SamePrevious(cur: Release, prev: Option<Release>, after: Release)
    requires Prepare(cur, prev, None) == Some(after)
    ensures UsableAsPrevious(after, prev)
  {
    PreparedMetadata(cur, prev, after);
    forall a | a in PreviousAssets(prev) && Asset(a) in after.files
      ensures prev.Some? && Asset(a) in prev.value.files && after.files[Asset(a)] == prev.value.files[Asset(a)]
    {
      PreparedAssetAt(cur, prev, after, a);
    }
  }

  lemma SameFiles(a: Release, b: Release)
    requires a.records == b.records && (forall p :: p in a.files <==> p in b.files)
    requires forall p | p in a.files :: a.files[p] == b.files[p]
    ensures a == b
  {
    assert a.files == b.files;
  }

  lemma SameAt(cur: Release, prev: Option<Release>, after: Release, again: Release, p: Path)
    requires Prepare(cur, prev, None) == Some(after) && Prepare(after, prev, None) == Some(again)
    ensures p in again.files <==> p in after.files
    ensures p in again.files ==> again.files[p] == after.files[p]
  {
    PreparedMetadata(cur, prev, after);
    if p.Asset? {
      PreparedAssetAt(cur, prev, after, p.name);
      PreparedAssetAt(after, prev, again, p.name);
    } else if p == JournalPath {
      PreparedJournal(cur, prev, after);
      PreparedJournal(after, prev, again);
      SameJournal(cur, prev, after, again);
    } else {
      PreparedOtherAt(cur, prev, after, p);
      PreparedOtherAt(after, prev, again, p);
    }
  }

  lemma SameJournal(cur: Release, prev: Option<Release>, after: Release, again: Release)
    requires Prepare(cur, prev, None) == Some(after) && Prepare(after, prev, None) == Some(again)
    requires MetadataOf(after) == MetadataOf(cur)
    ensures again.files[JournalPath] == after.files[JournalPath]
  {
  }

  /**
   Preparing the same pair a second time succeeds exactly when the package holds only hashed files and agrees with
   what was retained, and then it changes nothing.
   */
  lemma PrepareTwice(cur: Release, prev: Option<Release>, after: Release)
    requires Prepare(cur, prev, None) == Some(after)
    ensures Prepare(after, prev, None).Some? <==> OnlyHashed(cur) && RecordsAgree(cur, prev)
    ensures Prepare(after, prev, None).Some? ==> Prepare(after, prev, None) == Some(after)
  {
    PreparableAgain(cur, prev, after, prev, None);
    SamePrevious(cur, prev, after);
    if Prepare(after, prev, None).Some? {
      var again := Prepare(after, prev, None).value;
      PreparedMetadata(after, prev, again);
      PreparedMetadata(cur, prev, after);
      forall p ensures (p in again.files <==> p in after.files)
          && (p in again.files ==> again.files[p] == after.files[p]) {
        SameAt(cur, prev, after, again, p);
      }
      SameFiles(again, after);
    }
  }
}
