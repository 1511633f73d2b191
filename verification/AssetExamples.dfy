/** Concrete releases that are prepared once or twice and then refused for ever. */
module AssetExamples {
  import opened Wrappers
  import opened AssetCompat
  import opened AssetPrepared

  /** A release as packaged: every file is recorded as it is. */
  function Packaged(files: Files): Release {
    Release(map p | p in files :: RecordOf(files[p]), files)
  }

  /** A release as packaged passes the inventory check. */
  lemma UnpreparedInventory(r: Release, m: Metadata)
    requires JournalPath !in r.files && r == Packaged(r.files)
    ensures InventoryVerified(r, m)
  {
    assert r.files.Keys == (set p | p in r.records && !Pruned(r.files, p, m));
  }

  /** ... and can be prepared against nothing. */
  lemma PackagedPreparable(r: Release)
    requires JournalPath !in r.files && r == Packaged(r.files) && MetadataOf(r).Some? && NoDirectories(r.files)
    requires forall a | a in MetadataOf(r).value.assets :: Asset(a) in r.files
    ensures Prepare(r, None, None).Some?
  {
    UnpreparedInventory(r, MetadataOf(r).value);
    PreparableByParts(r, None);
  }

  /** The manifest and marker of a release whose graph is one asset. */
  function Base(id: string, asset: string): Files {
    map[ManifestPath := ViteManifest([asset]), MarkerPath := SecureMarker(id)]
  }

  lemma UniqueOne(a: string)
    ensures Unique([a]) == [a]
  {
    assert [a][..0] == [];
  }

  /** A package whose graph is the asset a, and that holds one more file at q. */
  function WithExtra(id: string, a: string, q: Path, extra: File): Release {
    Packaged(Base(id, a)[Asset(a) := Raw(a, 1, false)][q := extra])
  }

  predicate ExtraPath(a: string, q: Path) {
    (q.Asset? && q.name != a) || q.LooseAsset?
  }

  lemma ExtraMetadata(id: string, a: string, q: Path, extra: File)
    requires ImmutableId(id) && ExtraPath(a, q)
    ensures var r := WithExtra(id, a, q, extra);
            && MetadataOf(r).Some? && MetadataOf(r).value.assets == [a] && IdOf(r) == id
            && q in r.records && r.records[q] == RecordOf(extra)
            && JournalPath !in r.files && NoDirectories(r.files)
            && (forall p | p in r.records :: p == q || !p.LooseAsset?)
  {
    UniqueOne(a);
  }

  lemma ExtraPrepares(id: string, a: string, q: Path, extra: File)
    requires ImmutableId(id) && ExtraPath(a, q)
    ensures Prepare(WithExtra(id, a, q, extra), None, None).Some?
  {
    ExtraMetadata(id, a, q, extra);
    PackagedPreparable(WithExtra(id, a, q, extra));
  }

  // ---- an unhashed file ---------------------------------------------------------------------

  /** A package of one hashed and one unhashed asset. */
  function LooseExample(id: string): Release {
    WithExtra(id, "app-1a2b3c4d.js", LooseAsset("logo.png"), Raw("logo", 1, false))
  }

  /** It is prepared once, and never again. */
  lemma LooseExamplePreparedOnce(id: string)
    requires ImmutableId(id)
    ensures Prepare(LooseExample(id), None, None).Some?
    ensures forall later, expected :: Prepare(Prepare(LooseExample(id), None, None).value, later, expected).None?
  {
    ExtraMetadata(id, "app-1a2b3c4d.js", LooseAsset("logo.png"), Raw("logo", 1, false));
    ExtraPrepares(id, "app-1a2b3c4d.js", LooseAsset("logo.png"), Raw("logo", 1, false));
    NeverAgain(LooseExample(id), None, Prepare(LooseExample(id), None, None).value);
  }

  lemma NeverAgain(r: Release, prev: Option<Release>, after: Release)
    requires Prepare(r, prev, None) == Some(after) && !(OnlyHashed(r) && RecordsAgree(r, prev))
    ensures forall later, expected :: Prepare(after, later, expected).None?
  {
    forall later, expected ensures Prepare(after, later, expected).None? {
      RefusedForever(r, prev, after, later, expected);
    }
  }

  // ---- a packaged asset outside the graph ---------------------------------------------------

  /** A package that records a hashed file outside its graph. */
  function StaleExample(id: string): Release {
    WithExtra(id, "app-1a2b3c4d.js", Asset("old-1a2b3c4d.js"), Raw("c1", 1, false))
  }

  /** A release whose graph names the same file with another content. */
  function OtherContent(id: string): Release {
    Packaged(Base(id, "old-1a2b3c4d.js")[Asset("old-1a2b3c4d.js") := Raw("c2", 1, false)])
  }

  lemma OtherVerifies(id: string, a: string, content: File)
    requires ImmutableId(id)
    ensures var r := Packaged(Base(id, a)[Asset(a) := content]);
            && MetadataOf(r).Some? && IdOf(r) == id && MetadataOf(r).value.assets == [a]
            && Verified(r.files, Asset(a), r.records) && r.files[Asset(a)] == content
  {
    UniqueOne(a);
  }

  /**
   Preparing the first against nothing prunes the stale file; preparing it against the second then retains the other
   content; and after that it is refused for ever, although every asset is hashed.
   */
  lemma StaleExamplePreparedTwice(id: string, otherId: string)
    requires ImmutableId(id) && ImmutableId(otherId) && id != otherId
    ensures OnlyHashed(StaleExample(id)) && Prepare(StaleExample(id), None, None).Some?
    ensures var once := Prepare(StaleExample(id), None, None).value;
            && Prepare(once, Some(OtherContent(otherId)), None).Some?
            && var twice := Prepare(once, Some(OtherContent(otherId)), None).value;
            forall later, expected :: Prepare(twice, later, expected).None?
  {
    var a, b := "app-1a2b3c4d.js", "old-1a2b3c4d.js";
    assert a[0] != b[0];
    ExtraMetadata(id, a, Asset(b), Raw("c1", 1, false));
    ExtraPrepares(id, a, Asset(b), Raw("c1", 1, false));
    OtherVerifies(otherId, b, Raw("c2", 1, false));
    StaleThenOther(StaleExample(id), Prepare(StaleExample(id), None, None).value, a, b, Some(OtherContent(otherId)));
  }

  /** A pruned packaged asset that a later preparation retains with another content. */
  lemma StaleThenOther(r: Release, once: Release, a: string, b: string, other: Option<Release>)
    requires Prepare(r, None, None) == Some(once) && OnlyHashed(r) && other.Some? && a != b
    requires MetadataOf(r).value.assets == [a]
    requires MetadataOf(other.value).Some? && IdOf(other.value) != IdOf(r)
        && MetadataOf(other.value).value.assets == [b]
    requires Verified(other.value.files, Asset(b), other.value.records) && Asset(b) in r.records
    requires r.records[Asset(b)] != RecordOf(other.value.files[Asset(b)])
    ensures Prepare(once, other, None).Some?
    ensures forall later, expected :: Prepare(Prepare(once, other, None).value, later, expected).None?
  {
    PreparedMetadata(r, None, once);
    PreparedAssetAt(r, None, once, b);
    PreparableAgain(r, None, once, other, None);
    NeverAgain(once, other, Prepare(once, other, None).value);
  }
}
