/** Good releases, and deploy and rollback histories of them. */
module AssetHistory {
  import opened Wrappers
  import opened Collections
  import opened AssetCompat
  import opened AssetPrepared

  /**
   A release of a verified package: the manifest's assets are packaged, only hashed files lie below
   dist/assets, and every hashed name stands for one content (canon) wherever it occurs.
   */
  ghost predicate Good(r: Release, canon: map<string, File>) {
    Addressed(r, canon) && forall p | p in r.records :: !p.LooseAsset? && !p.NestedAsset?
  }

  /** The same without the ban on other files below dist/assets. */
  ghost predicate Addressed(r: Release, canon: map<string, File>) {
    && MetadataOf(r).Some?
    && var m := MetadataOf(r).value;
    && InventoryVerified(r, m)
    && (forall a | a in m.assets :: Asset(a) in r.records)
    && (forall a | Asset(a) in r.records :: a in canon && r.records[Asset(a)] == RecordOf(canon[a]))
    && (forall a | Asset(a) in r.files :: a in canon && r.files[Asset(a)] == canon[a])
  }

  /** A good release, to be prepared against nothing or against a different good release. */
  ghost predicate Pairable(cur: Release, prev: Option<Release>, canon: map<string, File>) {
    Good(cur, canon) && (prev.Some? ==> Good(prev.value, canon) && IdOf(prev.value) != IdOf(cur))
  }

  lemma GoodFiles(r: Release, canon: map<string, File>, p: Path)
    requires Good(r, canon) && p in r.files
    ensures !p.LooseAsset? && !p.NestedAsset?
  {
    if !p.Asset? && p != JournalPath { PackagedOther(r, p); }
  }

  lemma AssetsVerified(r: Release, canon: map<string, File>, a: string)
    requires Addressed(r, canon) && a in MetadataOf(r).value.assets
    ensures Verified(r.files, Asset(a), r.records) && a in canon && r.files[Asset(a)] == canon[a]
  {
    assert Asset(a) in r.records;
  }

  /** A good release can serve any release with canonical contents as its previous one. */
  lemma GoodIsUsable(r: Release, later: Option<Release>, canon: map<string, File>)
    requires forall a | Asset(a) in r.files :: a in canon && r.files[Asset(a)] == canon[a]
    requires later.Some? ==> Good(later.value, canon) && IdOf(later.value) != IdOf(r)
    ensures UsableAsPrevious(r, later)
  {
    if later.Some? {
      forall a | a in PreviousAssets(later)
        ensures Verified(later.value.files, Asset(a), later.value.records)
        ensures a in canon && later.value.files[Asset(a)] == canon[a]
      {
        AssetsVerified(later.value, canon, a);
      }
    }
  }

  /** Preparing a good release against nothing, or against another good release, succeeds. */
  lemma PrepareSucceeds(cur: Release, prev: Option<Release>, canon: map<string, File>)
    requires Pairable(cur, prev, canon)
    ensures Prepare(cur, prev, None).Some?
  {
    GoodIsUsable(cur, prev, canon);
    forall a | a in MetadataOf(cur).value.assets ensures Verified(cur.files, Asset(a), cur.records) {
      AssetsVerified(cur, canon, a);
    }
    forall p | p in cur.files ensures !p.NestedAsset? { GoodFiles(cur, canon, p); }
    PreparableByParts(cur, prev);
  }

  lemma GoodAgrees(cur: Release, prev: Option<Release>, canon: map<string, File>)
    requires Addressed(cur, canon) && (prev.Some? ==> Good(prev.value, canon))
    ensures RecordsAgree(cur, prev)
  {
    forall a | a in PreviousAssets(prev) && Asset(a) in cur.records
      ensures prev.Some? && Asset(a) in prev.value.files
          && RecordOf(prev.value.files[Asset(a)]) == cur.records[Asset(a)]
    {
      AssetsVerified(prev.value, canon, a);
    }
  }

  lemma PreparedIsCanonical(cur: Release, prev: Option<Release>, canon: map<string, File>, after: Release, a: string)
    requires Addressed(cur, canon) && (prev.Some? ==> Good(prev.value, canon))
    requires Prepare(cur, prev, None) == Some(after) && Asset(a) in after.files
    ensures a in canon && after.files[Asset(a)] == canon[a]
  {
    PreparedAssetAt(cur, prev, after, a);
    if a in PreviousAssets(prev) { AssetsVerified(prev.value, canon, a); }
  }

  /** A prepared release stays good for later deployments. */
  lemma PreparedStaysGood(cur: Release, prev: Option<Release>, canon: map<string, File>, after: Release)
    requires Pairable(cur, prev, canon) && Prepare(cur, prev, None) == Some(after)
    ensures Good(after, canon) && MetadataOf(after) == MetadataOf(cur)
  {
    PreparedMetadata(cur, prev, after);
    GoodAgrees(cur, prev, canon);
    InventoryAgain(cur, prev, after);
    forall a | Asset(a) in after.files ensures a in canon && after.files[Asset(a)] == canon[a] {
      PreparedIsCanonical(cur, prev, canon, after, a);
    }
  }

  /** Preparing a good pair again succeeds and changes nothing. */
  lemma GoodPreparedTwice(cur: Release, prev: Option<Release>, canon: map<string, File>, after: Release)
    requires Pairable(cur, prev, canon) && Prepare(cur, prev, None) == Some(after)
    ensures Prepare(after, prev, None) == Some(after)
  {
    GoodAgrees(cur, prev, canon);
    PrepareTwice(cur, prev, after);
  }

  /**
   With canonical contents, a prepared release can be prepared again, against nothing or any good release with
   another id, exactly when its package holds only hashed files below dist/assets.
   */
  lemma PreparableAgainIffHashed(
      cur: Release, prev: Option<Release>, canon: map<string, File>, after: Release, later: Option<Release>,
      id: Option<string>)
    requires Addressed(cur, canon) && (prev.Some? ==> Good(prev.value, canon))
    requires Prepare(cur, prev, None) == Some(after)
    requires later.Some? ==> Good(later.value, canon) && IdOf(later.value) != IdOf(cur)
    requires id.None? || id.value == IdOf(cur)
    ensures Prepare(after, later, id).Some? <==> OnlyHashed(cur)
  {
    GoodAgrees(cur, prev, canon);
    PreparedMetadata(cur, prev, after);
    forall a | Asset(a) in after.files ensures a in canon && after.files[Asset(a)] == canon[a] {
      PreparedIsCanonical(cur, prev, canon, after, a);
    }
    GoodIsUsable(after, later, canon);
    PreparableAgain(cur, prev, after, later, id);
  }

  // ---- packages of the packager -------------------------------------------------------------

  /** A tree that the packager accepts holds no unhashed file or directory below dist/assets. */
  lemma PackagedHasNoLoose(files: Files, p: Path)
    requires PackagerAccepts(files) && p in files
    ensures !p.LooseAsset? && !p.NestedAsset?
  {
    var below := set q | q in files && BelowAssets(q);
    if BelowAssets(p) {
      assert p in below && below == Paths(files[ManifestPath].assets) + RetainedPaths(files);
    }
  }

  /** A tree that the packager accepts, recorded as it is, with canonical contents, is a good release. */
  lemma PackagedIsGood(r: Release, canon: map<string, File>)
    requires PackagerAccepts(r.files) && r.records == (map p | p in r.files :: RecordOf(r.files[p]))
    requires MarkerPath in r.files && r.files[MarkerPath].SecureMarker? && ImmutableId(r.files[MarkerPath].releaseId)
    requires forall a | Asset(a) in r.files :: a in canon && r.files[Asset(a)] == canon[a]
    ensures Good(r, canon)
  {
    forall p | p in r.records ensures !p.LooseAsset? && !p.NestedAsset? { PackagedHasNoLoose(r.files, p); }
    assert MetadataOf(r).Some?;
    PackagedInventory(r, MetadataOf(r).value);
  }

  lemma PackagedInventory(r: Release, m: Metadata)
    requires PackagerAccepts(r.files) && r.records == (map p | p in r.files :: RecordOf(r.files[p]))
    requires MetadataOf(r) == Some(m)
    ensures InventoryVerified(r, m)
  {
    assert r.files.Keys == (set p | p in r.records && !Pruned(r.files, p, m));
    if JournalPath in r.files {
      assert JournalVerified(r.files, m);
      forall p | p in RetainedPaths(r.files) ensures p in r.files {
        var j := r.files[JournalPath].journal;
        var i :| 0 <= i < |j.assets| && p == Asset(Names(j.assets)[i]);
        assert j.assets[i] in j.assets;
      }
    }
  }

  // ---- histories ----------------------------------------------------------------------------

  type World = map<string, Release>

  /** Prepare the release at one directory against another one, or against none. */
  datatype Deployment = Deployment(current: string, previous: Option<string>)

  function ReleaseAt(w: World, root: Option<string>): Option<Release> {
    if root.Some? && root.value in w then Some(w[root.value]) else None
  }

  ghost predicate AllGood(w: World, canon: map<string, File>) {
    forall d | d in w :: Good(w[d], canon)
  }

  predicate DistinctIds(w: World) {
    forall c, d | c in w && d in w && c != d :: IdOf(w[c]) != IdOf(w[d])
  }

  ghost predicate GoodWorld(w: World, canon: map<string, File>) {
    AllGood(w, canon) && DistinctIds(w)
  }

  predicate CanRun(w: World, d: Deployment) {
    d.current in w && (d.previous.Some? ==> d.previous.value in w && d.previous.value != d.current)
  }

  predicate Runnable(w: World, h: seq<Deployment>) {
    forall d | d in h :: CanRun(w, d)
  }

  /** The world after one deployment; a refused preparation would leave the release as it is. */
  function Apply(w: World, d: Deployment): World {
    if d.current !in w then w else
      match Prepare(w[d.current], ReleaseAt(w, d.previous), None)
      case Some(r) => w[d.current := r]
      case None => w
  }

  function Deploy(w: World, h: seq<Deployment>): World {
    if h == [] then w else Apply(Deploy(w, h[..|h| - 1]), h[|h| - 1])
  }

  /** The latest deployment of a directory. */
  function Latest(h: seq<Deployment>, root: string): Option<Deployment> {
    if h == [] then None
    else if h[|h| - 1].current == root then Some(h[|h| - 1])
    else Latest(h[..|h| - 1], root)
  }

  ghost predicate SameMetadata(w: World, now: World) {
    w.Keys == now.Keys && forall d | d in w :: MetadataOf(now[d]) == MetadataOf(w[d])
  }

  lemma ReplaceKeepsAll(w: World, holds: Release -> bool, root: string, r: Release, after: World)
    requires (forall d | d in w :: holds(w[d])) && holds(r) && after == w[root := r]
    ensures forall d | d in after :: holds(after[d])
  {
  }

  lemma ReplaceKeepsGood(w: World, canon: map<string, File>, root: string, r: Release, after: World)
    requires AllGood(w, canon) && Good(r, canon) && after == w[root := r]
    ensures AllGood(after, canon)
  {
    ReplaceKeepsAll(w, x => Good(x, canon), root, r, after);
  }

  lemma ReplaceKeepsIds(w: World, root: string, r: Release)
    requires DistinctIds(w) && root in w && IdOf(r) == IdOf(w[root])
    ensures DistinctIds(w[root := r])
  {
  }

  /** In a good world one deployment succeeds and changes only the release it prepares. */
  lemma ApplyPrepares(w: World, canon: map<string, File>, d: Deployment) returns (after: Release)
    requires GoodWorld(w, canon) && CanRun(w, d)
    ensures Pairable(w[d.current], ReleaseAt(w, d.previous), canon)
    ensures Prepare(w[d.current], ReleaseAt(w, d.previous), None) == Some(after)
    ensures Apply(w, d) == w[d.current := after]
  {
    PrepareSucceeds(w[d.current], ReleaseAt(w, d.previous), canon);
    after := Prepare(w[d.current], ReleaseAt(w, d.previous), None).value;
  }

  lemma ApplyKeepsWorld(w: World, canon: map<string, File>, d: Deployment)
    requires GoodWorld(w, canon) && CanRun(w, d)
    ensures GoodWorld(Apply(w, d), canon) && SameMetadata(w, Apply(w, d))
  {
    var after := ApplyPrepares(w, canon, d);
    PreparedStaysGood(w[d.current], ReleaseAt(w, d.previous), canon, after);
    ReplaceKeepsGood(w, canon, d.current, after, Apply(w, d));
    ReplaceKeepsIds(w, d.current, after);
  }

  lemma ApplyHolds(w: World, canon: map<string, File>, d: Deployment, a: string)
    requires GoodWorld(w, canon) && CanRun(w, d)
    ensures d.current in Apply(w, d)
    ensures Asset(a) in Apply(w, d)[d.current].files <==>
              a in MetadataOf(w[d.current]).value.assets
              || (d.previous.Some? && a in MetadataOf(w[d.previous.value]).value.assets)
    ensures forall x | x in w && x != d.current :: x in Apply(w, d) && Apply(w, d)[x] == w[x]
  {
    var after := ApplyPrepares(w, canon, d);
    PreparedAssetAt(w[d.current], ReleaseAt(w, d.previous), after, a);
  }

  /** Any history of deployments and rollbacks leaves every release good. */
  lemma {:induction false} HistoryStaysGood(w: World, canon: map<string, File>, h: seq<Deployment>)
    requires GoodWorld(w, canon) && Runnable(w, h)
    ensures GoodWorld(Deploy(w, h), canon) && SameMetadata(w, Deploy(w, h))
  {
    if h != [] {
      var front, d := h[..|h| - 1], h[|h| - 1];
      assert forall x | x in front :: x in h;
      assert d in h;
      HistoryStaysGood(w, canon, front);
      ApplyKeepsWorld(Deploy(w, front), canon, d);
    }
  }

  /** In any history of deployments and rollbacks the next preparation succeeds. */
  lemma EveryPreparationSucceeds(w: World, canon: map<string, File>, h: seq<Deployment>, d: Deployment)
    requires GoodWorld(w, canon) && Runnable(w, h) && CanRun(w, d)
    ensures d.current in Deploy(w, h)
    ensures Prepare(Deploy(w, h)[d.current], ReleaseAt(Deploy(w, h), d.previous), None).Some?
  {
    HistoryStaysGood(w, canon, h);
    var after := ApplyPrepares(Deploy(w, h), canon, d);
  }

  /**
   After any history, a deployed release holds exactly its own assets and those of the release it was last
   prepared against, and nothing from an older one.
   */
  lemma {:induction false} HoldsOwnAndLatestPrevious(
      w: World, canon: map<string, File>, h: seq<Deployment>, root: string, a: string)
    requires GoodWorld(w, canon) && Runnable(w, h) && root in w && Latest(h, root).Some?
    ensures root in Deploy(w, h)
    ensures var previous := Latest(h, root).value.previous;
            Asset(a) in Deploy(w, h)[root].files <==>
              a in MetadataOf(w[root]).value.assets
              || (previous.Some? && previous.value in w && a in MetadataOf(w[previous.value]).value.assets)
  {
    var front, d := h[..|h| - 1], h[|h| - 1];
    assert forall x | x in front :: x in h;
    assert CanRun(w, d) by { assert d in h; }
    assert GoodWorld(Deploy(w, front), canon) && SameMetadata(w, Deploy(w, front)) by {
      HistoryStaysGood(w, canon, front);
    }
    ApplyHolds(Deploy(w, front), canon, d, a);
    if d.current != root {
      HoldsOwnAndLatestPrevious(w, canon, front, root, a);
    }
  }
}
