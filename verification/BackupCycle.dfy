/** A backup followed by a restore: `cmd_create` and `cmd_restore` of scripts/backup.py joined. */
module BackupCycle {
  import opened Wrappers
  import opened Collections
  import R = BackupRestore
  import S = BackupSnapshot

  /** The directories a restore replaces; the catalog only if the snapshot has or needs it. */
  function Destinations(s: S.Snapshot, catalogRequired: bool): seq<string> {
    ["uploads", "word-templates"]
    + if catalogRequired || "word-catalog" in s.trees then ["word-catalog"] else []
  }

  /** Uploads and templates always, the catalog when it is required or in the snapshot. */
  lemma DestinationsMeaning(s: S.Snapshot, catalogRequired: bool, n: string)
    ensures n in Destinations(s, catalogRequired) <==>
              || n == "uploads" || n == "word-templates"
              || (n == "word-catalog" && (catalogRequired || "word-catalog" in s.trees))
  {
  }

  lemma DestinationsDiffer(s: S.Snapshot, catalogRequired: bool)
    ensures Distinct(Destinations(s, catalogRequired))
    ensures forall n | n in Destinations(s, catalogRequired) :: n in S.ASSET_DIRECTORIES
    ensures forall n | n in S.ASSET_DIRECTORIES && n in s.trees :: n in Destinations(s, catalogRequired)
  {
  }

  /** The staged tree of each name that can be staged. */
  method StageAll(s: S.Snapshot, names: seq<string>) returns (trees: map<string, S.Tree>)
    ensures forall n :: n in trees <==> n in names && S.Rebuilt(n, s.files, s.trees).Some?
    ensures forall n | n in trees :: S.Rebuilt(n, s.files, s.trees) == Some(trees[n])
  {
    trees := map[];
    for i := 0 to |names|
      invariant forall n :: n in trees <==> n in names[..i] && S.Rebuilt(n, s.files, s.trees).Some?
      invariant forall n | n in trees :: S.Rebuilt(n, s.files, s.trees) == Some(trees[n])
    {
      assert names[..i + 1] == names[..i] + [names[i]];
      var stage := S.StageRoot(names[i], s.files, s.trees);
      if stage.Some? {
        trees := trees[names[i] := stage.value];
      }
    }
    assert names[..|names|] == names;
  }

  /** Every destination holds the tree that the snapshot stages for it. */
  ghost predicate Installed(s: S.Snapshot, names: seq<string>, fs: R.Files) {
    forall n | n in names ::
      S.Rebuilt(n, s.files, s.trees).Some? && R.At(fs, R.Root(n)) == S.Rebuilt(n, s.files, s.trees)
  }

  /** `cmd_restore`: verification, then the restore of every destination and the database, or nothing at all. */
  method RestoreSnapshot(run: R.RestoreRun, s: S.Snapshot, catalogRequired: bool) returns (outcome: R.Outcome)
    requires R.Clean(run.fs)
    modifies run
    ensures outcome == R.Failed ==> run.fs == old(run.fs) && run.database == old(run.database)
    ensures outcome != R.Failed ==>
              S.SnapshotVerified(s) && run.database == s.dump && Installed(s, Destinations(s, catalogRequired), run.fs)
    ensures outcome == R.Restored ==> R.Clean(run.fs)
    ensures run.Faultless() && S.SnapshotVerified(s)
            && (forall n | n in Destinations(s, catalogRequired) ::
                  S.Rebuilt(n, s.files, s.trees).Some? && (run.posix ==> R.Root(n) in old(run.fs)))
            ==> outcome == R.Restored
  {
    var verified := S.VerifySnapshot(s);
    if !verified {
      return R.Failed;
    }
    var names := Destinations(s, catalogRequired);
    DestinationsDiffer(s, catalogRequired);
    var trees := StageAll(s, names);
    outcome := run.Restore(names, trees, s.dump);
  }

  /** After a backup that reported success and a restore of it, every directory has the files of the re-check. */
  lemma RestoredIsLive(live: S.Trees, later: S.Trees, s: S.Snapshot, catalogRequired: bool, fs: R.Files)
    requires S.WellNamed(live) && S.Unchanged(live, later) && S.Captures(live, s) && S.SnapshotVerified(s)
    requires Installed(s, Destinations(s, catalogRequired), fs)
    ensures forall root | root in S.ASSET_DIRECTORIES && root in live ::
              R.At(fs, R.Root(root)) == Some(S.FilesIn(later, root))
    ensures "uploads" in live && "word-templates" in live
  {
    DestinationsDiffer(s, catalogRequired);
    forall root | root in S.ASSET_DIRECTORIES && root in live
      ensures R.At(fs, R.Root(root)) == Some(S.FilesIn(later, root))
    {
      assert root in s.trees;
      S.VerifiedIsStageable(live, later, s, root);
    }
    assert "uploads" in Destinations(s, catalogRequired) && "word-templates" in Destinations(s, catalogRequired);
    assert "uploads" in s.trees && "word-templates" in s.trees;
  }

  /** A backup that reported success, with all needed directories present, can be restored when nothing raises. */
  lemma SuccessIsRestorable(live: S.Trees, later: S.Trees, s: S.Snapshot, catalogRequired: bool, root: string)
    requires S.WellNamed(live) && S.Unchanged(live, later) && S.Captures(live, s) && S.SnapshotVerified(s)
    requires root in Destinations(s, catalogRequired)
    ensures S.Rebuilt(root, s.files, s.trees).Some? <==> root in live
  {
    DestinationsDiffer(s, catalogRequired);
    S.CommittedVerifiesIffSafe(live, s);
    S.SnapshotRoundTrip(live, later, s, root);
  }

  /** `cmd_create`, and later `cmd_restore` of what it made. */
  method BackUpAndRestore(
      live: S.Trees, later: S.Trees, dump: S.Content, retained: bool, run: R.RestoreRun, catalogRequired: bool)
    returns (success: bool, outcome: R.Outcome)
    requires S.WellNamed(live) && S.WellNamed(later) && R.Clean(run.fs)
    modifies run
    ensures outcome == R.Failed ==> run.fs == old(run.fs) && run.database == old(run.database)
    ensures outcome != R.Failed ==>
              && success && run.database == dump
              && forall root | root in S.ASSET_DIRECTORIES && root in live ::
                   R.At(run.fs, R.Root(root)) == Some(S.FilesIn(later, root))
  {
    var committed;
    committed, success := S.Create(live, later, dump, retained);
    if !success {
      return false, R.Failed;
    }
    S.CommittedVerifiesIffSafe(live, committed.value);
    outcome := RestoreSnapshot(run, committed.value, catalogRequired);
    if outcome != R.Failed {
      RestoredIsLive(live, later, committed.value, catalogRequired, run.fs);
    }
  }
}
