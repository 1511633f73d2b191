/** The multi-directory restore of scripts/backup.py: stage, swap, restore the database, compensate. */
module BackupRestore {
  import opened Wrappers
  import opened Collections

  type Name = string
  /** A directory as a map from relative path, in components, to content. */
  type Tree = map<seq<string>, string>

  /** A destination, and the stage and previous trees beside it; their uuid suffixes make the names fresh. */
  datatype Dir = Root(name: Name) | Stage(name: Name) | Previous(name: Name)

  type Files = map<Dir, Tree>

  /** An entry of `activated`: hadPrevious says that the destination existed before the swap. */
  datatype Swap = Swap(name: Name, hadPrevious: bool)

  function At(fs: Files, d: Dir): Option<Tree> {
    if d in fs then Some(fs[d]) else None
  }

  predicate DistinctSwaps(swaps: seq<Swap>) {
    forall i, j | 0 <= i < j < |swaps| :: swaps[i].name != swaps[j].name
  }

  /** No stage or previous tree is present. */
  predicate Clean(fs: Files) {
    forall d | d in fs :: d.Root?
  }

  // ---- _rollback_asset_swaps ----------------------------------------------------------------

  function RollbackOne(fs: Files, s: Swap): Files {
    var root, previous := Root(s.name), Previous(s.name);
    if s.hadPrevious then
      if previous in fs then fs[root := fs[previous]] - {previous} else fs
    else fs - {root}
  }

  /** The swaps undone, last one first. */
  function RollbackAll(fs: Files, swaps: seq<Swap>): Files
    decreases |swaps|
  {
    if swaps == [] then fs
    else RollbackAll(RollbackOne(fs, swaps[|swaps| - 1]), swaps[..|swaps| - 1])
  }

  /** Undoing a swap looks at, and changes, only the directories of its name. */
  lemma RollbackIsLocal(fs: Files, s: Swap, d: Dir)
    ensures d.name != s.name ==> At(RollbackOne(fs, s), d) == At(fs, d)
    ensures forall g: Files | d.name == s.name && At(g, Root(s.name)) == At(fs, Root(s.name))
              && At(g, Stage(s.name)) == At(fs, Stage(s.name)) && At(g, Previous(s.name)) == At(fs, Previous(s.name)) ::
              At(RollbackOne(g, s), d) == At(RollbackOne(fs, s), d)
  {
  }

  /** Where rollback leaves each directory: every swap is undone on its own. */
  lemma {:induction false} RollbackAt(fs: Files, swaps: seq<Swap>, d: Dir)
    requires DistinctSwaps(swaps)
    ensures (forall s | s in swaps :: s.name != d.name) ==> At(RollbackAll(fs, swaps), d) == At(fs, d)
    ensures forall s | s in swaps && s.name == d.name :: At(RollbackAll(fs, swaps), d) == At(RollbackOne(fs, s), d)
    decreases |swaps|
  {
    if swaps != [] {
      var front, last := swaps[..|swaps| - 1], swaps[|swaps| - 1];
      var undone := RollbackOne(fs, last);
      RollbackAt(undone, front, d);
      RollbackIsLocal(fs, last, d);
      forall s | s in swaps && s.name == d.name ensures At(RollbackAll(fs, swaps), d) == At(RollbackOne(fs, s), d) {
        var i :| 0 <= i < |swaps| && swaps[i] == s;
        if i < |front| {
          assert front[i] == s;
          RollbackIsLocal(fs, last, Root(d.name));
          RollbackIsLocal(fs, last, Stage(d.name));
          RollbackIsLocal(fs, last, Previous(d.name));
          RollbackIsLocal(fs, s, d);
        } else {
          assert forall x | x in front :: x.name != d.name;
        }
      }
    }
  }

  /** Undoing the swaps a second time changes nothing. */
  lemma RollbackTwice(fs: Files, swaps: seq<Swap>)
    requires DistinctSwaps(swaps)
    ensures RollbackAll(RollbackAll(fs, swaps), swaps) == RollbackAll(fs, swaps)
  {
    var once := RollbackAll(fs, swaps);
    var twice := RollbackAll(once, swaps);
    forall d: Dir ensures At(twice, d) == At(once, d) {
      RollbackAt(once, swaps, d);
      if s :| s in swaps && s.name == d.name {
        RollbackAt(fs, swaps, Root(s.name));
        RollbackAt(fs, swaps, Previous(s.name));
        RollbackAt(fs, swaps, d);
      }
    }
    SameFiles(twice, once);
  }

  lemma SameFiles(a: Files, b: Files)
    requires forall d: Dir :: At(a, d) == At(b, d)
    ensures a == b
  {
    forall d: Dir ensures d in a <==> d in b { assert At(a, d) == At(b, d); }
    forall d: Dir | d in a ensures a[d] == b[d] { assert At(a, d) == At(b, d); }
  }

  // ---- the shape of a half-done activation --------------------------------------------------

  /** fs differs from the staged files only at name: untouched, moved aside, or swapped. */
  ghost predicate Reachable(staged: Files, fs: Files, name: Name) {
    var root, stage, previous := At(staged, Root(name)), At(staged, Stage(name)), At(staged, Previous(name));
    || (At(fs, Root(name)) == root && At(fs, Stage(name)) == stage && At(fs, Previous(name)) == None)
    || (root.Some? && At(fs, Root(name)) == None && At(fs, Stage(name)) == stage && At(fs, Previous(name)) == root)
    || (At(fs, Root(name)) == stage && At(fs, Stage(name)) == None && At(fs, Previous(name)) == root)
  }

  /** Rolling back any half-done activation leaves the staged files, save for stages already moved. */
  lemma RollbackRestores(staged: Files, fs: Files, swaps: seq<Swap>, d: Dir)
    requires DistinctSwaps(swaps)
    requires forall s | s in swaps :: Reachable(staged, fs, s.name) && s.hadPrevious == (Root(s.name) in staged)
    requires forall s | s in swaps :: Stage(s.name) in staged && Previous(s.name) !in staged
    requires (forall s | s in swaps :: s.name != d.name) ==> At(fs, d) == At(staged, d)
    requires !d.Stage?
    ensures At(RollbackAll(fs, swaps), d) == At(staged, d)
  {
    RollbackAt(fs, swaps, d);
    if s :| s in swaps && s.name == d.name {
      assert Reachable(staged, fs, s.name);
      assert At(RollbackAll(fs, swaps), d) == At(RollbackOne(fs, s), d);
    }
  }

  lemma RollbackKeepsStages(fs: Files, swaps: seq<Swap>, d: Dir)
    requires DistinctSwaps(swaps) && d.Stage?
    ensures At(RollbackAll(fs, swaps), d) == At(fs, d)
  {
    RollbackAt(fs, swaps, d);
    if s :| s in swaps && s.name == d.name {}
  }

  // ---- what the run has done so far ---------------------------------------------------------

  /** fs is fs0 with the stage of every listed name holding its snapshot tree. */
  ghost predicate StagedFrom(fs0: Files, fs: Files, names: seq<Name>, snapshot: map<Name, Tree>) {
    && (forall n | n in names :: n in snapshot)
    && forall d: Dir :: At(fs, d) == if d.Stage? && d.name in names then Some(snapshot[d.name]) else At(fs0, d)
  }

  /** Where a directory stands once the swaps of done have been made. */
  ghost function SwappedAt(staged: Files, done: seq<Name>, d: Dir): Option<Tree> {
    if d.name !in done then At(staged, d) else
      match d
      case Root(n) => At(staged, Stage(n))
      case Stage(_) => None
      case Previous(n) => At(staged, Root(n))
  }

  ghost predicate SwappedFrom(staged: Files, fs: Files, done: seq<Name>) {
    forall d: Dir :: At(fs, d) == SwappedAt(staged, done, d)
  }

  /** swaps records the given names, in order, with whether each destination existed. */
  ghost predicate SwapsOf(staged: Files, swaps: seq<Swap>, names: seq<Name>) {
    && |swaps| == |names|
    && forall i | 0 <= i < |names| :: swaps[i] == Swap(names[i], Root(names[i]) in staged)
  }

  function StagesOf(names: seq<Name>): set<Dir> {
    set n | n in names :: Stage(n)
  }

  /** The compensation that follows any failed activation restores the files as they were. */
  lemma CompensationRestores(
      fs0: Files, staged: Files, fs: Files, names: seq<Name>, snapshot: map<Name, Tree>, swaps: seq<Swap>)
    requires Clean(fs0) && Distinct(names) && StagedFrom(fs0, staged, names, snapshot)
    requires |swaps| <= |names| && SwapsOf(staged, swaps, names[..|swaps|])
    requires forall s | s in swaps :: Reachable(staged, fs, s.name)
    requires forall d: Dir | (forall s | s in swaps :: s.name != d.name) :: At(fs, d) == At(staged, d)
    ensures RollbackAll(fs, swaps) - StagesOf(names) == fs0
  {
    var undone := RollbackAll(fs, swaps);
    var result := undone - StagesOf(names);
    assert DistinctSwaps(swaps) by {
      forall i, j | 0 <= i < j < |swaps| ensures swaps[i].name != swaps[j].name {
        assert swaps[i].name == names[..|swaps|][i] == names[i] && swaps[j].name == names[..|swaps|][j] == names[j];
      }
    }
    forall s | s in swaps ensures s.name in names && s.hadPrevious == (Root(s.name) in staged) {
      var i :| 0 <= i < |swaps| && swaps[i] == s;
      assert names[..|swaps|][i] == names[i];
    }
    forall s | s in swaps ensures Stage(s.name) in staged && Previous(s.name) !in staged {
      assert At(staged, Stage(s.name)) == Some(snapshot[s.name]);
      assert At(staged, Previous(s.name)) == At(fs0, Previous(s.name));
    }
    forall d: Dir ensures At(result, d) == At(fs0, d) {
      if d.Stage? {
        RollbackKeepsStages(fs, swaps, d);
        if d.name in names {
          assert d in StagesOf(names);
        } else {
          assert At(fs, d) == At(staged, d) == At(fs0, d);
        }
      } else {
        RollbackRestores(staged, fs, swaps, d);
        assert At(staged, d) == At(fs0, d);
      }
    }
    SameFiles(result, fs0);
  }

  datatype Outcome = Restored | Failed | CleanupFailed

  class RestoreRun {
    /** Which of the fallible operations, counted from the start, raises. */
    const fails: nat -> bool
    const posix: bool
    var clock: nat
    var fs: Files
    var database: string

    constructor (oracle: nat -> bool, isPosix: bool, files: Files, current: string)
      ensures fails == oracle && posix == isPosix && clock == 0 && fs == files && database == current
    {
      fails, posix, clock, fs, database := oracle, isPosix, 0, files, current;
    }

    /** No operation ever raises. */
    ghost predicate Faultless() {
      forall i: nat :: !fails(i)
    }

    method Attempt() returns (ok: bool)
      modifies this`clock
      ensures ok == !fails(old(clock))
    {
      ok := !fails(clock);
      clock := clock + 1;
    }

    /** Copies one tree into its stage, file by file; a failure may leave it partial. */
    method CopyTree(stage: Dir, tree: Tree) returns (ok: bool)
      requires stage in fs && fs[stage] == map[]
      modifies this`clock, this`fs
      ensures fs.Keys == old(fs.Keys) && forall d | d in fs && d != stage :: fs[d] == old(fs)[d]
      ensures ok ==> fs[stage] == tree
      ensures Faultless() ==> ok
    {
      var rest := tree.Keys;
      while rest != {}
        invariant rest <= tree.Keys && stage in fs && fs[stage].Keys == tree.Keys - rest
        invariant forall p | p in fs[stage] :: fs[stage][p] == tree[p]
        invariant fs.Keys == old(fs.Keys) && forall d | d in fs && d != stage :: fs[d] == old(fs)[d]
        decreases |rest|
      {
        var p :| p in rest;
        ok := Attempt();
        if !ok {
          return;
        }
        fs := fs[stage := fs[stage][p := tree[p]]];
        rest := rest - {p};
      }
      ok := true;
    }

    method RemoveStages(names: seq<Name>)
      modifies this`fs
      ensures fs == old(fs) - StagesOf(names)
    {
      for i := 0 to |names|
        invariant fs == old(fs) - StagesOf(names[..i])
      {
        fs := fs - {Stage(names[i])};
        assert StagesOf(names[..i + 1]) == StagesOf(names[..i]) + {Stage(names[i])} by {
          assert names[..i + 1] == names[..i] + [names[i]];
        }
      }
      assert names[..|names|] == names;
    }

    /** One pass of the staging loop: made says that the stage directory was created. */
    method StageOne(name: Name, snapshot: map<Name, Tree>) returns (made: bool, ok: bool)
      modifies this`clock, this`fs
      ensures forall d: Dir | d != Stage(name) :: At(fs, d) == old(At(fs, d))
      ensures !made ==> fs == old(fs) && !ok
      ensures ok ==> name in snapshot && At(fs, Stage(name)) == Some(snapshot[name])
      ensures Faultless() && name in snapshot ==> ok
    {
      if name !in snapshot {
        return false, false;
      }
      made := Attempt();
      if !made {
        return false, false;
      }
      fs := fs[Stage(name) := map[]];
      ok := CopyTree(Stage(name), snapshot[name]);
    }

    /** `_stage_restore_assets`: a stage beside every destination, or none at all. */
    method StageAssets(names: seq<Name>, snapshot: map<Name, Tree>) returns (ok: bool)
      requires Distinct(names) && Clean(fs)
      modifies this`clock, this`fs
      ensures ok ==> StagedFrom(old(fs), fs, names, snapshot)
      ensures !ok ==> fs == old(fs)
      ensures Faultless() && (forall n | n in names :: n in snapshot) ==> ok
    {
      ghost var fs0 := fs;
      for i := 0 to |names|
        invariant StagedFrom(fs0, fs, names[..i], snapshot)
      {
        var name := names[i];
        assert names[..i + 1] == names[..i] + [name];
        ghost var before := fs;
        var made: bool;
        made, ok := StageOne(name, snapshot);
        if !ok {
          RemoveStages(names[..if made then i + 1 else i]);
          UnstagedIsOriginal(fs0, fs, names[..i], name);
          return;
        }
        StagedGrows(fs0, before, fs, names[..i], name, snapshot);
      }
      assert names[..|names|] == names;
      ok := true;
    }

    /** `_rollback_asset_swaps` */
    method Rollback(swaps: seq<Swap>)
      modifies this`fs
      ensures fs == RollbackAll(old(fs), swaps)
    {
      var i := |swaps|;
      assert swaps[..i] == swaps;
      while i > 0
        invariant 0 <= i <= |swaps|
        invariant RollbackAll(fs, swaps[..i]) == RollbackAll(old(fs), swaps)
      {
        i := i - 1;
        assert swaps[..i + 1][..i] == swaps[..i];
        var s := swaps[i];
        ghost var before := fs;
        if s.hadPrevious {
          if Previous(s.name) in fs {
            fs := fs - {Root(s.name)};
            fs := fs[Root(s.name) := fs[Previous(s.name)]] - {Previous(s.name)};
          }
        } else if Root(s.name) in fs {
          fs := fs - {Root(s.name)};
        }
        assert fs == RollbackOne(before, s);
      }
    }

    /** `_activate_staged_assets`: every destination swapped for its stage, or everything as before staging. */
    method Activate(names: seq<Name>, ghost fs0: Files, ghost snapshot: map<Name, Tree>)
      returns (ok: bool, swaps: seq<Swap>)
      requires Clean(fs0) && Distinct(names) && StagedFrom(fs0, fs, names, snapshot)
      modifies this`clock, this`fs
      ensures ok ==> SwapsOf(old(fs), swaps, names) && SwappedFrom(old(fs), fs, names)
      ensures !ok ==> fs == fs0
      ensures Faultless() && (posix ==> forall n | n in names :: Root(n) in fs0) ==> ok
    {
      ghost var staged := fs;
      swaps := [];
      for i := 0 to |names|
        invariant SwapsOf(staged, swaps, names[..i]) && SwappedFrom(staged, fs, names[..i])
      {
        var name := names[i];
        assert name !in names[..i];
        assert names[..i + 1] == names[..i] + [name];
        ok := true;
        if posix {
          ok := Attempt();
          ok := ok && Root(name) in fs;
          assert At(fs, Root(name)) == At(staged, Root(name)) == At(fs0, Root(name));
        }
        if ok {
          var hadPrevious := Root(name) in fs;
          assert At(fs, Root(name)) == At(staged, Root(name)) && At(staged, Stage(name)) == Some(snapshot[name]);
          assert At(staged, Previous(name)) == At(fs0, Previous(name));
          swaps := swaps + [Swap(name, hadPrevious)];
          ok := SwapOne(name, hadPrevious, staged, names[..i]);
        }
        if !ok {
          HalfDoneIsReachable(staged, fs, names, i, swaps);
          CompensationRestores(fs0, staged, fs, names, snapshot, swaps);
          Rollback(swaps);
          RemoveStages(names);
          return;
        }
      }
      assert names[..|names|] == names;
      ok := true;
    }

    /** Moves the old tree aside and the stage into place; either move may fail. */
    method SwapOne(name: Name, hadPrevious: bool, ghost staged: Files, ghost done: seq<Name>) returns (ok: bool)
      requires name !in done && SwappedFrom(staged, fs, done)
      requires Stage(name) in staged && Previous(name) !in staged && hadPrevious == (Root(name) in staged)
      modifies this`clock, this`fs
      ensures ok ==> SwappedFrom(staged, fs, done + [name])
      ensures Faultless() ==> ok
      ensures Reachable(staged, fs, name)
      ensures forall d: Dir | d.name != name :: At(fs, d) == old(At(fs, d))
    {
      assert At(fs, Root(name)) == At(staged, Root(name)) && At(fs, Stage(name)) == At(staged, Stage(name));
      assert At(fs, Previous(name)) == None;
      if hadPrevious {
        ok := Attempt();
        if !ok {
          return;
        }
        fs := fs[Previous(name) := fs[Root(name)]] - {Root(name)};
      }
      ok := Attempt();
      if !ok {
        return;
      }
      fs := fs[Root(name) := fs[Stage(name)]] - {Stage(name)};
      forall d: Dir ensures At(fs, d) == SwappedAt(staged, done + [name], d) {
        assert old(At(fs, d)) == SwappedAt(staged, done, d);
        assert d.name in done + [name] <==> d.name in done || d.name == name;
      }
    }

    /** `_finalize_asset_swaps`: drops the previous trees; a failure leaves some of them. */
    method Finalize(swaps: seq<Swap>) returns (ok: bool)
      modifies this`clock, this`fs
      ensures forall d: Dir | !d.Previous? :: At(fs, d) == old(At(fs, d))
      ensures ok ==> forall s | s in swaps && s.hadPrevious :: Previous(s.name) !in fs
      ensures forall d: Dir | d in fs :: d in old(fs)
      ensures Faultless() ==> ok
    {
      for i := 0 to |swaps|
        invariant forall d: Dir | !d.Previous? :: At(fs, d) == old(At(fs, d))
        invariant forall j | 0 <= j < i && swaps[j].hadPrevious :: Previous(swaps[j].name) !in fs
        invariant forall d: Dir | d in fs :: d in old(fs)
      {
        if swaps[i].hadPrevious && Previous(swaps[i].name) in fs {
          ok := Attempt();
          if !ok {
            return;
          }
          fs := fs - {Previous(swaps[i].name)};
        }
      }
      ok := true;
    }

    /**
     `cmd_restore` after verification. Whatever operation fails, a failed restore leaves every directory and
     the database exactly as before; a successful one leaves every destination equal to its snapshot tree.
     */
    method Restore(names: seq<Name>, snapshot: map<Name, Tree>, dump: string) returns (outcome: Outcome)
      requires Distinct(names) && Clean(fs)
      modifies this
      ensures outcome == Failed ==> fs == old(fs) && database == old(database)
      ensures outcome != Failed ==>
                && database == dump
                && (forall n | n in names :: n in snapshot && At(fs, Root(n)) == Some(snapshot[n]))
                && (forall d: Dir | d.name !in names :: At(fs, d) == old(At(fs, d)))
                && (forall d: Dir | d in fs :: !d.Stage?)
      ensures outcome == Restored ==> Clean(fs)
      ensures Faultless() && (forall n | n in names :: n in snapshot && (posix ==> Root(n) in old(fs))) ==>
          outcome == Restored
      ensures (exists n | n in names :: n !in snapshot) ==> outcome == Failed
    {
      ghost var fs0 := fs;
      var ok := StageAssets(names, snapshot);
      if !ok {
        return Failed;
      }
      ghost var staged := fs;
      var swaps: seq<Swap>;
      ok, swaps := Activate(names, fs0, snapshot);
      if !ok {
        return Failed;
      }
      var restored := Attempt();
      if !restored {
        CompleteIsReachable(staged, fs, names, swaps);
        CompensationRestores(fs0, staged, fs, names, snapshot, swaps);
        NoStagesLeft(staged, fs, names, swaps);
        Rollback(swaps);
        return Failed;
      }
      database := dump;
      ghost var swapped := fs;
      ok := Finalize(swaps);
      SwapOutcome(fs0, staged, swapped, names, snapshot);
      if ok {
        AllPreviousGone(fs0, staged, swapped, fs, names, snapshot, swaps);
      }
      return if ok then Restored else CleanupFailed;
    }
  }

  lemma HalfDoneIsReachable(staged: Files, fs: Files, names: seq<Name>, i: nat, swaps: seq<Swap>)
    requires i < |names| && Distinct(names) && i <= |swaps| <= i + 1
    requires SwapsOf(staged, swaps, names[..|swaps|])
    requires forall d: Dir | d.name != names[i] :: At(fs, d) == SwappedAt(staged, names[..i], d)
    requires if |swaps| == i then SwappedFrom(staged, fs, names[..i]) else Reachable(staged, fs, names[i])
    ensures forall s | s in swaps :: Reachable(staged, fs, s.name)
    ensures forall d: Dir | (forall s | s in swaps :: s.name != d.name) :: At(fs, d) == At(staged, d)
  {
    assert names[..i + 1] == names[..i] + [names[i]];
    forall s | s in swaps ensures Reachable(staged, fs, s.name) {
      var j :| 0 <= j < |swaps| && swaps[j] == s;
      assert s.name == names[..|swaps|][j] == names[j];
      if j < i { assert names[..i][j] == names[j]; }
    }
    forall d: Dir | (forall s | s in swaps :: s.name != d.name) ensures At(fs, d) == At(staged, d) {
      forall j | 0 <= j < |swaps| ensures names[j] != d.name {
        assert swaps[j] in swaps && names[..|swaps|][j] == names[j];
      }
      assert d.name !in names[..i];
    }
  }

  lemma CompleteIsReachable(staged: Files, fs: Files, names: seq<Name>, swaps: seq<Swap>)
    requires SwapsOf(staged, swaps, names) && SwappedFrom(staged, fs, names)
    ensures forall s | s in swaps :: Reachable(staged, fs, s.name)
    ensures forall d: Dir | (forall s | s in swaps :: s.name != d.name) :: At(fs, d) == At(staged, d)
    ensures names[..|swaps|] == names
  {
    forall s | s in swaps ensures Reachable(staged, fs, s.name) {
      var j :| 0 <= j < |swaps| && swaps[j] == s;
      assert s.name == names[j];
    }
    forall d: Dir | (forall s | s in swaps :: s.name != d.name) ensures At(fs, d) == At(staged, d) {
      forall j | 0 <= j < |names| ensures names[j] != d.name { assert swaps[j] in swaps; }
    }
  }

  /** After a full swap no stage is left to remove. */
  lemma NoStagesLeft(staged: Files, fs: Files, names: seq<Name>, swaps: seq<Swap>)
    requires SwappedFrom(staged, fs, names) && DistinctSwaps(swaps)
    ensures RollbackAll(fs, swaps) - StagesOf(names) == RollbackAll(fs, swaps)
  {
    forall n | n in names ensures Stage(n) !in RollbackAll(fs, swaps) {
      RollbackKeepsStages(fs, swaps, Stage(n));
      assert At(fs, Stage(n)) == None;
    }
  }

  lemma SwapOutcome(fs0: Files, staged: Files, swapped: Files, names: seq<Name>, snapshot: map<Name, Tree>)
    requires Clean(fs0) && StagedFrom(fs0, staged, names, snapshot) && SwappedFrom(staged, swapped, names)
    ensures forall n | n in names :: At(swapped, Root(n)) == Some(snapshot[n])
    ensures forall d: Dir | d.name !in names :: At(swapped, d) == At(fs0, d)
    ensures forall d: Dir | d in swapped :: !d.Stage?
    ensures forall d: Dir | d in swapped && d.Previous? :: d.name in names && Root(d.name) in staged
  {
    forall n | n in names ensures At(swapped, Root(n)) == Some(snapshot[n]) {
      assert At(swapped, Root(n)) == At(staged, Stage(n));
    }
    forall d: Dir | d.name !in names ensures At(swapped, d) == At(fs0, d) {
      assert At(swapped, d) == At(staged, d);
    }
    forall d: Dir | d in swapped ensures !d.Stage? && (d.Previous? ==> d.name in names && Root(d.name) in staged) {
      assert At(swapped, d) == SwappedAt(staged, names, d);
      assert At(staged, Root(d.name)) == At(fs0, Root(d.name));
      assert d.name !in names ==> At(staged, d) == At(fs0, d);
    }
  }

  lemma AllPreviousGone(
      fs0: Files, staged: Files, swapped: Files, fs: Files, names: seq<Name>, snapshot: map<Name, Tree>,
      swaps: seq<Swap>)
    requires Clean(fs0) && StagedFrom(fs0, staged, names, snapshot) && SwappedFrom(staged, swapped, names)
    requires SwapsOf(staged, swaps, names)
    requires forall s | s in swaps && s.hadPrevious :: Previous(s.name) !in fs
    requires forall d: Dir | d in fs :: d in swapped
    ensures Clean(fs)
  {
    SwapOutcome(fs0, staged, swapped, names, snapshot);
    forall i | 0 <= i < |names| && Root(names[i]) in staged ensures Previous(names[i]) !in fs {
      assert swaps[i] in swaps && swaps[i].hadPrevious;
    }
  }

  lemma StagedGrows(fs0: Files, before: Files, fs: Files, names: seq<Name>, name: Name, snapshot: map<Name, Tree>)
    requires StagedFrom(fs0, before, names, snapshot) && name in snapshot && At(fs, Stage(name)) == Some(snapshot[name])
    requires forall d: Dir | d != Stage(name) :: At(fs, d) == At(before, d)
    ensures StagedFrom(fs0, fs, names + [name], snapshot)
  {
    forall n ensures n in names + [name] <==> n in names || n == name {}
  }

  /** Removing the stages made so far, and the one being made, gives the files back. */
  lemma UnstagedIsOriginal(fs0: Files, fs: Files, names: seq<Name>, name: Name)
    requires Clean(fs0)
    requires forall d: Dir | !(d.Stage? && (d.name in names || d.name == name)) :: At(fs, d) == At(fs0, d)
    requires forall n | n in names :: Stage(n) !in fs
    requires Stage(name) !in fs
    ensures fs == fs0
  {
    SameFiles(fs, fs0);
  }
}
