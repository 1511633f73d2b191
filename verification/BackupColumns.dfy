/** What the snapshot check accepts and refuses, down to names and bytes. */
module BackupColumns {
  import opened Wrappers
  import opened Collections
  import opened BackupSnapshot

  // ---- names --------------------------------------------------------------------------------

  /** A name is refused for being empty, `.` or `..`, and for a colon, a backslash or a control character. */
  lemma SafeMeaning(c: string)
    ensures SafeComponent(c) <==>
              && c != "" && c != "." && c != ".."
              && forall i | 0 <= i < |c| :: c[i] != ':' && c[i] != '\\' && c[i] as int >= 32
  {
    assert forall i | 0 <= i < |c| :: c[i] in c;
  }

  /** Letters, digits and the usual marks make safe names, and so do the accented letters above them. */
  lemma OrdinaryNames(c: string)
    requires c != "" && c != "." && c != ".."
    requires forall x | x in c ::
               'a' <= x <= 'z' || 'A' <= x <= 'Z' || '0' <= x <= '9' || x in " .-_()[],+&'@#!~" || x as int >= 128
    ensures SafeComponent(c)
  {
  }

  /** A manifest path is accepted exactly when it splits at its slashes into safe names. */
  lemma PathMeaning(raw: string, parts: Parts)
    requires Posix(parts) && raw == Join(parts)
    ensures ManifestPath(raw) == Some(parts) <==> forall i | 0 <= i < |parts| :: SafeComponent(parts[i])
    ensures ManifestPath(raw) == Some(parts) || ManifestPath(raw) == None
  {
    SplitJoin(parts);
    assert forall i | 0 <= i < |parts| :: parts[i] in parts;
  }

  // ---- contents -----------------------------------------------------------------------------

  /** What lies at a path: the dump, or a file of a staged tree. */
  predicate Holds(s: Snapshot, path: Parts, c: Content) {
    if path == ["database", "bidding.dump"] then c == s.dump
    else path != [] && path[0] in s.trees && path[1..] in s.trees[path[0]] && c == s.trees[path[0]][path[1..]]
  }

  ghost predicate ListsContent(s: Snapshot, e: Entry, c: Content) {
    && ManifestPath(e.relativePath).Some? && Holds(s, ManifestPath(e.relativePath).value, c)
    && e.size == |c| && e.sha256 == Sha256(c)
  }

  /** The entry's path is safe, and what lies there has its size and digest. */
  ghost predicate Lists(s: Snapshot, e: Entry) {
    exists c :: ListsContent(s, e, c)
  }

  lemma EntryMeaning(s: Snapshot, e: Entry)
    ensures EntryVerified(s, e) <==> Lists(s, e)
  {
    if EntryVerified(s, e) {
      assert ListsContent(s, e, ContentAt(s, ManifestPath(e.relativePath).value).value);
    }
  }

  /** A snapshot is accepted when it lists at most 500000 files, each on its own path and with what lies there. */
  lemma SnapshotMeaning(s: Snapshot)
    ensures SnapshotVerified(s) <==>
              && |s.files| <= 500_000
              && (forall i | 0 <= i < |s.files| :: Lists(s, s.files[i]))
              && (forall i, j | 0 <= i < j < |s.files| ::
                    ManifestPath(s.files[i].relativePath) != ManifestPath(s.files[j].relativePath))
  {
    forall i | 0 <= i < |s.files|
      ensures EntryVerified(s, s.files[i]) <==> Lists(s, s.files[i])
    {
      EntryMeaning(s, s.files[i]);
    }
    assert (forall e | e in s.files :: EntryVerified(s, e)) <==>
           forall i | 0 <= i < |s.files| :: EntryVerified(s, s.files[i]);
    DistinctMeaning(s.files);
  }

  lemma DistinctMeaning(files: seq<Entry>)
    ensures Distinct(Parsed(files)) <==> forall i, j | 0 <= i < j < |files| ::
              ManifestPath(files[i].relativePath) != ManifestPath(files[j].relativePath)
  {
    assert forall i | 0 <= i < |files| :: Parsed(files)[i] == ManifestPath(files[i].relativePath);
  }

  /** A snapshot one of whose files, or whose dump, is not as it was captured does not verify. */
  lemma TamperedIsRefused(live: Trees, s: Snapshot, t: Snapshot)
    requires WellNamed(live) && Captures(live, s) && t.files == s.files
    requires t.dump != s.dump
             || exists r, p :: r in s.trees && p in s.trees[r] &&
                  !(r in t.trees && p in t.trees[r] && t.trees[r][p] == s.trees[r][p])
    ensures !SnapshotVerified(t)
  {
    if t.dump != s.dump {
      DumpTampered(s, t);
      assert s.files[0] in t.files;
    } else {
      var r, p :| r in s.trees && p in s.trees[r]
                  && !(r in t.trees && p in t.trees[r] && t.trees[r][p] == s.trees[r][p]);
      assert r in live && Posix(p);
      RootNames(r);
      FileTampered(s, t, r, p);
      assert EntryOf(r, p, s.trees[r][p]) in s.files[1..];
      assert EntryOf(r, p, s.trees[r][p]) in t.files;
    }
  }

  lemma DumpTampered(s: Snapshot, t: Snapshot)
    requires t.dump != s.dump
    ensures !EntryVerified(t, DumpEntry(s.dump))
  {
    DumpParses();
  }

  lemma FileTampered(s: Snapshot, t: Snapshot, r: string, p: Parts)
    requires r in s.trees && p in s.trees[r] && Posix(p) && RootName(r) && r != "database"
    requires !(r in t.trees && p in t.trees[r] && t.trees[r][p] == s.trees[r][p])
    ensures !EntryVerified(t, EntryOf(r, p, s.trees[r][p]))
  {
    EntryParses(r, p, s.trees[r][p]);
    assert [r] + p != DUMP_PARTS by { assert ([r] + p)[0] == r && DUMP_PARTS[0] == "database"; }
  }

  // ---- what create captures -----------------------------------------------------------------

  /** The copied directories, and what the manifest lists for each of their files and for the dump. */
  lemma CapturedMeaning(live: Trees, s: Snapshot)
    requires WellNamed(live) && Captures(live, s)
    ensures forall r :: r in s.trees <==> r in live && (r == "uploads" || r == "word-templates" || r == "word-catalog")
    ensures forall r | r in s.trees :: s.trees[r] == live[r]
    ensures |s.files| >= 1 && s.files[0].relativePath == "database/bidding.dump"
            && s.files[0].size == |s.dump| && s.files[0].sha256 == Sha256(s.dump)
    ensures forall i, j | 0 <= i < j < |s.files| :: s.files[i].relativePath != s.files[j].relativePath
    ensures forall r, p | r in s.trees && p in s.trees[r] ::
              exists e | e in s.files :: e.relativePath == Join([r] + p) && e.size == |live[r][p]|
                                         && e.sha256 == Sha256(live[r][p])
    ensures forall e | e in s.files[1..] ::
              exists r, p :: r in s.trees && p in s.trees[r] && e.relativePath == Join([r] + p)
  {
    AssetDirectories();
    DumpPath();
    forall r, p | r in s.trees && p in s.trees[r]
      ensures exists e | e in s.files :: e.relativePath == Join([r] + p) && e.size == |live[r][p]|
                                         && e.sha256 == Sha256(live[r][p])
    {
      var e := EntryOf(r, p, s.trees[r][p]);
      assert e in s.files[1..] && e in s.files;
    }
    forall e | e in s.files[1..]
      ensures exists r, p :: r in s.trees && p in s.trees[r] && e.relativePath == Join([r] + p)
    {
      assert Describes(s.trees, e);
    }
    forall i, j | 0 <= i < j < |s.files| ensures s.files[i].relativePath != s.files[j].relativePath {
      ListedPathsDiffer(live, s, i, j);
    }
  }

  lemma AssetDirectories()
    ensures forall r :: r in ASSET_DIRECTORIES <==> r == "uploads" || r == "word-templates" || r == "word-catalog"
  {
    assert ASSET_DIRECTORIES[0] == "uploads" && ASSET_DIRECTORIES[1] == "word-templates";
    assert ASSET_DIRECTORIES[2] == "word-catalog";
  }

  lemma DumpPath()
    ensures DUMP_PATH == "database/bidding.dump"
  {
    assert DUMP_PARTS[1..] == ["bidding.dump"];
  }

  lemma ListedPathsDiffer(live: Trees, s: Snapshot, i: nat, j: nat)
    requires WellNamed(s.trees) && Captures(live, s) && i < j < |s.files|
    ensures s.files[i].relativePath != s.files[j].relativePath
  {
    var f := s.files[1..][j - 1];
    if i == 0 {
      assert f in s.files[1..] && Describes(s.trees, f);
      var r, p :| r in s.trees && p in s.trees[r] && f == EntryOf(r, p, s.trees[r][p]);
      RootNames(r);
      EntryParses(r, p, s.trees[r][p]);
      DumpParses();
    } else {
      assert s.files[1..][i - 1].relativePath != f.relativePath;
    }
  }
}
