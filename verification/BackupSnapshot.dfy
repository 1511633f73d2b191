/** The snapshot of scripts/backup.py: copying live trees, the re-check, and rebuilding them for a restore. */
module BackupSnapshot {
  import opened Wrappers
  import opened Collections

  /** A relative path as its components. */
  type Parts = seq<string>
  type Content = string
  type Tree = map<Parts, Content>

  /** SHA-256 is injective. */
  datatype Digest = Sha256(content: Content)

  datatype Entry = Entry(relativePath: string, size: nat, sha256: Digest)

  // ---- path strings -------------------------------------------------------------------------

  function Join(parts: Parts): string {
    if parts == [] then "" else if |parts| == 1 then parts[0] else parts[0] + "/" + Join(parts[1..])
  }

  function SlashAt(s: string): (i: nat)
    ensures i <= |s| && '/' !in s[..i] && (i < |s| ==> s[i] == '/')
  {
    if s == "" || s[0] == '/' then 0 else
      var i := 1 + SlashAt(s[1..]);
      assert s[..i] == [s[0]] + s[1..][..i - 1];
      i
  }

  function Split(s: string): (r: Parts)
    ensures r != []
    decreases |s|
  {
    var i := SlashAt(s);
    if i == |s| then [s] else [s[..i]] + Split(s[i + 1..])
  }

  /** What a file system allows: no component is empty or holds a slash. */
  predicate Posix(parts: Parts) {
    parts != [] && forall c | c in parts :: c != "" && '/' !in c
  }

  lemma SlashAfter(c: string, rest: string)
    requires '/' !in c
    ensures SlashAt(c + "/" + rest) == |c| && SlashAt(c) == |c|
  {
    var s := c + "/" + rest;
    var i := SlashAt(s);
    assert forall k | 0 <= k < |c| :: s[k] == c[k] && c[k] in c;
    forall k | 0 <= k < i ensures s[k] != '/' { assert s[..i][k] == s[k]; }
    assert s[|c|] == '/';
  }

  lemma {:induction false} SplitJoin(parts: Parts)
    requires Posix(parts)
    ensures Split(Join(parts)) == parts
    decreases |parts|
  {
    assert parts[0] in parts;
    if |parts| == 1 {
      SlashAfter(parts[0], "");
    } else {
      var rest := Join(parts[1..]);
      assert forall c | c in parts[1..] :: c in parts;
      SplitJoin(parts[1..]);
      SplitOnce(parts[0], rest);
      assert [parts[0]] + parts[1..] == parts;
    }
  }

  lemma SplitOnce(c: string, rest: string)
    requires '/' !in c
    ensures Split(c + "/" + rest) == [c] + Split(rest)
  {
    SlashAfter(c, rest);
    var s := c + "/" + rest;
    assert s[..|c|] == c && s[|c| + 1..] == rest;
  }

  lemma JoinInjective(a: Parts, b: Parts)
    requires Posix(a) && Posix(b) && Join(a) == Join(b)
    ensures a == b
  {
    SplitJoin(a);
    SplitJoin(b);
  }

  predicate HasPrefix(s: string, p: string) {
    |p| <= |s| && s[..|p|] == p
  }

  /** Only the entries of a root start with its name and a slash. */
  lemma PrefixNamesRoot(root: string, parts: Parts)
    requires Posix(parts) && |parts| > 1 && root != "" && '/' !in root
    ensures HasPrefix(Join(parts), root + "/") <==> parts[0] == root
    ensures parts[0] == root ==> Join(parts)[|root| + 1..] == Join(parts[1..])
  {
    var s := Join(parts);
    assert parts[0] in parts;
    SlashAfter(parts[0], Join(parts[1..]));
    if HasPrefix(s, root + "/") {
      var rest := s[|root| + 1..];
      assert s == root + "/" + rest;
      SlashAfter(root, rest);
      assert s[..|root|] == root && s[..|parts[0]|] == parts[0];
    }
    if parts[0] == root {
      assert s[..|root| + 1] == root + "/";
    }
  }

  // ---- _copy_directory ----------------------------------------------------------------------

  function EntryOf(root: string, p: Parts, c: Content): Entry {
    Entry(Join([root] + p), |c|, Sha256(c))
  }

  predicate PosixTree(t: Tree) {
    forall p | p in t :: Posix(p)
  }

  /** The file map of a root that may be missing. */
  function FilesOf(t: Option<Tree>): Tree {
    if t.Some? then t.value else map[]
  }

  ghost predicate IsEntry(root: string, t: Tree, files: set<Parts>, e: Entry) {
    exists p | p in files :: p in t && e == EntryOf(root, p, t[p])
  }

  predicate DistinctPaths(entries: seq<Entry>) {
    forall i, j | 0 <= i < j < |entries| :: entries[i].relativePath != entries[j].relativePath
  }

  /** The entries are exactly those of the given files of the tree, each listed once. */
  ghost predicate EntriesOf(entries: seq<Entry>, root: string, t: Tree, files: set<Parts>) {
    && files <= t.Keys && DistinctPaths(entries)
    && (forall e | e in entries :: IsEntry(root, t, files, e))
    && (forall p | p in files :: EntryOf(root, p, t[p]) in entries)
  }

  /** What a file system allows for a directory below the backup root. */
  predicate RootName(root: string) {
    root != "" && '/' !in root
  }

  lemma EntryPathsDiffer(r: string, p: Parts, c: Content, r': string, p': Parts, c': Content)
    requires RootName(r) && RootName(r') && Posix(p) && Posix(p') && (r != r' || p != p')
    ensures EntryOf(r, p, c).relativePath != EntryOf(r', p', c').relativePath
  {
    assert forall x | x in [r] + p :: x == r || x in p;
    assert forall x | x in [r'] + p' :: x == r' || x in p';
    assert ([r] + p)[0] == r && ([r] + p)[1..] == p && ([r'] + p')[0] == r' && ([r'] + p')[1..] == p';
    if EntryOf(r, p, c).relativePath == EntryOf(r', p', c').relativePath {
      JoinInjective([r] + p, [r'] + p');
    }
  }

  lemma DistinctAppended(entries: seq<Entry>, e: Entry)
    requires DistinctPaths(entries) && forall x | x in entries :: x.relativePath != e.relativePath
    ensures DistinctPaths(entries + [e])
  {
    forall i, j | 0 <= i < j < |entries + [e]|
      ensures (entries + [e])[i].relativePath != (entries + [e])[j].relativePath
    {
      if j == |entries| { assert entries[i] in entries; }
    }
  }

  lemma EntryAdded(entries: seq<Entry>, root: string, t: Tree, files: set<Parts>, p: Parts)
    requires RootName(root) && PosixTree(t) && EntriesOf(entries, root, t, files) && p in t && p !in files
    ensures EntriesOf(entries + [EntryOf(root, p, t[p])], root, t, files + {p})
  {
    var e := EntryOf(root, p, t[p]);
    forall x | x in entries ensures x.relativePath != e.relativePath && IsEntry(root, t, files + {p}, x) {
      var q :| q in files && q in t && x == EntryOf(root, q, t[q]);
      EntryPathsDiffer(root, q, t[q], root, p, t[p]);
      assert q in files + {p};
    }
    DistinctAppended(entries, e);
    assert p in files + {p};
  }

  /** Copies one live root; a missing root stays missing, an empty one becomes an empty staged tree. */
  method CopyDirectory(root: string, live: Option<Tree>) returns (staged: Option<Tree>, entries: seq<Entry>)
    requires RootName(root) && PosixTree(FilesOf(live))
    ensures staged == live && EntriesOf(entries, root, FilesOf(live), FilesOf(live).Keys)
  {
    if live.None? {
      return None, [];
    }
    var copied := CopyFiles(live.value);
    entries := ListFiles(root, copied);
    staged := Some(copied);
  }

  method CopyFiles(tree: Tree) returns (copied: Tree)
    ensures copied == tree
  {
    copied := map[];
    var rest := tree.Keys;
    while rest != {}
      invariant rest <= tree.Keys && copied.Keys == tree.Keys - rest
      invariant forall p | p in copied :: copied[p] == tree[p]
      decreases |rest|
    {
      var p :| p in rest;
      copied := copied[p := tree[p]];
      rest := rest - {p};
    }
  }

  method ListFiles(root: string, tree: Tree) returns (entries: seq<Entry>)
    requires RootName(root) && PosixTree(tree)
    ensures EntriesOf(entries, root, tree, tree.Keys)
  {
    entries := [];
    var rest := tree.Keys;
    while rest != {}
      invariant rest <= tree.Keys && EntriesOf(entries, root, tree, tree.Keys - rest)
      decreases |rest|
    {
      var p :| p in rest;
      EntryAdded(entries, root, tree, tree.Keys - rest, p);
      assert tree.Keys - (rest - {p}) == (tree.Keys - rest) + {p};
      entries := entries + [EntryOf(root, p, tree[p])];
      rest := rest - {p};
    }
    assert tree.Keys - rest == tree.Keys;
  }

  // ---- _directory_matches_snapshot ----------------------------------------------------------

  function Expected(root: string, entries: seq<Entry>): map<string, (nat, Digest)> {
    if entries == [] then map[] else
      var last := entries[|entries| - 1];
      var rest := Expected(root, entries[..|entries| - 1]);
      if HasPrefix(last.relativePath, root + "/")
      then rest[last.relativePath[|root| + 1..] := (last.size, last.sha256)] else rest
  }

  predicate Matches(live: Option<Tree>, root: string, entries: seq<Entry>)
    requires PosixTree(FilesOf(live))
  {
    var actual := FilesOf(live);
    var expected := Expected(root, entries);
    && (set p | p in actual :: Join(p)) == expected.Keys
    && forall p | p in actual :: expected[Join(p)] == (|actual[p]|, Sha256(actual[p]))
  }

  /** The staged trees by root; a root that was missing is absent. */
  type Trees = map<string, Tree>

  function FilesIn(trees: Trees, root: string): Tree {
    if root in trees then trees[root] else map[]
  }

  predicate WellNamed(trees: Trees) {
    forall r | r in trees :: r != "" && '/' !in r && PosixTree(trees[r])
  }

  ghost predicate Describes(trees: Trees, e: Entry) {
    exists r, p :: r in trees && p in trees[r] && e == EntryOf(r, p, trees[r][p])
  }

  /** The manifest entries are exactly the staged files, each listed once. */
  ghost predicate Manifest(trees: Trees, entries: seq<Entry>) {
    && DistinctPaths(entries)
    && (forall e | e in entries :: Describes(trees, e))
    && (forall r, p | r in trees && p in trees[r] :: EntryOf(r, p, trees[r][p]) in entries)
  }

  lemma EntryPath(root: string, r: string, p: Parts, c: Content)
    requires Posix(p) && root != "" && '/' !in root && r != "" && '/' !in r
    ensures HasPrefix(EntryOf(r, p, c).relativePath, root + "/") <==> r == root
    ensures r == root ==> EntryOf(r, p, c).relativePath[|root| + 1..] == Join(p)
  {
    assert ([r] + p)[1..] == p;
    assert forall x | x in [r] + p :: x == r || x in p;
    PrefixNamesRoot(root, [r] + p);
  }

  /** The expected map of a root names only its staged files. */
  lemma {:induction false} ExpectedSound(root: string, entries: seq<Entry>, trees: Trees, k: string)
    requires WellNamed(trees) && root != "" && '/' !in root && (forall e | e in entries :: Describes(trees, e))
    requires k in Expected(root, entries)
    ensures exists p :: p in FilesIn(trees, root) && k == Join(p)
              && Expected(root, entries)[k] == (|FilesIn(trees, root)[p]|, Sha256(FilesIn(trees, root)[p]))
  {
    var front, last := entries[..|entries| - 1], entries[|entries| - 1];
    assert forall e | e in front :: e in entries;
    assert Describes(trees, last);
    var r, p :| r in trees && p in trees[r] && last == EntryOf(r, p, trees[r][p]);
    EntryPath(root, r, p, trees[r][p]);
    if !(r == root && k == Join(p)) {
      ExpectedSound(root, front, trees, k);
    }
  }

  /** ... and all of them that the manifest lists. */
  lemma {:induction false} ExpectedComplete(root: string, entries: seq<Entry>, trees: Trees, p: Parts)
    requires WellNamed(trees) && root in trees && p in trees[root]
    requires EntryOf(root, p, trees[root][p]) in entries
    ensures Join(p) in Expected(root, entries)
  {
    var front, last := entries[..|entries| - 1], entries[|entries| - 1];
    EntryPath(root, root, p, trees[root][p]);
    if EntryOf(root, p, trees[root][p]) != last {
      assert entries == front + [last];
      ExpectedComplete(root, front, trees, p);
    }
  }

  lemma ExpectedIs(root: string, entries: seq<Entry>, trees: Trees, p: Parts)
    requires WellNamed(trees) && Manifest(trees, entries) && root in trees && p in trees[root]
    ensures Join(p) in Expected(root, entries)
    ensures Expected(root, entries)[Join(p)] == (|trees[root][p]|, Sha256(trees[root][p]))
  {
    ExpectedComplete(root, entries, trees, p);
    ExpectedSound(root, entries, trees, Join(p));
    var q :| q in trees[root] && Join(p) == Join(q)
          && Expected(root, entries)[Join(p)] == (|trees[root][q]|, Sha256(trees[root][q]));
    JoinInjective(p, q);
  }

  lemma MatchingIsLive(root: string, live: Option<Tree>, entries: seq<Entry>, trees: Trees, p: Parts)
    requires WellNamed(trees) && Manifest(trees, entries) && root != "" && '/' !in root && PosixTree(FilesOf(live))
    requires Matches(live, root, entries)
    ensures p in FilesOf(live) <==> p in FilesIn(trees, root)
    ensures p in FilesOf(live) && p in FilesIn(trees, root) ==> FilesOf(live)[p] == FilesIn(trees, root)[p]
  {
    var actual, expected := FilesOf(live), Expected(root, entries);
    if p in actual {
      assert Join(p) in expected.Keys;
      ExpectedSound(root, entries, trees, Join(p));
      var q :| q in FilesIn(trees, root) && Join(p) == Join(q)
            && expected[Join(p)] == (|FilesIn(trees, root)[q]|, Sha256(FilesIn(trees, root)[q]));
      JoinInjective(p, q);
    } else if p in FilesIn(trees, root) {
      ExpectedIs(root, entries, trees, p);
      assert Join(p) in (set q | q in actual :: Join(q));
      var q :| q in actual && Join(q) == Join(p);
      JoinInjective(p, q);
    }
  }

  lemma LiveMatches(root: string, live: Option<Tree>, entries: seq<Entry>, trees: Trees)
    requires WellNamed(trees) && Manifest(trees, entries) && root != "" && '/' !in root && PosixTree(FilesOf(live))
    requires FilesOf(live) == FilesIn(trees, root)
    ensures Matches(live, root, entries)
  {
    var actual, expected := FilesOf(live), Expected(root, entries);
    forall p | p in actual ensures Join(p) in expected && expected[Join(p)] == (|actual[p]|, Sha256(actual[p])) {
      ExpectedIs(root, entries, trees, p);
    }
    forall k | k in expected ensures k in (set p | p in actual :: Join(p)) {
      ExpectedSound(root, entries, trees, k);
    }
    JoinsAre(actual, expected.Keys);
  }

  lemma JoinsAre(actual: Tree, keys: set<string>)
    requires forall p | p in actual :: Join(p) in keys
    requires forall k | k in keys :: k in (set p | p in actual :: Join(p))
    ensures (set p | p in actual :: Join(p)) == keys
  {
  }

  lemma SameTree(a: Tree, b: Tree)
    requires forall p :: p in a <==> p in b
    requires forall p | p in a :: a[p] == b[p]
    ensures a == b
  {
  }

  /** The re-check passes exactly when the live tree of the root has the staged files. */
  lemma CheckedSnapshotIsLive(root: string, live: Option<Tree>, entries: seq<Entry>, trees: Trees)
    requires WellNamed(trees) && Manifest(trees, entries) && root != "" && '/' !in root && PosixTree(FilesOf(live))
    ensures Matches(live, root, entries) <==> FilesOf(live) == FilesIn(trees, root)
  {
    if FilesOf(live) == FilesIn(trees, root) {
      LiveMatches(root, live, entries, trees);
    }
    if Matches(live, root, entries) {
      forall p ensures p in FilesOf(live) <==> p in FilesIn(trees, root) {
        MatchingIsLive(root, live, entries, trees, p);
      }
      forall p | p in FilesOf(live) ensures FilesOf(live)[p] == FilesIn(trees, root)[p] {
        MatchingIsLive(root, live, entries, trees, p);
      }
      SameTree(FilesOf(live), FilesIn(trees, root));
    }
  }

  // ---- cmd_create ---------------------------------------------------------------------------

  const ASSET_DIRECTORIES: seq<string> := ["uploads", "word-templates", "word-catalog"]

  const DUMP_PARTS: Parts := ["database", "bidding.dump"]

  const DUMP_PATH: string := Join(DUMP_PARTS)

  const MAX_MANIFEST_FILES: nat := 500_000

  /** A snapshot directory: the staged trees, the dump, and the manifest's file list with the dump first. */
  datatype Snapshot = Snapshot(trees: Trees, dump: Content, files: seq<Entry>)

  function DumpEntry(dump: Content): Entry {
    Entry(DUMP_PATH, |dump|, Sha256(dump))
  }

  function TreeAt(trees: Trees, root: string): Option<Tree> {
    if root in trees then Some(trees[root]) else None
  }

  /** What create commits after copying live: its asset directories, and a manifest of exactly their files. */
  ghost predicate Captures(live: Trees, snapshot: Snapshot) {
    && snapshot.trees == (map r | r in live && r in ASSET_DIRECTORIES :: live[r])
    && snapshot.files != [] && snapshot.files[0] == DumpEntry(snapshot.dump)
    && Manifest(snapshot.trees, snapshot.files[1..])
  }

  /** The live directories hold the same files at both times, though an empty one may have come or gone. */
  ghost predicate Unchanged(live: Trees, later: Trees) {
    forall r | r in ASSET_DIRECTORIES :: FilesIn(live, r) == FilesIn(later, r)
  }

  lemma StillDescribed(trees: Trees, root: string, tree: Tree, e: Entry)
    requires root !in trees && (Describes(trees, e) || IsEntry(root, tree, tree.Keys, e))
    ensures Describes(trees[root := tree], e)
  {
    var grown := trees[root := tree];
    if Describes(trees, e) {
      var r, p :| r in trees && p in trees[r] && e == EntryOf(r, p, trees[r][p]);
      assert r in grown && grown[r] == trees[r];
    } else {
      var p :| p in tree.Keys && p in tree && e == EntryOf(root, p, tree[p]);
      assert root in grown && grown[root] == tree;
    }
  }

  lemma OtherRootsDiffer(trees: Trees, entries: seq<Entry>, root: string, tree: Tree, more: seq<Entry>)
    requires WellNamed(trees) && Manifest(trees, entries) && RootName(root) && PosixTree(tree) && root !in trees
    requires EntriesOf(more, root, tree, tree.Keys)
    ensures DistinctPaths(entries + more)
  {
    forall e, x | e in entries && x in more ensures e.relativePath != x.relativePath {
      assert Describes(trees, e) && IsEntry(root, tree, tree.Keys, x);
      var r, p :| r in trees && p in trees[r] && e == EntryOf(r, p, trees[r][p]);
      var q :| q in tree.Keys && q in tree && x == EntryOf(root, q, tree[q]);
      EntryPathsDiffer(r, p, trees[r][p], root, q, tree[q]);
    }
    var all := entries + more;
    forall i, j | 0 <= i < j < |all| ensures all[i].relativePath != all[j].relativePath {
      if i < |entries| <= j { assert entries[i] in entries && more[j - |entries|] in more; }
    }
  }

  lemma ManifestGrows(trees: Trees, entries: seq<Entry>, root: string, tree: Tree, more: seq<Entry>)
    requires WellNamed(trees) && Manifest(trees, entries) && RootName(root) && PosixTree(tree) && root !in trees
    requires EntriesOf(more, root, tree, tree.Keys)
    ensures Manifest(trees[root := tree], entries + more)
  {
    OtherRootsDiffer(trees, entries, root, tree, more);
    forall e | e in entries + more ensures Describes(trees[root := tree], e) {
      assert e in entries || e in more;
      StillDescribed(trees, root, tree, e);
    }
  }

  /** Copies every asset directory that is there. */
  method CopyAll(live: Trees) returns (trees: Trees, entries: seq<Entry>)
    requires WellNamed(live)
    ensures trees == (map r | r in live && r in ASSET_DIRECTORIES :: live[r]) && Manifest(trees, entries)
  {
    var roots := ASSET_DIRECTORIES;
    RootsDiffer();
    trees, entries := map[], [];
    for i := 0 to |roots|
      invariant trees == (map r | r in live && r in roots[..i] :: live[r]) && Manifest(trees, entries)
    {
      assert roots[i] in ASSET_DIRECTORIES;
      RootNames(roots[i]);
      var staged, more := CopyDirectory(roots[i], TreeAt(live, roots[i]));
      CopiedNext(live, roots, i);
      if staged.Some? {
        ManifestGrows(trees, entries, roots[i], staged.value, more);
        trees := trees[roots[i] := staged.value];
        entries := entries + more;
      }
    }
    assert roots[..|roots|] == roots;
  }

  lemma RootsDiffer()
    ensures forall i, j | 0 <= i < j < |ASSET_DIRECTORIES| :: ASSET_DIRECTORIES[i] != ASSET_DIRECTORIES[j]
  {
  }

  lemma CopiedNext(live: Trees, roots: seq<string>, i: nat)
    requires i < |roots| && forall a, b | 0 <= a < b < |roots| :: roots[a] != roots[b]
    ensures roots[i] !in roots[..i]
    ensures var before := map r | r in live && r in roots[..i] :: live[r];
            (map r | r in live && r in roots[..i + 1] :: live[r]) ==
              if roots[i] in live then before[roots[i] := live[roots[i]]] else before
  {
    assert roots[..i + 1] == roots[..i] + [roots[i]];
  }

  lemma RootNames(root: string)
    requires root in ASSET_DIRECTORIES
    ensures root != "" && '/' !in root && root != "database"
  {
  }

  /** Compares one root with the live tree found after pg_dump. */
  lemma RecheckDecides(live: Trees, later: Trees, trees: Trees, entries: seq<Entry>, root: string)
    requires WellNamed(live) && WellNamed(later) && root in ASSET_DIRECTORIES
    requires trees == (map r | r in live && r in ASSET_DIRECTORIES :: live[r]) && Manifest(trees, entries)
    ensures Matches(TreeAt(later, root), root, entries) <==> FilesIn(live, root) == FilesIn(later, root)
  {
    RootNames(root);
    CheckedSnapshotIsLive(root, TreeAt(later, root), entries, trees);
  }

  /** The re-check of every asset directory. */
  method Recheck(ghost live: Trees, later: Trees, trees: Trees, entries: seq<Entry>) returns (ok: bool)
    requires WellNamed(live) && WellNamed(later)
    requires trees == (map r | r in live && r in ASSET_DIRECTORIES :: live[r]) && Manifest(trees, entries)
    ensures ok <==> Unchanged(live, later)
  {
    var roots := ASSET_DIRECTORIES;
    for i := 0 to |roots|
      invariant forall j | 0 <= j < i :: FilesIn(live, roots[j]) == FilesIn(later, roots[j])
    {
      var root := roots[i];
      assert root in ASSET_DIRECTORIES;
      RecheckDecides(live, later, trees, entries, root);
      if !Matches(TreeAt(later, root), root, entries) {
        return false;
      }
    }
    return true;
  }

  /** The snapshot that is committed when nothing changed while pg_dump ran. */
  method Commit(live: Trees, later: Trees, dump: Content) returns (r: Option<Snapshot>)
    requires WellNamed(live) && WellNamed(later)
    ensures r.Some? <==> Unchanged(live, later)
    ensures r.Some? ==> Captures(live, r.value) && r.value.dump == dump
  {
    var trees, entries := CopyAll(live);
    var ok := Recheck(live, later, trees, entries);
    if !ok {
      return None;
    }
    var files := [DumpEntry(dump)] + entries;
    assert files[1..] == entries;
    return Some(Snapshot(trees, dump, files));
  }

  // ---- staging a snapshot for restore -------------------------------------------------------

  predicate SafeComponent(c: string) {
    c != "" && c != "." && c != ".." && ':' !in c && '\\' !in c && forall x | x in c :: x as int >= 32
  }

  /** `_manifest_relative_path` */
  function ManifestPath(raw: string): Option<Parts> {
    var parts := Split(raw);
    if raw != "" && forall c | c in parts :: SafeComponent(c) then Some(parts) else None
  }

  /** `_stage_restore_assets` for one root: None when a path is unsafe, a file or the whole tree is missing. */
  method StageRoot(root: string, entries: seq<Entry>, trees: Trees) returns (stage: Option<Tree>)
    ensures stage == Rebuilt(root, entries, trees)
  {
    if root !in trees {
      return None;
    }
    var tree: Tree := map[];
    for i := 0 to |entries|
      invariant Rebuild(root, entries[..i], trees[root]) == Some(tree)
    {
      assert entries[..i + 1][..i] == entries[..i];
      var path := ManifestPath(entries[i].relativePath);
      if path.None? || (path.value[0] == root && path.value[1..] !in trees[root]) {
        RebuildFails(root, entries, trees[root], i + 1);
        return None;
      }
      if path.value[0] == root {
        tree := tree[path.value[1..] := trees[root][path.value[1..]]];
      }
    }
    assert entries[..|entries|] == entries;
    return Some(tree);
  }

  function Rebuild(root: string, entries: seq<Entry>, source: Tree): Option<Tree> {
    if entries == [] then Some(map[]) else
      var rest := Rebuild(root, entries[..|entries| - 1], source);
      var path := ManifestPath(entries[|entries| - 1].relativePath);
      if rest.None? || path.None? then None
      else if path.value[0] != root then rest
      else if path.value[1..] !in source then None
      else Some(rest.value[path.value[1..] := source[path.value[1..]]])
  }

  function Rebuilt(root: string, entries: seq<Entry>, trees: Trees): Option<Tree> {
    if root !in trees then None else Rebuild(root, entries, trees[root])
  }

  lemma {:induction false} RebuildFails(root: string, entries: seq<Entry>, source: Tree, i: nat)
    requires i <= |entries| && Rebuild(root, entries[..i], source).None?
    ensures Rebuild(root, entries, source).None?
  {
    if i == |entries| {
      assert entries[..i] == entries;
    } else {
      assert entries[..|entries| - 1][..i] == entries[..i];
      RebuildFails(root, entries[..|entries| - 1], source, i);
    }
  }

  predicate SafePath(parts: Parts) {
    forall c | c in parts :: SafeComponent(c)
  }

  /** Every staged file's manifest path passes the restore's own path check. */
  ghost predicate SafelyNamed(trees: Trees) {
    forall r, p | r in trees && p in trees[r] :: SafePath([r] + p)
  }

  /** A manifest path is accepted exactly when its components are safe, and gives them back. */
  lemma EntryParses(r: string, p: Parts, c: Content)
    requires Posix(p) && r != "" && '/' !in r
    ensures ManifestPath(EntryOf(r, p, c).relativePath) == if SafePath([r] + p) then Some([r] + p) else None
    ensures ([r] + p)[0] == r && ([r] + p)[1..] == p
  {
    assert forall x | x in [r] + p :: x == r || x in p;
    assert [r] + p != [""];
    SplitJoin([r] + p);
    assert Split("") == [""];
  }

  lemma SafeNames()
    ensures SafeComponent("database") && SafeComponent("bidding.dump") && '/' !in "database" && '/' !in "bidding.dump"
  {
  }

  lemma DumpParses()
    ensures ManifestPath(DUMP_PATH) == Some(DUMP_PARTS) && DUMP_PARTS[0] == "database"
  {
    SafeNames();
    TwoPartsParse("database", "bidding.dump");
  }

  lemma TwoPartsParse(a: string, b: string)
    requires SafeComponent(a) && SafeComponent(b) && '/' !in a && '/' !in b
    ensures ManifestPath(Join([a, b])) == Some([a, b])
  {
    SplitJoin([a, b]);
    assert Split("") == [""];
  }

  /** The entry is the dump's, or that of a staged file. */
  ghost predicate Listed(trees: Trees, e: Entry) {
    e.relativePath == DUMP_PATH || Describes(trees, e)
  }

  /** With safe names, what has been rebuilt from a part of the manifest is part of the staged tree. */
  lemma {:induction false} RebuildSound(root: string, entries: seq<Entry>, trees: Trees)
    requires WellNamed(trees) && SafelyNamed(trees) && root in trees && root != "database"
    requires forall e | e in entries :: Listed(trees, e)
    ensures Rebuild(root, entries, trees[root]).Some?
    ensures forall p | p in Rebuild(root, entries, trees[root]).value ::
              p in trees[root] && Rebuild(root, entries, trees[root]).value[p] == trees[root][p]
  {
    if entries != [] {
      var front, last := entries[..|entries| - 1], entries[|entries| - 1];
      assert forall e | e in front :: e in entries;
      RebuildSound(root, front, trees);
      assert Listed(trees, last);
      if last.relativePath == DUMP_PATH {
        DumpParses();
      } else {
        var r, p :| r in trees && p in trees[r] && last == EntryOf(r, p, trees[r][p]);
        EntryParses(r, p, trees[r][p]);
      }
    }
  }

  lemma {:induction false} RebuildComplete(root: string, entries: seq<Entry>, trees: Trees, p: Parts)
    requires WellNamed(trees) && root in trees && p in trees[root] && SafePath([root] + p)
    requires EntryOf(root, p, trees[root][p]) in entries && Rebuild(root, entries, trees[root]).Some?
    ensures p in Rebuild(root, entries, trees[root]).value
  {
    var front, last := entries[..|entries| - 1], entries[|entries| - 1];
    EntryParses(root, p, trees[root][p]);
    if EntryOf(root, p, trees[root][p]) != last {
      assert entries == front + [last];
      RebuildComplete(root, front, trees, p);
    }
  }

  /** One unsafe path refuses the whole tree, whichever root it belongs to. */
  lemma {:induction false} UnsafeRefuses(root: string, entries: seq<Entry>, source: Tree, e: Entry)
    requires e in entries && ManifestPath(e.relativePath).None?
    ensures Rebuild(root, entries, source).None?
  {
    var front, last := entries[..|entries| - 1], entries[|entries| - 1];
    if e != last {
      assert entries == front + [last];
      UnsafeRefuses(root, front, source, e);
    }
  }

  lemma RebuiltIsStaged(root: string, files: seq<Entry>, trees: Trees)
    requires WellNamed(trees) && SafelyNamed(trees) && root in trees && root != "database"
    requires files != [] && files[0].relativePath == DUMP_PATH && Manifest(trees, files[1..])
    ensures Rebuilt(root, files, trees) == Some(trees[root])
  {
    assert files == [files[0]] + files[1..];
    RebuildSound(root, files, trees);
    var got := Rebuild(root, files, trees[root]).value;
    forall p ensures p in trees[root] <==> p in got {
      if p in trees[root] {
        assert EntryOf(root, p, trees[root][p]) in files[1..];
        RebuildComplete(root, files, trees, p);
      }
    }
    SameTree(got, trees[root]);
  }

  /**
   Snapshot round trip, for every committed snapshot: staging a root for restore rebuilds exactly the files that
   were live at the re-check, and it is refused exactly when the root was missing or some path is unsafe.
   */
  lemma SnapshotRoundTrip(live: Trees, later: Trees, snapshot: Snapshot, root: string)
    requires WellNamed(live) && root in ASSET_DIRECTORIES && Unchanged(live, later) && Captures(live, snapshot)
    ensures Rebuilt(root, snapshot.files, snapshot.trees) ==
              if root in live && SafelyNamed(snapshot.trees) then Some(FilesIn(later, root)) else None
  {
    var trees, files := snapshot.trees, snapshot.files;
    assert root in trees <==> root in live;
    if SafelyNamed(trees) {
      if root in live { RebuiltIsStaged(root, files, trees); }
    } else if root in live {
      var r, p :| r in trees && p in trees[r] && !SafePath([r] + p);
      var e := EntryOf(r, p, trees[r][p]);
      EntryParses(r, p, trees[r][p]);
      assert e in files[1..] && e in files;
      UnsafeRefuses(root, files, trees[root], e);
    }
  }

  // ---- verify_snapshot ----------------------------------------------------------------------

  /** What the snapshot directory holds at a path. */
  function ContentAt(s: Snapshot, path: Parts): Option<Content> {
    if path == DUMP_PARTS then Some(s.dump)
    else if path != [] && path[0] in s.trees && path[1..] in s.trees[path[0]] then Some(s.trees[path[0]][path[1..]])
    else None
  }

  predicate EntryVerified(s: Snapshot, e: Entry) {
    var path := ManifestPath(e.relativePath);
    && path.Some? && ContentAt(s, path.value).Some?
    && var c := ContentAt(s, path.value).value; |c| == e.size && Sha256(c) == e.sha256
  }

  function Parsed(files: seq<Entry>): seq<Option<Parts>> {
    seq(|files|, i requires 0 <= i < |files| => ManifestPath(files[i].relativePath))
  }

  /** Every listed file is there under a safe path of its own, with its size and digest. */
  ghost predicate SnapshotVerified(s: Snapshot) {
    && |s.files| <= MAX_MANIFEST_FILES && (forall e | e in s.files :: EntryVerified(s, e)) && Distinct(Parsed(s.files))
  }

  method VerifySnapshot(s: Snapshot) returns (ok: bool)
    ensures ok == SnapshotVerified(s)
  {
    if |s.files| > MAX_MANIFEST_FILES {
      return false;
    }
    var seen: set<Option<Parts>> := {};
    for i := 0 to |s.files|
      invariant forall j | 0 <= j < i :: EntryVerified(s, s.files[j])
      invariant Distinct(Parsed(s.files)[..i]) && forall p :: p in seen <==> p in Parsed(s.files)[..i]
    {
      var path := ManifestPath(s.files[i].relativePath);
      assert s.files[i] in s.files && Parsed(s.files)[i] == path;
      DistinctPrefix(Parsed(s.files), i);
      if path in seen || !EntryVerified(s, s.files[i]) {
        return false;
      }
      seen := seen + {path};
    }
    assert Parsed(s.files)[..|s.files|] == Parsed(s.files);
    return true;
  }

  lemma StagedVerifies(s: Snapshot, r: string, p: Parts)
    requires r in s.trees && p in s.trees[r] && Posix(p) && RootName(r) && r != "database"
    ensures EntryVerified(s, EntryOf(r, p, s.trees[r][p])) <==> SafePath([r] + p)
    ensures ManifestPath(EntryOf(r, p, s.trees[r][p]).relativePath).Some? <==> SafePath([r] + p)
  {
    EntryParses(r, p, s.trees[r][p]);
    assert [r] + p != DUMP_PARTS by { assert ([r] + p)[0] == r && DUMP_PARTS[0] == "database"; }
  }

  lemma ListedVerifies(live: Trees, s: Snapshot, e: Entry)
    requires WellNamed(s.trees) && Captures(live, s) && e in s.files
    ensures EntryVerified(s, e) <==> ManifestPath(e.relativePath).Some?
  {
    if e == s.files[0] {
      DumpParses();
    } else {
      assert e in s.files[1..] && Describes(s.trees, e);
      var r, p :| r in s.trees && p in s.trees[r] && e == EntryOf(r, p, s.trees[r][p]);
      RootNames(r);
      StagedVerifies(s, r, p);
    }
  }

  lemma ListedSafe(live: Trees, s: Snapshot)
    requires WellNamed(s.trees) && Captures(live, s)
    ensures SafelyNamed(s.trees) <==> forall e | e in s.files :: ManifestPath(e.relativePath).Some?
  {
    forall e | e in s.files && SafelyNamed(s.trees) ensures ManifestPath(e.relativePath).Some? {
      if e == s.files[0] {
        DumpParses();
      } else {
        assert e in s.files[1..] && Describes(s.trees, e);
        var r, p :| r in s.trees && p in s.trees[r] && e == EntryOf(r, p, s.trees[r][p]);
        EntryParses(r, p, s.trees[r][p]);
      }
    }
    if r, p :| r in s.trees && p in s.trees[r] && !SafePath([r] + p) {
      EntryParses(r, p, s.trees[r][p]);
      assert EntryOf(r, p, s.trees[r][p]) in s.files[1..];
      assert EntryOf(r, p, s.trees[r][p]) in s.files;
    }
  }

  lemma ParsedPathsDiffer(live: Trees, s: Snapshot, i: nat, j: nat)
    requires WellNamed(s.trees) && Captures(live, s) && i < j < |s.files|
    requires ManifestPath(s.files[i].relativePath).Some? && ManifestPath(s.files[j].relativePath).Some?
    ensures ManifestPath(s.files[i].relativePath) != ManifestPath(s.files[j].relativePath)
  {
    var f := s.files[j];
    assert f == s.files[1..][j - 1] && f in s.files[1..] && Describes(s.trees, f);
    var r, p :| r in s.trees && p in s.trees[r] && f == EntryOf(r, p, s.trees[r][p]);
    EntryParses(r, p, s.trees[r][p]);
    if i == 0 {
      DumpParses();
      RootNames(r);
    } else {
      var e := s.files[i];
      assert e == s.files[1..][i - 1] && e in s.files[1..] && Describes(s.trees, e);
      var q, o :| q in s.trees && o in s.trees[q] && e == EntryOf(q, o, s.trees[q][o]);
      EntryParses(q, o, s.trees[q][o]);
      assert e.relativePath != f.relativePath;
    }
  }

  /** A committed snapshot verifies exactly when its paths are safe and few enough. */
  lemma CommittedVerifiesIffSafe(live: Trees, s: Snapshot)
    requires WellNamed(live) && Captures(live, s)
    ensures SnapshotVerified(s) <==> SafelyNamed(s.trees) && |s.files| <= MAX_MANIFEST_FILES
  {
    ListedSafe(live, s);
    forall e | e in s.files ensures EntryVerified(s, e) <==> ManifestPath(e.relativePath).Some? {
      ListedVerifies(live, s, e);
    }
    if SafelyNamed(s.trees) {
      forall i, j | 0 <= i < j < |s.files| ensures Parsed(s.files)[i] != Parsed(s.files)[j] {
        assert s.files[i] in s.files && s.files[j] in s.files;
        ParsedPathsDiffer(live, s, i, j);
      }
    }
  }

  /**
   `cmd_create`: live is what is copied, later what the re-check after pg_dump finds, retained says that pruning older
   snapshots succeeds. The snapshot is committed before it is verified, so an unsafe name fails the command but
   leaves the committed snapshot behind.
   */
  method Create(live: Trees, later: Trees, dump: Content, retained: bool)
    returns (committed: Option<Snapshot>, success: bool)
    requires WellNamed(live) && WellNamed(later)
    ensures committed.Some? <==> Unchanged(live, later)
    ensures committed.Some? ==> Captures(live, committed.value) && committed.value.dump == dump
    ensures success <==> committed.Some? && retained && SafelyNamed(committed.value.trees)
                         && |committed.value.files| <= MAX_MANIFEST_FILES
  {
    committed := Commit(live, later, dump);
    if committed.None? || !retained {
      return committed, false;
    }
    CommittedVerifiesIffSafe(live, committed.value);
    success := VerifySnapshot(committed.value);
  }

  /** A snapshot that create reports as made can be staged: every root that was present comes back as it was. */
  lemma VerifiedIsStageable(live: Trees, later: Trees, s: Snapshot, root: string)
    requires WellNamed(live) && Unchanged(live, later) && Captures(live, s) && SnapshotVerified(s)
    requires root in ASSET_DIRECTORIES && root in live
    ensures Rebuilt(root, s.files, s.trees) == Some(FilesIn(later, root))
  {
    CommittedVerifiesIffSafe(live, s);
    SnapshotRoundTrip(live, later, s, root);
  }

  /** A file named with a colon is copied and committed, but then fails create's own check and any restore. */
  lemma ColonNameIsCommittedButRefused(c: Content, s: Snapshot)
    requires Captures(map["uploads" := map[["a:b"] := c]], s)
    ensures var live := map["uploads" := map[["a:b"] := c]];
            WellNamed(live) && Unchanged(live, live) && !SnapshotVerified(s)
                && Rebuilt("uploads", s.files, s.trees).None?
  {
    var live := map["uploads" := map[["a:b"] := c]];
    assert "uploads" in ASSET_DIRECTORIES && "uploads" in s.trees && ["a:b"] in s.trees["uploads"];
    RootNames("uploads");
    assert WellNamed(live);
    var path := ["uploads"] + ["a:b"];
    assert "a:b" in path && "a:b"[1] == ':' && !SafeComponent("a:b");
    assert !SafePath(path);
    CommittedVerifiesIffSafe(live, s);
    SnapshotRoundTrip(live, live, s, "uploads");
  }

  /** Empty and missing stay apart exactly when the directory did not come or go between the copy and the re-check. */
  lemma PresenceIsKept(live: Trees, later: Trees, snapshot: Snapshot, root: string)
    requires WellNamed(live) && root in ASSET_DIRECTORIES && Unchanged(live, later) && Captures(live, snapshot)
    requires SafelyNamed(snapshot.trees)
    ensures Rebuilt(root, snapshot.files, snapshot.trees) == TreeAt(later, root) <==> (root in live <==> root in later)
  {
    SnapshotRoundTrip(live, later, snapshot, root);
  }

  /** A directory that appears empty after the copy passes the re-check, yet its snapshot cannot be restored. */
  lemma AppearedDirectoryIsMissing(dump: Content)
    ensures var snapshot := Snapshot(map[], dump, [DumpEntry(dump)]);
            && Unchanged(map[], map["uploads" := map[]]) && Captures(map[], snapshot)
            && Rebuilt("uploads", snapshot.files, snapshot.trees).None?
  {
    var snapshot := Snapshot(map[], dump, [DumpEntry(dump)]);
    assert snapshot.files[1..] == [];
  }
}
