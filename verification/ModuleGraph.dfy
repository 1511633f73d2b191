/** The two worklist closures: source module preloads and the Vite manifest graph. */
module ModuleGraph {
  import opened Wrappers
  import opened Collections
  import ModuleGrammar

  const MAX_MODULES: nat := ModuleGrammar.MAX_MODULES

  // ---- reachability -------------------------------------------------------------------------

  /** A path from some root along successor edges. */
  ghost predicate Walk(succ: string -> seq<string>, roots: seq<string>, path: seq<string>) {
    && path != [] && path[0] in roots
    && forall i | 0 <= i < |path| - 1 :: path[i + 1] in succ(path[i])
  }

  ghost predicate Reach(succ: string -> seq<string>, roots: seq<string>, n: string) {
    exists path :: Walk(succ, roots, path) && path[|path| - 1] == n
  }

  ghost predicate Closed(succ: string -> seq<string>, roots: seq<string>, s: set<string>) {
    && (forall r | r in roots :: r in s)
    && (forall n, m | n in s && m in succ(n) :: m in s)
  }

  lemma RootReached(succ: string -> seq<string>, roots: seq<string>, r: string)
    requires r in roots
    ensures Reach(succ, roots, r)
  {
    assert Walk(succ, roots, [r]);
  }

  lemma StepReached(succ: string -> seq<string>, roots: seq<string>, n: string, m: string)
    requires Reach(succ, roots, n) && m in succ(n)
    ensures Reach(succ, roots, m)
  {
    var path :| Walk(succ, roots, path) && path[|path| - 1] == n;
    var longer := path + [m];
    forall i | 0 <= i < |longer| - 1 ensures longer[i + 1] in succ(longer[i]) {
      if i < |path| - 1 { assert path[i + 1] in succ(path[i]); }
    }
    assert Walk(succ, roots, longer);
  }

  lemma {:induction false} WalkStaysInside(
      succ: string -> seq<string>, roots: seq<string>, s: set<string>, path: seq<string>)
    requires Closed(succ, roots, s) && Walk(succ, roots, path)
    ensures path[|path| - 1] in s
    decreases |path|
  {
    if |path| > 1 {
      var front := path[..|path| - 1];
      forall i | 0 <= i < |front| - 1 ensures front[i + 1] in succ(front[i]) { assert path[i + 1] in succ(path[i]); }
      WalkStaysInside(succ, roots, s, front);
      var i := |path| - 2;
      assert path[i + 1] in succ(path[i]);
    }
  }

  /** A closed set holds everything reachable. */
  lemma ClosedHoldsReachable(succ: string -> seq<string>, roots: seq<string>, s: set<string>, n: string)
    requires Closed(succ, roots, s) && Reach(succ, roots, n)
    ensures n in s
  {
    var path :| Walk(succ, roots, path) && path[|path| - 1] == n;
    WalkStaysInside(succ, roots, s, path);
  }

  function Members(s: seq<string>): set<string> {
    set x | x in s
  }

  lemma {:induction false} MembersSize(s: seq<string>)
    requires Distinct(s)
    ensures |Members(s)| == |s|
  {
    if s != [] {
      var front, last := s[..|s| - 1], s[|s| - 1];
      MembersSize(front);
      assert s == front + [last];
      assert Members(s) == Members(front) + {last};
      assert last !in front;
    }
  }

  // ---- resolve_source_preload_graph ---------------------------------------------------------

  /** Only a valid source file contributes edges: its normalised relative imports. */
  function SourceEdges(valid: string -> bool, imports: string -> seq<string>): string -> seq<string> {
    (m: string) => if valid(m) then imports(m) else []
  }

  /** region holds the roots and is closed under the edges; it is instantiated with the reachable names. */
  ghost predicate Absorbs(region: iset<string>, roots: seq<string>, edges: string -> seq<string>) {
    (forall r | r in roots :: r in region) && forall n, m | n in region && m in edges(n) :: m in region
  }

  ghost function Reachable(edges: string -> seq<string>, roots: seq<string>): iset<string> {
    iset n | Reach(edges, roots, n)
  }

  lemma ReachableAbsorbs(edges: string -> seq<string>, roots: seq<string>)
    ensures Absorbs(Reachable(edges, roots), roots, edges)
  {
    var region := Reachable(edges, roots);
    forall r | r in roots ensures r in region { RootReached(edges, roots, r); }
    forall n, m | n in region && m in edges(n) ensures m in region { StepReached(edges, roots, n, m); }
  }

  /** Every queued name lies in the region, and every name no longer pending has been dealt with. */
  ghost predicate Progress(
      region: iset<string>, valid: string -> bool, queued: set<string>, pending: seq<string>, sources: seq<string>) {
    && (forall q | q in queued :: q in region)
    && (forall p | p in pending :: p in queued) && Distinct(pending)
    && Distinct(sources) && (forall m | m in sources :: m in queued && m !in pending && valid(m))
    && (forall q | q in queued && q !in pending && valid(q) :: q in sources)
  }

  ghost predicate Expanded(imports: string -> seq<string>, queued: set<string>, sources: seq<string>) {
    forall m, d | m in sources && d in imports(m) :: d in queued || |queued| >= MAX_MODULES
  }

  /** Entries are queued once each, in order. */
  method QueueEntries(roots: seq<string>) returns (queued: set<string>, pending: seq<string>)
    ensures queued == Members(roots) == Members(pending) && Distinct(pending)
  {
    queued, pending := {}, [];
    for i := 0 to |roots|
      invariant queued == Members(roots[..i]) == Members(pending) && Distinct(pending)
    {
      if roots[i] !in queued {
        queued := queued + {roots[i]};
        pending := pending + [roots[i]];
      }
      assert roots[..i + 1] == roots[..i] + [roots[i]];
    }
    assert roots[..|roots|] == roots;
  }

  /** Queues the new imports of a module, while there is room. */
  method Enqueue(ghost region: iset<string>, ghost valid: string -> bool, found: seq<string>,
                 queued0: set<string>, pending0: seq<string>, ghost sources: seq<string>)
    returns (queued: set<string>, pending: seq<string>)
    requires |queued0| <= MAX_MODULES && Progress(region, valid, queued0, pending0, sources)
    requires forall d | d in found :: d in region
    ensures queued0 <= queued && |queued| <= MAX_MODULES && |queued| - |queued0| == |pending| - |pending0|
    ensures Progress(region, valid, queued, pending, sources)
    ensures forall d | d in found :: d in queued || |queued| >= MAX_MODULES
  {
    queued, pending := queued0, pending0;
    for i := 0 to |found|
      invariant queued0 <= queued && |queued| <= MAX_MODULES && |queued| - |queued0| == |pending| - |pending0|
      invariant Progress(region, valid, queued, pending, sources)
      invariant forall j | 0 <= j < i :: found[j] in queued || |queued| >= MAX_MODULES
    {
      var d := found[i];
      assert d in found;
      if d !in queued && |queued| < MAX_MODULES {
        AppendKeepsProgress(region, valid, queued, pending, sources, d);
        queued := queued + {d};
        pending := pending + [d];
      }
    }
  }

  lemma AppendKeepsProgress(
      region: iset<string>, valid: string -> bool, queued: set<string>, pending: seq<string>, sources: seq<string>,
      d: string)
    requires Progress(region, valid, queued, pending, sources) && d !in queued && d in region
    ensures Progress(region, valid, queued + {d}, pending + [d], sources)
  {
    assert forall x :: x in pending + [d] <==> x in pending || x == d;
  }

  /** Taking the first pending name: an invalid one is dropped, a valid one becomes a source. */
  lemma PopKeepsProgress(
      region: iset<string>, valid: string -> bool, queued: set<string>, pending: seq<string>, sources: seq<string>)
    requires pending != [] && Progress(region, valid, queued, pending, sources)
    ensures var m := pending[0];
            && m in queued && m in region && m !in sources
            && Progress(region, valid, queued, pending[1..], if valid(m) then sources + [m] else sources)
  {
    var m := pending[0];
    assert pending == [m] + pending[1..];
    assert m !in pending[1..];
    assert forall x :: x in sources + [m] <==> x in sources || x == m;
  }

  /** The worklist within any region that absorbs the roots. */
  method ExploreSources(
      valid: string -> bool, imports: string -> seq<string>, roots: seq<string>, ghost region: iset<string>)
    returns (sources: seq<string>, ghost queued: set<string>, ghost left: seq<string>)
    requires |roots| <= MAX_MODULES && Absorbs(region, roots, SourceEdges(valid, imports))
    ensures |sources| <= MAX_MODULES && |queued| <= MAX_MODULES && Members(roots) <= queued
    ensures left == [] || |sources| >= MAX_MODULES
    ensures Progress(region, valid, queued, left, sources) && Expanded(imports, queued, sources)
  {
    var names, pending := QueueEntries(roots);
    FewMembers(roots);
    forall p | p in pending ensures p in names { assert p in Members(pending); }
    forall q | q in names ensures q in pending { assert q in Members(pending); }
    sources := [];
    while pending != [] && |sources| < MAX_MODULES
      invariant |sources| <= MAX_MODULES && |names| <= MAX_MODULES && Members(roots) <= names
      invariant Progress(region, valid, names, pending, sources)
      invariant Expanded(imports, names, sources)
      decreases MAX_MODULES - |names| + |pending|
    {
      var m := pending[0];
      PopKeepsProgress(region, valid, names, pending, sources);
      pending := pending[1..];
      if valid(m) {
        ghost var before, known := sources, names;
        sources := sources + [m];
        forall d | d in imports(m) ensures d in region { assert d in SourceEdges(valid, imports)(m); }
        names, pending := Enqueue(region, valid, imports(m), names, pending, sources);
        ExpandedGrows(imports, known, names, before, m);
      }
    }
    queued, left := names, pending;
  }

  lemma ExpandedGrows(
      imports: string -> seq<string>, before: set<string>, after: set<string>, sources: seq<string>, m: string)
    requires Expanded(imports, before, sources) && before <= after
    requires forall d | d in imports(m) :: d in after || |after| >= MAX_MODULES
    ensures Expanded(imports, after, sources + [m])
  {
    SubsetSize(before, after);
    forall x, d | x in sources + [m] && d in imports(x) ensures d in after || |after| >= MAX_MODULES {
      if x != m { assert x in sources; }
    }
  }

  /**
   Everything queued is reachable from the roots; unless all 512 places are taken, every valid reachable name is a
   source and everything that a source imports is queued.
   */
  ghost predicate Explored(
      valid: string -> bool, imports: string -> seq<string>, roots: seq<string>, queued: set<string>,
      sources: seq<string>) {
    && (forall r | r in roots :: r in queued && (valid(r) ==> r in sources))
    && (forall m | m in queued :: Reach(SourceEdges(valid, imports), roots, m))
    && (|queued| < 512 ==>
          && (forall m | Reach(SourceEdges(valid, imports), roots, m) && valid(m) :: m in sources)
          && (forall m, d | m in sources && d in imports(m) :: d in queued))
    && (forall universe: set<string> | Closed(SourceEdges(valid, imports), roots, universe) && |universe| < 512 ::
          |queued| < 512)
  }

  /**
   The worklist. The result lists, without repeats, exactly the valid names among those that were queued. These are
   at most 512, all reachable, and include the (first 512) entries; unless all 512 places are taken they are
   closed under the imports, so the result is then every valid reachable file.
   */
  method ResolveSources(valid: string -> bool, imports: string -> seq<string>, entries: seq<string>)
    returns (sources: seq<string>, ghost queued: set<string>)
    ensures Distinct(sources) && |sources| <= |queued| <= 512
    ensures forall m :: m in sources <==> m in queued && valid(m)
    ensures forall i | 0 <= i < |entries| && i < 512 ::
              entries[i] in queued && (valid(entries[i]) ==> entries[i] in sources)
    ensures |entries| <= 512 ==> Explored(valid, imports, entries, queued, sources)
    ensures |entries| > 512 ==> Explored(valid, imports, entries[..512], queued, sources)
  {
    var roots := Roots(entries);
    var edges := SourceEdges(valid, imports);
    ghost var region := Reachable(edges, roots);
    ReachableAbsorbs(edges, roots);
    ghost var left;
    sources, queued, left := ExploreSources(valid, imports, roots, region);
    AllDealtWith(valid, region, queued, left, sources);
    ExploredAll(valid, imports, roots, region, queued, sources);
    MembersSize(sources);
    SubsetSize(Members(sources), queued);
    assert forall i | 0 <= i < |roots| :: roots[i] in roots;
  }

  lemma ExploredAll(
      valid: string -> bool, imports: string -> seq<string>, roots: seq<string>, region: iset<string>,
      queued: set<string>, sources: seq<string>)
    requires region == Reachable(SourceEdges(valid, imports), roots)
    requires Progress(region, valid, queued, [], sources) && Expanded(imports, queued, sources)
    requires Members(roots) <= queued
    ensures Explored(valid, imports, roots, queued, sources)
  {
    var edges := SourceEdges(valid, imports);
    forall r | r in roots ensures r in queued { assert r in Members(roots); }
    if |queued| < 512 {
      SmallQueueIsClosed(valid, imports, roots, region, queued, sources);
      forall m | Reach(edges, roots, m) && valid(m) ensures m in sources {
        ClosedHoldsReachable(edges, roots, queued, m);
      }
    }
    forall universe: set<string> | Closed(edges, roots, universe) && |universe| < 512 ensures |queued| < 512 {
      forall q | q in queued ensures q in universe { ClosedHoldsReachable(edges, roots, universe, q); }
      SubsetSize(queued, universe);
    }
  }

  /** Only valid names are followed, to exactly the names they import. */
  lemma SourceEdgesMeaning(valid: string -> bool, imports: string -> seq<string>, n: string, m: string)
    ensures m in SourceEdges(valid, imports)(n) <==> valid(n) && m in imports(n)
  {
  }

  /** Even when the loop stops at 512 sources, nothing queued is left over. */
  lemma AllDealtWith(
      valid: string -> bool, region: iset<string>, queued: set<string>, left: seq<string>, sources: seq<string>)
    requires Progress(region, valid, queued, left, sources) && |queued| <= MAX_MODULES
    requires left == [] || |sources| >= MAX_MODULES
    ensures left == []
  {
    if left != [] {
      MembersSize(sources);
      assert left[0] in left;
      SubsetSize(Members(sources), queued - {left[0]});
    }
  }

  /** `entry_keys[:_MAX_MODULES]` */
  function Roots(entries: seq<string>): seq<string> {
    if |entries| <= MAX_MODULES then entries else entries[..MAX_MODULES]
  }

  lemma {:induction false} FewMembers(s: seq<string>)
    ensures |Members(s)| <= |s|
  {
    if s != [] {
      var front, last := s[..|s| - 1], s[|s| - 1];
      FewMembers(front);
      assert s == front + [last];
      assert Members(s) == Members(front) + {last};
    }
  }

  /** If the queue never filled up, it is closed. */
  lemma SmallQueueIsClosed(
      valid: string -> bool, imports: string -> seq<string>, roots: seq<string>, region: iset<string>,
      queued: set<string>, sources: seq<string>)
    requires Progress(region, valid, queued, [], sources) && Expanded(imports, queued, sources)
    requires Members(roots) <= queued && |queued| < MAX_MODULES
    ensures Closed(SourceEdges(valid, imports), roots, queued)
  {
    forall r | r in roots ensures r in queued { assert r in Members(roots); }
    forall n, m | n in queued && m in SourceEdges(valid, imports)(n) ensures m in queued {
      assert valid(n) && n in sources;
    }
  }

  // ---- the Vite manifest --------------------------------------------------------------------

  /** A manifest entry; None stands for a value of the wrong shape. */
  datatype Entry = Entry(
      file: Option<string>, css: Option<seq<string>>, assets: Option<seq<string>>, imports: Option<seq<string>>)

  type Manifest = map<string, Entry>

  /** Everything resolve_preload_graph needs of one key. */
  predicate Usable(manifest: Manifest, valid: string -> bool, k: string) {
    && k in manifest && manifest[k].file.Some? && valid(manifest[k].file.value)
    && manifest[k].imports.Some? && forall i | i in manifest[k].imports.value :: i in manifest
  }

  predicate ListValid(valid: string -> bool, list: Option<seq<string>>) {
    list.Some? && forall f | f in list.value :: valid(f)
  }

  /** `_validate_manifest_graph` accepts the manifest. */
  predicate ManifestValid(manifest: Manifest, valid: string -> bool) {
    forall k | k in manifest ::
        Usable(manifest, valid, k) && ListValid(valid, manifest[k].css) && ListValid(valid, manifest[k].assets)
  }

  function ImportEdges(manifest: Manifest): string -> seq<string> {
    (k: string) => if k in manifest && manifest[k].imports.Some? then manifest[k].imports.value else []
  }

  lemma ImportEdgesMeaning(manifest: Manifest, k: string, i: string)
    ensures i in ImportEdges(manifest)(k) <==>
              k in manifest && manifest[k].imports.Some? && i in manifest[k].imports.value
  {
  }

  /** What an accepted manifest looks like, entry by entry. */
  lemma AcceptedMeaning(manifest: Manifest, valid: string -> bool)
    ensures ManifestValid(manifest, valid) <==>
              && (forall k | k in manifest :: manifest[k].file.Some? && valid(manifest[k].file.value))
              && (forall k | k in manifest :: manifest[k].css.Some? && forall f | f in manifest[k].css.value ::
                  valid(f))
              && (forall k | k in manifest ::
                    manifest[k].assets.Some? && forall f | f in manifest[k].assets.value :: valid(f))
              && (forall k | k in manifest ::
                    manifest[k].imports.Some? && forall i | i in manifest[k].imports.value :: i in manifest)
  {
    forall k | k in manifest
      ensures Usable(manifest, valid, k) <==>
                && manifest[k].file.Some? && valid(manifest[k].file.value)
                && manifest[k].imports.Some? && (forall i | i in manifest[k].imports.value :: i in manifest)
    {
    }
  }

  method ValidateManifest(manifest: Manifest, valid: string -> bool) returns (ok: bool)
    ensures ok == ManifestValid(manifest, valid)
  {
    var rest := manifest.Keys;
    while rest != {}
      invariant rest <= manifest.Keys
      invariant forall k | k in manifest && k !in rest ::
                  Usable(manifest, valid, k) && ListValid(valid, manifest[k].css)
                      && ListValid(valid, manifest[k].assets)
      decreases |rest|
    {
      var k :| k in rest;
      if !Usable(manifest, valid, k) || !ListValid(valid, manifest[k].css) || !ListValid(valid, manifest[k].assets) {
        return false;
      }
      rest := rest - {k};
    }
    return true;
  }

  ghost predicate FilesOf(manifest: Manifest, keys: set<string>, files: seq<string>) {
    forall f :: f in files <==> exists k :: k in keys && HasFile(manifest, k, f)
  }

  predicate HasFile(manifest: Manifest, k: string, f: string) {
    k in manifest && manifest[k].file == Some(f)
  }

  /** What has been visited is usable, and everything known lies in the region. */
  ghost predicate Sound(
      region: iset<string>, manifest: Manifest, valid: string -> bool, visited: set<string>, pending: seq<string>) {
    && (forall k | k in visited :: Usable(manifest, valid, k) && k in region)
    && (forall k | k in pending :: k in region)
  }

  /** Nothing a visited key imports has been forgotten. */
  ghost predicate Frontier(manifest: Manifest, keys: seq<string>, visited: set<string>, pending: seq<string>) {
    && (forall k | k in keys :: k in visited || k in pending)
    && (forall k, i | k in visited && i in ImportEdges(manifest)(k) :: i in visited || i in pending)
  }

  lemma FrontierMoves(manifest: Manifest, keys: seq<string>, visited: set<string>, pending: seq<string>)
    requires pending != [] && Frontier(manifest, keys, visited, pending)
    ensures Frontier(manifest, keys, visited + {pending[0]}, pending[1..] + ImportEdges(manifest)(pending[0]))
    ensures pending[0] in visited ==> Frontier(manifest, keys, visited, pending[1..])
  {
    var k := pending[0];
    var next := pending[1..] + ImportEdges(manifest)(k);
    assert forall x :: x in pending <==> x == k || x in pending[1..] by { assert pending == [k] + pending[1..]; }
    assert forall x :: x in next <==> x in pending[1..] || x in ImportEdges(manifest)(k);
  }

  lemma FilesGrow(manifest: Manifest, visited: set<string>, k: string, files: seq<string>, f: string)
    requires FilesOf(manifest, visited, files) && HasFile(manifest, k, f) && Distinct(files)
    ensures FilesOf(manifest, visited + {k}, if f in files then files else files + [f])
    ensures Distinct(if f in files then files else files + [f])
  {
    var longer := if f in files then files else files + [f];
    forall g ensures g in longer <==> exists x :: x in visited + {k} && HasFile(manifest, x, g) {
      assert g in longer <==> g in files || g == f;
      if g == f { assert k in visited + {k}; }
      if x :| x in visited && HasFile(manifest, x, g) { assert x in visited + {k}; }
      if x :| x in visited + {k} && HasFile(manifest, x, g) { assert x == k ==> g == f; }
    }
  }

  /** The manifest worklist within any region that absorbs the keys; a failure names a key of the region. */
  method ExploreManifest(manifest: Manifest, valid: string -> bool, keys: seq<string>, ghost region: iset<string>)
    returns (result: Option<seq<string>>, ghost visited: set<string>, ghost bad: string)
    requires Absorbs(region, keys, ImportEdges(manifest))
    ensures result.None? ==> bad in region && !Usable(manifest, valid, bad)
    ensures result.Some? ==> Distinct(result.value) && FilesOf(manifest, visited, result.value)
    ensures result.Some? ==> Sound(region, manifest, valid, visited, []) && Frontier(manifest, keys, visited, [])
  {
    var pending, seen: set<string>, files: seq<string> := keys, {}, [];
    bad := "";
    while pending != []
      invariant seen <= manifest.Keys && Distinct(files)
      invariant Sound(region, manifest, valid, seen, pending)
      invariant Frontier(manifest, keys, seen, pending)
      invariant FilesOf(manifest, seen, files)
      decreases |manifest.Keys - seen|, |pending|
    {
      var k := pending[0];
      assert k in pending;
      FrontierMoves(manifest, keys, seen, pending);
      if k in seen {
        pending := pending[1..];
        continue;
      }
      if !Usable(manifest, valid, k) {
        visited, bad := seen, k;
        return None, visited, bad;
      }
      var f := manifest[k].file.value;
      FilesGrow(manifest, seen, k, files, f);
      files := if f in files then files else files + [f];
      SmallerSubset(manifest.Keys - (seen + {k}), manifest.Keys - seen, k);
      forall i | i in manifest[k].imports.value ensures i in region { assert i in ImportEdges(manifest)(k); }
      seen := seen + {k};
      pending := pending[1..] + manifest[k].imports.value;
    }
    visited := seen;
    result := Some(files);
  }

  /**
   `resolve_preload_graph`: fails exactly when some reachable key is unusable, and otherwise returns, without
   repeats, exactly the files of the reachable keys.
   */
  method ResolvePreloads(manifest: Manifest, valid: string -> bool, keys: seq<string>)
    returns (result: Option<seq<string>>)
    ensures result.Some? <==> forall k | k in Reachable(ImportEdges(manifest), keys) :: Usable(manifest, valid, k)
    ensures result.Some? ==> Distinct(result.value)
    ensures result.Some? ==> forall f :: f in result.value <==>
              exists k :: k in Reachable(ImportEdges(manifest), keys) && HasFile(manifest, k, f)
  {
    ghost var region := Reachable(ImportEdges(manifest), keys);
    ReachableAbsorbs(ImportEdges(manifest), keys);
    ghost var visited, bad;
    result, visited, bad := ExploreManifest(manifest, valid, keys, region);
    if result.Some? {
      FrontierIsClosed(manifest, keys, visited);
      ReachableInside(ImportEdges(manifest), keys, visited);
      FilesOfReachable(manifest, visited, region, result.value);
    } else {
      assert bad in region;
    }
  }

  lemma FrontierIsClosed(manifest: Manifest, keys: seq<string>, visited: set<string>)
    requires Frontier(manifest, keys, visited, [])
    ensures Closed(ImportEdges(manifest), keys, visited)
  {
  }

  lemma ReachableInside(edges: string -> seq<string>, keys: seq<string>, s: set<string>)
    requires Closed(edges, keys, s)
    ensures forall k | k in Reachable(edges, keys) :: k in s
  {
    forall k | k in Reachable(edges, keys) ensures k in s { ClosedHoldsReachable(edges, keys, s, k); }
  }

  lemma FilesOfReachable(manifest: Manifest, visited: set<string>, region: iset<string>, files: seq<string>)
    requires FilesOf(manifest, visited, files) && forall k :: k in region <==> k in visited
    ensures forall f :: f in files <==> exists k :: k in region && HasFile(manifest, k, f)
  {
  }

  /** In an accepted manifest every key reachable from keys of the manifest is usable, so resolution cannot fail. */
  lemma AcceptedManifestResolves(manifest: Manifest, valid: string -> bool, keys: seq<string>, k: string)
    requires ManifestValid(manifest, valid) && (forall x | x in keys :: x in manifest)
    requires k in Reachable(ImportEdges(manifest), keys)
    ensures Usable(manifest, valid, k)
  {
    ClosedHoldsReachable(ImportEdges(manifest), keys, manifest.Keys, k);
  }
}
