/**
 The cache of scanned projects and the calls that rescan one of them
 (webmanager/backend/internal/projects/projects.go).
 */
module ProjectScanner {
  import opened Wrappers
  import opened ProjectTree
  import opened ProjectSizes
  import opened ProjectDelete
  import opened Sorting

  datatype Project = Project(
    root: Path, path: Path, total: nat, reclaimableSize: nat, reclaimable: seq<Reclaimable>, lastModified: nat,
    stale: bool)

  datatype ScanError = UnknownProject | UnknownReclaimable | ProjectGone | StatFailed | SaveFailed

  /** The directory's own time, and the time before which a project is stale. */
  datatype Times = Times(baseline: nat, cutoff: int)

  /** What scanProject reports of a directory. */
  function Scanned(d: Node, root: Path, path: Path, patterns: set<string>, t: Times): Project
  {
    var f := ScanTree(d, path, patterns);
    var lastMod := Max(f.lastMod, t.baseline);
    Project(root, path, f.size, SumSizes(f.reclaimable), f.reclaimable, lastMod, lastMod < t.cutoff)
  }

  lemma OneMoreSummed(rs: seq<Reclaimable>, i: nat)
    requires i < |rs|
    ensures SumSizes(rs[..i + 1]) == SumSizes(rs[..i]) + rs[i].size
  {
    assert rs[..i + 1] == rs[..i] + [rs[i]];
    SumAppend(rs[..i], [rs[i]]);
    assert [rs[i]][1..] == [];
  }

  method ScanProject(d: Node, root: Path, path: Path, patterns: set<string>, t: Times) returns (p: Project)
    ensures p == Scanned(d, root, path, patterns, t)
  {
    var size, lastMod, reclaimable := ScanDir(d, path, patterns);
    if t.baseline > lastMod {
      lastMod := t.baseline;
    }
    var reclaimableSize := 0;
    for i := 0 to |reclaimable|
      invariant reclaimableSize == SumSizes(reclaimable[..i])
    {
      OneMoreSummed(reclaimable, i);
      reclaimableSize := reclaimableSize + reclaimable[i].size;
    }
    assert reclaimable[..|reclaimable|] == reclaimable;
    return Project(root, path, size, reclaimableSize, reclaimable, lastMod, lastMod < t.cutoff);
  }

  /** Stale is a project with nothing new: neither its directory nor any file that counts. */
  lemma StaleIff(d: Node, root: Path, path: Path, patterns: set<string>, t: Times)
    requires d.Dir?
    ensures Scanned(d, root, path, patterns, t).stale
            <==> t.baseline < t.cutoff
                 && forall l <- Leaves(d, path) :: Counts(l, |path|, patterns) ==> l.mtime < t.cutoff
  {
    TreeLatest(d, path, patterns);
  }

  // ---- The cache ------------------------------------------------------------

  function IndexOf(cache: seq<Project>, path: Path): (i: nat)
    ensures i <= |cache| && (i < |cache| ==> cache[i].path == path) && forall j :: 0 <= j < i ==> cache[j].path != path
  {
    if cache == [] || cache[0].path == path then 0
    else
      var i := 1 + IndexOf(cache[1..], path);
      assert forall j :: 0 < j < i ==> cache[j] == cache[1..][j - 1];
      i
  }

  predicate Lists(p: Project, path: Path)
  {
    exists r <- p.reclaimable :: r.path == path
  }

  /** What a reclaimable path of the cache always is: below its project. */
  ghost predicate BelowProject(p: Project)
  {
    forall r <- p.reclaimable :: p.path < r.path
  }

  lemma ListedBelow(p: Project, path: Path)
    requires BelowProject(p) && Lists(p, path)
    ensures path != []
  {
  }

  lemma ScannedBelow(d: Node, root: Path, path: Path, patterns: set<string>, t: Times)
    ensures BelowProject(Scanned(d, root, path, patterns, t))
  {
    if d.Dir? && d.readable {
      EntriesBelow(d.entries, path, patterns);
    }
  }

  // ---- Discovery ------------------------------------------------------------

  datatype Ref = Ref(root: Path, path: Path)

  /** The directories directly in a root; links to directories are none. */
  function RefsIn(root: Path, es: seq<Named>): seq<Ref>
  {
    if es == [] then []
    else
      var before, last := RefsIn(root, es[..|es| - 1]), es[|es| - 1];
      if last.node.Dir? then before + [Ref(root, root + [last.name])] else before
  }

  /** What Lstat finds at a path. */
  function AtPath(disk: Node, path: Path): Node
  {
    var at := Lookup(disk, path);
    if at.Some? then at.value else Gone
  }

  function RefsOf(disk: Node, root: Path): seq<Ref>
  {
    RefsIn(root, Entries(AtPath(disk, root)))
  }

  function Discovered(disk: Node, roots: seq<Path>): seq<Ref>
  {
    Collect(roots, root => RefsOf(disk, root))
  }

  lemma {:induction false} RefsInIff(root: Path, es: seq<Named>, ref: Ref)
    ensures ref in RefsIn(root, es)
            <==> ref.root == root && exists e <- es :: e.node.Dir? && ref.path == root + [e.name]
    decreases |es|
  {
    if es != [] {
      var n := |es| - 1;
      RefsInIff(root, es[..n], ref);
      assert es == es[..n] + [es[n]];
    }
  }

  /** Found are exactly the directories directly in one of the roots. */
  lemma {:induction false} DiscoveredIff(disk: Node, roots: seq<Path>, ref: Ref)
    ensures ref in Discovered(disk, roots)
            <==> && ref.root in roots && Lookup(disk, ref.root).Some?
                 && exists e <- Entries(Lookup(disk, ref.root).value) ::
                      e.node.Dir? && ref.path == ref.root + [e.name]
    decreases |roots|
  {
    if roots != [] {
      var n := |roots| - 1;
      DiscoveredIff(disk, roots[..n], ref);
      RefsInIff(roots[n], Entries(AtPath(disk, roots[n])), ref);
      assert roots == roots[..n] + [roots[n]];
    }
  }

  /** discoverProjects */
  method DiscoverProjects(disk: Node, roots: seq<Path>) returns (refs: seq<Ref>)
    ensures refs == Discovered(disk, roots)
  {
    refs := [];
    for i := 0 to |roots|
      invariant refs == Discovered(disk, roots[..i])
    {
      var root := roots[i];
      var entries := Entries(AtPath(disk, root));
      ghost var before := refs;
      for j := 0 to |entries|
        invariant refs == before + RefsIn(root, entries[..j])
      {
        assert entries[..j + 1][..j] == entries[..j];
        if !entries[j].node.Dir? {
          continue;
        }
        refs := refs + [Ref(root, root + [entries[j].name])];
      }
      assert entries[..|entries|] == entries && roots[..i + 1][..i] == roots[..i];
    }
    assert roots[..|roots|] == roots;
  }

  /** The scan of each project found. */
  function ScannedAll(disk: Node, refs: seq<Ref>, patterns: set<string>, times: Path -> Times): seq<Project>
  {
    Map(refs, (ref: Ref) => Scanned(AtPath(disk, ref.path), ref.root, ref.path, patterns, times(ref.path)))
  }

  /**
   What a rescan leaves: the first entry with the path is dropped if there is nothing there
   now, and otherwise is what is there now; no other entry changes.
   */
  ghost predicate Rescanned(disk: Node, before: seq<Project>, after: seq<Project>, root: Path, path: Path,
                            patterns: set<string>, t: Times, saved: bool, r: Result<Project, ScanError>)
  {
    var i, at := IndexOf(before, path), Lookup(disk, path);
    if at.None? then
      r == Err(ProjectGone) && after == if i < |before| then before[..i] + before[i + 1..] else before
    else if at.value.Gone? then r == Err(StatFailed) && after == before
    else
      var info := Scanned(at.value, root, path, patterns, t);
      && r == (if saved then Ok(info) else Err(SaveFailed))
      && after == if i < |before| then before[i := info] else before
  }

  lemma {:induction false} FindIsEntry(es: seq<Named>, e: Named)
    requires NamedApart(es) && e in es
    ensures Find(es, e.name) == Some(e.node)
    decreases |es|
  {
    if es[0] != e {
      assert e in es[1..];
      FindIsEntry(es[1..], e);
    }
  }

  lemma {:induction false} LookupOneMore(n: Node, p: Path, name: string)
    requires Lookup(n, p).Some?
    ensures Lookup(n, p + [name]) == Find(Entries(Lookup(n, p).value), name)
    decreases |p|
  {
    if p == [] {
      assert p + [name] == [name] && [name][1..] == [];
    } else {
      assert (p + [name])[1..] == p[1..] + [name];
      LookupOneMore(Find(Entries(n), p[0]).value, p[1..], name);
    }
  }

  /** p is the scan of a directory directly in a root, as it is now. */
  ghost predicate IsScanOf(p: Project, disk: Node, root: Path, e: Named, patterns: set<string>, times: Path -> Times)
  {
    && Lookup(disk, root).Some? && e in Entries(Lookup(disk, root).value) && e.node.Dir?
    && p == Scanned(e.node, root, root + [e.name], patterns, times(root + [e.name]))
  }

  lemma RefIsEntry(disk: Node, root: Path, e: Named)
    requires Lookup(disk, root).Some? && e in Entries(Lookup(disk, root).value)
    requires NamedApart(Entries(Lookup(disk, root).value))
    ensures AtPath(disk, root + [e.name]) == e.node
  {
    LookupOneMore(disk, root, e.name);
    FindIsEntry(Entries(Lookup(disk, root).value), e);
  }

  /** The scan of everything found has exactly the directories directly in the roots, each as it is now. */
  lemma ScannedAllIff(disk: Node, roots: seq<Path>, patterns: set<string>, times: Path -> Times, p: Project)
    requires forall root <- roots :: Lookup(disk, root).Some? ==> NamedApart(Entries(Lookup(disk, root).value))
    ensures p in ScannedAll(disk, Discovered(disk, roots), patterns, times)
            <==> exists root, e :: root in roots && IsScanOf(p, disk, root, e, patterns, times)
  {
    var refs := Discovered(disk, roots);
    var all := ScannedAll(disk, refs, patterns, times);
    if p in all {
      var i :| 0 <= i < |all| && all[i] == p;
      DiscoveredIff(disk, roots, refs[i]);
      var root := refs[i].root;
      var e :| e in Entries(Lookup(disk, root).value) && e.node.Dir? && refs[i].path == root + [e.name];
      RefIsEntry(disk, root, e);
      assert IsScanOf(p, disk, root, e, patterns, times);
    }
    if exists root, e :: root in roots && IsScanOf(p, disk, root, e, patterns, times) {
      var root, e :| root in roots && IsScanOf(p, disk, root, e, patterns, times);
      var ref := Ref(root, root + [e.name]);
      DiscoveredIff(disk, roots, ref);
      RefIsEntry(disk, root, e);
      var i :| 0 <= i < |refs| && refs[i] == ref;
      assert all[i] == p;
    }
  }

  class Scanner {
    const patterns: set<string>
    /** The directory tree below /. */
    var disk: Node
    var cache: seq<Project>

    constructor (patterns: set<string>, disk: Node)
      ensures Valid() && this.patterns == patterns && this.disk == disk && cache == []
    {
      this.patterns, this.disk, cache := patterns, disk, [];
    }

    ghost predicate Valid()
      reads this
    {
      forall p <- cache :: BelowProject(p)
    }

    method FindProject(path: Path) returns (idx: nat)
      ensures idx == IndexOf(cache, path)
    {
      for i := 0 to |cache|
        invariant forall j :: 0 <= j < i ==> cache[j].path != path
      {
        if cache[i].path == path {
          return i;
        }
      }
      return |cache|;
    }

    /**
     runScan, the workers' results in some order and then sorted; `place` numbers paths in
     descending order of their text. Afterwards the cache has each project found, as it is
     on the disk now, and nothing else.
     */
    method RunScan(roots: seq<Path>, times: Path -> Times, place: Path -> int)
      modifies this`cache
      ensures Valid()
      ensures multiset(cache) == multiset(ScannedAll(disk, Discovered(disk, roots), patterns, times))
      ensures Descending(cache, (p: Project) => place(p.path))
    {
      var refs := DiscoverProjects(disk, roots);
      var results: seq<Project> := [];
      for i := 0 to |refs|
        invariant results == ScannedAll(disk, refs[..i], patterns, times)
        invariant forall p <- results :: BelowProject(p)
      {
        var ref := refs[i];
        var info := ScanProject(AtPath(disk, ref.path), ref.root, ref.path, patterns, times(ref.path));
        ScannedBelow(AtPath(disk, ref.path), ref.root, ref.path, patterns, times(ref.path));
        results := results + [info];
      }
      assert refs[..|refs|] == refs;
      cache := SortDescending(results, (p: Project) => place(p.path));
      SameMembers(cache, results);
    }

    /** One project scanned again. */
    method RescanAndStore(root: Path, path: Path, t: Times, saved: bool) returns (r: Result<Project, ScanError>)
      requires Valid()
      modifies this`cache
      ensures Valid()
      ensures Rescanned(disk, old(cache), cache, root, path, patterns, t, saved, r)
    {
      var at := Lookup(disk, path);
      var i := FindProject(path);
      if at.None? {
        if i < |cache| {
          cache := cache[..i] + cache[i + 1..];
        }
        return Err(ProjectGone);
      }
      if at.value.Gone? {
        return Err(StatFailed);
      }
      var info := ScanProject(at.value, root, path, patterns, t);
      ScannedBelow(at.value, root, path, patterns, t);
      if i < |cache| {
        cache := cache[i := info];
      }
      if !saved {
        return Err(SaveFailed);
      }
      return Ok(info);
    }

    /** Only a path that a cached project lists is removed, and then that project is rescanned. */
    method DeleteReclaimable(projectPath: Path, reclaimablePath: Path, t: Times, saved: bool)
      returns (r: Result<Project, ScanError>)
      requires Valid()
      modifies this
      ensures Valid()
      ensures var i := IndexOf(old(cache), projectPath);
              if i == |old(cache)| then r == Err(UnknownProject) && disk == old(disk) && cache == old(cache)
              else if !Lists(old(cache)[i], reclaimablePath) then
                r == Err(UnknownReclaimable) && disk == old(disk) && cache == old(cache)
              else if Lookup(old(disk), reclaimablePath) == Some(Gone) then
                r == Err(StatFailed) && disk == old(disk) && cache == old(cache)
              else
                && reclaimablePath != []
                && disk == (if Lookup(old(disk), reclaimablePath).Some? then Remove(old(disk), reclaimablePath)
                  else old(disk))
                && Rescanned(disk, old(cache), cache, old(cache)[i].root, projectPath, patterns, t, saved, r)
    {
      var idx := FindProject(projectPath);
      if idx == |cache| {
        return Err(UnknownProject);
      }
      var p := cache[idx];
      var valid := Lists(p, reclaimablePath);
      if !valid {
        return Err(UnknownReclaimable);
      }
      ListedBelow(p, reclaimablePath);
      var fi := Lookup(disk, reclaimablePath);
      if fi.Some? {
        if fi.value.Gone? {
          return Err(StatFailed);
        }
        disk := Remove(disk, reclaimablePath);
      }
      r := RescanAndStore(p.root, projectPath, t, saved);
    }
  }

  // ---- A delete on a fresh cache --------------------------------------------

  lemma {:induction false} FindOther(es: seq<Named>, rel: Path, name: string)
    requires rel != [] && name != rel[0]
    ensures Find(RemoveIn(es, rel), name) == Find(es, name)
    decreases |es|
  {
    if es != [] {
      if es[0].name != rel[0] {
        FindOther(es[1..], rel, name);
        assert ([es[0]] + RemoveIn(es[1..], rel))[1..] == RemoveIn(es[1..], rel);
      } else if |rel| > 1 {
        var e := es[0].(node := Remove(es[0].node, rel[1..]));
        assert ([e] + es[1..])[1..] == es[1..];
      }
    }
  }

  lemma {:induction false} FindOnWay(es: seq<Named>, rel: Path)
    requires |rel| > 1 && Find(es, rel[0]).Some?
    ensures Find(RemoveIn(es, rel), rel[0]) == Some(Remove(Find(es, rel[0]).value, rel[1..]))
    decreases |es|
  {
    if es[0].name != rel[0] {
      FindOnWay(es[1..], rel);
      assert ([es[0]] + RemoveIn(es[1..], rel))[1..] == RemoveIn(es[1..], rel);
    }
  }

  /** A directory above the removed path sees the removal relative to itself. */
  lemma {:induction false} LookupAbove(n: Node, p: Path, rel: Path)
    requires rel != [] && Lookup(n, p).Some?
    ensures p + rel != [] && Lookup(Remove(n, p + rel), p) == Some(Remove(Lookup(n, p).value, rel))
    decreases |p|
  {
    if p == [] {
      assert p + rel == rel;
    } else {
      assert (p + rel)[1..] == p[1..] + rel && (p + rel)[0] == p[0];
      FindOnWay(Entries(n), p + rel);
      LookupAbove(Find(Entries(n), p[0]).value, p[1..], rel);
    }
  }

  /** Elsewhere nothing changes. */
  lemma {:induction false} LookupElsewhere(n: Node, p: Path, q: Path)
    requires Apart(p, q)
    ensures p != [] && Lookup(Remove(n, p), q) == Lookup(n, q)
    decreases |p|
  {
    if q[0] != p[0] {
      FindOther(Entries(n), p, q[0]);
    } else {
      assert p == [p[0]] + p[1..] && q == [q[0]] + q[1..];
      if Find(Entries(n), p[0]).Some? {
        FindOnWay(Entries(n), p);
        LookupElsewhere(Find(Entries(n), p[0]).value, p[1..], q[1..]);
      } else {
        NotThere(Entries(n), p);
      }
    }
  }

  lemma {:induction false} NotThere(es: seq<Named>, rel: Path)
    requires rel != [] && Find(es, rel[0]).None?
    ensures RemoveIn(es, rel) == es
    decreases |es|
  {
    if es != [] {
      NotThere(es[1..], rel);
      assert es == [es[0]] + es[1..];
    }
  }

  /**
   Deleting the i-th entry of an up-to-date project and scanning again lowers both sizes
   by exactly the entry's size and takes exactly that entry off the list; no directory
   apart from it changes.
   */
  lemma DeleteLowersBySize(disk: Node, root: Path, path: Path, patterns: set<string>, before: Times, after: Times,
                           i: nat)
    requires Lookup(disk, path).Some? && UniqueNames(Lookup(disk, path).value)
    requires i < |Scanned(Lookup(disk, path).value, root, path, patterns, before).reclaimable|
    ensures var p := Scanned(Lookup(disk, path).value, root, path, patterns, before);
            var r := p.reclaimable[i];
            && r.path != []
            && var disk' := Remove(disk, r.path);
            && Lookup(disk', path).Some?
            && var p' := Scanned(Lookup(disk', path).value, root, path, patterns, after);
            && p'.total + r.size == p.total
            && p'.reclaimableSize + r.size == p.reclaimableSize
            && p'.reclaimable == p.reclaimable[..i] + p.reclaimable[i + 1..]
            && forall q :: Apart(r.path, q) ==> Lookup(disk', q) == Lookup(disk, q)
  {
    var d := Lookup(disk, path).value;
    var found := ScanTree(d, path, patterns);
    var r := found.reclaimable[i];
    TreeRescanned(d, path, r, patterns);
    TreeApart(d, path, patterns);
    ProjectDelete.WithoutOne(found.reclaimable, i);
    var rel := r.path[|path|..];
    assert path + rel == r.path;
    LookupAbove(disk, path, rel);
    forall q | Apart(r.path, q)
      ensures Lookup(Remove(disk, r.path), q) == Lookup(disk, q)
    {
      LookupElsewhere(disk, r.path, q);
    }
  }
}
