/**
 What a scan's numbers mean, and what deleting one reclaimable directory does to them
 (webmanager/backend/internal/projects/walk.go, projects.go).
 */
module ProjectSizes {
  import opened Wrappers
  import opened ProjectTree

  // ---- Conservation ---------------------------------------------------------

  /** Files that all lie in one place. */
  lemma {:induction false} AllAt(ls: seq<Leaf>, at: Place, place: Place, k: nat, patterns: set<string>)
    requires forall l <- ls :: PlaceOf(l.path, k, patterns) == at
    ensures BytesAt(ls, place, k, patterns) == if place == at then Bytes(ls) else 0
    decreases |ls|
  {
    if ls != [] {
      assert ls[0] in ls;
      AllAt(ls[1..], at, place, k, patterns);
    }
  }

  /** A directory's name that decides nothing leaves the decision to the rest of the path. */
  lemma {:induction false} OneDeeper(ls: seq<Leaf>, place: Place, k: nat, patterns: set<string>)
    requires forall l <- ls :: PlaceOf(l.path, k, patterns) == PlaceOf(l.path, k + 1, patterns)
    ensures BytesAt(ls, place, k, patterns) == BytesAt(ls, place, k + 1, patterns)
    decreases |ls|
  {
    if ls != [] {
      assert ls[0] in ls;
      OneDeeper(ls[1..], place, k, patterns);
    }
  }

  /** The bytes a scan attributes to each place. */
  ghost predicate Attributed(f: Found, ls: seq<Leaf>, k: nat, patterns: set<string>)
  {
    && SumSizes(f.reclaimable) == BytesAt(ls, InReclaimable, k, patterns)
    && f.size == BytesAt(ls, InReclaimable, k, patterns) + BytesAt(ls, Elsewhere, k, patterns)
    && Bytes(ls) == f.size + BytesAt(ls, InGit, k, patterns)
  }

  lemma AttributedBoth(a: Found, b: Found, la: seq<Leaf>, lb: seq<Leaf>, k: nat, patterns: set<string>)
    requires Attributed(a, la, k, patterns) && Attributed(b, lb, k, patterns)
    ensures Attributed(Both(a, b), la + lb, k, patterns)
  {
    SumAppend(a.reclaimable, b.reclaimable);
    BytesAppend(la, lb);
    BytesAtAppend(la, lb, InReclaimable, k, patterns);
    BytesAtAppend(la, lb, Elsewhere, k, patterns);
    BytesAtAppend(la, lb, InGit, k, patterns);
  }

  lemma OnePlace(f: Found, ls: seq<Leaf>, at: Place, k: nat, patterns: set<string>)
    requires forall l <- ls :: PlaceOf(l.path, k, patterns) == at
    requires f.size == (if at == InGit then 0 else Bytes(ls))
    requires SumSizes(f.reclaimable) == (if at == InReclaimable then Bytes(ls) else 0)
    ensures Attributed(f, ls, k, patterns)
  {
    AllAt(ls, at, InGit, k, patterns);
    AllAt(ls, at, InReclaimable, k, patterns);
    AllAt(ls, at, Elsewhere, k, patterns);
  }

  /** Where the files of one directory entry lie, one name down the path. */
  lemma PlacesBelow(n: Node, path: Path, name: string, patterns: set<string>)
    requires n.Dir?
    ensures forall l <- Leaves(n, path + [name]) ::
              PlaceOf(l.path, |path|, patterns)
              == if name == ".git" then InGit else if name in patterns then InReclaimable
                 else PlaceOf(l.path, |path| + 1, patterns)
  {
    LeavesBelow(n, path + [name]);
    forall l | l in Leaves(n, path + [name]) ensures l.path[|path|] == name {
      assert l.path[..|path| + 1] == path + [name];
    }
  }

  lemma {:induction false} EntryAttributed(e: Named, path: Path, patterns: set<string>)
    ensures Attributed(ScanEntry(e, path, patterns), Leaves(e.node, path + [e.name]), |path|, patterns)
    decreases e, 2
  {
    var f, ls := ScanEntry(e, path, patterns), Leaves(e.node, path + [e.name]);
    SizeIsBytes(e.node, path + [e.name]);
    if e.node.Dir? {
      PlacesBelow(e.node, path, e.name, patterns);
      if e.name == ".git" {
        OnePlace(f, ls, InGit, |path|, patterns);
      } else if e.name in patterns {
        assert f.reclaimable[1..] == [];
        OnePlace(f, ls, InReclaimable, |path|, patterns);
      } else {
        TreeAttributed(e.node, path + [e.name], patterns);
        OneDeeper(ls, InGit, |path|, patterns);
        OneDeeper(ls, InReclaimable, |path|, patterns);
        OneDeeper(ls, Elsewhere, |path|, patterns);
      }
    } else {
      forall l | l in ls ensures PlaceOf(l.path, |path|, patterns) == Elsewhere {
        assert l.path == path + [e.name];
      }
      OnePlace(f, ls, Elsewhere, |path|, patterns);
    }
  }

  lemma {:induction false} EntriesAttributed(es: seq<Named>, path: Path, patterns: set<string>)
    ensures Attributed(ScanEntries(es, path, patterns), LeavesOf(es, path), |path|, patterns)
    decreases es, 0
  {
    if es == [] {
      assert LeavesOf(es, path) == [];
    } else {
      EntryAttributed(es[0], path, patterns);
      EntriesAttributed(es[1..], path, patterns);
      AttributedBoth(ScanEntry(es[0], path, patterns), ScanEntries(es[1..], path, patterns),
                     Leaves(es[0].node, path + [es[0].name]), LeavesOf(es[1..], path), |path|, patterns);
    }
  }

  /**
   Of a project's directory: the reclaimable size is the bytes of the files below a
   pattern's directory, the total is that and every byte that is neither there nor in a
   .git, and with the bytes of .git it is everything.
   */
  lemma {:induction false} TreeAttributed(d: Node, path: Path, patterns: set<string>)
    requires d.Dir?
    ensures Attributed(ScanTree(d, path, patterns), Leaves(d, path), |path|, patterns)
    decreases d, 1
  {
    if d.readable {
      EntriesAttributed(d.entries, path, patterns);
    }
  }

  // ---- The newest file ------------------------------------------------------

  /** A file whose time counts: below no .git and no pattern's directory. */
  predicate Counts(l: Leaf, k: nat, patterns: set<string>)
  {
    PlaceOf(l.path, k, patterns) == Elsewhere
  }

  /** m is the latest time among the files that count, or 0. */
  ghost predicate Latest(m: nat, ls: seq<Leaf>, k: nat, patterns: set<string>)
  {
    && (forall l <- ls :: Counts(l, k, patterns) ==> l.mtime <= m)
    && (m > 0 ==> exists l <- ls :: Counts(l, k, patterns) && l.mtime == m)
  }

  lemma LatestBoth(a: nat, b: nat, la: seq<Leaf>, lb: seq<Leaf>, k: nat, patterns: set<string>)
    requires Latest(a, la, k, patterns) && Latest(b, lb, k, patterns)
    ensures Latest(Max(a, b), la + lb, k, patterns)
  {
    var m, ls := Max(a, b), la + lb;
    if m > 0 {
      var l :| l in (if b > a then lb else la) && Counts(l, k, patterns) && l.mtime == m;
      assert l in ls;
    }
  }

  lemma {:induction false} EntryLatest(e: Named, path: Path, patterns: set<string>)
    ensures Latest(ScanEntry(e, path, patterns).lastMod, Leaves(e.node, path + [e.name]), |path|, patterns)
    decreases e, 2
  {
    var ls := Leaves(e.node, path + [e.name]);
    if e.node.Dir? {
      PlacesBelow(e.node, path, e.name, patterns);
      if e.name != ".git" && e.name !in patterns {
        TreeLatest(e.node, path + [e.name], patterns);
        assert forall l <- ls :: Counts(l, |path|, patterns) == Counts(l, |path| + 1, patterns);
      }
    } else if e.node != Gone {
      assert ls[0] in ls && Counts(ls[0], |path|, patterns);
    }
  }

  lemma {:induction false} EntriesLatest(es: seq<Named>, path: Path, patterns: set<string>)
    ensures Latest(ScanEntries(es, path, patterns).lastMod, LeavesOf(es, path), |path|, patterns)
    decreases es, 0
  {
    if es != [] {
      EntryLatest(es[0], path, patterns);
      EntriesLatest(es[1..], path, patterns);
      LatestBoth(ScanEntry(es[0], path, patterns).lastMod, ScanEntries(es[1..], path, patterns).lastMod,
                 Leaves(es[0].node, path + [es[0].name]), LeavesOf(es[1..], path), |path|, patterns);
    }
  }

  /** A project's time is that of its newest file below neither a .git nor a pattern's directory. */
  lemma {:induction false} TreeLatest(d: Node, path: Path, patterns: set<string>)
    requires d.Dir?
    ensures Latest(ScanTree(d, path, patterns).lastMod, Leaves(d, path), |path|, patterns)
    decreases d, 1
  {
    if d.readable {
      EntriesLatest(d.entries, path, patterns);
    }
  }

  // ---- Which directories are reclaimable ------------------------------------

  /** No two entries of a directory have one name, all the way down. */
  ghost predicate UniqueNames(n: Node)
    decreases n, 1
  {
    n.Dir? ==> NamedApart(n.entries)
  }

  ghost predicate NamedApart(es: seq<Named>)
    decreases es, 0
  {
    es == [] || ((forall e <- es[1..] :: e.name != es[0].name) && UniqueNames(es[0].node) && NamedApart(es[1..]))
  }

  predicate Apart(p: Path, q: Path)
  {
    !(p <= q) && !(q <= p)
  }

  ghost predicate PairwiseApart(rs: seq<Reclaimable>)
  {
    forall i, j :: 0 <= i < j < |rs| ==> Apart(rs[i].path, rs[j].path)
  }

  lemma {:induction false} EntryBelow(e: Named, path: Path, patterns: set<string>)
    ensures forall r <- ScanEntry(e, path, patterns).reclaimable :: path + [e.name] <= r.path
    decreases e, 2
  {
    if e.node.Dir? { TreeBelow(e.node, path + [e.name], patterns); }
  }

  lemma {:induction false} EntriesBelow(es: seq<Named>, path: Path, patterns: set<string>)
    ensures forall r <- ScanEntries(es, path, patterns).reclaimable ::
              path < r.path && exists e <- es :: path + [e.name] <= r.path
    decreases es, 0
  {
    if es != [] {
      EntryBelow(es[0], path, patterns);
      EntriesBelow(es[1..], path, patterns);
      forall r | r in ScanEntries(es, path, patterns).reclaimable
        ensures path < r.path && exists e <- es :: path + [e.name] <= r.path
      {
        if r in ScanEntry(es[0], path, patterns).reclaimable {
          assert es[0] in es;
        } else {
          var e :| e in es[1..] && path + [e.name] <= r.path;
          assert e in es;
        }
      }
    }
  }

  lemma {:induction false} TreeBelow(d: Node, path: Path, patterns: set<string>)
    ensures forall r <- ScanTree(d, path, patterns).reclaimable :: path <= r.path
    decreases d, 1
  {
    if d.Dir? && d.readable { EntriesBelow(d.entries, path, patterns); }
  }

  lemma DifferentNames(path: Path, a: string, b: string, p: Path, q: Path)
    requires a != b && path + [a] <= p && path + [b] <= q
    ensures Apart(p, q)
  {
    assert p[|path|] == a && q[|path|] == b;
  }

  lemma {:induction false} EntriesApart(es: seq<Named>, path: Path, patterns: set<string>)
    requires NamedApart(es)
    ensures PairwiseApart(ScanEntries(es, path, patterns).reclaimable)
    decreases es, 0
  {
    if es != [] {
      var a, b := ScanEntry(es[0], path, patterns).reclaimable, ScanEntries(es[1..], path, patterns).reclaimable;
      EntryApart(es[0], path, patterns);
      EntriesApart(es[1..], path, patterns);
      EntryBelow(es[0], path, patterns);
      EntriesBelow(es[1..], path, patterns);
      forall r, q | r in a && q in b ensures Apart(r.path, q.path) {
        var e :| e in es[1..] && path + [e.name] <= q.path;
        DifferentNames(path, es[0].name, e.name, r.path, q.path);
      }
      ApartAppend(a, b);
    }
  }

  lemma ApartAppend(a: seq<Reclaimable>, b: seq<Reclaimable>)
    requires PairwiseApart(a) && PairwiseApart(b) && forall r <- a, q <- b :: Apart(r.path, q.path)
    ensures PairwiseApart(a + b)
  {
  }

  lemma {:induction false} EntryApart(e: Named, path: Path, patterns: set<string>)
    requires UniqueNames(e.node)
    ensures PairwiseApart(ScanEntry(e, path, patterns).reclaimable)
    decreases e, 2
  {
    if e.node.Dir? { TreeApart(e.node, path + [e.name], patterns); }
  }

  /** Reclaimable directories are pairwise apart: none is another, and none lies in another. */
  lemma {:induction false} TreeApart(d: Node, path: Path, patterns: set<string>)
    requires UniqueNames(d)
    ensures PairwiseApart(ScanTree(d, path, patterns).reclaimable)
    decreases d, 1
  {
    if d.Dir? && d.readable { EntriesApart(d.entries, path, patterns); }
  }

  function Find(es: seq<Named>, name: string): Option<Node>
  {
    if es == [] then None else if es[0].name == name then Some(es[0].node) else Find(es[1..], name)
  }

  /** What is at a path below a directory. */
  function Lookup(n: Node, rel: Path): Option<Node>
    decreases |rel|
  {
    if rel == [] then Some(n)
    else
      match Find(Entries(n), rel[0])
      case None => None
      case Some(m) => Lookup(m, rel[1..])
  }

  /** The first .git or pattern on the way is the last name, and it is a pattern. */
  predicate TopPattern(rel: Path, patterns: set<string>)
  {
    rel != [] && rel[0] != ".git" && if |rel| == 1 then rel[0] in patterns
    else rel[0] !in patterns && TopPattern(rel[1..], patterns)
  }

  /** At r's path, seen from a node at `path`, is a directory that r describes. */
  predicate Describes(r: Reclaimable, at: Option<Node>, rel: Path, patterns: set<string>)
  {
    TopPattern(rel, patterns) && at.Some? && at.value.Dir? && r.pattern == rel[|rel| - 1] && r.size == Size(at.value)
  }

  predicate IsListed(r: Reclaimable, es: seq<Named>, path: Path, patterns: set<string>)
  {
    path < r.path &&
    var rel := r.path[|path|..];
    var at := match Find(es, rel[0]) case None => None case Some(m) => Lookup(m, rel[1..]);
    Describes(r, at, rel, patterns)
  }

  lemma SplitPath(path: Path, name: string, p: Path)
    requires path < p
    ensures path + [name] <= p <==> p[|path|..][0] == name
    ensures path + [name] <= p ==>
              p[|path|..][1..] == p[|path + [name]|..] && |p[|path|..]| == |p[|path + [name]|..]| + 1
  {
    assert p[|path|..][0] == p[|path|];
    assert p[..|path| + 1] == path + [p[|path|]];
  }

  lemma {:induction false} FindAmong(es: seq<Named>, name: string)
    ensures Find(es, name).Some? <==> exists e <- es :: e.name == name
    decreases |es|
  {
    if es != [] {
      FindAmong(es[1..], name);
      if exists e <- es[1..] :: e.name == name {
        var e :| e in es[1..] && e.name == name;
        assert e in es;
      }
      assert es[0] in es;
    }
  }

  lemma {:induction false} EntryListed(e: Named, path: Path, r: Reclaimable, patterns: set<string>)
    requires UniqueNames(e.node)
    ensures r in ScanEntry(e, path, patterns).reclaimable
            <==> path + [e.name] <= r.path && IsListed(r, [e], path, patterns)
    decreases e, 2
  {
    var here := path + [e.name];
    EntryBelow(e, path, patterns);
    if here <= r.path {
      SplitPath(path, e.name, r.path);
      var rel := r.path[|path|..];
      assert Find([e], rel[0]) == Some(e.node);
      if e.node.Dir? && e.name != ".git" && e.name !in patterns {
        TreeListed(e.node, here, r, patterns);
      } else if e.node.Dir? && e.name != ".git" {
        assert |rel| == 1 ==> r.path == here;
      } else if |rel| > 1 {
        assert e.node.Dir? || Lookup(e.node, rel[1..]).None?;
      }
    }
  }

  /**
   The list is exact: an entry for each directory with a pattern's name that is not below
   a .git or another such directory, with that name and the size of its subtree.
   */
  lemma {:induction false} TreeListed(d: Node, path: Path, r: Reclaimable, patterns: set<string>)
    requires UniqueNames(d)
    ensures r in ScanTree(d, path, patterns).reclaimable
            <==> path < r.path && Describes(r, Lookup(d, r.path[|path|..]), r.path[|path|..], patterns)
    decreases d, 1
  {
    if d.Dir? && d.readable {
      EntriesListed(d.entries, path, r, patterns);
    }
  }

  lemma {:induction false} EntriesListed(es: seq<Named>, path: Path, r: Reclaimable, patterns: set<string>)
    requires NamedApart(es)
    ensures r in ScanEntries(es, path, patterns).reclaimable <==> IsListed(r, es, path, patterns)
    decreases es, 0
  {
    EntriesBelow(es, path, patterns);
    if es != [] && path < r.path {
      var e := es[0];
      SplitPath(path, e.name, r.path);
      EntryListed(e, path, r, patterns);
      EntryBelow(e, path, patterns);
      EntriesListed(es[1..], path, r, patterns);
      FindAmong(es[1..], e.name);
      assert Find([e], r.path[|path|..][0]).Some? <==> r.path[|path|..][0] == e.name by { assert [e][1..] == []; }
    }
  }
}
