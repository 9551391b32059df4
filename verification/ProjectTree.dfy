/**
 The size walk over a project's tree (webmanager/backend/internal/projects/walk.go):
 total size, newest file, and the reclaimable directories. A path is its list of names.
 */
module ProjectTree {

  type Path = seq<string>

  /** What an entry is; Gone is one whose Lstat fails. */
  datatype Node =
    | File(size: nat, mtime: nat)
    | Link(size: nat)
    | Dir(readable: bool, entries: seq<Named>)
    | Gone

  datatype Named = Named(name: string, node: Node)

  datatype Reclaimable = Reclaimable(pattern: string, path: Path, size: nat)

  /** Times count from Go's zero time, which is 0. */
  datatype Found = Found(size: nat, lastMod: nat, reclaimable: seq<Reclaimable>)

  /** The entries ReadDir yields: none of a directory that cannot be read. */
  function Entries(n: Node): (es: seq<Named>)
    ensures es == [] || (n.Dir? && es == n.entries)
  {
    if n.Dir? && n.readable then n.entries else []
  }

  // ---- The walk -------------------------------------------------------------

  /** Bytes of a whole subtree, links not followed. */
  function Size(n: Node): nat
    decreases n, 1
  {
    match n
    case File(size, _) => size
    case Link(size) => size
    case Dir(readable, entries) => if readable then SizeOf(entries) else 0
    case Gone => 0
  }

  function SizeOf(es: seq<Named>): nat
    decreases es, 0
  {
    if es == [] then 0 else Size(es[0].node) + SizeOf(es[1..])
  }

  function Max(a: nat, b: nat): nat
  {
    if b > a then b else a
  }

  function Both(a: Found, b: Found): Found
  {
    Found(a.size + b.size, Max(a.lastMod, b.lastMod), a.reclaimable + b.reclaimable)
  }

  const NOTHING := Found(0, 0, [])

  function ScanEntry(e: Named, path: Path, patterns: set<string>): Found
    decreases e, 2
  {
    match e.node
    case File(size, mtime) => Found(size, mtime, [])
    case Link(size) => Found(size, 0, [])
    case Gone => NOTHING
    case Dir(_, _) =>
      if e.name == ".git" then NOTHING
      else if e.name in patterns then
        Found(Size(e.node), 0, [Reclaimable(e.name, path + [e.name], Size(e.node))])
      else ScanTree(e.node, path + [e.name], patterns)
  }

  function ScanEntries(es: seq<Named>, path: Path, patterns: set<string>): Found
    decreases es, 0
  {
    if es == [] then NOTHING else Both(ScanEntry(es[0], path, patterns), ScanEntries(es[1..], path, patterns))
  }

  function ScanTree(d: Node, path: Path, patterns: set<string>): Found
    decreases d, 1
  {
    if d.Dir? && d.readable then ScanEntries(d.entries, path, patterns) else NOTHING
  }

  /** dirSize */
  method DirSize(dir: Node) returns (total: nat)
    ensures total == SizeOf(Entries(dir))
    decreases dir
  {
    var entries := Entries(dir);
    total := 0;
    assert entries[0..] == entries;
    for i := 0 to |entries|
      invariant total + SizeOf(entries[i..]) == SizeOf(entries)
    {
      assert entries[i..][1..] == entries[i + 1..];
      var node := entries[i].node;
      match node
      case Gone => continue;
      case Link(size) => total := total + size;
      case Dir(_, _) =>
        var sub := DirSize(node);
        total := total + sub;
      case File(size, _) => total := total + size;
    }
  }

  /** One entry of the loop of scanDir. */
  method ScanNamed(e: Named, path: Path, patterns: set<string>)
    returns (size: nat, lastMod: nat, reclaimable: seq<Reclaimable>)
    ensures Found(size, lastMod, reclaimable) == ScanEntry(e, path, patterns)
    decreases e
  {
    match e.node
    case Gone =>
      return 0, 0, [];
    case Link(s) =>
      return s, 0, [];
    case File(s, mtime) =>
      return s, mtime, [];
    case Dir(_, _) =>
      if e.name == ".git" {
        return 0, 0, [];
      }
      if e.name in patterns {
        var sub := DirSize(e.node);
        return sub, 0, [Reclaimable(e.name, path + [e.name], sub)];
      }
      size, lastMod, reclaimable := ScanDir(e.node, path + [e.name], patterns);
  }

  /** scanDir */
  method ScanDir(dir: Node, path: Path, patterns: set<string>)
    returns (size: nat, lastMod: nat, reclaimable: seq<Reclaimable>)
    ensures Found(size, lastMod, reclaimable) == ScanTree(dir, path, patterns)
    decreases dir
  {
    var entries := Entries(dir);
    size, lastMod, reclaimable := 0, 0, [];
    for i := 0 to |entries|
      invariant Found(size, lastMod, reclaimable) == ScanEntries(entries[..i], path, patterns)
    {
      OneMoreScanned(entries, i, path, patterns);
      var subSize, subMod, subReclaimable := ScanNamed(entries[i], path, patterns);
      size := size + subSize;
      if subMod > lastMod {
        lastMod := subMod;
      }
      reclaimable := reclaimable + subReclaimable;
    }
    assert entries[..|entries|] == entries;
  }

  lemma BothAssociates(a: Found, b: Found, c: Found)
    ensures Both(Both(a, b), c) == Both(a, Both(b, c)) && Both(NOTHING, a) == a == Both(a, NOTHING)
  {
  }

  lemma {:induction false} ScanAppend(a: seq<Named>, b: seq<Named>, path: Path, patterns: set<string>)
    ensures ScanEntries(a + b, path, patterns) == Both(ScanEntries(a, path, patterns), ScanEntries(b, path, patterns))
    decreases |a|
  {
    if a == [] {
      assert a + b == b;
      BothAssociates(ScanEntries(b, path, patterns), NOTHING, NOTHING);
    } else {
      assert (a + b)[1..] == a[1..] + b;
      ScanAppend(a[1..], b, path, patterns);
      BothAssociates(ScanEntry(a[0], path, patterns), ScanEntries(a[1..], path, patterns),
                     ScanEntries(b, path, patterns));
    }
  }

  lemma OneMoreScanned(es: seq<Named>, i: nat, path: Path, patterns: set<string>)
    requires i < |es|
    ensures ScanEntries(es[..i + 1], path, patterns)
            == Both(ScanEntries(es[..i], path, patterns), ScanEntry(es[i], path, patterns))
  {
    assert es[..i + 1] == es[..i] + [es[i]];
    ScanAppend(es[..i], [es[i]], path, patterns);
    assert [es[i]][1..] == [];
    BothAssociates(ScanEntry(es[i], path, patterns), NOTHING, NOTHING);
  }

  // ---- The files ------------------------------------------------------------

  datatype Leaf = Leaf(path: Path, size: nat, mtime: nat)

  /** Every file and link of a subtree, with its path; a link's own time does not count. */
  function Leaves(n: Node, path: Path): seq<Leaf>
    decreases n, 1
  {
    match n
    case File(size, mtime) => [Leaf(path, size, mtime)]
    case Link(size) => [Leaf(path, size, 0)]
    case Dir(readable, entries) => if readable then LeavesOf(entries, path) else []
    case Gone => []
  }

  function LeavesOf(es: seq<Named>, path: Path): seq<Leaf>
    decreases es, 0
  {
    if es == [] then [] else Leaves(es[0].node, path + [es[0].name]) + LeavesOf(es[1..], path)
  }

  datatype Place = InGit | InReclaimable | Elsewhere

  /** Where a file is: what the first .git or pattern among its directories says, from depth k on. */
  function PlaceOf(p: Path, k: nat, patterns: set<string>): Place
    decreases |p| - k
  {
    if k + 1 >= |p| then Elsewhere
    else if p[k] == ".git" then InGit
    else if p[k] in patterns then InReclaimable
    else PlaceOf(p, k + 1, patterns)
  }

  function Bytes(ls: seq<Leaf>): nat
  {
    if ls == [] then 0 else ls[0].size + Bytes(ls[1..])
  }

  function BytesAt(ls: seq<Leaf>, place: Place, k: nat, patterns: set<string>): nat
  {
    if ls == [] then 0
    else (if PlaceOf(ls[0].path, k, patterns) == place then ls[0].size else 0) + BytesAt(ls[1..], place, k, patterns)
  }

  function SumSizes(rs: seq<Reclaimable>): nat
  {
    if rs == [] then 0 else rs[0].size + SumSizes(rs[1..])
  }

  lemma {:induction false} BytesAppend(a: seq<Leaf>, b: seq<Leaf>)
    ensures Bytes(a + b) == Bytes(a) + Bytes(b)
    decreases |a|
  {
    if a == [] {
      assert a + b == b;
    } else {
      assert (a + b)[1..] == a[1..] + b;
      BytesAppend(a[1..], b);
    }
  }

  lemma {:induction false} BytesAtAppend(a: seq<Leaf>, b: seq<Leaf>, place: Place, k: nat, patterns: set<string>)
    ensures BytesAt(a + b, place, k, patterns) == BytesAt(a, place, k, patterns) + BytesAt(b, place, k, patterns)
    decreases |a|
  {
    if a == [] {
      assert a + b == b;
    } else {
      assert (a + b)[1..] == a[1..] + b;
      BytesAtAppend(a[1..], b, place, k, patterns);
    }
  }

  lemma {:induction false} SumAppend(a: seq<Reclaimable>, b: seq<Reclaimable>)
    ensures SumSizes(a + b) == SumSizes(a) + SumSizes(b)
    decreases |a|
  {
    if a == [] {
      assert a + b == b;
    } else {
      assert (a + b)[1..] == a[1..] + b;
      SumAppend(a[1..], b);
    }
  }

  lemma {:induction false} SizeIsBytes(n: Node, path: Path)
    ensures Size(n) == Bytes(Leaves(n, path))
    decreases n, 1
  {
    match n
    case Dir(readable, entries) => if readable { SizeOfIsBytes(entries, path); }
    case File(size, mtime) => assert [Leaf(path, size, mtime)][1..] == [];
    case Link(size) => assert [Leaf(path, size, 0)][1..] == [];
    case Gone =>
  }

  lemma {:induction false} SizeOfIsBytes(es: seq<Named>, path: Path)
    ensures SizeOf(es) == Bytes(LeavesOf(es, path))
    decreases es, 0
  {
    if es != [] {
      SizeIsBytes(es[0].node, path + [es[0].name]);
      SizeOfIsBytes(es[1..], path);
      BytesAppend(Leaves(es[0].node, path + [es[0].name]), LeavesOf(es[1..], path));
    }
  }

  /** The files of a subtree lie below its path; those of a directory strictly. */
  lemma {:induction false} LeavesBelow(n: Node, path: Path)
    ensures forall l <- Leaves(n, path) :: path <= l.path && (n.Dir? ==> path < l.path)
    decreases n, 1
  {
    if n.Dir? && n.readable { LeavesOfBelow(n.entries, path); }
  }

  lemma {:induction false} LeavesOfBelow(es: seq<Named>, path: Path)
    ensures forall l <- LeavesOf(es, path) :: path < l.path
    decreases es, 0
  {
    if es != [] {
      LeavesBelow(es[0].node, path + [es[0].name]);
      LeavesOfBelow(es[1..], path);
    }
  }
}
