/**
 Deleting one reclaimable directory and scanning again
 (webmanager/backend/internal/projects/walk.go, projects.go).
 */
module ProjectDelete {
  import opened Wrappers
  import opened ProjectTree
  import opened ProjectSizes

  // ---- Removing a path ------------------------------------------------------

  /** os.RemoveAll of what is at a path below a directory, if anything is. */
  function Remove(n: Node, rel: Path): Node
    requires rel != []
    decreases |rel|, 1
  {
    if n.Dir? && n.readable then n.(entries := RemoveIn(n.entries, rel)) else n
  }

  function RemoveIn(es: seq<Named>, rel: Path): seq<Named>
    requires rel != []
    decreases |rel|, 0, es
  {
    if es == [] then []
    else if es[0].name != rel[0] then [es[0]] + RemoveIn(es[1..], rel)
    else if |rel| == 1 then es[1..]
    else [es[0].(node := Remove(es[0].node, rel[1..]))] + es[1..]
  }

  function NotBelow(ls: seq<Leaf>, p: Path): seq<Leaf>
  {
    if ls == [] then [] else (if p <= ls[0].path then [] else [ls[0]]) + NotBelow(ls[1..], p)
  }

  lemma {:induction false} NotBelowAppend(a: seq<Leaf>, b: seq<Leaf>, p: Path)
    ensures NotBelow(a + b, p) == NotBelow(a, p) + NotBelow(b, p)
    decreases |a|
  {
    if a == [] {
      assert a + b == b;
    } else {
      assert (a + b)[1..] == a[1..] + b;
      NotBelowAppend(a[1..], b, p);
    }
  }

  lemma {:induction false} AllBelow(ls: seq<Leaf>, p: Path)
    requires forall l <- ls :: p <= l.path
    ensures NotBelow(ls, p) == []
    decreases |ls|
  {
    if ls != [] {
      assert ls[0] in ls;
      AllBelow(ls[1..], p);
    }
  }

  lemma {:induction false} NoneBelow(ls: seq<Leaf>, p: Path)
    requires forall l <- ls :: !(p <= l.path)
    ensures NotBelow(ls, p) == ls
    decreases |ls|
  {
    if ls != [] {
      assert ls[0] in ls;
      NoneBelow(ls[1..], p);
      assert ls == [ls[0]] + ls[1..];
    }
  }

  lemma OtherName(path: Path, name: string, rel: Path, p: Path)
    requires rel != [] && rel[0] != name && path + [name] <= p
    ensures !(path + rel <= p)
  {
    assert p[|path|] == name && (path + rel)[|path|] == rel[0];
  }

  /** A leaf in a directory whose entries have other names. */
  lemma {:induction false} OtherEntries(es: seq<Named>, path: Path, rel: Path)
    requires rel != [] && forall e <- es :: e.name != rel[0]
    ensures forall l <- LeavesOf(es, path) :: !(path + rel <= l.path)
    ensures RemoveIn(es, rel) == es
    decreases es, 0
  {
    if es != [] {
      assert es[0] in es;
      LeavesBelow(es[0].node, path + [es[0].name]);
      forall l | l in Leaves(es[0].node, path + [es[0].name]) ensures !(path + rel <= l.path) {
        OtherName(path, es[0].name, rel, l.path);
      }
      OtherEntries(es[1..], path, rel);
      assert es == [es[0]] + es[1..];
    }
  }

  lemma Shift(path: Path, rel: Path)
    requires rel != []
    ensures (path + [rel[0]]) + rel[1..] == path + rel
  {
  }

  /** A removal takes away exactly the files at and below its path. */
  lemma {:induction false} RemovesExactly(n: Node, path: Path, rel: Path)
    requires rel != [] && n.Dir? && UniqueNames(n)
    ensures Leaves(Remove(n, rel), path) == NotBelow(Leaves(n, path), path + rel)
    decreases n, 1
  {
    if n.readable { RemovesExactlyIn(n.entries, path, rel); }
  }

  lemma {:induction false} RemovesExactlyIn(es: seq<Named>, path: Path, rel: Path)
    requires rel != [] && NamedApart(es)
    ensures LeavesOf(RemoveIn(es, rel), path) == NotBelow(LeavesOf(es, path), path + rel)
    decreases es, 0
  {
    if es != [] {
      var e, others, p := es[0], es[1..], path + rel;
      var mine, rest := Leaves(e.node, path + [e.name]), LeavesOf(others, path);
      NotBelowAppend(mine, rest, p);
      LeavesBelow(e.node, path + [e.name]);
      if e.name != rel[0] {
        forall l | l in mine ensures !(p <= l.path) { OtherName(path, e.name, rel, l.path); }
        NoneBelow(mine, p);
        RemovesExactlyIn(others, path, rel);
        assert ([e] + RemoveIn(others, rel))[1..] == RemoveIn(others, rel);
      } else {
        OtherEntries(others, path, rel);
        NoneBelow(rest, p);
        Shift(path, rel);
        if |rel| == 1 {
          assert path + rel == path + [e.name];
          AllBelow(mine, p);
        } else {
          MineRemoved(e, path, rel);
          var e' := e.(node := Remove(e.node, rel[1..]));
          assert ([e'] + others)[1..] == others;
        }
      }
    }
  }

  lemma {:induction false} MineRemoved(e: Named, path: Path, rel: Path)
    requires |rel| > 1 && e.name == rel[0] && UniqueNames(e.node)
    ensures Leaves(Remove(e.node, rel[1..]), path + [e.name]) == NotBelow(Leaves(e.node, path + [e.name]), path + rel)
    decreases e, 0
  {
    Shift(path, rel);
    if e.node.Dir? {
      RemovesExactly(e.node, path + [e.name], rel[1..]);
    } else {
      forall l | l in Leaves(e.node, path + [e.name])
        ensures !(path + rel <= l.path)
      {
        assert l.path == path + [e.name];
      }
      NoneBelow(Leaves(e.node, path + [e.name]), path + rel);
    }
  }

  // ---- Scanning again -------------------------------------------------------

  function Without(rs: seq<Reclaimable>, p: Path): seq<Reclaimable>
  {
    if rs == [] then [] else (if rs[0].path == p then [] else [rs[0]]) + Without(rs[1..], p)
  }

  lemma {:induction false} WithoutAppend(a: seq<Reclaimable>, b: seq<Reclaimable>, p: Path)
    ensures Without(a + b, p) == Without(a, p) + Without(b, p)
    decreases |a|
  {
    if a == [] {
      assert a + b == b;
    } else {
      assert (a + b)[1..] == a[1..] + b;
      WithoutAppend(a[1..], b, p);
    }
  }

  lemma {:induction false} WithoutNone(rs: seq<Reclaimable>, p: Path)
    requires forall r <- rs :: r.path != p
    ensures Without(rs, p) == rs
    decreases |rs|
  {
    if rs != [] {
      assert rs[0] in rs;
      WithoutNone(rs[1..], p);
      assert rs == [rs[0]] + rs[1..];
    }
  }

  /** A scan less one reclaimable entry. */
  ghost predicate Less(after: Found, before: Found, r: Reclaimable)
  {
    && before.size == after.size + r.size
    && after.lastMod == before.lastMod
    && after.reclaimable == Without(before.reclaimable, r.path)
  }

  lemma LessLeft(after: Found, a: Found, b: Found, r: Reclaimable)
    requires Less(after, a, r) && forall q <- b.reclaimable :: q.path != r.path
    ensures Less(Both(after, b), Both(a, b), r)
  {
    WithoutAppend(a.reclaimable, b.reclaimable, r.path);
    WithoutNone(b.reclaimable, r.path);
  }

  lemma LessRight(a: Found, after: Found, b: Found, r: Reclaimable)
    requires Less(after, b, r) && forall q <- a.reclaimable :: q.path != r.path
    ensures Less(Both(a, after), Both(a, b), r)
  {
    WithoutAppend(a.reclaimable, b.reclaimable, r.path);
    WithoutNone(a.reclaimable, r.path);
  }

  lemma ApartParts(a: seq<Reclaimable>, b: seq<Reclaimable>)
    requires PairwiseApart(a + b)
    ensures forall r <- a, q <- b :: r.path != q.path
  {
    forall r, q | r in a && q in b ensures r.path != q.path {
      var i :| 0 <= i < |a| && a[i] == r;
      var j :| 0 <= j < |b| && b[j] == q;
      assert (a + b)[i] == r && (a + b)[|a| + j] == q;
      assert Apart((a + b)[i].path, (a + b)[|a| + j].path);
    }
  }

  lemma FromRoot(r: Reclaimable, path: Path, name: string)
    requires path + [name] <= r.path
    ensures var rel := r.path[|path|..];
            rel != [] && rel[0] == name && rel[1..] == r.path[|path| + 1..] && r.path == path + rel
  {
  }

  lemma {:induction false} EntriesRescanned(es: seq<Named>, path: Path, r: Reclaimable, patterns: set<string>)
    requires NamedApart(es) && r in ScanEntries(es, path, patterns).reclaimable && path < r.path
    ensures Less(ScanEntries(RemoveIn(es, r.path[|path|..]), path, patterns), ScanEntries(es, path, patterns), r)
    decreases es, 0
  {
    var e, others, rel := es[0], es[1..], r.path[|path|..];
    var a, b := ScanEntry(e, path, patterns), ScanEntries(others, path, patterns);
    EntriesApart(es, path, patterns);
    ApartParts(a.reclaimable, b.reclaimable);
    SplitPath(path, e.name, r.path);
    if r in a.reclaimable {
      EntryBelow(e, path, patterns);
      FromRoot(r, path, e.name);
      if e.name in patterns {
        assert r.path == path + [e.name] && |rel| == 1;
        WithoutNone(b.reclaimable, r.path);
        assert a.reclaimable[1..] == [];
        WithoutAppend(a.reclaimable, b.reclaimable, r.path);
      } else {
        var here := path + [e.name];
        TreeRescanned(e.node, here, r, patterns);
        var e' := e.(node := Remove(e.node, rel[1..]));
        assert rel[1..] == r.path[|here|..];
        assert ([e'] + others)[1..] == others;
        LessLeft(ScanEntry(e', path, patterns), a, b, r);
      }
    } else {
      EntriesBelow(others, path, patterns);
      var o :| o in others && path + [o.name] <= r.path;
      SplitPath(path, o.name, r.path);
      EntriesRescanned(others, path, r, patterns);
      assert ([e] + RemoveIn(others, rel))[1..] == RemoveIn(others, rel);
      LessRight(a, ScanEntries(RemoveIn(others, rel), path, patterns), b, r);
    }
  }

  /**
   After deleting a reclaimable directory a new scan is the old one without that entry:
   the total is lower by exactly its size, every other entry and the newest file's time
   are as before.
   */
  lemma {:induction false} TreeRescanned(d: Node, path: Path, r: Reclaimable, patterns: set<string>)
    requires UniqueNames(d) && r in ScanTree(d, path, patterns).reclaimable
    ensures path < r.path
    ensures Less(ScanTree(Remove(d, r.path[|path|..]), path, patterns), ScanTree(d, path, patterns), r)
    decreases d, 1
  {
    EntriesBelow(d.entries, path, patterns);
    EntriesRescanned(d.entries, path, r, patterns);
  }

  lemma WithoutMiddle(a: seq<Reclaimable>, r: Reclaimable, b: seq<Reclaimable>)
    requires (forall q <- a :: q.path != r.path) && (forall q <- b :: q.path != r.path)
    ensures Without(a + ([r] + b), r.path) == a + b
    ensures SumSizes(a + b) + r.size == SumSizes(a + ([r] + b))
  {
    WithoutAppend(a, [r] + b, r.path);
    WithoutNone(a, r.path);
    WithoutNone(b, r.path);
    assert ([r] + b)[1..] == b;
    assert [] + b == b;
    SumAppend(a, [r] + b);
    SumAppend(a, b);
  }

  lemma OthersApart(rs: seq<Reclaimable>, i: nat)
    requires PairwiseApart(rs) && i < |rs|
    ensures forall j :: 0 <= j < |rs| && j != i ==> rs[j].path != rs[i].path
    ensures rs == rs[..i] + ([rs[i]] + rs[i + 1..])
  {
    forall j | 0 <= j < |rs| && j != i ensures rs[j].path != rs[i].path {
      if j < i { assert Apart(rs[j].path, rs[i].path); } else { assert Apart(rs[i].path, rs[j].path); }
    }
  }

  /** Of entries that are apart exactly one goes, and the sum falls by its size. */
  lemma WithoutOne(rs: seq<Reclaimable>, i: nat)
    requires PairwiseApart(rs) && i < |rs|
    ensures Without(rs, rs[i].path) == rs[..i] + rs[i + 1..]
    ensures SumSizes(Without(rs, rs[i].path)) + rs[i].size == SumSizes(rs)
  {
    OthersApart(rs, i);
    WithoutMiddle(rs[..i], rs[i], rs[i + 1..]);
  }
}
