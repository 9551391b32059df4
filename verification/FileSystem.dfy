/**
 A file system as a map from absolute paths to what is there, and path resolution as the
 operating system does it: component by component, following symbolic links.
 */
module FileSystem {
  import opened Wrappers

  type Name = string
  type Path = seq<Name>  // absolute; [] is "/"

  /** A link's target text, split at slashes: it may hold "", "." and "..". */
  datatype Node =
    | File(content: seq<char>, mode: nat)
    | Dir(mode: nat)
    | Link(absolute: bool, target: seq<Name>)

  type FS = map<Path, Node>

  datatype Errno = ENOENT | ENOTDIR | ELOOP

  predicate IsDir(fs: FS, p: Path)
  {
    p in fs && fs[p].Dir?
  }

  predicate IsLink(fs: FS, p: Path)
  {
    p in fs && fs[p].Link?
  }

  function Parent(p: Path): Path
  {
    if p == [] then [] else p[..|p| - 1]
  }

  /** Special names of a path's text: they name no directory entry. */
  predicate Ordinary(c: Name)
  {
    c != "" && c != "." && c != ".."
  }

  ghost predicate AllOrdinary(parts: seq<Name>)
  {
    forall i :: 0 <= i < |parts| ==> Ordinary(parts[i])
  }

  /** The root is a directory, all names are ordinary, and whatever exists lies in one. */
  ghost predicate WellFormed(fs: FS)
  {
    && IsDir(fs, [])
    && (forall p {:trigger Parent(p)} :: p in fs ==> IsDir(fs, Parent(p)))
    && (forall p {:trigger AllOrdinary(p)} :: p in fs ==> AllOrdinary(p))
  }

  /**
   Resolves parts starting at cur, following at most `links` links; the last component
   only if `followLast`.
   */
  function Walk(fs: FS, cur: Path, parts: seq<Name>, links: nat, followLast: bool): Result<Path, Errno>
    decreases links, |parts|
  {
    if parts == [] then Ok(cur)
    else if !IsDir(fs, cur) then Err(ENOTDIR)
    else
      var c, rest := parts[0], parts[1..];
      if c == "" || c == "." then Walk(fs, cur, rest, links, followLast)
      else if c == ".." then Walk(fs, Parent(cur), rest, links, followLast)
      else
        var next := cur + [c];
        if next !in fs then Err(ENOENT)
        else if fs[next].Link? && (rest != [] || followLast) then
          if links == 0 then Err(ELOOP)
          else Walk(fs, if fs[next].absolute then [] else cur, fs[next].target + rest, links - 1, followLast)
        else Walk(fs, next, rest, links, followLast)
  }

  /** p and every prefix of it exists and none is a link: p is its own resolution. */
  ghost predicate Plain(fs: FS, p: Path)
    decreases |p|
  {
    p in fs && !fs[p].Link? && (p != [] ==> Plain(fs, Parent(p)))
  }

  lemma {:induction false} PrefixesExist(fs: FS, p: Path, i: nat)
    requires WellFormed(fs) && p in fs && i <= |p|
    ensures p[..i] in fs && (i < |p| ==> fs[p[..i]].Dir?)
    decreases |p|
  {
    if i < |p| {
      PrefixesExist(fs, Parent(p), i);
      assert Parent(p)[..i] == p[..i];
      assert i == |Parent(p)| ==> p[..i] == Parent(p);
    } else {
      assert p[..i] == p;
    }
  }

  lemma PlainStep(fs: FS, p: Path, c: Name)
    requires Plain(fs, p) && p + [c] in fs && !fs[p + [c]].Link?
    ensures Plain(fs, p + [c])
  {
    assert Parent(p + [c]) == p;
  }

  lemma {:induction false} PlainPrefix(fs: FS, p: Path, n: nat)
    requires Plain(fs, p) && n <= |p|
    ensures Plain(fs, p[..n])
    decreases |p|
  {
    if n == |p| {
      assert p[..n] == p;
    } else {
      PlainPrefix(fs, Parent(p), n);
      assert Parent(p)[..n] == p[..n];
    }
  }

  /** Resolution that follows its last component ends at a link-free path. */
  lemma {:induction false} WalkIsPlain(fs: FS, cur: Path, parts: seq<Name>, links: nat)
    requires WellFormed(fs) && Plain(fs, cur) && Walk(fs, cur, parts, links, true).Ok?
    ensures Plain(fs, Walk(fs, cur, parts, links, true).value)
    decreases links, |parts|
  {
    if parts != [] {
      var c, rest := parts[0], parts[1..];
      if c == "" || c == "." {
        WalkIsPlain(fs, cur, rest, links);
      } else if c == ".." {
        assert Plain(fs, Parent(cur));
        WalkIsPlain(fs, Parent(cur), rest, links);
      } else {
        var next := cur + [c];
        if fs[next].Link? {
          WalkIsPlain(fs, if fs[next].absolute then [] else cur, fs[next].target + rest, links - 1);
        } else {
          PlainStep(fs, cur, c);
          WalkIsPlain(fs, next, rest, links);
        }
      }
    }
  }

  /** A limit on links can make resolution fail, but never lead elsewhere. */
  lemma {:induction false} WalkMoreLinks(fs: FS, cur: Path, parts: seq<Name>, links: nat, more: nat, followLast: bool)
    requires Walk(fs, cur, parts, links, followLast).Ok? && links <= more
    ensures Walk(fs, cur, parts, more, followLast) == Walk(fs, cur, parts, links, followLast)
    decreases links, |parts|
  {
    if parts != [] {
      var c, rest := parts[0], parts[1..];
      if c == "" || c == "." {
        WalkMoreLinks(fs, cur, rest, links, more, followLast);
      } else if c == ".." {
        WalkMoreLinks(fs, Parent(cur), rest, links, more, followLast);
      } else {
        var next := cur + [c];
        if fs[next].Link? && (rest != [] || followLast) {
          var from := if fs[next].absolute then [] else cur;
          WalkMoreLinks(fs, from, fs[next].target + rest, links - 1, more - 1, followLast);
        } else {
          WalkMoreLinks(fs, next, rest, links, more, followLast);
        }
      }
    }
  }

  lemma WalkUnique(fs: FS, cur: Path, parts: seq<Name>, m: nat, n: nat, followLast: bool)
    requires Walk(fs, cur, parts, m, followLast).Ok? && Walk(fs, cur, parts, n, followLast).Ok?
    ensures Walk(fs, cur, parts, m, followLast) == Walk(fs, cur, parts, n, followLast)
  {
    if m <= n {
      WalkMoreLinks(fs, cur, parts, m, n, followLast);
    } else {
      WalkMoreLinks(fs, cur, parts, n, m, followLast);
    }
  }

  /** Resolving a path is resolving its front and then, from there, the rest. */
  lemma {:induction false} WalkFront(fs: FS, cur: Path, a: seq<Name>, b: seq<Name>, links: nat, followLast: bool)
    requires b != [] && Walk(fs, cur, a + b, links, followLast).Ok?
    ensures var mid := Walk(fs, cur, a, links, true);
            && mid.Ok?
            && exists left: nat :: left <= links && Walk(fs, mid.value, b, left, followLast)
                                                   == Walk(fs, cur, a + b, links, followLast)
    decreases links, |a|
  {
    if a == [] {
      assert a + b == b;
    } else {
      assert (a + b)[1..] == a[1..] + b;
      var c, rest := a[0], a[1..];
      if c == "" || c == "." {
        WalkFront(fs, cur, rest, b, links, followLast);
      } else if c == ".." {
        WalkFront(fs, Parent(cur), rest, b, links, followLast);
      } else {
        var next := cur + [c];
        if fs[next].Link? {
          var from := if fs[next].absolute then [] else cur;
          assert fs[next].target + (rest + b) == (fs[next].target + rest) + b;
          WalkFront(fs, from, fs[next].target + rest, b, links - 1, followLast);
        } else {
          WalkFront(fs, next, rest, b, links, followLast);
        }
      }
    }
  }

  /** And the other way round. */
  lemma {:induction false} WalkJoined(fs: FS, cur: Path, a: seq<Name>, b: seq<Name>, m: nat, n: nat, followLast: bool)
    requires b != [] && Walk(fs, cur, a, m, true).Ok?
    requires Walk(fs, Walk(fs, cur, a, m, true).value, b, n, followLast).Ok?
    ensures Walk(fs, cur, a + b, m + n, followLast) == Walk(fs, Walk(fs, cur, a, m, true).value, b, n, followLast)
    decreases m, |a|
  {
    if a == [] {
      assert a + b == b;
      WalkMoreLinks(fs, cur, b, n, m + n, followLast);
    } else {
      assert (a + b)[1..] == a[1..] + b;
      var c, rest := a[0], a[1..];
      if c == "" || c == "." {
        WalkJoined(fs, cur, rest, b, m, n, followLast);
      } else if c == ".." {
        WalkJoined(fs, Parent(cur), rest, b, m, n, followLast);
      } else {
        var next := cur + [c];
        if fs[next].Link? {
          var from := if fs[next].absolute then [] else cur;
          assert fs[next].target + (rest + b) == (fs[next].target + rest) + b;
          WalkJoined(fs, from, fs[next].target + rest, b, m - 1, n, followLast);
        } else {
          WalkJoined(fs, next, rest, b, m, n, followLast);
        }
      }
    }
  }

  /** Walking along a link-free path arrives there, whatever the limit, and goes on from there. */
  lemma {:induction false} PlainWalk(fs: FS, p: Path, i: nat, more: seq<Name>, links: nat, followLast: bool)
    requires WellFormed(fs) && Plain(fs, p) && i <= |p|
    ensures Walk(fs, p[..i], p[i..] + more, links, followLast) == Walk(fs, p, more, links, followLast)
    decreases |p| - i
  {
    if i == |p| {
      assert p[..i] == p && p[i..] + more == more;
    } else {
      PrefixesExist(fs, p, i);
      PlainPrefix(fs, p, i + 1);
      var next := p[..i + 1];
      assert AllOrdinary(p) && Ordinary(p[i]);
      assert next == p[..i] + [p[i]];
      assert p[i..] + more == [p[i]] + (p[i + 1..] + more);
      PlainWalk(fs, p, i + 1, more, links, followLast);
    }
  }
}
