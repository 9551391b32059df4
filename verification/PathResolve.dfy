/**
 Confining a request's path to the file manager's root
 (webmanager/backend/internal/files/path.go): the path is cleaned lexically, checked
 against the root, and then walked component by component so that no symbolic link leads
 out. The result is compared with `FileSystem.Walk`, resolution as the operating system
 does it.
 */
module PathResolve {
  import opened Wrappers
  import opened FileSystem

  datatype PathError = InvalidPath | RootPath

  const EVAL_LINKS: nat := 255    // links filepath.EvalSymlinks follows at most
  const KERNEL_LINKS: nat := 40

  function EvalSymlinks(fs: FS, p: seq<Name>): Result<Path, Errno>
  {
    Walk(fs, [], p, EVAL_LINKS, true)
  }

  function Lstat(fs: FS, p: Path): Result<Node, Errno>
  {
    match Walk(fs, [], p, KERNEL_LINKS, false)
    case Err(e) => Err(e)
    case Ok(q) => if q in fs then Ok(fs[q]) else Err(ENOENT)
  }

  // ---- Lexical half ---------------------------------------------------------

  /** filepath.Clean of an absolute path, given its components. */
  function CleanFrom(done: Path, raw: seq<Name>): Path
    decreases |raw|
  {
    if raw == [] then done
    else if raw[0] == "" || raw[0] == "." then CleanFrom(done, raw[1..])
    else if raw[0] == ".." then CleanFrom(Parent(done), raw[1..])
    else CleanFrom(done + [raw[0]], raw[1..])
  }

  function Clean(raw: seq<Name>): Path
  {
    CleanFrom([], raw)
  }

  lemma {:induction false} CleanIsOrdinary(done: Path, raw: seq<Name>)
    requires AllOrdinary(done)
    ensures AllOrdinary(CleanFrom(done, raw))
    decreases |raw|
  {
    if raw != [] {
      if raw[0] == "" || raw[0] == "." {
        CleanIsOrdinary(done, raw[1..]);
      } else if raw[0] == ".." {
        CleanIsOrdinary(Parent(done), raw[1..]);
      } else {
        CleanIsOrdinary(done + [raw[0]], raw[1..]);
      }
    }
  }

  /** filepath.Rel of two cleaned absolute paths; [] stands for ".". */
  function Rel(base: Path, p: Path): seq<Name>
  {
    if base != [] && p != [] && base[0] == p[0] then Rel(base[1..], p[1..])
    else seq(|base|, _ => "..") + p
  }

  predicate Within(base: Path, p: Path)
  {
    var rel := Rel(base, p);
    rel == [] || rel[0] != ".."
  }

  /** The check respects component boundaries: it is exactly the prefix relation on components. */
  lemma {:induction false} WithinIffPrefix(base: Path, p: Path)
    requires AllOrdinary(p)
    ensures Within(base, p) <==> base <= p
    ensures base <= p ==> Rel(base, p) == p[|base|..]
    decreases |base|
  {
    if base != [] && p != [] && base[0] == p[0] {
      assert AllOrdinary(p[1..]) by {
        forall i | 0 <= i < |p[1..]| ensures Ordinary(p[1..][i]) { assert p[1..][i] == p[i + 1]; }
      }
      WithinIffPrefix(base[1..], p[1..]);
      assert base == [base[0]] + base[1..] && p == [p[0]] + p[1..];
    } else if base == [] {
      assert Rel(base, p) == p;
      assert p != [] ==> Ordinary(p[0]);
    }
  }

  datatype UserPath = UserPath(absolute: bool, raw: seq<Name>)  // an empty string is not absolute and has raw == [""]

  /** The lexical half: cleaned, absolute, and under the root in either spelling. */
  function ResolvePath(fs: FS, root: seq<Name>, user: UserPath): Result<Path, PathError>
  {
    var p := if user == UserPath(false, [""]) then UserPath(true, root) else user;
    if !p.absolute then Err(InvalidPath)
    else
      var cleaned := Clean(p.raw);
      if Within(Clean(root), cleaned) then Ok(cleaned)
      else
        var realRoot := EvalSymlinks(fs, root);
        if realRoot.Ok? && Within(realRoot.value, cleaned) then Ok(cleaned) else Err(InvalidPath)
  }

  /** The real root, and cleaned's components below it under whichever spelling fits first. */
  method SplitUnderRoot(fs: FS, root: seq<Name>, cleaned: Path) returns (r: Result<(Path, seq<Name>), PathError>)
    requires AllOrdinary(cleaned)
    ensures var realRoot := EvalSymlinks(fs, root);
            r == if realRoot.Err? then Err(InvalidPath)
                 else if realRoot.value <= cleaned then Ok((realRoot.value, cleaned[|realRoot.value|..]))
                 else if Clean(root) <= cleaned then Ok((realRoot.value, cleaned[|Clean(root)|..]))
                 else Err(InvalidPath)
  {
    var realRoot := EvalSymlinks(fs, root);
    if realRoot.Err? {
      return Err(InvalidPath);
    }
    var bases := [realRoot.value, Clean(root)];
    for i := 0 to 2
      invariant forall j :: 0 <= j < i ==> !(bases[j] <= cleaned)
    {
      var base := bases[i];
      var rel := Rel(base, cleaned);
      WithinIffPrefix(base, cleaned);
      assert (rel != [] && rel[0] == "..") <==> !(base <= cleaned);
      if rel != [] && rel[0] == ".." {
        continue;
      }
      return Ok((realRoot.value, rel));
    }
    assert !(bases[0] <= cleaned) && !(bases[1] <= cleaned);
    return Err(InvalidPath);
  }

  // ---- The walk -------------------------------------------------------------

  /** What the loop of resolveLinks does from `cur` on. */
  function Follow(fs: FS, root: Path, cur: Path, parts: seq<Name>, followLeaf: bool): Result<Path, PathError>
    decreases |parts|
  {
    if parts == [] then Ok(cur)
    else
      var next, rest := cur + [parts[0]], parts[1..];
      if rest == [] && !followLeaf then Ok(next)
      else match Lstat(fs, next)
        case Err(ENOENT) => Ok(next + rest)
        case Err(_) => Err(InvalidPath)
        case Ok(node) =>
          if !node.Link? then Follow(fs, root, next, rest, followLeaf)
          else match EvalSymlinks(fs, next)
            case Err(_) => Err(InvalidPath)
            case Ok(target) =>
              if !Within(root, target) then Err(InvalidPath) else Follow(fs, root, target, rest, followLeaf)
  }

  function Confined(fs: FS, root: Path, parts: seq<Name>, followLeaf: bool): Result<Path, PathError>
  {
    var r := Follow(fs, root, root, parts, followLeaf);
    if r.Ok? && !Within(root, r.value) then Err(InvalidPath) else r
  }

  function Resolved(fs: FS, root: seq<Name>, cleaned: Path, followLeaf: bool): Result<Path, PathError>
  {
    var realRoot := EvalSymlinks(fs, root);
    if realRoot.Err? then Err(InvalidPath)
    else if realRoot.value <= cleaned then Confined(fs, realRoot.value, cleaned[|realRoot.value|..], followLeaf)
    else if Clean(root) <= cleaned then Confined(fs, realRoot.value, cleaned[|Clean(root)|..], followLeaf)
    else Err(InvalidPath)
  }

  method ResolveLinks(fs: FS, root: seq<Name>, cleaned: Path, followLeaf: bool) returns (r: Result<Path, PathError>)
    requires AllOrdinary(cleaned)
    ensures r == Resolved(fs, root, cleaned, followLeaf)
  {
    var split := SplitUnderRoot(fs, root, cleaned);
    if split.Err? {
      return Err(split.error);
    }
    var (realRoot, parts) := split.value;
    var cur := realRoot;
    var i := 0;
    assert parts[0..] == parts;
    while i < |parts|
      invariant i <= |parts|
      invariant Follow(fs, realRoot, cur, parts[i..], followLeaf) == Follow(fs, realRoot, realRoot, parts, followLeaf)
    {
      var next := cur + [parts[i]];
      assert parts[i..][1..] == parts[i + 1..];
      if i == |parts| - 1 && !followLeaf {
        cur := next;
        i := |parts|;
        break;
      }
      var info := Lstat(fs, next);
      if info.Err? {
        if info.error == ENOENT {
          cur := next + parts[i + 1..];
          i := |parts|;
          break;
        }
        return Err(InvalidPath);
      }
      i := i + 1;
      if !info.value.Link? {
        cur := next;
        continue;
      }
      var target := EvalSymlinks(fs, next);
      if target.Err? {
        return Err(InvalidPath);
      }
      if !Within(realRoot, target.value) {
        return Err(InvalidPath);
      }
      cur := target.value;
    }
    if !Within(realRoot, cur) {
      return Err(InvalidPath);
    }
    return Ok(cur);
  }

  // ---- What it guarantees ---------------------------------------------------

  /** No existing proper prefix of p is a link; nor p itself, if `leaf`. */
  ghost predicate LinkFree(fs: FS, p: Path, leaf: bool)
  {
    forall i :: 0 <= i <= |p| && (i < |p| || leaf) ==> !IsLink(fs, p[..i])
  }

  lemma {:induction false} PlainIsLinkFree(fs: FS, p: Path)
    requires Plain(fs, p)
    ensures LinkFree(fs, p, true)
  {
    forall i | 0 <= i <= |p| ensures !IsLink(fs, p[..i]) { PlainPrefix(fs, p, i); }
  }

  lemma LinkFreeStep(fs: FS, p: Path, c: Name)
    requires Plain(fs, p)
    ensures LinkFree(fs, p + [c], false)
  {
    forall i | 0 <= i < |p| + 1 ensures !IsLink(fs, (p + [c])[..i]) {
      assert (p + [c])[..i] == p[..i];
      PlainPrefix(fs, p, i);
    }
  }

  /** Below something that does not exist nothing exists. */
  lemma MissingTailIsLinkFree(fs: FS, p: Path, c: Name, tail: seq<Name>)
    requires WellFormed(fs) && Plain(fs, p) && p + [c] !in fs
    ensures LinkFree(fs, p + [c] + tail, true)
  {
    var q := p + [c] + tail;
    forall i | 0 <= i <= |q| ensures !IsLink(fs, q[..i]) {
      if i <= |p| {
        assert q[..i] == p[..i];
        PlainPrefix(fs, p, i);
      } else {
        assert q[..i][..|p| + 1] == p + [c];
        NothingBelowMissing(fs, p + [c], q[..i]);
      }
    }
  }

  lemma NothingBelowMissing(fs: FS, p: Path, q: Path)
    requires WellFormed(fs) && p !in fs && |p| <= |q| && q[..|p|] == p
    ensures q !in fs
  {
    if q in fs {
      PrefixesExist(fs, q, |p|);
    }
  }

  /** lstat below a link-free path sees the entry itself. */
  lemma LstatBelowPlain(fs: FS, cur: Path, c: Name)
    requires WellFormed(fs) && Plain(fs, cur) && Ordinary(c)
    ensures Lstat(fs, cur + [c]) ==
            if !IsDir(fs, cur) then Err(ENOTDIR) else if cur + [c] !in fs then Err(ENOENT) else Ok(fs[cur + [c]])
  {
    PlainWalk(fs, cur, 0, [c], KERNEL_LINKS, false);
    assert cur[..0] == [] && cur[0..] == cur && [c][1..] == [];
  }

  lemma EvalBelowPlain(fs: FS, cur: Path, c: Name)
    requires WellFormed(fs) && Plain(fs, cur)
    ensures EvalSymlinks(fs, cur + [c]) == Walk(fs, cur, [c], EVAL_LINKS, true)
  {
    PlainWalk(fs, cur, 0, [c], EVAL_LINKS, true);
    assert cur[..0] == [] && cur[0..] == cur;
  }

  /** r is where the operating system, with any limit on links, arrives if it arrives at all. */
  ghost predicate AgreesWithOS(fs: FS, cur: Path, parts: seq<Name>, followLeaf: bool, r: Path)
  {
    forall n :: Walk(fs, cur, parts, n, followLeaf).Ok? ==> Walk(fs, cur, parts, n, followLeaf).value == r
  }

  lemma TailOrdinary(parts: seq<Name>)
    requires AllOrdinary(parts) && parts != []
    ensures AllOrdinary(parts[1..]) && Ordinary(parts[0])
  {
    forall i | 0 <= i < |parts[1..]| ensures Ordinary(parts[1..][i]) { assert parts[1..][i] == parts[i + 1]; }
  }

  /** Through a link: the operating system goes on from where the link's own resolution ends. */
  lemma ThroughLink(fs: FS, cur: Path, c: Name, rest: seq<Name>, followLeaf: bool, target: Path, r: Path)
    requires Walk(fs, cur, [c], EVAL_LINKS, true) == Ok(target)
    requires rest != [] || followLeaf
    requires rest == [] ==> r == target
    requires AgreesWithOS(fs, target, rest, followLeaf, r)
    ensures AgreesWithOS(fs, cur, [c] + rest, followLeaf, r)
  {
    forall n | Walk(fs, cur, [c] + rest, n, followLeaf).Ok?
      ensures Walk(fs, cur, [c] + rest, n, followLeaf).value == r
    {
      if rest == [] {
        assert [c] + rest == [c];
        WalkUnique(fs, cur, [c], n, EVAL_LINKS, true);
      } else {
        WalkFront(fs, cur, [c], rest, n, followLeaf);
        WalkUnique(fs, cur, [c], n, EVAL_LINKS, true);
      }
    }
  }

  /** Past an ordinary entry it goes on from the entry. */
  lemma PastEntry(fs: FS, cur: Path, c: Name, rest: seq<Name>, followLeaf: bool, r: Path)
    requires Ordinary(c) && IsDir(fs, cur) && cur + [c] in fs && !fs[cur + [c]].Link?
    requires AgreesWithOS(fs, cur + [c], rest, followLeaf, r)
    ensures AgreesWithOS(fs, cur, [c] + rest, followLeaf, r)
  {
    assert ([c] + rest)[1..] == rest;
    forall n | Walk(fs, cur, [c] + rest, n, followLeaf).Ok?
      ensures Walk(fs, cur, [c] + rest, n, followLeaf).value == r
    {
      assert Walk(fs, cur, [c] + rest, n, followLeaf) == Walk(fs, cur + [c], rest, n, followLeaf);
    }
  }

  lemma AtEntry(fs: FS, cur: Path, c: Name)
    requires Ordinary(c)
    ensures AgreesWithOS(fs, cur, [c], false, cur + [c])
  {
    assert [c][1..] == [];
    assert forall n :: Walk(fs, cur + [c], [], n, false) == Ok(cur + [c]);
  }

  lemma NothingThere(fs: FS, cur: Path, c: Name, rest: seq<Name>, followLeaf: bool, r: Path)
    requires Ordinary(c) && cur + [c] !in fs
    ensures AgreesWithOS(fs, cur, [c] + rest, followLeaf, r)
  {
  }

  /** One component of the walk, seen from a link-free directory. */
  function FollowOne(fs: FS, root: Path, cur: Path, c: Name, rest: seq<Name>, followLeaf: bool): Result<Path, PathError>
  {
    var next := cur + [c];
    if rest == [] && !followLeaf then Ok(next)
    else if !IsDir(fs, cur) then Err(InvalidPath)
    else if next !in fs then Ok(next + rest)
    else if !fs[next].Link? then Follow(fs, root, next, rest, followLeaf)
    else
      var target := Walk(fs, cur, [c], EVAL_LINKS, true);
      if target.Err? || !Within(root, target.value) then Err(InvalidPath)
      else Follow(fs, root, target.value, rest, followLeaf)
  }

  lemma FollowUnfolds(fs: FS, root: Path, cur: Path, c: Name, rest: seq<Name>, followLeaf: bool)
    requires WellFormed(fs) && Plain(fs, cur) && Ordinary(c)
    ensures Follow(fs, root, cur, [c] + rest, followLeaf) == FollowOne(fs, root, cur, c, rest, followLeaf)
  {
    assert ([c] + rest)[1..] == rest;
    LstatBelowPlain(fs, cur, c);
    EvalBelowPlain(fs, cur, c);
  }

  /**
   The first i components, resolved by the operating system with all links followed, and
   the others after them as they are: because the first of those is the last of all and not
   to be followed, or because nothing is there.
   */
  ghost predicate DenotesAt(fs: FS, cur: Path, parts: seq<Name>, followLeaf: bool, r: Path, i: nat, n: nat)
  {
    && i <= |parts| && Walk(fs, cur, parts[..i], n, true).Ok?
    && var front := Walk(fs, cur, parts[..i], n, true).value;
    && r == front + parts[i..]
    && (i < |parts| ==> (i == |parts| - 1 && !followLeaf) || front + [parts[i]] !in fs)
  }

  ghost predicate Denotes(fs: FS, cur: Path, parts: seq<Name>, followLeaf: bool, r: Path)
  {
    exists i: nat, n: nat :: DenotesAt(fs, cur, parts, followLeaf, r, i, n)
  }

  /** What the walk promises of its answer. */
  ghost predicate Held(fs: FS, root: Path, cur: Path, parts: seq<Name>, followLeaf: bool, r: Path)
  {
    && root <= r && LinkFree(fs, r, followLeaf)
    && AgreesWithOS(fs, cur, parts, followLeaf, r) && Denotes(fs, cur, parts, followLeaf, r)
  }

  /** Of nothing the path denotes where one is; of a tail kept as it is, that tail. */
  lemma DenotesTail(fs: FS, cur: Path, parts: seq<Name>, followLeaf: bool)
    requires parts == [] || (|parts| == 1 && !followLeaf) || cur + [parts[0]] !in fs
    ensures Denotes(fs, cur, parts, followLeaf, cur + parts)
  {
    assert parts[..0] == [] && parts[0..] == parts;
    assert DenotesAt(fs, cur, parts, followLeaf, cur + parts, 0, 0);
  }

  lemma TakeMore(c: Name, rest: seq<Name>, i: nat)
    requires i <= |rest|
    ensures ([c] + rest)[..i + 1] == [c] + rest[..i] && ([c] + rest)[i + 1..] == rest[i..]
  {
  }

  /** One component that resolves, and what the rest denotes from there. */
  lemma DenotesThrough(fs: FS, cur: Path, c: Name, rest: seq<Name>, followLeaf: bool, next: Path, m: nat, r: Path)
    requires Walk(fs, cur, [c], m, true) == Ok(next) && Denotes(fs, next, rest, followLeaf, r)
    ensures Denotes(fs, cur, [c] + rest, followLeaf, r)
  {
    var i: nat, n: nat :| DenotesAt(fs, next, rest, followLeaf, r, i, n);
    TakeMore(c, rest, i);
    if i == 0 {
      assert [c] + rest[..0] == [c] && rest[..0] == [];
      assert DenotesAt(fs, cur, [c] + rest, followLeaf, r, 1, m);
    } else {
      WalkJoined(fs, cur, [c], rest[..i], m, n, true);
      assert ([c] + rest)[i + 1..] == rest[i..];
      assert i < |rest| ==> ([c] + rest)[i + 1] == rest[i];
      assert DenotesAt(fs, cur, [c] + rest, followLeaf, r, i + 1, m + n);
    }
  }

  lemma HeldAtEntry(fs: FS, root: Path, cur: Path, c: Name)
    requires Plain(fs, cur) && root <= cur && Ordinary(c)
    ensures Held(fs, root, cur, [c], false, cur + [c])
  {
    LinkFreeStep(fs, cur, c);
    AtEntry(fs, cur, c);
    DenotesTail(fs, cur, [c], false);
  }

  lemma HeldMissing(fs: FS, root: Path, cur: Path, c: Name, rest: seq<Name>, followLeaf: bool)
    requires WellFormed(fs) && Plain(fs, cur) && root <= cur && Ordinary(c) && cur + [c] !in fs
    ensures Held(fs, root, cur, [c] + rest, followLeaf, cur + [c] + rest)
  {
    MissingTailIsLinkFree(fs, cur, c, rest);
    NothingThere(fs, cur, c, rest, followLeaf, cur + [c] + rest);
    DenotesTail(fs, cur, [c] + rest, followLeaf);
    assert cur + ([c] + rest) == cur + [c] + rest;
  }

  lemma EntryResolves(fs: FS, cur: Path, c: Name)
    requires Ordinary(c) && IsDir(fs, cur) && cur + [c] in fs && !fs[cur + [c]].Link?
    ensures Walk(fs, cur, [c], 0, true) == Ok(cur + [c])
  {
    assert [c][1..] == [];
  }

  lemma {:induction false} FollowIsConfined(fs: FS, root: Path, cur: Path, parts: seq<Name>, followLeaf: bool)
    requires WellFormed(fs) && Plain(fs, cur) && root <= cur && AllOrdinary(parts)
    requires Follow(fs, root, cur, parts, followLeaf).Ok?
    ensures Held(fs, root, cur, parts, followLeaf, Follow(fs, root, cur, parts, followLeaf).value)
    decreases |parts|
  {
    if parts == [] {
      PlainIsLinkFree(fs, cur);
      DenotesTail(fs, cur, parts, followLeaf);
      assert cur + parts == cur;
    } else {
      TailOrdinary(parts);
      var c, rest := parts[0], parts[1..];
      assert parts == [c] + rest;
      FollowUnfolds(fs, root, cur, c, rest, followLeaf);
      OneIsConfined(fs, root, cur, c, rest, followLeaf);
    }
  }

  lemma {:induction false} OneIsConfined(fs: FS, root: Path, cur: Path, c: Name, rest: seq<Name>, followLeaf: bool)
    requires WellFormed(fs) && Plain(fs, cur) && root <= cur && Ordinary(c) && AllOrdinary(rest)
    requires FollowOne(fs, root, cur, c, rest, followLeaf).Ok?
    ensures Held(fs, root, cur, [c] + rest, followLeaf, FollowOne(fs, root, cur, c, rest, followLeaf).value)
    decreases |rest| + 1, 0
  {
    var next := cur + [c];
    if rest == [] && !followLeaf {
      HeldAtEntry(fs, root, cur, c);
      assert [c] + rest == [c];
    } else if next !in fs {
      HeldMissing(fs, root, cur, c, rest, followLeaf);
    } else if !fs[next].Link? {
      PlainStep(fs, cur, c);
      FollowIsConfined(fs, root, next, rest, followLeaf);
      var r := Follow(fs, root, next, rest, followLeaf).value;
      PastEntry(fs, cur, c, rest, followLeaf, r);
      EntryResolves(fs, cur, c);
      DenotesThrough(fs, cur, c, rest, followLeaf, next, 0, r);
    } else {
      WalkIsPlain(fs, cur, [c], EVAL_LINKS);
      var target := Walk(fs, cur, [c], EVAL_LINKS, true).value;
      WithinIffPrefix(root, target);
      FollowIsConfined(fs, root, target, rest, followLeaf);
      var r := Follow(fs, root, target, rest, followLeaf).value;
      ThroughLink(fs, cur, c, rest, followLeaf, target, r);
      DenotesThrough(fs, cur, c, rest, followLeaf, target, EVAL_LINKS, r);
    }
  }

  lemma {:induction false} FollowIsOrdinary(fs: FS, root: Path, cur: Path, parts: seq<Name>, followLeaf: bool)
    requires WellFormed(fs) && Plain(fs, cur) && AllOrdinary(cur) && AllOrdinary(parts)
    requires Follow(fs, root, cur, parts, followLeaf).Ok?
    ensures AllOrdinary(Follow(fs, root, cur, parts, followLeaf).value)
    decreases |parts|
  {
    if parts != [] {
      TailOrdinary(parts);
      var next := cur + [parts[0]];
      LstatBelowPlain(fs, cur, parts[0]);
      if next in fs && !(parts[1..] == [] && !followLeaf) {
        if fs[next].Link? {
          EvalBelowPlain(fs, cur, parts[0]);
          WalkIsPlain(fs, cur, [parts[0]], EVAL_LINKS);
          FollowIsOrdinary(fs, root, EvalSymlinks(fs, next).value, parts[1..], followLeaf);
        } else {
          PlainStep(fs, cur, parts[0]);
          FollowIsOrdinary(fs, root, next, parts[1..], followLeaf);
        }
      }
    }
  }

  /** The front of the path, resolved as the operating system does, lies outside the root. */
  ghost predicate Escapes(fs: FS, root: Path, cur: Path, front: seq<Name>)
  {
    exists n :: Walk(fs, cur, front, n, true).Ok? && !(root <= Walk(fs, cur, front, n, true).value)
  }

  /** If any front of the path, read through its links, leads out of the root, the path is rejected. */
  lemma {:induction false} EscapeIsRejected(fs: FS, root: Path, cur: Path, parts: seq<Name>, followLeaf: bool, i: nat)
    requires WellFormed(fs) && Plain(fs, cur) && root <= cur && AllOrdinary(parts)
    requires i < |parts| || (i == |parts| && followLeaf)
    requires Escapes(fs, root, cur, parts[..i])
    ensures Follow(fs, root, cur, parts, followLeaf).Err?
    decreases |parts|
  {
    var front := parts[..i];
    var n :| Walk(fs, cur, front, n, true).Ok? && !(root <= Walk(fs, cur, front, n, true).value);
    if i > 0 {
      TailOrdinary(parts);
      var c, rest := parts[0], parts[1..];
      var next := cur + [c];
      assert front == [c] + rest[..i - 1];
      LstatBelowPlain(fs, cur, c);
      if !fs[next].Link? {
        PlainStep(fs, cur, c);
        EscapesPastEntry(fs, root, cur, c, rest[..i - 1], n);
        EscapeIsRejected(fs, root, next, rest, followLeaf, i - 1);
      } else {
        EvalBelowPlain(fs, cur, c);
        if EvalSymlinks(fs, next).Ok? {
          WalkIsPlain(fs, cur, [c], EVAL_LINKS);
          var target := EvalSymlinks(fs, next).value;
          WithinIffPrefix(root, target);
          if root <= target {
            EscapesFromTarget(fs, root, cur, c, rest[..i - 1], target, n);
            EscapeIsRejected(fs, root, target, rest, followLeaf, i - 1);
          }
        }
      }
    }
  }

  lemma EscapesPastEntry(fs: FS, root: Path, cur: Path, c: Name, rest: seq<Name>, n: nat)
    requires Ordinary(c) && cur + [c] in fs && !fs[cur + [c]].Link?
    requires Walk(fs, cur, [c] + rest, n, true).Ok? && !(root <= Walk(fs, cur, [c] + rest, n, true).value)
    ensures Escapes(fs, root, cur + [c], rest)
  {
    assert ([c] + rest)[1..] == rest;
    assert Walk(fs, cur + [c], rest, n, true) == Walk(fs, cur, [c] + rest, n, true);
  }

  lemma EscapesFromTarget(fs: FS, root: Path, cur: Path, c: Name, rest: seq<Name>, target: Path, n: nat)
    requires Walk(fs, cur, [c], EVAL_LINKS, true) == Ok(target) && root <= target
    requires Walk(fs, cur, [c] + rest, n, true).Ok? && !(root <= Walk(fs, cur, [c] + rest, n, true).value)
    ensures Escapes(fs, root, target, rest)
  {
    if rest == [] {
      assert [c] + rest == [c];
      WalkUnique(fs, cur, [c], n, EVAL_LINKS, true);
    } else {
      WalkFront(fs, cur, [c], rest, n, true);
      WalkUnique(fs, cur, [c], n, EVAL_LINKS, true);
    }
  }

  // ---- Exactly what is rejected ---------------------------------------------

  /**
   At p, which is free of links, the component c cannot be walked: p is no directory, or c
   is a link there that dangles, loops or leads out of the root.
   */
  ghost predicate Blocks(fs: FS, root: Path, p: Path, c: Name)
  {
    || !IsDir(fs, p)
    || (IsLink(fs, p + [c])
        && var target := Walk(fs, p, [c], EVAL_LINKS, true);
           target.Err? || !(root <= target.value))
  }

  /**
   The operating system, with a limit of n links, gets through the first i components to a
   place where the next blocks.
   */
  ghost predicate BlockedAt(fs: FS, root: Path, cur: Path, parts: seq<Name>, followLeaf: bool, i: nat, n: nat)
  {
    && (i + 1 < |parts| || (i + 1 == |parts| && followLeaf))
    && Walk(fs, cur, parts[..i], n, true).Ok?
    && Blocks(fs, root, Walk(fs, cur, parts[..i], n, true).value, parts[i])
  }

  lemma FirstBlocks(fs: FS, root: Path, cur: Path, c: Name, rest: seq<Name>, followLeaf: bool)
    requires WellFormed(fs) && Plain(fs, cur) && Ordinary(c) && (rest != [] || followLeaf)
    requires Blocks(fs, root, cur, c)
    ensures Follow(fs, root, cur, [c] + rest, followLeaf).Err?
  {
    FollowUnfolds(fs, root, cur, c, rest, followLeaf);
    LinkStaysIn(fs, root, cur, c);
  }

  /** Within, of where a link leads, is being under the root. */
  lemma LinkStaysIn(fs: FS, root: Path, cur: Path, c: Name)
    requires WellFormed(fs) && Plain(fs, cur)
    ensures var target := Walk(fs, cur, [c], EVAL_LINKS, true);
            target.Ok? ==> Plain(fs, target.value) && (Within(root, target.value) <==> root <= target.value)
  {
    var target := Walk(fs, cur, [c], EVAL_LINKS, true);
    if target.Ok? {
      WalkIsPlain(fs, cur, [c], EVAL_LINKS);
      WithinIffPrefix(root, target.value);
    }
  }

  /** Past a component that is no link, or through one: what blocks later blocks from there. */
  lemma BlockedPast(fs: FS, root: Path, cur: Path, c: Name, rest: seq<Name>, followLeaf: bool, i: nat, n: nat)
    returns (m: nat)
    requires Ordinary(c) && i > 0 && BlockedAt(fs, root, cur, [c] + rest, followLeaf, i, n)
    ensures IsDir(fs, cur) && cur + [c] in fs
    ensures !fs[cur + [c]].Link? ==> BlockedAt(fs, root, cur + [c], rest, followLeaf, i - 1, m)
    ensures fs[cur + [c]].Link? ==>
              var target := Walk(fs, cur, [c], EVAL_LINKS, true);
              target.Ok? ==> BlockedAt(fs, root, target.value, rest, followLeaf, i - 1, m)
  {
    var front := rest[..i - 1];
    assert ([c] + rest)[..i] == [c] + front && ([c] + front)[1..] == front && ([c] + rest)[i] == rest[i - 1];
    m := n;
    if fs[cur + [c]].Link? && Walk(fs, cur, [c], EVAL_LINKS, true).Ok? {
      if front == [] {
        assert [c] + front == [c];
        WalkUnique(fs, cur, [c], n, EVAL_LINKS, true);
      } else {
        WalkFront(fs, cur, [c], front, n, true);
        WalkUnique(fs, cur, [c], n, EVAL_LINKS, true);
        var target := Walk(fs, cur, [c], EVAL_LINKS, true).value;
        m :| Walk(fs, target, front, m, true) == Walk(fs, cur, [c] + front, n, true);
      }
    }
  }

  lemma {:induction false} BlockedIsRejected(fs: FS, root: Path, cur: Path, parts: seq<Name>, followLeaf: bool,
                                             i: nat, n: nat)
    requires WellFormed(fs) && Plain(fs, cur) && AllOrdinary(parts) && BlockedAt(fs, root, cur, parts, followLeaf, i, n)
    ensures Follow(fs, root, cur, parts, followLeaf).Err?
    decreases |parts|
  {
    TailOrdinary(parts);
    var c, rest := parts[0], parts[1..];
    assert parts == [c] + rest;
    if i == 0 {
      assert parts[..0] == [];
      FirstBlocks(fs, root, cur, c, rest, followLeaf);
    } else {
      var m := BlockedPast(fs, root, cur, c, rest, followLeaf, i, n);
      FollowUnfolds(fs, root, cur, c, rest, followLeaf);
      LinkStaysIn(fs, root, cur, c);
      if !fs[cur + [c]].Link? {
        PlainStep(fs, cur, c);
        BlockedIsRejected(fs, root, cur + [c], rest, followLeaf, i - 1, m);
      } else if Walk(fs, cur, [c], EVAL_LINKS, true).Ok? {
        BlockedIsRejected(fs, root, Walk(fs, cur, [c], EVAL_LINKS, true).value, rest, followLeaf, i - 1, m);
      }
    }
  }

  /** One more component in front, which resolves. */
  lemma BlockedBefore(fs: FS, root: Path, cur: Path, c: Name, rest: seq<Name>, followLeaf: bool, next: Path, k: nat,
                      i: nat, n: nat)
    requires Walk(fs, cur, [c], k, true) == Ok(next) && BlockedAt(fs, root, next, rest, followLeaf, i, n)
    ensures || BlockedAt(fs, root, cur, [c] + rest, followLeaf, i + 1, k + n)
            || BlockedAt(fs, root, cur, [c] + rest, followLeaf, i + 1, k)
  {
    var front := rest[..i];
    assert ([c] + rest)[..i + 1] == [c] + front && ([c] + rest)[i + 1] == rest[i];
    if front == [] {
      assert [c] + front == [c];
    } else {
      WalkJoined(fs, cur, [c], front, k, n, true);
    }
  }

  lemma {:induction false} RejectedIsBlocked(fs: FS, root: Path, cur: Path, parts: seq<Name>, followLeaf: bool)
    returns (i: nat, n: nat)
    requires WellFormed(fs) && Plain(fs, cur) && AllOrdinary(parts) && Follow(fs, root, cur, parts, followLeaf).Err?
    ensures BlockedAt(fs, root, cur, parts, followLeaf, i, n)
    decreases |parts|
  {
    TailOrdinary(parts);
    var c, rest := parts[0], parts[1..];
    assert parts == [c] + rest && parts[..0] == [];
    FollowUnfolds(fs, root, cur, c, rest, followLeaf);
    LinkStaysIn(fs, root, cur, c);
    if Blocks(fs, root, cur, c) {
      i, n := 0, 0;
    } else {
      var next, k := cur + [c], 0;
      if fs[next].Link? {
        next, k := Walk(fs, cur, [c], EVAL_LINKS, true).value, EVAL_LINKS;
      } else {
        PlainStep(fs, cur, c);
        EntryResolves(fs, cur, c);
      }
      i, n := RejectedIsBlocked(fs, root, next, rest, followLeaf);
      BlockedBefore(fs, root, cur, c, rest, followLeaf, next, k, i, n);
      n := if BlockedAt(fs, root, cur, parts, followLeaf, i + 1, k) then k else k + n;
      i := i + 1;
    }
  }

  /**
   A path is rejected exactly when the operating system, reading it through its links, gets
   to a place where the next component blocks. A component that is not there does not.
   */
  lemma RejectedIff(fs: FS, root: Path, cur: Path, parts: seq<Name>, followLeaf: bool)
    requires WellFormed(fs) && Plain(fs, cur) && AllOrdinary(parts)
    ensures Follow(fs, root, cur, parts, followLeaf).Err?
            <==> exists i: nat, n: nat :: BlockedAt(fs, root, cur, parts, followLeaf, i, n)
  {
    if i: nat, n: nat :| BlockedAt(fs, root, cur, parts, followLeaf, i, n) {
      BlockedIsRejected(fs, root, cur, parts, followLeaf, i, n);
    }
    if Follow(fs, root, cur, parts, followLeaf).Err? {
      var i, n := RejectedIsBlocked(fs, root, cur, parts, followLeaf);
    }
  }

  // ---- Whole requests -------------------------------------------------------

  /** r lies inside the root, and no link is left on its way. */
  ghost predicate Inside(fs: FS, root: Path, followLeaf: bool, r: Path)
  {
    root <= r && AllOrdinary(r) && LinkFree(fs, r, followLeaf)
  }

  lemma OrdinaryParts(p: Path, n: nat)
    requires AllOrdinary(p) && n <= |p|
    ensures AllOrdinary(p[n..]) && AllOrdinary(p[..n])
  {
    forall i | 0 <= i < |p| - n ensures Ordinary(p[n..][i]) { assert p[n..][i] == p[n + i]; }
  }

  /** If the root's own part of the path means the real root, the whole path means what it does from there. */
  lemma AgreesFromRoot(fs: FS, base: seq<Name>, parts: seq<Name>, root: Path, followLeaf: bool, r: Path)
    requires AgreesWithOS(fs, [], base, true, root)
    requires AgreesWithOS(fs, root, parts, followLeaf, r) && (parts == [] ==> r == root && followLeaf)
    ensures AgreesWithOS(fs, [], base + parts, followLeaf, r)
  {
    forall n | Walk(fs, [], base + parts, n, followLeaf).Ok?
      ensures Walk(fs, [], base + parts, n, followLeaf).value == r
    {
      if parts == [] {
        assert base + parts == base;
      } else {
        WalkFront(fs, [], base, parts, n, followLeaf);
      }
    }
  }

  lemma RealRootIsPlain(fs: FS, root: seq<Name>)
    requires WellFormed(fs) && EvalSymlinks(fs, root).Ok?
    ensures var p := EvalSymlinks(fs, root).value;
            Plain(fs, p) && AllOrdinary(p) && Walk(fs, [], p, 0, true) == Ok(p)
  {
    WalkIsPlain(fs, [], root, EVAL_LINKS);
    var p := EvalSymlinks(fs, root).value;
    PlainWalk(fs, p, 0, [], 0, true);
    assert p[..0] == [] && p[0..] + [] == p;
  }

  /** raw without its empty and "." components. */
  function WithoutDots(raw: seq<Name>): seq<Name>
  {
    if raw == [] then []
    else (if raw[0] == "" || raw[0] == "." then [] else [raw[0]]) + WithoutDots(raw[1..])
  }

  lemma {:induction false} CleanWithoutDots(done: Path, raw: seq<Name>)
    requires ".." !in raw
    ensures CleanFrom(done, raw) == done + WithoutDots(raw)
    decreases |raw|
  {
    if raw != [] {
      CleanWithoutDots(if raw[0] == "" || raw[0] == "." then done else done + [raw[0]], raw[1..]);
    }
  }

  lemma {:induction false} DotsDoNotMatter(fs: FS, cur: Path, a: seq<Name>, raw: seq<Name>, links: nat)
    requires Walk(fs, cur, a + raw, links, true).Ok?
    ensures Walk(fs, cur, a + WithoutDots(raw), links, true) == Walk(fs, cur, a + raw, links, true)
    decreases links, |a| + |raw|, |raw|
  {
    if a == [] && raw != [] {
      assert a + raw == raw && a + WithoutDots(raw) == WithoutDots(raw);
      if raw[0] == "" || raw[0] == "." {
        assert [] + raw[1..] == raw[1..] && [] + WithoutDots(raw[1..]) == WithoutDots(raw);
        DotsDoNotMatter(fs, cur, [], raw[1..], links);
      } else {
        assert raw == [raw[0]] + raw[1..];
        DotsDoNotMatter(fs, cur, [raw[0]], raw[1..], links);
      }
    } else if a != [] {
      var c, rest := a[0], a[1..];
      var w := WithoutDots(raw);
      assert (a + raw)[1..] == rest + raw && (a + w)[1..] == rest + w;
      if c == "" || c == "." {
        DotsDoNotMatter(fs, cur, rest, raw, links);
      } else if c == ".." {
        DotsDoNotMatter(fs, Parent(cur), rest, raw, links);
      } else {
        var next := cur + [c];
        if fs[next].Link? {
          var t := fs[next].target;
          assert t + (rest + raw) == (t + rest) + raw && t + (rest + w) == (t + rest) + w;
          DotsDoNotMatter(fs, if fs[next].absolute then [] else cur, t + rest, raw, links - 1);
        } else {
          DotsDoNotMatter(fs, next, rest, raw, links);
        }
      }
    }
  }

  lemma CleanRootResolves(fs: FS, root: seq<Name>)
    requires ".." !in root && EvalSymlinks(fs, root).Ok?
    ensures EvalSymlinks(fs, Clean(root)) == EvalSymlinks(fs, root)
  {
    CleanWithoutDots([], root);
    assert [] + root == root && [] + WithoutDots(root) == WithoutDots(root);
    DotsDoNotMatter(fs, [], [], root, EVAL_LINKS);
  }

  /**
   Whenever the walk accepts a path, the answer lies inside the real root, is free of links,
   and is what the path denotes there.
   */
  lemma ConfinedIsInside(fs: FS, root: seq<Name>, base: Path, cleaned: Path, followLeaf: bool)
    requires WellFormed(fs) && EvalSymlinks(fs, root).Ok? && AllOrdinary(cleaned) && base <= cleaned
    requires Confined(fs, EvalSymlinks(fs, root).value, cleaned[|base|..], followLeaf).Ok?
    ensures var realRoot := EvalSymlinks(fs, root).value;
            var r := Confined(fs, realRoot, cleaned[|base|..], followLeaf).value;
            Inside(fs, realRoot, followLeaf, r) && Denotes(fs, realRoot, cleaned[|base|..], followLeaf, r)
  {
    var realRoot := EvalSymlinks(fs, root).value;
    RealRootIsPlain(fs, root);
    OrdinaryParts(cleaned, |base|);
    FollowIsConfined(fs, realRoot, realRoot, cleaned[|base|..], followLeaf);
    FollowIsOrdinary(fs, realRoot, realRoot, cleaned[|base|..], followLeaf);
    if followLeaf {
      PlainIsLinkFree(fs, realRoot);
    }
  }

  /** This spelling of the root means the real root to the operating system, if it means anything. */
  ghost predicate Spells(fs: FS, root: seq<Name>, base: Path)
    requires EvalSymlinks(fs, root).Ok?
  {
    AgreesWithOS(fs, [], base, true, EvalSymlinks(fs, root).value)
  }

  /** The real root does, and so does the configured one if it is written without "..". */
  lemma RootSpells(fs: FS, root: seq<Name>)
    requires WellFormed(fs) && EvalSymlinks(fs, root).Ok?
    ensures Spells(fs, root, EvalSymlinks(fs, root).value)
    ensures ".." !in root ==> Spells(fs, root, Clean(root))
  {
    var realRoot := EvalSymlinks(fs, root).value;
    RealRootIsPlain(fs, root);
    forall n | Walk(fs, [], realRoot, n, true).Ok? ensures Walk(fs, [], realRoot, n, true).value == realRoot {
      WalkUnique(fs, [], realRoot, 0, n, true);
    }
    if ".." !in root {
      CleanRootResolves(fs, root);
      forall n | Walk(fs, [], Clean(root), n, true).Ok? ensures Walk(fs, [], Clean(root), n, true).value == realRoot {
        WalkUnique(fs, [], Clean(root), EVAL_LINKS, n, true);
      }
    }
  }

  /** Under such a spelling the answer is where the operating system arrives, if it arrives anywhere. */
  lemma ConfinedAgreesWithOS(fs: FS, root: seq<Name>, base: Path, cleaned: Path, followLeaf: bool)
    requires WellFormed(fs) && EvalSymlinks(fs, root).Ok? && AllOrdinary(cleaned)
    requires base <= cleaned && Spells(fs, root, base)
    requires followLeaf || base != cleaned
    requires Confined(fs, EvalSymlinks(fs, root).value, cleaned[|base|..], followLeaf).Ok?
    ensures AgreesWithOS(fs, [], cleaned, followLeaf,
                         Confined(fs, EvalSymlinks(fs, root).value, cleaned[|base|..], followLeaf).value)
  {
    var realRoot := EvalSymlinks(fs, root).value;
    var parts := cleaned[|base|..];
    var r := Follow(fs, realRoot, realRoot, parts, followLeaf).value;
    RealRootIsPlain(fs, root);
    OrdinaryParts(cleaned, |base|);
    FollowIsConfined(fs, realRoot, realRoot, parts, followLeaf);
    assert cleaned == base + parts;
    AgreesFromRoot(fs, base, parts, realRoot, followLeaf, r);
  }

  function AccessPath(fs: FS, root: seq<Name>, user: UserPath): Result<Path, PathError>
  {
    var cleaned := ResolvePath(fs, root, user);
    if cleaned.Err? then Err(InvalidPath) else Resolved(fs, root, cleaned.value, true)
  }

  /** The spelling of the root that a cleaned path is read under. */
  function BaseOf(fs: FS, root: seq<Name>, cleaned: Path): Path
  {
    var realRoot := EvalSymlinks(fs, root);
    if realRoot.Ok? && realRoot.value <= cleaned then realRoot.value else Clean(root)
  }

  /** What an accepted request resolves to: inside the root, and what the operating system would find there. */
  ghost predicate Answers(fs: FS, root: seq<Name>, user: UserPath, followLeaf: bool, r: Path)
  {
    var cleaned := ResolvePath(fs, root, user);
    && EvalSymlinks(fs, root).Ok? && cleaned.Ok?
    && Inside(fs, EvalSymlinks(fs, root).value, followLeaf, r)
    && BaseOf(fs, root, cleaned.value) <= cleaned.value
    && Denotes(fs, EvalSymlinks(fs, root).value, cleaned.value[|BaseOf(fs, root, cleaned.value)|..], followLeaf, r)
    && (Spells(fs, root, BaseOf(fs, root, cleaned.value)) ==> AgreesWithOS(fs, [], cleaned.value, followLeaf, r))
  }

  /** A resolution that reads through the path: list, content, download, destinations. */
  method ResolveForAccess(fs: FS, root: seq<Name>, user: UserPath) returns (r: Result<Path, PathError>)
    requires WellFormed(fs)
    ensures r == AccessPath(fs, root, user)
    ensures r.Ok? ==> Answers(fs, root, user, true, r.value)
  {
    var cleaned := ResolvePath(fs, root, user);
    if cleaned.Err? {
      return Err(cleaned.error);
    }
    ResolvedPathIsOrdinary(fs, root, user);
    r := ResolveLinks(fs, root, cleaned.value, true);
    if r.Ok? {
      var base := BaseOf(fs, root, cleaned.value);
      ConfinedIsInside(fs, root, base, cleaned.value, true);
      if AgreesWithOS(fs, [], base, true, EvalSymlinks(fs, root).value) {
        ConfinedAgreesWithOS(fs, root, base, cleaned.value, true);
      }
    }
  }

  /** The path of the directory entry itself; the root has none. */
  function EntryPath(fs: FS, root: seq<Name>, user: UserPath): Result<Path, PathError>
  {
    var cleaned := ResolvePath(fs, root, user);
    if cleaned.Err? || EvalSymlinks(fs, root).Err? then Err(InvalidPath)
    else if cleaned.value == BaseOf(fs, root, cleaned.value) then Err(RootPath)
    else Resolved(fs, root, cleaned.value, false)
  }

  /**
   For what acts on the directory entry itself: delete, rename, the source of a move. The
   last component is not followed, and the root itself is refused.
   */
  method ResolveNonRoot(fs: FS, root: seq<Name>, user: UserPath) returns (r: Result<Path, PathError>)
    requires WellFormed(fs)
    ensures r == EntryPath(fs, root, user)
    ensures r.Ok? ==> Answers(fs, root, user, false, r.value) && r.value != EvalSymlinks(fs, root).value
  {
    var cleaned := ResolvePath(fs, root, user);
    if cleaned.Err? {
      return Err(cleaned.error);
    }
    ResolvedPathIsOrdinary(fs, root, user);
    if EvalSymlinks(fs, root).Ok? {
      LexicallyUnderRoot(fs, root, user);
    }
    var split := SplitUnderRoot(fs, root, cleaned.value);
    if split.Err? {
      return Err(split.error);
    }
    if |split.value.1| == 0 {
      return Err(RootPath);
    }
    r := ResolveLinks(fs, root, cleaned.value, false);
    if r.Ok? {
      var realRoot, base := EvalSymlinks(fs, root).value, BaseOf(fs, root, cleaned.value);
      ConfinedIsInside(fs, root, base, cleaned.value, false);
      if AgreesWithOS(fs, [], base, true, realRoot) {
        ConfinedAgreesWithOS(fs, root, base, cleaned.value, false);
      }
      RealRootIsPlain(fs, root);
      OrdinaryParts(cleaned.value, |base|);
      EntryBelowRoot(fs, realRoot, realRoot, split.value.1);
    }
  }

  /** What passed the lexical check lies under one of the two spellings. */
  lemma LexicallyUnderRoot(fs: FS, root: seq<Name>, user: UserPath)
    requires ResolvePath(fs, root, user).Ok? && EvalSymlinks(fs, root).Ok?
    ensures var cleaned := ResolvePath(fs, root, user).value;
            EvalSymlinks(fs, root).value <= cleaned || Clean(root) <= cleaned
  {
    var cleaned := ResolvePath(fs, root, user).value;
    ResolvedPathIsOrdinary(fs, root, user);
    WithinIffPrefix(Clean(root), cleaned);
    WithinIffPrefix(EvalSymlinks(fs, root).value, cleaned);
  }

  lemma ResolvedPathIsOrdinary(fs: FS, root: seq<Name>, user: UserPath)
    requires ResolvePath(fs, root, user).Ok?
    ensures AllOrdinary(ResolvePath(fs, root, user).value)
  {
    CleanIsOrdinary([], if user == UserPath(false, [""]) then root else user.raw);
  }

  /** An entry that is not followed lies strictly below the root. */
  lemma {:induction false} EntryBelowRoot(fs: FS, root: Path, cur: Path, parts: seq<Name>)
    requires root <= cur && parts != [] && Follow(fs, root, cur, parts, false).Ok?
    requires AllOrdinary(parts) && WellFormed(fs) && Plain(fs, cur)
    ensures |Follow(fs, root, cur, parts, false).value| > |root|
    decreases |parts|
  {
    TailOrdinary(parts);
    var c, rest := parts[0], parts[1..];
    var next := cur + [c];
    if rest != [] {
      LstatBelowPlain(fs, cur, c);
      if next in fs {
        if !fs[next].Link? {
          PlainStep(fs, cur, c);
          EntryBelowRoot(fs, root, next, rest);
        } else {
          EvalBelowPlain(fs, cur, c);
          WalkIsPlain(fs, cur, [c], EVAL_LINKS);
          WithinIffPrefix(root, EvalSymlinks(fs, next).value);
          EntryBelowRoot(fs, root, EvalSymlinks(fs, next).value, rest);
        }
      }
    }
  }

  /**
   No request through an escaping link is accepted: if the operating system would resolve
   some front of the path (the whole of it only when the leaf is followed) to a place
   outside the real root, the answer is an error.
   */
  lemma EscapingRequestIsRejected(fs: FS, root: seq<Name>, base: Path, cleaned: Path, followLeaf: bool, k: nat, n: nat)
    requires WellFormed(fs) && EvalSymlinks(fs, root).Ok? && AllOrdinary(cleaned)
    requires base <= cleaned && Spells(fs, root, base)
    requires |base| <= k <= |cleaned| && (k < |cleaned| || followLeaf)
    requires Walk(fs, [], cleaned[..k], n, true).Ok?
    requires !(EvalSymlinks(fs, root).value <= Walk(fs, [], cleaned[..k], n, true).value)
    ensures Confined(fs, EvalSymlinks(fs, root).value, cleaned[|base|..], followLeaf).Err?
  {
    var realRoot := EvalSymlinks(fs, root).value;
    var parts := cleaned[|base|..];
    var front := parts[..k - |base|];
    RealRootIsPlain(fs, root);
    OrdinaryParts(cleaned, |base|);
    assert cleaned[..k] == base + front && base + [] == base;
    if front != [] {
      WalkFront(fs, [], base, front, n, true);
      var left: nat :| left <= n && Walk(fs, realRoot, front, left, true) == Walk(fs, [], base + front, n, true);
      assert Escapes(fs, realRoot, realRoot, front);
    }
    EscapeIsRejected(fs, realRoot, realRoot, parts, followLeaf, k - |base|);
  }

  // ---- Destinations ---------------------------------------------------------

  lemma {:induction false} CleanOrdinary(done: Path, p: Path)
    requires AllOrdinary(p)
    ensures CleanFrom(done, p) == done + p
    decreases |p|
  {
    if p != [] {
      TailOrdinary(p);
      CleanOrdinary(done + [p[0]], p[1..]);
    }
  }

  lemma CutPath(p: Path, i: nat)
    requires i < |p|
    ensures p[..i + 1] == p[..i] + [p[i]] && p[i..] == [p[i]] + p[i + 1..]
  {
  }

  lemma PlainEntry(fs: FS, p: Path, i: nat)
    requires WellFormed(fs) && Plain(fs, p) && i < |p|
    ensures Plain(fs, p[..i]) && Plain(fs, p[..i + 1]) && IsDir(fs, p[..i]) && Ordinary(p[i])
    ensures p[..i + 1] == p[..i] + [p[i]] && p[i..] == [p[i]] + p[i + 1..]
    ensures p[..i + 1] in fs && !fs[p[..i + 1]].Link?
  {
    PlainPrefix(fs, p, i);
    PlainPrefix(fs, p, i + 1);
    PrefixesExist(fs, p, i);
    CutPath(p, i);
    assert AllOrdinary(p);
  }

  lemma FollowPlainStep(fs: FS, root: Path, p: Path, i: nat, more: seq<Name>, followLeaf: bool)
    requires WellFormed(fs) && Plain(fs, p) && i < |p| && more != []
    ensures Follow(fs, root, p[..i], p[i..] + more, followLeaf)
            == Follow(fs, root, p[..i + 1], p[i + 1..] + more, followLeaf)
  {
    PlainEntry(fs, p, i);
    assert ([p[i]] + p[i + 1..]) + more == [p[i]] + (p[i + 1..] + more);
    FollowUnfolds(fs, root, p[..i], p[i], p[i + 1..] + more, followLeaf);
  }

  /** Following a link-free path changes nothing. */
  lemma {:induction false} FollowPlain(fs: FS, root: Path, p: Path, i: nat, more: seq<Name>, followLeaf: bool)
    requires WellFormed(fs) && Plain(fs, p) && i <= |p| && more != []
    ensures Follow(fs, root, p[..i], p[i..] + more, followLeaf) == Follow(fs, root, p, more, followLeaf)
    decreases |p| - i
  {
    if i == |p| {
      assert p[..i] == p && p[i..] + more == more;
    } else {
      FollowPlainStep(fs, root, p, i, more, followLeaf);
      FollowPlain(fs, root, p, i + 1, more, followLeaf);
    }
  }

  /**
   Resolving a name in a directory that is already resolved: the entry itself, or where
   the link of that name leads. Either way its parent is a directory.
   */
  lemma DestinationShape(fs: FS, root: seq<Name>, dir: Path, base: Name, dest: Path)
    requires WellFormed(fs) && EvalSymlinks(fs, root).Ok? && EvalSymlinks(fs, root).value <= dir
    requires Plain(fs, dir) && IsDir(fs, dir) && Ordinary(base)
    requires AccessPath(fs, root, UserPath(true, dir + [base])) == Ok(dest)
    ensures (dest == dir + [base] && !IsLink(fs, dest)) || Plain(fs, dest)
    ensures AllOrdinary(dest) && IsDir(fs, Parent(dest))
  {
    AccessBelowPlain(fs, root, dir, base);
    LstatBelowPlain(fs, dir, base);
    var p := dir + [base];
    assert [base][1..] == [] && Parent(p) == dir && p + [] == p;
    assert AllOrdinary(dir) && AllOrdinary(p);
    if IsLink(fs, p) {
      EvalBelowPlain(fs, dir, base);
      WalkIsPlain(fs, dir, [base], EVAL_LINKS);
    }
  }

  lemma BelowSplits(root: Path, dir: Path, base: Name)
    requires root <= dir
    ensures root <= dir + [base] && (dir + [base])[|root|..] == dir[|root|..] + [base] && dir[..|root|] == root
  {
  }

  /** A cleaned path under the real root is resolved from there. */
  lemma AccessOfCleaned(fs: FS, root: seq<Name>, p: Path)
    requires EvalSymlinks(fs, root).Ok? && EvalSymlinks(fs, root).value <= p && AllOrdinary(p)
    ensures AccessPath(fs, root, UserPath(true, p))
            == Confined(fs, EvalSymlinks(fs, root).value, p[|EvalSymlinks(fs, root).value|..], true)
  {
    CleanOrdinary([], p);
    assert [] + p == p;
    WithinIffPrefix(EvalSymlinks(fs, root).value, p);
  }

  /** Resolving a name in a link-free directory only looks at that name. */
  lemma AccessBelowPlain(fs: FS, root: seq<Name>, dir: Path, base: Name)
    requires WellFormed(fs) && EvalSymlinks(fs, root).Ok? && EvalSymlinks(fs, root).value <= dir
    requires Plain(fs, dir) && Ordinary(base)
    ensures var realRoot := EvalSymlinks(fs, root).value;
            var r := Follow(fs, realRoot, dir, [base], true);
            AccessPath(fs, root, UserPath(true, dir + [base]))
            == if r.Ok? && !Within(realRoot, r.value) then Err(InvalidPath) else r
  {
    var realRoot, p := EvalSymlinks(fs, root).value, dir + [base];
    assert AllOrdinary(dir) && AllOrdinary(p);
    BelowSplits(realRoot, dir, base);
    AccessOfCleaned(fs, root, p);
    FollowPlain(fs, realRoot, dir, |realRoot|, [base], true);
  }

  /** What exists and has no link on its way is plain. */
  lemma {:induction false} LinkFreeIsPlain(fs: FS, p: Path)
    requires WellFormed(fs) && p in fs && LinkFree(fs, p, true)
    ensures Plain(fs, p)
    decreases |p|
  {
    assert p[..|p|] == p;
    if p != [] {
      forall i | 0 <= i <= |p| - 1 ensures !IsLink(fs, Parent(p)[..i]) {
        assert Parent(p)[..i] == p[..i];
      }
      LinkFreeIsPlain(fs, Parent(p));
    }
  }
}
