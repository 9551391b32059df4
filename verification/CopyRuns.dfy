/**
 The recursion of copyPath (webmanager/backend/internal/files/mutate.go) as a relation
 between the disk before and after, for calls that end: directories are made, their
 entries read, and each copied in turn. Copying a directory to a new entry of its own is
 no such call. `NestedCopyNeverEnds` proves it: at every level the directory just made is
 among the entries then read.
 */
module CopyRuns {
  import opened Wrappers
  import opened FileSystem
  import opened PathResolve
  import opened TreeChanges

  datatype OpError =
    | NotExist
    | Exists          // ErrExists: the destination is there, and may not be replaced
    | NamesTaken      // no free temporary or "(copy)" name (the source reports ErrExists too)
    | IntoItself
    | BadPath(path: PathError)
    | NotADirectory
    | DirectoryThere  // EEXIST of os.Rename, which replaces no directory
    | CrossDevice     // EXDEV

  /** The mode a new directory has while its entries are still being copied. */
  function Widened(mode: nat): nat
  {
    448 + mode % 64  // 0o700 | the permission bits
  }

  /** dest as a directory that can be written to. */
  function Made(fs: FS, dest: Path, mode: nat): FS
  {
    if dest in fs then fs else fs[dest := Dir(Widened(mode))]
  }

  /** A call of copyPath that ends within `fuel` levels of recursion, with result r. */
  ghost predicate CopyRun(fuel: nat, before: FS, after: FS, src: Path, dest: Path, r: Result<(), OpError>)
    decreases fuel, 0, 0
  {
    && fuel > 0
    && if src !in before then r == Err(NotExist) && after == before
       else if dest in before && before[src].Dir? != before[dest].Dir? then r == Err(Exists) && after == before
       else if before[src].Dir? then
         DirRun(fuel - 1, Made(before, dest, before[src].mode), after, src, dest, before[src].mode, r)
       else
         if r.Err? then r == Err(NamesTaken) && after == before else after == before[dest := before[src]]
  }

  /** The directory is there: its entries, and then its own mode. */
  ghost predicate DirRun(fuel: nat, made: FS, after: FS, src: Path, dest: Path, mode: nat, r: Result<(), OpError>)
    decreases fuel, 2, 0
  {
    if r.Err? then EntriesRun(fuel, made, after, src, dest, Names(made, src), r)
    else exists now :: EntriesRun(fuel, made, now, src, dest, Names(made, src), r) && after == now[dest := Dir(mode)]
  }

  /** The loop over the entries, in any order, up to the first that fails. */
  ghost predicate EntriesRun(fuel: nat, now: FS, after: FS, src: Path, dest: Path, names: set<Name>,
                             r: Result<(), OpError>)
    decreases fuel, 1, |names|
  {
    if names == {} then r == Ok(()) && after == now
    else exists e, next, er ::
      && e in names && CopyRun(fuel, now, next, src + [e], dest + [e], er)
      && if er.Err? then r == er && after == next else EntriesRun(fuel, next, after, src, dest, names - {e}, r)
  }

  /** A call of copyPath that ends. */
  ghost predicate Runs(before: FS, after: FS, src: Path, dest: Path, r: Result<(), OpError>)
  {
    exists fuel :: CopyRun(fuel, before, after, src, dest, r)
  }

  /** Whatever finishes from `now` with `todo` left finishes from `before` with `names`. */
  ghost predicate Continues(fuel: nat, before: FS, names: set<Name>, now: FS, todo: set<Name>, src: Path, dest: Path)
  {
    forall after, r :: EntriesRun(fuel, now, after, src, dest, todo, r)
      ==> EntriesRun(fuel, before, after, src, dest, names, r)
  }

  lemma ContinuesAfter(fuel: nat, before: FS, names: set<Name>, now: FS, next: FS, todo: set<Name>, e: Name,
                       src: Path, dest: Path, er: Result<(), OpError>)
    requires Continues(fuel, before, names, now, todo, src, dest) && e in todo && er.Ok?
    requires CopyRun(fuel, now, next, src + [e], dest + [e], er)
    ensures Continues(fuel, before, names, next, todo - {e}, src, dest)
  {
    forall after, r | EntriesRun(fuel, next, after, src, dest, todo - {e}, r)
      ensures EntriesRun(fuel, before, after, src, dest, names, r)
    {
      assert EntriesRun(fuel, now, after, src, dest, todo, r);
    }
  }

  lemma StopsAt(fuel: nat, before: FS, names: set<Name>, now: FS, next: FS, todo: set<Name>, e: Name, src: Path,
                dest: Path, r: Result<(), OpError>)
    requires Continues(fuel, before, names, now, todo, src, dest) && e in todo && r.Err?
    requires CopyRun(fuel, now, next, src + [e], dest + [e], r)
    ensures EntriesRun(fuel, before, next, src, dest, names, r)
  {
    assert EntriesRun(fuel, now, next, src, dest, todo, r);
  }

  lemma WriteKeepsWellFormed(fs: FS, p: Path, node: Node)
    requires WellFormed(fs) && AllOrdinary(p) && IsDir(fs, Parent(p))
    requires node.Dir? || !IsDir(fs, p)
    ensures WellFormed(fs[p := node])
  {
    var fs' := fs[p := node];
    forall q | q in fs' ensures IsDir(fs', Parent(q)) {
      assert IsDir(fs, Parent(q));
    }
    forall q | q in fs' ensures AllOrdinary(q) {}
  }

  /** Nothing outside top has changed. */
  ghost predicate Frame(before: FS, after: FS, top: Path)
  {
    forall p :: !(top <= p) ==> At(after, p) == At(before, p)
  }

  lemma EntryFrame(before: FS, after: FS, top: Path, e: Name)
    requires Frame(before, after, top + [e])
    ensures Frame(before, after, top)
  {
    forall p | !(top <= p) ensures At(after, p) == At(before, p) {
      UnderEntry(top, e, p);
    }
  }

  // ---- Copies to where nothing is -------------------------------------------

  /** Entries still to be copied: there at the source, not yet at the destination. */
  ghost predicate Pending(now: FS, src: Path, dest: Path, names: set<Name>)
  {
    WellFormed(now) && IsDir(now, dest) && forall e :: e in names ==> src + [e] in now && dest + [e] !in now
  }

  lemma PendingStep(now: FS, next: FS, src: Path, dest: Path, names: set<Name>, e: Name)
    requires Pending(now, src, dest, names) && e in names && !(dest <= src)
    requires WellFormed(next) && Frame(now, next, dest + [e])
    ensures Pending(next, src, dest, names - {e})
  {
    UnderEntry(dest, e, dest);
    assert At(next, dest) == At(now, dest);
    forall e' | e' in names - {e} ensures src + [e'] in next && dest + [e'] !in next {
      NotUnderEntry(dest, src, e, e');
      UnderEntry(dest, e, dest + [e']);
      assert At(next, src + [e']) == At(now, src + [e']);
      assert At(next, dest + [e']) == At(now, dest + [e']);
    }
  }

  lemma NotUnderEntry(dest: Path, src: Path, e: Name, e': Name)
    requires !(dest <= src)
    ensures !(dest + [e] <= src + [e'])
  {
    var p := src + [e'];
    if |dest| <= |src| {
      assert p[..|dest|] == src[..|dest|] && (dest + [e])[..|dest|] == dest;
    }
  }

  lemma PendingStarts(before: FS, src: Path, dest: Path)
    requires WellFormed(before) && IsDir(before, src) && dest !in before && AllOrdinary(dest)
             && IsDir(before, Parent(dest))
    ensures var made := Made(before, dest, before[src].mode);
            Pending(made, src, dest, Names(made, src)) && Frame(before, made, dest)
  {
    var made := Made(before, dest, before[src].mode);
    WriteKeepsWellFormed(before, dest, Dir(Widened(before[src].mode)));
    forall e | e in Names(made, src) ensures src + [e] in made && dest + [e] !in made {
      NamesAre(made, src, e);
      assert Parent(dest + [e]) == dest;
    }
  }

  lemma PendingEntry(now: FS, src: Path, dest: Path, names: set<Name>, e: Name)
    requires Pending(now, src, dest, names) && e in names && AllOrdinary(dest)
    ensures AllOrdinary(dest + [e]) && Parent(dest + [e]) == dest
  {
    assert AllOrdinary(src + [e]);
    assert (src + [e])[|src|] == e;
  }

  lemma EntriesDisjoint(src: Path, dest: Path, e: Name)
    requires Disjoint(src, dest)
    ensures Disjoint(src + [e], dest + [e])
  {
    if src + [e] <= dest + [e] {
      PrefixOfParent(src, dest, e);
    }
    if dest + [e] <= src + [e] {
      PrefixOfParent(dest, src, e);
    }
  }

  lemma PrefixOfParent(a: Path, b: Path, e: Name)
    requires a + [e] <= b + [e]
    ensures a <= b
  {
    assert a == (a + [e])[..|a|] == (b + [e])[..|a|] == b[..|a|];
  }

  lemma DirDone(before: FS, made: FS, now: FS, dest: Path, mode: nat)
    requires Frame(before, made, dest) && Frame(made, now, dest) && WellFormed(now) && AllOrdinary(dest)
    requires dest != [] && IsDir(before, Parent(dest))
    ensures WellFormed(now[dest := Dir(mode)]) && Frame(before, now[dest := Dir(mode)], dest)
  {
    assert At(made, Parent(dest)) == At(before, Parent(dest));
    assert At(now, Parent(dest)) == At(made, Parent(dest));
    WriteKeepsWellFormed(now, dest, Dir(mode));
  }

  lemma FrameStep(before: FS, now: FS, after: FS, top: Path)
    requires Frame(before, now, top) && Frame(now, after, top)
    ensures Frame(before, after, top)
  {
  }

  /** A copy of what exists to where nothing is can only fail for want of a temporary name, and stays there. */
  lemma {:induction false} FreshCopy(fuel: nat, before: FS, after: FS, src: Path, dest: Path, r: Result<(), OpError>)
    requires CopyRun(fuel, before, after, src, dest, r) && WellFormed(before) && src in before
    requires Disjoint(src, dest) && dest !in before && AllOrdinary(dest) && IsDir(before, Parent(dest))
    ensures (r.Ok? || r == Err(NamesTaken)) && WellFormed(after) && Frame(before, after, dest)
    decreases fuel, 1
  {
    if before[src].Dir? {
      FreshDir(fuel, before, after, src, dest, r);
    } else if r.Ok? {
      WriteKeepsWellFormed(before, dest, before[src]);
    }
  }

  lemma {:induction false} FreshDir(fuel: nat, before: FS, after: FS, src: Path, dest: Path, r: Result<(), OpError>)
    requires CopyRun(fuel, before, after, src, dest, r) && WellFormed(before) && IsDir(before, src)
    requires Disjoint(src, dest) && dest !in before && AllOrdinary(dest) && IsDir(before, Parent(dest))
    ensures (r.Ok? || r == Err(NamesTaken)) && WellFormed(after) && Frame(before, after, dest)
    decreases fuel, 0
  {
    var made := Made(before, dest, before[src].mode);
    var names := Names(made, src);
    PendingStarts(before, src, dest);
    if r.Err? {
      FreshEntries(fuel - 1, made, after, src, dest, names, r);
      FrameStep(before, made, after, dest);
    } else {
      var now :| EntriesRun(fuel - 1, made, now, src, dest, names, r) && after == now[dest := Dir(before[src].mode)];
      FreshEntries(fuel - 1, made, now, src, dest, names, r);
      DirDone(before, made, now, dest, before[src].mode);
    }
  }

  lemma {:induction false} FreshEntries(fuel: nat, now: FS, after: FS, src: Path, dest: Path, names: set<Name>,
                                        r: Result<(), OpError>)
    requires EntriesRun(fuel, now, after, src, dest, names, r)
    requires Disjoint(src, dest) && AllOrdinary(dest) && Pending(now, src, dest, names)
    ensures (r.Ok? || r == Err(NamesTaken)) && WellFormed(after) && Frame(now, after, dest)
    decreases fuel, 2, |names|
  {
    if names != {} {
      var e, next, er :|
        && e in names && CopyRun(fuel, now, next, src + [e], dest + [e], er)
        && if er.Err? then r == er && after == next else EntriesRun(fuel, next, after, src, dest, names - {e}, r);
      PendingEntry(now, src, dest, names, e);
      EntriesDisjoint(src, dest, e);
      FreshCopy(fuel, now, next, src + [e], dest + [e], er);
      EntryFrame(now, next, dest, e);
      if er.Ok? {
        PendingStep(now, next, src, dest, names, e);
        FreshEntries(fuel, next, after, src, dest, names - {e}, r);
        FrameStep(now, next, after, dest);
      }
    }
  }

  // ---- A copy into itself ---------------------------------------------------

  /** The directory just made is among the entries then read, and its own copy starts in the same situation. */
  lemma MadeIsRead(before: FS, src: Path, c: Name)
    requires WellFormed(before) && IsDir(before, src) && src + [c] !in before && Ordinary(c)
    ensures var made := Made(before, src + [c], before[src].mode);
            && c in Names(made, src)
            && IsDir(made, src + [c]) && src + [c] + [c] !in made
            && Pending(made, src, src + [c], Names(made, src)) && AllOrdinary(src + [c])
  {
    assert AllOrdinary(src) && Parent(src + [c]) == src;
    PendingStarts(before, src, src + [c]);
    NamesAre(Made(before, src + [c], before[src].mode), src, c);
  }

  /** A sibling's copy goes to a place apart from it. */
  lemma SiblingApart(src: Path, c: Name, e: Name)
    requires e != c
    ensures Disjoint(src + [e], src + [c] + [e])
  {
    assert (src + [e])[|src|] == e && (src + [c] + [e])[|src|] == c;
  }

  /**
   Copying a directory to a new entry of its own never ends, whatever the fuel, but for
   want of a temporary name on the way.
   */
  lemma {:induction false} NestedCopyNeverEnds(fuel: nat, before: FS, after: FS, src: Path, c: Name,
                                               r: Result<(), OpError>)
    requires CopyRun(fuel, before, after, src, src + [c], r)
    requires WellFormed(before) && IsDir(before, src) && src + [c] !in before && Ordinary(c)
    ensures r == Err(NamesTaken)
    decreases fuel, 1
  {
    MadeIsRead(before, src, c);
    NestedDir(fuel - 1, Made(before, src + [c], before[src].mode), after, src, c, before[src].mode, r);
  }

  lemma {:induction false} NestedDir(fuel: nat, made: FS, after: FS, src: Path, c: Name, mode: nat,
                                     r: Result<(), OpError>)
    requires DirRun(fuel, made, after, src, src + [c], mode, r) && c in Names(made, src)
    requires Pending(made, src, src + [c], Names(made, src)) && AllOrdinary(src + [c])
    ensures r == Err(NamesTaken)
    decreases fuel, 3
  {
    var dest, names := src + [c], Names(made, src);
    if r.Err? {
      NestedEntries(fuel, made, after, src, c, names, r);
    } else {
      var now :| EntriesRun(fuel, made, now, src, dest, names, r) && after == now[dest := Dir(mode)];
      NestedEntries(fuel, made, now, src, c, names, r);
    }
  }

  lemma {:induction false} NestedEntries(fuel: nat, now: FS, after: FS, src: Path, c: Name, names: set<Name>,
                                         r: Result<(), OpError>)
    requires EntriesRun(fuel, now, after, src, src + [c], names, r) && c in names
    requires Pending(now, src, src + [c], names) && AllOrdinary(src + [c])
    ensures r == Err(NamesTaken)
    decreases fuel, 2, |names|
  {
    var dest := src + [c];
    var e, next, er :|
      && e in names && CopyRun(fuel, now, next, src + [e], dest + [e], er)
      && if er.Err? then r == er && after == next else EntriesRun(fuel, next, after, src, dest, names - {e}, r);
    PendingEntry(now, src, dest, names, e);
    assert Ordinary(c) by { assert dest[|src|] == c; }
    if e == c {
      NestedCopyNeverEnds(fuel, now, next, dest, c, er);
    } else {
      SiblingApart(src, c, e);
      FreshCopy(fuel, now, next, src + [e], dest + [e], er);
      if er.Ok? {
        PendingStep(now, next, src, dest, names, e);
        NestedEntries(fuel, next, after, src, c, names - {e}, r);
      }
    }
  }
}
