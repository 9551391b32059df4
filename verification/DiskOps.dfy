/**
 The file operations themselves (webmanager/backend/internal/files/mutate.go), changing a
 disk step by step. A path handed to them has no link among its ancestors, so each system
 call acts on the entry the path names.
 */
module DiskOps {
  import opened Wrappers
  import opened FileSystem
  import opened PathResolve
  import opened TreeChanges
  import opened CopyRuns

  const LINK_TRIES: nat := 100
  const FILE_TRIES: nat := 10000

  function Base(p: Path): Name
    requires p != []
  {
    p[|p| - 1]
  }

  lemma SubtreeGoneWellFormed(fs: FS, after: FS, top: Path)
    requires WellFormed(fs) && top != [] && IsRemoved(fs, after, top)
    ensures WellFormed(after)
  {
    forall q
      ensures q in after <==> q in fs && !(top <= q)
    {
      assert At(after, q) == if top <= q then None else At(fs, q);
    }
    forall q | q in after ensures IsDir(after, Parent(q)) && AllOrdinary(q) {
      assert IsDir(fs, Parent(q));
      var up := Parent(q);
      assert At(after, up) == if top <= up then None else At(fs, up);
      assert top <= up ==> top <= q;
    }
    assert At(after, []) == At(fs, []);
  }

  // ---- Single entries -------------------------------------------------------

  /** A file or link in place of nothing, or of another that is not a directory. */
  lemma LeafOverlay(fs: FS, src: Path, dest: Path)
    requires WellFormed(fs) && src in fs && !fs[src].Dir? && !IsDir(fs, dest)
    ensures IsOverlay(fs, fs[dest := fs[src]], src, dest) && !Conflict(fs, src, dest)
  {
    forall p | dest <= p && p != dest ensures p !in fs && Back(src, dest, p) !in fs {
      if p in fs {
        PrefixExists(fs, p, dest);
      }
      if Back(src, dest, p) in fs {
        PrefixExists(fs, Back(src, dest, p), src);
      }
    }
    assert dest <= dest && Back(src, dest, dest) == src;
  }

  /** All of src's tree is at most this deep. */
  ghost predicate Shallow(fs: FS, src: Path, depth: nat)
  {
    forall p :: p in fs && src <= p ==> |p| <= depth
  }

  /** How deep the recursion goes over a tree of that depth. */
  function Levels(src: Path, depth: nat): (n: nat)
    ensures n > 0
  {
    if |src| <= depth then depth + 2 - |src| else 1
  }

  /** Nothing outside dest has changed, and what is new below dest is no deeper than what is below src. */
  ghost predicate OnlyBelow(before: FS, after: FS, src: Path, dest: Path, depth: nat)
  {
    && (forall p :: !(dest <= p) ==> At(after, p) == At(before, p))
    && (forall p :: p in after && p !in before ==> dest <= p && |p| - |dest| <= depth - |src|)
  }

  lemma OnlyBelowEntry(before: FS, now: FS, next: FS, src: Path, dest: Path, depth: nat, e: Name)
    requires OnlyBelow(before, now, src, dest, depth) && OnlyBelow(now, next, src + [e], dest + [e], depth)
    ensures OnlyBelow(before, next, src, dest, depth)
  {
    forall p | !(dest <= p) ensures At(next, p) == At(before, p) {
      UnderEntry(dest, e, p);
    }
    forall p | p in next && p !in before ensures dest <= p && |p| - |dest| <= depth - |src| {
      UnderEntry(dest, e, p);
    }
  }

  /** A copy that is not into the source makes the source no deeper. */
  lemma StaysShallow(before: FS, now: FS, src: Path, dest: Path, depth: nat)
    requires Shallow(before, src, depth) && OnlyBelow(before, now, src, dest, depth) && !(src <= dest)
    ensures Shallow(now, src, depth)
  {
    forall p | p in now && src <= p ensures |p| <= depth {
      if p !in before {
        Comparable(src, dest, p);
        assert dest <= src;
      }
    }
  }

  lemma EntryShallow(fs: FS, src: Path, depth: nat, e: Name)
    requires Shallow(fs, src, depth)
    ensures Shallow(fs, src + [e], depth)
  {
    forall p | p in fs && src + [e] <= p ensures |p| <= depth {
      UnderEntry(src, e, p);
    }
  }

  lemma NotIntoEntry(src: Path, dest: Path, e: Name)
    requires !(src <= dest)
    ensures !(src + [e] <= dest + [e])
  {
    UnderEntry(src, e, dest + [e]);
    if src + [e] <= dest + [e] {
      Comparable(src, dest, dest + [e]);
    }
  }

  /** An entry read from the source is still there when its turn comes. */
  lemma EntryFailure(before: FS, now: FS, next: FS, src: Path, dest: Path, done: set<Name>, e: Name, temps: TempNames,
                     r: Result<(), OpError>)
    requires Apart(before, src, dest) && e !in done && IsDir(before, src) && e in Names(before, src)
    requires Progress(before, now, src, dest, done)
    requires r.Err? && CopyOutcome(now, next, src + [e], dest + [e], temps, r)
    ensures CopyOutcome(before, next, src, dest, temps, r)
  {
    NamesAre(before, src, e);
    PartwayStep(before, now, next, src, dest, done, e);
    EntryConflict(before, now, src, dest, done, e);
    EntryCrowded(before, now, src, dest, done, e, temps);
    SourceUntouched(before, now, src, dest, done, src + [e]);
    assert At(now, src + [e]).Some?;
  }

  lemma EntryStopped(before: FS, now: FS, next: FS, src: Path, dest: Path, depth: nat, done: set<Name>, e: Name,
                     temps: TempNames, r: Result<(), OpError>)
    requires Copying(before, now, src, dest, depth, done) && OnlyBelow(now, next, src + [e], dest + [e], depth)
    requires e !in done && IsDir(before, src) && r.Err?
    requires Apart(before, src, dest) ==>
               e in Names(before, src) && CopyOutcome(now, next, src + [e], dest + [e], temps, r)
    ensures OnlyBelow(before, next, src, dest, depth)
    ensures Apart(before, src, dest) ==> CopyOutcome(before, next, src, dest, temps, r)
  {
    OnlyBelowEntry(before, now, next, src, dest, depth, e);
    if Apart(before, src, dest) {
      EntryFailure(before, now, next, src, dest, done, e, temps, r);
    }
  }

  lemma EntrySuccess(before: FS, now: FS, next: FS, src: Path, dest: Path, done: set<Name>, e: Name, temps: TempNames)
    requires Apart(before, src, dest) && e !in done
    requires Progress(before, now, src, dest, done) && NoConflictIn(before, src, dest, done)
    requires CopyOutcome(now, next, src + [e], dest + [e], temps, Ok(()))
    ensures Progress(before, next, src, dest, done + {e}) && NoConflictIn(before, src, dest, done + {e})
  {
    ProgressStep(before, now, next, src, dest, done, e);
    NoConflictStep(before, now, src, dest, done, e);
  }

  /** The state between two entries of a directory being copied. */
  ghost predicate Copying(before: FS, now: FS, src: Path, dest: Path, depth: nat, done: set<Name>)
  {
    && WellFormed(now) && IsDir(now, dest)
    && OnlyBelow(before, now, src, dest, depth) && Shallow(now, src, depth)
    && (Apart(before, src, dest) ==> Progress(before, now, src, dest, done) && NoConflictIn(before, src, dest, done))
  }

  lemma CopyingStarts(before: FS, now: FS, src: Path, dest: Path, depth: nat)
    requires WellFormed(now) && IsDir(now, dest) && !(src <= dest) && Shallow(before, src, depth) && src in before
    requires forall p :: p != dest ==> At(now, p) == At(before, p)
    ensures Copying(before, now, src, dest, depth, {})
  {
    assert |src| <= depth;
    assert forall p :: p in now && p !in before ==> p == dest by {
      forall p | p in now && p !in before ensures p == dest { assert At(now, p) != At(before, p); }
    }
    StaysShallow(before, now, src, dest, depth);
  }

  /** The next entry may be copied. */
  lemma EntryReady(before: FS, now: FS, src: Path, dest: Path, depth: nat, done: set<Name>, e: Name)
    requires Copying(before, now, src, dest, depth, done) && !(src <= dest) && AllOrdinary(dest) && Ordinary(e)
    ensures AllOrdinary(dest + [e]) && Parent(dest + [e]) == dest
    ensures !(src + [e] <= dest + [e]) && Shallow(now, src + [e], depth)
    ensures Apart(before, src, dest) ==> Apart(now, src + [e], dest + [e])
  {
    NotIntoEntry(src, dest, e);
    EntryShallow(now, src, depth, e);
    if Apart(before, src, dest) {
      EntryApart(before, now, src, dest, done, e);
    }
  }

  lemma EntryCopied(before: FS, now: FS, next: FS, src: Path, dest: Path, depth: nat, done: set<Name>, e: Name,
                    temps: TempNames)
    requires Copying(before, now, src, dest, depth, done) && !(src <= dest) && Shallow(before, src, depth)
    requires e !in done && WellFormed(next) && OnlyBelow(now, next, src + [e], dest + [e], depth)
    requires Apart(before, src, dest) ==> CopyOutcome(now, next, src + [e], dest + [e], temps, Ok(()))
    ensures Copying(before, next, src, dest, depth, done + {e})
  {
    OnlyBelowEntry(before, now, next, src, dest, depth, e);
    StaysShallow(before, next, src, dest, depth);
    if Apart(before, src, dest) {
      EntrySuccess(before, now, next, src, dest, done, e, temps);
    }
    UnderEntry(dest, e, dest);
    assert At(next, dest) == At(now, dest);
  }

  lemma AllEntriesDone(before: FS, now: FS, src: Path, dest: Path, mode: nat, temps: TempNames)
    requires WellFormed(before) && Apart(before, src, dest) && src in before && before[src] == Dir(mode)
    requires dest in before ==> before[dest].Dir?
    requires Progress(before, now, src, dest, Names(before, src)) && NoConflictIn(before, src, dest, Names(before, src))
    ensures CopyOutcome(before, now[dest := Dir(mode)], src, dest, temps, Ok(()))
  {
    var after := now[dest := Dir(mode)];
    assert forall p :: p != dest ==> At(after, p) == At(now, p);
    ProgressComplete(before, now, after, src, dest, Names(before, src));
    NoConflictAtAll(before, src, dest);
  }

  lemma NamesUnchanged(before: FS, now: FS, src: Path, dest: Path)
    requires !(src <= dest) && forall p :: p != dest ==> At(now, p) == At(before, p)
    ensures Names(now, src) == Names(before, src)
  {
    forall e ensures e in Names(now, src) <==> e in Names(before, src) {
      NamesAre(before, src, e);
      NamesAre(now, src, e);
      assert src + [e] != dest by { assert src <= src + [e]; }
      assert At(now, src + [e]) == At(before, src + [e]);
    }
  }

  lemma NamesOrdinary(fs: FS, src: Path)
    requires WellFormed(fs)
    ensures forall e :: e in Names(fs, src) ==> Ordinary(e)
  {
    forall e | e in Names(fs, src) ensures Ordinary(e) {
      NamesAre(fs, src, e);
      assert AllOrdinary(src + [e]);
      assert (src + [e])[|src|] == e;
    }
  }

  ghost function LongestIn(paths: set<Path>): (d: nat)
    ensures forall p :: p in paths ==> |p| <= d
  {
    if paths == {} then 0
    else
      var p :| p in paths;
      var d := LongestIn(paths - {p});
      if |p| > d then |p| else d
  }

  ghost function DepthOf(fs: FS): (d: nat)
    ensures forall p :: Shallow(fs, p, d)
  {
    LongestIn(fs.Keys)
  }

  /** What a move may go onto: nothing, or with overwrite what is no directory, if it is none itself. */
  predicate MayReplace(fs: FS, src: Path, dest: Path, overwrite: bool)
    requires src in fs
  {
    dest in fs ==> overwrite && !fs[dest].Dir? && !fs[src].Dir?
  }

  /**
   Why a move is refused. "Exists", on which the client asks whether to overwrite, is the
   answer without overwrite whenever something is there. With overwrite it is so only across
   devices, where a directory is not put in place of something else.
   */
  ghost predicate Refuses(fs: FS, src: Path, dest: Path, overwrite: bool, crossDevice: bool, r: Result<(), OpError>)
  {
    if src !in fs then r == Err(NotExist) || (r == Err(Exists) && dest in fs && !overwrite)
    else if dest in fs && !overwrite then r == Err(Exists)
    else if IsDir(fs, dest) then r == Err(DirectoryThere)
    else dest in fs && fs[src].Dir? && r == Err(if crossDevice then Exists else NotADirectory)
  }

  // ---- Temporary names ------------------------------------------------------

  /** The n-th suffix tried for a link ("<pid>-<n>") and for a file (os.CreateTemp's random part). */
  datatype TempNames = TempNames(link: nat -> string, file: nat -> string)

  function Temp(dest: Path, suffix: string): Path
    requires dest != []
  {
    Parent(dest) + ["." + Base(dest) + ".partial-" + suffix]
  }

  /** t is there before the copy, or may be copied. */
  predicate MayBe(fs: FS, src: Path, dest: Path, t: Path)
  {
    t in fs || Copied(fs, src, dest, t).Some?
  }

  ghost predicate AllTaken(fs: FS, src: Path, dest: Path, p: Path, tries: nat, suffix: nat -> string)
    requires p != []
  {
    forall n :: 0 <= n < tries ==> MayBe(fs, src, dest, Temp(p, suffix(n)))
  }

  ghost predicate CrowdedAt(fs: FS, src: Path, dest: Path, temps: TempNames, p: Path)
  {
    && dest <= p && p != []
    && (AllTaken(fs, src, dest, p, LINK_TRIES, temps.link) || AllTaken(fs, src, dest, p, FILE_TRIES, temps.file))
  }

  /** Somewhere at or below dest every temporary name tried may be taken. */
  ghost predicate Crowded(fs: FS, src: Path, dest: Path, temps: TempNames)
  {
    exists p :: CrowdedAt(fs, src, dest, temps, p)
  }

  lemma EntryMayBe(before: FS, now: FS, src: Path, dest: Path, done: set<Name>, e: Name, t: Path)
    requires Apart(before, src, dest) && Progress(before, now, src, dest, done)
    requires |t| > |dest| && MayBe(now, src + [e], dest + [e], t)
    ensures MayBe(before, src, dest, t)
  {
    assert At(now, t) == if Under(dest, done, t) then OverlayAt(before, src, dest, t) else At(before, t);
    if t !in now {
      BackEntry(src, dest, e, t);
      SourceUntouched(before, now, src, dest, done, Back(src, dest, t));
    }
  }

  /** Names taken within one entry may be taken in the whole. */
  lemma EntryCrowded(before: FS, now: FS, src: Path, dest: Path, done: set<Name>, e: Name, temps: TempNames)
    requires Apart(before, src, dest) && Progress(before, now, src, dest, done)
    ensures Crowded(now, src + [e], dest + [e], temps) ==> Crowded(before, src, dest, temps)
  {
    if Crowded(now, src + [e], dest + [e], temps) {
      var p :| CrowdedAt(now, src + [e], dest + [e], temps, p);
      UnderEntry(dest, e, p);
      if AllTaken(now, src + [e], dest + [e], p, LINK_TRIES, temps.link) {
        EntryTaken(before, now, src, dest, done, e, p, LINK_TRIES, temps.link);
      } else {
        EntryTaken(before, now, src, dest, done, e, p, FILE_TRIES, temps.file);
      }
      assert CrowdedAt(before, src, dest, temps, p);
    }
  }

  lemma EntryTaken(before: FS, now: FS, src: Path, dest: Path, done: set<Name>, e: Name, p: Path, tries: nat,
                   suffix: nat -> string)
    requires Apart(before, src, dest) && Progress(before, now, src, dest, done) && |p| > |dest|
    requires AllTaken(now, src + [e], dest + [e], p, tries, suffix)
    ensures AllTaken(before, src, dest, p, tries, suffix)
  {
    forall n | 0 <= n < tries ensures MayBe(before, src, dest, Temp(p, suffix(n))) {
      EntryMayBe(before, now, src, dest, done, e, Temp(p, suffix(n)));
    }
  }

  /** What a copy did, for a source and destination apart from each other. */
  ghost predicate CopyOutcome(before: FS, after: FS, src: Path, dest: Path, temps: TempNames, r: Result<(), OpError>)
  {
    match r
    case Ok(_) => src in before && !Conflict(before, src, dest) && IsOverlay(before, after, src, dest)
    case Err(e) =>
      && Partway(before, after, src, dest)
      && (e == NotExist || e == Exists || e == NamesTaken)
      && (e == NotExist ==> src !in before)
      && (e == Exists ==> Conflict(before, src, dest))
      && (e == NamesTaken ==> Crowded(before, src, dest, temps))
  }

  class Disk {
    var fs: FS
    const temps: TempNames

    constructor (fs: FS, temps: TempNames)
      ensures this.fs == fs && this.temps == temps
    {
      this.fs, this.temps := fs, temps;
    }

    /** Creates the entry under a free temporary name beside dest, then renames it over dest. */
    method ReplaceWith(dest: Path, node: Node, tries: nat, suffix: nat -> string) returns (r: Result<(), OpError>)
      requires dest != [] && !IsDir(fs, dest)
      modifies this`fs
      ensures r.Ok? ==> fs == old(fs)[dest := node]
      ensures r.Err? ==> r.error == NamesTaken && fs == old(fs)
      ensures r.Err? <==> forall n :: 0 <= n < tries ==> Temp(dest, suffix(n)) in old(fs)
    {
      var n := 0;
      while n < tries
        invariant fs == old(fs) && n <= tries
        invariant forall m :: 0 <= m < n ==> Temp(dest, suffix(m)) in fs
      {
        var tmp := Temp(dest, suffix(n));
        if tmp in fs {
          n := n + 1;
          continue;
        }
        fs := fs[tmp := node];
        assert |Base(tmp)| > |Base(dest)|;
        fs := (fs - {tmp})[dest := fs[tmp]];
        assert fs == old(fs)[dest := node];
        return Ok(());
      }
      return Err(NamesTaken);
    }

    /** Copies a tree, entry by entry; existing directories are merged into. */
    method CopyPath(src: Path, dest: Path, ghost depth: nat) returns (r: Result<(), OpError>)
      requires WellFormed(fs) && AllOrdinary(dest) && IsDir(fs, Parent(dest))
      requires !(src <= dest) && Shallow(fs, src, depth)
      modifies this`fs
      ensures WellFormed(fs) && OnlyBelow(old(fs), fs, src, dest, depth)
      ensures CopyRun(Levels(src, depth), old(fs), fs, src, dest, r)
      ensures Apart(old(fs), src, dest) ==> CopyOutcome(old(fs), fs, src, dest, temps, r)
      decreases depth + 1 - |src|
    {
      if src !in fs {
        return Err(NotExist);
      }
      var info := fs[src];
      if info.Dir? {
        if dest in fs && !fs[dest].Dir? {
          ConflictHere(fs, src, dest);
          return Err(Exists);
        }
        r := CopyDir(src, dest, info.mode, depth);
        return;
      }
      if dest in fs && fs[dest].Dir? {
        ConflictHere(fs, src, dest);
        return Err(Exists);
      }
      LeafOverlay(fs, src, dest);
      WriteKeepsWellFormed(fs, dest, info);
      if info.Link? {
        r := ReplaceWith(dest, Link(info.absolute, info.target), LINK_TRIES, temps.link);
      } else {
        r := ReplaceWith(dest, File(info.content, info.mode), FILE_TRIES, temps.file);
      }
      assert r.Err? ==> CrowdedAt(old(fs), src, dest, temps, dest);
    }

    lemma ConflictHere(fs: FS, src: Path, dest: Path)
      requires src in fs && dest in fs && fs[src].Dir? != fs[dest].Dir?
      ensures Conflict(fs, src, dest)
    {
      assert Back(src, dest, dest) == src;
      assert ConflictAt(fs, src, dest, dest);
    }

    /** The directory branch of copyPath. */
    method CopyDir(src: Path, dest: Path, mode: nat, ghost depth: nat) returns (r: Result<(), OpError>)
      requires WellFormed(fs) && AllOrdinary(dest) && IsDir(fs, Parent(dest))
      requires !(src <= dest) && Shallow(fs, src, depth)
      requires src in fs && fs[src] == Dir(mode) && (dest in fs ==> fs[dest].Dir?)
      modifies this`fs
      ensures WellFormed(fs) && OnlyBelow(old(fs), fs, src, dest, depth)
      ensures DirRun(Levels(src, depth) - 1, Made(old(fs), dest, mode), fs, src, dest, mode, r)
      ensures Apart(old(fs), src, dest) ==> CopyOutcome(old(fs), fs, src, dest, temps, r)
      decreases depth + 1 - |src|, 1
    {
      ghost var before := fs;
      if dest !in fs {
        WriteKeepsWellFormed(fs, dest, Dir(Widened(mode)));
        fs := fs[dest := Dir(Widened(mode))];
      }
      CopyingStarts(before, fs, src, dest, depth);
      NamesOrdinary(fs, src);
      ghost var apart := Apart(fs, src, dest);
      if apart {
        NamesUnchanged(before, fs, src, dest);
      }
      r := CopyEntries(src, dest, before, depth, Names(fs, src));
      if r.Err? {
        return;
      }
      if apart {
        AllEntriesDone(before, fs, src, dest, mode, temps);
      }
      WriteKeepsWellFormed(fs, dest, Dir(mode));
      fs := fs[dest := Dir(mode)];
    }

    /** The entries, in whatever order the directory lists them. */
    method CopyEntries(src: Path, dest: Path, ghost before: FS, ghost depth: nat, names: set<Name>)
      returns (r: Result<(), OpError>)
      requires AllOrdinary(dest) && !(src <= dest) && Shallow(before, src, depth) && IsDir(before, src)
      requires Copying(before, fs, src, dest, depth, {})
      requires forall e :: e in names ==> Ordinary(e)
      requires Apart(before, src, dest) ==> names == Names(before, src)
      modifies this`fs
      ensures WellFormed(fs) && OnlyBelow(before, fs, src, dest, depth)
      ensures EntriesRun(Levels(src, depth) - 1, old(fs), fs, src, dest, names, r)
      ensures r.Ok? ==> Copying(before, fs, src, dest, depth, names)
      ensures r.Err? && Apart(before, src, dest) ==> CopyOutcome(before, fs, src, dest, temps, r)
      decreases depth + 1 - |src|, 0
    {
      var todo := names;
      ghost var done := {};
      ghost var start, left := fs, Levels(src, depth) - 1;
      assert |src| <= depth;
      while todo != {}
        invariant todo <= names && done == names - todo
        invariant Copying(before, fs, src, dest, depth, done)
        invariant Continues(left, start, names, fs, todo, src, dest)
        decreases todo
      {
        var e :| e in todo;
        ghost var now := fs;
        EntryReady(before, fs, src, dest, depth, done, e);
        assert Levels(src + [e], depth) == left;
        r := CopyPath(src + [e], dest + [e], depth);
        if r.Err? {
          StopsAt(left, start, names, now, fs, todo, e, src, dest, r);
          EntryStopped(before, now, fs, src, dest, depth, done, e, temps, r);
          return;
        }
        ContinuesAfter(left, start, names, now, fs, todo, e, src, dest, r);
        EntryCopied(before, now, fs, src, dest, depth, done, e, temps);
        todo := todo - {e};
        done := done + {e};
      }
      assert done == names;
      r := Ok(());
    }

    /** os.RemoveAll */
    method RemoveAll(top: Path)
      modifies this`fs
      ensures IsRemoved(old(fs), fs, top)
    {
      fs := map q | q in fs && !(top <= q) :: fs[q];
    }

    /** os.Rename: an existing directory is refused before the system call, which would replace an empty one. */
    method SystemRename(src: Path, dest: Path, crossDevice: bool) returns (r: Result<(), OpError>)
      requires WellFormed(fs) && src != [] && !(src <= dest) && AllOrdinary(dest) && IsDir(fs, Parent(dest))
      modifies this`fs
      ensures WellFormed(fs)
      ensures r.Ok? <==> !crossDevice && src in old(fs) && MayReplace(old(fs), src, dest, true)
      ensures r.Ok? ==> IsRenamed(old(fs), fs, src, dest)
      ensures r.Err? ==> fs == old(fs) && (r == Err(CrossDevice) || Refuses(old(fs), src, dest, true, crossDevice, r))
      ensures r == Err(CrossDevice) <==> crossDevice && !IsDir(old(fs), dest)
    {
      if dest in fs && fs[dest].Dir? {
        if src !in fs {
          return Err(NotExist);
        }
        return Err(DirectoryThere);
      }
      if crossDevice {
        return Err(CrossDevice);
      }
      if src !in fs {
        return Err(NotExist);
      }
      if dest in fs && fs[src].Dir? {
        return Err(NotADirectory);
      }
      NoDirIsNotAbove(fs, src, dest);
      ghost var before := fs;
      fs := RenamedTree(fs, src, dest);
      RenamedTreeIs(before, src, dest);
      RenamedWellFormed(before, fs, src, dest);
      return Ok(());
    }

    /** rename: renameat2 with RENAME_NOREPLACE, or a check and then os.Rename where that is not supported. */
    method Rename(src: Path, dest: Path, overwrite: bool, crossDevice: bool, noReplaceSupported: bool)
      returns (r: Result<(), OpError>)
      requires WellFormed(fs) && src != [] && !(src <= dest) && AllOrdinary(dest) && IsDir(fs, Parent(dest))
      modifies this`fs
      ensures WellFormed(fs)
      ensures r.Ok? <==> !crossDevice && src in old(fs) && MayReplace(old(fs), src, dest, overwrite)
      ensures r.Ok? ==> IsRenamed(old(fs), fs, src, dest)
      ensures r.Err? ==> fs == old(fs)
      ensures r == Err(CrossDevice) ==> crossDevice && !(overwrite && IsDir(old(fs), dest))
      ensures r.Err? && r.error != CrossDevice ==> Refuses(old(fs), src, dest, overwrite, crossDevice, r)
      ensures crossDevice ==> r == Err(CrossDevice) || (dest in old(fs) && (!overwrite || IsDir(old(fs), dest)))
    {
      if overwrite {
        r := SystemRename(src, dest, crossDevice);
        return;
      }
      if noReplaceSupported {
        if crossDevice {
          return Err(CrossDevice);
        }
        if src !in fs {
          return Err(NotExist);
        }
        if dest in fs {
          return Err(Exists);
        }
        r := SystemRename(src, dest, false);
        return;
      }
      if dest in fs {
        return Err(Exists);
      }
      r := SystemRename(src, dest, crossDevice);
    }

    // ---- Move ---------------------------------------------------------------

    /** moveItem, from its resolved source and destination on. */
    method MoveResolved(src: Path, dest: Path, overwrite: bool, crossDevice: bool, noReplaceSupported: bool)
      returns (r: Result<(), OpError>)
      requires WellFormed(fs) && src != [] && AllOrdinary(src) && AllOrdinary(dest) && IsDir(fs, Parent(dest))
      modifies this`fs
      ensures WellFormed(fs) && r != Err(CrossDevice)
      ensures MoveOutcome(old(fs), fs, src, dest, overwrite, crossDevice, temps, r)
    {
      if dest == src {
        return Ok(());
      }
      WithinIffPrefix(src, dest);
      if Within(src, dest) {
        return Err(IntoItself);
      }
      r := Rename(src, dest, overwrite, crossDevice, noReplaceSupported);
      if r.Ok? || r.error != CrossDevice {
        return;
      }
      if !overwrite {
        if dest in fs {
          return Err(Exists);
        }
      }
      ghost var before := fs;
      ghost var depth := DepthOf(fs);
      if src in fs {
        NoDirIsNotAbove(fs, src, dest);
        DisjointIsApart(fs, src, dest);
      }
      r := CopyPath(src, dest, depth);
      ghost var copied := fs;
      if r.Err? {
        MoveStopped(before, copied, src, dest, overwrite, temps, r, Levels(src, depth));
        return;
      }
      RemoveAll(src);
      SubtreeGoneWellFormed(copied, fs, src);
      CopiedMayReplace(before, src, dest, overwrite);
      RenamedTreeIs(before, src, dest);
      MoveBranchesAgree(before, copied, fs, RenamedTree(before, src, dest), src, dest);
    }

    // ---- Copy ---------------------------------------------------------------

    /** copyName: the first free name beside path. */
    method CopyName(path: Path) returns (r: Result<Path, OpError>)
      ensures r.Ok? ==> r.value !in fs && exists n :: FirstFree(fs, path, n) && r.value == Candidate(fs, path, n)
      ensures r.Err? ==> r.error == NamesTaken && TakenBelow(fs, path, COPY_NAMES)
    {
      var n := 1;
      while n < COPY_NAMES
        invariant 1 <= n <= COPY_NAMES && TakenBelow(fs, path, n)
      {
        var candidate := Candidate(fs, path, n);
        if candidate !in fs {
          assert FirstFree(fs, path, n);
          return Ok(candidate);
        }
        OneMoreTaken(fs, path, n);
        n := n + 1;
      }
      return Err(NamesTaken);
    }

    /**
     copyItem, from its resolved source and destination on. "/" onto "/" is the call that
     never ends: see `RootCopyNeverEnds`.
     */
    method CopyResolved(src: Path, dest: Path, overwrite: bool) returns (r: Result<(), OpError>)
      requires WellFormed(fs) && AllOrdinary(src) && AllOrdinary(dest) && IsDir(fs, Parent(dest))
      requires !(src == [] && dest == [])
      modifies this`fs
      ensures WellFormed(fs)
      ensures CopyItemOutcome(old(fs), fs, src, dest, overwrite, temps, r)
    {
      var at := dest;
      WithinIffPrefix(src, dest);
      if dest == src {
        var name := CopyName(dest);
        if name.Err? {
          return Err(name.error);
        }
        at := name.value;
        ghost var n :| FirstFree(fs, src, n) && at == Candidate(fs, src, n);
        CandidateBeside(fs, src, n);
      } else if Within(src, dest) {
        return Err(IntoItself);
      } else if !overwrite {
        if dest in fs {
          return Err(Exists);
        }
      }
      ghost var depth := DepthOf(fs);
      r := CopyPath(src, at, depth);
    }

    // ---- Whole items --------------------------------------------------------

    /** resolveDestDir: the directory items go to. */
    method ResolveDestDir(root: seq<Name>, destDir: UserPath) returns (r: Result<Path, OpError>)
      requires WellFormed(fs)
      ensures var to := AccessPath(fs, root, destDir);
              r == if to.Err? then Err(BadPath(to.error))
                   else if to.value !in fs then Err(NotExist)
                   else if !fs[to.value].Dir? then Err(NotADirectory)
                   else Ok(to.value)
      ensures r.Ok? ==> DestDir(fs, root, r.value)
    {
      var resolved := ResolveForAccess(fs, root, destDir);
      if resolved.Err? {
        return Err(BadPath(resolved.error));
      }
      if resolved.value !in fs {
        return Err(NotExist);
      }
      LinkFreeIsPlain(fs, resolved.value);
      if !fs[resolved.value].Dir? {
        return Err(NotADirectory);
      }
      return Ok(resolved.value);
    }

    /** moveItem: nothing happens unless both ends resolve inside the root. */
    method MoveItem(root: seq<Name>, item: UserPath, destDir: Path, overwrite: bool, crossDevice: bool,
                    noReplaceSupported: bool)
      returns (r: Result<(), OpError>)
      requires WellFormed(fs) && DestDir(fs, root, destDir)
      modifies this`fs
      ensures WellFormed(fs)
      ensures var source := EntryPath(old(fs), root, item);
              if source.Err? then r == Err(BadPath(source.error)) && fs == old(fs)
              else
                && source.value != []
                && var target := AccessPath(old(fs), root, UserPath(true, destDir + [Base(source.value)]));
                   if target.Err? then r == Err(BadPath(target.error)) && fs == old(fs)
                   else
                     && InsideRoot(old(fs), root, source.value) && InsideRoot(old(fs), root, target.value)
                     && MoveOutcome(old(fs), fs, source.value, target.value, overwrite, crossDevice, temps, r)
    {
      var source := ResolveNonRoot(fs, root, item);
      if source.Err? {
        return Err(BadPath(source.error));
      }
      var src := source.value;
      assert AllOrdinary(src) && src != [];
      var target := ResolveForAccess(fs, root, UserPath(true, destDir + [Base(src)]));
      if target.Err? {
        return Err(BadPath(target.error));
      }
      DestinationShape(fs, root, destDir, Base(src), target.value);
      r := MoveResolved(src, target.value, overwrite, crossDevice, noReplaceSupported);
    }

    /** copyItem: the same, reading through a link at the source. */
    method CopyItem(root: seq<Name>, item: UserPath, destDir: Path, overwrite: bool) returns (r: Result<(), OpError>)
      requires WellFormed(fs) && DestDir(fs, root, destDir)
      requires AccessPath(fs, root, item) == Ok([]) ==> destDir != []
      modifies this`fs
      ensures WellFormed(fs)
      ensures var source := AccessPath(old(fs), root, item);
              if source.Err? then r == Err(BadPath(source.error)) && fs == old(fs)
              else
                var target := AccessPath(old(fs), root, UserPath(true, Joined(destDir, source.value)));
                if target.Err? then r == Err(BadPath(target.error)) && fs == old(fs)
                else
                  && InsideRoot(old(fs), root, source.value) && InsideRoot(old(fs), root, target.value)
                  && CopyItemOutcome(old(fs), fs, source.value, target.value, overwrite, temps, r)
    {
      var source := ResolveForAccess(fs, root, item);
      if source.Err? {
        return Err(BadPath(source.error));
      }
      var src := source.value;
      var target := ResolveForAccess(fs, root, UserPath(true, Joined(destDir, src)));
      if target.Err? {
        return Err(BadPath(target.error));
      }
      if src == [] {
        RootCopyTarget(fs, root, destDir, target.value);
      } else {
        DestinationShape(fs, root, destDir, Base(src), target.value);
      }
      r := CopyResolved(src, target.value, overwrite);
    }
  }

  /** filepath.Join(dir, filepath.Base(src)): the base of "/" is "/", and joining that leaves dir. */
  function Joined(dir: Path, src: Path): Path
  {
    if src == [] then dir else dir + [Base(src)]
  }

  ghost predicate InsideRoot(fs: FS, root: seq<Name>, p: Path)
  {
    EvalSymlinks(fs, root).Ok? && EvalSymlinks(fs, root).value <= p
  }

  /**
   What a move did. It is refused without effect when there is nothing to move or the
   destination may not be replaced. Otherwise it is a rename, on one device or across, but
   that a copy across devices can stop for want of a temporary name.
   */
  ghost predicate MoveOutcome(before: FS, after: FS, src: Path, dest: Path, overwrite: bool, crossDevice: bool,
                              temps: TempNames, r: Result<(), OpError>)
  {
    if dest == src then r.Ok? && after == before
    else if src <= dest then r == Err(IntoItself) && after == before
    else if src !in before || !MayReplace(before, src, dest, overwrite) then
      Refuses(before, src, dest, overwrite, crossDevice, r) && after == before
    else if r.Ok? then IsRenamed(before, after, src, dest)
    else crossDevice && r == Err(NamesTaken) && Partway(before, after, src, dest) && Crowded(before, src, dest, temps)
  }

  /** A copy onto what is no directory meets no conflict if the move may replace it. */
  lemma NoConflictToReplace(fs: FS, src: Path, dest: Path, overwrite: bool)
    requires WellFormed(fs) && src in fs && MayReplace(fs, src, dest, overwrite)
    ensures !Conflict(fs, src, dest)
  {
    forall p ensures !ConflictAt(fs, src, dest, p) {
      if dest <= p && p in fs {
        PrefixExists(fs, p, dest);
        assert p == dest;
        assert Back(src, dest, dest) == src;
      }
    }
  }

  /** The copy of a move across devices that failed. */
  lemma MoveStopped(before: FS, after: FS, src: Path, dest: Path, overwrite: bool, temps: TempNames,
                    r: Result<(), OpError>, fuel: nat)
    requires WellFormed(before) && dest != src && !(src <= dest) && !IsDir(before, dest) && r.Err?
    requires !overwrite ==> dest !in before
    requires CopyRun(fuel, before, after, src, dest, r)
    requires src in before ==> CopyOutcome(before, after, src, dest, temps, r)
    ensures MoveOutcome(before, after, src, dest, overwrite, true, temps, r) && r != Err(CrossDevice)
  {
    if src in before && MayReplace(before, src, dest, overwrite) {
      NoConflictToReplace(before, src, dest, overwrite);
    }
  }

  lemma CopiedMayReplace(fs: FS, src: Path, dest: Path, overwrite: bool)
    requires src in fs && !IsDir(fs, dest) && !Conflict(fs, src, dest) && (!overwrite ==> dest !in fs)
    ensures MayReplace(fs, src, dest, overwrite)
  {
    assert Back(src, dest, dest) == src;
    assert !ConflictAt(fs, src, dest, dest);
  }

  /**
   Every move that succeeds, overwriting or not, on one device or across: the whole tree of
   the source is at the destination and nothing else, nothing is left at the source, and
   nothing anywhere else has changed.
   */
  lemma MoveKeepsTree(before: FS, after: FS, src: Path, dest: Path, overwrite: bool, crossDevice: bool,
                      temps: TempNames)
    requires WellFormed(before) && dest != src
    requires MoveOutcome(before, after, src, dest, overwrite, crossDevice, temps, Ok(()))
    ensures src in before && Disjoint(src, dest)
    ensures forall t :: At(after, dest + t) == At(before, src + t) && At(after, src + t) == None
    ensures forall p :: !(src <= p) && !(dest <= p) ==> At(after, p) == At(before, p)
  {
    NoDirIsNotAbove(before, src, dest);
    forall t ensures At(after, dest + t) == At(before, src + t) && At(after, src + t) == None {
      assert Back(src, dest, dest + t) == src + t;
      assert At(after, dest + t) == RenamedAt(before, src, dest, dest + t);
      assert At(after, src + t) == RenamedAt(before, src, dest, src + t);
      NotBelowBoth(src, dest, src + t);
    }
  }

  /** What a copy of an item did; onto itself it goes beside itself, under the first free name. */
  ghost predicate CopyItemOutcome(before: FS, after: FS, src: Path, dest: Path, overwrite: bool, temps: TempNames,
                                  r: Result<(), OpError>)
  {
    if dest == src then
      || (r == Err(NamesTaken) && after == before && TakenBelow(before, src, COPY_NAMES))
      || exists n :: FirstFree(before, src, n) && CopyOutcome(before, after, src, Candidate(before, src, n), temps, r)
    else if src <= dest then r == Err(IntoItself) && after == before
    else if !overwrite && dest in before then r == Err(Exists) && after == before
    else
      && Runs(before, after, src, dest, r) && Frame(before, after, dest)
      && (Apart(before, src, dest) ==> CopyOutcome(before, after, src, dest, temps, r))
  }

  /**
   A copy that succeeds has laid the source over the destination, unless the source lies
   inside it and holds the way down from it to itself once more.
   */
  lemma CopyIsOverlay(before: FS, after: FS, src: Path, dest: Path, overwrite: bool, temps: TempNames)
    requires WellFormed(before) && !(src <= dest) && (dest <= src ==> src + src[|dest|..] !in before)
    requires CopyItemOutcome(before, after, src, dest, overwrite, temps, Ok(()))
    ensures IsOverlay(before, after, src, dest)
  {
    ApartIff(before, src, dest);
  }

  /** In particular a copy onto nothing puts the source's tree there and changes nothing else. */
  lemma CopyOntoNothing(before: FS, after: FS, src: Path, dest: Path, overwrite: bool, temps: TempNames)
    requires WellFormed(before) && !(src <= dest) && dest !in before
    requires CopyItemOutcome(before, after, src, dest, overwrite, temps, Ok(()))
    ensures Disjoint(src, dest) && IsOverlay(before, after, src, dest)
  {
    NoDirIsNotAbove(before, src, dest);
    CopyIsOverlay(before, after, src, dest, overwrite, temps);
  }

  /** A directory inside the root, with no link on its way. */
  ghost predicate DestDir(fs: FS, root: seq<Name>, dir: Path)
  {
    EvalSymlinks(fs, root).Ok? && EvalSymlinks(fs, root).value <= dir && Plain(fs, dir) && IsDir(fs, dir)
  }

  /** Resolving a resolved directory gives it back. */
  lemma RootCopyTarget(fs: FS, root: seq<Name>, dir: Path, dest: Path)
    requires WellFormed(fs) && DestDir(fs, root, dir)
    requires AccessPath(fs, root, UserPath(true, dir)) == Ok(dest)
    ensures dest == dir && AllOrdinary(dest) && IsDir(fs, Parent(dest))
  {
    var realRoot := EvalSymlinks(fs, root).value;
    assert AllOrdinary(dir) && IsDir(fs, Parent(dir));
    if dir == realRoot {
      AccessOfCleaned(fs, root, dir);
      NothingToFollow(fs, realRoot, dir[|realRoot|..]);
    } else {
      LastName(realRoot, dir);
      CopyTargetBelow(fs, root, Parent(dir), Base(dir), dest);
    }
  }

  lemma NothingToFollow(fs: FS, root: Path, parts: seq<Name>)
    requires parts == []
    ensures Confined(fs, root, parts, true) == Ok(root) || Confined(fs, root, parts, true).Err?
  {
  }

  lemma LastName(above: Path, p: Path)
    requires above <= p && p != above && AllOrdinary(p)
    ensures p == Parent(p) + [Base(p)] && above <= Parent(p) && Ordinary(Base(p))
  {
  }

  lemma CopyTargetBelow(fs: FS, root: seq<Name>, up: Path, base: Name, dest: Path)
    requires WellFormed(fs) && EvalSymlinks(fs, root).Ok? && EvalSymlinks(fs, root).value <= up
    requires Ordinary(base) && Plain(fs, up + [base]) && IsDir(fs, up + [base])
    requires AccessPath(fs, root, UserPath(true, up + [base])) == Ok(dest)
    ensures dest == up + [base]
  {
    assert Parent(up + [base]) == up;
    AccessBelowPlain(fs, root, up, base);
    LstatBelowPlain(fs, up, base);
    assert [base][1..] == [];
  }

  // ---- Names for copies -----------------------------------------------------

  const COPY_NAMES: nat := 1000

  /** Where the last dot of a name is, or |s|. */
  function LastDot(s: string): (i: nat)
    ensures i <= |s|
  {
    if s == [] then 0
    else if s[|s| - 1] == '.' then |s| - 1
    else
      var i := LastDot(s[..|s| - 1]);
      if i == |s| - 1 then |s| else i
  }

  /** filepath.Ext */
  function Ext(s: string): string
  {
    s[LastDot(s)..]
  }

  function Number(n: nat): string
  {
    if n < 10 then [('0' as int + n) as char] else Number(n / 10) + [('0' as int + n % 10) as char]
  }

  function CopySuffix(n: nat): string
  {
    if n > 1 then " (copy " + Number(n) + ")" else " (copy)"
  }

  /** The n-th name tried: a file keeps its extension at the end. */
  function Candidate(fs: FS, path: Path, n: nat): Path
  {
    var base := if path == [] then "" else Base(path);
    var ext := Ext(base);
    if path in fs && !fs[path].Dir? && ext != "" && ext != base then
      Parent(path) + [base[..LastDot(base)] + CopySuffix(n) + ext]
    else Parent(path) + [base + CopySuffix(n)]
  }

  /** A file's extension: what follows its last dot, unless nothing precedes that. */
  ghost predicate HasExtension(base: string, stem: string, ext: string)
  {
    base == stem + ext && stem != "" && ext != "" && ext[0] == '.' && '.' !in ext[1..]
  }

  lemma {:induction false} LastDotIs(s: string, stem: string, ext: string)
    requires s == stem + ext && ext != "" && ext[0] == '.' && '.' !in ext[1..]
    ensures LastDot(s) == |stem|
    decreases |ext|
  {
    var n := |s| - 1;
    if |ext| == 1 {
      assert s[n] == '.';
    } else {
      assert s[n] == ext[1..][|ext| - 2];
      LastDotIs(s[..n], stem, ext[..|ext| - 1]);
    }
  }

  lemma {:induction false} NoLastDot(s: string)
    requires '.' !in s
    ensures LastDot(s) == |s|
    decreases |s|
  {
    if s != "" { NoLastDot(s[..|s| - 1]); }
  }

  /** A copy of a file keeps its extension last; any other name is only lengthened. */
  lemma CopyNameKeepsExtension(fs: FS, path: Path, n: nat, stem: string, ext: string)
    requires path != [] && Ordinary(Base(path))
    ensures path in fs && !fs[path].Dir? && HasExtension(Base(path), stem, ext) ==>
              Candidate(fs, path, n) == Parent(path) + [stem + CopySuffix(n) + ext]
    ensures IsDir(fs, path) || '.' !in Base(path)[1..] ==>
              Candidate(fs, path, n) == Parent(path) + [Base(path) + CopySuffix(n)]
  {
    var base := Base(path);
    if HasExtension(base, stem, ext) {
      LastDotIs(base, stem, ext);
      assert base[..|stem|] == stem && base[|stem|..] == ext;
    }
    if '.' !in base[1..] {
      if base[0] == '.' {
        LastDotIs(base, "", base);
      } else {
        assert forall i :: 0 < i < |base| ==> base[i] == base[1..][i - 1];
        NoLastDot(base);
      }
    }
  }

  /** The number that decimal digits stand for, read digit by digit. */
  function ReadNumber(digits: string): int
  {
    if digits == "" then 0 else 10 * ReadNumber(digits[..|digits| - 1]) + (digits[|digits| - 1] as int - '0' as int)
  }

  lemma {:induction false} NumberReadsBack(n: nat)
    ensures ReadNumber(Number(n)) == n && forall i :: 0 <= i < |Number(n)| ==> '0' <= Number(n)[i] <= '9'
  {
    if n < 10 {
      assert Number(n)[..0] == "";
    } else {
      NumberReadsBack(n / 10);
      var s := Number(n / 10);
      assert Number(n)[..|s|] == s;
    }
  }

  lemma SuffixNumber(n: nat)
    requires n > 1
    ensures |CopySuffix(n)| > 8 && CopySuffix(n)[7..|CopySuffix(n)| - 1] == Number(n)
  {
  }

  /** From the second on the names are numbered, each differently. */
  lemma CopySuffixIs(m: nat, n: nat)
    ensures n <= 1 ==> CopySuffix(n) == " (copy)"
    ensures n > 1 ==> exists digits :: CopySuffix(n) == " (copy " + digits + ")" && ReadNumber(digits) == n
    ensures 1 <= m < n ==> CopySuffix(m) != CopySuffix(n)
  {
    NumberReadsBack(m);
    NumberReadsBack(n);
    if m > 1 { SuffixNumber(m); }
    if n > 1 { SuffixNumber(n); }
  }

  /** Every name tried before the n-th is taken. */
  ghost predicate TakenBelow(fs: FS, path: Path, n: nat)
  {
    forall m :: 1 <= m < n ==> Candidate(fs, path, m) in fs
  }

  lemma OneMoreTaken(fs: FS, path: Path, n: nat)
    requires TakenBelow(fs, path, n) && Candidate(fs, path, n) in fs
    ensures TakenBelow(fs, path, n + 1)
  {
  }

  ghost predicate FirstFree(fs: FS, path: Path, n: nat)
  {
    1 <= n < COPY_NAMES && Candidate(fs, path, n) !in fs && TakenBelow(fs, path, n)
  }

  /** A copy's name is a sibling's, different from the original's. */
  lemma CandidateBeside(fs: FS, path: Path, n: nat)
    requires path != [] && AllOrdinary(path)
    ensures var c := Candidate(fs, path, n);
            Parent(c) == Parent(path) && c != [] && c != path && Disjoint(path, c) && AllOrdinary(c)
  {
    CandidateName(fs, path, n);
    LongerSibling(path, Base(Candidate(fs, path, n)));
  }

  lemma CandidateName(fs: FS, path: Path, n: nat)
    requires path != []
    ensures var c := Candidate(fs, path, n);
            c == Parent(path) + [Base(c)] && |Base(c)| > |Base(path)| && |Base(c)| > 2
  {
    assert |CopySuffix(n)| > 2;
  }

  lemma LongerSibling(path: Path, base: Name)
    requires path != [] && AllOrdinary(path) && |base| > |Base(path)| && |base| > 2
    ensures var c := Parent(path) + [base];
            Parent(c) == Parent(path) && c != path && Disjoint(path, c) && AllOrdinary(c)
  {
    var c := Parent(path) + [base];
    assert path == Parent(path) + [Base(path)];
    forall i | 0 <= i < |c| ensures Ordinary(c[i]) {
      assert i < |path| - 1 ==> c[i] == path[i];
    }
  }

  /** The one source whose copy beside itself lands inside itself is "/". */
  lemma CopyNameInsideRoot(fs: FS, path: Path, n: nat)
    requires AllOrdinary(path)
    ensures path <= Candidate(fs, path, n) <==> path == []
  {
    if path != [] {
      CandidateBeside(fs, path, n);
    }
  }

  /** With the root "/", a request to copy "/" into "/" resolves, at both ends, to "/". */
  lemma RootOntoRoot(fs: FS, raw: seq<Name>)
    requires WellFormed(fs) && Clean(raw) == []
    ensures AccessPath(fs, [], UserPath(true, raw)) == Ok([])
    ensures DestDir(fs, [], []) && AccessPath(fs, [], UserPath(true, Joined([], []))) == Ok([])
  {
    assert EvalSymlinks(fs, []) == Ok([]);
    assert Within([], []);
    assert Follow(fs, [], [], [], true) == Ok([]);
  }

  /**
   There the branch that picks a copy name goes past the into-itself check, and the copy
   never ends, unless some temporary name cannot be had on the way.
   */
  lemma RootCopyNeverEnds(fs: FS, raw: seq<Name>, n: nat, after: FS, r: Result<(), OpError>)
    requires WellFormed(fs) && Clean(raw) == [] && FirstFree(fs, [], n)
    ensures AccessPath(fs, [], UserPath(true, raw)) == Ok([]) == AccessPath(fs, [], UserPath(true, Joined([], [])))
    ensures Runs(fs, after, [], Candidate(fs, [], n), r) ==> r == Err(NamesTaken)
  {
    RootOntoRoot(fs, raw);
    var c := "" + CopySuffix(n);
    assert Candidate(fs, [], n) == [] + [c];
    assert |CopySuffix(n)| > 2;
    if Runs(fs, after, [], Candidate(fs, [], n), r) {
      var fuel :| CopyRun(fuel, fs, after, [], Candidate(fs, [], n), r);
      NestedCopyNeverEnds(fuel, fs, after, [], c, r);
    }
  }

  // ---- Renaming -------------------------------------------------------------

  function RenamedTree(fs: FS, src: Path, dest: Path): FS
  {
    var others := map q | q in fs && !(src <= q) && !(dest <= q) :: fs[q];
    var moved := set q | q in fs && src <= q :: dest + q[|src|..];
    others + map p | p in moved && dest <= p && Back(src, dest, p) in fs :: fs[Back(src, dest, p)]
  }

  lemma RenamedTreeIs(fs: FS, src: Path, dest: Path)
    ensures IsRenamed(fs, RenamedTree(fs, src, dest), src, dest)
  {
    var after := RenamedTree(fs, src, dest);
    var moved := set q | q in fs && src <= q :: dest + q[|src|..];
    forall p ensures At(after, p) == RenamedAt(fs, src, dest, p) {
      if dest <= p {
        var q := Back(src, dest, p);
        assert p == dest + q[|src|..];
        if q in fs {
          assert p in moved;
        }
      } else {
        assert p !in moved;
      }
    }
  }

  lemma ThroughParent(a: Path, p: Path)
    requires a <= Parent(p)
    ensures a <= p
  {
    assert Parent(p) <= p;
  }

  /** An entry that was not renamed still lies in its directory. */
  lemma LeftInPlace(before: FS, after: FS, src: Path, dest: Path, p: Path)
    requires WellFormed(before) && IsRenamed(before, after, src, dest) && p in after && !(dest <= p)
    ensures p in before && AllOrdinary(p) && (src != [] ==> IsDir(after, Parent(p)))
  {
    var up := Parent(p);
    assert At(after, p) == RenamedAt(before, src, dest, p);
    assert At(after, up) == RenamedAt(before, src, dest, up);
    assert IsDir(before, up);
    if src != [] && src <= up {
      ThroughParent(src, p);
    }
    if dest <= up {
      ThroughParent(dest, p);
    }
  }

  /** An entry below the renamed one lies in the renamed directory of its own. */
  lemma BroughtAlong(before: FS, after: FS, src: Path, dest: Path, p: Path)
    requires WellFormed(before) && IsRenamed(before, after, src, dest) && AllOrdinary(dest)
    requires p in after && dest <= p && p != dest
    ensures AllOrdinary(p) && IsDir(after, Parent(p))
  {
    var up, q := Parent(p), Back(src, dest, p);
    assert At(after, p) == RenamedAt(before, src, dest, p);
    assert At(after, up) == RenamedAt(before, src, dest, up);
    assert q in before && IsDir(before, Parent(q)) && AllOrdinary(q);
    RenamedOrdinary(src, dest, p);
    assert up == dest + up[|dest|..] && Parent(q) == Back(src, dest, up);
  }

  lemma RenamedWellFormed(before: FS, after: FS, src: Path, dest: Path)
    requires WellFormed(before) && Disjoint(src, dest) && src in before && src != []
             && IsRenamed(before, after, src, dest)
    requires AllOrdinary(dest) && IsDir(before, Parent(dest)) && dest != []
    ensures WellFormed(after)
  {
    assert At(after, []) == RenamedAt(before, src, dest, []);
    forall p | p in after ensures IsDir(after, Parent(p)) && AllOrdinary(p) {
      if !(dest <= p) {
        LeftInPlace(before, after, src, dest, p);
      } else if p != dest {
        BroughtAlong(before, after, src, dest, p);
      } else {
        var up := Parent(dest);
        assert At(after, up) == RenamedAt(before, src, dest, up);
        if src <= up {
          ThroughParent(src, dest);
        }
      }
    }
  }

  lemma RenamedOrdinary(src: Path, dest: Path, p: Path)
    requires dest <= p && AllOrdinary(dest) && AllOrdinary(Back(src, dest, p))
    ensures AllOrdinary(p)
  {
    var q := Back(src, dest, p);
    forall i | 0 <= i < |p| ensures Ordinary(p[i]) {
      if i < |dest| {
        assert p[i] == dest[i];
      } else {
        assert p[i] == q[|src| + i - |dest|];
      }
    }
  }
}
