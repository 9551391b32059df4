/**
 Copying and moving trees (webmanager/backend/internal/files/mutate.go). The file system
 is changed one entry at a time; what the operations amount to is said by what is found
 at every path afterwards.
 */
module TreeChanges {
  import opened Wrappers
  import opened FileSystem

  function At(fs: FS, p: Path): Option<Node>
  {
    if p in fs then Some(fs[p]) else None
  }

  /** The path below src that corresponds to p below dest. */
  function Back(src: Path, dest: Path, p: Path): Path
    requires dest <= p
  {
    src + p[|dest|..]
  }

  /** What is at p once the tree at src has been laid over dest. */
  function OverlayAt(fs: FS, src: Path, dest: Path, p: Path): Option<Node>
  {
    var copied := Copied(fs, src, dest, p);
    if copied.Some? then copied else At(fs, p)
  }

  /** What the source has for p, if p is below dest. */
  function Copied(fs: FS, src: Path, dest: Path, p: Path): Option<Node>
  {
    if dest <= p then At(fs, Back(src, dest, p)) else None
  }

  ghost predicate IsOverlay(before: FS, after: FS, src: Path, dest: Path)
  {
    forall p :: At(after, p) == OverlayAt(before, src, dest, p)
  }

  /** What is at p once src has been renamed to dest. */
  function RenamedAt(fs: FS, src: Path, dest: Path, p: Path): Option<Node>
  {
    if dest <= p then At(fs, Back(src, dest, p)) else if src <= p then None else At(fs, p)
  }

  ghost predicate IsRenamed(before: FS, after: FS, src: Path, dest: Path)
  {
    forall p :: At(after, p) == RenamedAt(before, src, dest, p)
  }

  ghost predicate IsRemoved(before: FS, after: FS, top: Path)
  {
    forall p :: At(after, p) == if top <= p then None else At(before, p)
  }

  predicate Disjoint(a: Path, b: Path)
  {
    !(a <= b) && !(b <= a)
  }

  /** Nothing copied from src to dest lands in src itself. */
  ghost predicate Apart(fs: FS, src: Path, dest: Path)
  {
    !(src <= dest) && forall q :: src <= q && dest <= q ==> Back(src, dest, q) !in fs
  }

  /** Somewhere a directory would have to replace something else, or the other way round. */
  ghost predicate Conflict(fs: FS, src: Path, dest: Path)
  {
    exists p :: ConflictAt(fs, src, dest, p)
  }

  ghost predicate ConflictAt(fs: FS, src: Path, dest: Path, p: Path)
  {
    dest <= p && p in fs && Back(src, dest, p) in fs && fs[p].Dir? != fs[Back(src, dest, p)].Dir?
  }

  /** A copy that stopped half way: below dest every entry is as before or as copied. */
  ghost predicate Partway(before: FS, after: FS, src: Path, dest: Path)
  {
    forall p :: Between(At(before, p), At(after, p), Copied(before, src, dest, p))
  }

  /** As before or as copied; a directory may not have its mode yet. */
  predicate Between(old': Option<Node>, now: Option<Node>, copied: Option<Node>)
  {
    now == old' || (copied.Some? && (now == copied || (now.Some? && now.value.Dir? && copied.value.Dir?)))
  }

  // ---- One directory level --------------------------------------------------

  /** The names in a directory. */
  function Names(fs: FS, dir: Path): set<Name>
  {
    set p | p in fs && p != [] && Parent(p) == dir :: p[|p| - 1]
  }

  lemma NamesAre(fs: FS, dir: Path, e: Name)
    ensures e in Names(fs, dir) <==> dir + [e] in fs
  {
    var p := dir + [e];
    assert Parent(p) == dir && p[|p| - 1] == e;
    if e in Names(fs, dir) {
      var q :| q in fs && q != [] && Parent(q) == dir && q[|q| - 1] == e;
      assert q == Parent(q) + [q[|q| - 1]];
    }
  }

  /** p lies at or below an entry of dest whose name is in `names`. */
  predicate Under(dest: Path, names: set<Name>, p: Path)
  {
    dest <= p && |p| > |dest| && p[|dest|] in names
  }

  /** The directory itself is there, and the entries in `done` have been laid over. */
  ghost predicate Progress(before: FS, now: FS, src: Path, dest: Path, done: set<Name>)
  {
    && IsDir(now, dest)
    && forall p :: p != dest ==>
         At(now, p) == if Under(dest, done, p) then OverlayAt(before, src, dest, p) else At(before, p)
  }

  lemma UnderEntry(dest: Path, e: Name, p: Path)
    ensures dest + [e] <= p <==> Under(dest, {e}, p)
  {
    if dest + [e] <= p {
      assert p[|dest|] == (dest + [e])[|dest|] == e;
      assert p[..|dest|] == (dest + [e])[..|dest|];
    }
    if Under(dest, {e}, p) {
      assert p[..|dest| + 1] == dest + [e];
    }
  }

  lemma BackEntry(src: Path, dest: Path, e: Name, p: Path)
    requires dest + [e] <= p
    ensures dest <= p && Back(src + [e], dest + [e], p) == Back(src, dest, p)
  {
    UnderEntry(dest, e, p);
    assert p[|dest|..] == [e] + p[|dest| + 1..];
  }

  /** Two paths above the same one are one above the other. */
  lemma Comparable(a: Path, b: Path, p: Path)
    requires a <= p && b <= p
    ensures a <= b || b <= a
  {
    assert a == p[..|a|] && b == p[..|b|];
    if |a| <= |b| {
      assert a == b[..|a|];
    } else {
      assert b == a[..|b|];
    }
  }

  lemma PrefixExists(fs: FS, p: Path, a: Path)
    requires WellFormed(fs) && p in fs && a <= p
    ensures a in fs && (a != p ==> fs[a].Dir?)
  {
    PrefixesExist(fs, p, |a|);
    assert p[..|a|] == a;
  }

  /** Nothing below a source that is disjoint from dest has changed. */
  lemma SourceUntouched(before: FS, now: FS, src: Path, dest: Path, done: set<Name>, q: Path)
    requires Apart(before, src, dest) && Progress(before, now, src, dest, done) && src <= q
    ensures At(now, q) == At(before, q)
  {
    assert q != dest;
    if dest <= q {
      assert Back(src, dest, q) !in before;
    }
  }

  /** One more entry laid over. */
  lemma ProgressStep(before: FS, now: FS, next: FS, src: Path, dest: Path, done: set<Name>, e: Name)
    requires Apart(before, src, dest) && e !in done
    requires Progress(before, now, src, dest, done) && IsOverlay(now, next, src + [e], dest + [e])
    ensures Progress(before, next, src, dest, done + {e})
  {
    forall p | p != dest
      ensures At(next, p) == if Under(dest, done + {e}, p) then OverlayAt(before, src, dest, p) else At(before, p)
    {
      StepAt(before, now, next, src, dest, done, e, p);
    }
    UnderEntry(dest, e, dest);
    assert At(next, dest) == OverlayAt(now, src + [e], dest + [e], dest);
  }

  lemma StepAt(before: FS, now: FS, next: FS, src: Path, dest: Path, done: set<Name>, e: Name, p: Path)
    requires Apart(before, src, dest) && e !in done && p != dest
    requires Progress(before, now, src, dest, done) && IsOverlay(now, next, src + [e], dest + [e])
    ensures At(next, p) == if Under(dest, done + {e}, p) then OverlayAt(before, src, dest, p) else At(before, p)
  {
    UnderEntry(dest, e, p);
    assert At(next, p) == OverlayAt(now, src + [e], dest + [e], p);
    if dest + [e] <= p {
      BackEntry(src, dest, e, p);
      SourceUntouched(before, now, src, dest, done, Back(src, dest, p));
    }
  }

  /** All entries laid over, and the directory's own mode set. */
  lemma ProgressComplete(before: FS, now: FS, after: FS, src: Path, dest: Path, done: set<Name>)
    requires WellFormed(before) && Apart(before, src, dest) && src in before && done == Names(before, src)
    requires Progress(before, now, src, dest, done)
    requires At(after, dest) == Some(before[src]) && forall p :: p != dest ==> At(after, p) == At(now, p)
    ensures IsOverlay(before, after, src, dest)
  {
    forall p ensures At(after, p) == OverlayAt(before, src, dest, p) {
      if p == dest {
        assert Back(src, dest, p) == src;
      } else if dest <= p && !Under(dest, done, p) {
        NothingCopiedHere(before, src, dest, p);
      }
    }
  }

  lemma NothingCopiedHere(fs: FS, src: Path, dest: Path, p: Path)
    requires WellFormed(fs) && dest <= p && p != dest && p[|dest|] !in Names(fs, src)
    ensures Back(src, dest, p) !in fs
  {
    var e, q := p[|dest|], Back(src, dest, p);
    NamesAre(fs, src, e);
    assert q == src + [e] + p[|dest| + 1..];
    if q in fs {
      PrefixExists(fs, q, src + [e]);
    }
  }

  // ---- When a copy keeps its source apart -----------------------------------

  lemma DisjointIsApart(fs: FS, src: Path, dest: Path)
    requires Disjoint(src, dest)
    ensures Apart(fs, src, dest)
  {
    forall q | dest <= q ensures src <= q ==> Back(src, dest, q) !in fs {
      NotBelowBoth(src, dest, q);
    }
  }

  lemma NotBelowBoth(a: Path, b: Path, q: Path)
    requires Disjoint(a, b)
    ensures !(a <= q && b <= q)
  {
    if a <= q && b <= q {
      Comparable(a, b, q);
    }
  }

  lemma BackOfSource(src: Path, dest: Path, q: Path)
    requires dest <= src <= q
    ensures dest <= q && Back(src, dest, q) == src + src[|dest|..] + q[|src|..]
  {
    assert q == src + q[|src|..];
    assert q[|dest|..] == src[|dest|..] + q[|src|..];
  }

  /**
   A source inside its destination is kept apart exactly when it does not hold, once more,
   the way down from the destination to itself.
   */
  lemma ApartIff(fs: FS, src: Path, dest: Path)
    requires WellFormed(fs)
    ensures Apart(fs, src, dest) <==> !(src <= dest) && (dest <= src ==> src + src[|dest|..] !in fs)
  {
    if dest <= src {
      BackOfSource(src, dest, src);
      assert src + src[|dest|..] + src[|src|..] == src + src[|dest|..];
      forall q | src <= q && src + src[|dest|..] !in fs ensures Back(src, dest, q) !in fs {
        BackOfSource(src, dest, q);
        if Back(src, dest, q) in fs {
          PrefixExists(fs, Back(src, dest, q), src + src[|dest|..]);
        }
      }
    } else if !(src <= dest) {
      DisjointIsApart(fs, src, dest);
    }
  }

  /** Apart as a whole, apart entry by entry. */
  lemma EntryApart(before: FS, now: FS, src: Path, dest: Path, done: set<Name>, e: Name)
    requires Apart(before, src, dest) && Progress(before, now, src, dest, done) && !(src + [e] <= dest + [e])
    ensures Apart(now, src + [e], dest + [e])
  {
    forall q | src + [e] <= q && dest + [e] <= q ensures Back(src + [e], dest + [e], q) !in now {
      UnderEntry(src, e, q);
      BackEntry(src, dest, e, q);
      SourceUntouched(before, now, src, dest, done, Back(src, dest, q));
    }
  }

  // ---- Conflicts ------------------------------------------------------------

  /** A conflict within an entry is a conflict of the whole, whatever was laid over before. */
  lemma EntryConflict(before: FS, now: FS, src: Path, dest: Path, done: set<Name>, e: Name)
    requires Apart(before, src, dest) && e !in done && Progress(before, now, src, dest, done)
    ensures Conflict(now, src + [e], dest + [e]) ==> Conflict(before, src, dest)
  {
    if Conflict(now, src + [e], dest + [e]) {
      var p :| ConflictAt(now, src + [e], dest + [e], p);
      EntryConflictAt(before, now, src, dest, done, e, p);
    }
  }

  lemma EntryConflictAt(before: FS, now: FS, src: Path, dest: Path, done: set<Name>, e: Name, p: Path)
    requires Apart(before, src, dest) && e !in done && Progress(before, now, src, dest, done) && dest + [e] <= p
    ensures ConflictAt(now, src + [e], dest + [e], p) <==> ConflictAt(before, src, dest, p)
  {
    UnderEntry(dest, e, p);
    BackEntry(src, dest, e, p);
    SourceUntouched(before, now, src, dest, done, Back(src, dest, p));
    assert At(now, p) == At(before, p);
  }

  /** So far no entry in `done` conflicts. */
  ghost predicate NoConflictIn(fs: FS, src: Path, dest: Path, done: set<Name>)
  {
    forall p :: Under(dest, done, p) ==> !ConflictAt(fs, src, dest, p)
  }

  lemma NoConflictStep(before: FS, now: FS, src: Path, dest: Path, done: set<Name>, e: Name)
    requires Apart(before, src, dest) && e !in done && Progress(before, now, src, dest, done)
    requires NoConflictIn(before, src, dest, done) && !Conflict(now, src + [e], dest + [e])
    ensures NoConflictIn(before, src, dest, done + {e})
  {
    forall p | Under(dest, done + {e}, p) ensures !ConflictAt(before, src, dest, p) {
      UnderEntry(dest, e, p);
      if !Under(dest, done, p) {
        EntryConflictAt(before, now, src, dest, done, e, p);
      }
    }
  }

  lemma NoConflictAtAll(fs: FS, src: Path, dest: Path)
    requires WellFormed(fs) && IsDir(fs, src) && (dest in fs ==> fs[dest].Dir?)
    requires NoConflictIn(fs, src, dest, Names(fs, src))
    ensures !Conflict(fs, src, dest)
  {
    forall p ensures !ConflictAt(fs, src, dest, p) {
      if dest <= p {
        if p == dest {
          assert Back(src, dest, p) == src;
        } else if !Under(dest, Names(fs, src), p) {
          NothingCopiedHere(fs, src, dest, p);
        }
      }
    }
  }

  /** Stopping within one entry leaves the whole half way. */
  lemma PartwayStep(before: FS, now: FS, next: FS, src: Path, dest: Path, done: set<Name>, e: Name)
    requires Apart(before, src, dest) && e !in done && src in before && before[src].Dir?
    requires Progress(before, now, src, dest, done) && Partway(now, next, src + [e], dest + [e])
    ensures Partway(before, next, src, dest)
  {
    forall p ensures Between(At(before, p), At(next, p), Copied(before, src, dest, p)) {
      UnderEntry(dest, e, p);
      assert Between(At(now, p), At(next, p), Copied(now, src + [e], dest + [e], p));
      if dest + [e] <= p {
        BackEntry(src, dest, e, p);
        SourceUntouched(before, now, src, dest, done, Back(src, dest, p));
      } else if p == dest {
        assert Back(src, dest, p) == src;
      }
    }
  }

  // ---- Moving ---------------------------------------------------------------

  /**
   A rename, and a copy across devices followed by removing the source, leave the same
   tree, unless there is a directory at the destination or it is inside the source.
   */
  lemma MoveBranchesAgree(before: FS, copied: FS, moved: FS, renamed: FS, src: Path, dest: Path)
    requires WellFormed(before) && src in before && !IsDir(before, dest) && !(src <= dest)
    requires IsOverlay(before, copied, src, dest) && IsRemoved(copied, moved, src)
    requires IsRenamed(before, renamed, src, dest)
    ensures moved == renamed
  {
    NoDirIsNotAbove(before, src, dest);
    forall p ensures At(moved, p) == At(renamed, p) {
      if dest <= p {
        DisjointBelow(src, dest, p);
        assert Back(src, dest, dest) == src;
        if p in before {
          PrefixExists(before, p, dest);
        }
      }
    }
    SameAt(moved, renamed);
  }

  lemma SameAt(a: FS, b: FS)
    requires forall p :: At(a, p) == At(b, p)
    ensures a == b
  {
    forall p ensures p in a <==> p in b { assert At(a, p) == At(b, p); }
    forall p | p in a ensures a[p] == b[p] { assert At(a, p) == At(b, p); }
  }

  /** A destination that is no directory cannot contain the source. */
  lemma NoDirIsNotAbove(fs: FS, src: Path, dest: Path)
    requires WellFormed(fs) && src in fs && !IsDir(fs, dest) && !(src <= dest)
    ensures Disjoint(src, dest)
  {
    if dest <= src {
      PrefixExists(fs, src, dest);
    }
  }

  lemma DisjointBelow(a: Path, b: Path, p: Path)
    requires Disjoint(a, b) && b <= p
    ensures !(a <= p)
  {
    if a <= p {
      Comparable(a, b, p);
    }
  }
}
