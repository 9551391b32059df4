/**
 The spellings of the file manager's root (webmanager/backend/internal/files/path.go): a
 request may name a path under the configured root as it is written, once cleaned, or
 under the place it resolves to. When is a path read as what it means, and when does
 either spelling give the same answer?
 */
module PathRoots {
  import opened Wrappers
  import opened FileSystem
  import opened PathResolve
  import TreeChanges

  // ---- What a path means ----------------------------------------------------

  /** Every path accepted under this root resolves to what the operating system finds there, if anything. */
  ghost predicate ReadTrue(fs: FS, root: seq<Name>)
    requires EvalSymlinks(fs, root).Ok?
  {
    forall cleaned: Path, followLeaf: bool ::
      AllOrdinary(cleaned) && Resolved(fs, root, cleaned, followLeaf).Ok?
        && (followLeaf || cleaned != BaseOf(fs, root, cleaned)) ==>
        AgreesWithOS(fs, [], cleaned, followLeaf, Resolved(fs, root, cleaned, followLeaf).value)
  }

  /**
   Exactly then: what the configured root is once cleaned lies under the real root, and so
   is read from there, or it resolves to the real root wherever it resolves.
   */
  lemma RootReadTrueIff(fs: FS, root: seq<Name>)
    requires WellFormed(fs) && EvalSymlinks(fs, root).Ok?
    ensures ReadTrue(fs, root) <==> EvalSymlinks(fs, root).value <= Clean(root) || Spells(fs, root, Clean(root))
  {
    var realRoot := EvalSymlinks(fs, root).value;
    RootSpells(fs, root);
    if realRoot <= Clean(root) || Spells(fs, root, Clean(root)) {
      forall cleaned: Path, followLeaf: bool |
        AllOrdinary(cleaned) && Resolved(fs, root, cleaned, followLeaf).Ok?
          && (followLeaf || cleaned != BaseOf(fs, root, cleaned))
        ensures AgreesWithOS(fs, [], cleaned, followLeaf, Resolved(fs, root, cleaned, followLeaf).value)
      {
        ConfinedAgreesWithOS(fs, root, BaseOf(fs, root, cleaned), cleaned, followLeaf);
      }
    } else {
      RootItself(fs, root);
      assert Resolved(fs, root, Clean(root), true).Ok?;
    }
  }

  /** The cleaned root, if it is not under the real one, is accepted as the real root. */
  lemma RootItself(fs: FS, root: seq<Name>)
    requires WellFormed(fs) && EvalSymlinks(fs, root).Ok? && !(EvalSymlinks(fs, root).value <= Clean(root))
    ensures Resolved(fs, root, Clean(root), true) == Ok(EvalSymlinks(fs, root).value) && AllOrdinary(Clean(root))
  {
    CleanIsOrdinary([], root);
    RealRootIsPlain(fs, root);
    WithinIffPrefix(EvalSymlinks(fs, root).value, EvalSymlinks(fs, root).value);
    assert Clean(root)[|Clean(root)|..] == [];
  }

  // ---- What a request names -------------------------------------------------

  /** Where there is no link to follow, cleaning a path is what the operating system does with it. */
  lemma {:induction false} CleaningIsWalking(fs: FS, cur: Path, raw: seq<Name>, links: nat)
    requires (forall p <- fs :: !fs[p].Link?) && Walk(fs, cur, raw, links, true).Ok?
    ensures CleanFrom(cur, raw) == Walk(fs, cur, raw, links, true).value
    decreases |raw|
  {
    if raw != [] {
      var c, rest := raw[0], raw[1..];
      if c == "" || c == "." {
        CleaningIsWalking(fs, cur, rest, links);
      } else if c == ".." {
        CleaningIsWalking(fs, Parent(cur), rest, links);
      } else {
        CleaningIsWalking(fs, cur + [c], rest, links);
      }
    }
  }

  /** The path a request asks for, if it is absolute or empty, which asks for the root. */
  ghost predicate AsksFor(root: seq<Name>, user: UserPath, raw: seq<Name>)
  {
    if user.absolute then raw == user.raw else user.raw == [""] && raw == root
  }

  /** A request is accepted lexically exactly if what it asks for, cleaned, is at or below the root in a spelling. */
  lemma AcceptedIff(fs: FS, root: seq<Name>, user: UserPath, cleaned: Path)
    ensures ResolvePath(fs, root, user) == Ok(cleaned)
            <==> && (exists raw :: AsksFor(root, user, raw) && cleaned == Clean(raw))
                 && (Clean(root) <= cleaned || (EvalSymlinks(fs, root).Ok? && EvalSymlinks(fs, root).value <= cleaned))
  {
    var raw := if user.absolute then user.raw else root;
    assert AsksFor(root, user, raw) <==> user.absolute || user.raw == [""];
    CleanIsOrdinary([], raw);
    WithinIffPrefix(Clean(root), Clean(raw));
    if EvalSymlinks(fs, root).Ok? {
      WithinIffPrefix(EvalSymlinks(fs, root).value, Clean(raw));
    }
  }

  /**
   The empty path is the root's real place; but for a root that is a link inside its own
   target it is whatever the way to the link, walked as a request, leads to.
   */
  lemma EmptyPathIsRoot(fs: FS, root: seq<Name>)
    requires WellFormed(fs) && EvalSymlinks(fs, root).Ok?
    ensures var realRoot := EvalSymlinks(fs, root).value;
            AccessPath(fs, root, UserPath(false, [""]))
            == if realRoot <= Clean(root) then Follow(fs, realRoot, realRoot, Clean(root)[|realRoot|..], true)
               else Ok(realRoot)
    ensures EvalSymlinks(fs, root).value == Clean(root) ==>
              AccessPath(fs, root, UserPath(false, [""])) == Ok(Clean(root))
              && EntryPath(fs, root, UserPath(false, [""])) == Err(RootPath)
  {
    var realRoot := EvalSymlinks(fs, root).value;
    AcceptedIff(fs, root, UserPath(false, [""]), Clean(root));
    assert AsksFor(root, UserPath(false, [""]), root);
    if realRoot <= Clean(root) {
      CleanIsOrdinary([], root);
      OrdinaryParts(Clean(root), |realRoot|);
      ResolvedBelow(fs, root, Clean(root)[|realRoot|..], true);
      assert realRoot + Clean(root)[|realRoot|..] == Clean(root);
    } else {
      RootItself(fs, root);
    }
  }

  /** A disk with /l linked to /a/b, and x both in /a and in /. */
  function Dotted(): FS
  {
    var dir := Dir(0);
    map[[] := dir, ["l"] := Link(true, ["a", "b"]), ["a"] := dir, ["a", "b"] := dir, ["a", "x"] := dir, ["x"] := dir,
      ["x", "f"] := dir]
  }

  lemma DottedWellFormed()
    ensures WellFormed(Dotted())
  {
    var fs := Dotted();
    forall p | p in fs ensures IsDir(fs, Parent(p)) && AllOrdinary(p) {
      if p == ["l"] || p == ["a"] || p == ["x"] {
        assert Parent(p) == [];
      } else if p == ["a", "b"] || p == ["a", "x"] {
        assert Parent(p) == ["a"];
      } else if p == ["x", "f"] {
        assert Parent(p) == ["x"];
      }
    }
  }

  lemma OneEntry(fs: FS, cur: Path, c: Name, rest: seq<Name>, links: nat, followLast: bool)
    requires Ordinary(c) && IsDir(fs, cur) && cur + [c] in fs && !fs[cur + [c]].Link?
    ensures Walk(fs, cur, [c] + rest, links, followLast) == Walk(fs, cur + [c], rest, links, followLast)
  {
    assert ([c] + rest)[1..] == rest;
  }

  lemma DottedRoot()
    ensures EvalSymlinks(Dotted(), ["l", "..", "x"]) == Ok(["a", "x"])
  {
    var fs := Dotted();
    var up: seq<Name> := ["..", "x"];
    assert ["l", "..", "x"][1..] == up && [] + ["l"] == ["l"];
    assert Walk(fs, [], ["l", "..", "x"], 255, true) == Walk(fs, [], ["a", "b"] + up, 254, true);
    assert ["a", "b"] + up == ["a"] + (["b"] + up) && [] + ["a"] == ["a"] && ["a"] + ["b"] == ["a", "b"];
    OneEntry(fs, [], "a", ["b"] + up, 254, true);
    OneEntry(fs, ["a"], "b", up, 254, true);
    assert up[1..] == ["x"] && Parent(["a", "b"]) == ["a"] && ["a"] + ["x"] == ["a", "x"];
    assert Walk(fs, ["a", "b"], up, 254, true) == Walk(fs, ["a"], ["x"], 254, true);
    OneEntry(fs, ["a"], "x", [], 254, true);
    assert ["x"] + [] == ["x"];
  }

  lemma DottedClean()
    ensures Clean(["l", "..", "x"]) == ["x"]
  {
    var root: seq<Name> := ["l", "..", "x"];
    assert root[1..] == ["..", "x"] && ["..", "x"][1..] == ["x"] && ["x"][1..] == [];
    assert [] + ["l"] == ["l"] && Parent(["l"]) == [] && [] + ["x"] == ["x"];
  }

  lemma DottedWalk()
    ensures Walk(Dotted(), [], ["x", "f"], 0, false) == Ok(["x", "f"])
  {
    assert ["x"] + ["f"] == ["x", "f"] && [] + ["x"] == ["x"] && ["f"] + [] == ["f"];
    OneEntry(Dotted(), [], "x", ["f"], 0, false);
    OneEntry(Dotted(), ["x"], "f", [], 0, false);
  }

  /**
   A root for which the condition fails: with /l a link to /a/b, a root configured as
   /l/../x is /a/x to the operating system but /x once cleaned, so /x/f is taken for /a/x/f.
   */
  lemma DotsInRootMislead()
    ensures var fs, root := Dotted(), ["l", "..", "x"];
            && WellFormed(fs)
            && EntryPath(fs, root, UserPath(true, ["x", "f"])) == Ok(["a", "x", "f"])
            && Walk(fs, [], ["x", "f"], 0, false) == Ok(["x", "f"])
  {
    DottedWellFormed();
    DottedRoot();
    DottedClean();
    DottedWalk();
    DottedEntry();
    var root, p: Path := ["l", "..", "x"], ["x", "f"];
    CleanOrdinary([], p);
    assert [] + p == p;
    WithinIffPrefix(["x"], p);
    assert !(["a", "x"] <= p) && p[1..] == ["f"];
  }

  lemma DottedEntry()
    ensures Confined(Dotted(), ["a", "x"], ["f"], false) == Ok(["a", "x", "f"])
  {
    var root: Path := ["a", "x"];
    assert root + ["f"] == ["a", "x", "f"] && ["f"][1..] == [];
    WithinIffPrefix(root, ["a", "x", "f"]);
  }

  // ---- Two spellings --------------------------------------------------------

  /** Below the root, a path spelled under the link and the same path under its target get the same answer. */
  ghost predicate SpellingsAgree(fs: FS, root: seq<Name>)
    requires EvalSymlinks(fs, root).Ok?
  {
    forall parts: seq<Name>, followLeaf: bool :: parts != [] && AllOrdinary(parts) ==>
      SameAnswer(fs, root, parts, followLeaf)
  }

  predicate SameAnswer(fs: FS, root: seq<Name>, parts: seq<Name>, followLeaf: bool)
    requires EvalSymlinks(fs, root).Ok?
  {
    Resolved(fs, root, Clean(root) + parts, followLeaf)
      == Resolved(fs, root, EvalSymlinks(fs, root).value + parts, followLeaf)
  }

  /** x is where a walk's front led, whole what the walk made of the front and `rest`. */
  ghost predicate LeadsOn(fs: FS, root: Path, x: Result<Path, PathError>, whole: Result<Path, PathError>,
                          rest: seq<Name>, followLeaf: bool)
  {
    && (x.Err? ==> whole.Err?)
    && (x.Ok? && x.value in fs ==> Plain(fs, x.value) && whole == Follow(fs, root, x.value, rest, followLeaf))
    && (x.Ok? && x.value !in fs ==> whole == Ok(x.value + rest))
  }

  /** Walking q and then more is walking more from where q leads. */
  lemma {:induction false} FollowThrough(fs: FS, root: Path, cur: Path, q: seq<Name>, rest: seq<Name>, followLeaf: bool)
    requires WellFormed(fs) && Plain(fs, cur) && root <= cur && AllOrdinary(q) && rest != []
    ensures LeadsOn(fs, root, Follow(fs, root, cur, q, true), Follow(fs, root, cur, q + rest, followLeaf), rest,
                    followLeaf)
    decreases |q|
  {
    if q == [] {
      assert q + rest == rest;
    } else {
      TailOrdinary(q);
      var c, q' := q[0], q[1..];
      var next := cur + [c];
      assert q == [c] + q' && q + rest == [c] + (q' + rest);
      FollowUnfolds(fs, root, cur, c, q', true);
      FollowUnfolds(fs, root, cur, c, q' + rest, followLeaf);
      if IsDir(fs, cur) {
        if next !in fs {
          NothingBelowMissing(fs, next, next + q');
          assert next + (q' + rest) == (next + q') + rest;
        } else if !fs[next].Link? {
          PlainStep(fs, cur, c);
          FollowThrough(fs, root, next, q', rest, followLeaf);
        } else {
          var target := Walk(fs, cur, [c], EVAL_LINKS, true);
          if target.Ok? && Within(root, target.value) {
            WalkIsPlain(fs, cur, [c], EVAL_LINKS);
            WithinIffPrefix(root, target.value);
            FollowThrough(fs, root, target.value, q', rest, followLeaf);
          }
        }
      }
    }
  }

  /** Under the real root the walk itself gives the answer. */
  lemma ResolvedBelow(fs: FS, root: seq<Name>, parts: seq<Name>, followLeaf: bool)
    requires WellFormed(fs) && EvalSymlinks(fs, root).Ok? && AllOrdinary(parts)
    ensures var realRoot := EvalSymlinks(fs, root).value;
            Resolved(fs, root, realRoot + parts, followLeaf) == Follow(fs, realRoot, realRoot, parts, followLeaf)
  {
    var realRoot := EvalSymlinks(fs, root).value;
    assert (realRoot + parts)[|realRoot|..] == parts;
    ConfinedIsFollow(fs, root, parts, followLeaf);
  }

  lemma ConfinedIsFollow(fs: FS, root: seq<Name>, parts: seq<Name>, followLeaf: bool)
    requires WellFormed(fs) && EvalSymlinks(fs, root).Ok? && AllOrdinary(parts)
    ensures var realRoot := EvalSymlinks(fs, root).value;
            Confined(fs, realRoot, parts, followLeaf) == Follow(fs, realRoot, realRoot, parts, followLeaf)
  {
    var realRoot := EvalSymlinks(fs, root).value;
    RealRootIsPlain(fs, root);
    var r := Follow(fs, realRoot, realRoot, parts, followLeaf);
    if r.Ok? {
      FollowIsConfined(fs, realRoot, realRoot, parts, followLeaf);
      FollowIsOrdinary(fs, realRoot, realRoot, parts, followLeaf);
      WithinIffPrefix(realRoot, r.value);
    }
  }

  /**
   A request that reads through its path is refused exactly lexically, for want of a root,
   or where a component blocks.
   */
  lemma RequestRejectedIff(fs: FS, root: seq<Name>, user: UserPath)
    requires WellFormed(fs)
    ensures AccessPath(fs, root, user).Err?
            <==> || ResolvePath(fs, root, user).Err? || EvalSymlinks(fs, root).Err?
                 || var realRoot, cleaned := EvalSymlinks(fs, root).value, ResolvePath(fs, root, user).value;
                    var base := BaseOf(fs, root, cleaned);
                    && base <= cleaned
                    && exists i: nat, n: nat :: BlockedAt(fs, realRoot, realRoot, cleaned[|base|..], true, i, n)
  {
    if ResolvePath(fs, root, user).Ok? && EvalSymlinks(fs, root).Ok? {
      var realRoot, cleaned := EvalSymlinks(fs, root).value, ResolvePath(fs, root, user).value;
      LexicallyUnderRoot(fs, root, user);
      ResolvedPathIsOrdinary(fs, root, user);
      var base := BaseOf(fs, root, cleaned);
      OrdinaryParts(cleaned, |base|);
      RealRootIsPlain(fs, root);
      ConfinedIsFollow(fs, root, cleaned[|base|..], true);
      RejectedIff(fs, realRoot, realRoot, cleaned[|base|..], true);
    }
  }

  /**
   The same for a request that acts on the entry itself: the last component is not looked
   at, and the root, under either spelling, is refused.
   */
  lemma EntryRejectedIff(fs: FS, root: seq<Name>, user: UserPath)
    requires WellFormed(fs)
    ensures EntryPath(fs, root, user).Err?
            <==> || ResolvePath(fs, root, user).Err? || EvalSymlinks(fs, root).Err?
                 || var realRoot, cleaned := EvalSymlinks(fs, root).value, ResolvePath(fs, root, user).value;
                    var base := BaseOf(fs, root, cleaned);
                    && base <= cleaned
                    && (cleaned == base
                        || exists i: nat, n: nat :: BlockedAt(fs, realRoot, realRoot, cleaned[|base|..], false, i, n))
  {
    if ResolvePath(fs, root, user).Ok? && EvalSymlinks(fs, root).Ok? {
      var realRoot, cleaned := EvalSymlinks(fs, root).value, ResolvePath(fs, root, user).value;
      LexicallyUnderRoot(fs, root, user);
      ResolvedPathIsOrdinary(fs, root, user);
      var base := BaseOf(fs, root, cleaned);
      OrdinaryParts(cleaned, |base|);
      RealRootIsPlain(fs, root);
      ConfinedIsFollow(fs, root, cleaned[|base|..], false);
      RejectedIff(fs, realRoot, realRoot, cleaned[|base|..], false);
    }
  }

  /**
   A link inside its own target: both spellings agree exactly if the way to the link, walked
   as a request, leads to the root.
   */
  lemma InsideTarget(fs: FS, root: seq<Name>)
    requires WellFormed(fs) && EvalSymlinks(fs, root).Ok? && EvalSymlinks(fs, root).value <= Clean(root)
    ensures var realRoot := EvalSymlinks(fs, root).value;
            SpellingsAgree(fs, root)
            <==> Follow(fs, realRoot, realRoot, Clean(root)[|realRoot|..], true) == Ok(realRoot)
  {
    var realRoot, q := EvalSymlinks(fs, root).value, Clean(root)[|EvalSymlinks(fs, root).value|..];
    var x := Follow(fs, realRoot, realRoot, q, true);
    CleanIsOrdinary([], root);
    OrdinaryParts(Clean(root), |realRoot|);
    RealRootIsPlain(fs, root);
    if x == Ok(realRoot) {
      forall parts: seq<Name>, followLeaf: bool | parts != [] && AllOrdinary(parts)
        ensures SameAnswer(fs, root, parts, followLeaf)
      {
        ThroughTarget(fs, root, q, parts, followLeaf);
      }
    }
    if SpellingsAgree(fs, root) {
      var parts: seq<Name> := ["x"];
      assert SameAnswer(fs, root, parts, false);
      ThroughTarget(fs, root, q, parts, false);
      assert parts[1..] == [];
      assert Follow(fs, realRoot, realRoot, parts, false) == Ok(realRoot + parts);
      if x.Ok? && x.value in fs {
        assert Follow(fs, realRoot, x.value, parts, false) == Ok(x.value + parts);
      }
      SameFront(if x.Ok? then x.value else realRoot, realRoot, parts);
    }
  }

  lemma SameFront(a: Path, b: Path, parts: seq<Name>)
    ensures a + parts == b + parts ==> a == b
  {
    if a + parts == b + parts {
      assert |a| == |b|;
      assert a == (a + parts)[..|a|] == (b + parts)[..|b|] == b;
    }
  }

  /** The link's spelling, read under the target, walks to the link first. */
  lemma ThroughTarget(fs: FS, root: seq<Name>, q: seq<Name>, parts: seq<Name>, followLeaf: bool)
    requires WellFormed(fs) && EvalSymlinks(fs, root).Ok? && AllOrdinary(q) && AllOrdinary(parts) && parts != []
    requires Clean(root) == EvalSymlinks(fs, root).value + q
    ensures var realRoot := EvalSymlinks(fs, root).value;
            var x := Follow(fs, realRoot, realRoot, q, true);
            && Resolved(fs, root, realRoot + parts, followLeaf) == Follow(fs, realRoot, realRoot, parts, followLeaf)
            && (x.Err? ==> Resolved(fs, root, Clean(root) + parts, followLeaf).Err?)
            && (x.Ok? && x.value in fs ==>
                  Resolved(fs, root, Clean(root) + parts, followLeaf)
                    == Follow(fs, realRoot, x.value, parts, followLeaf))
            && (x.Ok? && x.value !in fs ==> Resolved(fs, root, Clean(root) + parts, followLeaf) == Ok(x.value + parts))
  {
    var realRoot := EvalSymlinks(fs, root).value;
    RealRootIsPlain(fs, root);
    assert Clean(root) + parts == realRoot + (q + parts);
    ResolvedBelow(fs, root, q + parts, followLeaf);
    ResolvedBelow(fs, root, parts, followLeaf);
    FollowThrough(fs, realRoot, realRoot, q, parts, followLeaf);
  }

  /** A spelling that lies above the real root names the real root itself where the other names an entry in it. */
  lemma AboveTarget(fs: FS, root: seq<Name>)
    requires WellFormed(fs) && EvalSymlinks(fs, root).Ok?
    requires var realRoot := EvalSymlinks(fs, root).value; Clean(root) <= realRoot && Clean(root) != realRoot
    ensures !SpellingsAgree(fs, root)
  {
    var realRoot := EvalSymlinks(fs, root).value;
    var w := realRoot[|Clean(root)|..];
    RealRootIsPlain(fs, root);
    OrdinaryParts(realRoot, |Clean(root)|);
    assert Clean(root) + w == realRoot && realRoot[|realRoot|..] == [];
    ConfinedIsFollow(fs, root, [], false);
    ResolvedBelow(fs, root, w, false);
    if Follow(fs, realRoot, realRoot, w, false).Ok? {
      EntryBelowRoot(fs, realRoot, realRoot, w);
    }
    assert !SameAnswer(fs, root, w, false);
  }

  /** Spellings apart from each other are read alike. */
  lemma Elsewhere(fs: FS, root: seq<Name>, parts: seq<Name>, followLeaf: bool)
    requires EvalSymlinks(fs, root).Ok?
    requires var realRoot := EvalSymlinks(fs, root).value; !(realRoot <= Clean(root)) && !(Clean(root) <= realRoot)
    ensures SameAnswer(fs, root, parts, followLeaf)
  {
    var realRoot := EvalSymlinks(fs, root).value;
    if realRoot <= Clean(root) + parts {
      TreeChanges.Comparable(realRoot, Clean(root), Clean(root) + parts);
    }
    assert (realRoot + parts)[|realRoot|..] == parts && (Clean(root) + parts)[|Clean(root)|..] == parts;
  }

  /**
   Either spelling of a linked root gives the same answers below it exactly if the two are
   apart, or the link lies inside its own target and the way to it from there, walked as a
   request, leads to the root.
   */
  lemma BothSpellingsIff(fs: FS, root: seq<Name>)
    requires WellFormed(fs) && EvalSymlinks(fs, root).Ok?
    ensures var realRoot := EvalSymlinks(fs, root).value;
            SpellingsAgree(fs, root)
            <==> if realRoot <= Clean(root) then
                   Follow(fs, realRoot, realRoot, Clean(root)[|realRoot|..], true) == Ok(realRoot)
                 else !(Clean(root) <= realRoot)
  {
    var realRoot := EvalSymlinks(fs, root).value;
    if realRoot <= Clean(root) {
      InsideTarget(fs, root);
    } else if Clean(root) <= realRoot {
      AboveTarget(fs, root);
    } else {
      forall parts: seq<Name>, followLeaf: bool | parts != [] && AllOrdinary(parts)
        ensures SameAnswer(fs, root, parts, followLeaf)
      {
        Elsewhere(fs, root, parts, followLeaf);
      }
    }
  }

  /** A disk where /a/b is a link to /z, and /z/l one back to /a. */
  function Looped(): FS
  {
    var dir := Dir(0);
    map[[] := dir, ["a"] := dir, ["z"] := dir, ["a", "b"] := Link(true, ["z"]), ["z", "l"] := Link(true, ["a"])]
  }

  lemma LoopedWellFormed()
    ensures WellFormed(Looped())
  {
    var fs := Looped();
    forall p | p in fs ensures IsDir(fs, Parent(p)) && AllOrdinary(p) {
      if p == ["a"] || p == ["z"] {
        assert Parent(p) == [];
      } else if p == ["a", "b"] {
        assert Parent(p) == ["a"];
      } else if p == ["z", "l"] {
        assert Parent(p) == ["z"];
      }
    }
  }

  lemma LoopedPlain()
    ensures Plain(Looped(), ["a"])
  {
    assert [] + ["a"] == ["a"];
    PlainStep(Looped(), [], "a");
  }

  lemma LoopedTarget(links: nat)
    requires links > 0
    ensures Walk(Looped(), ["a"], ["b"], links, true) == Ok(["z"])
  {
    assert ["b"][1..] == [] && ["a"] + ["b"] == ["a", "b"] && ["z"] + [] == ["z"] && [] + ["z"] == ["z"];
    OneEntry(Looped(), [], "z", [], links - 1, true);
  }

  lemma LoopedRoot()
    ensures EvalSymlinks(Looped(), ["a", "b", "l"]) == Ok(["a"])
  {
    var fs := Looped();
    var rest: seq<Name> := ["l"];
    assert ["a", "b", "l"] == ["a"] + (["b"] + rest) && [] + ["a"] == ["a"] && ["a"] + ["b"] == ["a", "b"];
    OneEntry(fs, [], "a", ["b"] + rest, 255, true);
    assert (["b"] + rest)[1..] == rest;
    assert Walk(fs, ["a"], ["b"] + rest, 255, true) == Walk(fs, [], ["z"] + rest, 254, true);
    assert [] + ["z"] == ["z"] && ["z"] + ["l"] == ["z", "l"];
    OneEntry(fs, [], "z", rest, 254, true);
    assert rest[1..] == [] && ["a"] + [] == ["a"];
    assert Walk(fs, ["z"], rest, 254, true) == Walk(fs, [], ["a"] + [], 253, true);
    OneEntry(fs, [], "a", [], 253, true);
  }

  lemma LoopedViaTarget()
    ensures Follow(Looped(), ["a"], ["a"], ["x"], true) == Ok(["a", "x"])
  {
    LoopedWellFormed();
    LoopedPlain();
    assert ["x"] == ["x"] + [] && ["a"] + ["x"] == ["a", "x"] && ["a", "x"] + [] == ["a", "x"];
    FollowUnfolds(Looped(), ["a"], ["a"], "x", [], true);
  }

  lemma LoopedViaLink()
    ensures Follow(Looped(), ["a"], ["a"], ["b", "l", "x"], true).Err?
  {
    LoopedWellFormed();
    LoopedPlain();
    assert ["b", "l", "x"] == ["b"] + ["l", "x"] && ["a"] + ["b"] == ["a", "b"];
    FollowUnfolds(Looped(), ["a"], ["a"], "b", ["l", "x"], true);
    LoopedTarget(EVAL_LINKS);
    WithinIffPrefix(["a"], ["z"]);
  }

  /**
   A root for which they differ: configured as /a/b/l it is /a, and /a/x is accepted; but
   /a/b/l/x is read from /a, where b leads out, and is rejected.
   */
  lemma SpellingsCanDiffer()
    ensures var fs, root := Looped(), ["a", "b", "l"];
            && WellFormed(fs)
            && EvalSymlinks(fs, root) == Ok(["a"]) && Clean(root) == root
            && Resolved(fs, root, ["a", "x"], true) == Ok(["a", "x"])
            && Resolved(fs, root, ["a", "b", "l", "x"], true).Err?
  {
    var fs, root: seq<Name>, a: Path := Looped(), ["a", "b", "l"], ["a"];
    LoopedWellFormed();
    LoopedRoot();
    CleanOrdinary([], root);
    assert [] + root == root;
    ResolvedBelow(fs, root, ["x"], true);
    LoopedViaTarget();
    ResolvedBelow(fs, root, ["b", "l", "x"], true);
    LoopedViaLink();
    assert a + ["x"] == ["a", "x"] && a + ["b", "l", "x"] == ["a", "b", "l", "x"];
  }
}
