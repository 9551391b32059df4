/**
 A copy that succeeds and is not the source laid over the destination
 (webmanager/backend/internal/files/mutate.go, `copyItem` with overwrite): the source lies
 inside the destination and holds the way down from it to itself once more, so that the
 copy writes into the source before it has read it. `DiskOps.CopyIsOverlay` shows that
 nothing else can bring this about.
 */
module CopyOntoAncestor {
  import opened Wrappers
  import opened FileSystem
  import opened TreeChanges
  import opened CopyRuns
  import opened DiskOps

  function Fronts(deep: Path): set<Path>
  {
    set n: nat | n <= |deep| :: deep[..n]
  }

  /** A disk with nothing but the file f at `deep` and the directories on its way. */
  function Chain(deep: Path, f: Node): FS
  {
    map p | p in Fronts(deep) :: if |p| == |deep| then f else Dir(0)
  }

  lemma InChain(deep: Path, f: Node, p: Path)
    ensures p in Chain(deep, f) <==> p <= deep
    ensures p <= deep ==> Chain(deep, f)[p] == if |p| == |deep| then f else Dir(0)
  {
    assert p <= deep ==> |p| <= |deep| && p == deep[..|p|];
  }

  lemma ChainWellFormed(deep: Path, f: Node)
    requires deep != [] && AllOrdinary(deep)
    ensures WellFormed(Chain(deep, f))
  {
    var fs := Chain(deep, f);
    InChain(deep, f, []);
    forall p | p in fs ensures IsDir(fs, Parent(p)) && AllOrdinary(p) {
      InChain(deep, f, p);
      InChain(deep, f, Parent(p));
      forall i | 0 <= i < |p| ensures Ordinary(p[i]) { assert p[i] == deep[i]; }
    }
  }

  lemma NextOnChain(deep: Path, n: nat, x: Name)
    requires n < |deep|
    ensures deep[..n] + [x] <= deep <==> x == deep[n]
  {
    var p := deep[..n] + [x];
    assert p[n] == x;
    assert x == deep[n] ==> p == deep[..n + 1];
  }

  /** Copying a directory of one entry onto an existing one is copying that entry. */
  lemma OneEntryDir(fuel: nat, fs: FS, after: FS, src: Path, dest: Path, e: Name)
    requires IsDir(fs, src) && IsDir(fs, dest) && Names(fs, src) == {e}
    requires CopyRun(fuel, fs, after, src + [e], dest + [e], Ok(()))
    requires dest in after && after[dest] == Dir(fs[src].mode)
    ensures CopyRun(fuel + 1, fs, after, src, dest, Ok(()))
  {
    assert {e} - {e} == {};
    assert EntriesRun(fuel, after, after, src, dest, {e} - {e}, Ok(()));
    ExistingDir(fuel, fs, after, src, dest);
  }

  /** Copying a directory onto an existing one is copying the entries. */
  lemma ExistingDir(fuel: nat, fs: FS, after: FS, src: Path, dest: Path)
    requires IsDir(fs, src) && IsDir(fs, dest)
    requires EntriesRun(fuel, fs, after, src, dest, Names(fs, src), Ok(()))
    requires dest in after && after[dest] == Dir(fs[src].mode)
    ensures CopyRun(fuel + 1, fs, after, src, dest, Ok(()))
  {
    assert after == after[dest := Dir(fs[src].mode)];
    assert DirRun(fuel, fs, after, src, dest, fs[src].mode, Ok(()));
  }

  const ONE: Node := File("1", 0)
  const TWO: Node := File("2", 0)

  /** /a/b/a/b/a/x */
  function Deep(): Path
  {
    ["a", "b", "a", "b", "a", "x"]
  }

  /** Directories down to /a/b/a/b/a; /a/b/a/x holds 1 and /a/b/a/b/a/x holds 2. */
  function Before(): FS
  {
    Chain(Deep(), TWO)[Deep()[..3] + ["x"] := ONE]
  }

  /** Once the entry b of /a/b/a has been copied. */
  function Halfway(): FS
  {
    Before()[Deep()[..3] + ["x"] := TWO]
  }

  /** And then its entry x. */
  function After(): FS
  {
    Halfway()[Deep()[..1] + ["x"] := TWO]
  }

  lemma NotOnChain()
    ensures !(Deep()[..3] + ["x"] <= Deep()) && !(Deep()[..1] + ["x"] <= Deep())
  {
    NextOnChain(Deep(), 3, "x");
    NextOnChain(Deep(), 1, "x");
  }

  lemma BeforeWellFormed()
    ensures WellFormed(Before())
  {
    ChainWellFormed(Deep(), TWO);
    InChain(Deep(), TWO, Deep()[..3]);
    NotOnChain();
    InChain(Deep(), TWO, Deep()[..3] + ["x"]);
    assert Parent(Deep()[..3] + ["x"]) == Deep()[..3];
    WriteKeepsWellFormed(Chain(Deep(), TWO), Deep()[..3] + ["x"], ONE);
  }

  /** The directories on the way are there in all three states, with the mode they had. */
  lemma DirsStay(n: nat)
    requires n < 6
    ensures var p := Deep()[..n];
            forall fs <- [Before(), Halfway(), After()] :: p in fs && fs[p] == Dir(0)
  {
    NotOnChain();
    InChain(Deep(), TWO, Deep()[..n]);
    assert Deep()[..n] <= Deep();
  }

  lemma NamesAt(n: nat)
    requires n < 6
    ensures Names(Before(), Deep()[..n]) == {Deep()[n]} + if n == 3 then {"x"} else {}
  {
    var dir, extra := Deep()[..n], Deep()[..3] + ["x"];
    forall e ensures e in Names(Before(), dir) <==> e == Deep()[n] || (n == 3 && e == "x") {
      NamesAre(Before(), dir, e);
      InChain(Deep(), TWO, dir + [e]);
      NextOnChain(Deep(), n, e);
      SameEntry(dir, e, Deep()[..3], "x");
    }
  }

  lemma SameEntry(p: Path, e: Name, q: Path, f: Name)
    ensures p + [e] == q + [f] <==> p == q && e == f
  {
    assert Parent(p + [e]) == p && Parent(q + [f]) == q;
    assert (p + [e])[|p|] == e && (q + [f])[|q|] == f;
  }

  /** /a/b/a/b/a/x onto /a/b/a/x. */
  lemma DeepestCopied()
    ensures CopyRun(1, Before(), Halfway(), Deep()[..5] + ["x"], Deep()[..3] + ["x"], Ok(()))
  {
    assert Deep()[..5] + ["x"] == Deep();
    NotOnChain();
    InChain(Deep(), TWO, Deep());
  }

  /** One level up, onto what is on the way already. */
  lemma LevelUp(fuel: nat, n: nat, e: Name)
    requires 3 < n < 6 && e == Deep()[n]
    requires CopyRun(fuel, Before(), Halfway(), Deep()[..n] + [e], Deep()[..n - 2] + [e], Ok(()))
    ensures CopyRun(fuel + 1, Before(), Halfway(), Deep()[..n], Deep()[..n - 2], Ok(()))
  {
    DirsStay(n);
    DirsStay(n - 2);
    assert Before() in [Before(), Halfway(), After()] && Halfway() in [Before(), Halfway(), After()];
    NamesAt(n);
    assert {e} + {} == {e};
    OneEntryDir(fuel, Before(), Halfway(), Deep()[..n], Deep()[..n - 2], e);
  }

  /** The entry b: in two levels down to x. */
  lemma FirstEntry()
    ensures CopyRun(3, Before(), Halfway(), Deep()[..3] + ["b"], Deep()[..1] + ["b"], Ok(()))
  {
    DeepestCopied();
    LevelUp(1, 5, "x");
    OneFurther(4, "a");
    OneFurther(2, "a");
    LevelUp(2, 4, "a");
    OneFurther(3, "b");
    OneFurther(1, "b");
  }

  lemma OneFurther(n: nat, e: Name)
    requires n < 6 && e == Deep()[n]
    ensures Deep()[..n + 1] == Deep()[..n] + [e]
  {
  }

  /** The entry x, which by now holds 2. */
  lemma SecondEntry()
    ensures CopyRun(3, Halfway(), After(), Deep()[..3] + ["x"], Deep()[..1] + ["x"], Ok(()))
  {
    NotOnChain();
    SameEntry(Deep()[..1], "x", Deep()[..3], "x");
    InChain(Deep(), TWO, Deep()[..1] + ["x"]);
  }

  lemma BothEntries()
    ensures EntriesRun(3, Before(), After(), Deep()[..3], Deep()[..1], {"b", "x"}, Ok(()))
  {
    var src, dest, r: Result<(), OpError> := Deep()[..3], Deep()[..1], Ok(());
    FirstEntry();
    SecondEntry();
    assert {"b", "x"} - {"b"} == {"x"} && {"x"} - {"x"} == {};
    assert EntriesRun(3, After(), After(), src, dest, {"x"} - {"x"}, r);
    assert EntriesRun(3, Halfway(), After(), src, dest, {"b", "x"} - {"b"}, r);
  }

  lemma CopyEnds()
    ensures CopyRun(4, Before(), After(), Deep()[..3], Deep()[..1], Ok(()))
  {
    DirsStay(3);
    DirsStay(1);
    assert Before() in [Before(), Halfway(), After()] && After() in [Before(), Halfway(), After()];
    NamesAt(3);
    assert {Deep()[3]} + {"x"} == {"b", "x"};
    BothEntries();
    ExistingDir(3, Before(), After(), Deep()[..3], Deep()[..1]);
  }

  /** What 1 was in is overwritten before it is read. */
  lemma OneIsGone(p: Path)
    requires p in After()
    ensures After()[p] != ONE
  {
    InChain(Deep(), TWO, p);
  }

  /**
   Copying /a/b/a onto /a with overwrite: the copy succeeds, /a/x is not what /a/b/a/x was,
   and what that was is nowhere any more.
   */
  lemma CopyMissesSource(temps: TempNames)
    ensures WellFormed(Before()) && At(Before(), Deep()[..3] + ["x"]) == Some(ONE)
    ensures CopyItemOutcome(Before(), After(), Deep()[..3], Deep()[..1], true, temps, Ok(()))
    ensures !IsOverlay(Before(), After(), Deep()[..3], Deep()[..1])
    ensures forall p :: p in After() ==> After()[p] != ONE
  {
    var src, dest := Deep()[..3], Deep()[..1];
    BeforeWellFormed();
    CopyEnds();
    assert Runs(Before(), After(), src, dest, Ok(()));
    FrameHolds();
    NotApart();
    DiffersAt(Before(), After(), src, dest, "x");
    forall p | p in After() ensures After()[p] != ONE { OneIsGone(p); }
  }

  lemma DiffersAt(before: FS, after: FS, src: Path, dest: Path, e: Name)
    requires src + [e] in before && At(after, dest + [e]) != At(before, src + [e])
    ensures !IsOverlay(before, after, src, dest)
  {
    assert Back(src, dest, dest + [e]) == src + [e];
    assert At(after, dest + [e]) != OverlayAt(before, src, dest, dest + [e]);
  }

  lemma FrameHolds()
    ensures Frame(Before(), After(), Deep()[..1])
  {
    assert Deep()[..1] <= Deep()[..3] + ["x"] && Deep()[..1] <= Deep()[..1] + ["x"];
  }

  lemma NotApart()
    ensures !Apart(Before(), Deep()[..3], Deep()[..1])
  {
    BeforeWellFormed();
    ApartIff(Before(), Deep()[..3], Deep()[..1]);
    assert Deep()[..3] + Deep()[..3][1..] == Deep()[..5];
    DirsStay(5);
    assert Before() in [Before(), Halfway(), After()];
  }
}
