/**
 Paging through a log, entry by entry: the pages are those of `ReadEntries`, each asked
 for with the last timestamp of the page before. `ReadingVisitsAllIff` carries the
 condition of `LogPaging.PagingVisitsAllIff` over from timestamps to entries: under it
 every walk shows each matching entry exactly once, however equal timestamps are ordered.
 */
module LogWalks {
  import opened Sorting
  import opened LogHeap
  import opened LogPages
  import opened LogLines
  import opened LogQuery
  import opened LogPaging

  function Concat(pages: seq<seq<Entry>>): seq<Entry>
  {
    if pages == [] then [] else pages[0] + Concat(pages[1..])
  }

  function Stamps(pages: seq<seq<Entry>>): seq<seq<int>>
  {
    if pages == [] then [] else [Map(pages[0], Stamp)] + Stamps(pages[1..])
  }

  /** Everything the query matches, whatever its cursor. */
  function Everything(dates: seq<Day>, files: map<Day, DayFile>, q: Query, decode: Decoder): seq<Entry>
  {
    All(SourceOf(files, NoCursor(q), decode), dates)
  }

  /** Pages that `ReadEntries` may return, asked for on and on from cursor `before` until there are no more. */
  ghost predicate ReadWalk(dates: seq<Day>, files: map<Day, DayFile>, q: Query, decode: Decoder, before: int,
                           pages: seq<seq<Entry>>)
    requires q.limit > 0
    decreases |pages|
  {
    && pages != []
    && var found := All(SourceOf(files, q.(beforeMs := before), decode), dates);
    && var hasMore := |found| > q.limit;
    && IsPage(pages[0], hasMore, found, q.limit)
    && if hasMore then pages[0] != [] && ReadWalk(dates, files, q, decode, LastStamp(pages[0]), pages[1..])
      else |pages| == 1
  }

  function LastStamp(page: seq<Entry>): int
    requires page != []
  {
    page[|page| - 1].timestamp
  }

  /** The same of all matching entries, with the cursor applied to them. */
  ghost predicate EntryWalk(all: seq<Entry>, limit: int, before: int, pages: seq<seq<Entry>>)
    requires limit > 0
    decreases |pages|
  {
    && pages != []
    && var found := OlderEntries(all, before);
    && var hasMore := |found| > limit;
    && IsPage(pages[0], hasMore, found, limit)
    && if hasMore then pages[0] != [] && EntryWalk(all, limit, LastStamp(pages[0]), pages[1..]) else |pages| == 1
  }

  lemma CursorIsApplied(dates: seq<Day>, files: map<Day, DayFile>, q: Query, decode: Decoder, before: int)
    ensures All(SourceOf(files, q.(beforeMs := before), decode), dates)
            == OlderEntries(Everything(dates, files, q, decode), before)
  {
    var p := q.(beforeMs := before);
    assert NoCursor(p) == NoCursor(q);
    var f, g := SourceOf(files, p, decode), SourceOf(files, NoCursor(q), decode);
    forall d: Day ensures f(d) == OlderEntries(g(d), before) {
      CursorMatching(p, decode, LinesOf(FileOf(files, d)));
    }
    CollectOlder(dates, f, g, before);
  }

  lemma {:induction false} ReadWalkIsEntryWalk(dates: seq<Day>, files: map<Day, DayFile>, q: Query, decode: Decoder,
                                               before: int, pages: seq<seq<Entry>>)
    requires q.limit > 0
    ensures ReadWalk(dates, files, q, decode, before, pages)
            <==> EntryWalk(Everything(dates, files, q, decode), q.limit, before, pages)
    decreases |pages|
  {
    CursorIsApplied(dates, files, q, decode, before);
    if pages != [] && pages[0] != [] {
      ReadWalkIsEntryWalk(dates, files, q, decode, LastStamp(pages[0]), pages[1..]);
    }
  }

  // ---- Timestamps of a walk -------------------------------------------------

  lemma {:induction false} WalkOfStamps(all: seq<Entry>, sorted: seq<Entry>, limit: int, before: int,
                                        pages: seq<seq<Entry>>)
    requires limit > 0 && EntryWalk(all, limit, before, pages)
    requires Descending(sorted, Stamp) && multiset(sorted) == multiset(all)
    ensures Walk(Map(sorted, Stamp), limit, before, Stamps(pages))
    decreases |pages|
  {
    var found := OlderEntries(all, before);
    var page, hasMore := pages[0], |found| > limit;
    PageOfCursor(page, hasMore, all, found, limit, before, sorted);
    assert Stamps(pages)[1..] == Stamps(pages[1..]);
    if hasMore {
      assert |page| == |Map(page, Stamp)| == limit;
      WalkOfStamps(all, sorted, limit, LastStamp(page), pages[1..]);
    } else {
      assert pages[1..] == [];
    }
  }

  lemma {:induction false} StampsOfConcat(pages: seq<seq<Entry>>)
    ensures Map(Concat(pages), Stamp) == Visited(Stamps(pages))
    decreases |pages|
  {
    if pages != [] {
      StampsOfConcat(pages[1..]);
      assert Stamps(pages)[1..] == Stamps(pages[1..]);
      assert Map(pages[0] + Concat(pages[1..]), Stamp) == Map(pages[0], Stamp) + Map(Concat(pages[1..]), Stamp);
    }
  }

  // ---- Entries of a walk ----------------------------------------------------

  /** A part that is as large as the whole is the whole. */
  lemma AllOfIt(part: multiset<Entry>, whole: multiset<Entry>)
    requires part <= whole && |part| == |whole|
    ensures part == whole
  {
    assert whole == part + (whole - part);
    assert |whole - part| == 0;
  }

  lemma PageIsNoOlder(page: seq<Entry>)
    requires Descending(page, Stamp) && page != []
    ensures forall e :: e in multiset(page) ==> e.timestamp >= LastStamp(page)
  {
    forall e | e in multiset(page) ensures e.timestamp >= LastStamp(page) {
      var i :| 0 <= i < |page| && page[i] == e;
      assert i < |page| - 1 ==> Stamp(page[i]) >= Stamp(page[|page| - 1]);
    }
  }

  /** What lies beyond the cursor of a page was left out of that page. */
  lemma BeyondIsLeft(all: seq<Entry>, page: seq<Entry>, rest: seq<Entry>, before: int, cursor: int)
    requires multiset(page) + multiset(rest) == multiset(OlderEntries(all, before))
    requires cursor != 0 && (before == 0 || cursor < before)
    requires forall e :: e in multiset(page) ==> e.timestamp >= cursor
    ensures multiset(OlderEntries(all, cursor)) <= multiset(rest)
  {
    OlderEntriesCount(all, before);
    OlderEntriesCount(all, cursor);
    forall e: Entry ensures multiset(OlderEntries(all, cursor))[e] <= multiset(rest)[e] {
      if e.timestamp < cursor {
        assert e !in multiset(page);
        assert multiset(OlderEntries(all, before))[e] == multiset(page)[e] + multiset(rest)[e];
      }
    }
  }

  lemma SameOlder(all: seq<Entry>, sorted: seq<Entry>, before: int)
    requires multiset(sorted) == multiset(all)
    ensures multiset(OlderEntries(all, before)) == multiset(OlderEntries(sorted, before))
  {
    OlderEntriesCount(all, before);
    OlderEntriesCount(sorted, before);
  }

  lemma SizeOfOlder(all: seq<Entry>, sorted: seq<Entry>, before: int)
    requires multiset(sorted) == multiset(all)
    ensures |OlderEntries(all, before)| == |Older(Map(sorted, Stamp), before)|
  {
    SameOlder(all, sorted, before);
    SameSize(OlderEntries(all, before), OlderEntries(sorted, before));
    OlderEntriesStamps(sorted, before);
  }

  /** A page that ends at a clean boundary and what lies beyond its cursor are all there was. */
  lemma CleanPage(all: seq<Entry>, sorted: seq<Entry>, page: seq<Entry>, limit: int, before: int, k: nat)
    requires limit > 0 && Descending(sorted, Stamp) && multiset(sorted) == multiset(all)
    requires var s := Map(sorted, Stamp);
             k + limit < |s| && Older(s, before) == s[k..] && Clean(s, k + limit)
    requires IsPage(page, true, OlderEntries(all, before), limit)
    ensures |page| == limit && LastStamp(page) == Map(sorted, Stamp)[k + limit - 1]
    ensures Older(Map(sorted, Stamp), LastStamp(page)) == Map(sorted, Stamp)[k + limit..]
    ensures multiset(OlderEntries(all, before)) == multiset(page) + multiset(OlderEntries(all, LastStamp(page)))
  {
    var s, next := Map(sorted, Stamp), k + limit;
    PageOfCursor(page, true, all, OlderEntries(all, before), limit, before, sorted);
    PageSlice(s, k, next, Map(page, Stamp));
    CursorAtBoundary(sorted, before, k, next);
    SizeOfOlder(all, sorted, before);
    SizeOfOlder(all, sorted, s[next - 1]);
    RestIsBeyond(all, page, limit, before, s[next - 1]);
  }

  lemma RestIsBeyond(all: seq<Entry>, page: seq<Entry>, limit: int, before: int, cursor: int)
    requires limit > 0 && IsPage(page, true, OlderEntries(all, before), limit)
    requires |page| == limit && LastStamp(page) == cursor
    requires cursor != 0 && (before == 0 || cursor < before)
    requires |OlderEntries(all, before)| == limit + |OlderEntries(all, cursor)|
    ensures multiset(OlderEntries(all, before)) == multiset(page) + multiset(OlderEntries(all, cursor))
  {
    var rest :| Newest(page, rest, OlderEntries(all, before), limit);
    SameSize(page + rest, OlderEntries(all, before));
    PageIsNoOlder(page);
    BeyondIsLeft(all, page, rest, before, cursor);
    AllOfIt(multiset(OlderEntries(all, cursor)), multiset(rest));
  }

  lemma CursorAtBoundary(sorted: seq<Entry>, before: int, k: nat, next: nat)
    requires Descending(sorted, Stamp)
    requires var s := Map(sorted, Stamp);
             k < next < |s| && Older(s, before) == s[k..] && Clean(s, next)
    ensures var s := Map(sorted, Stamp);
            s[next - 1] != 0 && (before == 0 || s[next - 1] < before) && Older(s, s[next - 1]) == s[next..]
  {
    StampsNonIncreasing(sorted);
    StampAtBoundary(Map(sorted, Stamp), before, k, next);
  }

  lemma StampAtBoundary(s: seq<int>, before: int, k: nat, next: nat)
    requires NonIncreasing(s) && k < next < |s| && Older(s, before) == s[k..] && Clean(s, next)
    ensures s[next - 1] != 0 && (before == 0 || s[next - 1] < before) && Older(s, s[next - 1]) == s[next..]
  {
    var n := OlderIsSuffix(s, before);
    assert |s[n..]| == |s[k..]|;
    assert n == k;
    var n' := OlderIsSuffix(s, s[next - 1]);
    assert n' == next by {
      assert n' > next - 1;
      assert s[next] < s[next - 1];
    }
  }

  /** Over clean boundaries, a walk shows exactly the entries beyond its first cursor. */
  lemma {:induction false} CleanWalkShowsAll(all: seq<Entry>, sorted: seq<Entry>, limit: int, m: nat, k: nat,
                                             before: int, pages: seq<seq<Entry>>)
    requires limit > 0 && Descending(sorted, Stamp) && multiset(sorted) == multiset(all)
    requires var s := Map(sorted, Stamp);
             CleanBoundaries(s, limit) && k == Boundary(m, limit) && k <= |s| && Older(s, before) == s[k..]
    requires EntryWalk(all, limit, before, pages)
    ensures multiset(Concat(pages)) == multiset(OlderEntries(all, before))
    decreases |pages|
  {
    var found := OlderEntries(all, before);
    var page := pages[0];
    SizeOfOlder(all, sorted, before);
    if |found| > limit {
      NextBoundary(m, limit);
      assert Clean(Map(sorted, Stamp), Boundary(m + 1, limit));
      CleanPage(all, sorted, page, limit, before, k);
      CleanWalkShowsAll(all, sorted, limit, m + 1, k + limit, LastStamp(page), pages[1..]);
      assert multiset(Concat(pages)) == multiset(page) + multiset(Concat(pages[1..]));
    } else {
      LastPageIsAll(page, found, limit);
      assert Concat(pages[1..]) == [] && page + [] == page;
    }
  }

  lemma LastPageIsAll(page: seq<Entry>, found: seq<Entry>, limit: int)
    requires limit > 0 && |found| <= limit && IsPage(page, false, found, limit)
    ensures multiset(page) == multiset(found)
  {
    var rest :| Newest(page, rest, found, limit);
    SameSize(page + rest, found);
    assert rest == [];
  }

  // ---- A walk over clean boundaries exists ----------------------------------

  lemma SortedOlder(all: seq<Entry>, sorted: seq<Entry>, before: int)
    requires Descending(sorted, Stamp) && multiset(sorted) == multiset(all)
    ensures Descending(OlderEntries(sorted, before), Stamp)
    ensures multiset(OlderEntries(sorted, before)) == multiset(OlderEntries(all, before))
  {
    SameOlder(all, sorted, before);
    OlderEntriesStamps(sorted, before);
    StampsNonIncreasing(sorted);
    var n := OlderIsSuffix(Map(sorted, Stamp), before);
    StampsDescending(OlderEntries(sorted, before), Map(sorted, Stamp), n);
  }

  lemma FrontIsPage(found: seq<Entry>, s: seq<Entry>, limit: int, size: nat)
    requires limit > 0 && Descending(s, Stamp) && multiset(s) == multiset(found)
    requires size == if |s| > limit then limit else |s|
    ensures IsPage(s[..size], |found| > limit, found, limit)
  {
    SameSize(s, found);
    FrontIsNewer(s, size);
    FrontDescending(s, size);
    assert s == s[..size] + s[size..];
    assert Newest(s[..size], s[size..], found, limit);
  }

  lemma PageExists(all: seq<Entry>, sorted: seq<Entry>, limit: int, before: int) returns (page: seq<Entry>)
    requires limit > 0 && Descending(sorted, Stamp) && multiset(sorted) == multiset(all)
    ensures IsPage(page, |OlderEntries(all, before)| > limit, OlderEntries(all, before), limit)
  {
    SortedOlder(all, sorted, before);
    var s := OlderEntries(sorted, before);
    var size := if |s| > limit then limit else |s|;
    page := s[..size];
    FrontIsPage(OlderEntries(all, before), s, limit, size);
  }

  lemma {:induction false} CleanWalkExists(all: seq<Entry>, sorted: seq<Entry>, limit: int, m: nat, k: nat, before: int)
    returns (pages: seq<seq<Entry>>)
    requires limit > 0 && Descending(sorted, Stamp) && multiset(sorted) == multiset(all)
    requires var s := Map(sorted, Stamp);
             CleanBoundaries(s, limit) && k == Boundary(m, limit) && k <= |s| && Older(s, before) == s[k..]
    ensures EntryWalk(all, limit, before, pages)
    decreases |sorted| - k
  {
    var page := PageExists(all, sorted, limit, before);
    SizeOfOlder(all, sorted, before);
    if |OlderEntries(all, before)| > limit {
      NextBoundary(m, limit);
      assert Clean(Map(sorted, Stamp), Boundary(m + 1, limit));
      CleanPage(all, sorted, page, limit, before, k);
      var rest := CleanWalkExists(all, sorted, limit, m + 1, k + limit, LastStamp(page));
      pages := [page] + rest;
      assert pages[1..] == rest;
    } else {
      pages := [page];
    }
  }

  // ---- Main theorem ---------------------------------------------------------

  /** Newest first, each of the entries exactly as often as it is there. */
  ghost predicate Shows(pages: seq<seq<Entry>>, all: seq<Entry>)
  {
    Descending(Concat(pages), Stamp) && multiset(Concat(pages)) == multiset(all)
  }

  lemma NoCursorIsAll(all: seq<Entry>, sorted: seq<Entry>)
    requires Descending(sorted, Stamp)
    ensures multiset(OlderEntries(all, 0)) == multiset(all)
    ensures Older(Map(sorted, Stamp), 0) == Map(sorted, Stamp)[0..]
  {
    OlderEntriesCount(all, 0);
    StampsNonIncreasing(sorted);
    var n := OlderIsSuffix(Map(sorted, Stamp), 0);
  }

  lemma CleanWalkShows(all: seq<Entry>, sorted: seq<Entry>, limit: int, pages: seq<seq<Entry>>)
    requires limit > 0 && Descending(sorted, Stamp) && multiset(sorted) == multiset(all)
    requires CleanBoundaries(Map(sorted, Stamp), limit) && EntryWalk(all, limit, 0, pages)
    ensures Shows(pages, all)
  {
    var s := Map(sorted, Stamp);
    NoCursorIsAll(all, sorted);
    CleanWalkShowsAll(all, sorted, limit, 0, 0, 0, pages);
    WalkOfStamps(all, sorted, limit, 0, pages);
    StampsNonIncreasing(sorted);
    var stampPages := CleanWalk(s, limit, 0, 0, 0);
    WalkUnique(s, limit, 0, stampPages, Stamps(pages));
    StampsOfConcat(pages);
    StampsDescending(Concat(pages), s, 0);
  }

  lemma ShownIsClean(all: seq<Entry>, sorted: seq<Entry>, limit: int, pages: seq<seq<Entry>>)
    requires limit > 0 && Descending(sorted, Stamp) && multiset(sorted) == multiset(all)
    requires EntryWalk(all, limit, 0, pages) && Shows(pages, all)
    ensures CleanBoundaries(Map(sorted, Stamp), limit)
  {
    var s, shown := Map(sorted, Stamp), Map(Concat(pages), Stamp);
    WalkOfStamps(all, sorted, limit, 0, pages);
    StampsOfConcat(pages);
    StampsNonIncreasing(sorted);
    StampsNonIncreasing(Concat(pages));
    MapPermutation(sorted, Concat(pages), Stamp);
    assert shown + [] == shown;
    FrontOfDescending(s, shown, []);
    SameSize(s, shown);
    assert s[..|shown|] == s;
    PagingVisitsAllIff(s, limit);
  }

  /**
   Paging through `ReadEntries` shows every matching entry exactly once, newest first,
   exactly when no page with more to come ends between equal timestamps or at timestamp 0.
   Then every walk does, whichever of the possible orders each page has.
   */
  lemma ReadingVisitsAllIff(dates: seq<Day>, files: map<Day, DayFile>, q: Query, decode: Decoder, sorted: seq<Entry>)
    requires q.limit > 0 && Descending(sorted, Stamp)
    requires multiset(sorted) == multiset(Everything(dates, files, q, decode))
    ensures var all, clean := Everything(dates, files, q, decode), CleanBoundaries(Map(sorted, Stamp), q.limit);
            && (clean <==> exists pages :: ReadWalk(dates, files, q, decode, 0, pages) && Shows(pages, all))
            && (clean ==> forall pages :: ReadWalk(dates, files, q, decode, 0, pages) ==> Shows(pages, all))
  {
    var all := Everything(dates, files, q, decode);
    forall pages: seq<seq<Entry>>
      ensures ReadWalk(dates, files, q, decode, 0, pages) <==> EntryWalk(all, q.limit, 0, pages)
    {
      ReadWalkIsEntryWalk(dates, files, q, decode, 0, pages);
    }
    WalkShowsIff(all, sorted, q.limit);
  }

  lemma WalkShowsIff(all: seq<Entry>, sorted: seq<Entry>, limit: int)
    requires limit > 0 && Descending(sorted, Stamp) && multiset(sorted) == multiset(all)
    ensures var clean := CleanBoundaries(Map(sorted, Stamp), limit);
            && (clean <==> exists pages :: EntryWalk(all, limit, 0, pages) && Shows(pages, all))
            && (clean ==> forall pages :: EntryWalk(all, limit, 0, pages) ==> Shows(pages, all))
  {
    if CleanBoundaries(Map(sorted, Stamp), limit) {
      forall pages | EntryWalk(all, limit, 0, pages) ensures Shows(pages, all) {
        CleanWalkShows(all, sorted, limit, pages);
      }
      NoCursorIsAll(all, sorted);
      var one := CleanWalkExists(all, sorted, limit, 0, 0, 0);
    }
    if pages :| EntryWalk(all, limit, 0, pages) && Shows(pages, all) {
      ShownIsClean(all, sorted, limit, pages);
    }
  }

  /** Distinct, nonzero timestamps are enough. */
  lemma DistinctEntriesPageCleanly(dates: seq<Day>, files: map<Day, DayFile>, q: Query, decode: Decoder,
                                   sorted: seq<Entry>)
    requires q.limit > 0 && Descending(sorted, Stamp)
    requires multiset(sorted) == multiset(Everything(dates, files, q, decode))
    requires Distinct(Map(sorted, Stamp)) && 0 !in Map(sorted, Stamp)
    ensures forall pages :: ReadWalk(dates, files, q, decode, 0, pages) ==>
              Shows(pages, Everything(dates, files, q, decode))
  {
    StampsNonIncreasing(sorted);
    DistinctStampsPageCleanly(Map(sorted, Stamp), q.limit);
    PagingVisitsAllIff(Map(sorted, Stamp), q.limit);
    ReadingVisitsAllIff(dates, files, q, decode, sorted);
  }
}
