/**
 Reading a log page by page (webmanager/backend/internal/logstore/logstore.go,
 `ReadEntries`): the next page is asked for with `before` set to the last timestamp
 shown, 0 meaning from the newest. When does that visit every entry exactly once?
 */
module LogPaging {
  import opened Sorting
  import opened LogHeap
  import opened LogPages
  import opened LogLines
  import opened LogQuery
  import opened Wrappers

  datatype Page = Page(stamps: seq<int>, hasMore: bool)

  /** What the cursor lets through, of timestamps newest first. */
  function Older(s: seq<int>, before: int): seq<int>
  {
    if s == [] then []
    else if before == 0 || s[0] < before then [s[0]] + Older(s[1..], before)
    else Older(s[1..], before)
  }

  function PageAt(s: seq<int>, limit: int, before: int): Page
    requires limit > 0
  {
    var older := Older(s, before);
    Page(older[..if |older| <= limit then |older| else limit], |older| > limit)
  }

  // ---- The pages of ReadEntries ---------------------------------------------

  function OlderEntries(s: seq<Entry>, before: int): seq<Entry>
  {
    if s == [] then []
    else if before == 0 || s[0].timestamp < before then [s[0]] + OlderEntries(s[1..], before)
    else OlderEntries(s[1..], before)
  }

  lemma {:induction false} OlderEntriesCount(s: seq<Entry>, before: int)
    ensures forall e :: multiset(OlderEntries(s, before))[e]
              == if before == 0 || e.timestamp < before then multiset(s)[e] else 0
    decreases |s|
  {
    if s != [] {
      OlderEntriesCount(s[1..], before);
      WithoutHead(s);
    }
  }

  lemma {:induction false} OlderEntriesStamps(s: seq<Entry>, before: int)
    ensures Map(OlderEntries(s, before), Stamp) == Older(Map(s, Stamp), before)
    decreases |s|
  {
    if s != [] {
      OlderEntriesStamps(s[1..], before);
      assert Map(s, Stamp)[1..] == Map(s[1..], Stamp);
      var rest := OlderEntries(s[1..], before);
      assert Map([s[0]] + rest, Stamp) == [s[0].timestamp] + Map(rest, Stamp);
    }
  }

  lemma {:induction false} OlderIsSuffix(s: seq<int>, before: int) returns (n: nat)
    requires NonIncreasing(s)
    ensures n <= |s| && Older(s, before) == s[n..]
    ensures before != 0 ==> (forall i :: 0 <= i < n ==> s[i] >= before) && (forall i :: n <= i < |s| ==> s[i] < before)
    ensures before == 0 ==> n == 0
    decreases |s|
  {
    n := 0;
    if s != [] {
      var m := OlderIsSuffix(s[1..], before);
      if before == 0 || s[0] < before {
        assert forall i :: 0 <= i < |s[1..]| ==> s[1..][i] <= s[0];
        assert m == 0;
        assert s == [s[0]] + s[1..];
      } else {
        n := m + 1;
        assert s[1..][m..] == s[n..];
        assert forall i :: 0 < i < n ==> s[i] == s[1..][i - 1];
        assert forall i :: n <= i < |s| ==> s[i] == s[1..][i - 1];
      }
    }
  }

  lemma PageOfCursor(entries: seq<Entry>, hasMore: bool, all: seq<Entry>, older: seq<Entry>, limit: int, before: int,
                     sorted: seq<Entry>)
    requires limit > 0 && IsPage(entries, hasMore, older, limit)
    requires multiset(older) == multiset(OlderEntries(all, before))
    requires Descending(sorted, Stamp) && multiset(sorted) == multiset(all)
    ensures Page(Map(entries, Stamp), hasMore) == PageAt(Map(sorted, Stamp), limit, before)
  {
    var olderSorted := OlderEntries(sorted, before);
    OlderEntriesCount(sorted, before);
    OlderEntriesCount(all, before);
    assert multiset(olderSorted) == multiset(older);
    OlderEntriesStamps(sorted, before);
    StampsNonIncreasing(sorted);
    var n := OlderIsSuffix(Map(sorted, Stamp), before);
    StampsDescending(olderSorted, Map(sorted, Stamp), n);
    SameSize(olderSorted, older);
    PageTimestamps(entries, hasMore, older, limit, olderSorted);
  }

  lemma StampsNonIncreasing(s: seq<Entry>)
    requires Descending(s, Stamp)
    ensures NonIncreasing(Map(s, Stamp))
  {
    var stamps := Map(s, Stamp);
    forall i, j | 0 <= i < j < |stamps| ensures stamps[i] >= stamps[j] {
      assert Stamp(s[i]) >= Stamp(s[j]);
    }
  }

  lemma StampsDescending(s: seq<Entry>, stamps: seq<int>, n: nat)
    requires n <= |stamps| && NonIncreasing(stamps) && Map(s, Stamp) == stamps[n..]
    ensures Descending(s, Stamp)
  {
    forall i, j | 0 <= i < j < |s| ensures Stamp(s[i]) >= Stamp(s[j]) {
      assert Stamp(s[i]) == Map(s, Stamp)[i] == stamps[n + i];
      assert Stamp(s[j]) == Map(s, Stamp)[j] == stamps[n + j];
    }
  }

  lemma {:induction false} OlderEntriesAppend(a: seq<Entry>, b: seq<Entry>, before: int)
    ensures OlderEntries(a + b, before) == OlderEntries(a, before) + OlderEntries(b, before)
    decreases |a|
  {
    if a == [] {
      assert a + b == b;
    } else {
      OlderEntriesAppend(a[1..], b, before);
      assert (a + b)[1..] == a[1..] + b;
    }
  }

  function NoCursor(q: Query): Query
  {
    q.(beforeMs := 0)
  }

  lemma {:induction false} CursorMatching(q: Query, decode: Decoder, told: seq<Option<Line>>)
    ensures Matching(q, decode, told) == OlderEntries(Matching(NoCursor(q), decode, told), q.beforeMs)
    decreases |told|
  {
    if told != [] {
      var n := |told| - 1;
      CursorMatching(q, decode, told[..n]);
      if told[n].Some? && decode(told[n].value).Some? {
        var e := decode(told[n].value).value;
        OlderEntriesAppend(Matching(NoCursor(q), decode, told[..n]), [e], q.beforeMs);
        assert OlderEntries([e][1..], q.beforeMs) == [];
      }
    }
  }

  lemma {:induction false} CollectOlder(days: seq<Day>, f: Source, g: Source, before: int)
    requires forall d: Day :: f(d) == OlderEntries(g(d), before)
    ensures All(f, days) == OlderEntries(All(g, days), before)
    decreases |days|
  {
    if days != [] {
      var n := |days| - 1;
      CollectOlder(days[..n], f, g, before);
      OlderEntriesAppend(All(g, days[..n]), g(days[n]), before);
    }
  }

  /**
   What `ReadEntries` returns for a cursor is `PageAt` of the timestamps of everything
   that matches the query without its cursor.
   */
  lemma CursorPage(entries: seq<Entry>, hasMore: bool, dates: seq<Day>, files: map<Day, DayFile>, q: Query,
                   decode: Decoder, sorted: seq<Entry>)
    requires q.limit > 0 && IsPage(entries, hasMore, All(SourceOf(files, q, decode), dates), q.limit)
    requires Descending(sorted, Stamp)
    requires multiset(sorted) == multiset(All(SourceOf(files, NoCursor(q), decode), dates))
    ensures Page(Map(entries, Stamp), hasMore) == PageAt(Map(sorted, Stamp), q.limit, q.beforeMs)
  {
    var f, g := SourceOf(files, q, decode), SourceOf(files, NoCursor(q), decode);
    forall d: Day ensures f(d) == OlderEntries(g(d), q.beforeMs) {
      CursorMatching(q, decode, LinesOf(FileOf(files, d)));
    }
    CollectOlder(dates, f, g, q.beforeMs);
    PageOfCursor(entries, hasMore, All(g, dates), All(f, dates), q.limit, q.beforeMs, sorted);
  }

  // ---- Walking the pages ----------------------------------------------------

  /** pages are what a reader sees who starts at `before` and asks on until hasMore is false. */
  ghost predicate Walk(s: seq<int>, limit: int, before: int, pages: seq<seq<int>>)
    requires limit > 0
    decreases |pages|
  {
    && pages != []
    && var p := PageAt(s, limit, before);
    && pages[0] == p.stamps
    && if p.hasMore then Walk(s, limit, p.stamps[limit - 1], pages[1..]) else |pages| == 1
  }

  function Visited(pages: seq<seq<int>>): seq<int>
  {
    if pages == [] then [] else pages[0] + Visited(pages[1..])
  }

  /** No page with more to come ends in the middle of equal timestamps, or at timestamp 0. */
  ghost predicate CleanBoundaries(s: seq<int>, limit: int)
    requires limit > 0
  {
    forall m :: m > 0 && 0 < Boundary(m, limit) < |s| ==> Clean(s, Boundary(m, limit))
  }

  /** Where page m starts. */
  function Boundary(m: int, limit: int): int
  {
    m * limit
  }

  predicate Clean(s: seq<int>, i: int)
    requires 0 < i < |s|
  {
    s[i - 1] > s[i] && s[i - 1] != 0
  }

  lemma NextBoundary(m: nat, limit: int)
    requires limit > 0
    ensures Boundary(m + 1, limit) == Boundary(m, limit) + limit
  {
  }

  lemma {:induction false} CleanWalk(s: seq<int>, limit: int, m: nat, k: nat, before: int)
    returns (pages: seq<seq<int>>)
    requires limit > 0 && NonIncreasing(s) && CleanBoundaries(s, limit)
    requires k == Boundary(m, limit) && k <= |s| && Older(s, before) == s[k..]
    ensures Walk(s, limit, before, pages) && Visited(pages) == s[k..]
    decreases |s| - k
  {
    var p := PageAt(s, limit, before);
    if !p.hasMore {
      pages := [p.stamps];
      assert Visited(pages[1..]) == [] && p.stamps == s[k..];
    } else {
      var next := k + limit;
      NextBoundary(m, limit);
      assert Clean(s, next);
      var cursor := s[next - 1];
      PageSlice(s, k, next, p.stamps);
      var n := OlderIsSuffix(s, cursor);
      assert n == next;
      var rest := CleanWalk(s, limit, m + 1, next, cursor);
      pages := [p.stamps] + rest;
      assert pages[1..] == rest;
    }
  }

  lemma PageSlice(s: seq<int>, k: nat, next: nat, stamps: seq<int>)
    requires k < next <= |s| && stamps == s[k..][..next - k]
    ensures stamps == s[k..next] && stamps[next - k - 1] == s[next - 1] && s[k..] == stamps + s[next..]
  {
  }

  lemma {:induction false} WalkUnique(s: seq<int>, limit: int, before: int, a: seq<seq<int>>, b: seq<seq<int>>)
    requires limit > 0 && Walk(s, limit, before, a) && Walk(s, limit, before, b)
    ensures a == b
    decreases |a|
  {
    var p := PageAt(s, limit, before);
    if p.hasMore {
      WalkUnique(s, limit, p.stamps[limit - 1], a[1..], b[1..]);
      assert a == [a[0]] + a[1..] && b == [b[0]] + b[1..];
    } else {
      assert a == [a[0]] && b == [b[0]];
    }
  }

  /** A walk from the start never comes back to the start. */
  lemma NoRestart(s: seq<int>, limit: int, all: seq<seq<int>>, tail: seq<seq<int>>)
    requires limit > 0 && Walk(s, limit, 0, all) && |tail| < |all|
    ensures !Walk(s, limit, 0, tail)
  {
    if Walk(s, limit, 0, tail) {
      WalkUnique(s, limit, 0, all, tail);
    }
  }

  lemma TailOfSum(whole: seq<int>, a: seq<int>, b: seq<int>)
    requires whole == a + b
    ensures b == whole[|a|..]
  {
  }

  /** One page of a walk that visits everything, with more to come. */
  lemma OneMorePage(s: seq<int>, limit: int, k: nat, before: int, pages: seq<seq<int>>)
    requires limit > 0 && k <= |s| && Older(s, before) == s[k..] && PageAt(s, limit, before).hasMore
    requires Walk(s, limit, before, pages) && Visited(pages) == s[k..]
    ensures var next := k + limit;
            next < |s| && pages != [] && Walk(s, limit, s[next - 1], pages[1..]) && Visited(pages[1..]) == s[next..]
  {
    var next := k + limit;
    PageSlice(s, k, next, pages[0]);
    TailOfSum(s[k..], pages[0], Visited(pages[1..]));
    TailOfSum(s[k..], pages[0], s[next..]);
  }

  /** The boundary after such a page is clean. */
  lemma CompleteStepIsClean(s: seq<int>, limit: int, next: nat, all: seq<seq<int>>, tail: seq<seq<int>>)
    requires limit > 0 && NonIncreasing(s) && Walk(s, limit, 0, all) && |tail| < |all|
    requires 0 < next < |s| && Walk(s, limit, s[next - 1], tail) && Visited(tail) == s[next..]
    ensures Clean(s, next) && Older(s, s[next - 1]) == s[next..]
  {
    var cursor := s[next - 1];
    NoRestart(s, limit, all, tail);
    var n := OlderIsSuffix(s, cursor);
    FirstVisited(s, limit, cursor, tail, n);
    assert s[next] == s[n] < cursor;
  }

  lemma FirstVisited(s: seq<int>, limit: int, before: int, pages: seq<seq<int>>, n: nat)
    requires limit > 0 && n <= |s| && Older(s, before) == s[n..] && Walk(s, limit, before, pages)
    ensures if n == |s| then Visited(pages) == [] else Visited(pages) != [] && Visited(pages)[0] == s[n]
  {
    if n == |s| {
      assert pages[1..] == [];
    }
  }

  lemma BoundariesAfter(m: int, i: int, limit: int)
    requires limit > 0 && i > m
    ensures Boundary(i, limit) >= Boundary(m, limit) + limit
  {
    assert (i - (m + 1)) * limit >= 0;
  }

  /** From here on, a walk that visits everything crosses only clean boundaries. */
  lemma {:induction false} CompleteWalkIsClean(s: seq<int>, limit: int, m: nat, k: nat, before: int,
                                               all: seq<seq<int>>, pages: seq<seq<int>>)
    requires limit > 0 && NonIncreasing(s) && Walk(s, limit, 0, all)
    requires k == Boundary(m, limit) && k <= |s| && Older(s, before) == s[k..]
    requires |pages| <= |all| && Walk(s, limit, before, pages) && Visited(pages) == s[k..]
    ensures forall i :: i > m && 0 < Boundary(i, limit) < |s| ==> Clean(s, Boundary(i, limit))
    decreases |s| - k
  {
    if PageAt(s, limit, before).hasMore {
      var next := k + limit;
      NextBoundary(m, limit);
      OneMorePage(s, limit, k, before, pages);
      CompleteStepIsClean(s, limit, next, all, pages[1..]);
      CompleteWalkIsClean(s, limit, m + 1, next, s[next - 1], all, pages[1..]);
      forall i | i > m && 0 < Boundary(i, limit) < |s| ensures Clean(s, Boundary(i, limit)) {
        assert i == m + 1 || i > m + 1;
      }
    } else {
      forall i | i > m ensures Boundary(i, limit) >= |s| {
        BoundariesAfter(m, i, limit);
      }
    }
  }

  /**
   Paging terminates and shows every matching timestamp exactly once, newest first,
   exactly when no page with more to come ends between equal timestamps or at timestamp 0
   (which the cursor cannot express). Distinct, nonzero timestamps are enough.
   */
  lemma PagingVisitsAllIff(s: seq<int>, limit: int)
    requires limit > 0 && NonIncreasing(s)
    ensures (exists pages :: Walk(s, limit, 0, pages) && Visited(pages) == s) <==> CleanBoundaries(s, limit)
  {
    var n := OlderIsSuffix(s, 0);
    assert s[0..] == s;
    if CleanBoundaries(s, limit) {
      var pages := CleanWalk(s, limit, 0, 0, 0);
    }
    if exists pages :: Walk(s, limit, 0, pages) && Visited(pages) == s {
      var pages :| Walk(s, limit, 0, pages) && Visited(pages) == s;
      CompleteWalkIsClean(s, limit, 0, 0, 0, pages, pages);
    }
  }

  lemma DistinctStampsPageCleanly(s: seq<int>, limit: int)
    requires limit > 0 && NonIncreasing(s) && Distinct(s) && 0 !in s
    ensures exists pages :: Walk(s, limit, 0, pages) && Visited(pages) == s
  {
    PagingVisitsAllIff(s, limit);
  }

  /** Two entries at one instant and one to a page: the second is never shown. */
  lemma EqualStampsAreSkipped(pages: seq<seq<int>>)
    ensures Walk([5, 5], 1, 0, pages) <==> pages == [[5], []]
    ensures Visited([[5], []]) == [5]
  {
    var s: seq<int>, shown: seq<seq<int>> := [5, 5], [[5], []];
    assert s[1..] == [5] && [5][1..] == [] && shown[1..] == [[]] && shown[1..][1..] == [];
    assert Older([5], 0) == [5] && Older(s, 0) == s;
    assert Older([5], 5) == [] && Older(s, 5) == [];
    assert Walk(s, 1, 5, shown[1..]);
    assert Walk(s, 1, 0, shown);
    if Walk(s, 1, 0, pages) {
      WalkUnique(s, 1, 0, pages, shown);
    }
  }

  /** In a walk that ends, no page with more to come ends at timestamp 0. */
  lemma {:induction false} NoPageEndsAtZero(s: seq<int>, limit: int, all: seq<seq<int>>, before: int,
                                            pages: seq<seq<int>>, m: nat)
    requires limit > 0 && Walk(s, limit, 0, all) && Walk(s, limit, before, pages) && |pages| <= |all|
    requires m + 1 < |pages|
    ensures |pages[m]| == limit && pages[m][limit - 1] != 0
    decreases m
  {
    if m == 0 {
      if pages[0][limit - 1] == 0 {
        NoRestart(s, limit, all, pages[1..]);
        assert false;
      }
    } else {
      NoPageEndsAtZero(s, limit, all, pages[0][limit - 1], pages[1..], m - 1);
    }
  }

  /** A first page with more to come that ends at timestamp 0 is asked for again and again. */
  lemma ZeroStampNeverEnds(s: seq<int>, limit: int, pages: seq<seq<int>>)
    requires limit > 0 && NonIncreasing(s) && |s| > limit && s[limit - 1] == 0
    ensures !Walk(s, limit, 0, pages)
  {
    var n := OlderIsSuffix(s, 0);
    assert s[0..] == s;
    if Walk(s, limit, 0, pages) {
      NoRestart(s, limit, pages, pages[1..]);
      assert false;
    }
  }
}
