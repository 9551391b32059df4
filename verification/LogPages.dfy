/**
 Pages of log entries: the newest of all matching ones, newest first. Nothing here
 depends on how entries are read; a day is whatever its file yields.
 (webmanager/backend/internal/logstore/logstore.go, `ReadEntries` and `readFile`)
 */
module LogPages {
  import opened Sorting
  import opened LogHeap

  type Day = int  // days since 1970-01-01; the day-file's name

  const DAY_MS: int := 86_400_000

  function Stamp(e: Entry): int { e.timestamp }

  /**
   sel are the newest of all, at most max of them (every one if max is not positive);
   rest is what was left out.
   */
  ghost predicate Newest(sel: seq<Entry>, rest: seq<Entry>, all: seq<Entry>, max: int)
  {
    && multiset(sel) + multiset(rest) == multiset(all)
    && (rest != [] ==> max > 0 && |sel| == max)
    && (max > 0 ==> |sel| <= max)
    && (forall x, y :: x in sel && y in rest ==> x.timestamp >= y.timestamp)
  }

  ghost predicate NewestOf(sel: seq<Entry>, all: seq<Entry>, max: int)
  {
    exists rest :: Newest(sel, rest, all, max)
  }

  lemma NewestKept(sel: seq<Entry>, rest: seq<Entry>, all: seq<Entry>, max: int, e: Entry, sel': seq<Entry>)
    requires Newest(sel, rest, all, max) && (max <= 0 || |sel| < max)
    requires multiset(sel') == multiset(sel) + multiset{e}
    ensures Newest(sel', rest, all + [e], max)
  {
    assert |sel'| == |multiset(sel')| == |sel| + 1;
  }

  lemma NewestReplaced(sel: seq<Entry>, rest: seq<Entry>, all: seq<Entry>, max: int, e: Entry, old': Entry,
                       sel': seq<Entry>)
    requires Newest(sel, rest, all, max) && 0 < max == |sel| && old' in sel && e.timestamp > old'.timestamp
    requires forall x :: x in sel ==> old'.timestamp <= x.timestamp
    requires multiset(sel') == multiset(sel) - multiset{old'} + multiset{e}
    ensures Newest(sel', rest + [old'], all + [e], max)
  {
    assert |sel'| == |multiset(sel')| == |sel|;
    forall x, y | x in sel' && y in rest + [old'] ensures x.timestamp >= y.timestamp {
      assert x in multiset(sel');
      assert x == e || x in multiset(sel);
      assert x == e || x in sel;
      if y in rest {
        assert old'.timestamp >= y.timestamp;
      }
    }
  }

  lemma NewestDropped(sel: seq<Entry>, rest: seq<Entry>, all: seq<Entry>, max: int, e: Entry)
    requires Newest(sel, rest, all, max) && 0 < max == |sel|
    requires forall x :: x in sel ==> e.timestamp <= x.timestamp
    ensures Newest(sel, rest + [e], all + [e], max)
  {
  }

  lemma NewestReordered(sel: seq<Entry>, sel': seq<Entry>, all: seq<Entry>, max: int)
    requires NewestOf(sel, all, max) && multiset(sel) == multiset(sel')
    ensures NewestOf(sel', all, max)
  {
    var rest :| Newest(sel, rest, all, max);
    SameMembers(sel, sel');
    assert |sel| == |multiset(sel)| == |multiset(sel')| == |sel'|;
    assert Newest(sel', rest, all, max);
  }

  /** A page of the given entries: the newest `limit` of them, newest first, and whether there are more. */
  ghost predicate IsPage(entries: seq<Entry>, hasMore: bool, all: seq<Entry>, limit: int)
  {
    && Descending(entries, Stamp)
    && NewestOf(entries, all, limit)
    && (hasMore <==> limit > 0 && |all| > limit)
  }

  /** The collected entries after some days: all there is, until one more than the page is in hand. */
  ghost predicate Collected(entries: seq<Entry>, all: seq<Entry>, limit: int)
  {
    Descending(entries, Stamp) && multiset(entries) == multiset(all) && (limit > 0 ==> |entries| <= limit)
  }

  lemma OlderDayFollows(entries: seq<Entry>, day: seq<Entry>, d: Day)
    requires Descending(entries, Stamp) && Descending(day, Stamp)
    requires forall e :: e in entries ==> e.timestamp >= (d + 1) * DAY_MS
    requires forall e :: e in day ==> e.timestamp < (d + 1) * DAY_MS
    ensures Descending(entries + day, Stamp)
  {
  }

  // ---- One file per day -----------------------------------------------------

  /** The matching entries of each day's file. */
  type Source = Day -> seq<Entry>

  function All(f: Source, days: seq<Day>): seq<Entry>
  {
    Collect(days, f)
  }

  ghost predicate InDay(s: seq<Entry>, d: Day)
  {
    forall e :: e in s ==> d * DAY_MS <= e.timestamp < (d + 1) * DAY_MS
  }

  ghost predicate InDays(f: Source)
  {
    forall d: Day :: InDay(f(d), d)
  }

  ghost predicate StrictlyNewestFirst(days: seq<Day>)
  {
    forall i, j :: 0 <= i < j < |days| ==> days[i] > days[j]
  }

  /** Everything in hand is newer than any day from n on. */
  ghost predicate NewerThan(entries: seq<Entry>, days: seq<Day>, n: nat)
  {
    forall e, m :: e in entries && n <= m < |days| ==> e.timestamp >= (days[m] + 1) * DAY_MS
  }

  lemma LaterDaysAreOlder(f: Source, days: seq<Day>, n: nat)
    requires InDays(f) && n < |days| && StrictlyNewestFirst(days)
    ensures forall e :: e in All(f, days[n + 1..]) ==> e.timestamp < days[n] * DAY_MS
  {
    var later := days[n + 1..];
    forall e | e in All(f, later) ensures e.timestamp < days[n] * DAY_MS {
      CollectMembers(later, f, e);
      var i :| 0 <= i < |later| && e in f(later[i]);
      assert InDay(f(later[i]), later[i]) && later[i] == days[n + 1 + i];
    }
  }

  lemma AllSoFar(f: Source, days: seq<Day>, n: nat)
    requires n < |days|
    ensures All(f, days[..n + 1]) == All(f, days[..n]) + f(days[n])
    ensures All(f, days) == All(f, days[..n]) + f(days[n]) + All(f, days[n + 1..])
  {
    assert days[..n + 1] == days[..n] + [days[n]] && days == days[..n + 1] + days[n + 1..];
    CollectSnoc(days[..n], days[n], f);
    CollectAppend(days[..n + 1], days[n + 1..], f);
  }

  /** What is in hand when the loop over the days ends. */
  ghost predicate Gathered(entries: seq<Entry>, all: seq<Entry>, limit: int)
  {
    if limit > 0 && |entries| > limit then Descending(entries, Stamp) && NewestOf(entries, all, limit + 1)
    else Collected(entries, all, limit)
  }

  lemma SelectedMembers(sel: seq<Entry>, all: seq<Entry>, max: int)
    requires NewestOf(sel, all, max)
    ensures forall e :: e in sel ==> e in all
  {
    var rest :| Newest(sel, rest, all, max);
    SameMembers(sel + rest, all);
    assert forall e :: e in sel ==> e in sel + rest;
  }

  /** How many entries of the next day can still matter: one more than fits the page. */
  function Keep(limit: int, inHand: nat): int
  {
    if limit > 0 then limit + 1 - inHand else 0
  }

  lemma PageOverflows(entries: seq<Entry>, prev: seq<Entry>, day: seq<Entry>, dayAll: seq<Entry>, later: seq<Entry>,
                      limit: int, d: Day)
    requires limit > 0 && Collected(entries, prev, limit) && |entries + day| > limit
    requires NewestOf(day, dayAll, Keep(limit, |entries|))
    requires forall e :: e in entries ==> e.timestamp >= (d + 1) * DAY_MS
    requires forall e :: e in dayAll ==> d * DAY_MS <= e.timestamp < (d + 1) * DAY_MS
    requires forall e :: e in later ==> e.timestamp < d * DAY_MS
    ensures NewestOf(entries + day, prev + dayAll + later, limit + 1)
  {
    var rest :| Newest(day, rest, dayAll, Keep(limit, |entries|));
    SameMembers(day + rest, dayAll);
    assert forall e :: e in day ==> e in day + rest;
    assert forall e :: e in rest ==> e in day + rest;
    forall x, y | x in entries + day && y in rest + later ensures x.timestamp >= y.timestamp {
      assert x in entries || x in dayAll;
    }
    assert Newest(entries + day, rest + later, prev + dayAll + later, limit + 1);
  }

  lemma PageHasRoom(entries: seq<Entry>, prev: seq<Entry>, day: seq<Entry>, dayAll: seq<Entry>, limit: int, d: Day)
    requires Collected(entries, prev, limit) && Descending(day, Stamp)
    requires limit > 0 ==> |entries + day| <= limit
    requires NewestOf(day, dayAll, Keep(limit, |entries|))
    requires forall e :: e in entries ==> e.timestamp >= (d + 1) * DAY_MS
    requires forall e :: e in dayAll ==> d * DAY_MS <= e.timestamp < (d + 1) * DAY_MS
    ensures Collected(entries + day, prev + dayAll, limit)
  {
    var rest :| Newest(day, rest, dayAll, Keep(limit, |entries|));
    assert rest == [];
    SameMembers(day, dayAll);
    OlderDayFollows(entries, day, d);
  }

  lemma FrontIsNewer(s: seq<Entry>, n: nat)
    requires Descending(s, Stamp) && n <= |s|
    ensures forall x, y :: x in s[..n] && y in s[n..] ==> x.timestamp >= y.timestamp
  {
    forall x, y | x in s[..n] && y in s[n..] ensures x.timestamp >= y.timestamp {
      var i :| 0 <= i < n && s[..n][i] == x;
      var j :| 0 <= j < |s| - n && s[n..][j] == y;
      assert Stamp(s[i]) >= Stamp(s[n + j]);
    }
  }

  lemma NewestFront(page: seq<Entry>, left: seq<Entry>, rest: seq<Entry>, all: seq<Entry>, limit: int)
    requires Newest(page + left, rest, all, limit + 1) && |page| == limit > 0
    requires forall x, y :: x in page && y in left ==> x.timestamp >= y.timestamp
    ensures Newest(page, left + rest, all, limit)
  {
    forall x, y | x in page && y in left + rest ensures x.timestamp >= y.timestamp {
      assert x in page + left;
    }
  }

  lemma TruncatedPage(entries: seq<Entry>, all: seq<Entry>, limit: int)
    requires 0 < limit < |entries| && Descending(entries, Stamp) && NewestOf(entries, all, limit + 1)
    ensures IsPage(entries[..limit], true, all, limit)
  {
    var rest :| Newest(entries, rest, all, limit + 1);
    SameSize(entries + rest, all);
    FrontIsNewer(entries, limit);
    assert entries == entries[..limit] + entries[limit..];
    NewestFront(entries[..limit], entries[limit..], rest, all, limit);
    FrontDescending(entries, limit);
  }

  lemma FrontDescending(s: seq<Entry>, n: nat)
    requires Descending(s, Stamp) && n <= |s|
    ensures Descending(s[..n], Stamp)
  {
  }

  lemma WholePage(entries: seq<Entry>, all: seq<Entry>, limit: int)
    requires Collected(entries, all, limit)
    ensures IsPage(entries, false, all, limit)
  {
    SameSize(entries, all);
    assert Newest(entries, [], all, limit);
  }

  lemma PageOfPermutation(entries: seq<Entry>, hasMore: bool, a: seq<Entry>, b: seq<Entry>, limit: int)
    requires IsPage(entries, hasMore, a, limit) && multiset(a) == multiset(b)
    ensures IsPage(entries, hasMore, b, limit)
  {
    SameSize(a, b);
    var rest :| Newest(entries, rest, a, limit);
    assert Newest(entries, rest, b, limit);
  }

  /** One more day read: either the page overflows, or everything so far is still in hand. */
  lemma DayRead(f: Source, days: seq<Day>, n: nat, entries: seq<Entry>, day: seq<Entry>, limit: int)
    requires InDays(f) && n < |days| && StrictlyNewestFirst(days)
    requires Collected(entries, All(f, days[..n]), limit) && NewerThan(entries, days, n)
    requires Descending(day, Stamp) && NewestOf(day, f(days[n]), Keep(limit, |entries|))
    ensures if limit > 0 && |entries + day| > limit then Gathered(entries + day, All(f, days), limit)
            else Collected(entries + day, All(f, days[..n + 1]), limit) && NewerThan(entries + day, days, n + 1)
  {
    var d, prev, dayAll := days[n], All(f, days[..n]), f(days[n]);
    AllSoFar(f, days, n);
    assert InDay(dayAll, d);
    SelectedMembers(day, dayAll, Keep(limit, |entries|));
    OlderDayFollows(entries, day, d);
    if limit > 0 && |entries + day| > limit {
      LaterDaysAreOlder(f, days, n);
      PageOverflows(entries, prev, day, dayAll, All(f, days[n + 1..]), limit, d);
    } else {
      PageHasRoom(entries, prev, day, dayAll, limit, d);
      forall e, m | e in entries + day && n + 1 <= m < |days| ensures e.timestamp >= (days[m] + 1) * DAY_MS {
        assert days[m] + 1 <= days[n];
      }
    }
  }

  /** Cutting what was gathered to the page. */
  lemma PageOfGathered(entries: seq<Entry>, all: seq<Entry>, limit: int)
    requires Gathered(entries, all, limit)
    ensures if limit > 0 && |entries| > limit then IsPage(entries[..limit], true, all, limit)
            else IsPage(entries, false, all, limit)
  {
    if limit > 0 && |entries| > limit {
      TruncatedPage(entries, all, limit);
    } else {
      WholePage(entries, all, limit);
    }
  }

  /**
   A page's timestamps are the first `limit` of all matching timestamps sorted newest
   first, however the sort orders equal ones.
   */
  lemma PageTimestamps(entries: seq<Entry>, hasMore: bool, all: seq<Entry>, limit: int, sorted: seq<Entry>)
    requires IsPage(entries, hasMore, all, limit)
    requires Descending(sorted, Stamp) && multiset(sorted) == multiset(all)
    ensures |entries| == (if limit > 0 && limit < |sorted| then limit else |sorted|)
    ensures Map(entries, Stamp) == Map(sorted, Stamp)[..|entries|]
    ensures multiset(entries) <= multiset(all)
  {
    var rest :| Newest(entries, rest, all, limit);
    SameSize(sorted, all);
    SameSize(entries + rest, all);
    MapPermutation(sorted, entries + rest, Stamp);
    assert Map(entries + rest, Stamp) == Map(entries, Stamp) + Map(rest, Stamp);
    forall i, j | 0 <= i < |entries| && 0 <= j < |rest| ensures Map(entries, Stamp)[i] >= Map(rest, Stamp)[j] {
      assert entries[i] in entries && rest[j] in rest;
    }
    FrontOfDescending(Map(sorted, Stamp), Map(entries, Stamp), Map(rest, Stamp));
  }
}
