/**
 Answering a log query from one file per UTC day (`ReadEntries` and `readFile` in
 webmanager/backend/internal/logstore/logstore.go). Decoding a JSON line is a parameter:
 a function from a line to an entry, or to nothing for a line that does not parse.
 */
module LogQuery {
  import opened Wrappers
  import opened Splitting
  import opened Sorting
  import opened LogLines
  import opened LogHeap
  import opened LogPages

  datatype Query = Query(app: string, level: string, startMs: int, endMs: int, beforeMs: int, limit: int)

  predicate Match(q: Query, e: Entry)
  {
    && (q.app == "" || e.app == q.app)
    && (q.level == "" || e.level == q.level)
    && (q.startMs == 0 || e.timestamp >= q.startMs)
    && (q.endMs == 0 || e.timestamp <= q.endMs)
    && (q.beforeMs == 0 || e.timestamp < q.beforeMs)
  }

  type Decoder = Line -> Option<Entry>

  /** The matching entries among some lines, in file order. */
  function Matching(q: Query, decode: Decoder, told: seq<Option<Line>>): seq<Entry>
  {
    if told == [] then []
    else
      var before := Matching(q, decode, told[..|told| - 1]);
      var last := told[|told| - 1];
      if last.Some? && decode(last.value).Some? && Match(q, decode(last.value).value)
      then before + [decode(last.value).value] else before
  }

  // ---- One day-file ---------------------------------------------------------

  datatype DayFile = Missing | Unreadable | Readable(slices: seq<Read>)

  predicate Proper(file: DayFile)
  {
    file.Readable? ==> WellFormed(file.slices)
  }

  /** The lines reported to readFile's callback. */
  function LinesOf(file: DayFile): seq<Option<Line>>
  {
    if file.Readable? then Told(Split(Stream(file.slices), NL)) else []
  }

  /** One matching entry: kept while there is room, then only in place of an older one. */
  method Consider(kept: NewestEntries, e: Entry, max: int, ghost rest: seq<Entry>, ghost all: seq<Entry>)
    returns (ghost rest': seq<Entry>)
    requires IsHeap(kept.data) && Newest(kept.data, rest, all, max)
    modifies kept
    ensures IsHeap(kept.data) && Newest(kept.data, rest', all + [e], max)
  {
    ghost var sel := kept.data;
    if max <= 0 || |kept.data| < max {
      kept.Push(e);
      NewestKept(sel, rest, all, max, e, kept.data);
      return rest;
    }
    OldestOfHeap(sel);
    if e.timestamp > kept.data[0].timestamp {
      kept.ReplaceOldest(e);
      NewestReplaced(sel, rest, all, max, e, sel[0], kept.data);
      return rest + [sel[0]];
    }
    NewestDropped(sel, rest, all, max, e);
    return rest + [e];
  }

  lemma OldestOfHeap(sel: seq<Entry>)
    requires IsHeap(sel) && sel != []
    ensures forall x :: x in sel ==> sel[0].timestamp <= x.timestamp
  {
    forall x | x in sel ensures sel[0].timestamp <= x.timestamp {
      var k :| 0 <= k < |sel| && sel[k] == x;
      RootIsOldest(sel, k);
    }
  }

  /** The callback of readFile, over all the lines. */
  method KeepNewest(told: seq<Option<Line>>, q: Query, decode: Decoder, max: int) returns (sel: seq<Entry>)
    ensures NewestOf(sel, Matching(q, decode, told), max)
  {
    var kept := new NewestEntries();
    ghost var rest: seq<Entry> := [];
    for n := 0 to |told|
      invariant fresh(kept) && IsHeap(kept.data)
      invariant Newest(kept.data, rest, Matching(q, decode, told[..n]), max)
    {
      assert told[..n + 1][..n] == told[..n];
      var line := told[n];
      if line.None? {
        continue;
      }
      var entry := decode(line.value);
      if entry.None? || !Match(q, entry.value) {
        continue;
      }
      rest := Consider(kept, entry.value, max, rest, Matching(q, decode, told[..n]));
    }
    assert told[..|told|] == told;
    sel := kept.data;
  }

  /** The newest matching entries of one file, newest first; a heap of at most max is all it keeps. */
  method ReadFile(file: DayFile, q: Query, decode: Decoder, max: int) returns (out: seq<Entry>)
    requires file.Readable? && Proper(file)
    ensures Descending(out, Stamp)
    ensures NewestOf(out, Matching(q, decode, LinesOf(file)), max)
  {
    var told, ok := EachLine(file.slices);
    var sel := KeepNewest(told, q, decode, max);
    out := SortDescending(sel, Stamp);
    NewestReordered(sel, out, Matching(q, decode, told), max);
  }

  // ---- All days -------------------------------------------------------------

  function FileOf(files: map<Day, DayFile>, d: Day): DayFile
  {
    if d in files then files[d] else Missing
  }

  function DayMatches(files: map<Day, DayFile>, q: Query, decode: Decoder, d: Day): seq<Entry>
  {
    Matching(q, decode, LinesOf(FileOf(files, d)))
  }

  /** Every entry of a day's file lies in that UTC day. */
  ghost predicate DaysHold(files: map<Day, DayFile>, decode: Decoder)
  {
    forall d, i :: d in files && 0 <= i < |LinesOf(files[d])| ==>
      HoldsIn(decode, LinesOf(files[d])[i], d)
  }

  predicate HoldsIn(decode: Decoder, line: Option<Line>, d: Day)
  {
    line.Some? && decode(line.value).Some? ==> d * DAY_MS <= decode(line.value).value.timestamp < (d + 1) * DAY_MS
  }

  predicate InRange(q: Query, d: Day)
  {
    !(q.startMs != 0 && (d + 1) * DAY_MS <= q.startMs) && !(q.endMs != 0 && d * DAY_MS > q.endMs)
  }

  lemma {:induction false} MatchingMembers(q: Query, decode: Decoder, told: seq<Option<Line>>, d: Day, e: Entry)
    requires e in Matching(q, decode, told)
    requires forall i :: 0 <= i < |told| ==> HoldsIn(decode, told[i], d)
    ensures Match(q, e) && d * DAY_MS <= e.timestamp < (d + 1) * DAY_MS
    decreases |told|
  {
    var init := told[..|told| - 1];
    if e in Matching(q, decode, init) {
      forall i | 0 <= i < |init| ensures HoldsIn(decode, init[i], d) { assert init[i] == told[i]; }
      MatchingMembers(q, decode, init, d, e);
    } else {
      assert HoldsIn(decode, told[|told| - 1], d);
    }
  }

  lemma DayMembers(files: map<Day, DayFile>, q: Query, decode: Decoder, d: Day)
    requires DaysHold(files, decode)
    ensures forall e :: e in DayMatches(files, q, decode, d) ==>
              Match(q, e) && d * DAY_MS <= e.timestamp < (d + 1) * DAY_MS
  {
    forall e | e in DayMatches(files, q, decode, d)
      ensures Match(q, e) && d * DAY_MS <= e.timestamp < (d + 1) * DAY_MS
    {
      assert d in files;
      MatchingMembers(q, decode, LinesOf(files[d]), d, e);
    }
  }

  /** A day outside the queried range has nothing to give. */
  lemma OutOfRangeIsEmpty(files: map<Day, DayFile>, q: Query, decode: Decoder, d: Day)
    requires DaysHold(files, decode) && !InRange(q, d)
    ensures DayMatches(files, q, decode, d) == []
  {
    DayMembers(files, q, decode, d);
    var found := DayMatches(files, q, decode, d);
    if found != [] {
      Member(found, 0);
      assert false;
    }
  }

  // ---- ReadEntries ----------------------------------------------------------

  /** The days whose file can hold a match, in the given order. */
  function Candidates(dates: seq<Day>, q: Query): seq<Day>
  {
    if dates == [] then []
    else
      var d := dates[|dates| - 1];
      Candidates(dates[..|dates| - 1], q) + if InRange(q, d) then [d] else []
  }

  method DaysToRead(dates: seq<Day>, q: Query) returns (days: seq<Day>)
    ensures Descending(days, (d: Day) => d) && multiset(days) == multiset(Candidates(dates, q))
  {
    var filtered := [];
    for n := 0 to |dates|
      invariant filtered == Candidates(dates[..n], q)
    {
      var d := dates[n];
      assert dates[..n + 1][..n] == dates[..n];
      if q.startMs != 0 && (d + 1) * DAY_MS <= q.startMs {
        continue;
      }
      if q.endMs != 0 && d * DAY_MS > q.endMs {
        continue;
      }
      filtered := filtered + [d];
    }
    assert dates[..|dates|] == dates;
    days := SortDescending(filtered, (d: Day) => d);
  }

  lemma {:induction false} CandidatesMembers(dates: seq<Day>, q: Query, d: Day)
    ensures d in Candidates(dates, q) <==> d in dates && InRange(q, d)
    decreases |dates|
  {
    if dates != [] {
      var n := |dates| - 1;
      CandidatesMembers(dates[..n], q, d);
      assert dates == dates[..n] + [dates[n]];
    }
  }

  lemma {:induction false} CandidatesDistinct(dates: seq<Day>, q: Query)
    requires Distinct(dates)
    ensures Distinct(Candidates(dates, q))
    decreases |dates|
  {
    if dates != [] {
      var n := |dates| - 1;
      CandidatesDistinct(dates[..n], q);
      var before := Candidates(dates[..n], q);
      forall i | 0 <= i < |before| ensures before[i] != dates[n] {
        CandidatesMembers(dates[..n], q, before[i]);
      }
    }
  }

  lemma DaysStrict(days: seq<Day>, dates: seq<Day>, q: Query)
    requires Distinct(dates) && Descending(days, (d: Day) => d) && multiset(days) == multiset(Candidates(dates, q))
    ensures StrictlyNewestFirst(days)
  {
    CandidatesDistinct(dates, q);
    DistinctPermutation(Candidates(dates, q), days);
    var key := (d: Day) => d;
    forall i, j | 0 <= i < j < |days| ensures days[i] > days[j] { assert key(days[i]) >= key(days[j]); }
  }

  lemma DaysMembers(days: seq<Day>, dates: seq<Day>, q: Query, d: Day)
    requires multiset(days) == multiset(Candidates(dates, q))
    ensures d in days <==> d in dates && InRange(q, d)
  {
    SameMembers(Candidates(dates, q), days);
    CandidatesMembers(dates, q, d);
  }

  /** The days left out would have contributed nothing. */
  lemma {:induction false} CandidatesSuffice(dates: seq<Day>, q: Query, f: Source)
    requires forall d :: !InRange(q, d) ==> f(d) == []
    ensures All(f, Candidates(dates, q)) == All(f, dates)
    decreases |dates|
  {
    if dates != [] {
      var n := |dates| - 1;
      CandidatesSuffice(dates[..n], q, f);
      var before := Candidates(dates[..n], q);
      if InRange(q, dates[n]) {
        CollectSnoc(before, dates[n], f);
      } else {
        assert before + [] == before;
      }
    }
  }

  function SourceOf(files: map<Day, DayFile>, q: Query, decode: Decoder): Source
  {
    (d: Day) => DayMatches(files, q, decode, d)
  }

  lemma SourceInDays(files: map<Day, DayFile>, q: Query, decode: Decoder)
    requires DaysHold(files, decode)
    ensures InDays(SourceOf(files, q, decode))
    ensures forall d :: !InRange(q, d) ==> SourceOf(files, q, decode)(d) == []
  {
    var f := SourceOf(files, q, decode);
    forall d: Day ensures InDay(f(d), d) { DayMembers(files, q, decode, d); }
    forall d: Day | !InRange(q, d) ensures f(d) == [] { OutOfRangeIsEmpty(files, q, decode, d); }
  }

  datatype ReadError = OpenFailed

  /** f says what each day's file yields. */
  ghost predicate Yields(files: map<Day, DayFile>, q: Query, decode: Decoder, f: Source)
  {
    forall d {:trigger DayMatches(files, q, decode, d)} :: DayMatches(files, q, decode, d) == f(d)
  }

  /** One day's contribution; a file that is gone by now has none. */
  method ReadDay(files: map<Day, DayFile>, d: Day, q: Query, decode: Decoder, keep: int, ghost f: Source)
    returns (r: Result<seq<Entry>, ReadError>)
    requires forall d' :: d' in files ==> Proper(files[d'])
    requires Yields(files, q, decode, f)
    ensures r.Err? <==> FileOf(files, d) == Unreadable
    ensures r.Ok? ==> Descending(r.value, Stamp) && NewestOf(r.value, f(d), keep)
  {
    assert DayMatches(files, q, decode, d) == f(d);
    var file := FileOf(files, d);
    match file {
      case Missing =>
        assert Newest([], [], f(d), keep);
        r := Ok([]);
      case Unreadable =>
        r := Err(OpenFailed);
      case Readable(_) =>
        var entries := ReadFile(file, q, decode, keep);
        r := Ok(entries);
    }
  }

  /** None of the first n days has a file that cannot be read. */
  predicate AllReadable(files: map<Day, DayFile>, days: seq<Day>, n: nat)
    requires n <= |days|
  {
    n == 0 || (FileOf(files, days[n - 1]) != Unreadable && AllReadable(files, days, n - 1))
  }

  lemma {:induction false} ReadableMembers(files: map<Day, DayFile>, days: seq<Day>, n: nat, i: nat)
    requires i < n <= |days| && AllReadable(files, days, n)
    ensures FileOf(files, days[i]) != Unreadable
    decreases n
  {
    if i < n - 1 {
      ReadableMembers(files, days, n - 1, i);
    }
  }

  /** What holds before day n is read, if each file holds only its own day. */
  ghost predicate InHand(holds: bool, f: Source, days: seq<Day>, n: nat, entries: seq<Entry>, limit: int)
    requires n <= |days|
  {
    holds ==> Collected(entries, All(f, days[..n]), limit) && NewerThan(entries, days, n)
  }

  /** One turn of the loop. */
  method ReadNext(days: seq<Day>, n: nat, files: map<Day, DayFile>, q: Query, decode: Decoder, before: seq<Entry>,
                  ghost f: Source, ghost holds: bool)
    returns (r: Result<seq<Entry>, ReadError>)
    requires forall d :: d in files ==> Proper(files[d])
    requires Yields(files, q, decode, f) && (holds ==> InDays(f)) && StrictlyNewestFirst(days)
    requires n < |days| && InHand(holds, f, days, n, before, q.limit) && (q.limit > 0 ==> |before| <= q.limit)
    ensures r.Err? <==> FileOf(files, days[n]) == Unreadable
    ensures r.Ok? ==>
              if q.limit > 0 && |r.value| > q.limit then holds ==> Gathered(r.value, All(f, days), q.limit)
              else InHand(holds, f, days, n + 1, r.value, q.limit)
  {
    var keep := 0;
    if q.limit > 0 {
      keep := q.limit + 1 - |before|;
    }
    var day := ReadDay(files, days[n], q, decode, keep, f);
    if day.Err? {
      return Err(day.error);
    }
    if holds {
      DayRead(f, days, n, before, day.value, q.limit);
    }
    r := Ok(before + day.value);
  }

  /** The loop over the days, newest first. */
  method ReadDays(days: seq<Day>, files: map<Day, DayFile>, q: Query, decode: Decoder, ghost f: Source,
                  ghost holds: bool)
    returns (r: Result<seq<Entry>, ReadError>)
    requires forall d :: d in files ==> Proper(files[d])
    requires Yields(files, q, decode, f) && (holds ==> InDays(f)) && StrictlyNewestFirst(days)
    ensures r.Err? ==> exists d :: d in days && FileOf(files, d) == Unreadable
    ensures r.Ok? && (q.limit <= 0 || |r.value| <= q.limit) ==> AllReadable(files, days, |days|)
    ensures r.Ok? && holds ==> Gathered(r.value, All(f, days), q.limit)
  {
    var entries: seq<Entry> := [];
    assert InHand(holds, f, days, 0, entries, q.limit) by { assert days[..0] == []; }
    for n := 0 to |days|
      invariant q.limit > 0 ==> |entries| <= q.limit
      invariant AllReadable(files, days, n)
      invariant InHand(holds, f, days, n, entries, q.limit)
    {
      var next := ReadNext(days, n, files, q, decode, entries, f, holds);
      if next.Err? {
        assert days[n] in days;
        return next;
      }
      entries := next.value;
      if q.limit > 0 && |entries| > q.limit {
        return next;
      }
    }
    assert days[..|days|] == days;
    r := Ok(entries);
  }

  /**
   The page of a query. If every day-file holds only its own UTC day, it is the page one
   would get by sorting all matching entries of all files: `IsPage` says so for the
   entries, and `PageTimestamps` that it leaves no choice but the order of equal timestamps.
   A file that cannot be read is an error, unless the page is full before its day comes.
   */
  method ReadEntries(dates: seq<Day>, files: map<Day, DayFile>, q: Query, decode: Decoder)
    returns (r: Result<(seq<Entry>, bool), ReadError>)
    requires forall d :: d in files ==> Proper(files[d])
    requires Distinct(dates)
    ensures r.Err? ==> exists d :: d in dates && InRange(q, d) && d in files && files[d] == Unreadable
    ensures r.Ok? && !r.value.1 ==> forall d :: d in dates && InRange(q, d) && d in files ==> files[d] != Unreadable
    ensures r.Ok? && DaysHold(files, decode) ==>
              IsPage(r.value.0, r.value.1, All(SourceOf(files, q, decode), dates), q.limit)
  {
    var days := DaysToRead(dates, q);
    DaysStrict(days, dates, q);
    ghost var f, holds := SourceOf(files, q, decode), DaysHold(files, decode);
    if holds {
      SourceInDays(files, q, decode);
    }
    var gathered := ReadDays(days, files, q, decode, f, holds);
    forall d: Day ensures d in days <==> d in dates && InRange(q, d) { DaysMembers(days, dates, q, d); }
    if gathered.Err? {
      return Err(gathered.error);
    }
    var entries, hasMore := gathered.value, false;
    if q.limit <= 0 || |entries| <= q.limit {
      forall d | d in dates && InRange(q, d) ensures FileOf(files, d) != Unreadable {
        var i :| 0 <= i < |days| && days[i] == d;
        ReadableMembers(files, days, |days|, i);
      }
    }
    if q.limit > 0 && |entries| > q.limit {
      entries := entries[..q.limit];
      hasMore := true;
    }
    if holds {
      PageOfGathered(gathered.value, All(f, days), q.limit);
      CandidatesSuffice(dates, q, f);
      CollectPermutation(days, Candidates(dates, q), f);
      PageOfPermutation(entries, hasMore, All(f, days), All(f, dates), q.limit);
    }
    r := Ok((entries, hasMore));
  }
}
