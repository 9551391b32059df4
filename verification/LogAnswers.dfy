/**
 What a log query asks for (`ReadEntries` in webmanager/backend/internal/logstore/logstore.go),
 clause by clause and entry by entry: which entries a page holds, how often, and which it
 may leave for the next one.
 */
module LogAnswers {
  import opened Wrappers
  import opened Splitting
  import opened Sorting
  import opened LogHeap
  import opened LogLines
  import opened LogPages
  import opened LogQuery

  // ---- One restriction at a time --------------------------------------------

  function Only(s: seq<Entry>, p: Entry -> bool): seq<Entry>
  {
    if s == [] then []
    else
      var last := s[|s| - 1];
      Only(s[..|s| - 1], p) + if p(last) then [last] else []
  }

  function OfApp(app: string): Entry -> bool { (e: Entry) => e.app == app }

  function OfLevel(level: string): Entry -> bool { (e: Entry) => e.level == level }

  function From(ms: int): Entry -> bool { (e: Entry) => ms <= e.timestamp }

  function UpTo(ms: int): Entry -> bool { (e: Entry) => e.timestamp <= ms }

  function Before(ms: int): Entry -> bool { (e: Entry) => e.timestamp < ms }

  lemma {:induction false} Narrows(q: Query, wider: Query, p: Entry -> bool, decode: Decoder, told: seq<Option<Line>>)
    requires forall e :: Match(q, e) <==> Match(wider, e) && p(e)
    ensures Matching(q, decode, told) == Only(Matching(wider, decode, told), p)
    decreases |told|
  {
    if told != [] {
      var n := |told| - 1;
      Narrows(q, wider, p, decode, told[..n]);
      if told[n].Some? && decode(told[n].value).Some? && Match(wider, decode(told[n].value).value) {
        var before, e := Matching(wider, decode, told[..n]), decode(told[n].value).value;
        assert (before + [e])[..|before|] == before;
      }
    }
  }

  /** Each restriction leaves, of what would match without it, the entries it names, in order. */
  lemma EachRestrictionNarrows(q: Query, decode: Decoder, told: seq<Option<Line>>)
    ensures var found := Matching(q, decode, told);
            && (q.app != "" ==> found == Only(Matching(q.(app := ""), decode, told), OfApp(q.app)))
            && (q.level != "" ==> found == Only(Matching(q.(level := ""), decode, told), OfLevel(q.level)))
            && (q.startMs != 0 ==> found == Only(Matching(q.(startMs := 0), decode, told), From(q.startMs)))
            && (q.endMs != 0 ==> found == Only(Matching(q.(endMs := 0), decode, told), UpTo(q.endMs)))
            && (q.beforeMs != 0 ==> found == Only(Matching(q.(beforeMs := 0), decode, told), Before(q.beforeMs)))
  {
    if q.app != "" { Narrows(q, q.(app := ""), OfApp(q.app), decode, told); }
    if q.level != "" { Narrows(q, q.(level := ""), OfLevel(q.level), decode, told); }
    if q.startMs != 0 { Narrows(q, q.(startMs := 0), From(q.startMs), decode, told); }
    if q.endMs != 0 { Narrows(q, q.(endMs := 0), UpTo(q.endMs), decode, told); }
    if q.beforeMs != 0 { Narrows(q, q.(beforeMs := 0), Before(q.beforeMs), decode, told); }
  }

  // ---- Entry by entry -------------------------------------------------------

  /** How many of the lines hold e. */
  function Times(decode: Decoder, told: seq<Option<Line>>, e: Entry): nat
  {
    if told == [] then 0
    else
      var last := told[|told| - 1];
      Times(decode, told[..|told| - 1], e) + if last.Some? && decode(last.value) == Some(e) then 1 else 0
  }

  /** The lines of a day's file, as a reader is told them; none if there is no file that can be read. */
  function LinesHeld(files: map<Day, DayFile>, d: Day): seq<Option<Line>>
  {
    if d in files && files[d].Readable? then Told(Split(Stream(files[d].slices), NL)) else []
  }

  /** How often e stands in the files of some days. */
  function Stored(dates: seq<Day>, files: map<Day, DayFile>, decode: Decoder, e: Entry): nat
  {
    if dates == [] then 0
    else
      var last := dates[|dates| - 1];
      Stored(dates[..|dates| - 1], files, decode, e) + Times(decode, LinesHeld(files, last), e)
  }

  /** A query without restrictions. */
  function Anything(limit: int): Query
  {
    Query("", "", 0, 0, 0, limit)
  }

  /** It matches every entry of the lines, each as often as it is there. */
  lemma {:induction false} AnythingMatches(limit: int, decode: Decoder, told: seq<Option<Line>>, e: Entry)
    ensures multiset(Matching(Anything(limit), decode, told))[e] == Times(decode, told, e)
    decreases |told|
  {
    if told != [] {
      AnythingMatches(limit, decode, told[..|told| - 1], e);
    }
  }

  lemma {:induction false} OnlyCount(s: seq<Entry>, p: Entry -> bool, e: Entry)
    ensures multiset(Only(s, p))[e] == if p(e) then multiset(s)[e] else 0
    decreases |s|
  {
    if s != [] {
      OnlyCount(s[..|s| - 1], p, e);
      assert s == s[..|s| - 1] + [s[|s| - 1]];
    }
  }

  /** What a query wants of an entry. */
  predicate Wanted(q: Query, e: Entry)
  {
    && (q.app != "" ==> OfApp(q.app)(e))
    && (q.level != "" ==> OfLevel(q.level)(e))
    && (q.startMs != 0 ==> From(q.startMs)(e))
    && (q.endMs != 0 ==> UpTo(q.endMs)(e))
    && (q.beforeMs != 0 ==> Before(q.beforeMs)(e))
  }

  /** An entry of the lines is matched, as often as it is there, exactly if it meets every restriction. */
  lemma WantedIsMatched(q: Query, decode: Decoder, told: seq<Option<Line>>, e: Entry)
    ensures multiset(Matching(q, decode, told))[e] == if Wanted(q, e) then Times(decode, told, e) else 0
  {
    var q1 := q.(app := "");
    var q2 := q1.(level := "");
    var q3 := q2.(startMs := 0);
    var q4 := q3.(endMs := 0);
    EachRestrictionNarrows(q, decode, told);
    EachRestrictionNarrows(q1, decode, told);
    EachRestrictionNarrows(q2, decode, told);
    EachRestrictionNarrows(q3, decode, told);
    EachRestrictionNarrows(q4, decode, told);
    assert q4.(beforeMs := 0) == Anything(q.limit);
    AnythingMatches(q.limit, decode, told, e);
    OnlyCount(Matching(q4.(beforeMs := 0), decode, told), Before(q.beforeMs), e);
    OnlyCount(Matching(q4, decode, told), UpTo(q.endMs), e);
    OnlyCount(Matching(q3, decode, told), From(q.startMs), e);
    OnlyCount(Matching(q2, decode, told), OfLevel(q.level), e);
    OnlyCount(Matching(q1, decode, told), OfApp(q.app), e);
  }

  lemma {:induction false} WantedIsFound(dates: seq<Day>, files: map<Day, DayFile>, q: Query, decode: Decoder, e: Entry)
    ensures multiset(All(SourceOf(files, q, decode), dates))[e]
            == if Wanted(q, e) then Stored(dates, files, decode, e) else 0
    decreases |dates|
  {
    if dates != [] {
      var n := |dates| - 1;
      WantedIsFound(dates[..n], files, q, decode, e);
      WantedIsMatched(q, decode, LinesHeld(files, dates[n]), e);
    }
  }

  /**
   The page of a query, entry by entry: it holds nothing the query does not want, nothing
   more often than the files do, and of what is wanted leaves out only what the next page
   has room for: entries no newer than any on this page, when it is full and says so.
   */
  lemma PageAnswers(entries: seq<Entry>, hasMore: bool, dates: seq<Day>, files: map<Day, DayFile>, q: Query,
                    decode: Decoder, e: Entry)
    requires IsPage(entries, hasMore, All(SourceOf(files, q, decode), dates), q.limit)
    ensures var held, stored := multiset(entries)[e], Stored(dates, files, decode, e);
            && held <= stored
            && (e in entries ==> Wanted(q, e))
            && (Wanted(q, e) && held < stored ==>
                  hasMore && |entries| == q.limit > 0 && forall x :: x in entries ==> e.timestamp <= x.timestamp)
  {
    var all := All(SourceOf(files, q, decode), dates);
    WantedIsFound(dates, files, q, decode, e);
    var rest :| Newest(entries, rest, all, q.limit);
    assert multiset(all)[e] == multiset(entries)[e] + multiset(rest)[e];
    assert |all| == |multiset(all)| == |entries| + |rest|;
    assert e in rest <==> multiset(rest)[e] > 0;
  }

  // ---- Days -----------------------------------------------------------------

  predicate LiesIn(e: Entry, d: Day)
  {
    d * DAY_MS <= e.timestamp < (d + 1) * DAY_MS
  }

  /** A day's file is read exactly if the day may hold an entry not before the start and one not after the end. */
  lemma InRangeIff(q: Query, d: Day)
    ensures InRange(q, d) <==>
            && (exists e :: LiesIn(e, d) && Wanted(Anything(q.limit).(startMs := q.startMs), e))
            && (exists e :: LiesIn(e, d) && Wanted(Anything(q.limit).(endMs := q.endMs), e))
  {
    var last, first := Entry((d + 1) * DAY_MS - 1, "", "", ""), Entry(d * DAY_MS, "", "", "");
    assert LiesIn(last, d) && LiesIn(first, d);
    if InRange(q, d) {
      assert Wanted(Anything(q.limit).(startMs := q.startMs), last);
      assert Wanted(Anything(q.limit).(endMs := q.endMs), first);
    }
  }
}
