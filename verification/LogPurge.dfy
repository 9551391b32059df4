/**
 Purging one application's lines from a day-file that another process may be appending
 to (`purgeAppFromFile` in webmanager/backend/internal/logstore/logstore.go). Whether a
 line parses as the purged application's is a parameter.
 */
module LogPurge {
  import opened Bytes
  import opened Wrappers
  import opened Splitting
  import opened LogLines

  const VECTOR_IDLE_SECONDS: int := 300

  /** The lines of s, each with its newline; the last may lack one. */
  function RawLines(s: seq<byte>): seq<seq<byte>>
    decreases |s|
  {
    if s == [] then []
    else
      var i := IndexOf(s, NL);
      if i == |s| then [s] else [s[..i + 1]] + RawLines(s[i + 1..])
  }

  function Flat(lines: seq<seq<byte>>): seq<byte>
  {
    if lines == [] then [] else lines[0] + Flat(lines[1..])
  }

  type IsApp = seq<byte> -> bool

  /** Too long a line is never parsed, so never dropped. */
  predicate Dropped(isApp: IsApp, line: seq<byte>)
  {
    |line| <= MAX_LINE_BYTES && isApp(TrimNewline(line))
  }

  function Surviving(isApp: IsApp, lines: seq<seq<byte>>): seq<seq<byte>>
  {
    if lines == [] then []
    else (if Dropped(isApp, lines[0]) then [] else [lines[0]]) + Surviving(isApp, lines[1..])
  }

  /** The content without the lines of the purged application. */
  function Kept(isApp: IsApp, s: seq<byte>): seq<byte>
  {
    Flat(Surviving(isApp, RawLines(s)))
  }

  predicate AnyDroppedOf(isApp: IsApp, lines: seq<seq<byte>>)
  {
    exists i :: 0 <= i < |lines| && Dropped(isApp, lines[i])
  }

  predicate AnyDropped(isApp: IsApp, s: seq<byte>)
  {
    AnyDroppedOf(isApp, RawLines(s))
  }

  // ---- Lines ----------------------------------------------------------------

  predicate EndsLine(s: seq<byte>)
  {
    s == [] || s[|s| - 1] == NL
  }

  /** What RawLines yields: non-empty pieces, newlines only at their ends, only the last may lack one. */
  ghost predicate AreLines(lines: seq<seq<byte>>)
  {
    forall i :: 0 <= i < |lines| ==>
      lines[i] != [] && NL !in lines[i][..|lines[i]| - 1] && (i < |lines| - 1 ==> EndsLine(lines[i]))
  }

  lemma {:induction false} RawLinesShape(s: seq<byte>)
    ensures AreLines(RawLines(s)) && Flat(RawLines(s)) == s
    decreases |s|
  {
    if s != [] {
      var i := IndexOf(s, NL);
      if i == |s| {
        OneRawLine(s);
      } else {
        RawLinesShape(s[i + 1..]);
        CutAfter(s, i);
        LineBefore(s[..i + 1], RawLines(s[i + 1..]));
      }
    }
  }

  lemma OneRawLine(s: seq<byte>)
    requires s != [] && NL !in s
    ensures AreLines([s]) && Flat([s]) == s
  {
    assert [s][1..] == [] && NL !in s[..|s| - 1];
  }

  lemma CutAfter(s: seq<byte>, i: nat)
    requires i < |s| && s[i] == NL && NL !in s[..i]
    ensures var line := s[..i + 1];
            s == line + s[i + 1..] && line[..|line| - 1] == s[..i] && EndsLine(line) && line != []
  {
  }

  /** A line in front of others. */
  lemma LineBefore(line: seq<byte>, others: seq<seq<byte>>)
    requires AreLines(others) && line != [] && NL !in line[..|line| - 1] && EndsLine(line)
    ensures AreLines([line] + others) && Flat([line] + others) == line + Flat(others)
  {
    var lines := [line] + others;
    assert lines[1..] == others;
    forall k | 0 <= k < |lines|
      ensures lines[k] != [] && NL !in lines[k][..|lines[k]| - 1] && (k < |lines| - 1 ==> EndsLine(lines[k]))
    {
      assert k > 0 ==> lines[k] == others[k - 1];
    }
  }

  lemma FirstRawLine(line: seq<byte>, rest: seq<byte>)
    requires line != [] && NL !in line[..|line| - 1] && EndsLine(line)
    ensures RawLines(line + rest) == [line] + RawLines(rest)
  {
    var n := |line| - 1;
    var s := line + rest;
    assert s == line[..n] + [NL] + rest;
    IndexOfFirst(line[..n], rest, NL);
    assert s[..n + 1] == line && s[n + 1..] == rest;
  }

  lemma OnlyRawLine(line: seq<byte>)
    requires line != [] && NL !in line[..|line| - 1]
    ensures RawLines(line) == [line]
  {
    if EndsLine(line) {
      FirstRawLine(line, []);
      assert line + [] == line;
    } else {
      NoNewline(line);
      NotFound(line);
    }
  }

  lemma NotFound(line: seq<byte>)
    requires NL !in line
    ensures IndexOf(line, NL) == |line|
  {
  }

  lemma NoNewline(line: seq<byte>)
    requires line != [] && NL !in line[..|line| - 1] && line[|line| - 1] != NL
    ensures NL !in line
  {
    assert line == line[..|line| - 1] + [line[|line| - 1]];
  }

  /** Lines put one after another are found again. */
  lemma {:induction false} RawLinesOfFlat(lines: seq<seq<byte>>)
    requires AreLines(lines)
    ensures RawLines(Flat(lines)) == lines
    decreases |lines|
  {
    if lines != [] {
      var line, rest := lines[0], lines[1..];
      assert AreLines(rest) by {
        forall i | 0 <= i < |rest|
          ensures rest[i] != [] && NL !in rest[i][..|rest[i]| - 1] && (i < |rest| - 1 ==> EndsLine(rest[i]))
        {
          assert rest[i] == lines[i + 1];
        }
      }
      RawLinesOfFlat(rest);
      if rest == [] {
        assert Flat(lines) == line;
        OnlyRawLine(line);
      } else {
        FirstRawLine(line, Flat(rest));
      }
    }
  }

  lemma {:induction false} SurvivingAreLines(isApp: IsApp, lines: seq<seq<byte>>)
    requires AreLines(lines)
    ensures AreLines(Surviving(isApp, lines))
    ensures forall i :: 0 <= i < |Surviving(isApp, lines)| ==> !Dropped(isApp, Surviving(isApp, lines)[i])
    ensures lines != [] && EndsLine(lines[|lines| - 1]) ==>
              forall i :: 0 <= i < |Surviving(isApp, lines)| ==> EndsLine(Surviving(isApp, lines)[i])
    decreases |lines|
  {
    if lines != [] {
      var rest := lines[1..];
      assert AreLines(rest) by {
        forall i | 0 <= i < |rest|
          ensures rest[i] != [] && NL !in rest[i][..|rest[i]| - 1] && (i < |rest| - 1 ==> EndsLine(rest[i]))
        {
          assert rest[i] == lines[i + 1];
        }
      }
      SurvivingAreLines(isApp, rest);
      var kept, kept' := Surviving(isApp, lines), Surviving(isApp, rest);
      assert rest != [] ==> rest[|rest| - 1] == lines[|lines| - 1];
      assert rest == [] ==> kept' == [];
      if !Dropped(isApp, lines[0]) {
        assert kept == [lines[0]] + kept';
        assert forall i :: 0 < i < |kept| ==> kept[i] == kept'[i - 1];
      }
    }
  }

  lemma {:induction false} SurvivingAll(isApp: IsApp, lines: seq<seq<byte>>)
    ensures (forall i :: 0 <= i < |lines| ==> !Dropped(isApp, lines[i])) ==> Surviving(isApp, lines) == lines
    ensures (exists i :: 0 <= i < |lines| && Dropped(isApp, lines[i])) ==> |Surviving(isApp, lines)| < |lines|
    ensures |Surviving(isApp, lines)| <= |lines|
    decreases |lines|
  {
    if lines != [] {
      SurvivingAll(isApp, lines[1..]);
      assert lines == [lines[0]] + lines[1..];
      assert forall i :: 0 < i < |lines| ==> lines[i] == lines[1..][i - 1];
    }
  }

  /**
   What is kept consists of exactly the lines of the original that are not the
   application's, whole and in order.
   */
  lemma KeptLines(isApp: IsApp, s: seq<byte>)
    ensures RawLines(Kept(isApp, s)) == Surviving(isApp, RawLines(s))
    ensures !AnyDropped(isApp, Kept(isApp, s))
  {
    RawLinesShape(s);
    SurvivingAreLines(isApp, RawLines(s));
    RawLinesOfFlat(Surviving(isApp, RawLines(s)));
  }

  /** A file without such lines is what it was, to the byte; and only such a file is. */
  lemma KeptIffNothingDropped(isApp: IsApp, s: seq<byte>)
    ensures Kept(isApp, s) == s <==> !AnyDropped(isApp, s)
  {
    RawLinesShape(s);
    KeptLines(isApp, s);
    SurvivingAll(isApp, RawLines(s));
  }

  /** Purging again changes nothing. */
  lemma PurgeIsIdempotent(isApp: IsApp, s: seq<byte>)
    ensures Kept(isApp, Kept(isApp, s)) == Kept(isApp, s)
  {
    KeptLines(isApp, s);
    KeptIffNothingDropped(isApp, Kept(isApp, s));
  }

  // ---- The two reads --------------------------------------------------------

  lemma {:induction false} FlatAppend(a: seq<seq<byte>>, b: seq<seq<byte>>)
    ensures Flat(a + b) == Flat(a) + Flat(b)
    decreases |a|
  {
    if a == [] {
      assert a + b == b;
    } else {
      FlatAppend(a[1..], b);
      assert (a + b)[1..] == a[1..] + b;
    }
  }

  lemma {:induction false} SurvivingAppend(isApp: IsApp, a: seq<seq<byte>>, b: seq<seq<byte>>)
    ensures Surviving(isApp, a + b) == Surviving(isApp, a) + Surviving(isApp, b)
    decreases |a|
  {
    if a == [] {
      assert a + b == b;
    } else {
      SurvivingAppend(isApp, a[1..], b);
      assert (a + b)[1..] == a[1..] + b;
    }
  }

  lemma FlatSnoc(lines: seq<seq<byte>>, line: seq<byte>)
    ensures Flat(lines + [line]) == Flat(lines) + line
  {
    FlatAppend(lines, [line]);
    assert Flat([line]) == line + Flat([line][1..]) == line;
  }

  lemma LastOfSum(a: seq<byte>, b: seq<byte>)
    requires b != []
    ensures EndsLine(a + b) == EndsLine(b)
  {
    assert (a + b)[|a + b| - 1] == b[|b| - 1];
  }

  lemma LastLineEnds(lines: seq<seq<byte>>)
    requires AreLines(lines) && lines != [] && EndsLine(Flat(lines))
    ensures EndsLine(lines[|lines| - 1])
  {
    var n := |lines| - 1;
    var last := lines[n];
    assert lines == lines[..n] + [last];
    FlatSnoc(lines[..n], last);
    LastOfSum(Flat(lines[..n]), last);
  }

  lemma LinesThenLines(a: seq<seq<byte>>, b: seq<seq<byte>>)
    requires AreLines(a) && AreLines(b) && (a != [] ==> EndsLine(a[|a| - 1]))
    ensures AreLines(a + b)
  {
  }

  /** After a line end, what follows is split on its own. */
  lemma RawLinesAppend(a: seq<byte>, b: seq<byte>)
    requires EndsLine(a)
    ensures RawLines(a + b) == RawLines(a) + RawLines(b)
  {
    RawLinesShape(a);
    RawLinesShape(b);
    var x, y := RawLines(a), RawLines(b);
    if x != [] {
      LastLineEnds(x);
    }
    LinesThenLines(x, y);
    FlatAppend(x, y);
    RawLinesOfFlat(x + y);
  }

  lemma KeptAppend(isApp: IsApp, a: seq<byte>, b: seq<byte>)
    requires EndsLine(a)
    ensures Kept(isApp, a + b) == Kept(isApp, a) + Kept(isApp, b)
  {
    RawLinesAppend(a, b);
    SurvivingAppend(isApp, RawLines(a), RawLines(b));
    FlatAppend(Surviving(isApp, RawLines(a)), Surviving(isApp, RawLines(b)));
  }

  /** One line on its own, kept or not. */
  function KeptLine(isApp: IsApp, line: seq<byte>): seq<byte>
  {
    if Dropped(isApp, line) then [] else line
  }

  lemma KeptOneLine(isApp: IsApp, line: seq<byte>)
    requires line != [] && NL !in line[..|line| - 1]
    ensures Kept(isApp, line) == KeptLine(isApp, line)
  {
    OnlyRawLine(line);
    assert [line][1..] == [] && Surviving(isApp, [line][1..]) == [];
    assert Surviving(isApp, [line]) == if Dropped(isApp, line) then [] else [line];
    assert [line][0] + Flat([line][1..]) == line;
  }

  /**
   A line that straddles the two reads: the first read ends in the middle of it, after
   `part`; the second begins with `rest` of it. The two passes amount to one pass over the
   whole exactly when the line and both its halves are judged alike.
   */
  lemma StraddlingLine(isApp: IsApp, seen: seq<byte>, more: seq<byte>,
                       before: seq<byte>, part: seq<byte>, rest: seq<byte>, after: seq<byte>)
    requires seen == before + part && EndsLine(before) && part != [] && NL !in part
    requires more == rest + after && rest != [] && NL !in rest[..|rest| - 1] && (after != [] ==> EndsLine(rest))
    ensures Kept(isApp, seen) + Kept(isApp, more) == Kept(isApp, seen + more)
            <==> Dropped(isApp, part) == Dropped(isApp, rest) == Dropped(isApp, part + rest)
  {
    var line := part + rest;
    assert line[..|line| - 1] == part + rest[..|rest| - 1];
    FirstRead(isApp, before, part);
    KeptThenAfter(isApp, rest, after);
    WholeLine(isApp, before, line, after);
    Regrouped(before, part, rest, after);
    TwoPasses(Kept(isApp, before), KeptLine(isApp, part), KeptLine(isApp, rest), KeptLine(isApp, line),
              Kept(isApp, after));
    HalvesOrWhole(isApp, part, rest);
  }

  /** A line whose halves do not parse as the application's, and whose whole does: it outlives the purge. */
  lemma SplitLineSurvives()
    ensures var isApp: IsApp, a: seq<byte>, b: seq<byte> := line => line == [65, 66], [65], [66, NL];
            && Kept(isApp, a + b) == []
            && Kept(isApp, a) + Kept(isApp, b) == a + b
  {
    var isApp: IsApp, a: seq<byte>, b: seq<byte> := line => line == [65, 66], [65], [66, NL];
    KeptOneLine(isApp, a);
    KeptOneLine(isApp, b);
    KeptOneLine(isApp, a + b);
    assert TrimNewline(a + b) == [65, 66] && TrimNewline(a) == [65] && TrimNewline(b) == [66];
  }

  lemma Regrouped(before: seq<byte>, part: seq<byte>, rest: seq<byte>, after: seq<byte>)
    ensures (before + part) + (rest + after) == before + ((part + rest) + after)
  {
  }

  lemma HalvesOrWhole(isApp: IsApp, part: seq<byte>, rest: seq<byte>)
    requires part != [] && rest != []
    ensures KeptLine(isApp, part) + KeptLine(isApp, rest) == KeptLine(isApp, part + rest)
            <==> Dropped(isApp, part) == Dropped(isApp, rest) == Dropped(isApp, part + rest)
  {
    var x, y, z := KeptLine(isApp, part), KeptLine(isApp, rest), KeptLine(isApp, part + rest);
    assert |x + y| == |x| + |y|;
    assert |part + rest| == |part| + |rest|;
  }

  lemma FirstRead(isApp: IsApp, before: seq<byte>, part: seq<byte>)
    requires EndsLine(before) && part != [] && NL !in part
    ensures Kept(isApp, before + part) == Kept(isApp, before) + KeptLine(isApp, part)
  {
    KeptAppend(isApp, before, part);
    KeptOneLine(isApp, part);
  }

  lemma WholeLine(isApp: IsApp, before: seq<byte>, line: seq<byte>, after: seq<byte>)
    requires EndsLine(before) && line != [] && NL !in line[..|line| - 1] && (after != [] ==> EndsLine(line))
    ensures Kept(isApp, before + (line + after)) == Kept(isApp, before) + (KeptLine(isApp, line) + Kept(isApp, after))
  {
    KeptAppend(isApp, before, line + after);
    KeptThenAfter(isApp, line, after);
  }

  lemma TwoPasses(b: seq<byte>, x: seq<byte>, y: seq<byte>, z: seq<byte>, a: seq<byte>)
    ensures (b + x) + (y + a) == b + (z + a) <==> x + y == z
  {
    assert (b + x) + (y + a) == b + (x + y) + a;
    assert b + (z + a) == b + z + a;
    SameMiddle(b, x + y, z, a);
  }

  lemma KeptThenAfter(isApp: IsApp, line: seq<byte>, after: seq<byte>)
    requires line != [] && NL !in line[..|line| - 1] && (after != [] ==> EndsLine(line))
    ensures Kept(isApp, line + after) == KeptLine(isApp, line) + Kept(isApp, after)
  {
    KeptOneLine(isApp, line);
    if after == [] {
      assert line + after == line;
    } else {
      KeptAppend(isApp, line, after);
    }
  }

  lemma SameMiddle(b: seq<byte>, x: seq<byte>, y: seq<byte>, a: seq<byte>)
    ensures b + x + a == b + y + a <==> x == y
  {
    if b + x + a == b + y + a {
      assert |x| == |y|;
      assert x == (b + x + a)[|b|..|b| + |x|];
      assert y == (b + y + a)[|b|..|b| + |y|];
    }
  }

  // ---- The program ----------------------------------------------------------

  method EachRawLine(s: seq<byte>) returns (lines: seq<seq<byte>>)
    ensures lines == RawLines(s)
  {
    lines := [];
    var at := 0;
    assert s[at..] == s;
    while at < |s|
      invariant at <= |s|
      invariant lines + RawLines(s[at..]) == RawLines(s)
    {
      var i := IndexOf(s[at..], NL);
      var next := if i == |s[at..]| then |s| else at + i + 1;
      SliceAt(s, at, next);
      NextRawLine(s[at..], s[at..next], s[next..]);
      lines := lines + [s[at..next]];
      at := next;
    }
  }

  lemma NextRawLine(rest: seq<byte>, line: seq<byte>, after: seq<byte>)
    requires rest != []
    requires var i := IndexOf(rest, NL);
             if i == |rest| then line == rest && after == [] else line == rest[..i + 1] && after == rest[i + 1..]
    ensures RawLines(rest) == [line] + RawLines(after)
  {
  }

  lemma SliceAt(s: seq<byte>, at: nat, next: nat)
    requires at <= next <= |s|
    ensures s[at..next] == s[at..][..next - at] && s[next..] == s[at..][next - at..]
    ensures next == |s| ==> s[at..next] == s[at..] && s[next..] == []
  {
  }

  lemma OneMoreLine(isApp: IsApp, lines: seq<seq<byte>>, n: nat)
    requires n < |lines|
    ensures Flat(Surviving(isApp, lines[..n + 1])) == Flat(Surviving(isApp, lines[..n])) + KeptLine(isApp, lines[n])
    ensures AnyDroppedOf(isApp, lines[..n + 1]) <==> AnyDroppedOf(isApp, lines[..n]) || Dropped(isApp, lines[n])
  {
    var line := lines[n];
    assert lines[..n + 1] == lines[..n] + [line];
    SurvivingAppend(isApp, lines[..n], [line]);
    assert [line][1..] == [] && Surviving(isApp, [line][1..]) == [];
    var kept := Surviving(isApp, lines[..n]);
    if Dropped(isApp, line) {
      assert kept + [] == kept;
    } else {
      assert Surviving(isApp, [line]) == [line] + [] == [line];
      FlatSnoc(kept, line);
    }
  }

  /** The filter of purgeAppFromFile over one read. */
  method Filter(s: seq<byte>, isApp: IsApp) returns (kept: seq<byte>, changed: bool)
    ensures kept == Kept(isApp, s) && (changed <==> AnyDropped(isApp, s))
  {
    var lines := EachRawLine(s);
    kept, changed := FilterLines(lines, isApp);
  }

  method FilterLines(lines: seq<seq<byte>>, isApp: IsApp) returns (kept: seq<byte>, changed: bool)
    ensures kept == Flat(Surviving(isApp, lines)) && (changed <==> AnyDroppedOf(isApp, lines))
  {
    kept, changed := [], false;
    for n := 0 to |lines|
      invariant kept == Flat(Surviving(isApp, lines[..n]))
      invariant changed <==> AnyDroppedOf(isApp, lines[..n])
    {
      OneMoreLine(isApp, lines, n);
      if Dropped(isApp, lines[n]) {
        changed := true;
        continue;
      }
      kept := kept + lines[n];
    }
    assert lines[..|lines|] == lines;
  }

  /** What the other process appends, and when. */
  datatype Appended = Appended(
    duringFirst: seq<byte>,     // before the first read meets the end of the file
    duringSecond: seq<byte>,    // after that, before the second read does
    beforeTruncate: seq<byte>,
    beforeWrite: seq<byte>)

  /** Writing w at offset 0 of a file that holds s. */
  function WrittenOver(s: seq<byte>, w: seq<byte>): seq<byte>
  {
    w + if |s| <= |w| then [] else s[|w|..]
  }

  class LogFile {
    var content: seq<byte>

    constructor (content: seq<byte>)
      ensures this.content == content
    {
      this.content := content;
    }

    method Append(more: seq<byte>)
      modifies this
      ensures content == old(content) + more
    {
      content := content + more;
    }

    /**
     A file idle for long is replaced; one still being written is truncated and rewritten.
     Every line appended before the second read met the end of the file is kept unless it
     is the application's; a file with nothing to drop, or that cannot be read, only grows.
     */
    method PurgeApp(isApp: IsApp, idleSeconds: int, e: Appended, firstReadOk: bool, secondReadOk: bool)
      returns (ok: bool)
      modifies this
      ensures var seen := old(content) + e.duringFirst;
              if !firstReadOk || !AnyDropped(isApp, seen) then
                ok == firstReadOk && content == seen
              else if idleSeconds >= VECTOR_IDLE_SECONDS then
                ok && content == Kept(isApp, seen)
              else if !secondReadOk then
                !ok && content == seen + e.duringSecond
              else
                ok && content == WrittenOver(e.beforeWrite, Kept(isApp, seen) + Kept(isApp, e.duringSecond))
    {
      Append(e.duringFirst);
      if !firstReadOk {
        return false;
      }
      var n := |content|;
      var kept, changed := Filter(content, isApp);
      if !changed {
        return true;
      }
      if !(idleSeconds < VECTOR_IDLE_SECONDS) {
        content := kept;
        return true;
      }
      ghost var seen := content;
      Append(e.duringSecond);
      if !secondReadOk {
        return false;
      }
      assert content[n..] == e.duringSecond;
      var more, _ := Filter(content[n..], isApp);
      kept := kept + more;
      Append(e.beforeTruncate);
      content := [];
      Append(e.beforeWrite);
      assert content == e.beforeWrite;
      content := WrittenOver(content, kept);
      return true;
    }
  }

  lemma KeptEndsLine(isApp: IsApp, s: seq<byte>)
    requires EndsLine(s)
    ensures EndsLine(Kept(isApp, s))
  {
    RawLinesShape(s);
    var lines := RawLines(s);
    if lines != [] {
      LastLineEnds(lines);
      SurvivingAreLines(isApp, lines);
      var kept := Surviving(isApp, lines);
      if kept != [] {
        var n := |kept| - 1;
        assert kept == kept[..n] + [kept[n]];
        FlatSnoc(kept[..n], kept[n]);
        LastOfSum(Flat(kept[..n]), kept[n]);
      }
    }
  }

  /**
   What the two reads saw, if the first ended at a line end, is there after a rewrite in
   place: every line but the application's, whole and in order, whatever `late` was appended
   between the truncation and the write. Of `late` itself the first bytes are overwritten:
   it is there after the rest exactly when one of the two is empty.
   */
  lemma NothingElseIsLost(isApp: IsApp, seen: seq<byte>, duringSecond: seq<byte>, late: seq<byte>)
    requires EndsLine(seen)
    ensures var kept := Kept(isApp, seen) + Kept(isApp, duringSecond);
            var rewritten := WrittenOver(late, kept);
            && kept <= rewritten
            && RawLines(kept) == Surviving(isApp, RawLines(seen + duringSecond))
            && (EndsLine(duringSecond) ==> RawLines(rewritten) == RawLines(kept) + RawLines(rewritten[|kept|..]))
            && (rewritten == kept + late <==> kept == [] || late == [])
  {
    var all := seen + duringSecond;
    KeptAppend(isApp, seen, duringSecond);
    KeptLines(isApp, all);
    var kept := Kept(isApp, all);
    var rewritten := WrittenOver(late, kept);
    assert rewritten == kept + rewritten[|kept|..];
    if EndsLine(duringSecond) {
      if duringSecond != [] {
        LastOfSum(seen, duringSecond);
      } else {
        assert all == seen;
      }
      KeptEndsLine(isApp, all);
      RawLinesAppend(kept, rewritten[|kept|..]);
    }
    if kept != [] && late != [] {
      assert |rewritten| < |kept + late|;
    }
  }

  // ---- What the Logs page shows afterwards ----------------------------------

  /** Reading the content reports this line. */
  predicate Shown(s: seq<byte>, line: Line)
  {
    Some(line) in Told(Split(s, NL))
  }

  lemma {:induction false} ToldIff(lines: seq<Line>, line: Line)
    ensures Some(line) in Told(lines) <==> line in lines && 0 < |line| <= MAX_LINE_BYTES
    decreases |lines|
  {
    if lines != [] {
      var n := |lines| - 1;
      ToldIff(lines[..n], line);
      assert lines == lines[..n] + [lines[n]];
    }
  }

  /** Both ways of cutting into lines find the same ones. */
  lemma {:induction false} PiecesAreLines(s: seq<byte>, line: Line)
    requires line != []
    ensures line in Split(s, NL) <==> NL !in line && (line + [NL] in RawLines(s) || line in RawLines(s))
    decreases |s|
  {
    var i := IndexOf(s, NL);
    if i < |s| {
      var first, rest := s[..i + 1], s[i + 1..];
      PiecesAreLines(rest, line);
      assert first == s[..i] + [NL];
      assert line + [NL] == first <==> line == s[..i] by { if line + [NL] == first { assert first[..i] == line; } }
      assert first[i] == NL;
    } else {
      assert NL !in s by { assert s[..i] == s; }
      assert (line + [NL])[|line|] == NL;
    }
  }

  lemma {:induction false} SurvivingIff(isApp: IsApp, lines: seq<seq<byte>>, line: seq<byte>)
    ensures line in Surviving(isApp, lines) <==> line in lines && !Dropped(isApp, line)
    decreases |lines|
  {
    if lines != [] {
      SurvivingIff(isApp, lines[1..], line);
      assert lines == [lines[0]] + lines[1..];
    }
  }

  lemma ShownIff(s: seq<byte>, line: Line)
    ensures Shown(s, line) <==>
            0 < |line| <= MAX_LINE_BYTES && NL !in line && (line + [NL] in RawLines(s) || line in RawLines(s))
  {
    ToldIff(Split(s, NL), line);
    if line != [] { PiecesAreLines(s, line); }
  }

  lemma KeptIff(isApp: IsApp, s: seq<byte>, line: seq<byte>)
    ensures line in RawLines(Kept(isApp, s)) <==> line in RawLines(s) && !Dropped(isApp, line)
  {
    KeptLines(isApp, s);
    SurvivingIff(isApp, RawLines(s), line);
  }

  lemma DroppedIff(isApp: IsApp, line: Line)
    requires line != [] && NL !in line
    ensures Dropped(isApp, line) <==> |line| <= MAX_LINE_BYTES && isApp(line)
    ensures Dropped(isApp, line + [NL]) <==> |line| < MAX_LINE_BYTES && isApp(line)
  {
    assert (line + [NL])[..|line|] == line && line[|line| - 1] in line;
  }

  /**
   After a purge exactly the other lines are shown, and of the application's those of 1 MiB
   to the byte that end in a newline: reading counts a line without its newline, the purge
   with it.
   */
  lemma ShownAfterPurgeIff(isApp: IsApp, s: seq<byte>, line: Line)
    ensures Shown(Kept(isApp, s), line)
            <==> if isApp(line) then |line| == 0x10_0000 && NL !in line && line + [NL] in RawLines(s)
                 else Shown(s, line)
  {
    ShownIff(s, line);
    ShownIff(Kept(isApp, s), line);
    KeptIff(isApp, s, line);
    KeptIff(isApp, s, line + [NL]);
    if line != [] && NL !in line { DroppedIff(isApp, line); }
  }
}
