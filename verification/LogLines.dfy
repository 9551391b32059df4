/**
 Reading a day-file line by line (`eachLine` in
 webmanager/backend/internal/logstore/logstore.go) through a buffer that may fill up in
 the middle of a line. The result is compared with splitting the whole stream on
 newlines.
 */
module LogLines {
  import opened Bytes
  import opened Wrappers
  import opened Splitting

  const NL: byte := 10
  const BUFFER_BYTES: nat := 64 * 1024
  const MAX_LINE_BYTES: nat := 0x10_0000

  type Line = seq<byte>

  /** What one `ReadSlice('\n')` returns. */
  datatype Read =
    | Full(chunk: seq<byte>)            // the buffer filled up without a newline
    | Got(chunk: seq<byte>)             // up to and including a newline
    | End(chunk: seq<byte>, eof: bool)  // what was left, at the end of the file or at an error

  predicate WellFormedRead(r: Read)
  {
    && |r.chunk| <= BUFFER_BYTES
    && match r
       case Full(c) => c != [] && NL !in c
       case Got(c) => c != [] && c[|c| - 1] == NL && NL !in c[..|c| - 1]
       case End(c, _) => NL !in c
  }

  predicate WellFormed(slices: seq<Read>)
  {
    && slices != []
    && (forall i :: 0 <= i < |slices| ==> WellFormedRead(slices[i]))
    && (forall i :: 0 <= i < |slices| ==> (slices[i].End? <==> i == |slices| - 1))
  }

  /** Everything that was read. */
  function Stream(slices: seq<Read>): seq<byte>
  {
    if slices == [] then [] else slices[0].chunk + Stream(slices[1..])
  }

  lemma {:induction false} StreamAppend(a: seq<Read>, r: Read)
    ensures Stream(a + [r]) == Stream(a) + r.chunk
    decreases |a|
  {
    if a == [] {
      assert [r][1..] == [] && a + [r] == [r];
    } else {
      assert (a + [r])[1..] == a[1..] + [r];
      StreamAppend(a[1..], r);
    }
  }

  /** What a reader of the file is to be told of one line. */
  function ToldOf(line: Line): seq<Option<Line>>
  {
    if line == [] then [] else if |line| > MAX_LINE_BYTES then [None] else [Some(line)]
  }

  /** Every non-empty line in order, an overlong one as None. */
  function Told(lines: seq<Line>): seq<Option<Line>>
  {
    if lines == [] then [] else Told(lines[..|lines| - 1]) + ToldOf(lines[|lines| - 1])
  }

  lemma ToldAppend(lines: seq<Line>, line: Line)
    ensures Told(lines + [line]) == Told(lines) + ToldOf(line)
  {
    assert (lines + [line])[..|lines|] == lines;
  }

  function TrimNewline(chunk: seq<byte>): seq<byte>
  {
    if chunk != [] && chunk[|chunk| - 1] == NL then chunk[..|chunk| - 1] else chunk
  }

  /** The first i slices hold the complete lines `done`, and `cur` of the next one. */
  ghost predicate ReadSoFar(slices: seq<Read>, i: nat, done: seq<Line>, cur: seq<byte>)
  {
    && i <= |slices|
    && Stream(slices[..i]) == Lines(done, NL) + cur
    && Free(done, NL) && NL !in cur
  }

  /** The end of a line: what fn is called with, if at all. `cur` is the line so far, all of it. */
  method EndLine(long: seq<byte>, tooLong: bool, r: Read, ghost cur: seq<byte>) returns (calls: seq<Option<Line>>)
    requires WellFormedRead(r) && !r.Full? && NL !in cur
    requires if tooLong then long == [] && |cur| > MAX_LINE_BYTES else long == cur && |cur| <= MAX_LINE_BYTES
    ensures calls == ToldOf(cur + TrimNewline(r.chunk))
  {
    calls := [];
    if |r.chunk| > 0 || long != [] || tooLong {
      var over := tooLong;
      if long != [] && |long| + |TrimNewline(r.chunk)| > MAX_LINE_BYTES {
        over := true;
      }
      if over {
        calls := [None];
      } else if long != [] {
        TrimAppended(long, r.chunk);
        calls := [Some(TrimNewline(long + r.chunk))];
      } else {
        var line := TrimNewline(r.chunk);
        assert cur + line == line;
        if |line| > 0 {
          calls := [Some(line)];
        }
      }
    }
  }

  /**
   Whatever the stream and wherever the buffer fills up, exactly the non-empty lines of
   the stream are reported, in order, with None for each one that is too long.
   */
  method EachLine(slices: seq<Read>) returns (told: seq<Option<Line>>, ok: bool)
    requires WellFormed(slices)
    ensures told == Told(Split(Stream(slices), NL))
    ensures ok <==> slices[|slices| - 1].eof
  {
    told := [];
    var long: seq<byte> := [];    // the part read so far of a line longer than the buffer
    var tooLong := false;
    var i := 0;
    ghost var done: seq<Line>, cur: seq<byte> := [], [];
    NothingRead(slices);
    while true
      invariant i < |slices|
      invariant ReadSoFar(slices, i, done, cur)
      invariant told == Told(done)
      invariant if tooLong then long == [] && |cur| > MAX_LINE_BYTES else long == cur && |cur| <= MAX_LINE_BYTES
      decreases |slices| - i
    {
      var r := slices[i];
      i := i + 1;
      if r.Full? {
        ReadOn(slices, i - 1, done, cur);
        cur := cur + r.chunk;
        if !tooLong {
          long := long + r.chunk;
          if |long| > MAX_LINE_BYTES {
            tooLong, long := true, [];
          }
        }
        continue;
      }
      ToldAppend(done, cur + TrimNewline(r.chunk));
      var calls := EndLine(long, tooLong, r, cur);
      told := told + calls;
      long, tooLong := [], false;
      if r.End? {
        ReadLast(slices, i - 1, done, cur);
        return told, r.eof;
      }
      ReadLine(slices, i - 1, done, cur);
      done, cur := done + [cur + TrimNewline(r.chunk)], [];
    }
  }

  lemma TrimAppended(long: seq<byte>, chunk: seq<byte>)
    requires NL !in long && long != []
    ensures TrimNewline(long + chunk) == long + TrimNewline(chunk)
  {
    if chunk == [] {
      assert long + chunk == long && long[|long| - 1] in long;
    } else {
      assert (long + chunk)[|long + chunk| - 1] == chunk[|chunk| - 1];
    }
  }

  lemma NothingRead(slices: seq<Read>)
    ensures ReadSoFar(slices, 0, [], [])
  {
    assert slices[..0] == [];
  }

  /** The buffer filled up: the line goes on. */
  lemma ReadOn(slices: seq<Read>, i: nat, done: seq<Line>, cur: seq<byte>)
    requires WellFormed(slices) && i < |slices| && slices[i].Full? && ReadSoFar(slices, i, done, cur)
    ensures ReadSoFar(slices, i + 1, done, cur + slices[i].chunk) && |slices[i].chunk| > 0 && i + 1 < |slices|
  {
    assert WellFormedRead(slices[i]);
    assert slices[..i + 1] == slices[..i] + [slices[i]];
    StreamAppend(slices[..i], slices[i]);
  }

  lemma StreamSoFar(slices: seq<Read>, i: nat, done: seq<Line>, cur: seq<byte>)
    requires i < |slices| && ReadSoFar(slices, i, done, cur)
    ensures Stream(slices[..i + 1]) == Lines(done, NL) + cur + slices[i].chunk
  {
    assert slices[..i + 1] == slices[..i] + [slices[i]];
    StreamAppend(slices[..i], slices[i]);
  }

  lemma ReadLine(slices: seq<Read>, i: nat, done: seq<Line>, cur: seq<byte>)
    requires WellFormed(slices) && i < |slices| && slices[i].Got? && ReadSoFar(slices, i, done, cur)
    ensures ReadSoFar(slices, i + 1, done + [cur + TrimNewline(slices[i].chunk)], []) && i + 1 < |slices|
  {
    assert WellFormedRead(slices[i]);
    StreamSoFar(slices, i, done, cur);
    LineEnds(done, cur, slices[i].chunk);
  }

  lemma ReadLast(slices: seq<Read>, i: nat, done: seq<Line>, cur: seq<byte>)
    requires WellFormed(slices) && i < |slices| && slices[i].End? && ReadSoFar(slices, i, done, cur)
    ensures Split(Stream(slices), NL) == done + [cur + TrimNewline(slices[i].chunk)]
  {
    assert WellFormedRead(slices[i]);
    StreamSoFar(slices, i, done, cur);
    assert slices[..i + 1] == slices;
    LastLine(done, cur, slices[i].chunk);
  }

  lemma LastLine(done: seq<Line>, cur: seq<byte>, c: seq<byte>)
    requires Free(done, NL) && NL !in cur && NL !in c
    ensures Split(Lines(done, NL) + cur + c, NL) == done + [cur + TrimNewline(c)]
  {
    NothingToTrim(c);
    Regroup(Lines(done, NL), cur, c);
    SplitLines(done, cur + c, NL);
  }

  lemma NothingToTrim(c: seq<byte>)
    requires NL !in c
    ensures TrimNewline(c) == c
  {
    if c != [] {
      assert c[|c| - 1] in c;
    }
  }

  lemma LineEnds(done: seq<Line>, cur: seq<byte>, c: seq<byte>)
    requires Free(done, NL) && NL !in cur
    requires c != [] && c[|c| - 1] == NL && NL !in c[..|c| - 1]
    ensures var line := cur + TrimNewline(c);
            Lines(done, NL) + cur + c == Lines(done + [line], NL) + [] && Free(done + [line], NL)
  {
    var line := cur + TrimNewline(c);
    var front := Lines(done, NL);
    LinesAppend(done, [line], NL);
    assert c == TrimNewline(c) + [NL];
    assert Lines([line], NL) == line + [NL] + Lines([line][1..], NL) == line + [NL];
    assert front + (line + [NL]) == front + cur + c;
  }
}
