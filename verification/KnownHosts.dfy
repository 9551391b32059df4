/**
 The known_hosts file (webmanager/backend/internal/gitconfig/knownhosts.go): listed,
 appended to, and rewritten without the entry at one index of the listing. Decoding the
 key part of a line is a parameter.
 */
module KnownHosts {
  import opened Wrappers
  import opened Splitting

  // ---- Lines ----------------------------------------------------------------

  datatype Key = Key(keyType: string, fingerprint: string)

  datatype Entry = Entry(host: string, keyType: string, fingerprint: string, raw: string)

  /** What a line is: an entry, or something else. */
  type LineParser = string -> Option<Entry>

  /** ssh.ParseAuthorizedKey */
  type KeyParser = string -> Option<Key>

  /** unicode.IsSpace */
  predicate IsSpace(c: char)
  {
    '\t' <= c <= '\r' || c == ' ' || c == '\U{0085}' || c == '\U{00A0}' || c == '\U{1680}'
      || '\U{2000}' <= c <= '\U{200A}'
    || c == '\U{2028}' || c == '\U{2029}' || c == '\U{202F}' || c == '\U{205F}' || c == '\U{3000}'
  }

  function TrimLeft(s: string): (t: string)
    ensures |t| <= |s| && (t != "" ==> !IsSpace(t[0])) && (s != "" && !IsSpace(s[0]) ==> t == s)
    ensures s != "" && t != "" ==> t[|t| - 1] == s[|s| - 1]
  {
    if s == "" || !IsSpace(s[0]) then s else TrimLeft(s[1..])
  }

  function TrimRight(s: string): (t: string)
    ensures |t| <= |s| && (t != "" ==> !IsSpace(t[|t| - 1])) && (s != "" && !IsSpace(s[|s| - 1]) ==> t == s)
    ensures s != "" && t != "" ==> t[0] == s[0]
  {
    if s == "" || !IsSpace(s[|s| - 1]) then s else TrimRight(s[..|s| - 1])
  }

  function TrimSpace(s: string): string
  {
    TrimRight(TrimLeft(s))
  }

  lemma TrimmedIsTrim(s: string)
    ensures TrimSpace(TrimSpace(s)) == TrimSpace(s)
  {
  }

  function FieldEnd(s: string): (n: nat)
    ensures n <= |s| && (s != "" && !IsSpace(s[0]) ==> n > 0)
  {
    if s == "" || IsSpace(s[0]) then 0 else 1 + FieldEnd(s[1..])
  }

  /** strings.Fields */
  function Fields(s: string): seq<string>
    decreases |s|
  {
    var t := TrimLeft(s);
    if t == "" then [] else [t[..FieldEnd(t)]] + Fields(t[FieldEnd(t)..])
  }

  function WithoutMarker(fields: seq<string>): seq<string>
  {
    if fields != [] && fields[0] != "" && fields[0][0] == '@' then fields[1..] else fields
  }

  /** parseKnownHostLine */
  function ParseLine(line: string, key: KeyParser): Option<Entry>
  {
    var trimmed := TrimSpace(line);
    if trimmed == "" || trimmed[0] == '#' then None
    else if '\n' in trimmed || '\r' in trimmed then None
    else
      var fields := WithoutMarker(Fields(trimmed));
      if |fields| < 3 then None
      else
        match key(Join(fields[1..], ' '))
        case None => None
        case Some(k) => Some(Entry(fields[0], k.keyType, k.fingerprint, trimmed))
  }

  // ---- What a line says -----------------------------------------------------

  ghost predicate Spaced(s: string)
  {
    forall i :: 0 <= i < |s| ==> IsSpace(s[i])
  }

  ghost predicate IsWord(w: string)
  {
    w != "" && forall i :: 0 <= i < |w| ==> !IsSpace(w[i])
  }

  /** A word after some spaces, and what follows it. */
  ghost predicate WordFirst(s: string, gap: string, w: string, more: string)
  {
    s == gap + (w + more) && Spaced(gap) && IsWord(w) && (more != "" ==> IsSpace(more[0]))
  }

  /** s is these words, with spaces between and around them. */
  ghost predicate HasWords(s: string, ws: seq<string>)
    decreases |ws|
  {
    if ws == [] then Spaced(s) else exists gap, more :: WordFirst(s, gap, ws[0], more) && HasWords(more, ws[1..])
  }

  /** A text between spaces. */
  ghost predicate Between(line: string, a: string, text: string, b: string)
  {
    && line == a + (text + b) && Spaced(a) && Spaced(b)
    && (text == "" ==> a == "") && (text != "" ==> !IsSpace(text[0]) && !IsSpace(text[|text| - 1]))
  }

  lemma {:induction false} TrimLeftOf(a: string, s: string)
    requires Spaced(a) && (s != "" ==> !IsSpace(s[0]))
    ensures TrimLeft(a + s) == s
    decreases |a|
  {
    if a == "" {
      assert a + s == s;
    } else {
      assert (a + s)[1..] == a[1..] + s;
      TrimLeftOf(a[1..], s);
    }
  }

  lemma {:induction false} TrimRightOf(s: string, b: string)
    requires Spaced(b) && (s != "" ==> !IsSpace(s[|s| - 1]))
    ensures TrimRight(s + b) == s
    decreases |b|
  {
    if b == "" {
      assert s + b == s;
    } else {
      assert (s + b)[..|s + b| - 1] == s + b[..|b| - 1];
      TrimRightOf(s, b[..|b| - 1]);
    }
  }

  lemma TrimmedOf(line: string, a: string, text: string, b: string)
    requires Between(line, a, text, b)
    ensures TrimSpace(line) == text
  {
    if text == "" {
      assert line == b + "";
      TrimLeftOf(b, "");
    } else {
      TrimLeftOf(a, text + b);
      TrimRightOf(text, b);
    }
  }

  lemma {:induction false} FieldEndOf(w: string, more: string)
    requires (forall i :: 0 <= i < |w| ==> !IsSpace(w[i])) && (more != "" ==> IsSpace(more[0]))
    ensures FieldEnd(w + more) == |w|
    decreases |w|
  {
    if w == "" {
      assert w + more == more;
    } else {
      assert (w + more)[1..] == w[1..] + more;
      FieldEndOf(w[1..], more);
    }
  }

  lemma FieldsUnfold(s: string, gap: string, w: string, more: string)
    requires WordFirst(s, gap, w, more)
    ensures Fields(s) == [w] + Fields(more)
  {
    TrimLeftOf(gap, w + more);
    FieldEndOf(w, more);
    assert (w + more)[..|w|] == w && (w + more)[|w|..] == more;
  }

  lemma NoFields(s: string)
    requires Spaced(s)
    ensures Fields(s) == []
  {
    assert s + "" == s;
    TrimLeftOf(s, "");
  }

  lemma {:induction false} FieldsAre(s: string, ws: seq<string>)
    requires HasWords(s, ws)
    ensures Fields(s) == ws
    decreases |ws|
  {
    if ws == [] {
      NoFields(s);
    } else {
      var gap, more :| WordFirst(s, gap, ws[0], more) && HasWords(more, ws[1..]);
      FieldsUnfold(s, gap, ws[0], more);
      FieldsAre(more, ws[1..]);
      assert ws == [ws[0]] + ws[1..];
    }
  }

  /**
   What a line between spaces is: nothing if it is empty, a comment or more than one line;
   otherwise, after a marker, the first word is the host and the rest, of at least two words,
   is the key.
   */
  lemma LineReads(line: string, a: string, text: string, b: string, words: seq<string>, key: KeyParser)
    requires Between(line, a, text, b) && HasWords(text, words)
    ensures ParseLine(line, key) ==
            if text == "" || text[0] == '#' || '\n' in text || '\r' in text then None
            else
              var named := if words[0][0] == '@' then words[1..] else words;
              if |named| < 3 || key(Join(named[1..], ' ')).None? then None
              else
                var k := key(Join(named[1..], ' ')).value;
                Some(Entry(named[0], k.keyType, k.fingerprint, text))
  {
    TrimmedOf(line, a, text, b);
    FieldsAre(text, words);
  }

  lemma SpaceMore(c: char, a: string, t: string)
    requires Spaced(a) && IsSpace(c)
    ensures Spaced([c] + a) && [c] + (a + t) == ([c] + a) + t
    ensures Spaced(a + [c]) && (t + a) + [c] == t + (a + [c])
  {
  }

  lemma {:induction false} SpacesOff(s: string) returns (a: string)
    ensures Spaced(a) && s == a + TrimLeft(s)
    decreases |s|
  {
    if s == "" || !IsSpace(s[0]) {
      a := "";
    } else {
      var c, t := s[0], s[1..];
      var rest := SpacesOff(t);
      SpaceMore(c, rest, TrimLeft(t));
      assert s == [c] + t;
      a := [c] + rest;
    }
  }

  lemma {:induction false} SpacesOffEnd(s: string) returns (b: string)
    ensures Spaced(b) && s == TrimRight(s) + b
    decreases |s|
  {
    if s == "" || !IsSpace(s[|s| - 1]) {
      b := "";
    } else {
      var c, t := s[|s| - 1], s[..|s| - 1];
      var rest := SpacesOffEnd(t);
      SpaceMore(c, rest, TrimRight(t));
      assert s == t + [c];
      b := rest + [c];
    }
  }

  lemma {:induction false} FieldEndSplits(s: string)
    ensures forall i :: 0 <= i < FieldEnd(s) ==> !IsSpace(s[i])
    ensures FieldEnd(s) < |s| ==> IsSpace(s[FieldEnd(s)])
    decreases |s|
  {
    if s != "" && !IsSpace(s[0]) {
      FieldEndSplits(s[1..]);
      assert forall i :: 0 < i <= FieldEnd(s[1..]) < |s| ==> s[i] == s[1..][i - 1];
    }
  }

  lemma OneMoreWord(s: string, gap: string, w: string, more: string, ws: seq<string>)
    requires WordFirst(s, gap, w, more) && HasWords(more, ws)
    ensures HasWords(s, [w] + ws)
  {
    var all := [w] + ws;
    assert all[0] == w && all[1..] == ws;
    assert WordFirst(s, gap, all[0], more) && HasWords(more, all[1..]);
  }

  lemma FirstWord(gap: string, t: string, n: nat)
    requires Spaced(gap) && t != "" && !IsSpace(t[0]) && n == FieldEnd(t)
    ensures WordFirst(gap + t, gap, t[..n], t[n..])
  {
    FieldEndSplits(t);
    assert t == t[..n] + t[n..];
    assert IsWord(t[..n]);
  }

  lemma {:induction false} WordsOf(s: string)
    ensures HasWords(s, Fields(s))
    decreases |s|
  {
    var gap := SpacesOff(s);
    var t := TrimLeft(s);
    if t == "" {
      assert s == gap;
    } else {
      var n := FieldEnd(t);
      FirstWord(gap, t, n);
      WordsOf(t[n..]);
      OneMoreWord(s, gap, t[..n], t[n..], Fields(t[n..]));
    }
  }

  /** Every line is such a text of words. */
  lemma EveryLineHasWords(line: string) returns (a: string, text: string, b: string, words: seq<string>)
    ensures Between(line, a, text, b) && HasWords(text, words)
  {
    a := SpacesOff(line);
    text := TrimSpace(line);
    b := SpacesOffEnd(TrimLeft(line));
    if text == "" {
      a, b := "", line;
    }
    words := Fields(text);
    WordsOf(text);
  }

  /** An entry's raw text is one line that parses to the same entry. */
  lemma RawReparses(line: string, key: KeyParser)
    requires ParseLine(line, key).Some?
    ensures var e := ParseLine(line, key).value;
            '\n' !in e.raw && e.raw == TrimSpace(line) && ParseLine(e.raw, key) == Some(e)
  {
    TrimmedIsTrim(line);
  }

  function Parser(key: KeyParser): LineParser
  {
    line => ParseLine(line, key)
  }

  // ---- Listing --------------------------------------------------------------

  function Entries(lines: seq<string>, parse: LineParser): seq<Entry>
  {
    if lines == [] then []
    else
      (match parse(lines[0]) case Some(e) => [e] case None => []) + Entries(lines[1..], parse)
  }

  function Listing(content: string, parse: LineParser): seq<Entry>
  {
    Entries(Split(content, '\n'), parse)
  }

  lemma {:induction false} EntriesAppend(a: seq<string>, b: seq<string>, parse: LineParser)
    ensures Entries(a + b, parse) == Entries(a, parse) + Entries(b, parse)
    decreases |a|
  {
    if a == [] {
      assert a + b == b;
    } else {
      assert (a + b)[1..] == a[1..] + b;
      EntriesAppend(a[1..], b, parse);
    }
  }

  lemma EntriesOne(line: string, parse: LineParser)
    ensures Entries([line], parse) == if parse(line).Some? then [parse(line).value] else []
  {
    assert [line][1..] == [];
  }

  lemma OneMoreLine(lines: seq<string>, i: nat, parse: LineParser)
    requires i < |lines|
    ensures Entries(lines[..i + 1], parse) == Entries(lines[..i], parse) + Entries([lines[i]], parse)
  {
    assert lines[..i + 1] == lines[..i] + [lines[i]];
    EntriesAppend(lines[..i], [lines[i]], parse);
  }

  method ListKnownHosts(file: Option<string>, key: KeyParser) returns (entries: seq<Entry>)
    ensures entries == if file.None? then [] else Listing(file.value, Parser(key))
  {
    if file.None? {
      return [];
    }
    var parse := Parser(key);
    var lines := Split(file.value, '\n');
    entries := [];
    for i := 0 to |lines|
      invariant entries == Entries(lines[..i], parse)
    {
      OneMoreLine(lines, i, parse);
      EntriesOne(lines[i], parse);
      var parsed := parse(lines[i]);
      if parsed.Some? {
        entries := entries + [parsed.value];
      }
    }
    assert lines[..|lines|] == lines;
  }

  // ---- Delete ---------------------------------------------------------------

  datatype KnownHostError = InvalidKnownHost | KnownHostNotFound

  /** The line that holds the entry at `index` of the listing. */
  function LineOf(lines: seq<string>, index: nat, parse: LineParser): (i: nat)
    requires index < |Entries(lines, parse)|
    ensures i < |lines|
  {
    if parse(lines[0]).None? then 1 + LineOf(lines[1..], index, parse)
    else if index == 0 then 0
    else 1 + LineOf(lines[1..], index - 1, parse)
  }

  lemma TailFront<T>(s: seq<T>, i: nat)
    requires 0 < i <= |s|
    ensures s[..i] == [s[0]] + s[1..][..i - 1] && s[i - 1] == ([s[0]] + s[1..])[i - 1]
  {
  }

  /** That line parses to that entry, and `index` entries come before it. */
  lemma {:induction false} LineOfHolds(lines: seq<string>, index: nat, parse: LineParser)
    requires index < |Entries(lines, parse)|
    ensures var i := LineOf(lines, index, parse);
            && parse(lines[i]) == Some(Entries(lines, parse)[index])
            && |Entries(lines[..i], parse)| == index
    decreases |lines|
  {
    var i := LineOf(lines, index, parse);
    if i > 0 {
      var before := if parse(lines[0]).None? then 0 else 1;
      assert i == 1 + LineOf(lines[1..], index - before, parse);
      LineOfHolds(lines[1..], index - before, parse);
      TailFront(lines, i);
      EntriesAppend([lines[0]], lines[1..][..i - 1], parse);
      EntriesOne(lines[0], parse);
    }
  }

  lemma CutAround<T>(s: seq<T>, i: nat)
    requires i < |s|
    ensures s == s[..i] + ([s[i]] + s[i + 1..])
  {
  }

  lemma EntriesSplitAt(lines: seq<string>, i: nat, parse: LineParser)
    requires i < |lines|
    ensures Entries(lines, parse)
            == Entries(lines[..i], parse) + (Entries([lines[i]], parse) + Entries(lines[i + 1..], parse))
  {
    CutAround(lines, i);
    EntriesAppend(lines[..i], [lines[i]] + lines[i + 1..], parse);
    EntriesAppend([lines[i]], lines[i + 1..], parse);
  }

  lemma FewerEntries(lines: seq<string>, i: nat, j: nat, parse: LineParser)
    requires i < j <= |lines| && parse(lines[i]).Some?
    ensures |Entries(lines[..i], parse)| < |Entries(lines[..j], parse)|
  {
    EntriesSplitAt(lines[..j], i, parse);
    EntriesOne(lines[i], parse);
    assert lines[..j][..i] == lines[..i] && lines[..j][i] == lines[i];
  }

  /** At most one line has exactly `index` entries before it and is itself an entry. */
  lemma LineOfUnique(lines: seq<string>, index: nat, i: nat, parse: LineParser)
    requires i < |lines| && parse(lines[i]).Some? && |Entries(lines[..i], parse)| == index
    ensures index < |Entries(lines, parse)| && i == LineOf(lines, index, parse)
  {
    EntriesSplitAt(lines, i, parse);
    EntriesOne(lines[i], parse);
    var j := LineOf(lines, index, parse);
    LineOfHolds(lines, index, parse);
    if i < j {
      FewerEntries(lines, i, j, parse);
    } else if j < i {
      FewerEntries(lines, j, i, parse);
    }
  }

  lemma KeepOne<T>(s: seq<T>, at: nat, i: nat)
    requires i < |s|
    ensures s[..i] + [s[i]] == s[..i + 1]
    ensures at < i ==> s[..at] + s[at + 1..i] + [s[i]] == s[..at] + s[at + 1..i + 1]
    ensures s[..i] == s[..i] + s[i + 1..i + 1]
  {
  }

  /** The loop of DeleteKnownHost: the line of one entry is left out, every other line is kept as it is. */
  method DropEntry(lines: seq<string>, index: int, parse: LineParser) returns (kept: seq<string>, found: bool)
    ensures found <==> 0 <= index < |Entries(lines, parse)|
    ensures found ==> var i := LineOf(lines, index, parse); kept == lines[..i] + lines[i + 1..]
    ensures !found ==> kept == lines
  {
    kept, found := [], false;
    var parsedIdx := 0;
    ghost var at := 0;
    for i := 0 to |lines|
      invariant parsedIdx == |Entries(lines[..i], parse)|
      invariant found <==> 0 <= index < parsedIdx
      invariant !found ==> kept == lines[..i]
      invariant found ==> at < i && parse(lines[at]).Some? && |Entries(lines[..at], parse)| == index
      invariant found ==> kept == lines[..at] + lines[at + 1..i]
    {
      OneMoreLine(lines, i, parse);
      EntriesOne(lines[i], parse);
      KeepOne(lines, at, i);
      if parse(lines[i]).Some? {
        if parsedIdx == index {
          found := true;
          at := i;
          parsedIdx := parsedIdx + 1;
          continue;
        }
        parsedIdx := parsedIdx + 1;
      }
      kept := kept + [lines[i]];
    }
    assert lines[..|lines|] == lines;
    if found {
      LineOfUnique(lines, index, at, parse);
    }
  }

  method DeleteKnownHost(file: Option<string>, index: int, key: KeyParser) returns (r: Result<string, KnownHostError>)
    ensures var listed := if file.None? then [] else Listing(file.value, Parser(key));
            && (r.Ok? <==> 0 <= index < |listed|)
            && (r.Err? ==> r.error == KnownHostNotFound)
    ensures r.Ok? ==> r.value == Deleted(file.value, index, Parser(key))
  {
    if file.None? {
      return Err(KnownHostNotFound);
    }
    var lines := Split(file.value, '\n');
    var kept, found := DropEntry(lines, index, Parser(key));
    if !found {
      return Err(KnownHostNotFound);
    }
    return Ok(Join(kept, '\n'));
  }

  function Deleted(content: string, index: nat, parse: LineParser): string
    requires index < |Listing(content, parse)|
  {
    var lines := Split(content, '\n');
    var i := LineOf(lines, index, parse);
    Join(lines[..i] + lines[i + 1..], '\n')
  }

  lemma EntriesCut(lines: seq<string>, index: nat, parse: LineParser)
    requires index < |Entries(lines, parse)|
    ensures var i := LineOf(lines, index, parse);
            Entries(lines[..i] + lines[i + 1..], parse)
              == Entries(lines, parse)[..index] + Entries(lines, parse)[index + 1..]
  {
    var i := LineOf(lines, index, parse);
    var a, c := Entries(lines[..i], parse), Entries(lines[i + 1..], parse);
    LineOfHolds(lines, index, parse);
    EntriesSplitAt(lines, i, parse);
    EntriesOne(lines[i], parse);
    CutOut(a, Entries(lines, parse)[index], c, Entries(lines, parse));
    EntriesAppend(lines[..i], lines[i + 1..], parse);
  }

  lemma Rejoined(kept: seq<string>, parse: LineParser)
    requires Free(kept, '\n') && parse("").None?
    ensures Split(Join(kept, '\n'), '\n') == (if kept == [] then [""] else kept)
    ensures Listing(Join(kept, '\n'), parse) == Entries(kept, parse)
  {
    if kept == [] {
      EntriesOne("", parse);
    } else {
      SplitJoin(kept, '\n');
    }
  }

  lemma FreeCut(lines: seq<string>, i: nat)
    requires i < |lines| && Free(lines, '\n')
    ensures Free(lines[..i] + lines[i + 1..], '\n')
  {
  }

  /**
   Deleting by index removes exactly that entry from the listing, and exactly its line
   from the file. (Of a file that was that one line an empty one is left.)
   */
  lemma DeleteRemovesExactly(content: string, index: nat, key: KeyParser)
    requires index < |Listing(content, Parser(key))|
    ensures var parse := Parser(key);
            var lines, listed := Split(content, '\n'), Listing(content, parse);
            var i := LineOf(lines, index, parse);
            var kept := lines[..i] + lines[i + 1..];
            && parse(lines[i]) == Some(listed[index])
            && Split(Deleted(content, index, parse), '\n') == (if kept == [] then [""] else kept)
            && Listing(Deleted(content, index, parse), parse) == listed[..index] + listed[index + 1..]
  {
    BlankIsNoEntry(key);
    DeleteExactly(content, index, Parser(key));
  }

  lemma BlankIsNoEntry(key: KeyParser)
    ensures Parser(key)("").None?
  {
  }

  lemma DeleteExactly(content: string, index: nat, parse: LineParser)
    requires index < |Listing(content, parse)| && parse("").None?
    ensures var lines, listed := Split(content, '\n'), Listing(content, parse);
            var i := LineOf(lines, index, parse);
            var kept := lines[..i] + lines[i + 1..];
            && parse(lines[i]) == Some(listed[index])
            && Split(Deleted(content, index, parse), '\n') == (if kept == [] then [""] else kept)
            && Listing(Deleted(content, index, parse), parse) == listed[..index] + listed[index + 1..]
  {
    var lines := Split(content, '\n');
    var i := LineOf(lines, index, parse);
    LineOfHolds(lines, index, parse);
    EntriesCut(lines, index, parse);
    JoinSplit(content, '\n');
    FreeCut(lines, i);
    Rejoined(lines[..i] + lines[i + 1..], parse);
  }

  lemma CutOut<T>(a: seq<T>, x: T, c: seq<T>, all: seq<T>)
    requires all == a + ([x] + c)
    ensures a + c == all[..|a|] + all[|a| + 1..]
  {
  }

  // ---- Add ------------------------------------------------------------------

  /** What is written before the new line: the old content, its last line ended. */
  function Complete(content: string): string
  {
    if content != "" && content[|content| - 1] != '\n' then content + "\n" else content
  }

  method AddKnownHost(file: Option<string>, line: string, key: KeyParser) returns (r: Result<string, KnownHostError>)
    ensures r == if Parser(key)(line).None? then Err(InvalidKnownHost)
                 else Ok(Added(if file.None? then "" else file.value, TrimSpace(line)))
  {
    var trimmed := TrimSpace(line);
    TrimmedIsTrim(line);
    if Parser(key)(trimmed).None? {
      return Err(InvalidKnownHost);
    }
    var content := if file.None? then "" else file.value;
    if content != "" && content[|content| - 1] != '\n' {
      content := content + "\n";
    }
    content := content + (trimmed + "\n");
    return Ok(content);
  }

  function Added(content: string, line: string): string
  {
    Complete(content) + (line + "\n")
  }

  /** The lines of a file whose last line is ended. */
  function CompleteLines(content: string): seq<string>
  {
    var lines := Split(content, '\n');
    if lines[|lines| - 1] == "" then lines[..|lines| - 1] else lines
  }

  lemma EndsInBreak(lines: seq<string>)
    requires lines != []
    ensures Lines(lines, '\n') != "" && Lines(lines, '\n')[|Lines(lines, '\n')| - 1] == '\n'
  {
    FrontAndLast(lines);
    LineAppend(lines[..|lines| - 1], lines[|lines| - 1], '\n');
  }

  lemma NoBreakAtEnd(front: string, last: string, content: string)
    requires content == front + last && last != "" && '\n' !in last
    ensures content[|content| - 1] != '\n' && content + "\n" == front + (last + "\n")
  {
    assert content[|content| - 1] == last[|last| - 1] && last[|last| - 1] in last;
  }

  lemma CompleteIsLines(content: string, parse: LineParser)
    requires parse("").None?
    ensures Complete(content) == Lines(CompleteLines(content), '\n') && Free(CompleteLines(content), '\n')
    ensures Entries(CompleteLines(content), parse) == Listing(content, parse)
  {
    JoinSplit(content, '\n');
    var lines := Split(content, '\n');
    var front, last := lines[..|lines| - 1], lines[|lines| - 1];
    FrontAndLast(lines);
    JoinIsLines(lines, '\n');
    if last == "" {
      assert content == Lines(front, '\n') + "" == Lines(front, '\n');
      if front != [] { EndsInBreak(front); }
      BlankLast(front, parse);
    } else {
      NoBreakAtEnd(Lines(front, '\n'), last, content);
      LineAppend(front, last, '\n');
    }
  }

  lemma BlankLast(lines: seq<string>, parse: LineParser)
    requires parse("").None?
    ensures Entries(lines + [""], parse) == Entries(lines, parse)
  {
    EntriesAppend(lines, [""], parse);
    EntriesOne("", parse);
  }

  lemma EntryLast(lines: seq<string>, line: string, parse: LineParser)
    requires parse(line).Some?
    ensures Entries(lines + [line], parse) == Entries(lines, parse) + [parse(line).value]
  {
    EntriesAppend(lines, [line], parse);
    EntriesOne(line, parse);
  }

  /**
   An add keeps every old line and appends one: the listing is the old one and the new
   entry. Deleting that entry gives back the old file, its last line ended.
   */
  lemma AddThenDelete(content: string, line: string, key: KeyParser)
    requires Parser(key)(line).Some?
    ensures var parse, added := Parser(key), Added(content, TrimSpace(line));
            var listed := Listing(content, parse);
            && Split(added, '\n') == CompleteLines(content) + [TrimSpace(line)] + [""]
            && Listing(added, parse) == listed + [parse(line).value]
            && Deleted(added, |listed|, parse) == Complete(content)
            && Listing(Complete(content), parse) == listed
  {
    RawReparses(line, key);
    BlankIsNoEntry(key);
    LineAdded(content, TrimSpace(line), Parser(key));
  }

  lemma LineAdded(content: string, line: string, parse: LineParser)
    requires parse(line).Some? && parse("").None? && '\n' !in line
    ensures var added, listed := Added(content, line), Listing(content, parse);
            && Split(added, '\n') == CompleteLines(content) + [line] + [""]
            && Listing(added, parse) == listed + [parse(line).value]
            && Deleted(added, |listed|, parse) == Complete(content)
            && Listing(Complete(content), parse) == listed
  {
    var lines := CompleteLines(content);
    CompleteIsLines(content, parse);
    LineAppend(lines, line, '\n');
    LinesReread(lines + [line]);
    BlankLast(lines + [line], parse);
    EntryLast(lines, line, parse);
    LastDeleted(lines, line, Added(content, line), parse);
    LinesReread(lines);
    BlankLast(lines, parse);
  }

  lemma LinesReread(lines: seq<string>)
    requires Free(lines, '\n')
    ensures Split(Lines(lines, '\n'), '\n') == lines + [""]
  {
    SplitLines(lines, "", '\n');
    assert Lines(lines, '\n') + "" == Lines(lines, '\n');
  }

  lemma LastTwo(lines: seq<string>, line: string, last: string)
    ensures var all := lines + [line] + [last];
            all[..|lines|] == lines && all[|lines|] == line && all[|lines| + 1..] == [last]
  {
  }

  lemma LastDeleted(lines: seq<string>, line: string, added: string, parse: LineParser)
    requires Split(added, '\n') == lines + [line] + [""] && parse(line).Some?
    ensures var n := |Entries(lines, parse)|;
            n < |Listing(added, parse)| && Deleted(added, n, parse) == Lines(lines, '\n')
  {
    LastTwo(lines, line, "");
    LineOfUnique(lines + [line] + [""], |Entries(lines, parse)|, |lines|, parse);
    JoinIsLines(lines + [""], '\n');
    assert (lines + [""])[..|lines|] == lines;
    assert Lines(lines, '\n') + "" == Lines(lines, '\n');
  }
}
