/**
 The `Host` blocks of an ssh client configuration
 (webmanager/backend/internal/gitconfig/sshhosts.go): parsed and printed
 back without one host. The two regular expressions of the source are written out as
 recognisers.
 */
module SshHosts {
  import opened Wrappers
  import opened Splitting

  // ---- Lines ----------------------------------------------------------------

  /** Go's \s */
  predicate IsSpace(c: char)
  {
    c == ' ' || c == '\t' || c == '\n' || c == '\r' || c == '\U{000C}'
  }

  function Spaces(s: string): (n: nat)
    ensures n <= |s| && (forall i :: 0 <= i < n ==> IsSpace(s[i])) && (n < |s| ==> !IsSpace(s[n]))
  {
    if s == "" || !IsSpace(s[0]) then 0
    else
      var n := 1 + Spaces(s[1..]);
      assert forall i :: 0 < i < n ==> s[i] == s[1..][i - 1];
      n
  }

  /** Where the trailing spaces of s begin. */
  function TrimRight(s: string): (t: string)
    ensures t <= s && (t != "" ==> !IsSpace(t[|t| - 1])) && forall i :: |t| <= i < |s| ==> IsSpace(s[i])
  {
    if s == "" || !IsSpace(s[|s| - 1]) then s else TrimRight(s[..|s| - 1])
  }

  function Lower(c: char): char
  {
    if 'A' <= c <= 'Z' then (c as int + 32) as char
    else if c == '\U{017F}' then 's'        // long s folds to s
    else if c == '\U{212A}' then 'k'        // the Kelvin sign folds to k
    else c
  }

  /** s begins with key, ignoring case as (?i) does. */
  predicate StartsWithFold(s: string, key: string)
  {
    |key| <= |s| && forall i :: 0 <= i < |key| ==> Lower(s[i]) == Lower(key[i])
  }

  /** What follows `key` and at least one space, if the line has that shape. */
  function AfterKey(line: string, key: string): Option<string>
  {
    var s := line[Spaces(line)..];
    if !StartsWithFold(s, key) then None
    else
      var rest := s[|key|..];
      if Spaces(rest) == 0 then None else Some(rest)
  }

  /** (?i)^\s*Host\s+(\S+)\s*$ */
  function HostOf(line: string): Option<string>
  {
    match AfterKey(line, "Host")
    case None => None
    case Some(rest) =>
      var token := TrimRight(rest[Spaces(rest)..]);
      if token == "" || (exists i :: 0 <= i < |token| && IsSpace(token[i])) then None else Some(token)
  }

  /** (?i)^\s*key\s+(.+?)\s*$ ; of a value that is all spaces the last one is captured. */
  function FieldOf(line: string, key: string): Option<string>
  {
    match AfterKey(line, key)
    case None => None
    case Some(rest) =>
      var value := TrimRight(rest[Spaces(rest)..]);
      if value != "" then Some(value)
      else if |rest| >= 2 then Some([rest[|rest| - 1]])
      else None
  }

  /** strings.Trim(s, "\"") */
  function Unquoted(s: string): string
    decreases |s|
  {
    if s != "" && s[0] == '"' then Unquoted(s[1..])
    else if s != "" && s[|s| - 1] == '"' then Unquoted(s[..|s| - 1])
    else s
  }

  // ---- What the recognisers accept ------------------------------------------

  ghost predicate Blank(s: string)
  {
    forall i :: 0 <= i < |s| ==> s[i] in {' ', '\t', '\n', '\r', '\U{000C}'}
  }

  /** c is the letter k, in either case, or one of the two other characters that fold to it. */
  predicate SameLetter(c: char, k: char)
  {
    || c == k || ('a' <= k <= 'z' && c as int == k as int - 32) || ('A' <= k <= 'Z' && c as int == k as int + 32)
    || (c == '\U{017F}' && (k == 's' || k == 'S')) || (c == '\U{212A}' && (k == 'k' || k == 'K'))
  }

  ghost predicate SameWord(s: string, key: string)
  {
    |s| == |key| && forall i :: 0 <= i < |s| ==> SameLetter(s[i], key[i])
  }

  ghost predicate Letters(key: string)
  {
    key != "" && forall i :: 0 <= i < |key| ==> 'a' <= key[i] <= 'z' || 'A' <= key[i] <= 'Z'
  }

  lemma FoldIsLetter(c: char, k: char)
    requires 'a' <= k <= 'z' || 'A' <= k <= 'Z'
    ensures Lower(c) == Lower(k) <==> SameLetter(c, k)
    ensures SameLetter(c, k) ==> !IsSpace(c)
  {
  }

  lemma StartsWithWord(s: string, key: string)
    requires Letters(key)
    ensures StartsWithFold(s, key) <==> |key| <= |s| && SameWord(s[..|key|], key)
  {
    if |key| <= |s| {
      forall i | 0 <= i < |key| ensures Lower(s[i]) == Lower(key[i]) <==> SameLetter(s[..|key|][i], key[i]) {
        FoldIsLetter(s[i], key[i]);
      }
    }
  }

  /** A line that has a key, and what stands around it. */
  ghost predicate KeyLine(line: string, key: string, a: string, k: string, b: string, rest: string)
  {
    line == a + k + b + rest && Blank(a) && SameWord(k, key) && Blank(b) && b != ""
  }

  lemma {:induction false} SpacesBefore(a: string, b: string)
    requires (forall i :: 0 <= i < |a| ==> IsSpace(a[i])) && b != "" && !IsSpace(b[0])
    ensures Spaces(a + b) == |a|
  {
    var s := a + b;
    assert s[|a|] == b[0];
    assert forall i :: 0 <= i < |a| ==> s[i] == a[i];
  }

  lemma AfterKeyOf(line: string, key: string, a: string, k: string, b: string, rest: string)
    requires Letters(key) && KeyLine(line, key, a, k, b, rest)
    ensures AfterKey(line, key) == Some(b + rest)
  {
    var s := k + (b + rest);
    assert line == a + s;
    FoldIsLetter(k[0], key[0]);
    SpacesBefore(a, s);
    assert line[|a|..] == s && s[..|key|] == k && s[|key|..] == b + rest;
    StartsWithWord(s, key);
    assert (b + rest)[0] == b[0];
  }

  lemma AfterKeySplits(line: string, key: string) returns (a: string, k: string, rest: string)
    requires Letters(key) && AfterKey(line, key).Some?
    ensures AfterKey(line, key) == Some(rest) && Spaces(rest) > 0
    ensures line == a + (k + rest) && Blank(a) && SameWord(k, key)
  {
    var i := Spaces(line);
    var s := line[i..];
    StartsWithWord(s, key);
    a, k, rest := line[..i], s[..|key|], s[|key|..];
    assert s == k + rest;
  }

  lemma CutSpaces(line: string, key: string, a: string, k: string, rest: string, n: nat)
    requires line == a + (k + rest) && Blank(a) && SameWord(k, key) && 0 < n <= Spaces(rest)
    ensures KeyLine(line, key, a, k, rest[..n], rest[n..])
  {
    assert rest == rest[..n] + rest[n..];
  }

  lemma {:induction false} TrimRightOf(s: string, c: string)
    requires Blank(c) && (s != "" ==> !IsSpace(s[|s| - 1]))
    ensures TrimRight(s + c) == s
    decreases |c|
  {
    if c == "" {
      assert s + c == s;
    } else {
      assert (s + c)[..|s + c| - 1] == s + c[..|c| - 1];
      TrimRightOf(s, c[..|c| - 1]);
    }
  }

  lemma TrimmedOff(s: string) returns (c: string)
    ensures s == TrimRight(s) + c && Blank(c)
  {
    c := s[|TrimRight(s)|..];
  }

  lemma HostLineSplits(line: string, key: string) returns (a: string, k: string, b: string, c: string)
    requires key == "Host" && HostOf(line).Some?
    ensures KeyLine(line, key, a, k, b, HostOf(line).value + c) && Blank(c)
  {
    var rest;
    a, k, rest := AfterKeySplits(line, key);
    CutSpaces(line, key, a, k, rest, Spaces(rest));
    b := rest[..Spaces(rest)];
    c := TrimmedOff(rest[Spaces(rest)..]);
  }

  lemma TokenTrimmed(h: string, c: string)
    requires Token(h) && Blank(c)
    ensures TrimRight(h + c) == h && !IsSpace((h + c)[0])
  {
    TrimRightOf(h, c);
  }

  lemma HostLineReads(line: string, key: string, a: string, k: string, b: string, h: string, c: string)
    requires key == "Host" && KeyLine(line, key, a, k, b, h + c) && Token(h) && Blank(c)
    ensures HostOf(line) == Some(h)
  {
    AfterKeyOf(line, key, a, k, b, h + c);
    TokenTrimmed(h, c);
    SpacesBefore(b, h + c);
    assert (b + (h + c))[|b|..] == h + c;
  }

  ghost predicate HostLine(line: string, h: string)
  {
    Token(h) && exists a, k, b, c :: KeyLine(line, "Host", a, k, b, h + c) && Blank(c)
  }

  /** A Host line is the word Host, spaces, and one word, with spaces around. */
  lemma HostLineIff(line: string, h: string)
    ensures HostOf(line) == Some(h) <==> HostLine(line, h)
  {
    if HostOf(line) == Some(h) {
      var a, k, b, c := HostLineSplits(line, "Host");
      HostIsToken(line);
    }
    if HostLine(line, h) {
      var a, k, b, c :| KeyLine(line, "Host", a, k, b, h + c) && Blank(c);
      HostLineReads(line, "Host", a, k, b, h, c);
    }
  }

  /** A field's value: what stands between the spaces; of a value that is all spaces, the last one. */
  ghost predicate IsValue(v: string, c: string)
  {
    v != "" && if IsSpace(v[0]) then |v| == 1 && c == "" else !IsSpace(v[|v| - 1]) && Blank(c)
  }

  lemma NothingTrimmed(s: string)
    requires TrimRight(s) == "" && (s != "" ==> !IsSpace(s[0]))
    ensures s == ""
  {
  }

  lemma FieldLineSplits(line: string, key: string) returns (a: string, k: string, b: string, c: string)
    requires Letters(key) && FieldOf(line, key).Some?
    ensures KeyLine(line, key, a, k, b, FieldOf(line, key).value + c) && IsValue(FieldOf(line, key).value, c)
  {
    var rest;
    a, k, rest := AfterKeySplits(line, key);
    var n := Spaces(rest);
    var value := TrimRight(rest[n..]);
    if value != "" {
      CutSpaces(line, key, a, k, rest, n);
      b := rest[..n];
      c := TrimmedOff(rest[n..]);
    } else {
      NothingTrimmed(rest[n..]);
      CutSpaces(line, key, a, k, rest, n - 1);
      b, c := rest[..n - 1], "";
      assert rest[n - 1..] == [rest[n - 1]] + "";
    }
  }

  lemma FieldLineReads(line: string, key: string, a: string, k: string, b: string, v: string, c: string)
    requires Letters(key) && KeyLine(line, key, a, k, b, v + c) && IsValue(v, c)
    ensures FieldOf(line, key) == Some(v)
  {
    AfterKeyOf(line, key, a, k, b, v + c);
    if IsSpace(v[0]) {
      assert v + c == v && v == [v[0]];
      OnlySpaces(b, v[0]);
    } else {
      ValueAmongSpaces(b, v, c);
    }
  }

  lemma OnlySpaces(b: string, c: char)
    requires Blank(b) && IsSpace(c)
    ensures Spaces(b + [c]) == |b| + 1 && (b + [c])[|b| + 1..] == "" && (b + [c])[|b|] == c
  {
    AllSpaces(b + [c]);
  }

  lemma ValueAmongSpaces(b: string, v: string, c: string)
    requires Blank(b) && v != "" && !IsSpace(v[0]) && !IsSpace(v[|v| - 1]) && Blank(c)
    ensures Spaces(b + (v + c)) == |b| && TrimRight((b + (v + c))[|b|..]) == v
  {
    SpacesBefore(b, v + c);
    assert (b + (v + c))[|b|..] == v + c;
    TrimRightOf(v, c);
  }

  lemma AllSpaces(s: string)
    requires forall i :: 0 <= i < |s| ==> IsSpace(s[i])
    ensures Spaces(s) == |s|
  {
  }

  ghost predicate FieldLine(line: string, key: string, v: string)
  {
    exists a, k, b, c :: KeyLine(line, key, a, k, b, v + c) && IsValue(v, c)
  }

  /** A field's line is its key, spaces and a value, with spaces around. */
  lemma FieldLineIff(line: string, key: string, v: string)
    requires Letters(key)
    ensures FieldOf(line, key) == Some(v) <==> FieldLine(line, key, v)
  {
    if FieldOf(line, key) == Some(v) {
      var a, k, b, c := FieldLineSplits(line, key);
    }
    if FieldLine(line, key, v) {
      var a, k, b, c :| KeyLine(line, key, a, k, b, v + c) && IsValue(v, c);
      FieldLineReads(line, key, a, k, b, v, c);
    }
  }

  ghost predicate Quotes(s: string)
  {
    forall i :: 0 <= i < |s| ==> s[i] == '"'
  }

  lemma QuoteMore(q: string, t: string, q': string)
    requires Quotes(q) && Quotes(q')
    ensures Quotes(['"'] + q) && ['"'] + (q + t + q') == (['"'] + q) + t + q'
    ensures Quotes(q' + ['"']) && (q + t + q') + ['"'] == q + t + (q' + ['"'])
  {
  }

  /** All quotes around a value go, and nothing else. */
  lemma {:induction false} UnquotedSplits(s: string) returns (q: string, q': string)
    ensures var t := Unquoted(s);
            s == q + t + q' && Quotes(q) && Quotes(q') && (t != "" ==> t[0] != '"' && t[|t| - 1] != '"')
    decreases |s|
  {
    var t := Unquoted(s);
    if s != "" && s[0] == '"' {
      var p, p' := UnquotedSplits(s[1..]);
      QuoteMore(p, t, p');
      assert s == ['"'] + s[1..];
      q, q' := ['"'] + p, p';
    } else if s != "" && s[|s| - 1] == '"' {
      var p, p' := UnquotedSplits(s[..|s| - 1]);
      QuoteMore(p, t, p');
      assert s == s[..|s| - 1] + ['"'];
      q, q' := p, p' + ['"'];
    } else {
      q, q' := "", "";
      assert "" + t + "" == t;
    }
  }

  // ---- Blocks ---------------------------------------------------------------

  datatype Block = Block(host: string, lines: seq<string>)

  function BlocksFrom(current: Block, lines: seq<string>): seq<Block>
    decreases |lines|
  {
    if lines == [] then [current]
    else
      match HostOf(lines[0])
      case Some(h) => [current] + BlocksFrom(Block(h, []), lines[1..])
      case None => BlocksFrom(current.(lines := current.lines + [lines[0]]), lines[1..])
  }

  function Parsed(data: string): seq<Block>
  {
    BlocksFrom(Block("", []), Split(data, '\n'))
  }

  lemma OneMoreLine(current: Block, lines: seq<string>, i: nat)
    requires i < |lines|
    ensures BlocksFrom(current, lines[i..])
            == var h := HostOf(lines[i]);
               if h.Some? then [current] + BlocksFrom(Block(h.value, []), lines[i + 1..])
               else BlocksFrom(current.(lines := current.lines + [lines[i]]), lines[i + 1..])
  {
    assert lines[i..][1..] == lines[i + 1..];
  }

  /** parseSSHConfig; a missing file has no blocks at all. */
  method ParseSSHConfig(file: Option<string>) returns (blocks: seq<Block>)
    ensures blocks == if file.None? then [] else Parsed(file.value)
  {
    if file.None? {
      return [];
    }
    var lines := Split(file.value, '\n');
    blocks := [];
    var current := Block("", []);
    assert lines[0..] == lines;
    for i := 0 to |lines|
      invariant blocks + BlocksFrom(current, lines[i..]) == BlocksFrom(Block("", []), lines)
    {
      OneMoreLine(current, lines, i);
      var m := HostOf(lines[i]);
      if m.Some? {
        blocks := blocks + [current];
        current := Block(m.value, []);
        continue;
      }
      current := current.(lines := current.lines + [lines[i]]);
    }
    blocks := blocks + [current];
  }

  function PrintedLines(b: Block): seq<string>
  {
    (if b.host != "" then ["Host " + b.host] else []) + b.lines
  }

  function AllPrinted(blocks: seq<Block>): seq<string>
  {
    if blocks == [] then [] else PrintedLines(blocks[0]) + AllPrinted(blocks[1..])
  }

  /** A body line: not a Host line, and one line. */
  predicate BodyLine(line: string)
  {
    HostOf(line).None? && '\n' !in line
  }

  ghost predicate Body(lines: seq<string>)
  {
    forall i :: 0 <= i < |lines| ==> BodyLine(lines[i])
  }

  predicate Token(h: string)
  {
    h != "" && forall i :: 0 <= i < |h| ==> !IsSpace(h[i])
  }

  ghost predicate HostBlocks(blocks: seq<Block>)
  {
    forall i :: 0 <= i < |blocks| ==> Token(blocks[i].host) && Body(blocks[i].lines)
  }

  /** What parsing yields: a preamble without a host, then one block per Host line. */
  ghost predicate WellParsed(blocks: seq<Block>)
  {
    blocks != [] && blocks[0].host == "" && Body(blocks[0].lines) && HostBlocks(blocks[1..])
  }

  lemma HostIsToken(line: string)
    requires HostOf(line).Some?
    ensures Token(HostOf(line).value)
  {
  }

  lemma {:induction false} BlocksFromShape(current: Block, lines: seq<string>)
    requires Body(current.lines) && forall i :: 0 <= i < |lines| ==> '\n' !in lines[i]
    ensures var bs := BlocksFrom(current, lines);
            bs != [] && bs[0].host == current.host && Body(bs[0].lines) && HostBlocks(bs[1..])
    decreases |lines|
  {
    if lines != [] {
      forall i | 0 <= i < |lines[1..]| ensures '\n' !in lines[1..][i] { assert lines[1..][i] == lines[i + 1]; }
      match HostOf(lines[0])
      case Some(h) =>
        HostIsToken(lines[0]);
        BlocksFromShape(Block(h, []), lines[1..]);
        var rest := BlocksFrom(Block(h, []), lines[1..]);
        assert BlocksFrom(current, lines)[1..] == rest;
        assert rest == [rest[0]] + rest[1..];
      case None =>
        BlocksFromShape(current.(lines := current.lines + [lines[0]]), lines[1..]);
    }
  }

  lemma ParsedShape(data: string)
    ensures WellParsed(Parsed(data))
  {
    JoinSplit(data, '\n');
    BlocksFromShape(Block("", []), Split(data, '\n'));
  }

  /** Body lines extend the current block. */
  lemma {:induction false} BodyExtends(current: Block, body: seq<string>, rest: seq<string>)
    requires Body(body)
    ensures BlocksFrom(current, body + rest) == BlocksFrom(current.(lines := current.lines + body), rest)
    decreases |body|
  {
    if body == [] {
      assert body + rest == rest && current.lines + body == current.lines;
    } else {
      assert (body + rest)[1..] == body[1..] + rest && (body + rest)[0] == body[0];
      var next := current.(lines := current.lines + [body[0]]);
      assert Body(body[1..]) by {
        forall i | 0 <= i < |body[1..]| ensures BodyLine(body[1..][i]) { assert body[1..][i] == body[i + 1]; }
      }
      BodyExtends(next, body[1..], rest);
      assert current.lines + [body[0]] + body[1..] == current.lines + body;
    }
  }

  lemma HostLineRecognised(h: string)
    requires Token(h)
    ensures HostOf("Host " + h) == Some(h)
  {
    var line := "Host " + h;
    assert Spaces(line) == 0 && line[0..] == line;
    var rest := line[4..];
    assert rest == " " + h;
    assert StartsWithFold(line, "Host");
    SpacesBefore(" ", h);
    assert rest[1..] == h;
    assert TrimRight(h) == h;
  }

  /** The blocks with one blank line more at the end. */
  function AddBlank(blocks: seq<Block>): seq<Block>
    requires blocks != []
  {
    if |blocks| == 1 then [blocks[0].(lines := blocks[0].lines + [""])] else [blocks[0]] + AddBlank(blocks[1..])
  }

  lemma BlockReread(current: Block, b: Block, more: seq<string>)
    requires Token(b.host) && Body(b.lines)
    ensures BlocksFrom(current, PrintedLines(b) + more) == [current] + BlocksFrom(b, more)
  {
    HostLineRecognised(b.host);
    var lines := ["Host " + b.host] + (b.lines + more);
    assert PrintedLines(b) + more == lines;
    assert lines[1..] == b.lines + more;
    BodyExtends(Block(b.host, []), b.lines, more);
    assert [] + b.lines == b.lines;
  }

  /** Printing blocks and reading them back: the final newline becomes a blank line. */
  lemma {:induction false} BlocksReread(current: Block, blocks: seq<Block>)
    requires HostBlocks(blocks)
    ensures BlocksFrom(current, AllPrinted(blocks) + [""]) == AddBlank([current] + blocks)
    decreases |blocks|
  {
    var all := [current] + blocks;
    if blocks == [] {
      assert AllPrinted(blocks) + [""] == [""] && [""][1..] == [];
      assert HostOf("").None?;
    } else {
      var b, others := blocks[0], blocks[1..];
      var more := AllPrinted(others) + [""];
      assert AllPrinted(blocks) + [""] == PrintedLines(b) + more;
      BlockReread(current, b, more);
      assert HostBlocks(others) by {
        forall i | 0 <= i < |others|
          ensures Token(others[i].host) && Body(others[i].lines)
        {
          assert others[i] == blocks[i + 1];
        }
      }
      BlocksReread(b, others);
      assert all[1..] == [b] + others;
    }
  }

  /** The blocks with a preamble in front, should it be gone. */
  function WithPreamble(blocks: seq<Block>): seq<Block>
  {
    if blocks != [] && blocks[0].host == "" then blocks else [Block("", [])] + blocks
  }

  lemma {:induction false} PrintedFree(blocks: seq<Block>)
    requires forall i :: 0 <= i < |blocks| ==> '\n' !in blocks[i].host && Body(blocks[i].lines)
    ensures Free(AllPrinted(blocks), '\n')
    decreases |blocks|
  {
    if blocks != [] {
      var b, others := blocks[0], blocks[1..];
      forall i | 0 <= i < |others|
        ensures '\n' !in others[i].host && Body(others[i].lines)
      {
        assert others[i] == blocks[i + 1];
      }
      PrintedFree(others);
      var mine, rest := PrintedLines(b), AllPrinted(others);
      forall i | 0 <= i < |mine| ensures '\n' !in mine[i] {
        assert b.host != "" && i == 0 ==> mine[i] == "Host " + b.host;
        var k := if b.host != "" then i - 1 else i;
        assert k >= 0 ==> mine[i] == b.lines[k] && BodyLine(b.lines[k]);
      }
      assert AllPrinted(blocks) == mine + rest;
    }
  }

  function Print(blocks: seq<Block>): string
  {
    Lines(AllPrinted(blocks), '\n')
  }

  /** Reading what was printed gives the printed blocks, a missing preamble restored, a blank line added. */
  lemma PrintReread(blocks: seq<Block>)
    requires forall i :: 0 <= i < |blocks| ==>
               Body(blocks[i].lines) && (Token(blocks[i].host) || (i == 0 && blocks[i].host == ""))
    ensures Parsed(Print(blocks)) == AddBlank(WithPreamble(blocks))
  {
    forall i | 0 <= i < |blocks| ensures '\n' !in blocks[i].host && Body(blocks[i].lines) {}
    PrintedFree(blocks);
    var lines := AllPrinted(blocks);
    SplitLines(lines, "", '\n');
    assert Lines(lines, '\n') + "" == Print(blocks);
    if blocks != [] && blocks[0].host == "" {
      var pre, rest := blocks[0], blocks[1..];
      assert lines == pre.lines + AllPrinted(rest);
      assert lines + [""] == pre.lines + (AllPrinted(rest) + [""]);
      BodyExtends(Block("", []), pre.lines, AllPrinted(rest) + [""]);
      assert [] + pre.lines == pre.lines && Block("", pre.lines) == pre;
      assert HostBlocks(rest) by {
        forall i | 0 <= i < |rest|
          ensures Token(rest[i].host) && Body(rest[i].lines)
        {
          assert rest[i] == blocks[i + 1];
        }
      }
      BlocksReread(pre, rest);
      assert [pre] + rest == blocks;
    } else {
      BlocksReread(Block("", []), blocks);
    }
  }

  // ---- Listing --------------------------------------------------------------

  datatype Host = Host(host: string, hostName: string, user: string, identityFile: string)

  function FieldIn(lines: seq<string>, key: string): string
  {
    if lines == [] then ""
    else match FieldOf(lines[0], key)
      case Some(value) => Unquoted(value)
      case None => FieldIn(lines[1..], key)
  }

  /** extractField: of the first line that has the field. */
  method ExtractField(lines: seq<string>, key: string) returns (value: string)
    ensures value == FieldIn(lines, key)
  {
    assert lines[0..] == lines;
    for i := 0 to |lines|
      invariant FieldIn(lines[i..], key) == FieldIn(lines, key)
    {
      assert lines[i..][1..] == lines[i + 1..];
      var m := FieldOf(lines[i], key);
      if m.Some? {
        return Unquoted(m.value);
      }
    }
    return "";
  }

  function Entry(b: Block): Host
  {
    Host(b.host, FieldIn(b.lines, "HostName"), FieldIn(b.lines, "User"), FieldIn(b.lines, "IdentityFile"))
  }

  function Listing(blocks: seq<Block>): seq<Host>
  {
    if blocks == [] then []
    else (if blocks[0].host == "" then [] else [Entry(blocks[0])]) + Listing(blocks[1..])
  }

  function ListedIn(file: Option<string>): seq<Host>
  {
    if file.None? then [] else Listing(Parsed(file.value))
  }

  lemma {:induction false} ListingAppend(a: seq<Block>, b: seq<Block>)
    ensures Listing(a + b) == Listing(a) + Listing(b)
    decreases |a|
  {
    if a == [] {
      assert a + b == b;
    } else {
      assert (a + b)[1..] == a[1..] + b;
      ListingAppend(a[1..], b);
    }
  }

  lemma OneMoreListed(blocks: seq<Block>, i: nat)
    requires i < |blocks|
    ensures Listing(blocks[..i + 1]) == Listing(blocks[..i]) + (if blocks[i].host == "" then [] else [Entry(blocks[i])])
  {
    var b := blocks[i];
    assert blocks[..i + 1] == blocks[..i] + [b];
    ListingAppend(blocks[..i], [b]);
    assert [b][1..] == [];
  }

  lemma {:induction false} BlankLineHasNoField(lines: seq<string>, key: string)
    requires key != ""
    ensures FieldIn(lines + [""], key) == FieldIn(lines, key)
    decreases |lines|
  {
    if lines == [] {
      assert (lines + [""])[1..] == [];
      assert FieldOf("", key).None?;
    } else {
      assert (lines + [""])[1..] == lines[1..] + [""];
      BlankLineHasNoField(lines[1..], key);
    }
  }

  lemma {:induction false} BlankLineNotListed(blocks: seq<Block>)
    requires blocks != []
    ensures Listing(AddBlank(blocks)) == Listing(blocks)
    decreases |blocks|
  {
    var b := blocks[0];
    if |blocks| == 1 {
      BlankLineHasNoField(b.lines, "HostName");
      BlankLineHasNoField(b.lines, "User");
      BlankLineHasNoField(b.lines, "IdentityFile");
      assert AddBlank(blocks)[1..] == [] == blocks[1..];
    } else {
      BlankLineNotListed(blocks[1..]);
      assert AddBlank(blocks)[1..] == AddBlank(blocks[1..]);
    }
  }

  // ---- Delete ---------------------------------------------------------------

  function Without(blocks: seq<Block>, host: string): seq<Block>
  {
    if blocks == [] then []
    else (if blocks[0].host == host then [] else [blocks[0]]) + Without(blocks[1..], host)
  }

  function NotHost(hosts: seq<Host>, host: string): seq<Host>
  {
    if hosts == [] then []
    else (if hosts[0].host == host then [] else [hosts[0]]) + NotHost(hosts[1..], host)
  }

  predicate HasHost(blocks: seq<Block>, host: string)
  {
    exists i :: 0 <= i < |blocks| && blocks[i].host == host
  }

  lemma {:induction false} WithoutAppend(a: seq<Block>, b: seq<Block>, host: string)
    ensures Without(a + b, host) == Without(a, host) + Without(b, host)
    decreases |a|
  {
    if a == [] {
      assert a + b == b;
    } else {
      assert (a + b)[1..] == a[1..] + b;
      WithoutAppend(a[1..], b, host);
    }
  }

  datatype HostError = HostExists | HostNotFound | InvalidHost | KeyFailed

  /** The key file of the last block of a host. */
  function LastKey(blocks: seq<Block>, host: string): string
  {
    if blocks == [] then ""
    else
      var b := blocks[|blocks| - 1];
      if b.host == host then FieldIn(b.lines, "IdentityFile") else LastKey(blocks[..|blocks| - 1], host)
  }

  lemma OneMoreBlock(blocks: seq<Block>, i: nat, host: string)
    requires i < |blocks|
    ensures Without(blocks[..i + 1], host) == Without(blocks[..i], host) + (if blocks[i].host == host then []
            else [blocks[i]])
    ensures HasHost(blocks[..i + 1], host) <==> HasHost(blocks[..i], host) || blocks[i].host == host
    ensures LastKey(blocks[..i + 1], host)
            == if blocks[i].host == host then FieldIn(blocks[i].lines, "IdentityFile") else LastKey(blocks[..i], host)
  {
    var b := blocks[i];
    assert blocks[..i + 1] == blocks[..i] + [b] && blocks[..i + 1][..i] == blocks[..i];
    WithoutAppend(blocks[..i], [b], host);
    assert [b][1..] == [];
  }

  /** The loop of DeleteSSHHost. */
  method RemoveHost(blocks: seq<Block>, host: string) returns (kept: seq<Block>, found: bool, identityFile: string)
    ensures kept == Without(blocks, host) && (found <==> HasHost(blocks, host)) && identityFile == LastKey(blocks, host)
  {
    found, identityFile, kept := false, "", [];
    for i := 0 to |blocks|
      invariant kept == Without(blocks[..i], host)
      invariant found <==> HasHost(blocks[..i], host)
      invariant identityFile == LastKey(blocks[..i], host)
    {
      OneMoreBlock(blocks, i, host);
      var b := blocks[i];
      if b.host == host {
        found := true;
        identityFile := ExtractField(b.lines, "IdentityFile");
        continue;
      }
      kept := kept + [b];
    }
    assert blocks[..|blocks|] == blocks;
  }

  /** The new file, and the key file to remove: that of the last block of the host. */
  method DeleteSSHHost(file: Option<string>, host: string) returns (r: Result<(string, string), HostError>)
    ensures var blocks := if file.None? then [] else Parsed(file.value);
            r == if HasHost(blocks, host) then Ok((Print(Without(blocks, host)), LastKey(blocks, host)))
              else Err(HostNotFound)
  {
    var blocks := ParseSSHConfig(file);
    var kept, found, identityFile := RemoveHost(blocks, host);
    if !found {
      return Err(HostNotFound);
    }
    var text := PrintBlocks(kept);
    return Ok((text, identityFile));
  }

  /** The first j body lines of a block, and its Host line. */
  function UpTo(b: Block, j: nat): seq<string>
    requires j <= |b.lines|
  {
    PrintedLines(Block(b.host, b.lines[..j]))
  }

  lemma OneMorePrinted(b: Block, j: nat)
    requires j < |b.lines|
    ensures Lines(UpTo(b, j + 1), '\n') == Lines(UpTo(b, j), '\n') + (b.lines[j] + "\n")
  {
    assert UpTo(b, j + 1) == UpTo(b, j) + [b.lines[j]];
    LineAppend(UpTo(b, j), b.lines[j], '\n');
  }

  method PrintBlock(b: Block) returns (text: string)
    ensures text == Lines(PrintedLines(b), '\n')
  {
    text := "";
    if b.host != "" {
      text := "Host " + b.host + "\n";
      LineAppend([], "Host " + b.host, '\n');
      assert UpTo(b, 0) == [] + ["Host " + b.host];
    }
    for j := 0 to |b.lines|
      invariant text == Lines(UpTo(b, j), '\n')
    {
      OneMorePrinted(b, j);
      text := text + (b.lines[j] + "\n");
    }
    assert b.lines[..|b.lines|] == b.lines;
  }

  method PrintBlocks(blocks: seq<Block>) returns (text: string)
    ensures text == Print(blocks)
  {
    text := "";
    for i := 0 to |blocks|
      invariant text == Print(blocks[..i])
    {
      PrintSnoc(blocks[..i], blocks[i]);
      assert blocks[..i + 1] == blocks[..i] + [blocks[i]];
      var one := PrintBlock(blocks[i]);
      text := text + one;
    }
    assert blocks[..|blocks|] == blocks;
  }

  lemma {:induction false} AllPrintedSnoc(blocks: seq<Block>, b: Block)
    ensures AllPrinted(blocks + [b]) == AllPrinted(blocks) + PrintedLines(b)
    decreases |blocks|
  {
    if blocks == [] {
      assert blocks + [b] == [b] && [b][1..] == [];
    } else {
      assert (blocks + [b])[1..] == blocks[1..] + [b];
      AllPrintedSnoc(blocks[1..], b);
    }
  }

  lemma PrintSnoc(blocks: seq<Block>, b: Block)
    ensures Print(blocks + [b]) == Print(blocks) + Lines(PrintedLines(b), '\n')
  {
    AllPrintedSnoc(blocks, b);
    LinesAppend(AllPrinted(blocks), PrintedLines(b), '\n');
  }

  lemma {:induction false} WithoutShape(blocks: seq<Block>, host: string)
    requires HostBlocks(blocks)
    ensures HostBlocks(Without(blocks, host)) && !HasHost(Without(blocks, host), host)
    ensures Listing(Without(blocks, host)) == NotHost(Listing(blocks), host)
    decreases |blocks|
  {
    if blocks != [] {
      var rest := blocks[1..];
      assert HostBlocks(rest) by {
        forall i | 0 <= i < |rest|
          ensures Token(rest[i].host) && Body(rest[i].lines)
        {
          assert rest[i] == blocks[i + 1];
        }
      }
      WithoutShape(rest, host);
      var kept, kept' := Without(blocks, host), Without(rest, host);
      assert Token(blocks[0].host);
      if blocks[0].host == host {
        assert kept == kept';
        assert NotHost(Listing(blocks), host) == NotHost(Listing(rest), host) by {
          assert Listing(blocks) == [Entry(blocks[0])] + Listing(rest);
        }
      } else {
        assert kept == [blocks[0]] + kept' && kept[1..] == kept';
        assert Listing(blocks) == [Entry(blocks[0])] + Listing(rest);
        assert Listing(blocks)[1..] == Listing(rest);
      }
    }
  }

  lemma KeptShape(blocks: seq<Block>, host: string)
    requires WellParsed(blocks)
    ensures var kept := Without(blocks, host);
            && (forall i :: 0 <= i < |kept| ==>
                  Body(kept[i].lines) && (Token(kept[i].host) || (i == 0 && kept[i].host == "")))
            && (host != "" ==> WithPreamble(kept) == kept)
            && Listing(WithPreamble(kept)) == NotHost(Listing(blocks), host)
  {
    var pre, rest := blocks[0], blocks[1..];
    WithoutShape(rest, host);
    var kept, kept' := Without(blocks, host), Without(rest, host);
    assert Listing(blocks) == [] + Listing(rest) == Listing(rest);
    if host == "" {
      assert kept == [] + kept' == kept';
      assert kept' != [] ==> Token(kept'[0].host);
      var none := Block("", []);
      assert WithPreamble(kept) == [none] + kept && ([none] + kept)[1..] == kept;
      assert Listing([none] + kept) == [] + Listing(kept) == Listing(kept);
    } else {
      assert kept == [pre] + kept' && kept[1..] == kept';
      assert Listing(kept) == [] + Listing(kept') == Listing(kept');
      forall i | 0 < i < |kept| ensures Body(kept[i].lines) && Token(kept[i].host) { assert kept[i] == kept'[i - 1]; }
    }
  }

  /**
   Reading back what a delete wrote gives the old blocks without every block of that host,
   the others verbatim but for one more blank line on the last; the list loses exactly
   that host. (Deleting the host "" would delete the preamble instead.)
   */
  lemma DeleteReread(data: string, host: string)
    ensures var kept := Without(Parsed(data), host);
            && Parsed(Print(kept)) == AddBlank(WithPreamble(kept))
            && (host != "" ==> WithPreamble(kept) == kept)
            && Listing(Parsed(Print(kept))) == NotHost(Listing(Parsed(data)), host)
  {
    ParsedShape(data);
    var blocks := Parsed(data);
    KeptShape(blocks, host);
    PrintReread(Without(blocks, host));
    BlankLineNotListed(WithPreamble(Without(blocks, host)));
  }
}
