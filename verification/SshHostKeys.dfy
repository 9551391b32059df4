/**
 The ssh hosts with their key files (webmanager/backend/internal/gitconfig/sshhosts.go):
 listing them, and adding one whose new key goes to `filepath.Join(keysDir, host)`. The
 source says the host pattern keeps that path inside keysDir. It does not for "..":
 `KeyPathInDirIff` says for which hosts it does.
 */
module SshHostKeys {
  import opened Wrappers
  import opened Splitting
  import opened SshHosts
  import FileSystem
  import KnownHosts
  import PathResolve

  // ---- Listing --------------------------------------------------------------

  datatype SSHHost = SSHHost(entry: Host, publicKey: string)

  /** The readable files, by their path as written. */
  type KeyFiles = map<string, string>

  function PublicKey(files: KeyFiles, identityFile: string): string
  {
    if identityFile != "" && identityFile + ".pub" in files then KnownHosts.TrimSpace(files[identityFile + ".pub"])
    else ""
  }

  function WithKeys(files: KeyFiles, hosts: seq<Host>): (r: seq<SSHHost>)
    ensures |r| == |hosts|
    ensures forall i :: 0 <= i < |r| ==> r[i] == SSHHost(hosts[i], PublicKey(files, hosts[i].identityFile))
  {
    seq(|hosts|, i requires 0 <= i < |hosts| => SSHHost(hosts[i], PublicKey(files, hosts[i].identityFile)))
  }

  lemma OneMoreWithKeys(files: KeyFiles, hosts: seq<Host>, h: Host)
    ensures WithKeys(files, hosts + [h]) == WithKeys(files, hosts) + [SSHHost(h, PublicKey(files, h.identityFile))]
  {
  }

  method EntryOf(b: Block, files: KeyFiles) returns (h: SSHHost)
    ensures h == SSHHost(Entry(b), PublicKey(files, Entry(b).identityFile))
  {
    var identityFile := ExtractField(b.lines, "IdentityFile");
    var pub := "";
    if identityFile != "" && identityFile + ".pub" in files {
      pub := KnownHosts.TrimSpace(files[identityFile + ".pub"]);
    }
    var hostName := ExtractField(b.lines, "HostName");
    var user := ExtractField(b.lines, "User");
    return SSHHost(Host(b.host, hostName, user, identityFile), pub);
  }

  method ListSSHHosts(file: Option<string>, files: KeyFiles) returns (out: seq<SSHHost>)
    ensures out == WithKeys(files, ListedIn(file))
  {
    var blocks := ParseSSHConfig(file);
    out := [];
    for i := 0 to |blocks|
      invariant out == WithKeys(files, Listing(blocks[..i]))
    {
      OneMoreListed(blocks, i);
      if blocks[i].host == "" {
        continue;
      }
      var entry := EntryOf(blocks[i], files);
      OneMoreWithKeys(files, Listing(blocks[..i]), Entry(blocks[i]));
      out := out + [entry];
    }
    assert blocks[..|blocks|] == blocks;
  }

  // ---- Add ------------------------------------------------------------------

  predicate Alnum(c: char)
  {
    'a' <= c <= 'z' || 'A' <= c <= 'Z' || '0' <= c <= '9'
  }

  predicate OneOf(s: string, more: string)
  {
    s != "" && forall i :: 0 <= i < |s| ==> Alnum(s[i]) || s[i] in more
  }

  /** validateAddSSHHostInput */
  predicate ValidInput(host: string, hostName: string, user: string)
  {
    OneOf(host, "._-") && OneOf(hostName, "._:%-") && OneOf(user, "._@%-")
  }

  /** A character of a regular expression's class, as it is written between the brackets. */
  predicate InClass(c: char, chars: string)
  {
    if |chars| >= 3 && chars[1] == '-' then chars[0] <= c <= chars[2] || InClass(c, chars[3..])
    else chars != "" && (c == chars[0] || InClass(c, chars[1..]))
  }

  ghost predicate Matches(s: string, chars: string)
  {
    s != "" && forall i :: 0 <= i < |s| ==> InClass(s[i], chars)
  }

  lemma RangeFirst(c: char, from: char, to: char, chars: string)
    ensures InClass(c, [from, '-', to] + chars) <==> from <= c <= to || InClass(c, chars)
  {
    assert ([from, '-', to] + chars)[3..] == chars;
  }

  lemma AlnumClass(c: char, more: string)
    ensures InClass(c, "A-Za-z0-9" + more) <==> Alnum(c) || InClass(c, more)
  {
    RangeFirst(c, '0', '9', more);
    RangeFirst(c, 'a', 'z', "0-9" + more);
    RangeFirst(c, 'A', 'Z', "a-z0-9" + more);
    assert ['0', '-', '9'] + more == "0-9" + more;
    assert ['a', '-', 'z'] + ("0-9" + more) == "a-z0-9" + more;
    assert ['A', '-', 'Z'] + ("a-z0-9" + more) == "A-Za-z0-9" + more;
  }

  lemma {:induction false} PlainClass(c: char, more: string)
    requires |more| >= 2 ==> '-' !in more[..|more| - 1]
    ensures InClass(c, more) <==> c in more
    decreases |more|
  {
    if more != "" {
      assert more == [more[0]] + more[1..];
      assert |more| >= 3 ==> more[1] == more[..|more| - 1][1];
      assert |more| >= 3 ==> forall i :: 0 <= i < |more| - 2 ==> more[1..][i] == more[..|more| - 1][i + 1];
      PlainClass(c, more[1..]);
    }
  }

  lemma OneOfMatches(s: string, more: string)
    requires |more| >= 2 ==> '-' !in more[..|more| - 1]
    ensures OneOf(s, more) <==> Matches(s, "A-Za-z0-9" + more)
  {
    forall i | 0 <= i < |s| ensures Alnum(s[i]) || s[i] in more <==> InClass(s[i], "A-Za-z0-9" + more) {
      AlnumClass(s[i], more);
      PlainClass(s[i], more);
    }
  }

  /** Valid is exactly what the three patterns of the source match. */
  lemma ValidIffPatterns(host: string, hostName: string, user: string)
    ensures ValidInput(host, hostName, user)
            <==> Matches(host, "A-Za-z0-9._-") && Matches(hostName, "A-Za-z0-9._:%-") && Matches(user, "A-Za-z0-9._@%-")
  {
    OneOfMatches(host, "._-");
    OneOfMatches(hostName, "._:%-");
    OneOfMatches(user, "._@%-");
    assert "A-Za-z0-9" + "._-" == "A-Za-z0-9._-";
    assert "A-Za-z0-9" + "._:%-" == "A-Za-z0-9._:%-";
    assert "A-Za-z0-9" + "._@%-" == "A-Za-z0-9._@%-";
  }

  // ---- Where the key goes ---------------------------------------------------

  /** filepath.Join(keysDir, host), keysDir being absolute and given by its components. */
  function KeyPath(keysDir: seq<string>, host: string): FileSystem.Path
  {
    PathResolve.Clean(keysDir + [host])
  }

  /** The path as it is written into the configuration. */
  function PathText(p: FileSystem.Path): string
  {
    "/" + Join(p, '/')
  }

  /** It is absolute, and read as a path it is that path. */
  lemma PathTextReads(p: FileSystem.Path)
    requires FileSystem.AllOrdinary(p) && Free(p, '/')
    ensures '/' == PathText(p)[0] && PathResolve.Clean(Split(PathText(p), '/')) == p
  {
    var parts := [""] + p;
    if p == [] {
      SplitJoin(["", ""], '/');
      assert ["", ""][1..] == [""] && [""][1..] == [];
      assert Join(["", ""], '/') == PathText(p);
    } else {
      assert parts[1..] == p && "" + ['/'] == "/";
      assert Join(parts, '/') == PathText(p);
      forall i | 0 <= i < |parts| ensures '/' !in parts[i] { assert i > 0 ==> parts[i] == p[i - 1]; }
      SplitJoin(parts, '/');
      PathResolve.CleanOrdinary([], p);
    }
  }

  lemma {:induction false} CleanOneMore(done: FileSystem.Path, raw: seq<string>, c: string)
    ensures PathResolve.CleanFrom(done, raw + [c]) == PathResolve.CleanFrom(PathResolve.CleanFrom(done, raw), [c])
    decreases |raw|
  {
    if raw == [] {
      assert raw + [c] == [c];
    } else {
      assert (raw + [c])[1..] == raw[1..] + [c];
      if raw[0] == "" || raw[0] == "." {
        CleanOneMore(done, raw[1..], c);
      } else if raw[0] == ".." {
        CleanOneMore(FileSystem.Parent(done), raw[1..], c);
      } else {
        CleanOneMore(done + [raw[0]], raw[1..], c);
      }
    }
  }

  lemma KeyPathOf(keysDir: seq<string>, host: string)
    requires host != ""
    ensures var dir := PathResolve.Clean(keysDir);
            KeyPath(keysDir, host) == if host == "." then dir else if host == ".." then FileSystem.Parent(dir)
              else dir + [host]
  {
    CleanOneMore([], keysDir, host);
    assert [host][1..] == [];
  }

  /** p is an entry of the directory dir itself. */
  predicate EntryIn(dir: FileSystem.Path, p: FileSystem.Path)
  {
    |p| == |dir| + 1 && dir < p
  }

  /** For every host the pattern admits, the key is an entry of keysDir unless the host is "." or "..". */
  lemma KeyPathInDirIff(keysDir: seq<string>, host: string, hostName: string, user: string)
    requires ValidInput(host, hostName, user)
    ensures EntryIn(PathResolve.Clean(keysDir), KeyPath(keysDir, host)) <==> host != "." && host != ".."
  {
    KeyPathOf(keysDir, host);
  }

  /** The pattern admits "..", and the key path is then keysDir's parent. */
  lemma DotsLeaveKeysDir(keysDir: seq<string>, hostName: string, user: string)
    requires OneOf(hostName, "._:%-") && OneOf(user, "._@%-")
    ensures ValidInput("..", hostName, user)
    ensures KeyPath(keysDir, "..") == FileSystem.Parent(PathResolve.Clean(keysDir))
    ensures PathResolve.Clean(keysDir) != [] ==> !(PathResolve.Clean(keysDir) <= KeyPath(keysDir, ".."))
  {
    KeyPathOf(keysDir, "..");
  }

  /** An absolute path's text starts with a slash; it ends with its last name. */
  lemma PathTextEnds(dir: FileSystem.Path, host: string)
    requires host != ""
    ensures var text := PathText(dir + [host]);
            text[0] == '/' && text[|text| - 1] == host[|host| - 1]
  {
    JoinIsLines(dir + [host], '/');
  }

  function NewLine(key: string, value: string): string
  {
    "    " + key + " " + value
  }

  function NewBody(hostName: string, user: string, keyPath: string): seq<string>
  {
    [NewLine("HostName", hostName), NewLine("User", user), NewLine("IdentityFile", keyPath)]
  }

  function NewBlockText(host: string, hostName: string, user: string, keyPath: string): string
  {
    "\n" + "Host " + host + "\n" + NewLine("HostName", hostName) + "\n" + NewLine("User", user) + "\n"
    + NewLine("IdentityFile", keyPath) + "\n"
  }

  predicate Listed(hosts: seq<Host>, host: string)
  {
    exists i :: 0 <= i < |hosts| && hosts[i].host == host
  }

  function OldText(file: Option<string>): string
  {
    if file.None? then "" else file.value
  }

  method HasEntry(existing: seq<SSHHost>, host: string) returns (found: bool)
    ensures found <==> exists i :: 0 <= i < |existing| && existing[i].entry.host == host
  {
    for i := 0 to |existing|
      invariant forall j :: 0 <= j < i ==> existing[j].entry.host != host
    {
      if existing[i].entry.host == host {
        return true;
      }
    }
    return false;
  }

  /** The new file and the new host. `made` is the public key ssh-keygen left at the key path, if it could. */
  method AddSSHHost(file: Option<string>, files: KeyFiles, keysDir: seq<string>, host: string, hostName: string,
      user: string, made: Option<string>)
    returns (r: Result<(string, SSHHost), HostError>)
    ensures var keyText := PathText(KeyPath(keysDir, host));
            r == if !ValidInput(host, hostName, user) then Err(InvalidHost)
                 else if Listed(ListedIn(file), host) then Err(HostExists)
                 else if made.None? then Err(KeyFailed)
                 else Ok((OldText(file) + NewBlockText(host, hostName, user, keyText),
                          SSHHost(Host(host, hostName, user, keyText), made.value)))
  {
    if !ValidInput(host, hostName, user) {
      return Err(InvalidHost);
    }
    var existing := ListSSHHosts(file, files);
    var taken := HasEntry(existing, host);
    if taken {
      return Err(HostExists);
    }
    if made.None? {
      return Err(KeyFailed);
    }
    var keyPath := PathText(KeyPath(keysDir, host));
    var block := NewBlockText(host, hostName, user, keyPath);
    return Ok((OldText(file) + block, SSHHost(Host(host, hostName, user, keyPath), made.value)));
  }

  /** A value that reads back as itself: one line, no quote or space at its ends. */
  predicate PlainValue(v: string)
  {
    && v != "" && '\n' !in v
    && !IsSpace(v[0]) && !IsSpace(v[|v| - 1]) && v[0] != '"' && v[|v| - 1] != '"'
  }

  lemma KeyRead(key: string, v: string)
    requires key != "" && !IsSpace(key[0])
    ensures AfterKey(NewLine(key, v), key) == Some(" " + v)
  {
    var line := NewLine(key, v);
    assert line == "    " + (key + (" " + v));
    SpacesBefore("    ", key + (" " + v));
    var s := line[4..];
    assert s == key + (" " + v) && s[|key|..] == " " + v;
    assert forall i :: 0 <= i < |key| ==> s[i] == key[i];
  }

  /** A value that starts with no space is read up to its trailing spaces. */
  lemma FieldRead(key: string, v: string)
    requires key != "" && !IsSpace(key[0]) && v != "" && !IsSpace(v[0])
    ensures FieldOf(NewLine(key, v), key) == Some(TrimRight(v))
  {
    KeyRead(key, v);
    SpacesBefore(" ", v);
    assert (" " + v)[1..] == v;
  }

  lemma PlainIsKept(v: string)
    requires PlainValue(v)
    ensures TrimRight(v) == v && Unquoted(v) == v
  {
  }

  /** A body line written by Add is none of Add's other fields, and no Host line. */
  lemma OtherField(key: string, v: string, other: string)
    requires key != "" && !IsSpace(key[0])
    requires (other == "User" || other == "IdentityFile" || other == "HostName" || other == "Host")
    requires (key == "User" || key == "IdentityFile" || key == "HostName") && key != other
    ensures AfterKey(NewLine(key, v), other).None?
  {
    var line := NewLine(key, v);
    assert line == "    " + (key + (" " + v));
    SpacesBefore("    ", key + (" " + v));
    var s := line[4..];
    assert s == key + (" " + v);
    assert s[0] == key[0];
    if key == "HostName" && other == "Host" {
      assert s[4..][0] == 'N';
    } else {
      assert Lower(s[0]) != Lower(other[0]);
    }
  }

  lemma NewLineIsBody(key: string, v: string)
    requires (key == "User" || key == "IdentityFile" || key == "HostName") && '\n' !in v
    ensures BodyLine(NewLine(key, v))
  {
    OtherField(key, v, "Host");
  }

  lemma NewBodyShape(hostName: string, user: string, keyPath: string)
    requires PlainValue(hostName) && PlainValue(user) && '\n' !in keyPath
    ensures Body(NewBody(hostName, user, keyPath))
  {
    NewLineIsBody("HostName", hostName);
    NewLineIsBody("User", user);
    NewLineIsBody("IdentityFile", keyPath);
  }

  lemma FieldHit(line: string, rest: seq<string>, key: string, v: string)
    requires FieldOf(line, key) == Some(v)
    ensures FieldIn([line] + rest, key) == Unquoted(v)
  {
  }

  lemma FieldSkip(line: string, rest: seq<string>, key: string)
    requires FieldOf(line, key).None?
    ensures FieldIn([line] + rest, key) == FieldIn(rest, key)
  {
    assert ([line] + rest)[1..] == rest;
  }

  /** Three lines with a field each: every field is read from its own line. */
  lemma ThreeFields(a: string, b: string, c: string, rest: seq<string>, k1: string, k2: string, k3: string,
      x: string, y: string, z: string)
    requires FieldOf(a, k1) == Some(x) && FieldOf(a, k2).None? && FieldOf(a, k3).None?
    requires FieldOf(b, k2) == Some(y) && FieldOf(b, k3).None? && FieldOf(c, k3) == Some(z)
    ensures var lines := [a, b, c] + rest;
            FieldIn(lines, k1) == Unquoted(x) && FieldIn(lines, k2) == Unquoted(y) && FieldIn(lines, k3) == Unquoted(z)
  {
    ThreeLines(a, b, c, rest);
    FieldHit(a, [b] + ([c] + rest), k1, x);
    FieldSkip(a, [b] + ([c] + rest), k2);
    FieldHit(b, [c] + rest, k2, y);
    FieldSkip(a, [b] + ([c] + rest), k3);
    FieldSkip(b, [c] + rest, k3);
    FieldHit(c, rest, k3, z);
  }

  lemma ThreeLines(a: string, b: string, c: string, rest: seq<string>)
    ensures [a, b, c] + rest == [a] + ([b] + ([c] + rest))
  {
  }

  /** The values come back as given, but for quotes and trailing spaces of the key path. */
  lemma NewEntry(host: string, hostName: string, user: string, keyPath: string)
    requires Token(host) && PlainValue(hostName) && PlainValue(user) && keyPath != "" && !IsSpace(keyPath[0])
    ensures Entry(Block(host, NewBody(hostName, user, keyPath) + [""]))
            == Host(host, hostName, user, Unquoted(TrimRight(keyPath)))
  {
    PlainIsKept(hostName);
    PlainIsKept(user);
    NewFields("HostName", "User", "IdentityFile", hostName, user, keyPath, [""]);
  }

  lemma NewFields(k1: string, k2: string, k3: string, hostName: string, user: string, keyPath: string,
                  rest: seq<string>)
    requires k1 == "HostName" && k2 == "User" && k3 == "IdentityFile"
    requires hostName != "" && user != "" && keyPath != "" && !IsSpace(hostName[0]) && !IsSpace(user[0])
             && !IsSpace(keyPath[0])
    ensures var lines := NewBody(hostName, user, keyPath) + rest;
            && FieldIn(lines, k1) == Unquoted(TrimRight(hostName))
            && FieldIn(lines, k2) == Unquoted(TrimRight(user))
            && FieldIn(lines, k3) == Unquoted(TrimRight(keyPath))
  {
    FieldRead(k1, hostName);
    FieldRead(k2, user);
    FieldRead(k3, keyPath);
    OtherField(k1, hostName, k2);
    OtherField(k1, hostName, k3);
    OtherField(k2, user, k3);
    ThreeFields(NewLine(k1, hostName), NewLine(k2, user), NewLine(k3, keyPath), rest, k1, k2, k3,
                TrimRight(hostName), TrimRight(user), TrimRight(keyPath));
  }

  lemma EndsInBreak(a: string, x: string, u: string, more: string, v: string)
    requires a == x + u
    ensures a + "\n" + (more + v) == (x + (u + "\n") + more) + v
  {
  }

  /** Splitting two texts with a newline between them: the lines of one, then of the other. */
  lemma SplitAcross(a: string, b: string)
    ensures Split(a + "\n" + b, '\n') == Split(a, '\n') + Split(b, '\n')
  {
    JoinSplit(a, '\n');
    JoinSplit(b, '\n');
    JoinedAcross(Split(a, '\n'), Split(b, '\n'));
  }

  lemma JoinedAcross(x: seq<string>, y: seq<string>)
    requires x != [] && y != [] && Free(x, '\n') && Free(y, '\n')
    ensures Split(Join(x, '\n') + "\n" + Join(y, '\n'), '\n') == x + y
  {
    JoinIsLines(x, '\n');
    JoinIsLines(y, '\n');
    var x', y', u, v := x[..|x| - 1], y[..|y| - 1], x[|x| - 1], y[|y| - 1];
    FrontAndLast(x);
    FrontAndLast(y);
    LineAppend(x', u, '\n');
    LinesAppend(x, y', '\n');
    EndsInBreak(Join(x, '\n'), Lines(x', '\n'), u, Lines(y', '\n'), v);
    FreeAppend(x, y');
    SplitLines(x + y', v, '\n');
    assert (x + y') + [v] == x + y;
  }

  lemma FreeAppend(x: seq<string>, y: seq<string>)
    requires Free(x, '\n') && Free(y, '\n')
    ensures Free(x + y, '\n')
  {
  }

  lemma {:induction false} HostStartsBlock(current: Block, lines: seq<string>, h: string, tail: seq<string>)
    requires Token(h)
    ensures BlocksFrom(current, lines + (["Host " + h] + tail))
            == BlocksFrom(current, lines) + BlocksFrom(Block(h, []), tail)
    decreases |lines|
  {
    var more := ["Host " + h] + tail;
    if lines == [] {
      HostLineRecognised(h);
      assert lines + more == more && more[1..] == tail;
    } else {
      assert (lines + more)[1..] == lines[1..] + more;
      match HostOf(lines[0])
      case Some(x) => HostStartsBlock(Block(x, []), lines[1..], h, tail);
      case None => HostStartsBlock(current.(lines := current.lines + [lines[0]]), lines[1..], h, tail);
    }
  }

  lemma LinesThenSplit(lines: seq<string>, more: string)
    requires Free(lines, '\n')
    ensures Split(Lines(lines, '\n') + more, '\n') == lines + Split(more, '\n')
  {
    JoinSplit(more, '\n');
    var pieces := Split(more, '\n');
    var front, last := pieces[..|pieces| - 1], pieces[|pieces| - 1];
    JoinIsLines(pieces, '\n');
    LinesAppend(lines, front, '\n');
    FreeAppend(lines, front);
    Regroup(Lines(lines, '\n'), Lines(front, '\n'), last);
    SplitLines(lines + front, last, '\n');
    FrontAndLast(pieces);
    Regroup(lines, front, [last]);
  }

  lemma SplitWithLines(data: string, lines: seq<string>, more: string)
    requires Free(lines, '\n')
    ensures Split(data + "\n" + (Lines(lines, '\n') + more), '\n') == Split(data, '\n') + (lines + Split(more, '\n'))
  {
    SplitAcross(data, Lines(lines, '\n') + more);
    LinesThenSplit(lines, more);
  }

  lemma BlockAfter(before: seq<string>, host: string, body: seq<string>, rest: seq<string>)
    requires Token(host) && Body(body)
    ensures BlocksFrom(Block("", []), before + (["Host " + host] + body + rest))
            == BlocksFrom(Block("", []), before) + BlocksFrom(Block(host, body), rest)
  {
    Regroup(["Host " + host], body, rest);
    HostStartsBlock(Block("", []), before, host, body + rest);
    BodyExtends(Block(host, []), body, rest);
    assert [] + body == body;
  }

  /** The lines of a new block put after a text, and more after them. */
  lemma ParsedWithBlock(data: string, host: string, body: seq<string>, more: string)
    requires Token(host) && Body(body)
    ensures Parsed(data + "\n" + (Lines(["Host " + host] + body, '\n') + more))
            == Parsed(data) + BlocksFrom(Block(host, body), Split(more, '\n'))
  {
    FreeOfBreaks(host, body);
    SplitWithLines(data, ["Host " + host] + body, more);
    BlockAfter(Split(data, '\n'), host, body, Split(more, '\n'));
  }

  lemma LinesReread(data: string, host: string, body: seq<string>)
    requires Token(host) && Body(body)
    ensures Parsed(data + "\n" + Lines(["Host " + host] + body, '\n')) == Parsed(data) + [Block(host, body + [""])]
  {
    var text := Lines(["Host " + host] + body, '\n');
    ParsedWithBlock(data, host, body, "");
    assert text + "" == text && Split("", '\n') == [""];
    BlankStaysBody([]);
    BodyExtends(Block(host, body), [""], []);
    assert [""] + [] == [""];
  }

  lemma FreeOfBreaks(host: string, body: seq<string>)
    requires Token(host) && Body(body)
    ensures Free(["Host " + host] + body, '\n')
  {
    var lines := ["Host " + host] + body;
    forall i | 0 <= i < |lines| ensures '\n' !in lines[i] {
      assert i > 0 ==> lines[i] == body[i - 1] && BodyLine(body[i - 1]);
    }
  }

  lemma BlankStaysBody(body: seq<string>)
    requires Body(body)
    ensures Body(body + [""])
  {
    forall i | 0 <= i < |body + [""]| ensures BodyLine((body + [""])[i]) {
      assert i < |body| ==> (body + [""])[i] == body[i];
    }
  }

  /** Reading back what an add wrote gives the old blocks and the new one after them. */
  lemma AddReread(data: string, host: string, hostName: string, user: string, keyPath: string)
    requires Token(host) && PlainValue(hostName) && PlainValue(user) && '\n' !in keyPath
    ensures Parsed(data + NewBlockText(host, hostName, user, keyPath))
            == Parsed(data) + [Block(host, NewBody(hostName, user, keyPath) + [""])]
  {
    var body := NewBody(hostName, user, keyPath);
    NewBodyShape(hostName, user, keyPath);
    NewTextIsLines(host, hostName, user, keyPath);
    LinesReread(data, host, body);
    Regroup(data, "\n", Lines(["Host " + host] + body, '\n'));
  }

  lemma NewTextIsLines(host: string, hostName: string, user: string, keyPath: string)
    ensures NewBlockText(host, hostName, user, keyPath)
            == "\n" + Lines(["Host " + host] + NewBody(hostName, user, keyPath), '\n')
  {
    var b, c, d := NewLine("HostName", hostName), NewLine("User", user), NewLine("IdentityFile", keyPath);
    FourLines("Host " + host, b, c, d);
    assert ["Host " + host] + NewBody(hostName, user, keyPath) == ["Host " + host, b, c, d];
    FourPieces("Host ", host, b, c, d);
  }

  lemma FourLines(a: string, b: string, c: string, d: string)
    ensures Lines([a, b, c, d], '\n') == a + "\n" + (b + "\n" + (c + "\n" + (d + "\n")))
  {
    assert [a, b, c, d][1..] == [b, c, d] && [b, c, d][1..] == [c, d] && [c, d][1..] == [d] && [d][1..] == [];
    assert Lines([d], '\n') == d + "\n";
    assert Lines([c, d], '\n') == c + "\n" + (d + "\n");
    assert Lines([b, c, d], '\n') == b + "\n" + (c + "\n" + (d + "\n"));
  }

  lemma FourPieces(key: string, a: string, b: string, c: string, d: string)
    ensures "\n" + key + a + "\n" + b + "\n" + c + "\n" + d + "\n"
            == "\n" + ((key + a) + "\n" + (b + "\n" + (c + "\n" + (d + "\n"))))
  {
  }

  lemma ValidIsPlain(s: string, more: string)
    requires OneOf(s, more) && (forall i :: 0 <= i < |more| ==> !IsSpace(more[i]) && more[i] != '"')
    ensures Token(s) && PlainValue(s)
  {
  }

  lemma {:induction false} UnlistedHost(blocks: seq<Block>, host: string)
    requires host != "" && !Listed(Listing(blocks), host)
    ensures !HasHost(blocks, host) && Without(blocks, host) == blocks
    decreases |blocks|
  {
    if blocks != [] {
      var all := Listing(blocks);
      if blocks[0].host != "" {
        assert all[0].host == blocks[0].host;
        assert all[1..] == Listing(blocks[1..]);
        assert forall i :: 0 <= i < |all[1..]| ==> all[1..][i] == all[i + 1];
      } else {
        assert all == Listing(blocks[1..]);
      }
      UnlistedHost(blocks[1..], host);
      assert blocks == [blocks[0]] + blocks[1..];
    }
  }

  /**
   After an add the list is the old list and the new host; deleting the host again restores
   the list. The values come back as given: the key path too, but for the hosts "." and
   "..", whose key path is keysDir or its parent and loses quotes and trailing spaces.
   */
  lemma AddThenDelete(file: Option<string>, keysDir: seq<string>, host: string, hostName: string, user: string)
    requires ValidInput(host, hostName, user) && !Listed(ListedIn(file), host)
    requires '\n' !in PathText(KeyPath(keysDir, host))
    ensures var keyText := PathText(KeyPath(keysDir, host));
            var added := OldText(file) + NewBlockText(host, hostName, user, keyText);
            && Listing(Parsed(added)) == ListedIn(file) + [Host(host, hostName, user, Unquoted(TrimRight(keyText)))]
            && (host != "." && host != ".." ==> Unquoted(TrimRight(keyText)) == keyText)
            && HasHost(Parsed(added), host)
            && Listing(Parsed(Print(Without(Parsed(added), host)))) == ListedIn(file)
  {
    ValidFields(host, hostName, user);
    KeyPathOf(keysDir, host);
    var keyText := PathText(KeyPath(keysDir, host));
    if host != "." && host != ".." {
      PathTextEnds(PathResolve.Clean(keysDir), host);
      PlainIsKept(keyText);
    }
    OldListing(file);
    AddedThenDeleted(OldText(file), host, hostName, user, keyText);
  }

  lemma AddedThenDeleted(data: string, host: string, hostName: string, user: string, keyText: string)
    requires Token(host) && PlainValue(hostName) && PlainValue(user)
    requires keyText != "" && !IsSpace(keyText[0]) && '\n' !in keyText
    requires !Listed(Listing(Parsed(data)), host)
    ensures var added, old' := data + NewBlockText(host, hostName, user, keyText), Listing(Parsed(data));
            && Listing(Parsed(added)) == old' + [Host(host, hostName, user, Unquoted(TrimRight(keyText)))]
            && HasHost(Parsed(added), host)
            && Listing(Parsed(Print(Without(Parsed(added), host)))) == old'
  {
    var added := data + NewBlockText(host, hostName, user, keyText);
    AddReread(data, host, hostName, user, keyText);
    NewEntry(host, hostName, user, keyText);
    var old', one := Parsed(data), Block(host, NewBody(hostName, user, keyText) + [""]);
    ListingAppend(old', [one]);
    assert [one][1..] == [] && Listing([one]) == [Entry(one)];
    UnlistedHost(old', host);
    WithoutAppend(old', [one], host);
    assert Without([one], host) == [];
    assert Parsed(added)[|old'|] == one;
    assert Without(Parsed(added), host) == old' + [] == old';
    ParsedShape(data);
    PrintReread(old');
    BlankLineNotListed(WithPreamble(old'));
  }

  // ---- A key path with a line break -----------------------------------------

  /** The current block only ever gains lines. */
  lemma {:induction false} FirstBlockGrows(current: Block, lines: seq<string>)
    ensures var bs := BlocksFrom(current, lines);
            bs != [] && bs[0].host == current.host && current.lines <= bs[0].lines
    decreases |lines|
  {
    if lines != [] && HostOf(lines[0]).None? {
      FirstBlockGrows(current.(lines := current.lines + [lines[0]]), lines[1..]);
    }
  }

  lemma FirstListed(a: seq<Block>, b: seq<Block>)
    requires b != [] && b[0].host != ""
    ensures |Listing(a)| < |Listing(a + b)| && Listing(a + b)[|Listing(a)|] == Entry(b[0])
  {
    ListingAppend(a, b);
    assert Listing(b) == [Entry(b[0])] + Listing(b[1..]);
  }

  /** The block for h, whatever lines follow its body, begins with that body. */
  lemma BodyComesFirst(data: string, host: string, body: seq<string>, more: string)
    returns (b: Block, rest: seq<string>)
    requires Token(host) && Body(body)
    ensures b == Block(host, body + rest)
    ensures var text := data + "\n" + (Lines(["Host " + host] + body, '\n') + more);
            var n := |Listing(Parsed(data))|;
            n < |Listing(Parsed(text))| && Listing(Parsed(text))[n] == Entry(b)
  {
    ParsedWithBlock(data, host, body, more);
    var bs := BlocksFrom(Block(host, body), Split(more, '\n'));
    FirstBlockGrows(Block(host, body), Split(more, '\n'));
    FirstListed(Parsed(data), bs);
    b := bs[0];
    rest := b.lines[|body|..];
  }

  lemma {:induction false} TrimmedIsNoLonger(s: string)
    ensures |Unquoted(s)| <= |s| && |TrimRight(s)| <= |s|
    decreases |s|
  {
    if s != "" && s[0] == '"' {
      TrimmedIsNoLonger(s[1..]);
    } else if s != "" && s[|s| - 1] == '"' {
      TrimmedIsNoLonger(s[..|s| - 1]);
    }
  }

  /** A key path broken over lines is listed shorter than it is. */
  lemma BrokenKeyPath(data: string, host: string, hostName: string, user: string, keyText: string)
    requires Token(host) && PlainValue(hostName) && PlainValue(user)
    requires keyText != "" && !IsSpace(keyText[0]) && '\n' in keyText
    ensures var added, n := data + NewBlockText(host, hostName, user, keyText), |Listing(Parsed(data))|;
            n < |Listing(Parsed(added))| && Listing(Parsed(added))[n].identityFile != keyText
  {
    var i := IndexOf(keyText, '\n');
    var part, more := keyText[..i], keyText[i + 1..];
    assert keyText == part + "\n" + more;
    NewBodyShape(hostName, user, part);
    NewTextIsLines(host, hostName, user, part);
    BrokenText(data, host, hostName, user, part, more);
    var b, rest := BodyComesFirst(data, host, NewBody(hostName, user, part), more + "\n");
    assert part != "" && part[0] == keyText[0];
    NewFields("HostName", "User", "IdentityFile", hostName, user, part, rest);
    TrimmedIsNoLonger(TrimRight(part));
    TrimmedIsNoLonger(part);
  }

  lemma BrokenText(data: string, host: string, hostName: string, user: string, part: string, more: string)
    ensures data + NewBlockText(host, hostName, user, part + "\n" + more)
            == data + "\n" + (Lines(["Host " + host] + NewBody(hostName, user, part), '\n') + (more + "\n"))
  {
    NewTextIsLines(host, hostName, user, part);
    var lines := Lines(["Host " + host] + NewBody(hostName, user, part), '\n');
    BreakInText(host, hostName, user, part, more);
    assert "\n" + lines + (more + "\n") == "\n" + (lines + (more + "\n"));
    Regroup(data, "\n", lines + (more + "\n"));
  }

  lemma BreakInText(host: string, hostName: string, user: string, part: string, more: string)
    ensures NewBlockText(host, hostName, user, part + "\n" + more)
            == NewBlockText(host, hostName, user, part) + (more + "\n")
  {
  }

  /** An added host is listed with its key path exactly when that is one line ("." and ".." aside). */
  lemma KeyPathListedIff(file: Option<string>, keysDir: seq<string>, host: string, hostName: string, user: string)
    requires ValidInput(host, hostName, user) && !Listed(ListedIn(file), host) && host != "." && host != ".."
    ensures var keyText, n := PathText(KeyPath(keysDir, host)), |ListedIn(file)|;
            var now := Listing(Parsed(OldText(file) + NewBlockText(host, hostName, user, keyText)));
            n < |now| && (now[n].identityFile == keyText <==> '\n' !in keyText)
  {
    var keyText := PathText(KeyPath(keysDir, host));
    if '\n' in keyText {
      ValidFields(host, hostName, user);
      OldListing(file);
      BrokenKeyPath(OldText(file), host, hostName, user, keyText);
    } else {
      AddThenDelete(file, keysDir, host, hostName, user);
    }
  }

  lemma ValidFields(host: string, hostName: string, user: string)
    requires ValidInput(host, hostName, user)
    ensures Token(host) && PlainValue(hostName) && PlainValue(user)
  {
    ValidIsPlain(host, "._-");
    ValidIsPlain(hostName, "._:%-");
    ValidIsPlain(user, "._@%-");
  }

  lemma OldListing(file: Option<string>)
    ensures Listing(Parsed(OldText(file))) == ListedIn(file)
  {
    EmptyFile();
  }

  lemma EmptyFile()
    ensures Listing(Parsed("")) == []
  {
    assert Split("", '\n') == [""];
    assert HostOf("").None?;
    BodyExtends(Block("", []), [""], []);
    assert [""] + [] == [""] == [] + [""];
    assert [Block("", [""])][1..] == [];
  }
}
