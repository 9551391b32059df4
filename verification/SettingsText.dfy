/**
 The text operations under the settings mask: substrings, replacement, JSON string escapes,
 and the two spellings of a placeholder
 (webmanager/backend/internal/claudecode/settingsmask.go).
 */
module SettingsText {

  // ---- Text -----------------------------------------------------------------

  ghost predicate Occurs(s: string, m: string)
  {
    exists i :: 0 <= i <= |s| && m <= s[i..]
  }

  predicate Contains(s: string, m: string)
    ensures Contains(s, m) <==> Occurs(s, m)
  {
    ContainsUnfolds(s, m);
    m <= s || (s != "" && Contains(s[1..], m))
  }

  lemma ContainsUnfolds(s: string, m: string)
    ensures Occurs(s, m) <==> m <= s || (s != "" && Occurs(s[1..], m))
  {
    assert s[0..] == s;
    if Occurs(s, m) {
      var i :| 0 <= i <= |s| && m <= s[i..];
      if i > 0 { assert s[1..][i - 1..] == s[i..]; }
    }
    if s != "" && Occurs(s[1..], m) {
      var i :| 0 <= i <= |s[1..]| && m <= s[1..][i..];
      assert s[1..][i..] == s[i + 1..];
    }
  }

  lemma OccursAfter(a: string, b: string, m: string)
    ensures Occurs(b, m) ==> Occurs(a + b, m)
  {
    forall i | 0 <= i <= |b| && m <= b[i..] ensures m <= (a + b)[|a| + i..] { assert (a + b)[|a| + i..] == b[i..]; }
  }

  lemma OccursBefore(a: string, b: string, m: string)
    ensures Occurs(a, m) ==> Occurs(a + b, m)
  {
    forall i | 0 <= i <= |a| && m <= a[i..] ensures m <= (a + b)[i..] { assert (a + b)[i..] == a[i..] + b; }
  }

  /** strings.ReplaceAll of a pattern that is not empty */
  function ReplaceAll(s: string, pat: string, to: string): string
    requires pat != ""
    decreases |s|
  {
    if s == "" then ""
    else if pat <= s then to + ReplaceAll(s[|pat|..], pat, to)
    else [s[0]] + ReplaceAll(s[1..], pat, to)
  }

  /** Text in which the pattern begins nowhere is passed over. */
  lemma {:induction false} ReplaceSkips(y: string, s: string, pat: string, to: string)
    requires pat != "" && forall i :: 0 <= i < |y| ==> !(pat <= (y + s)[i..])
    ensures ReplaceAll(y + s, pat, to) == y + ReplaceAll(s, pat, to)
    decreases |y|
  {
    if y == "" {
      assert y + s == s;
    } else {
      var t := y[1..];
      assert (y + s)[0..] == y + s && (y + s)[1..] == t + s;
      forall i | 0 <= i < |t| ensures !(pat <= (t + s)[i..]) { assert (t + s)[i..] == (y + s)[i + 1..]; }
      ReplaceSkips(t, s, pat, to);
      assert [y[0]] + t == y;
    }
  }

  // ---- JSON strings ---------------------------------------------------------

  function Hex(n: nat): char
    requires n < 16
  {
    "0123456789abcdef"[n]
  }

  /** What encoding/json writes for a character; html says whether <, > and & are escaped. */
  function EscChar(c: char, html: bool): (e: string)
    ensures e != "" && e[0] != '"' && (e[0] != '\\' ==> e == [c])
  {
    if c == '"' then "\\\""
    else if c == '\\' then "\\\\"
    else if c == '\n' then "\\n"
    else if c == '\r' then "\\r"
    else if c == '\t' then "\\t"
    else if c == '\U{0008}' then "\\b"
    else if c == '\U{000C}' then "\\f"
    else if c < ' ' then "\\u00" + [Hex(c as nat / 16), Hex(c as nat % 16)]
    else if html && c == '<' then "\\u003c"
    else if html && c == '>' then "\\u003e"
    else if html && c == '&' then "\\u0026"
    else if c == '\U{2028}' then "\\u2028"
    else if c == '\U{2029}' then "\\u2029"
    else [c]
  }

  function Esc(s: string, html: bool): string
  {
    if s == "" then "" else EscChar(s[0], html) + Esc(s[1..], html)
  }

  function Quote(s: string): string
  {
    "\"" + Esc(s, false) + "\""
  }

  function Unhex(d: char): nat
  {
    if '0' <= d <= '9' then d as nat - '0' as nat else if 'a' <= d <= 'f' then d as nat - 'a' as nat + 10 else 0
  }

  /** The character after a backslash, when it is not u. */
  function Short(d: char): char
  {
    match d
    case 'n' => '\n'
    case 'r' => '\r'
    case 't' => '\t'
    case 'b' => '\U{0008}'
    case 'f' => '\U{000C}'
    case _ => d
  }

  /** e is c's code: itself, two characters from which c follows, or six. */
  ghost predicate IsCode(e: string, c: char)
  {
    || (e == [c] && c != '\\')
    || (|e| == 2 && e[0] == '\\' && e[1] != 'u' && c == Short(e[1]))
    || (|e| == 6 && e[0] == '\\' && e[1] == 'u'
        && c as int == if e[2] == '0' then 16 * Unhex(e[4]) + Unhex(e[5]) else 0x2020 + Unhex(e[5]))
  }

  lemma EscIsCode(c: char, html: bool)
    ensures IsCode(EscChar(c, html), c)
  {
    if c < ' ' {
      HexUnhex(c as nat / 16);
      HexUnhex(c as nat % 16);
    }
  }

  /** What may stand in a JSON string; for HTML, without brackets and ampersands. */
  predicate Fit(x: char, html: bool)
  {
    x >= ' ' && x != '\U{2028}' && x != '\U{2029}' && (html ==> x != '<' && x != '>' && x != '&')
  }

  lemma HexIsFit(n: nat, html: bool)
    requires n < 16
    ensures Fit(Hex(n), html)
  {
  }

  /** A character's code is fit, and the character itself if that is; otherwise it is as short as it can be. */
  lemma EscIsFit(c: char, html: bool)
    ensures forall i :: 0 <= i < |EscChar(c, html)| ==> Fit(EscChar(c, html)[i], html)
    ensures |EscChar(c, html)| == if c in {'"', '\\', '\n', '\r', '\t', '\U{0008}', '\U{000C}'} then 2
                                  else if Fit(c, html) then 1 else 6
  {
    if c < ' ' {
      HexIsFit(c as nat / 16, html);
      HexIsFit(c as nat % 16, html);
    }
  }

  lemma HexUnhex(n: nat)
    requires n < 16
    ensures Unhex(Hex(n)) == n
  {
  }

  /** Two characters whose codes agree as far as the first one reaches are the same. */
  lemma CodesDiffer(a: char, u: string, b: char, v: string, s: string, t: string)
    requires IsCode(u, a) && IsCode(v, b) && u + s <= v + t
    ensures a == b && u == v
  {
    SameFront(u, s, v, t, 0);
    if u[0] == '\\' {
      SameFront(u, s, v, t, 1);
      if u[1] == 'u' {
        forall i | 2 <= i < 6 ensures u[i] == v[i] { SameFront(u, s, v, t, i); }
      }
    }
  }

  lemma SameFront(u: string, s: string, v: string, t: string, i: nat)
    requires u + s <= v + t && i < |u|
    ensures i < |v| ==> u[i] == v[i]
  {
    assert (u + s)[i] == (v + t)[i];
  }

  /** The end of a placeholder: a name's code, the closing bracket's and the quote. */
  function Tail(name: string, html: bool): string
  {
    Esc(name + ">", html) + "\""
  }

  lemma EscOne(c: char, html: bool)
    ensures Esc([c], html) == EscChar(c, html)
  {
    assert [c][1..] == "" && EscChar(c, html) + "" == EscChar(c, html);
  }

  lemma TailUnfolds(name: string, html: bool)
    ensures Tail(name, html) == if name == "" then EscChar('>', html) + "\""
                                else EscChar(name[0], html) + Tail(name[1..], html)
    ensures Tail(name, html)[0] != '"'
  {
    var s := name + ">";
    if name == "" {
      assert s == ['>'];
      EscOne('>', html);
    } else {
      assert s[1..] == name[1..] + ">";
    }
  }

  lemma StripSame(u: string, a: string, b: string, s: string)
    requires u + a <= (u + b) + s
    ensures a <= b + s
  {
    assert (u + a)[|u|..] == a && ((u + b) + s)[|u|..] == b + s;
  }

  lemma SameStart(x: string, y: string, s: string)
    requires x != "" && y != "" && x <= y + s
    ensures x[0] == y[0]
  {
  }

  /** A placeholder's text determines its name, whatever follows. */
  lemma {:induction false} TailDetermines(a: string, b: string, html: bool, s: string)
    requires Tail(a, html) <= Tail(b, html) + s
    ensures a == b
    decreases |a|
  {
    TailUnfolds(a, html);
    TailUnfolds(b, html);
    if a != "" || b != "" {
      var a0, ta := if a == "" then '>' else a[0], if a == "" then "\"" else Tail(a[1..], html);
      var b0, tb := if b == "" then '>' else b[0], if b == "" then "\"" else Tail(b[1..], html);
      EscIsCode(a0, html);
      EscIsCode(b0, html);
      CodeStrips(a0, EscChar(a0, html), ta, b0, EscChar(b0, html), tb, s);
      if a != "" { TailUnfolds(a[1..], html); }
      if b != "" { TailUnfolds(b[1..], html); }
      SameStart(ta, tb, s);
      TailDetermines(a[1..], b[1..], html, s);
      assert a == [a[0]] + a[1..] && b == [b[0]] + b[1..];
    }
  }

  lemma CodeStrips(a: char, u: string, x: string, b: char, v: string, y: string, s: string)
    requires IsCode(u, a) && IsCode(v, b) && u + x <= (v + y) + s
    ensures a == b && x <= y + s
  {
    assert (v + y) + s == v + (y + s);
    CodesDiffer(a, u, b, v, x, y + s);
    StripSame(v, x, y, s);
  }

  // ---- Placeholders ---------------------------------------------------------

  const HIDDEN := "<hidden: "

  /** The same with < escaped, as Go's default encoder writes it. */
  const HIDDEN_ESCAPED := "\\u003chidden: "

  function Mark(html: bool): string
  {
    if html then HIDDEN_ESCAPED else HIDDEN
  }

  /** The JSON text of a placeholder: as MaskSettings writes it, or as Go's default encoder would. */
  function Placeholder(name: string, html: bool): string
  {
    "\"" + Esc(HIDDEN + name + ">", html) + "\""
  }

  lemma {:induction false} EscAppend(a: string, b: string, html: bool)
    ensures Esc(a + b, html) == Esc(a, html) + Esc(b, html)
    decreases |a|
  {
    if a == "" {
      assert a + b == b;
    } else {
      assert (a + b)[1..] == a[1..] + b;
      EscAppend(a[1..], b, html);
    }
  }

  lemma {:induction false} EscOrdinary(s: string, html: bool)
    requires forall i :: 0 <= i < |s| ==> EscChar(s[i], html) == [s[i]]
    ensures Esc(s, html) == s
    decreases |s|
  {
    if s != "" {
      EscOrdinary(s[1..], html);
      assert s == [s[0]] + s[1..];
    }
  }

  lemma LetterIsItself(c: char, html: bool)
    requires 'a' <= c <= 'z' || c == ':' || c == ' '
    ensures EscChar(c, html) == [c]
  {
  }

  lemma MarkRest(html: bool)
    ensures Esc("hidden: ", html) == "hidden: "
  {
    var rest := "hidden: ";
    forall i | 0 <= i < |rest| ensures EscChar(rest[i], html) == [rest[i]] { LetterIsItself(rest[i], html); }
    EscOrdinary(rest, html);
  }

  lemma MarkIsCode(html: bool)
    ensures Esc(HIDDEN, html) == Mark(html)
  {
    var rest := "hidden: ";
    MarkRest(html);
    MarkParts();
    EscAppend(['<'], rest, html);
    EscOne('<', html);
  }

  lemma PlaceholderParts(name: string, html: bool)
    ensures Placeholder(name, html) == "\"" + Mark(html) + Tail(name, html)
  {
    EscAppend(HIDDEN, name + ">", html);
    assert HIDDEN + (name + ">") == HIDDEN + name + ">";
    MarkIsCode(html);
  }

  /** strings.ReplaceAll(text, `\u003c`, "<") */
  function Unescaped(text: string): string
  {
    ReplaceAll(text, "\\u003c", "<")
  }

  /** A placeholder is left, in either spelling. */
  predicate StillHidden(text: string)
  {
    Contains(text, HIDDEN) || Contains(text, HIDDEN_ESCAPED)
  }

  function IndexOf(s: string, m: string): (i: nat)
    requires Contains(s, m)
    ensures i + |m| <= |s| && m <= s[i..]
  {
    if m <= s then
      assert s[0..] == s;
      0
    else
      var i := 1 + IndexOf(s[1..], m);
      assert s[1..][i - 1..] == s[i..];
      i
  }

  /** s up to and with its first closing bracket, or all of it. */
  function ThroughBracket(s: string): (shown: string)
    requires HIDDEN <= s
    ensures HIDDEN <= shown <= s && '>' !in shown[..|shown| - 1] && (shown[|shown| - 1] == '>' || shown == s)
  {
    var end := UpTo(s, '>');
    HiddenBefore(s, end);
    if end < |s| then
      assert s[..end + 1][..end] == s[..end];
      s[..end + 1]
    else
      assert s[..end] == s;
      s
  }

  /** The first placeholder left, up to its closing bracket: what the error names. */
  function FirstHidden(text: string): (shown: string)
    requires Contains(text, HIDDEN)
    ensures HIDDEN <= shown && Contains(text, shown)
  {
    var shown := ThroughBracket(text[IndexOf(text, HIDDEN)..]);
    assert shown <= text[IndexOf(text, HIDDEN)..];
    shown
  }

  function UpTo(s: string, c: char): (n: nat)
    ensures n <= |s| && (n < |s| ==> s[n] == c) && c !in s[..n]
  {
    if s == "" || s[0] == c then 0
    else
      var n := 1 + UpTo(s[1..], c);
      assert s[..n] == [s[0]] + s[1..][..n - 1];
      n
  }

  lemma InPrefix(m: string, s: string)
    requires m <= s
    ensures forall i :: 0 <= i < |m| ==> s[i] in m
  {
  }

  lemma HiddenBefore(rest: string, end: nat)
    requires HIDDEN <= rest && end <= |rest| && (end < |rest| ==> rest[end] == '>')
    ensures end < |rest| ==> HIDDEN <= rest[..end + 1]
  {
    InPrefix(HIDDEN, rest);
    assert '>' !in HIDDEN;
  }

  lemma NotHere(text: string, m: string)
    requires text != "" && m != "" && text[0] != m[0]
    ensures !(m <= text)
  {
  }

  lemma DropOne(text: string, n: nat)
    requires 0 < n <= |text|
    ensures text[1..][n - 1..] == text[n..] && forall i :: 0 <= i < n - 1 ==> text[1..][i] == text[i + 1]
  {
  }

  lemma {:induction false} ContainsPast(text: string, n: nat, m: string)
    requires m != "" && n <= |text| && forall i :: 0 <= i < n ==> text[i] != m[0]
    ensures Contains(text, m) <==> Contains(text[n..], m)
    decreases n
  {
    if n == 0 {
      assert text[0..] == text;
    } else {
      NotHere(text, m);
      DropOne(text, n);
      ContainsPast(text[1..], n - 1, m);
    }
  }

  lemma {:induction false} UnescapedStarts(w: string, text: string)
    requires '<' !in w && '\\' !in w
    ensures w <= Unescaped(text) <==> w <= text
    decreases |text|
  {
    if w != "" && text != "" {
      assert w[0] in w;
      if "\\u003c" <= text {
        assert text[0] == '\\' && Unescaped(text)[0] == '<';
      } else {
        UnescapedStarts(w[1..], text[1..]);
        assert w == [w[0]] + w[1..] && text == [text[0]] + text[1..];
      }
    }
  }

  lemma StartsWith(c: char, w: string, s: string)
    ensures [c] + w <= s <==> s != "" && s[0] == c && w <= s[1..]
  {
    if s != "" {
      assert s == [s[0]] + s[1..];
    }
  }

  lemma SharedFront(u: string, a: string, b: string)
    ensures u + a <= u + b <==> a <= b
  {
    assert (u + a)[|u|..] == a && (u + b)[|u|..] == b;
    if a <= b {
      assert u + b == (u + a) + b[|a|..];
    }
  }

  lemma EscapedHead(text: string)
    requires "\\u003c" <= text
    ensures HIDDEN_ESCAPED <= text <==> "hidden: " <= text[6..]
    ensures Contains(text, HIDDEN) <==> Contains(text[6..], HIDDEN)
    ensures Contains(text, HIDDEN_ESCAPED) <==> HIDDEN_ESCAPED <= text || Contains(text[6..], HIDDEN_ESCAPED)
  {
    var e := "\\u003c";
    assert text == e + text[6..];
    MarkParts();
    SharedFront(e, "hidden: ", text[6..]);
    assert forall i :: 0 <= i < 6 ==> text[i] == e[i];
    ContainsPast(text, 6, HIDDEN);
    assert forall i :: 0 <= i < 5 ==> text[1..][i] == e[i + 1];
    ContainsPast(text[1..], 5, HIDDEN_ESCAPED);
    assert text[1..][5..] == text[6..];
  }

  lemma FrontOfPrefix(a: string, b: string, s: string)
    ensures a + b <= s ==> a <= s
  {
  }

  lemma MarkParts()
    ensures HIDDEN == ['<'] + "hidden: " && HIDDEN_ESCAPED == "\\u003c" + "hidden: "
  {
    var e, rest := "\\u003c", "hidden: ";
    assert |HIDDEN| == 9 && |HIDDEN_ESCAPED| == 14 && |e| == 6 && |rest| == 8;
    forall i | 0 <= i < 9 ensures HIDDEN[i] == (['<'] + rest)[i] {
      assert i > 0 ==> (['<'] + rest)[i] == rest[i - 1];
    }
    forall i | 0 <= i < 14 ensures HIDDEN_ESCAPED[i] == (e + rest)[i] {
      assert (e + rest)[i] == if i < 6 then e[i] else rest[i - 6];
    }
  }

  /** Folding one spelling into the other finds both. */
  lemma {:induction false} UnescapedFinds(text: string)
    ensures Contains(Unescaped(text), HIDDEN) <==> StillHidden(text)
    decreases |text|
  {
    if text != "" {
      var e, rest := "\\u003c", "hidden: ";
      var head := if e <= text then 6 else 1;
      var after := Unescaped(text[head..]);
      UnescapedFinds(text[head..]);
      UnescapedStarts(rest, text[head..]);
      assert Unescaped(text) == [if e <= text then '<' else text[0]] + after;
      assert Unescaped(text)[1..] == after;
      MarkParts();
      StartsWith('<', rest, Unescaped(text));
      if e <= text {
        EscapedHead(text);
      } else {
        StartsWith('<', rest, text);
        FrontOfPrefix(e, rest, text);
      }
    }
  }
}
