/**
 Putting hidden credentials back into a submitted settings document
 (webmanager/backend/internal/claudecode/settingsmask.go): replacements one name after
 another over the whole text, against one simultaneous substitution. Decoding JSON and the
 order a map is iterated in are parameters.
 */
module SettingsRestore {
  import opened Wrappers
  import opened SettingsText
  import Splitting

  // ---- Documents with slots -------------------------------------------------

  /** A piece of a document's text: fixed, or where a name's value belongs, and how its placeholder is spelled. */
  datatype Seg = Lit(text: string) | Slot(name: string, html: bool)

  /** The value a name stands for in the file on disk, as its raw text. */
  type Known = string -> Option<string>

  /** A piece once the slots in `done` have their values, and the rest are placeholders. */
  function Piece(x: Seg, known: Known, done: set<Seg>): string
  {
    match x
    case Lit(text) => text
    case Slot(n, html) => if x in done && known(n).Some? then known(n).value else Placeholder(n, html)
  }

  function Render(t: seq<Seg>, known: Known, done: set<Seg>): string
  {
    if t == [] then "" else Piece(t[0], known, done) + Render(t[1..], known, done)
  }

  /** The masked text: placeholders only. */
  function Masked(t: seq<Seg>): string
  {
    if t == [] then ""
    else (match t[0] case Lit(x) => x case Slot(n, html) => Placeholder(n, html)) + Masked(t[1..])
  }

  /** The text with every value in its place; a quote where there is no value. */
  function Filled(t: seq<Seg>, known: Known): string
  {
    if t == [] then ""
    else
      (match t[0]
       case Lit(x) => x
       case Slot(n, _) => if known(n).Some? then known(n).value else "\"") + Filled(t[1..], known)
  }

  predicate AllKnown(t: seq<Seg>, known: Known)
  {
    forall x <- t :: x.Slot? ==> known(x.name).Some?
  }

  /** Neither spelling of a placeholder's beginning occurs. */
  ghost predicate Clean(s: string)
  {
    !Occurs(s, HIDDEN) && !Occurs(s, HIDDEN_ESCAPED)
  }

  ghost predicate CleanNames(t: seq<Seg>)
  {
    forall x <- t :: x.Slot? ==> Clean(Esc(x.name + ">", x.html))
  }

  lemma MarkShape(html: bool)
    ensures Mark(html) != "" && '"' !in Mark(html)
  {
  }

  lemma CleanOfMark(s: string, html: bool)
    requires Clean(s)
    ensures !Occurs(s, Mark(html))
  {
  }

  // ---- Where a placeholder can begin ----------------------------------------

  /** A text without quotes that begins in front of the template does so with every value in place, too. */
  lemma {:induction false} BeginsInFilled(z: string, t: seq<Seg>, known: Known, done: set<Seg>, m: string)
    requires '"' !in m && m <= z + Render(t, known, done)
    ensures m <= z + Filled(t, known)
    decreases |t|
  {
    if |m| <= |z| {
      PrefixWithin(m, z, Render(t, known, done), Filled(t, known));
    } else if t == [] {
    } else {
      var rest := t[1..];
      var x := Piece(t[0], known, done);
      if t[0].Slot? && !(t[0] in done && known(t[0].name).Some?) {
        QuoteStops(m, z, x, Render(rest, known, done));
      } else {
        Splitting.Regroup(z, x, Render(rest, known, done));
        Splitting.Regroup(z, x, Filled(rest, known));
        BeginsInFilled(z + x, rest, known, done, m);
      }
    }
  }

  lemma PrefixWithin(m: string, z: string, s: string, t: string)
    requires |m| <= |z| && m <= z + s
    ensures m <= z + t
  {
    assert (z + s)[..|m|] == (z + t)[..|m|];
  }

  lemma QuoteStops(m: string, z: string, x: string, s: string)
    requires x != "" && x[0] == '"' && '"' !in m && m <= z + (x + s)
    ensures |m| <= |z|
  {
    InPrefix(m, z + (x + s));
    assert (z + (x + s))[|z|] == '"';
  }

  lemma AfterQuote(m: string, tail: string, s: string)
    requires "\"" + m + tail <= s
    ensures m <= s[1..]
  {
    assert s[1..][..|m|] == ("\"" + m + tail)[1..][..|m|] == m;
  }

  lemma MatchShowsMark(x: string, t: seq<Seg>, known: Known, done: set<Seg>, m: string, tail: string, i: nat)
    requires '"' !in m && i < |x|
    ensures "\"" + m + tail <= (x + Render(t, known, done))[i..] ==> Occurs(x + Filled(t, known), m)
  {
    var s, o := Render(t, known, done), Filled(t, known);
    if "\"" + m + tail <= (x + s)[i..] {
      AfterQuote(m, tail, (x + s)[i..]);
      CutFront(x, s, i);
      CutFront(x, o, i);
      BeginsInFilled(x[i + 1..], t, known, done, m);
      assert m <= (x + o)[i + 1..];
    }
  }

  lemma CutFront(x: string, s: string, i: nat)
    requires i < |x|
    ensures (x + s)[i + 1..] == x[i + 1..] + s && (x + s)[i..][1..] == x[i + 1..] + s
  {
  }

  /** A placeholder begins nowhere in a text in place. */
  lemma TextPassed(x: string, t: seq<Seg>, known: Known, done: set<Seg>, k: Seg, to: string)
    requires k.Slot? && Clean(x + Filled(t, known))
    ensures var s, pat := Render(t, known, done), Placeholder(k.name, k.html);
            ReplaceAll(x + s, pat, to) == x + ReplaceAll(s, pat, to)
  {
    var s, pat := Render(t, known, done), Placeholder(k.name, k.html);
    var m, tail := Mark(k.html), Tail(k.name, k.html);
    PlaceholderParts(k.name, k.html);
    MarkShape(k.html);
    CleanOfMark(x + Filled(t, known), k.html);
    forall i | 0 <= i < |x| ensures !(pat <= (x + s)[i..]) {
      MatchShowsMark(x, t, known, done, m, tail, i);
    }
    ReplaceSkips(x, s, pat, to);
  }

  /** A text without quotes that begins in a quoted one, before its last quote, lies within it. */
  lemma WithinQuotes(e: string, s: string, m: string, p: nat)
    requires m != "" && '"' !in m && p <= |e| && m <= (e + "\"" + s)[p..]
    ensures Occurs(e, m)
  {
    var text := e + "\"" + s;
    InPrefix(m, text[p..]);
    assert text[p..][|e| - p] == text[|e|] == '"';
    assert |m| <= |e| - p;
    assert text[p..][..|m|] == e[p..][..|m|];
    assert m <= e[p..];
  }

  lemma QuotePastMark(m: string, e: string, i: nat, s: string)
    requires '"' !in m && 0 < i <= |m| + |e| && (("\"" + m) + (e + "\""))[i] == '"'
    ensures |m| < i && (("\"" + m) + (e + "\""))[i + 1..] + s == (e + "\"" + s)[i - |m|..]
  {
    var front, back := "\"" + m, e + "\"";
    var y := front + back;
    assert forall j :: 0 < j <= |m| ==> y[j] == m[j - 1];
    assert y[i + 1..] == back[i - |m|..];
    assert back[i - |m|..] + s == (back + s)[i - |m|..];
  }

  /** A match inside a placeholder, past its first quote, needs a mark in the name or after the placeholder. */
  lemma MatchInside(n: string, html: bool, t: seq<Seg>, known: Known, done: set<Seg>, m: string, tail: string, i: nat)
    requires m != "" && '"' !in m && 0 < i < |Placeholder(n, html)|
    ensures "\"" + m + tail <= (Placeholder(n, html) + Render(t, known, done))[i..]
            ==> Occurs(Esc(n + ">", html), m) || Occurs(Filled(t, known), m)
  {
    var s, y := Render(t, known, done), Placeholder(n, html);
    if "\"" + m + tail <= (y + s)[i..] {
      AfterQuote(m, tail, (y + s)[i..]);
      CutFront(y, s, i);
      assert (y + s)[i] == '"' == y[i];
      PlaceholderParts(n, html);
      MarkShape(html);
      if i + 1 == |y| {
        assert y[i + 1..] == "";
        BeginsInFilled("", t, known, done, m);
        assert "" + Filled(t, known) == Filled(t, known)[0..];
      } else {
        QuotePastMark(Mark(html), Esc(n + ">", html), i, s);
        WithinQuotes(Esc(n + ">", html), s, m, i - |Mark(html)|);
      }
    }
  }

  /** Nor does it begin in another placeholder. */
  lemma PlaceholderPassed(x: Seg, t: seq<Seg>, known: Known, done: set<Seg>, k: Seg, to: string)
    requires x.Slot? && k.Slot? && k != x && Clean(Esc(x.name + ">", x.html)) && Clean(Filled(t, known))
    ensures var y, s, pat := Placeholder(x.name, x.html), Render(t, known, done), Placeholder(k.name, k.html);
            ReplaceAll(y + s, pat, to) == y + ReplaceAll(s, pat, to)
  {
    var y, s, pat := Placeholder(x.name, x.html), Render(t, known, done), Placeholder(k.name, k.html);
    var m, tail := Mark(k.html), Tail(k.name, k.html);
    PlaceholderParts(k.name, k.html);
    MarkShape(k.html);
    CleanOfMark(Filled(t, known), k.html);
    CleanOfMark(Esc(x.name + ">", x.html), k.html);
    assert (y + s)[0..] == y + s;
    forall i | 0 <= i < |y| ensures !(pat <= (y + s)[i..]) {
      if i > 0 { MatchInside(x.name, x.html, t, known, done, m, tail, i); } else { PlaceholdersDiffer(x, k, s); }
    }
    ReplaceSkips(y, s, pat, to);
  }

  /** No placeholder is the beginning of another. */
  lemma PlaceholdersDiffer(x: Seg, k: Seg, s: string)
    requires x.Slot? && k.Slot?
    ensures Placeholder(k.name, k.html) <= Placeholder(x.name, x.html) + s <==> k == x
  {
    var y, pat := Placeholder(x.name, x.html), Placeholder(k.name, k.html);
    PlaceholderParts(x.name, x.html);
    PlaceholderParts(k.name, k.html);
    if pat <= y + s {
      assert pat[1] == (y + s)[1] == y[1];
      assert pat[1] == Mark(k.html)[0] && y[1] == Mark(x.html)[0];
      var front := "\"" + Mark(x.html);
      Splitting.Regroup(front, Tail(x.name, x.html), s);
      SharedFront(front, Tail(k.name, k.html), Tail(x.name, x.html) + s);
      TailDetermines(k.name, x.name, x.html, s);
    }
  }

  // ---- One name at a time ---------------------------------------------------

  lemma CleanRest(t: seq<Seg>, known: Known)
    requires t != [] && Clean(Filled(t, known)) && CleanNames(t)
    ensures Clean(Filled(t[1..], known)) && CleanNames(t[1..])
  {
    var x := match t[0] case Lit(x) => x case Slot(n, _) => if known(n).Some? then known(n).value else "\"";
    OccursAfter(x, Filled(t[1..], known), HIDDEN);
    OccursAfter(x, Filled(t[1..], known), HIDDEN_ESCAPED);
  }

  lemma ReplaceHead(p: string, s: string, to: string)
    requires p != ""
    ensures ReplaceAll(p + s, p, to) == to + ReplaceAll(s, p, to)
  {
    assert (p + s)[|p|..] == s;
  }

  /** Replacing one name's placeholder in one spelling everywhere puts exactly that name's value in place. */
  lemma {:induction false} SpellingReplaced(t: seq<Seg>, known: Known, done: set<Seg>, k: Seg)
    requires k.Slot? && known(k.name).Some? && Clean(Filled(t, known)) && CleanNames(t)
    ensures ReplaceAll(Render(t, known, done), Placeholder(k.name, k.html), known(k.name).value)
            == Render(t, known, done + {k})
    decreases |t|
  {
    if t != [] {
      var x, rest, to := t[0], t[1..], known(k.name).value;
      var s := Render(rest, known, done);
      CleanRest(t, known);
      SpellingReplaced(rest, known, done, k);
      if x.Lit? || (x in done && known(x.name).Some?) {
        TextPassed(Piece(x, known, done), rest, known, done, k, to);
      } else if x == k {
        ReplaceHead(Placeholder(k.name, k.html), s, to);
      } else {
        PlaceholderPassed(x, rest, known, done, k, to);
      }
    }
  }

  // ---- Restore --------------------------------------------------------------

  function ReplaceBoth(text: string, name: string, value: string): string
  {
    ReplaceAll(ReplaceAll(text, Placeholder(name, false), value), Placeholder(name, true), value)
  }

  /** Name after name over the whole text. */
  function ReplaceNames(text: string, names: seq<string>, known: Known): string
    requires forall n <- names :: known(n).Some?
    decreases |names|
  {
    if names == [] then text
    else ReplaceNames(ReplaceBoth(text, names[0], known(names[0]).value), names[1..], known)
  }

  function Elements(names: seq<string>): set<string>
  {
    set n | n in names
  }

  /** The slots of some names, in either spelling. */
  function Slots(names: set<string>): set<Seg>
  {
    (set n | n in names :: Slot(n, false)) + (set n | n in names :: Slot(n, true))
  }

  lemma BothReplaced(t: seq<Seg>, known: Known, done: set<Seg>, k: string)
    requires known(k).Some? && Clean(Filled(t, known)) && CleanNames(t)
    ensures ReplaceBoth(Render(t, known, done), k, known(k).value)
            == Render(t, known, done + {Slot(k, false)} + {Slot(k, true)})
  {
    SpellingReplaced(t, known, done, Slot(k, false));
    SpellingReplaced(t, known, done + {Slot(k, false)}, Slot(k, true));
  }

  lemma SlotsCons(done: set<Seg>, names: seq<string>)
    requires names != []
    ensures done + {Slot(names[0], false)} + {Slot(names[0], true)} + Slots(Elements(names[1..]))
            == done + Slots(Elements(names))
  {
    assert names == [names[0]] + names[1..];
    assert Elements(names) == {names[0]} + Elements(names[1..]);
  }

  /** In whatever order the names come, the result is one simultaneous substitution, of both spellings. */
  lemma {:induction false} NamesReplaced(t: seq<Seg>, names: seq<string>, known: Known, done: set<Seg>)
    requires (forall n <- names :: known(n).Some?) && Clean(Filled(t, known)) && CleanNames(t)
    ensures ReplaceNames(Render(t, known, done), names, known) == Render(t, known, done + Slots(Elements(names)))
    decreases |names|
  {
    if names == [] {
      assert done + Slots(Elements(names)) == done;
    } else {
      var k := names[0];
      var plain := done + {Slot(k, false)};
      BothReplaced(t, known, done, k);
      NamesReplaced(t, names[1..], known, plain + {Slot(k, true)});
      SlotsCons(done, names);
    }
  }

  // ---- The file on disk -----------------------------------------------------

  /** json.Unmarshal into a map of raw values: an error, null, or the members. */
  datatype Decoded = Invalid | Null | Object(members: map<string, string>)

  type Decoder = string -> Decoded

  function MembersOf(d: Decoded): map<string, string>
  {
    if d.Object? then d.members else map[]
  }

  function EnvOf(current: string, decode: Decoder): map<string, string>
  {
    var obj := MembersOf(decode(current));
    if "env" in obj then MembersOf(decode(obj["env"])) else map[]
  }

  /** What each placeholder's name stands for. */
  function KnownIn(current: string, decode: Decoder): Known
  {
    var obj, env := MembersOf(decode(current)), EnvOf(current, decode);
    name =>
      if name == "apiKeyHelper" then (if name in obj then Some(obj[name]) else None)
      else if "env." <= name && name[4..] in env then Some(env[name[4..]])
      else None
  }

  /** The env map is iterated in some order. */
  ghost predicate Enumerates(keys: seq<string>, all: set<string>)
  {
    Elements(keys) == all && |keys| == |all|
  }

  function EnvNames(keys: seq<string>): (names: seq<string>)
    ensures |names| == |keys| && forall i :: 0 <= i < |keys| ==> names[i] == "env." + keys[i]
  {
    if keys == [] then [] else ["env." + keys[0]] + EnvNames(keys[1..])
  }

  function NamesIn(current: string, decode: Decoder, envOrder: seq<string>): (names: seq<string>)
    requires Elements(envOrder) == EnvOf(current, decode).Keys
    ensures forall n <- names :: KnownIn(current, decode)(n).Some?
  {
    var helper := if "apiKeyHelper" in MembersOf(decode(current)) then ["apiKeyHelper"] else [];
    EnvNamesKnown(current, decode, envOrder);
    EnvNames(envOrder) + helper
  }

  lemma EnvNamesKnown(current: string, decode: Decoder, envOrder: seq<string>)
    requires Elements(envOrder) == EnvOf(current, decode).Keys
    ensures forall n <- EnvNames(envOrder) :: KnownIn(current, decode)(n).Some?
  {
    var names := EnvNames(envOrder);
    forall n | n in names ensures KnownIn(current, decode)(n).Some? {
      var i :| 0 <= i < |names| && names[i] == n;
      assert envOrder[i] in Elements(envOrder) && n[4..] == envOrder[i] && n[0] == 'e';
    }
  }

  function Outcome(text: string): Result<string, string>
  {
    if Contains(Unescaped(text), HIDDEN) then Err(FirstHidden(Unescaped(text))) else Ok(text)
  }

  /** The text to write, or the placeholder that has no value behind it. */
  function Restored(submitted: string, current: string, decode: Decoder, envOrder: seq<string>): Result<string, string>
    requires Elements(envOrder) == EnvOf(current, decode).Keys
  {
    if !StillHidden(submitted) then Ok(submitted)
    else Outcome(ReplaceNames(submitted, NamesIn(current, decode, envOrder), KnownIn(current, decode)))
  }

  lemma {:induction false} ReplaceNamesAppend(text: string, a: seq<string>, b: seq<string>, known: Known)
    requires (forall n <- a :: known(n).Some?) && (forall n <- b :: known(n).Some?)
    ensures forall n <- a + b :: known(n).Some?
    ensures ReplaceNames(text, a + b, known) == ReplaceNames(ReplaceNames(text, a, known), b, known)
    decreases |a|
  {
    if a == [] {
      assert a + b == b;
    } else {
      assert (a + b)[1..] == a[1..] + b;
      ReplaceNamesAppend(ReplaceBoth(text, a[0], known(a[0]).value), a[1..], b, known);
    }
  }

  method ReplacePlaceholder(submitted: string, name: string, value: string) returns (text: string)
    ensures text == ReplaceBoth(submitted, name, value)
  {
    text := ReplaceAll(submitted, Placeholder(name, false), value);
    text := ReplaceAll(text, Placeholder(name, true), value);
  }

  lemma OneMoreName(text: string, names: seq<string>, i: nat, known: Known)
    requires i < |names| && forall n <- names :: known(n).Some?
    ensures ReplaceNames(text, names[..i + 1], known)
            == ReplaceBoth(ReplaceNames(text, names[..i], known), names[i], known(names[i]).value)
  {
    assert names[..i + 1] == names[..i] + [names[i]];
    ReplaceNamesAppend(text, names[..i], [names[i]], known);
    assert [names[i]][1..] == [];
  }

  /** The replacement loop over the env map. */
  method RestoreEnv(submitted: string, env: map<string, string>, envOrder: seq<string>, ghost known: Known)
    returns (text: string)
    requires Elements(envOrder) == env.Keys && forall k <- env :: known("env." + k) == Some(env[k])
    ensures forall n <- EnvNames(envOrder) :: known(n).Some?
    ensures text == ReplaceNames(submitted, EnvNames(envOrder), known)
  {
    text := submitted;
    ghost var names := EnvNames(envOrder);
    assert forall i :: 0 <= i < |envOrder| ==> envOrder[i] in Elements(envOrder);
    assert forall i :: 0 <= i < |names| ==> known(names[i]).Some?;
    for i := 0 to |envOrder|
      invariant text == ReplaceNames(submitted, names[..i], known)
    {
      var k := envOrder[i];
      OneMoreName(submitted, names, i, known);
      text := ReplacePlaceholder(text, "env." + k, env[k]);
    }
    assert names[..|envOrder|] == names;
  }

  /** Every placeholder the current document has a value for, replaced by it. */
  method RestoreNames(submitted: string, current: string, decode: Decoder, envOrder: seq<string>) returns (text: string)
    requires Elements(envOrder) == EnvOf(current, decode).Keys
    ensures text == ReplaceNames(submitted, NamesIn(current, decode, envOrder), KnownIn(current, decode))
  {
    var obj := MembersOf(decode(current));
    var env := if "env" in obj then MembersOf(decode(obj["env"])) else map[];
    ghost var known := KnownIn(current, decode);
    EnvIsKnown(current, decode);
    text := RestoreEnv(submitted, env, envOrder, known);
    if "apiKeyHelper" in obj {
      text := ReplacePlaceholder(text, "apiKeyHelper", obj["apiKeyHelper"]);
      HelperLast(submitted, EnvNames(envOrder), known);
    } else {
      assert EnvNames(envOrder) + [] == EnvNames(envOrder);
    }
  }

  /** A save never writes a placeholder; a text without any is written as it is. */
  method RestoreHidden(submitted: string, current: string, decode: Decoder, envOrder: seq<string>)
    returns (r: Result<string, string>)
    requires Elements(envOrder) == EnvOf(current, decode).Keys
    ensures r == Restored(submitted, current, decode, envOrder)
    ensures r.Ok? ==> Clean(r.value)
    ensures r.Err? ==> HIDDEN <= r.error
    ensures Clean(submitted) ==> r == Ok(submitted)
  {
    if !Contains(submitted, HIDDEN) && !Contains(submitted, HIDDEN_ESCAPED) {
      return Ok(submitted);
    }
    var text := RestoreNames(submitted, current, decode, envOrder);
    UnescapedFinds(text);
    if Contains(Unescaped(text), HIDDEN) {
      return Err(FirstHidden(Unescaped(text)));
    }
    return Ok(text);
  }

  lemma EnvIsKnown(current: string, decode: Decoder)
    ensures var env, known := EnvOf(current, decode), KnownIn(current, decode);
            forall k :: k in env ==> known("env." + k) == Some(env[k])
  {
    var env, known := EnvOf(current, decode), KnownIn(current, decode);
    forall k | k in env
      ensures known("env." + k) == Some(env[k])
    {
      assert ("env." + k)[4..] == k && ("env." + k)[0] == 'e';
    }
  }

  lemma HelperLast(text: string, names: seq<string>, known: Known)
    requires (forall n <- names :: known(n).Some?) && known("apiKeyHelper").Some?
    ensures forall n <- names + ["apiKeyHelper"] :: known(n).Some?
    ensures ReplaceNames(text, names + ["apiKeyHelper"], known)
            == ReplaceBoth(ReplaceNames(text, names, known), "apiKeyHelper", known("apiKeyHelper").value)
  {
    ReplaceNamesAppend(text, names, ["apiKeyHelper"], known);
    assert ["apiKeyHelper"][1..] == [];
  }
}
