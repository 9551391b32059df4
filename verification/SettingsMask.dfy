/**
 The masked view of a settings document, and what saving it does
 (webmanager/backend/internal/claudecode/settingsmask.go). Decoding JSON, indenting a value
 that is not masked, and the order in which an object's keys are printed are parameters.
 */
module SettingsMask {
  import opened Wrappers
  import opened SettingsText
  import opened SettingsRestore
  import opened SettingsView
  import Splitting

  // ---- Masking --------------------------------------------------------------

  /** The loop over the env map. */
  method MaskEnv(env: map<string, string>, envOrder: seq<string>) returns (nodes: map<string, seq<Seg>>)
    requires Enumerates(envOrder, env.Keys)
    ensures nodes == EnvNodes(env)
  {
    nodes := map k | k in env :: [Lit(env[k])];
    for i := 0 to |envOrder|
      invariant nodes.Keys == env.Keys
      invariant forall j :: 0 <= j < i ==>
                  envOrder[j] in nodes && nodes[envOrder[j]] == [Slot("env." + envOrder[j], false)]
    {
      var k := envOrder[i];
      assert k in Elements(envOrder);
      nodes := nodes[k := [Slot("env." + k, false)]];
    }
    forall k | k in env ensures nodes[k] == [Slot("env." + k, false)] {
      assert k in Elements(envOrder);
      var j :| 0 <= j < |envOrder| && envOrder[j] == k;
    }
  }

  method MaskEnvMember(env: Decoded, order: Order) returns (node: seq<Seg>)
    requires IsOrder(order) && !env.Invalid?
    ensures node == EnvSegs(env, order)
  {
    if env.Object? {
      var envNodes := MaskEnv(env.members, order(env.members.Keys));
      return ObjectSegs(envNodes, order, "  ");
    }
    return [Lit("null")];
  }

  /** A view without one credential, or nothing. */
  method MaskSettings(raw: string, decode: Decoder, pretty: string -> string, order: Order)
    returns (masked: string, ok: bool)
    requires IsOrder(order)
    ensures ok <==> Maskable(raw, decode)
    ensures masked == if ok then Masked(DocSegs(raw, decode, pretty, order)) else ""
    ensures ok ==> masked == View(raw, decode, pretty, order)
  {
    var decoded := decode(raw);
    if decoded.Invalid? {
      return "", false;
    }
    if decoded.Null? {
      ViewIsPrinted(raw, decode, pretty, order);
      return Masked([Lit("null")] + [Lit("\n")]), true;
    }
    var obj := decoded.members;
    var nodes := map k | k in obj :: [Lit(pretty(obj[k]))];
    if "env" in obj {
      var env := decode(obj["env"]);
      if env.Invalid? {
        return "", false;
      }
      var maskedEnv := MaskEnvMember(env, order);
      nodes := nodes["env" := maskedEnv];
    }
    if "apiKeyHelper" in obj {
      nodes := nodes["apiKeyHelper" := [Slot("apiKeyHelper", false)]];
    }
    assert nodes == DocNodes(obj, decode, pretty, order);
    ViewIsPrinted(raw, decode, pretty, order);
    return Masked(ObjectSegs(nodes, order, "") + [Lit("\n")]), true;
  }

  /** Two documents that differ in credentials only have the same view. */
  lemma ViewHidesCredentials(raw: string, raw': string, decode: Decoder, pretty: string -> string, order: Order)
    requires IsOrder(order) && decode(raw).Object? && decode(raw').Object?
    requires var obj, obj' := decode(raw).members, decode(raw').members;
             && obj.Keys == obj'.Keys
             && (forall k <- obj :: k != "env" && k != "apiKeyHelper" ==> obj[k] == obj'[k])
             && ("env" in obj ==>
                   && decode(obj["env"]).Object? && decode(obj'["env"]).Object?
                   && decode(obj["env"]).members.Keys == decode(obj'["env"]).members.Keys)
    ensures Masked(DocSegs(raw, decode, pretty, order)) == Masked(DocSegs(raw', decode, pretty, order))
  {
    var obj, obj' := decode(raw).members, decode(raw').members;
    if "env" in obj {
      assert EnvNodes(decode(obj["env"]).members) == EnvNodes(decode(obj'["env"]).members);
    }
    assert DocNodes(obj, decode, pretty, order) == DocNodes(obj', decode, pretty, order);
  }

  // ---- Saving the view ------------------------------------------------------

  lemma {:induction false} MaskedIsRender(t: seq<Seg>, known: Known)
    ensures Masked(t) == Render(t, known, {})
    decreases |t|
  {
    if t != [] { MaskedIsRender(t[1..], known); }
  }

  lemma {:induction false} AllInPlace(t: seq<Seg>, known: Known, done: set<Seg>)
    requires AllKnown(t, known) && forall x <- t :: x.Slot? ==> x in done
    ensures Render(t, known, done) == Filled(t, known)
    decreases |t|
  {
    if t != [] { AllInPlace(t[1..], known, done); }
  }

  lemma AfterFirstQuote(m: string, tail: string, rest: string)
    ensures Occurs("\"" + m + tail + rest, m)
  {
    assert ("\"" + m + tail + rest)[1..][..|m|] == m;
    assert m <= ("\"" + m + tail + rest)[1..];
  }

  lemma PlaceholderHidden(k: Seg, rest: string)
    requires k.Slot?
    ensures StillHidden(Placeholder(k.name, k.html) + rest)
  {
    PlaceholderParts(k.name, k.html);
    AfterFirstQuote(Mark(k.html), Tail(k.name, k.html), rest);
  }

  lemma {:induction false} OneLeft(t: seq<Seg>, known: Known, done: set<Seg>, k: Seg)
    requires k in t && k.Slot? && !(k in done && known(k.name).Some?)
    ensures StillHidden(Render(t, known, done))
    decreases |t|
  {
    var rest := Render(t[1..], known, done);
    if t[0] == k {
      PlaceholderHidden(k, rest);
    } else {
      OneLeft(t[1..], known, done, k);
      OccursAfter(Piece(t[0], known, done), rest, HIDDEN);
      OccursAfter(Piece(t[0], known, done), rest, HIDDEN_ESCAPED);
    }
  }

  /**
   Saving any text made of fixed pieces and placeholders: exactly when each placeholder's
   name still has a value, the result is that text with every value in its place; whatever
   order the env map was iterated in.
   */
  lemma RestoreIsSubstitution(t: seq<Seg>, current: string, decode: Decoder, envOrder: seq<string>)
    requires Elements(envOrder) == EnvOf(current, decode).Keys
    requires Clean(Filled(t, KnownIn(current, decode))) && CleanNames(t)
    ensures var known := KnownIn(current, decode);
            var r := Restored(Masked(t), current, decode, envOrder);
            if AllKnown(t, known) then r == Ok(Filled(t, known)) else r.Err?
  {
    var known, names := KnownIn(current, decode), NamesIn(current, decode, envOrder);
    MaskedIsRender(t, known);
    NamesReplaced(t, names, known, {});
    var done := Slots(Elements(names));
    assert {} + done == done;
    KnownAreNamed(current, decode, envOrder);
    var text := Render(t, known, done);
    UnescapedFinds(text);
    if AllKnown(t, known) {
      AllInPlace(t, known, done);
      if forall x <- t :: x.Lit? {
        AllInPlace(t, known, {});
      } else {
        var x :| x in t && x.Slot?;
        OneLeft(t, known, {}, x);
      }
    } else {
      var x :| x in t && x.Slot? && known(x.name).None?;
      OneLeft(t, known, {}, x);
      OneLeft(t, known, done, x);
    }
  }

  lemma KnownAreNamed(current: string, decode: Decoder, envOrder: seq<string>)
    requires Elements(envOrder) == EnvOf(current, decode).Keys
    ensures forall n :: KnownIn(current, decode)(n).Some? ==> n in Elements(NamesIn(current, decode, envOrder))
  {
    forall n | KnownIn(current, decode)(n).Some? ensures n in Elements(NamesIn(current, decode, envOrder)) {
      if n != "apiKeyHelper" {
        assert n[4..] in Elements(envOrder);
        var i :| 0 <= i < |envOrder| && envOrder[i] == n[4..];
        assert EnvNames(envOrder)[i] == "env." + n[4..] == n;
      }
    }
  }

  lemma {:induction false} FilledAppend(a: seq<Seg>, b: seq<Seg>, known: Known)
    ensures Filled(a + b, known) == Filled(a, known) + Filled(b, known)
    decreases |a|
  {
    if a == [] {
      assert a + b == b;
    } else {
      assert (a + b)[1..] == a[1..] + b;
      FilledAppend(a[1..], b, known);
    }
  }

  lemma CleanParts(a: string, b: string)
    requires Clean(a + b)
    ensures Clean(a) && Clean(b)
  {
    OccursBefore(a, b, HIDDEN);
    OccursBefore(a, b, HIDDEN_ESCAPED);
    OccursAfter(a, b, HIDDEN);
    OccursAfter(a, b, HIDDEN_ESCAPED);
  }

  /** Cleanness of a concatenation, part by part. */
  lemma CleanSegs(a: seq<Seg>, b: seq<Seg>, known: Known)
    requires Clean(Filled(a + b, known))
    ensures Clean(Filled(a, known)) && Clean(Filled(b, known))
    ensures CleanNames(a) && CleanNames(b) ==> CleanNames(a + b)
  {
    FilledAppend(a, b, known);
    CleanParts(Filled(a, known), Filled(b, known));
  }

  /** Every name of the part is clean and known, if the part is clean with its values in place. */
  ghost predicate Sound(t: seq<Seg>, known: Known)
  {
    Clean(Filled(t, known)) ==> CleanNames(t) && AllKnown(t, known)
  }

  lemma SoundAppend(a: seq<Seg>, b: seq<Seg>, known: Known)
    requires Sound(a, known) && Sound(b, known)
    ensures Sound(a + b, known)
  {
    if Clean(Filled(a + b, known)) {
      CleanSegs(a, b, known);
      FilledAppend(a, b, known);
    }
  }

  lemma SoundLit(x: string, known: Known)
    ensures Sound([Lit(x)], known)
  {
    assert [Lit(x)][1..] == [];
  }

  predicate Letter(c: char)
  {
    'a' <= c <= 'z' || 'A' <= c <= 'Z' || c == '.'
  }

  ghost predicate Letters(p: string)
  {
    forall i :: 0 <= i < |p| ==> Letter(p[i])
  }

  lemma LetterItself(c: char, x: string)
    requires Letter(c)
    ensures Esc([c] + x, false) == [c] + Esc(x, false)
  {
    assert ([c] + x)[1..] == x;
  }

  lemma {:induction false} LettersAsTheyAre(p: string, x: string)
    requires Letters(p)
    ensures Esc(p + x, false) == p + Esc(x, false)
    decreases |p|
  {
    if p == "" {
      assert p + x == x && "" + Esc(x, false) == Esc(x, false);
    } else {
      var c, t := p[0], p[1..];
      assert p == [c] + t;
      Splitting.Regroup([c], t, x);
      Splitting.Regroup([c], t, Esc(x, false));
      LetterItself(c, t + x);
      LettersAsTheyAre(t, x);
    }
  }

  lemma LettersClean(p: string, x: string)
    requires Letters(p) && Clean(x)
    ensures Clean(p + x)
  {
    ContainsPast(p + x, |p|, HIDDEN);
    ContainsPast(p + x, |p|, HIDDEN_ESCAPED);
    assert (p + x)[|p|..] == x;
  }

  lemma OneSlot(n: string, known: Known)
    ensures Filled([Slot(n, false)], known) == if known(n).Some? then known(n).value else "\""
  {
    assert [Slot(n, false)][1..] == [];
  }

  /** A placeholder's beginning does not reach into the bracket after a name. */
  lemma BracketClean(name: string)
    requires Clean(Esc(name, false))
    ensures Clean(Esc(name + ">", false))
  {
    var e := Esc(name, false);
    EscAppend(name, ">", false);
    EscOne('>', false);
    NoBracket();
    NotPastBracket(e, HIDDEN);
    NotPastBracket(e, HIDDEN_ESCAPED);
  }

  lemma NoBracket()
    ensures '>' !in HIDDEN && '>' !in HIDDEN_ESCAPED && HIDDEN != "" && HIDDEN_ESCAPED != ""
  {
  }

  lemma NotPastBracket(e: string, m: string)
    requires m != "" && '>' !in m
    ensures Occurs(e + ">", m) ==> Occurs(e, m)
  {
    var s := e + ">";
    forall i | 0 <= i <= |s| && m <= s[i..] ensures Occurs(e, m) {
      assert s[i..][|m| - 1] == s[i + |m| - 1] == m[|m| - 1];
      assert m[|m| - 1] in m;
      assert s[|e|] == '>';
      assert e[i..][..|m|] == s[i..][..|m|] == m;
      assert m <= e[i..];
    }
  }

  lemma LettersNameClean(p: string)
    requires Letters(p)
    ensures Clean(Esc(p + ">", false))
  {
    LettersAsTheyAre(p, "");
    LettersClean(p, "");
    assert p + "" == p;
    BracketClean(p);
  }

  lemma SlotSound(n: string, known: Known)
    requires known(n).Some? && Clean(Esc(n + ">", false))
    ensures Sound([Slot(n, false)], known)
  {
    OneSlot(n, known);
  }

  lemma HelperSound(n: string, known: Known)
    requires n == "apiKeyHelper" && known(n).Some?
    ensures Sound([Slot(n, false)], known)
  {
    assert Letters(n);
    LettersNameClean(n);
    SlotSound(n, known);
  }

  /** An env key is printed before its slot: if the text is clean, so is the name. */
  lemma EnvMemberSound(k: string, pad: string, known: Known)
    requires known("env." + k).Some?
    ensures Sound([Lit(pad + Quote(k) + ": ")] + [Slot("env." + k, false)], known)
  {
    var key, n := pad + Quote(k) + ": ", "env." + k;
    var t := [Lit(key)] + [Slot(n, false)];
    FilledAppend([Lit(key)], [Slot(n, false)], known);
    OneSlot(n, known);
    assert [Lit(key)][1..] == [] && Filled([Lit(key)], known) == key;
    if Clean(Filled(t, known)) {
      CleanParts(key, Filled([Slot(n, false)], known));
      var e := Esc(k, false);
      assert key == (pad + "\"") + (e + "\": ");
      CleanParts(pad + "\"", e + "\": ");
      CleanParts(e, "\": ");
      LettersAsTheyAre("env.", k);
      LettersClean("env.", e);
      BracketClean(n);
    }
  }

  lemma {:induction false} MembersSound(keys: seq<string>, nodes: map<string, seq<Seg>>, pad: string, known: Known)
    requires forall k <- keys :: k in nodes && Sound([Lit(pad + Quote(k) + ": ")] + nodes[k], known)
    ensures Sound(MemberSegs(keys, nodes, pad), known)
    decreases |keys|
  {
    if keys != [] {
      var k := keys[0];
      var key, sep := [Lit(pad + Quote(k) + ": ")], if |keys| == 1 then "\n" else ",\n";
      var rest := MemberSegs(keys[1..], nodes, pad);
      MembersUnfold(keys, nodes, pad);
      MembersSound(keys[1..], nodes, pad, known);
      SoundLit(sep, known);
      SoundAppend([Lit(sep)], rest, known);
      SoundAppend(key + nodes[k], [Lit(sep)] + rest, known);
    } else {
      assert MemberSegs(keys, nodes, pad) == [];
    }
  }

  lemma ObjectSound(nodes: map<string, seq<Seg>>, order: Order, pad: string, known: Known)
    requires Enumerates(order(nodes.Keys), nodes.Keys)
    requires forall k <- nodes :: Sound([Lit(pad + "  " + Quote(k) + ": ")] + nodes[k], known)
    ensures Sound(ObjectSegs(nodes, order, pad), known)
  {
    var keys := order(nodes.Keys);
    assert forall k <- keys :: k in Elements(keys);
    if nodes == map[] {
      SoundLit("{}", known);
    } else {
      MembersSound(keys, nodes, pad + "  ", known);
      SoundLit("{\n", known);
      SoundLit(pad + "}", known);
      SoundAppend([Lit("{\n")], MemberSegs(keys, nodes, pad + "  "), known);
      SoundAppend([Lit("{\n")] + MemberSegs(keys, nodes, pad + "  "), [Lit(pad + "}")], known);
    }
  }

  lemma EnvSound(env: map<string, string>, order: Order, known: Known)
    requires IsOrder(order) && forall k <- env :: known("env." + k).Some?
    ensures Sound(ObjectSegs(EnvNodes(env), order, "  "), known)
  {
    var nodes, pad := EnvNodes(env), "  ";
    forall k | k in nodes ensures Sound([Lit(pad + "  " + Quote(k) + ": ")] + nodes[k], known) {
      EnvMemberSound(k, pad + "  ", known);
    }
    ObjectSound(nodes, order, pad, known);
  }

  lemma DocNodeSound(k: string, raw: string, decode: Decoder, pretty: string -> string, order: Order)
    requires IsOrder(order) && decode(raw).Object? && k in decode(raw).members
    ensures Sound(DocNodes(decode(raw).members, decode, pretty, order)[k], KnownIn(raw, decode))
  {
    var obj, known := decode(raw).members, KnownIn(raw, decode);
    if k == "env" {
      var env := decode(obj[k]);
      if env.Object? {
        forall n | n in env.members ensures known("env." + n).Some? {
          assert ("env." + n)[4..] == n && ("env." + n)[0] == 'e';
        }
        EnvSound(env.members, order, known);
      } else {
        SoundLit("null", known);
      }
    } else if k == "apiKeyHelper" {
      HelperSound(k, known);
    } else {
      SoundLit(pretty(obj[k]), known);
    }
  }

  lemma DocSound(raw: string, decode: Decoder, pretty: string -> string, order: Order)
    requires IsOrder(order)
    ensures Sound(DocSegs(raw, decode, pretty, order), KnownIn(raw, decode))
  {
    var known := KnownIn(raw, decode);
    SoundLit("\n", known);
    match decode(raw)
    case Object(obj) =>
      var nodes := DocNodes(obj, decode, pretty, order);
      forall k | k in nodes ensures Sound([Lit("" + "  " + Quote(k) + ": ")] + nodes[k], known) {
        DocNodeSound(k, raw, decode, pretty, order);
        SoundLit("" + "  " + Quote(k) + ": ", known);
        SoundAppend([Lit("" + "  " + Quote(k) + ": ")], nodes[k], known);
      }
      ObjectSound(nodes, order, "", known);
      SoundAppend(ObjectSegs(nodes, order, ""), [Lit("\n")], known);
    case _ =>
      SoundLit("null", known);
      SoundAppend([Lit("null")], [Lit("\n")], known);
  }

  /** What is written holds no placeholder, in either spelling. */
  lemma NeverWritesPlaceholder(submitted: string, current: string, decode: Decoder, envOrder: seq<string>)
    requires Elements(envOrder) == EnvOf(current, decode).Keys
    ensures var r := Restored(submitted, current, decode, envOrder); r.Ok? ==> !StillHidden(r.value)
  {
    if StillHidden(submitted) {
      UnescapedFinds(ReplaceNames(submitted, NamesIn(current, decode, envOrder), KnownIn(current, decode)));
    }
  }

  /**
   Saving the view unedited writes the document, printed with all its values, exactly when
   the beginning of a placeholder does not occur in the document itself; otherwise it cannot
   be saved so.
   */
  lemma UneditedViewRestores(raw: string, decode: Decoder, pretty: string -> string, order: Order,
                             envOrder: seq<string>)
    requires IsOrder(order) && Elements(envOrder) == EnvOf(raw, decode).Keys
    ensures var printed := Printed(raw, decode, pretty, order);
            Restored(View(raw, decode, pretty, order), raw, decode, envOrder) == Ok(printed) <==> !StillHidden(printed)
  {
    var t := DocSegs(raw, decode, pretty, order);
    ViewIsPrinted(raw, decode, pretty, order);
    ShownIsPrinted(raw, decode, pretty, order);
    NeverWritesPlaceholder(Masked(t), raw, decode, envOrder);
    if !StillHidden(Shown(raw, decode, pretty, order)) {
      DocSound(raw, decode, pretty, order);
      RestoreIsSubstitution(t, raw, decode, envOrder);
    }
  }

  /** The decoder reads a printed object back as its members, each with the text that was printed. */
  ghost predicate ReadsBack(decode: Decoder, order: Order, values: map<string, string>, pad: string, end: string)
    requires IsOrder(order)
  {
    decode(ObjectText(values, order, pad) + end) == Object(values)
  }

  /**
   So what is on disk after an unedited save has the same members with the same values: the
   variables and the helper to the letter, the others indented. (The decoder is one that
   reads back what was printed.)
   */
  lemma SavedHasTheSameMembers(raw: string, decode: Decoder, pretty: string -> string, order: Order,
                               envOrder: seq<string>)
    requires IsOrder(order) && Elements(envOrder) == EnvOf(raw, decode).Keys
    requires decode(raw).Object? && decode("null") == Null
    requires !StillHidden(Printed(raw, decode, pretty, order))
    requires ReadsBack(decode, order, DocValues(decode(raw).members, decode, pretty, order), "", "\n")
    requires ReadsBack(decode, order, EnvOf(raw, decode), "  ", "")
    ensures var r := Restored(View(raw, decode, pretty, order), raw, decode, envOrder);
            && r.Ok? && decode(r.value).Object?
            && var obj, saved := decode(raw).members, decode(r.value).members;
            && saved.Keys == obj.Keys
            && (forall k <- obj :: k != "env" && k != "apiKeyHelper" ==> saved[k] == pretty(obj[k]))
            && ("apiKeyHelper" in obj ==> saved["apiKeyHelper"] == obj["apiKeyHelper"])
            && ("env" in obj && !decode(obj["env"]).Invalid? ==> decode(saved["env"]) == decode(obj["env"]))
  {
    UneditedViewRestores(raw, decode, pretty, order, envOrder);
    var obj := decode(raw).members;
    if "env" in obj && decode(obj["env"]).Object? {
      var text := ObjectText(EnvOf(raw, decode), order, "  ");
      assert text + "" == text;
    }
  }
}
