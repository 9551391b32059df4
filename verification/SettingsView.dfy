/**
 The masked view of a settings document (`MaskSettings` in
 webmanager/backend/internal/claudecode/settingsmask.go) as a text with slots for the
 credentials, and the same text printed member by member. Decoding JSON, indenting a value
 that is not masked, and the order in which an object's keys are printed are parameters.
 */
module SettingsView {
  import opened Wrappers
  import opened SettingsText
  import opened SettingsRestore
  import Splitting

  // ---- With slots for the credentials ----------------------------------------

  type Order = set<string> -> seq<string>

  ghost predicate IsOrder(order: Order)
  {
    forall keys :: Enumerates(order(keys), keys)
  }

  /** The members of an object, one a line. */
  function MemberSegs(keys: seq<string>, nodes: map<string, seq<Seg>>, pad: string): seq<Seg>
    requires forall k <- keys :: k in nodes
  {
    if keys == [] then []
    else
      [Lit(pad + Quote(keys[0]) + ": ")] + nodes[keys[0]] + [Lit(if |keys| == 1 then "\n" else ",\n")]
      + MemberSegs(keys[1..], nodes, pad)
  }

  /** encoding/json with SetIndent("", "  "), at a depth */
  function ObjectSegs(nodes: map<string, seq<Seg>>, order: Order, pad: string): seq<Seg>
    requires Enumerates(order(nodes.Keys), nodes.Keys)
  {
    assert forall k <- order(nodes.Keys) :: k in Elements(order(nodes.Keys));
    if nodes == map[] then [Lit("{}")]
    else [Lit("{\n")] + MemberSegs(order(nodes.Keys), nodes, pad + "  ") + [Lit(pad + "}")]
  }

  function EnvNodes(env: map<string, string>): map<string, seq<Seg>>
  {
    map k | k in env :: [Slot("env." + k, false)]
  }

  /** The env member of the view. */
  function EnvSegs(env: Decoded, order: Order): seq<Seg>
    requires IsOrder(order)
  {
    match env
    case Object(members) => ObjectSegs(EnvNodes(members), order, "  ")
    case _ => [Lit("null")]
  }

  function DocNodes(obj: map<string, string>, decode: Decoder, pretty: string -> string, order: Order)
    : map<string, seq<Seg>>
    requires IsOrder(order)
  {
    map k | k in obj ::
      if k == "env" then EnvSegs(decode(obj[k]), order)
      else if k == "apiKeyHelper" then [Slot("apiKeyHelper", false)]
      else [Lit(pretty(obj[k]))]
  }

  /** Whether a document can be masked: an object whose env, if any, is one too. */
  predicate Maskable(raw: string, decode: Decoder)
  {
    match decode(raw)
    case Invalid => false
    case Null => true
    case Object(obj) => "env" in obj ==> !decode(obj["env"]).Invalid?
  }

  function DocSegs(raw: string, decode: Decoder, pretty: string -> string, order: Order): seq<Seg>
    requires IsOrder(order)
  {
    (match decode(raw)
     case Object(obj) => ObjectSegs(DocNodes(obj, decode, pretty, order), order, "")
     case _ => [Lit("null")]) + [Lit("\n")]
  }

  /** The document with its values shown: the same printing, each value where its placeholder was. */
  function Shown(raw: string, decode: Decoder, pretty: string -> string, order: Order): string
    requires IsOrder(order)
  {
    Filled(DocSegs(raw, decode, pretty, order), KnownIn(raw, decode))
  }

  // ---- The same, printed value by value -------------------------------------

  /** The members of an object, one a line, each with the text of its value. */
  function MemberLines(keys: seq<string>, values: map<string, string>, pad: string): string
    requires forall k <- keys :: k in values
  {
    if keys == [] then ""
    else
      pad + Quote(keys[0]) + ": " + values[keys[0]] + (if |keys| == 1 then "\n" else ",\n")
      + MemberLines(keys[1..], values, pad)
  }

  function ObjectText(values: map<string, string>, order: Order, pad: string): string
    requires IsOrder(order)
  {
    assert forall k <- order(values.Keys) :: k in Elements(order(values.Keys));
    if values == map[] then "{}" else "{\n" + MemberLines(order(values.Keys), values, pad + "  ") + pad + "}"
  }

  function EnvText(env: Decoded, order: Order): string
    requires IsOrder(order)
  {
    if env.Object? then ObjectText(env.members, order, "  ") else "null"
  }

  /** The document's members: env printed anew, the helper as it stands, the others indented. */
  function DocValues(obj: map<string, string>, decode: Decoder, pretty: string -> string, order: Order)
    : map<string, string>
    requires IsOrder(order)
  {
    map k | k in obj ::
      if k == "env" then EnvText(decode(obj[k]), order) else if k == "apiKeyHelper" then obj[k] else pretty(obj[k])
  }

  /** The document, printed with all its values. */
  function Printed(raw: string, decode: Decoder, pretty: string -> string, order: Order): string
    requires IsOrder(order)
  {
    (if decode(raw).Object? then ObjectText(DocValues(decode(raw).members, decode, pretty, order), order, "")
     else "null") + "\n"
  }

  /** The values of env and the helper with their placeholders for text. */
  function HiddenEnv(env: Decoded): Decoded
  {
    if env.Object? then Object(map k | k in env.members :: Placeholder("env." + k, false)) else env
  }

  function HiddenValues(obj: map<string, string>, decode: Decoder, pretty: string -> string, order: Order)
    : map<string, string>
    requires IsOrder(order)
  {
    map k | k in obj ::
      if k == "env" then EnvText(HiddenEnv(decode(obj[k])), order)
      else if k == "apiKeyHelper" then Placeholder(k, false)
      else pretty(obj[k])
  }

  /** The document, printed with placeholders. */
  function View(raw: string, decode: Decoder, pretty: string -> string, order: Order): string
    requires IsOrder(order)
  {
    (if decode(raw).Object? then ObjectText(HiddenValues(decode(raw).members, decode, pretty, order), order, "")
     else "null") + "\n"
  }

  /** What a piece is printed as. */
  type Printer = Seg -> string

  ghost predicate KeepsText(show: Printer)
  {
    forall x :: show(Lit(x)) == x
  }

  function Text(t: seq<Seg>, show: Printer): string
  {
    if t == [] then "" else show(t[0]) + Text(t[1..], show)
  }

  function Hide(): Printer
  {
    (x: Seg) => match x case Lit(text) => text case Slot(n, html) => Placeholder(n, html)
  }

  function Show(known: Known): Printer
  {
    (x: Seg) => match x case Lit(text) => text case Slot(n, _) => if known(n).Some? then known(n).value else "\""
  }

  lemma {:induction false} TextIsMasked(t: seq<Seg>)
    ensures Text(t, Hide()) == Masked(t)
    decreases |t|
  {
    if t != [] { TextIsMasked(t[1..]); }
  }

  lemma {:induction false} TextIsFilled(t: seq<Seg>, known: Known)
    ensures Text(t, Show(known)) == Filled(t, known)
    decreases |t|
  {
    if t != [] { TextIsFilled(t[1..], known); }
  }

  lemma {:induction false} TextAppend(a: seq<Seg>, b: seq<Seg>, show: Printer)
    ensures Text(a + b, show) == Text(a, show) + Text(b, show)
    decreases |a|
  {
    if a == [] {
      assert a + b == b;
    } else {
      assert (a + b)[1..] == a[1..] + b;
      TextAppend(a[1..], b, show);
    }
  }

  lemma OneText(x: Seg, show: Printer)
    ensures Text([x], show) == show(x)
  {
    assert [x][1..] == [];
  }

  function Texts(nodes: map<string, seq<Seg>>, show: Printer): map<string, string>
  {
    map k | k in nodes :: Text(nodes[k], show)
  }

  lemma MembersUnfold(keys: seq<string>, nodes: map<string, seq<Seg>>, pad: string)
    requires keys != [] && forall k <- keys :: k in nodes
    ensures var key, sep := [Lit(pad + Quote(keys[0]) + ": ")], [Lit(if |keys| == 1 then "\n" else ",\n")];
            MemberSegs(keys, nodes, pad) == (key + nodes[keys[0]]) + (sep + MemberSegs(keys[1..], nodes, pad))
  {
  }

  lemma LinesUnfold(keys: seq<string>, values: map<string, string>, pad: string)
    requires keys != [] && forall k <- keys :: k in values
    ensures var key, sep := pad + Quote(keys[0]) + ": ", if |keys| == 1 then "\n" else ",\n";
            MemberLines(keys, values, pad) == (key + values[keys[0]]) + (sep + MemberLines(keys[1..], values, pad))
  {
    var key, sep := pad + Quote(keys[0]) + ": ", if |keys| == 1 then "\n" else ",\n";
    Splitting.Regroup(key + values[keys[0]], sep, MemberLines(keys[1..], values, pad));
  }

  lemma MemberPrinted(key: Seg, node: seq<Seg>, sep: Seg, rest: seq<Seg>, show: Printer)
    ensures Text(([key] + node) + ([sep] + rest), show)
            == (show(key) + Text(node, show)) + (show(sep) + Text(rest, show))
  {
    TextAppend([key] + node, [sep] + rest, show);
    TextAppend([key], node, show);
    TextAppend([sep], rest, show);
    OneText(key, show);
    OneText(sep, show);
  }

  lemma {:induction false} MembersPrinted(keys: seq<string>, nodes: map<string, seq<Seg>>, pad: string, show: Printer)
    requires KeepsText(show) && forall k <- keys :: k in nodes
    ensures Text(MemberSegs(keys, nodes, pad), show) == MemberLines(keys, Texts(nodes, show), pad)
    decreases |keys|
  {
    if keys != [] {
      var key, sep := Lit(pad + Quote(keys[0]) + ": "), Lit(if |keys| == 1 then "\n" else ",\n");
      MembersUnfold(keys, nodes, pad);
      LinesUnfold(keys, Texts(nodes, show), pad);
      MembersPrinted(keys[1..], nodes, pad, show);
      MemberPrinted(key, nodes[keys[0]], sep, MemberSegs(keys[1..], nodes, pad), show);
    }
  }

  lemma ObjectPrinted(nodes: map<string, seq<Seg>>, order: Order, pad: string, show: Printer)
    requires KeepsText(show) && IsOrder(order) && Enumerates(order(nodes.Keys), nodes.Keys)
    ensures Text(ObjectSegs(nodes, order, pad), show) == ObjectText(Texts(nodes, show), order, pad)
  {
    assert Texts(nodes, show).Keys == nodes.Keys;
    if nodes == map[] {
      OneText(Lit("{}"), show);
    } else {
      var keys, inner := order(nodes.Keys), pad + "  ";
      assert forall k <- keys :: k in Elements(keys);
      MembersPrinted(keys, nodes, inner, show);
      TextAppend([Lit("{\n")] + MemberSegs(keys, nodes, inner), [Lit(pad + "}")], show);
      TextAppend([Lit("{\n")], MemberSegs(keys, nodes, inner), show);
      OneText(Lit("{\n"), show);
      OneText(Lit(pad + "}"), show);
    }
  }

  lemma EnvPrinted(env: map<string, string>, order: Order, show: Printer)
    requires KeepsText(show) && IsOrder(order)
    ensures Text(ObjectSegs(EnvNodes(env), order, "  "), show)
            == ObjectText(map k | k in env :: show(Slot("env." + k, false)), order, "  ")
  {
    ObjectPrinted(EnvNodes(env), order, "  ", show);
    var values := map k | k in env :: show(Slot("env." + k, false));
    forall k | k in env ensures Texts(EnvNodes(env), show)[k] == values[k] { OneText(Slot("env." + k, false), show); }
    assert Texts(EnvNodes(env), show) == values;
  }

  /** The document's members with each credential shown as `show` has it. */
  function ShownValues(obj: map<string, string>, decode: Decoder, pretty: string -> string, order: Order, show: Printer)
    : map<string, string>
    requires IsOrder(order)
  {
    map k | k in obj ::
      if k == "env" then
        var env := decode(obj[k]);
        if env.Object? then ObjectText(map n | n in env.members :: show(Slot("env." + n, false)), order, "  ")
          else "null"
      else if k == "apiKeyHelper" then show(Slot("apiKeyHelper", false))
      else pretty(obj[k])
  }

  lemma NodePrinted(obj: map<string, string>, decode: Decoder, pretty: string -> string, order: Order, show: Printer,
                    k: string)
    requires KeepsText(show) && IsOrder(order) && k in obj
    ensures Text(DocNodes(obj, decode, pretty, order)[k], show) == ShownValues(obj, decode, pretty, order, show)[k]
  {
    if k == "env" {
      var env := decode(obj[k]);
      if env.Object? { EnvPrinted(env.members, order, show); } else { OneText(Lit("null"), show); }
    } else if k == "apiKeyHelper" {
      OneText(Slot("apiKeyHelper", false), show);
    } else {
      OneText(Lit(pretty(obj[k])), show);
    }
  }

  lemma NodesPrinted(obj: map<string, string>, decode: Decoder, pretty: string -> string, order: Order, show: Printer)
    requires KeepsText(show) && IsOrder(order)
    ensures Texts(DocNodes(obj, decode, pretty, order), show) == ShownValues(obj, decode, pretty, order, show)
  {
    var nodes, values := DocNodes(obj, decode, pretty, order), ShownValues(obj, decode, pretty, order, show);
    var texts := Texts(nodes, show);
    forall k | k in obj ensures texts[k] == values[k] { NodePrinted(obj, decode, pretty, order, show, k); }
    assert texts.Keys == values.Keys;
  }

  lemma LinePrinted(t: seq<Seg>, show: Printer)
    requires KeepsText(show)
    ensures Text(t + [Lit("\n")], show) == Text(t, show) + "\n"
  {
    TextAppend(t, [Lit("\n")], show);
    OneText(Lit("\n"), show);
  }

  lemma DocPrinted(raw: string, decode: Decoder, pretty: string -> string, order: Order, show: Printer)
    requires KeepsText(show) && IsOrder(order)
    ensures Text(DocSegs(raw, decode, pretty, order), show)
            == (if decode(raw).Object?
                then ObjectText(ShownValues(decode(raw).members, decode, pretty, order, show), order, "")
                else "null") + "\n"
  {
    if decode(raw).Object? {
      var obj := decode(raw).members;
      var nodes := DocNodes(obj, decode, pretty, order);
      LinePrinted(ObjectSegs(nodes, order, ""), show);
      ObjectPrinted(nodes, order, "", show);
      NodesPrinted(obj, decode, pretty, order, show);
    } else {
      LinePrinted([Lit("null")], show);
      OneText(Lit("null"), show);
    }
  }

  lemma HiddenValue(obj: map<string, string>, decode: Decoder, pretty: string -> string, order: Order, k: string)
    requires IsOrder(order) && k in obj
    ensures HiddenValues(obj, decode, pretty, order)[k] == ShownValues(obj, decode, pretty, order, Hide())[k]
  {
    if k == "env" && decode(obj[k]).Object? {
      var env := decode(obj[k]).members;
      assert HiddenEnv(decode(obj[k])).members == map n | n in env :: Hide()(Slot("env." + n, false));
    }
  }

  /** The view is the document's members printed, with placeholders for the credentials. */
  lemma ViewIsPrinted(raw: string, decode: Decoder, pretty: string -> string, order: Order)
    requires IsOrder(order)
    ensures Masked(DocSegs(raw, decode, pretty, order)) == View(raw, decode, pretty, order)
  {
    TextIsMasked(DocSegs(raw, decode, pretty, order));
    DocPrinted(raw, decode, pretty, order, Hide());
    if decode(raw).Object? {
      var obj := decode(raw).members;
      var a, b := HiddenValues(obj, decode, pretty, order), ShownValues(obj, decode, pretty, order, Hide());
      forall k | k in obj ensures a[k] == b[k] { HiddenValue(obj, decode, pretty, order, k); }
      assert a == b;
    }
  }

  lemma DocValue(raw: string, decode: Decoder, pretty: string -> string, order: Order, k: string)
    requires IsOrder(order) && decode(raw).Object? && k in decode(raw).members
    ensures var obj := decode(raw).members;
            DocValues(obj, decode, pretty, order)[k]
            == ShownValues(obj, decode, pretty, order, Show(KnownIn(raw, decode)))[k]
  {
    var obj, show := decode(raw).members, Show(KnownIn(raw, decode));
    if k == "env" && decode(obj[k]).Object? {
      var env := decode(obj[k]).members;
      EnvIsKnown(raw, decode);
      forall n | n in env ensures show(Slot("env." + n, false)) == env[n] {}
      assert env == map n | n in env :: show(Slot("env." + n, false));
    }
  }

  /** With its values shown, the view is the document's members printed. */
  lemma ShownIsPrinted(raw: string, decode: Decoder, pretty: string -> string, order: Order)
    requires IsOrder(order)
    ensures Shown(raw, decode, pretty, order) == Printed(raw, decode, pretty, order)
  {
    var show := Show(KnownIn(raw, decode));
    TextIsFilled(DocSegs(raw, decode, pretty, order), KnownIn(raw, decode));
    DocPrinted(raw, decode, pretty, order, show);
    if decode(raw).Object? {
      var obj := decode(raw).members;
      var a, b := DocValues(obj, decode, pretty, order), ShownValues(obj, decode, pretty, order, show);
      forall k | k in obj ensures a[k] == b[k] { DocValue(raw, decode, pretty, order, k); }
      assert a == b;
    }
  }
}
