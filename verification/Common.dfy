/** Types and sequence functions shared by the models. */
module Wrappers {

  datatype Option<+T> = None | Some(value: T)

  datatype Result<+T, +E> = Ok(value: T) | Err(error: E)
}

module Bytes {

  newtype byte = x: int | 0 <= x < 256
}

/** Splitting a sequence at a separator, as `strings.Split` does, and joining it back. */
module Splitting {

  /** The first index of x in s, or |s|. */
  function IndexOf<T(==)>(s: seq<T>, x: T): (i: nat)
    ensures i <= |s| && (i < |s| ==> s[i] == x) && x !in s[..i]
  {
    if s == [] || s[0] == x then 0
    else
      var i := 1 + IndexOf(s[1..], x);
      assert s[..i] == [s[0]] + s[1..][..i - 1];
      i
  }

  function Split<T(==)>(s: seq<T>, sep: T): (pieces: seq<seq<T>>)
    ensures |pieces| > 0
    decreases |s|
  {
    var i := IndexOf(s, sep);
    if i == |s| then [s] else [s[..i]] + Split(s[i + 1..], sep)
  }

  function Join<T>(pieces: seq<seq<T>>, sep: T): seq<T>
  {
    if pieces == [] then []
    else if |pieces| == 1 then pieces[0]
    else pieces[0] + [sep] + Join(pieces[1..], sep)
  }

  /** Every piece followed by the separator. */
  function Lines<T>(pieces: seq<seq<T>>, sep: T): seq<T>
  {
    if pieces == [] then [] else pieces[0] + [sep] + Lines(pieces[1..], sep)
  }

  ghost predicate Free<T(!new)>(pieces: seq<seq<T>>, sep: T)
  {
    forall i :: 0 <= i < |pieces| ==> sep !in pieces[i]
  }

  lemma FreeCons<T(!new)>(first: seq<T>, rest: seq<seq<T>>, sep: T)
    requires sep !in first && Free(rest, sep)
    ensures Free([first] + rest, sep)
  {
    var pieces := [first] + rest;
    forall j | 0 <= j < |pieces| ensures sep !in pieces[j] { assert j > 0 ==> pieces[j] == rest[j - 1]; }
  }

  lemma JoinCons<T>(first: seq<T>, rest: seq<seq<T>>, sep: T)
    requires rest != []
    ensures Join([first] + rest, sep) == first + [sep] + Join(rest, sep)
  {
    assert ([first] + rest)[1..] == rest;
  }

  lemma {:induction false} JoinSplit<T(!new)>(s: seq<T>, sep: T)
    ensures Join(Split(s, sep), sep) == s && Free(Split(s, sep), sep)
    decreases |s|
  {
    var i := IndexOf(s, sep);
    if i == |s| {
      assert s[..i] == s;
    } else {
      var a, b := s[..i], s[i + 1..];
      JoinSplit(b, sep);
      FreeCons(a, Split(b, sep), sep);
      JoinCons(a, Split(b, sep), sep);
      assert s == a + [sep] + b;
    }
  }

  lemma IndexOfFirst<T(!new)>(a: seq<T>, b: seq<T>, sep: T)
    requires sep !in a
    ensures IndexOf(a + [sep] + b, sep) == |a|
  {
    var s := a + [sep] + b;
    var i := IndexOf(s, sep);
    assert forall j :: 0 <= j < |a| ==> s[j] == a[j] && s[j] in a;
    assert s[|a|] == sep;
  }

  lemma SplitFirst<T(!new)>(a: seq<T>, rest: seq<T>, sep: T)
    requires sep !in a
    ensures Split(a + [sep] + rest, sep) == [a] + Split(rest, sep)
  {
    var s := a + [sep] + rest;
    IndexOfFirst(a, rest, sep);
    assert s[..|a|] == a && s[|a| + 1..] == rest;
  }

  lemma FreeRest<T(!new)>(pieces: seq<seq<T>>, sep: T)
    requires pieces != [] && Free(pieces, sep)
    ensures Free(pieces[1..], sep)
  {
    forall j | 0 <= j < |pieces[1..]| ensures sep !in pieces[1..][j] { assert pieces[1..][j] == pieces[j + 1]; }
  }

  /** Pieces without the separator, then a last one: splitting finds exactly them. */
  lemma {:induction false} SplitLines<T(!new)>(pieces: seq<seq<T>>, last: seq<T>, sep: T)
    requires Free(pieces, sep) && sep !in last
    ensures Split(Lines(pieces, sep) + last, sep) == pieces + [last]
    decreases |pieces|
  {
    if pieces == [] {
      assert Lines(pieces, sep) + last == last;
      assert IndexOf(last, sep) == |last|;
    } else {
      var rest := Lines(pieces[1..], sep) + last;
      FreeRest(pieces, sep);
      SplitLines(pieces[1..], last, sep);
      SplitFirst(pieces[0], rest, sep);
      Regroup(pieces[0] + [sep], Lines(pieces[1..], sep), last);
      assert pieces + [last] == [pieces[0]] + (pieces[1..] + [last]);
    }
  }

  lemma Regroup<T>(a: seq<T>, b: seq<T>, c: seq<T>)
    ensures (a + b) + c == a + (b + c)
  {
  }

  lemma {:induction false} JoinIsLines<T>(pieces: seq<seq<T>>, sep: T)
    requires pieces != []
    ensures Join(pieces, sep) == Lines(pieces[..|pieces| - 1], sep) + pieces[|pieces| - 1]
    decreases |pieces|
  {
    var front, last := pieces[..|pieces| - 1], pieces[|pieces| - 1];
    if |pieces| == 1 {
      assert front == [] && [] + last == last;
    } else {
      var rest := pieces[1..];
      JoinIsLines(rest, sep);
      assert front[0] == pieces[0] && front[1..] == rest[..|rest| - 1] && rest[|rest| - 1] == last;
      Regroup(pieces[0] + [sep], Lines(front[1..], sep), last);
    }
  }

  lemma SplitJoin<T(!new)>(pieces: seq<seq<T>>, sep: T)
    requires pieces != [] && Free(pieces, sep)
    ensures Split(Join(pieces, sep), sep) == pieces
  {
    JoinIsLines(pieces, sep);
    var n := |pieces| - 1;
    assert Free(pieces[..n], sep) && sep !in pieces[n];
    SplitLines(pieces[..n], pieces[n], sep);
    assert pieces[..n] + [pieces[n]] == pieces;
  }

  lemma {:induction false} LinesAppend<T>(a: seq<seq<T>>, b: seq<seq<T>>, sep: T)
    ensures Lines(a + b, sep) == Lines(a, sep) + Lines(b, sep)
    decreases |a|
  {
    if a == [] {
      assert a + b == b;
    } else {
      assert (a + b)[1..] == a[1..] + b;
      LinesAppend(a[1..], b, sep);
    }
  }

  lemma FrontAndLast<T>(s: seq<T>)
    requires s != []
    ensures s == s[..|s| - 1] + [s[|s| - 1]]
  {
  }

  lemma LineAppend<T>(lines: seq<seq<T>>, line: seq<T>, sep: T)
    ensures Lines(lines + [line], sep) == Lines(lines, sep) + (line + [sep])
  {
    LinesAppend(lines, [line], sep);
    assert [line][1..] == [];
  }
}
