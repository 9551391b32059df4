/**
 When a session detaches, wherever its reads fall, said without the matcher. At the end of
 a read the leftmost word begun and not finished is kept back, but for a half-read escape
 encoding at its end; the next read is searched after what was kept back. It is not enough
 to take the half-read encodings out of what was typed: see `TakingEscapesOutIsNotEnough`.
 */
module DetachSessions {
  import opened Bytes
  import opened DetachMatcher
  import opened DetachWords
  import opened DetachReads

  // ---- A word begun and not finished ----------------------------------------

  /** h is a beginning of an encoding of key and holds no whole one. */
  ghost predicate Unfinished(key: Key, h: seq<byte>)
  {
    LivePrefix(key, h) && forall i :: 0 < i <= |h| ==> h[..i] !in key
  }

  /** s spells the first k keys and then h, nothing or an unfinished encoding of the next. */
  ghost predicate BrokenOff(keys: seq<Key>, s: seq<byte>, k: nat, h: seq<byte>)
  {
    && k < |keys| && |h| <= |s| && s[|s| - |h|..] == h
    && Spells(keys[..k], s[..|s| - |h|])
    && (h == [] || Unfinished(keys[k], h))
  }

  /** The leftmost word that is broken off by the end of s, without its unfinished encoding. */
  ghost function KeptBack(keys: seq<Key>, s: seq<byte>): seq<byte>
  {
    if exists k, h :: BrokenOff(keys, s, k, h) then
      var k, h :| BrokenOff(keys, s, k, h);
      s[..|s| - |h|]
    else if s == [] then []
    else KeptBack(keys, s[1..])
  }

  lemma {:induction false} UnfinishedIsLive(keys: seq<Key>, k: nat, held: seq<byte>, t: seq<byte>)
    requires k < |keys| && (t == [] || Unfinished(keys[k], held + t))
    ensures Follow(keys, k, held, t) == Live(k, held + t)
    decreases |t|
  {
    if t == [] {
      assert held + t == held;
    } else {
      var whole, h := held + t, held + [t[0]];
      assert h == whole[..|held| + 1] && h + t[1..] == whole;
      var i :| 0 <= i < |keys[k]| && |whole| < |keys[k][i]| && whole <= keys[k][i];
      assert h <= keys[k][i];
      UnfinishedIsLive(keys, k, h, t[1..]);
    }
  }

  /** Completing the first k keys is getting to key k. */
  lemma {:induction false} FirstKeys(keys: seq<Key>, k: nat, j: nat, held: seq<byte>, s: seq<byte>)
    requires j < k < |keys| && Follow(keys[..k], j, held, s).Complete?
    ensures Follow(keys, j, held, s) == Follow(keys, k, [], Follow(keys[..k], j, held, s).rest)
    decreases |s|
  {
    if s != [] {
      var h := held + [s[0]];
      if h in keys[j] {
        if j + 1 < k {
          FirstKeys(keys, k, j + 1, [], s[1..]);
        }
      } else if LivePrefix(keys[j], h) {
        FirstKeys(keys, k, j, h, s[1..]);
      }
    }
  }

  lemma BrokenOffIsLive(keys: seq<Key>, s: seq<byte>, k: nat, h: seq<byte>)
    requires BrokenOff(keys, s, k, h)
    ensures Follow(keys, 0, [], s) == Live(k, h)
  {
    var n := |s| - |h|;
    assert [] + h == h;
    UnfinishedIsLive(keys, k, [], h);
    if k == 0 {
      assert s[..n] == [] && s == s[..n] + h;
    } else {
      assert keys[..k][0..] == keys[..k];
      SpelledCompletes(keys[..k], 0, s, n);
      FirstKeys(keys, k, 0, [], s);
    }
  }

  /** Where matching from key j on stands, if it is live: in key j, or past some keys spelled out. */
  ghost predicate StandsAt(keys: seq<Key>, j: nat, held: seq<byte>, s: seq<byte>, k: nat, h: seq<byte>)
  {
    && j <= k < |keys| && (h == [] || Unfinished(keys[k], h))
    && if k == j then h == held + s
       else |h| <= |s| && s[|s| - |h|..] == h && Spells(keys[j..k], held + s[..|s| - |h|])
  }

  lemma {:induction false} LiveStands(keys: seq<Key>, j: nat, held: seq<byte>, s: seq<byte>)
    requires j < |keys| && Follow(keys, j, held, s).Live? && (held == [] || Unfinished(keys[j], held))
    ensures var r := Follow(keys, j, held, s); StandsAt(keys, j, held, s, r.idx, r.held)
    decreases |s|
  {
    var r := Follow(keys, j, held, s);
    if s == [] {
      assert held + s == held;
    } else {
      var h, t := held + [s[0]], s[1..];
      OneMoreHeld(keys[j], held, s[0]);
      if h in keys[j] {
        LiveStands(keys, j + 1, [], t);
        TakesFirst(keys, j, h, t, r.idx, r.held);
      } else {
        LiveStands(keys, j, h, t);
      }
      StandsBack(keys, j, held, s, h, t, r.idx, r.held);
    }
  }

  lemma OneMoreHeld(key: Key, held: seq<byte>, b: byte)
    requires held == [] || Unfinished(key, held)
    ensures var h := held + [b];
            && (h in key ==> Takes(key, h))
            && (h !in key && LivePrefix(key, h) ==> Unfinished(key, h))
  {
    var h := held + [b];
    assert forall i :: 0 < i < |h| ==> h[..i] == held[..i];
    assert h[..|h|] == h;
  }

  lemma StandsBack(keys: seq<Key>, j: nat, held: seq<byte>, s: seq<byte>, h: seq<byte>, t: seq<byte>, k: nat,
                   left: seq<byte>)
    requires s != [] && h == held + [s[0]] && t == s[1..] && StandsAt(keys, j, h, t, k, left)
    ensures StandsAt(keys, j, held, s, k, left)
  {
    assert h + t == held + s;
    if k != j {
      SpelledFromHere(held, s, left, h, t);
    }
  }

  lemma SpelledFromHere(held: seq<byte>, s: seq<byte>, left: seq<byte>, h: seq<byte>, t: seq<byte>)
    requires s != [] && h == held + [s[0]] && t == s[1..] && |left| <= |t|
    ensures s[|s| - |left|..] == t[|t| - |left|..] && held + s[..|s| - |left|] == h + t[..|t| - |left|]
  {
  }

  /** A whole first key before what stands after it. */
  lemma TakesFirst(keys: seq<Key>, j: nat, e: seq<byte>, t: seq<byte>, k: nat, h: seq<byte>)
    requires j + 1 < |keys| && Takes(keys[j], e) && e != [] && StandsAt(keys, j + 1, [], t, k, h)
    ensures StandsAt(keys, j, e, t, k, h)
  {
    assert [] + t == t;
    var rest := t[..|t| - |h|];
    assert [] + rest == rest;
    var w := e + rest;
    assert w[..|e|] == e && w[|e|..] == rest;
    assert keys[j..k][0] == keys[j] && keys[j..k][1..] == keys[j + 1..k];
    assert Takes(keys[j..k][0], w[..|e|]) && Spells(keys[j..k][1..], w[|e|..]);
  }

  lemma StandsFromStart(keys: seq<Key>, s: seq<byte>, k: nat, h: seq<byte>)
    requires StandsAt(keys, 0, [], s, k, h)
    ensures BrokenOff(keys, s, k, h)
  {
    assert keys[0..k] == keys[..k] && [] + s == s;
    if k == 0 {
      assert s[|s| - |h|..] == s && s[..|s| - |h|] == [];
    } else {
      assert [] + s[..|s| - |h|] == s[..|s| - |h|];
    }
  }

  /** Matching from the start is live exactly on a word that is broken off. */
  lemma LiveIffBrokenOff(keys: seq<Key>, s: seq<byte>, k: nat, h: seq<byte>)
    requires |keys| > 0
    ensures Follow(keys, 0, [], s) == Live(k, h) <==> BrokenOff(keys, s, k, h)
  {
    if Follow(keys, 0, [], s) == Live(k, h) {
      LiveStands(keys, 0, [], s);
      StandsFromStart(keys, s, k, h);
    }
    if BrokenOff(keys, s, k, h) {
      BrokenOffIsLive(keys, s, k, h);
    }
  }

  /** What the search keeps matched, said without the search. */
  lemma {:induction false} KeptIsMatched(keys: seq<Key>, s: seq<byte>)
    requires |keys| > 0 && !Scan(keys, s).detached
    ensures KeptBack(keys, s) == Scan(keys, s).matched
    decreases |s|
  {
    forall k: nat, h: seq<byte> ensures Follow(keys, 0, [], s) == Live(k, h) <==> BrokenOff(keys, s, k, h) {
      LiveIffBrokenOff(keys, s, k, h);
    }
    match Follow(keys, 0, [], s)
    case Complete(_) =>
    case Live(k, h) => assert BrokenOff(keys, s, k, h);
    case Dead => KeptIsMatched(keys, s[1..]);
  }

  // ---- Sessions -------------------------------------------------------------

  /** What is kept back after the first n reads. */
  ghost function KeptAfter(keys: seq<Key>, pending: seq<byte>, chunks: seq<seq<byte>>, n: nat): seq<byte>
    requires n <= |chunks|
    decreases n
  {
    if n == 0 then pending else KeptAfter(keys, KeptBack(keys, pending + chunks[0]), chunks[1..], n - 1)
  }

  /**
   Wherever the reads fall, a session detaches exactly when in some read a word begins in
   what was kept back followed by that read.
   */
  lemma {:induction false} SessionDetachesIff(sequence: seq<byte>, pending: seq<byte>, chunks: seq<seq<byte>>)
    requires sequence != []
    ensures var keys := KeysOf(sequence);
            Reads(keys, pending, chunks).detached
            <==> exists j: nat :: j < |chunks| && !NoWordIn(keys, KeptAfter(keys, pending, chunks, j) + chunks[j])
    decreases |chunks|
  {
    if chunks != [] {
      var keys := KeysOf(sequence);
      var r, rest := ReadOnce(keys, pending, chunks[0]), chunks[1..];
      DetachesExactlyOnLeftmostWord(sequence, pending + chunks[0]);
      assert KeptAfter(keys, pending, chunks, 0) == pending;
      if !r.detached {
        NothingHeldBetweenReads(sequence, pending, chunks[0]);
        KeptIsMatched(keys, pending + chunks[0]);
        assert r.matched + [] == r.matched;
        SessionDetachesIff(sequence, r.matched, rest);
        if j: nat :| j < |rest| && !NoWordIn(keys, KeptAfter(keys, r.matched, rest, j) + rest[j]) {
          assert chunks[j + 1] == rest[j];
          assert KeptAfter(keys, pending, chunks, j + 1) == KeptAfter(keys, r.matched, rest, j);
        }
        if j: nat :| 0 < j < |chunks| && !NoWordIn(keys, KeptAfter(keys, pending, chunks, j) + chunks[j]) {
          assert chunks[j] == rest[j - 1];
          assert KeptAfter(keys, pending, chunks, j) == KeptAfter(keys, r.matched, rest, j - 1);
        }
      }
    }
  }

  /**
   What is let through of s, in which no word begins: what precedes that broken-off word, and
   its unfinished encoding.
   */
  ghost function LetThrough(keys: seq<Key>, s: seq<byte>): seq<byte>
  {
    if exists k, h :: BrokenOff(keys, s, k, h) then
      var k, h :| BrokenOff(keys, s, k, h);
      h
    else if s == [] then []
    else [s[0]] + LetThrough(keys, s[1..])
  }

  lemma {:induction false} LetThroughIsForwarded(keys: seq<Key>, s: seq<byte>)
    requires |keys| > 0 && !Scan(keys, s).detached
    ensures LetThrough(keys, s) == Scan(keys, s).forward + Scan(keys, s).held
    decreases |s|
  {
    forall k: nat, h: seq<byte> ensures Follow(keys, 0, [], s) == Live(k, h) <==> BrokenOff(keys, s, k, h) {
      LiveIffBrokenOff(keys, s, k, h);
    }
    match Follow(keys, 0, [], s)
    case Complete(_) =>
    case Live(k, h) =>
      assert BrokenOff(keys, s, k, h);
      assert [] + h == h;
    case Dead =>
      LetThroughIsForwarded(keys, s[1..]);
      var r := Scan(keys, s[1..]);
      assert [s[0]] + (r.forward + r.held) == [s[0]] + r.forward + r.held;
  }

  /** The text before the leftmost word that begins in s. */
  ghost function BeforeWord(keys: seq<Key>, s: seq<byte>): (before: seq<byte>)
    requires exists p: nat :: LeftmostWord(keys, s, p)
    ensures before <= s && LeftmostWord(keys, s, |before|)
  {
    var p: nat :| LeftmostWord(keys, s, p);
    s[..p]
  }

  /** What a session forwards: every read up to the first in which a word begins, and of that what precedes the word. */
  ghost function Forwarded(keys: seq<Key>, pending: seq<byte>, chunks: seq<seq<byte>>): seq<byte>
    decreases |chunks|
  {
    if chunks == [] then []
    else
      var s := pending + chunks[0];
      if exists p: nat :: LeftmostWord(keys, s, p) then BeforeWord(keys, s)
      else LetThrough(keys, s) + Forwarded(keys, KeptBack(keys, s), chunks[1..])
  }

  lemma ReadForwards(sequence: seq<byte>, pending: seq<byte>, chunk: seq<byte>)
    requires sequence != []
    ensures var keys, s := KeysOf(sequence), pending + chunk;
            var r := ReadOnce(keys, pending, chunk);
            && (r.detached <==> exists p: nat :: LeftmostWord(keys, s, p))
            && (r.detached ==> r.forward == BeforeWord(keys, s))
            && (!r.detached ==> r.forward == LetThrough(keys, s) && r.matched + r.held == KeptBack(keys, s))
  {
    var keys, s := KeysOf(sequence), pending + chunk;
    var w := Scan(keys, s);
    DetachesExactlyOnLeftmostWord(sequence, s);
    if w.detached {
      assert LeftmostWord(keys, s, |w.forward|);
      var before := BeforeWord(keys, s);
      assert |before| == |w.forward| && before == s[..|before|];
    } else {
      NothingHeldBetweenReads(sequence, pending, chunk);
      HeldStartsWithEscape(sequence, s);
      LetThroughIsForwarded(keys, s);
      KeptIsMatched(keys, s);
      assert w.forward + [] == w.forward && w.matched + [] == w.matched;
    }
  }

  /** The bytes of a whole session, for any sequence and wherever the reads fall. */
  lemma {:induction false} SessionForwards(sequence: seq<byte>, pending: seq<byte>, chunks: seq<seq<byte>>)
    requires sequence != []
    ensures Reads(KeysOf(sequence), pending, chunks).forward == Forwarded(KeysOf(sequence), pending, chunks)
    decreases |chunks|
  {
    if chunks != [] {
      ReadForwards(sequence, pending, chunks[0]);
      var r := ReadOnce(KeysOf(sequence), pending, chunks[0]);
      if !r.detached {
        SessionForwards(sequence, r.matched + r.held, chunks[1..]);
      }
    }
  }

  // ---- Why not the text without the half-read encodings ---------------------

  /** Ctrl+P, Ctrl+P, a */
  function ThreeKeys(): seq<Key>
  {
    KeysOf([0x10, 0x10, 97])
  }

  lemma KeyStep(k: nat, s: seq<byte>, rest: seq<byte>)
    requires k < 3 && |s| > 0 && rest == s[1..]
    ensures var b: byte, r := if k < 2 then 0x10 else 97, Follow(ThreeKeys(), k, [], s);
            && (s[0] == b ==> r == if k == 2 then Complete(rest) else Follow(ThreeKeys(), k + 1, [], rest))
            && (s[0] == ESC && k < 2 ==> r == Follow(ThreeKeys(), k, [ESC], rest))
            && (s[0] != b && (s[0] != ESC || k == 2) ==> r == Dead)
  {
    var b: byte := if k < 2 then 0x10 else 97;
    var key := ThreeKeys()[k];
    assert key == Encodings(b) && key[0] == [b];
    assert [] + [s[0]] == [s[0]];
    if k < 2 {
      assert key[1] == KittyForm(b) && key[2] == XtermForm(b) && [ESC] <= key[1];
      assert |key[1]| > 1 && |key[2]| > 1;
    }
    if LivePrefix(key, [s[0]]) {
      LivePrefixShape(b, [s[0]]);
    }
  }

  lemma ThreeKeySteps()
    ensures var keys := ThreeKeys();
            && Follow(keys, 0, [], [0x10, 0x10, ESC]) == Dead
            && Follow(keys, 0, [], [0x10, ESC]) == Live(1, [ESC])
            && Follow(keys, 0, [], [0x10, 97]) == Dead
            && Follow(keys, 0, [], [97]) == Dead
            && Follow(keys, 0, [], [0x10, 0x10, 97]) == Complete([])
  {
    KeyStep(0, [0x10, 0x10, ESC], [0x10, ESC]);
    KeyStep(1, [0x10, ESC], [ESC]);
    KeyStep(2, [ESC], []);
    KeyStep(0, [0x10, ESC], [ESC]);
    KeyStep(1, [ESC], []);
    KeyStep(0, [0x10, 97], [97]);
    KeyStep(1, [97], []);
    KeyStep(0, [97], []);
    KeyStep(0, [0x10, 0x10, 97], [0x10, 97]);
    KeyStep(1, [0x10, 97], [97]);
    KeyStep(2, [97], []);
  }

  /**
   Ctrl+P, Ctrl+P and Escape in one read, a in the next: only the Escape is let go, and
   without it a word was typed. But it broke off that word, and nothing is detached.
   */
  lemma TakingEscapesOutIsNotEnough()
    ensures var keys, first: seq<byte> := ThreeKeys(), [0x10, 0x10, ESC];
            && ReadOnce(keys, [], first) == Outcome([0x10, ESC], false, [0x10], [], 1)
            && !Reads(keys, [], [first, [97]]).detached
            && WordBegins(keys, [0x10, 0x10, 97], 0)
  {
    var keys, first: seq<byte>, typed: seq<byte> := ThreeKeys(), [0x10, 0x10, ESC], [0x10, 0x10, 97];
    FirstRead();
    SecondRead();
    var both: seq<seq<byte>>, pending: seq<byte> := [first, [97]], [0x10];
    assert both[1..] == [[97]] && pending + [] == pending;
    ThreeKeySteps();
    assert typed[0..] == typed;
    CompletesIffWordBegins(keys, typed, 0);
  }

  lemma FirstRead()
    ensures ReadOnce(ThreeKeys(), [], [0x10, 0x10, ESC]) == Outcome([0x10, ESC], false, [0x10], [], 1)
  {
    var keys, first: seq<byte> := ThreeKeys(), [0x10, 0x10, ESC];
    ThreeKeySteps();
    assert [] + first == first && first[1..] == [0x10, ESC] && [0x10, ESC][..1] == [0x10];
    assert Scan(keys, first[1..]) == Outcome([], false, [0x10], [ESC], 1);
  }

  lemma SecondRead()
    ensures !Reads(ThreeKeys(), [0x10], [[97]]).detached
  {
    var keys, pending: seq<byte>, more: seq<byte> := ThreeKeys(), [0x10], [0x10, 97];
    ThreeKeySteps();
    assert pending + [97] == more && more[1..] == [97] && [97][1..] == [];
    assert Scan(keys, []) == Outcome([], false, [], [], 0);
    assert Scan(keys, [97]) == Outcome([97], false, [], [], 0);
    var one: seq<seq<byte>> := [[97]];
    assert one[1..] == [];
  }
}
