/**
 Whole sessions of the detach matcher: one `Feed` per read of the terminal. `Feed`
 never keeps a half-read escape encoding past its read, so the Escape key is not
 delayed. The price is order: with a key of the sequence already matched, the escape
 bytes overtake it. `ReadKeepsOrderIff` says exactly when that shows.
 */
module DetachReads {
  import opened Bytes
  import opened DetachMatcher
  import opened DetachWords

  datatype Session = Session(forward: seq<byte>, detached: bool, pending: seq<byte>)

  /** Feeds the chunks one after another and collects what is forwarded. */
  function Reads(keys: seq<Key>, pending: seq<byte>, chunks: seq<seq<byte>>): Session
    requires |keys| > 0
    decreases |chunks|
  {
    if chunks == [] then Session([], false, pending)
    else
      var r := ReadOnce(keys, pending, chunks[0]);
      if r.detached then Session(r.forward, true, [])
      else
        var rest := Reads(keys, r.matched + r.held, chunks[1..]);
        rest.(forward := r.forward + rest.forward)
  }

  function Concat(chunks: seq<seq<byte>>): seq<byte>
  {
    if chunks == [] then [] else chunks[0] + Concat(chunks[1..])
  }

  /** Every escape encoding starts with ESC, so the matcher holds nothing between reads. */
  lemma NothingHeldBetweenReads(sequence: seq<byte>, pending: seq<byte>, chunk: seq<byte>)
    requires sequence != []
    ensures ReadOnce(KeysOf(sequence), pending, chunk).held == []
  {
    HeldStartsWithEscape(sequence, pending + chunk);
    if Scan(KeysOf(sequence), pending + chunk).detached {
      ScanDetachedIsReset(KeysOf(sequence), pending + chunk);
    }
  }

  lemma {:induction false} HeldStartsWithEscape(sequence: seq<byte>, s: seq<byte>)
    requires sequence != []
    ensures var h := Scan(KeysOf(sequence), s).held;
            h != [] ==> h[0] == ESC && forall i :: 0 < i < |h| ==> Inner(h[i])
    decreases |s|
  {
    var keys := KeysOf(sequence);
    match Follow(keys, 0, [], s)
    case Complete(_) =>
    case Live(k, h) =>
      LiveIsPrefix(keys, 0, [], s);
      if h != [] {
        HeldShape(sequence[k], h);
      }
    case Dead => HeldStartsWithEscape(sequence, s[1..]);
  }

  lemma {:induction false} LiveIsPrefix(keys: seq<Key>, k: nat, held: seq<byte>, s: seq<byte>)
    requires k < |keys| && (held == [] || LivePrefix(keys[k], held)) && Follow(keys, k, held, s).Live?
    ensures var r := Follow(keys, k, held, s);
            r.idx < |keys| && (r.held == [] || LivePrefix(keys[r.idx], r.held))
    decreases |s|
  {
    if s != [] {
      var h := held + [s[0]];
      if h in keys[k] {
        LiveIsPrefix(keys, k + 1, [], s[1..]);
      } else {
        LiveIsPrefix(keys, k, h, s[1..]);
      }
    }
  }

  lemma HeldShape(b: byte, h: seq<byte>)
    requires LivePrefix(Encodings(b), h) && |h| > 0
    ensures h[0] == ESC && forall i :: 0 < i < |h| ==> Inner(h[i])
  {
    LivePrefixShape(b, h);
    forall i | 0 < i < |h| ensures Inner(h[i]) {
      var j :| 0 <= j < |Encodings(b)| && |h| < |Encodings(b)[j]| && h <= Encodings(b)[j];
      assert h[..i + 1] <= Encodings(b)[j];
      LivePrefixShape(b, h[..i + 1]);
      assert h[..i + 1] != [ESC];
    }
  }

  // ---- Order ----------------------------------------------------------------

  function Repeat(w: seq<byte>, n: nat): seq<byte>
  {
    if n == 0 then [] else w + Repeat(w, n - 1)
  }

  lemma {:induction false} RepeatCommutes(w: seq<byte>, n: nat)
    ensures w + Repeat(w, n) == Repeat(w, n) + w
  {
    if n == 0 {
      assert w + [] == [] + w;
    } else {
      RepeatCommutes(w, n - 1);
      assert w + (w + Repeat(w, n - 1)) == w + (Repeat(w, n - 1) + w) == (w + Repeat(w, n - 1)) + w;
    }
  }

  lemma ShortNeverCommutes(m: seq<byte>, h: seq<byte>)
    requires 0 < |m| < |h| && h[0] == ESC && (forall i :: 0 < i < |h| ==> h[i] != ESC)
    ensures h + m != m + h
  {
    assert (h + m)[|m|] == h[|m|];
    assert (m + h)[|m|] == h[0];
  }

  lemma {:induction false} CommutingIsRepeat(m: seq<byte>, h: seq<byte>) returns (n: nat)
    requires h != [] && h[0] == ESC && (forall i :: 0 < i < |h| ==> h[i] != ESC)
    requires h + m == m + h
    ensures m == Repeat(h, n)
    decreases |m|
  {
    if m == [] {
      n := 0;
    } else {
      assert |m| >= |h| by {
        if |m| < |h| {
          ShortNeverCommutes(m, h);
        }
      }
      var t := m[|h|..];
      assert m[..|h|] == (m + h)[..|h|] == (h + m)[..|h|] == h;
      assert m == h + t;
      assert h + t == (h + m)[|h|..|h| + |m|] by { assert (h + m)[|h|..] == m; }
      assert m + h == h + (t + h);
      assert (h + m)[|h|..] == m && (h + (t + h))[|h|..] == t + h;
      n := CommutingIsRepeat(t, h);
      n := n + 1;
    }
  }

  /** Swapping two texts changes nothing exactly when the first repeats the second. */
  lemma SwapShowsIff(f: seq<byte>, m: seq<byte>, h: seq<byte>)
    requires h != [] && h[0] == ESC && (forall i :: 0 < i < |h| ==> h[i] != ESC)
    ensures f + (h + m) == f + (m + h) <==> exists n :: m == Repeat(h, n)
  {
    assert (f + (h + m))[|f|..] == h + m && (f + (m + h))[|f|..] == m + h;
    if h + m == m + h {
      var n := CommutingIsRepeat(m, h);
    }
    if exists n :: m == Repeat(h, n) {
      var n :| m == Repeat(h, n);
      RepeatCommutes(h, n);
    }
  }

  /** Letting h go ahead of m keeps the order of f, m, h exactly when m repeats h. */
  lemma RegroupLetGo(f: seq<byte>, m: seq<byte>, h: seq<byte>, out: seq<byte>, s: seq<byte>)
    requires h != [] && h[0] == ESC && (forall i :: 0 < i < |h| ==> h[i] != ESC)
    requires out == f + h + m && s == f + m + h
    ensures out == s <==> exists n :: m == Repeat(h, n)
  {
    assert f + h + m == f + (h + m) && f + m + h == f + (m + h);
    SwapShowsIff(f, m, h);
  }

  /**
   What one read forwards, followed by what stays matched, is the input in order exactly
   when nothing was let go or what stays matched merely repeats what was let go.
   */
  lemma ReadKeepsOrderIff(sequence: seq<byte>, pending: seq<byte>, chunk: seq<byte>)
    requires sequence != []
    ensures var keys := KeysOf(sequence);
            var whole, r := Scan(keys, pending + chunk), ReadOnce(keys, pending, chunk);
            !r.detached ==>
              (r.forward + r.matched == pending + chunk
               <==> whole.held == [] || exists n :: whole.matched == Repeat(whole.held, n))
  {
    var keys := KeysOf(sequence);
    var whole, r := Scan(keys, pending + chunk), ReadOnce(keys, pending, chunk);
    if !r.detached {
      ScanConserves(keys, pending + chunk);
      HeldStartsWithEscape(sequence, pending + chunk);
      var f, m, h := whole.forward, whole.matched, whole.held;
      if h != [] {
        RegroupLetGo(f, m, h, r.forward + r.matched, pending + chunk);
      }
    }
  }

  /** In particular order is kept whenever no key is matched yet. */
  lemma OrderKeptAtFirstKey(sequence: seq<byte>, pending: seq<byte>, chunk: seq<byte>)
    requires sequence != []
    ensures var r := ReadOnce(KeysOf(sequence), pending, chunk);
            !r.detached && r.keyIdx == 0 ==> r.matched == [] && r.forward == pending + chunk
  {
    var keys := KeysOf(sequence);
    var s := pending + chunk;
    var r := Scan(keys, s);
    ScanConserves(keys, s);
    HeldStartsWithEscape(sequence, s);
    if !r.detached && r.keyIdx == 0 {
      NothingMatchedAtFirstKey(keys, r.matched, r.held);
      assert r.forward + [] + r.held == r.forward + r.held;
    }
  }

  lemma NothingMatchedAtFirstKey(keys: seq<Key>, m: seq<byte>, h: seq<byte>)
    requires |keys| > 0 && Follow(keys, 0, [], m + h) == Live(0, h)
    ensures m == []
  {
    LiveFromStart(keys, m + h);
    assert (m + h)[..|m|] == m;
  }

  // ---- Sessions -------------------------------------------------------------

  lemma ReadConservesBytes(keys: seq<Key>, pending: seq<byte>, chunk: seq<byte>)
    requires |keys| > 0
    ensures var r := ReadOnce(keys, pending, chunk);
            !r.detached ==> multiset(r.forward) + multiset(r.matched + r.held) == multiset(pending) + multiset(chunk)
  {
    var s := pending + chunk;
    var w := Scan(keys, s);
    ScanConserves(keys, s);
    if !w.detached {
      assert multiset(w.forward + w.matched + w.held) == multiset(w.forward) + multiset(w.matched) + multiset(w.held);
      assert w.matched + [] == w.matched;
    }
  }

  /** Whatever the order, no byte is lost or made up before the detach. */
  lemma {:induction false} SessionConservesBytes(keys: seq<Key>, pending: seq<byte>, chunks: seq<seq<byte>>)
    requires |keys| > 0
    ensures var r := Reads(keys, pending, chunks);
            !r.detached ==> multiset(r.forward) + multiset(r.pending) == multiset(pending) + multiset(Concat(chunks))
    decreases |chunks|
  {
    if chunks != [] {
      var r := ReadOnce(keys, pending, chunks[0]);
      ReadConservesBytes(keys, pending, chunks[0]);
      if !r.detached {
        var left := r.matched + r.held;
        SessionConservesBytes(keys, left, chunks[1..]);
        var rest := Reads(keys, left, chunks[1..]);
        assert multiset(r.forward + rest.forward) == multiset(r.forward) + multiset(rest.forward);
        assert Concat(chunks) == chunks[0] + Concat(chunks[1..]);
        var total := Reads(keys, pending, chunks);
        assert total == rest.(forward := r.forward + rest.forward);
        if !rest.detached {
          Regroup(multiset(r.forward), multiset(rest.forward), multiset(rest.pending), multiset(left),
                  multiset(pending), multiset(chunks[0]), multiset(Concat(chunks[1..])));
        }
      }
    }
  }

  lemma Regroup(f: multiset<byte>, restF: multiset<byte>, restP: multiset<byte>, left: multiset<byte>,
                p: multiset<byte>, c: multiset<byte>, cs: multiset<byte>)
    requires restF + restP == left + cs && f + left == p + c
    ensures (f + restF) + restP == p + (c + cs)
  {
    assert (f + restF) + restP == f + (restF + restP) == (f + left) + cs == p + (c + cs);
  }

  lemma {:induction false} OneKeyIsNeverMatchedLive(sequence: seq<byte>, s: seq<byte>)
    requires |sequence| == 1
    ensures !Scan(KeysOf(sequence), s).detached ==> Scan(KeysOf(sequence), s).keyIdx == 0
  {
    ScanConserves(KeysOf(sequence), s);
  }

  ghost predicate NoWordIn(keys: seq<Key>, s: seq<byte>)
  {
    forall p :: 0 <= p <= |s| ==> !WordBegins(keys, s, p)
  }

  /** Chunks before j were forwarded whole, and of chunk j what precedes its leftmost word at p. */
  ghost predicate CutAt(keys: seq<Key>, chunks: seq<seq<byte>>, forward: seq<byte>, j: nat, p: nat)
  {
    && j < |chunks| && (forall i :: 0 <= i < j ==> NoWordIn(keys, chunks[i]))
    && LeftmostWord(keys, chunks[j], p)
    && forward == Concat(chunks[..j]) + chunks[j][..p]
  }

  lemma CutAtTail(keys: seq<Key>, chunks: seq<seq<byte>>, forward: seq<byte>, j: nat, p: nat)
    requires chunks != [] && NoWordIn(keys, chunks[0]) && CutAt(keys, chunks[1..], forward, j, p)
    ensures CutAt(keys, chunks, chunks[0] + forward, j + 1, p)
  {
    assert chunks[..j + 1][1..] == chunks[1..][..j];
    assert chunks[0] + (Concat(chunks[1..][..j]) + chunks[1..][j][..p]) == Concat(chunks[..j + 1]) + chunks[j + 1][..p];
    forall i | 0 < i < j + 1 ensures NoWordIn(keys, chunks[i]) { assert chunks[i] == chunks[1..][i - 1]; }
  }

  /**
   With a one-key sequence every read is forwarded whole and at once, until the first
   read in which a word begins; of that one exactly what precedes its leftmost word is.
   */
  lemma {:induction false} OneKeySession(sequence: seq<byte>, chunks: seq<seq<byte>>)
    requires |sequence| == 1
    ensures var keys := KeysOf(sequence);
            var r := Reads(keys, [], chunks);
            if r.detached then exists j, p :: CutAt(keys, chunks, r.forward, j, p)
            else
              && r.forward == Concat(chunks) && r.pending == []
              && forall i :: 0 <= i < |chunks| ==> NoWordIn(keys, chunks[i])
    decreases |chunks|
  {
    var keys := KeysOf(sequence);
    if chunks != [] {
      var c := chunks[0];
      var r := ReadOnce(keys, [], c);
      OneKeyRead(sequence, c);
      if r.detached {
        assert Concat(chunks[..0]) == [] && r.forward == [] + c[..|r.forward|];
        assert CutAt(keys, chunks, r.forward, 0, |r.forward|);
      } else {
        OneKeySession(sequence, chunks[1..]);
        var rest := Reads(keys, [], chunks[1..]);
        if rest.detached {
          var j, p :| CutAt(keys, chunks[1..], rest.forward, j, p);
          CutAtTail(keys, chunks, rest.forward, j, p);
        } else {
          forall i | 0 < i < |chunks| ensures NoWordIn(keys, chunks[i]) { assert chunks[i] == chunks[1..][i - 1]; }
        }
      }
    }
  }

  lemma OneKeyRead(sequence: seq<byte>, c: seq<byte>)
    requires |sequence| == 1
    ensures var keys := KeysOf(sequence);
            var r := ReadOnce(keys, [], c);
            if r.detached then |r.forward| <= |c| && r.forward == c[..|r.forward|] && LeftmostWord(keys, c, |r.forward|)
            else NoWordIn(keys, c) && r.forward == c && r.matched + r.held == []
  {
    var keys := KeysOf(sequence);
    assert [] + c == c;
    DetachesExactlyOnLeftmostWord(sequence, c);
    if !ReadOnce(keys, [], c).detached {
      OneKeyIsNeverMatchedLive(sequence, c);
      OrderKeptAtFirstKey(sequence, [], c);
      NothingHeldBetweenReads(sequence, [], c);
    }
  }

  /** No read ends in the middle of an escape encoding. */
  ghost predicate EscapesWhole(keys: seq<Key>, pending: seq<byte>, chunks: seq<seq<byte>>)
    requires |keys| > 0
    decreases |chunks|
  {
    chunks != [] ==>
      var r := Scan(keys, pending + chunks[0]);
      r.held == [] && (!r.detached ==> EscapesWhole(keys, r.matched, chunks[1..]))
  }

  /** Then where the reads fall makes no difference: the session is one search of everything typed. */
  lemma {:induction false} SessionIsOneSearch(keys: seq<Key>, pending: seq<byte>, chunks: seq<seq<byte>>)
    requires |keys| > 0 && EscapesWhole(keys, pending, chunks)
    requires Follow(keys, 0, [], pending).Live? && Scan(keys, pending).held == []
    ensures var r, w := Reads(keys, pending, chunks), Scan(keys, pending + Concat(chunks));
            r.forward == w.forward && r.detached == w.detached && r.pending == w.matched + w.held
    decreases |chunks|
  {
    if chunks == [] {
      assert pending + [] == pending;
      ScanConserves(keys, pending);
    } else {
      var s := pending + chunks[0];
      var r := Scan(keys, s);
      ScanAppend(keys, s, Concat(chunks[1..]));
      assert pending + Concat(chunks) == s + Concat(chunks[1..]);
      if r.detached {
        ScanDetachedIsReset(keys, s);
      } else {
        ScanConserves(keys, s);
        assert r.matched + r.held == r.matched;
        SessionIsOneSearch(keys, r.matched, chunks[1..]);
      }
    }
  }

  /**
   The other side: with two keys, Ctrl+P followed by Escape in one read and Ctrl+Q in
   the next forwards the Escape ahead of the Ctrl+P still held, and then detaches though
   no word begins anywhere in what was typed.
   */
  lemma EscapeOvertakesMatchedKey()
    ensures var keys := KeysOf([0x10, 0x11]);
            && ReadOnce(keys, [], [0x10, ESC]) == Outcome([ESC], false, [0x10], [], 1)
            && Reads(keys, [], [[0x10, ESC], [0x11]]) == Session([ESC], true, [])
            && Reads(keys, [], [[0x10, ESC], [65]]).forward == [ESC, 0x10, 65]
            && NoWordIn(keys, [0x10, ESC, 0x11])
  {
    TwoKeySteps();
    NoTwoKeyWord();
    var keys := KeysOf([0x10, 0x11]);
    assert [] + [0x10, ESC] == [0x10, ESC] && [0x10, ESC][..1] == [0x10];
    var pending: seq<byte> := [0x10] + [];
    assert pending + [0x11] == [0x10, 0x11] && pending + [65] == [0x10, 65];
    assert [0x10, 65][1..] == [65] && [65][1..] == [];
    assert Scan(keys, []) == Outcome([], false, [], [], 0);
    assert Scan(keys, [65]) == Outcome([65], false, [], [], 0);
    var twoReads: seq<seq<byte>>, other: seq<seq<byte>> := [[0x10, ESC], [0x11]], [[0x10, ESC], [65]];
    assert twoReads[1..] == [[0x11]] && [[0x11]][1..] == [] && other[1..] == [[65]] && [[65]][1..] == [];
  }

  lemma NoTwoKeyWord()
    ensures NoWordIn(KeysOf([0x10, 0x11]), [0x10, ESC, 0x11])
  {
    TwoKeyDeadEnds();
    var keys := KeysOf([0x10, 0x11]);
    var s: seq<byte> := [0x10, ESC, 0x11];
    assert s[0..] == s && s[1..] == [ESC, 0x11] && s[2..] == [0x11] && s[3..] == [];
    forall p | 0 <= p <= |s| ensures !WordBegins(keys, s, p) {
      CompletesIffWordBegins(keys, s, p);
    }
  }

  lemma TwoKeySteps()
    ensures var keys := KeysOf([0x10, 0x11]);
            && Follow(keys, 0, [], [0x10, ESC]) == Live(1, [ESC])
            && Follow(keys, 0, [], [0x10, 0x11]) == Complete([])
            && Follow(keys, 0, [], [0x10, 65]) == Dead
            && Follow(keys, 0, [], [65]) == Dead
  {
    OneStep(0, [], [0x10, ESC], [ESC]);
    OneStep(1, [], [ESC], []);
    OneStep(0, [], [0x10, 0x11], [0x11]);
    OneStep(1, [], [0x11], []);
    OneStep(0, [], [0x10, 65], [65]);
    OneStep(1, [], [65], []);
    OneStep(0, [], [65], []);
  }

  lemma TwoKeyDeadEnds()
    ensures var keys := KeysOf([0x10, 0x11]);
            && Follow(keys, 0, [], [0x10, ESC, 0x11]) == Dead
            && Follow(keys, 0, [], [ESC, 0x11]) == Dead
            && Follow(keys, 0, [], [0x11]) == Dead
  {
    OneStep(0, [], [0x10, ESC, 0x11], [ESC, 0x11]);
    OneStep(1, [], [ESC, 0x11], [0x11]);
    OneStep(1, [ESC], [0x11], []);
    OneStep(0, [], [ESC, 0x11], [0x11]);
    OneStep(0, [ESC], [0x11], []);
    OneStep(0, [], [0x11], []);
  }

  lemma OneStep(k: nat, held: seq<byte>, s: seq<byte>, rest: seq<byte>)
    requires k < 2 && |held| <= 1 && |s| > 0 && rest == s[1..]
    ensures var keys := KeysOf([0x10, 0x11]);
            var b: byte := if k == 0 then 0x10 else 0x11;
            var h := held + [s[0]];
            && (h == [b] ==> Follow(keys, k, held, s) == if k == 1 then Complete(rest) else Follow(keys, 1, [], rest))
            && (h == [ESC] ==> Follow(keys, k, held, s) == Follow(keys, k, h, rest))
            && (|h| == 1 && h != [b] && h != [ESC] ==> Follow(keys, k, held, s) == Dead)
            && (|h| == 2 && h[1] != 91 ==> Follow(keys, k, held, s) == Dead)
  {
    var b: byte := if k == 0 then 0x10 else 0x11;
    var key := Encodings(b);
    var h := held + [s[0]];
    assert KeysOf([0x10, 0x11])[k] == key;
    assert key[0] == [b] && key[1] == KittyForm(b) && key[2] == XtermForm(b);
    assert [ESC] <= key[1];
    assert key[1][..2] == [ESC, 91] == key[2][..2];
  }
}
