/**
 What the detach matcher recognises, said without the matcher: a word spells the
 sequence key by key, each key taking its shortest encoding. The main theorem is that
 a search detaches exactly when some position begins a word, and that what it forwards
 then is what precedes the leftmost such position.

 This needs more than the matcher's own loop. While one start is still live a later
 start is not tried, so a later word might be missed: with arbitrary encodings it can
 be. `NoOvertaking` shows that the encodings a terminal sends leave no room for that.
 */
module DetachWords {
  import opened Bytes
  import opened DetachMatcher

  /** key takes e: e is an encoding of key, and no proper prefix of e is one. */
  ghost predicate Takes(key: Key, e: seq<byte>)
  {
    e in key && forall i :: 0 < i < |e| ==> e[..i] !in key
  }

  ghost predicate Spells(keys: seq<Key>, w: seq<byte>)
    decreases |keys|
  {
    if keys == [] then w == []
    else exists c :: 0 < c <= |w| && Takes(keys[0], w[..c]) && Spells(keys[1..], w[c..])
  }

  ghost predicate WordBegins(keys: seq<Key>, s: seq<byte>, p: nat)
    requires p <= |s|
  {
    exists e :: p <= e <= |s| && Spells(keys, s[p..e])
  }

  // ---- One attempt completes exactly on a word ------------------------------

  lemma {:induction false} FollowOneKey(keys: seq<Key>, k: nat, held: seq<byte>, s: seq<byte>, c: nat)
    requires k < |keys| && c <= |s| && 0 < c
    requires Takes(keys[k], held + s[..c])
    ensures Follow(keys, k, held, s) ==
            if k + 1 == |keys| then Complete(s[c..]) else Follow(keys, k + 1, [], s[c..])
    decreases c
  {
    var e := held + s[..c];
    var h := held + [s[0]];
    assert h == e[..|held| + 1];
    if c == 1 {
      assert h == e;
    } else {
      assert h !in keys[k];
      assert LivePrefix(keys[k], h) by {
        var i :| 0 <= i < |keys[k]| && keys[k][i] == e;
      }
      assert h + s[1..][..c - 1] == e;
      FollowOneKey(keys, k, h, s[1..], c - 1);
      assert s[1..][c - 1..] == s[c..];
    }
  }

  lemma {:induction false} SpelledCompletes(keys: seq<Key>, k: nat, s: seq<byte>, e: nat)
    requires k < |keys| && e <= |s| && Spells(keys[k..], s[..e])
    ensures Follow(keys, k, [], s) == Complete(s[e..])
    decreases |keys| - k
  {
    var w := s[..e];
    var c :| 0 < c <= |w| && Takes(keys[k..][0], w[..c]) && Spells(keys[k..][1..], w[c..]);
    assert [] + s[..c] == w[..c];
    FollowOneKey(keys, k, [], s, c);
    assert keys[k..][1..] == keys[k + 1..];
    if k + 1 == |keys| {
      assert w[c..] == [];
    } else {
      assert s[c..][..e - c] == w[c..];
      SpelledCompletes(keys, k + 1, s[c..], e - c);
      assert s[c..][e - c..] == s[e..];
    }
  }

  lemma {:induction false} CompletedSpells(keys: seq<Key>, k: nat, held: seq<byte>, s: seq<byte>)
    requires k < |keys| && Follow(keys, k, held, s).Complete?
    requires forall i :: 0 < i <= |held| ==> held[..i] !in keys[k]
    ensures var rest := Follow(keys, k, held, s).rest;
            && |rest| < |s| && rest == s[|s| - |rest|..]
            && Spells(keys[k..], held + s[..|s| - |rest|])
    decreases |s|
  {
    var rest := Follow(keys, k, held, s).rest;
    var h := held + [s[0]];
    assert forall i :: 0 < i < |h| ==> h[..i] == held[..i];
    assert h[..|h|] == h;
    if h in keys[k] {
      if k + 1 < |keys| {
        CompletedSpells(keys, k + 1, [], s[1..]);
      } else {
        assert rest == s[1..];
        assert keys[k + 1..] == [];
      }
      var w := held + s[..|s| - |rest|];
      var v := s[1..][..|s[1..]| - |rest|];
      assert w == h + v && w[..|h|] == h && w[|h|..] == v && [] + v == v;
      assert keys[k..][0] == keys[k] && keys[k..][1..] == keys[k + 1..];
      assert Takes(keys[k..][0], w[..|h|]) && Spells(keys[k..][1..], w[|h|..]);
    } else {
      CompletedSpells(keys, k, h, s[1..]);
      assert h + s[1..][..|s[1..]| - |rest|] == held + s[..|s| - |rest|];
    }
  }

  lemma WordCompletes(keys: seq<Key>, s: seq<byte>, p: nat)
    requires |keys| > 0 && p <= |s| && WordBegins(keys, s, p)
    ensures Follow(keys, 0, [], s[p..]).Complete?
  {
    var e :| p <= e <= |s| && Spells(keys, s[p..e]);
    assert s[p..][..e - p] == s[p..e] && keys[0..] == keys;
    SpelledCompletes(keys, 0, s[p..], e - p);
  }

  lemma CompletesIffWordBegins(keys: seq<Key>, s: seq<byte>, p: nat)
    requires |keys| > 0 && p <= |s|
    ensures Follow(keys, 0, [], s[p..]).Complete? <==> WordBegins(keys, s, p)
  {
    var t := s[p..];
    if Follow(keys, 0, [], t).Complete? {
      CompletedSpells(keys, 0, [], t);
      var n := |t| - |Follow(keys, 0, [], t).rest|;
      assert [] + t[..n] == s[p..p + n] && keys[0..] == keys;
      assert Spells(keys, s[p..p + n]);
    } else if WordBegins(keys, s, p) {
      WordCompletes(keys, s, p);
    }
  }

  // ---- A later start never completes while an earlier one is live -----------

  /** No byte both ends an encoding of key and extends an unfinished one. */
  ghost predicate EndsTell(key: Key)
  {
    forall e, h :: e in key && |e| > 0 && LivePrefix(key, h) && |h| > 0 && h !in key
                   ==> e[|e| - 1] != h[|h| - 1]
  }

  /** The bytes inside an escape encoding: '[', ';' and digits. */
  predicate Inner(c: byte)
  {
    48 <= c <= 57 || c == 59 || c == 91
  }

  lemma InnerByte(front: seq<byte>, digits: seq<byte>, back: seq<byte>, i: nat)
    requires 0 < i < |front| + |digits| + |back| - 1 && |front| > 0 && |back| > 0
    requires forall j :: 0 < j < |front| ==> Inner(front[j])
    requires forall c :: c in digits ==> 48 <= c <= 57
    requires forall j :: 0 <= j < |back| - 1 ==> Inner(back[j])
    ensures Inner((front + digits + back)[i])
  {
    var e := front + digits + back;
    if i < |front| {
      assert e[i] == front[i];
    } else if i < |front| + |digits| {
      assert e[i] == digits[i - |front|];
      assert e[i] in digits;
    } else {
      assert e[i] == back[i - |front| - |digits|];
    }
  }

  lemma LivePrefixShape(b: byte, h: seq<byte>)
    requires LivePrefix(Encodings(b), h) && |h| > 0
    ensures h[0] == ESC && (h == [ESC] || Inner(h[|h| - 1]))
  {
    var key := Encodings(b);
    var j :| 0 <= j < |key| && |h| < |key[j]| && h <= key[j];
    assert j == 1 || j == 2;
    assert h[0] == key[j][0] && h[|h| - 1] == key[j][|h| - 1];
    if |h| > 1 {
      var digits := Decimal(KeyNumber(b));
      if j == 1 {
        InnerByte([ESC, 91], digits, [59, 53, 117], |h| - 1);
      } else {
        InnerByte([ESC, 91, 50, 55, 59, 53, 59], digits, [126], |h| - 1);
      }
    }
  }

  lemma EncodingsEndTell(b: byte)
    ensures EndsTell(Encodings(b))
    ensures forall e :: e in Encodings(b) ==> |e| > 0
  {
    var key := Encodings(b);
    forall e, h | e in key && |e| > 0 && LivePrefix(key, h) && |h| > 0 && h !in key
      ensures e[|e| - 1] != h[|h| - 1]
    {
      LivePrefixShape(b, h);
      var digits := Decimal(KeyNumber(b));
      assert key[0] == [b];
      if 1 <= b < 0x20 {
        assert key[1][|key[1]| - 1] == 117;
        assert key[2][|key[2]| - 1] == 126;
      }
    }
  }

  /** A start that is not ahead in keys stays not ahead, whatever bytes follow. */
  lemma {:induction false} NoOvertaking(keys: seq<Key>, k: nat, held: seq<byte>, k': nat, held': seq<byte>,
                                        s: seq<byte>)
    requires forall i :: 0 <= i < |keys| ==> EndsTell(keys[i])
    requires k' <= k < |keys|
    requires Follow(keys, k, held, s).Live?
    ensures !Follow(keys, k', held', s).Complete?
    decreases |s|
  {
    if s != [] {
      var h, h' := held + [s[0]], held' + [s[0]];
      if h in keys[k] {
        if h' in keys[k'] {
          NoOvertaking(keys, k + 1, [], k' + 1, [], s[1..]);
        } else {
          NoOvertaking(keys, k + 1, [], k', h', s[1..]);
        }
      } else {
        assert LivePrefix(keys[k], h);
        if h' in keys[k'] {
          assert k' != k by {
            assert EndsTell(keys[k]);
            assert h'[|h'| - 1] == h[|h| - 1] == s[0];
          }
          NoOvertaking(keys, k, h, k' + 1, [], s[1..]);
        } else {
          NoOvertaking(keys, k, h, k', h', s[1..]);
        }
      }
    }
  }

  /** While the start at 0 is live no word begins anywhere in the input. */
  lemma LiveMeansNoWord(keys: seq<Key>, s: seq<byte>, p: nat)
    requires |keys| > 0 && p <= |s|
    requires forall i :: 0 <= i < |keys| ==> EndsTell(keys[i])
    requires Follow(keys, 0, [], s).Live?
    ensures !WordBegins(keys, s, p)
  {
    CompletesIffWordBegins(keys, s, p);
    FollowAppend(keys, 0, [], s[..p], s[p..]);
    assert s[..p] + s[p..] == s;
    var r := Follow(keys, 0, [], s[..p]);
    NoOvertaking(keys, r.idx, r.held, 0, [], s[p..]);
  }

  // ---- Main theorem ---------------------------------------------------------

  ghost predicate LeftmostWord(keys: seq<Key>, s: seq<byte>, p: nat)
  {
    p <= |s| && WordBegins(keys, s, p) && forall q :: 0 <= q < p ==> !WordBegins(keys, s, q)
  }

  lemma {:induction false} ScanFindsLeftmost(keys: seq<Key>, s: seq<byte>)
    requires |keys| > 0
    requires forall i :: 0 <= i < |keys| ==> EndsTell(keys[i])
    ensures var r := Scan(keys, s);
            if r.detached then |r.forward| <= |s| && r.forward == s[..|r.forward|] && LeftmostWord(keys, s, |r.forward|)
            else forall p :: 0 <= p <= |s| ==> !WordBegins(keys, s, p)
    decreases |s|
  {
    assert s[0..] == s;
    CompletesIffWordBegins(keys, s, 0);
    match Follow(keys, 0, [], s)
    case Complete(_) =>
    case Live(_, _) =>
      forall p | 0 <= p <= |s| ensures !WordBegins(keys, s, p) { LiveMeansNoWord(keys, s, p); }
    case Dead =>
      ScanFindsLeftmost(keys, s[1..]);
      forall p | 0 < p <= |s| ensures WordBegins(keys, s, p) <==> WordBegins(keys, s[1..], p - 1) {
        CompletesIffWordBegins(keys, s, p);
        CompletesIffWordBegins(keys, s[1..], p - 1);
        assert s[p..] == s[1..][p - 1..];
      }
  }

  /**
   For every detach sequence and every input: the matcher detaches exactly when a word
   begins somewhere, having forwarded exactly what precedes the leftmost one; until then
   what was forwarded and what is held back is the input, in order.
   */
  lemma DetachesExactlyOnLeftmostWord(sequence: seq<byte>, s: seq<byte>)
    requires sequence != []
    ensures var keys := KeysOf(sequence);
            var r := Scan(keys, s);
            && (r.detached <==> exists p :: 0 <= p <= |s| && WordBegins(keys, s, p))
            && (r.detached ==>
                  |r.forward| <= |s| && r.forward == s[..|r.forward|] && LeftmostWord(keys, s, |r.forward|))
            && (!r.detached ==> r.forward + r.matched + r.held == s)
  {
    var keys := KeysOf(sequence);
    forall i | 0 <= i < |keys| ensures EndsTell(keys[i]) { EncodingsEndTell(sequence[i]); }
    ScanFindsLeftmost(keys, s);
    ScanConserves(keys, s);
  }

  /** The hypothesis is not idle: with other encodings a live start can hide a word. */
  lemma OtherEncodingsHideAWord()
    ensures var keys: seq<Key> := [[[1], [2, 1, 3]]];
            var s: seq<byte> := [2, 1];
            WordBegins(keys, s, 1) && !Scan(keys, s).detached
  {
    var keys: seq<Key> := [[[1], [2, 1, 3]]];
    var s: seq<byte> := [2, 1];
    assert Spells(keys[1..], []);
    var w := s[1..2];
    assert w == [1] && w[..1] == [1] && w[1..] == [];
    assert Takes(keys[0], w[..1]);
    assert Spells(keys, w);
    assert [] + [s[0]] == [2] && s[1..] == [1] && [2] + [s[1..][0]] == [2, 1];
    assert keys[0][1] == [2, 1, 3];
    assert [2] <= keys[0][1] && [2, 1] <= keys[0][1];
    assert LivePrefix(keys[0], [2]) && LivePrefix(keys[0], [2, 1]);
    assert Follow(keys, 0, [2, 1], []) == Live(0, [2, 1]);
    assert Follow(keys, 0, [2], [1]) == Live(0, [2, 1]);
  }
}
