/**
 The detach matcher of `webmanager --attach` (webmanager/backend/attachcmd.go):
 an online matcher over the bytes read from the terminal. Each key of the
 configured detach sequence may arrive in several encodings; bytes that may still
 become the sequence are held back, and everything else is forwarded.

 `Detacher` is the program. `Follow` runs one attempt from one position and `Scan`
 is the whole search; the theorems tie `Scan` to words of the key sequence
 (`Spells`), which mention no matcher state at all.
 */
module DetachMatcher {

  import opened Bytes

  type Key = seq<seq<byte>>  // every encoding one key press may arrive as

  const ESC: byte := 0x1b

  // ---- Encodings of the configured keys -------------------------------------

  function Digit(d: nat): byte
    requires d < 10
  {
    48 + d as byte
  }

  /** The decimal digits of n, as `%d` prints them. */
  function Decimal(n: nat): (s: seq<byte>)
    ensures |s| > 0
    ensures forall c :: c in s ==> 48 <= c <= 57
  {
    if n < 10 then [Digit(n)] else Decimal(n / 10) + [Digit(n % 10)]
  }

  /** The unshifted character a control byte stands for: 0x1d is ']', 0x01 is 'a'. */
  function KeyNumber(b: byte): nat
  {
    var key := b as int + 0x40;
    if 65 <= key <= 90 then key + 32 else key
  }

  // ESC [ <key> ; 5 u
  function KittyForm(b: byte): seq<byte>
  {
    [ESC, 91] + Decimal(KeyNumber(b)) + [59, 53, 117]
  }

  // ESC [ 2 7 ; 5 ; <key> ~
  function XtermForm(b: byte): seq<byte>
  {
    [ESC, 91, 50, 55, 59, 53, 59] + Decimal(KeyNumber(b)) + [126]
  }

  function Encodings(b: byte): Key
  {
    if 1 <= b < 0x20 then [[b], KittyForm(b), XtermForm(b)] else [[b]]
  }

  function KeysOf(sequence: seq<byte>): seq<Key>
  {
    seq(|sequence|, i requires 0 <= i < |sequence| => Encodings(sequence[i]))
  }

  // ---- What the encodings mean ----------------------------------------------

  /** The number that decimal digits stand for, read digit by digit. */
  function Value(digits: seq<byte>): int
  {
    if digits == [] then 0 else 10 * Value(digits[..|digits| - 1]) + (digits[|digits| - 1] as int - '0' as int)
  }

  /** The digits of a number, without leading zeros. */
  predicate IsDecimal(digits: seq<byte>)
  {
    && digits != [] && (digits[0] == '0' as byte ==> |digits| == 1)
    && forall i :: 0 <= i < |digits| ==> '0' as byte <= digits[i] <= '9' as byte
  }

  lemma {:induction false} DecimalReadsBack(n: nat)
    ensures IsDecimal(Decimal(n)) && Value(Decimal(n)) == n && (n > 0 ==> Decimal(n)[0] != '0' as byte)
  {
    if n < 10 {
      assert Decimal(n)[..0] == [];
    } else {
      DecimalReadsBack(n / 10);
      var s := Decimal(n / 10);
      assert Decimal(n)[..|s|] == s;
    }
  }

  /** No two texts without leading zeros stand for one number. */
  lemma {:induction false} DecimalIsOnly(digits: seq<byte>)
    requires IsDecimal(digits)
    ensures Value(digits) >= 0 && digits == Decimal(Value(digits)) && (digits[0] != '0' as byte ==> Value(digits) > 0)
    decreases |digits|
  {
    var front, last := digits[..|digits| - 1], digits[|digits| - 1];
    assert digits == front + [last];
    if front == [] {
      assert Value(front) == 0;
    } else {
      DecimalIsOnly(front);
      assert Value(digits) / 10 == Value(front) && Value(digits) % 10 == last as int - '0' as int;
    }
  }

  /** c is the code of the unshifted character that, typed with Ctrl, gives the control byte b. */
  predicate StandsFor(b: byte, c: int)
  {
    ('a' as int <= c <= 'z' as int || '[' as int <= c <= '_' as int) && c % 32 == b as int
  }

  /** A key press of b, as kitty (CSI key ; 5 u) or xterm (CSI 27 ; 5 ; key ~) report Ctrl and a character. */
  ghost predicate Reports(e: seq<byte>, b: byte)
  {
    exists digits: seq<byte> ::
      && IsDecimal(digits) && StandsFor(b, Value(digits))
      && (e == [ESC, 91] + digits + [59, 53, 117] || e == [ESC, 91, 50, 55, 59, 53, 59] + digits + [126])
  }

  lemma NumberStandsFor(b: byte, c: int)
    ensures StandsFor(b, c) <==> 1 <= b < 0x20 && KeyNumber(b) == c
  {
  }

  /** A key press is the byte itself or, for a control byte, a report of its character; nothing else is one. */
  lemma EncodingIff(b: byte, e: seq<byte>)
    ensures e in Encodings(b) <==> e == [b] || Reports(e, b)
  {
    if Reports(e, b) {
      var digits: seq<byte> :|
        && IsDecimal(digits) && StandsFor(b, Value(digits))
        && (e == [ESC, 91] + digits + [59, 53, 117] || e == [ESC, 91, 50, 55, 59, 53, 59] + digits + [126]);
      NumberStandsFor(b, Value(digits));
      DecimalIsOnly(digits);
      assert e == Encodings(b)[1] || e == Encodings(b)[2];
    } else if e in Encodings(b) && e != [b] {
      NumberStandsFor(b, KeyNumber(b));
      DecimalReadsBack(KeyNumber(b));
      assert Reports(e, b);
    }
  }

  method DetachCandidates(sequence: seq<byte>) returns (keys: seq<Key>)
    ensures keys == KeysOf(sequence)
    ensures forall i, e :: 0 <= i < |keys| ==> (e in keys[i] <==> e == [sequence[i]] || Reports(e, sequence[i]))
  {
    keys := [];
    for n := 0 to |sequence|
      invariant keys == KeysOf(sequence)[..n]
    {
      var b := sequence[n];
      var alts := [[b]];
      if b >= 0x01 && b < 0x20 {
        alts := alts + [KittyForm(b), XtermForm(b)];
      }
      assert alts == Encodings(b);
      assert KeysOf(sequence)[..n + 1] == KeysOf(sequence)[..n] + [KeysOf(sequence)[n]];
      keys := keys + [alts];
    }
    assert KeysOf(sequence)[..|sequence|] == KeysOf(sequence);
    forall i, e | 0 <= i < |keys| ensures e in keys[i] <==> e == [sequence[i]] || Reports(e, sequence[i]) {
      EncodingIff(sequence[i], e);
    }
  }

  // ---- One attempt, from one position ---------------------------------------

  /** h is a proper prefix of some encoding of key. */
  predicate LivePrefix(key: Key, h: seq<byte>)
  {
    exists i :: 0 <= i < |key| && |h| < |key[i]| && h <= key[i]
  }

  datatype Attempt =
    | Complete(rest: seq<byte>)         // the whole sequence matched; rest is what follows it
    | Live(idx: nat, held: seq<byte>)   // input ended in the middle of the sequence
    | Dead                              // some byte broke the match

  /** Matches s from key k on, `held` being the part of key k already read. */
  function Follow(keys: seq<Key>, k: nat, held: seq<byte>, s: seq<byte>): Attempt
    requires k < |keys|
    decreases |s|
  {
    if s == [] then Live(k, held)
    else
      var h := held + [s[0]];
      if h in keys[k] then
        if k + 1 == |keys| then Complete(s[1..]) else Follow(keys, k + 1, [], s[1..])
      else if LivePrefix(keys[k], h) then Follow(keys, k, h, s[1..])
      else Dead
  }

  lemma {:induction false} FollowAppend(keys: seq<Key>, k: nat, held: seq<byte>, a: seq<byte>, b: seq<byte>)
    requires k < |keys|
    ensures Follow(keys, k, held, a).Live? ==> Follow(keys, k, held, a).idx < |keys|
    ensures Follow(keys, k, held, a + b) ==
            var r := Follow(keys, k, held, a);
            if r.Complete? then Complete(r.rest + b) else if r.Live? then Follow(keys, r.idx, r.held, b) else Dead
    decreases |a|
  {
    if a == [] {
      assert a + b == b;
    } else {
      assert (a + b)[1..] == a[1..] + b;
      var h := held + [a[0]];
      if h in keys[k] {
        if k + 1 < |keys| {
          FollowAppend(keys, k + 1, [], a[1..], b);
        }
      } else if LivePrefix(keys[k], h) {
        FollowAppend(keys, k, h, a[1..], b);
      }
    }
  }

  /**
   Either the input ended inside key k, all of it being held; or it is a front that
   matches whole keys, followed by what is held.
   */
  lemma {:induction false} LiveSplits(keys: seq<Key>, k: nat, held: seq<byte>, s: seq<byte>) returns (front: seq<byte>)
    requires k < |keys| && Follow(keys, k, held, s).Live?
    ensures var r := Follow(keys, k, held, s);
            && k <= r.idx < |keys|
            && (r.idx == k ==> r.held == held + s && front == [])
            && (r.idx != k ==> s == front + r.held && Follow(keys, k, held, front) == Live(r.idx, []))
    decreases |s|
  {
    front := [];
    if s == [] {
      assert held + s == held;
    } else {
      var b, t := s[0], s[1..];
      var h := held + [b];
      assert s == [b] + t && held + s == h + t;
      var rest;
      if h in keys[k] {
        rest := LiveSplits(keys, k + 1, [], t);
        assert [] + t == t;
        front := [b] + rest;
        assert front[1..] == rest;
      } else {
        rest := LiveSplits(keys, k, h, t);
        if Follow(keys, k, held, s).idx != k {
          front := [b] + rest;
          assert front[1..] == rest;
        }
      }
    }
  }

  /** The same from the first key: matched whole keys, then what is held. */
  lemma LiveFromStart(keys: seq<Key>, s: seq<byte>)
    requires |keys| > 0 && Follow(keys, 0, [], s).Live?
    ensures var r := Follow(keys, 0, [], s);
            && r.idx < |keys| && |r.held| <= |s|
            && var m := s[..|s| - |r.held|];
            && s == m + r.held && Follow(keys, 0, [], m) == Live(r.idx, [])
            && (r.idx == 0 ==> m == [])
  {
    var r := Follow(keys, 0, [], s);
    var front := LiveSplits(keys, 0, [], s);
    if r.idx == 0 {
      assert [] + s == s;
    }
    assert s == front + r.held;
    assert s[..|s| - |r.held|] == front;
  }

  // ---- The whole search -----------------------------------------------------

  datatype Outcome = Outcome(forward: seq<byte>, detached: bool, matched: seq<byte>, held: seq<byte>, keyIdx: nat)

  /** Tries every start from the left; a start that is still live ends the search. */
  function Scan(keys: seq<Key>, s: seq<byte>): Outcome
    requires |keys| > 0
    decreases |s|
  {
    match Follow(keys, 0, [], s)
    case Complete(_) => Outcome([], true, [], [], 0)
    case Live(k, h) => Outcome([], false, s[..if |h| <= |s| then |s| - |h| else 0], h, k)
    case Dead =>
      var r := Scan(keys, s[1..]);
      r.(forward := [s[0]] + r.forward)
  }

  lemma NothingBefore(m: seq<byte>, h: seq<byte>)
    ensures [] + m + h == m + h
  {
    assert [] + m == m;
  }

  lemma ConsFirst(b: byte, f: seq<byte>, m: seq<byte>, h: seq<byte>)
    ensures [b] + f + m + h == [b] + (f + m + h)
  {
  }

  lemma {:induction false} ScanConserves(keys: seq<Key>, s: seq<byte>)
    requires |keys| > 0
    ensures var r := Scan(keys, s);
            !r.detached ==>
              && r.forward + r.matched + r.held == s
              && Follow(keys, 0, [], r.matched + r.held) == Live(r.keyIdx, r.held)
              && r.keyIdx < |keys|
    decreases |s|
  {
    match Follow(keys, 0, [], s)
    case Complete(_) =>
    case Live(k, h) =>
      LiveFromStart(keys, s);
      NothingBefore(s[..|s| - |h|], h);
    case Dead =>
      ScanConserves(keys, s[1..]);
      var r := Scan(keys, s[1..]);
      ConsFirst(s[0], r.forward, r.matched, r.held);
  }

  lemma {:induction false} ScanDetachedIsReset(keys: seq<Key>, s: seq<byte>)
    requires |keys| > 0 && Scan(keys, s).detached
    ensures var r := Scan(keys, s);
            r.matched == r.held == [] && r.keyIdx == 0
    decreases |s|
  {
    if Follow(keys, 0, [], s) == Dead {
      ScanDetachedIsReset(keys, s[1..]);
    }
  }

  /** Feeding a and then b is feeding a + b, from wherever the matcher stands. */
  lemma {:induction false} ScanAppend(keys: seq<Key>, a: seq<byte>, b: seq<byte>)
    requires |keys| > 0
    ensures var r := Scan(keys, a);
            if r.detached then Scan(keys, a + b) == r
            else
              var r' := Scan(keys, r.matched + r.held + b);
              Scan(keys, a + b) == r'.(forward := r.forward + r'.forward)
    decreases |a|
  {
    FollowAppend(keys, 0, [], a, b);
    var r := Scan(keys, a);
    match Follow(keys, 0, [], a)
    case Complete(_) =>
    case Live(k, h) =>
      ScanConserves(keys, a);
      assert r.matched + r.held == a;
    case Dead =>
      ScanAppend(keys, a[1..], b);
      assert (a + b)[1..] == a[1..] + b;
      var t := Scan(keys, a[1..]);
      if !t.detached {
        var r' := Scan(keys, t.matched + t.held + b);
        assert [a[0]] + (t.forward + r'.forward) == [a[0]] + t.forward + r'.forward;
      }
  }

  /** What one more byte does to a search that has not detached. */
  lemma ScanOneMore(keys: seq<Key>, before: seq<byte>, b: byte)
    requires |keys| > 0 && !Scan(keys, before).detached
    ensures var r := Scan(keys, before);
            var h := r.held + [b];
            && r.keyIdx < |keys|
            && Scan(keys, before + [b]) ==
               if h in keys[r.keyIdx] then
                 if r.keyIdx + 1 == |keys| then Outcome(r.forward, true, [], [], 0)
                 else Outcome(r.forward, false, r.matched + h, [], r.keyIdx + 1)
               else if LivePrefix(keys[r.keyIdx], h) then r.(held := h)
               else
                 var stale := r.matched + h;
                 var r' := Scan(keys, stale[1..]);
                 r'.(forward := r.forward + ([stale[0]] + r'.forward))
  {
    var r := Scan(keys, before);
    ScanAppend(keys, before, [b]);
    ScanConserves(keys, before);
    var h := r.held + [b];
    var stood := r.matched + r.held;
    FollowAppend(keys, 0, [], stood, [b]);
    assert stood + [b] == r.matched + h;
    var stale := r.matched + h;
    assert Follow(keys, r.keyIdx, r.held, [b]) ==
           if h in keys[r.keyIdx] then
             if r.keyIdx + 1 == |keys| then Complete([]) else Live(r.keyIdx + 1, [])
           else if LivePrefix(keys[r.keyIdx], h) then Live(r.keyIdx, h)
           else Dead;
    if Follow(keys, 0, [], stale) != Dead {
      assert r.forward + [] == r.forward;
      assert stale[..|stale| - |h|] == r.matched;
    }
  }

  /** One read: what `Scan` says, and then a half-read escape encoding is let go. */
  function ReadOnce(keys: seq<Key>, pending: seq<byte>, chunk: seq<byte>): Outcome
    requires |keys| > 0
  {
    var r := Scan(keys, pending + chunk);
    if !r.detached && |r.held| > 0 && r.held[0] == ESC then
      r.(forward := r.forward + r.held, held := [])
    else r
  }

  // ---- The program ----------------------------------------------------------

  class Detacher {
    const keys: seq<Key>
    var matched: seq<byte>
    var keyIdx: nat
    var held: seq<byte>

    predicate Valid()
      reads this
    {
      && |keys| > 0
      && keyIdx < |keys|
      && Follow(keys, 0, [], matched + held) == Live(keyIdx, held)
    }

    constructor (sequence: seq<byte>)
      requires sequence != []
      ensures Valid() && keys == KeysOf(sequence) && matched == held == []
    {
      var candidates := DetachCandidates(sequence);
      keys := candidates;
      matched, keyIdx, held := [], 0, [];
    }

    method MatchesKey() returns (found: bool)
      requires keyIdx < |keys|
      ensures found <==> held in keys[keyIdx]
    {
      for i := 0 to |keys[keyIdx]|
        invariant held !in keys[keyIdx][..i]
      {
        if held == keys[keyIdx][i] {
          return true;
        }
      }
      return false;
    }

    method PrefixOfKey() returns (found: bool)
      requires keyIdx < |keys|
      ensures found <==> LivePrefix(keys[keyIdx], held)
    {
      for i := 0 to |keys[keyIdx]|
        invariant forall j :: 0 <= j < i ==> !(|held| < |keys[keyIdx][j]| && held <= keys[keyIdx][j])
      {
        if |held| < |keys[keyIdx][i]| && held <= keys[keyIdx][i] {
          return true;
        }
      }
      return false;
    }

    method Reset()
      modifies this
      ensures matched == held == [] && keyIdx == 0
    {
      matched, held, keyIdx := [], [], 0;
    }

    method Feed(chunk: seq<byte>) returns (forward: seq<byte>, detached: bool)
      requires Valid()
      modifies this
      ensures Valid()
      ensures Outcome(forward, detached, matched, held, keyIdx) == ReadOnce(keys, old(matched + held), chunk)
    {
      forward, detached := FeedBytes(chunk);
      if detached {
        return forward, true;
      }
      if |held| > 0 && held[0] == ESC {
        LetGo();
        forward := forward + held;
        held := [];
      }
      return forward, false;
    }

    lemma LetGo()
      requires Valid() && |held| > 0
      ensures Follow(keys, 0, [], matched + []) == Live(keyIdx, [])
    {
      var s := matched + held;
      LiveFromStart(keys, s);
      assert s[..|s| - |held|] == matched == matched + [];
    }

    /** Everything held so far was ordinary input: its first byte goes out, and the rest is fed again. */
    method Mismatch() returns (forward: seq<byte>, detached: bool)
      requires |keys| > 0 && matched + held != []
      modifies this
      ensures Valid()
      ensures var stale := old(matched + held);
              var again := Scan(keys, stale[1..]);
              Outcome(forward, detached, matched, held, keyIdx) == again.(forward := [stale[0]] + again.forward)
      decreases |matched| + |held|, 0
    {
      var stale := matched + held;
      Reset();
      assert matched + held + stale[1..] == stale[1..];
      var refed, det := FeedBytes(stale[1..]);
      return [stale[0]] + refed, det;
    }

    method FeedBytes(chunk: seq<byte>) returns (forward: seq<byte>, detached: bool)
      requires Valid()
      modifies this
      ensures Valid()
      ensures Outcome(forward, detached, matched, held, keyIdx) == Scan(keys, old(matched + held) + chunk)
      decreases |matched| + |held| + |chunk|, 1
    {
      ghost var start := matched + held;
      forward := [];
      StartsHere();
      assert start + chunk[..0] == start;
      for i := 0 to |chunk|
        invariant Valid()
        invariant Scan(keys, start + chunk[..i]) == Outcome(forward, false, matched, held, keyIdx)
        invariant |matched| + |held| <= |start| + i
      {
        var b := chunk[i];
        ChunkStep(start, chunk, i);
        held := held + [b];
        var complete := MatchesKey();
        if complete {
          matched := matched + held;
          held := [];
          keyIdx := keyIdx + 1;
          if keyIdx == |keys| {
            Reset();
            return forward, true;
          }
          continue;
        }
        var partial := PrefixOfKey();
        if partial {
          continue;
        }
        var flushed, det := Mismatch();
        forward := forward + flushed;
        if det {
          return forward, true;
        }
      }
      assert start + chunk[..|chunk|] == start + chunk;
      detached := false;
    }

    lemma ChunkStep(start: seq<byte>, chunk: seq<byte>, i: nat)
      requires |keys| > 0 && i < |chunk| && !Scan(keys, start + chunk[..i]).detached
      ensures var r := Scan(keys, start + chunk[..i]);
              var h := r.held + [chunk[i]];
              var after := Scan(keys, start + chunk[..i + 1]);
              && r.keyIdx < |keys|
              && after ==
                 (if h in keys[r.keyIdx] then
                    if r.keyIdx + 1 == |keys| then Outcome(r.forward, true, [], [], 0)
                    else Outcome(r.forward, false, r.matched + h, [], r.keyIdx + 1)
                  else if LivePrefix(keys[r.keyIdx], h) then r.(held := h)
                  else
                    var stale := r.matched + h;
                    var r' := Scan(keys, stale[1..]);
                    r'.(forward := r.forward + ([stale[0]] + r'.forward)))
              && if after.detached then after == Scan(keys, start + chunk)
                 else
                   && |after.matched| + |after.held| <= |start| + i + 1
                   && after.keyIdx < |keys|
                   && Follow(keys, 0, [], after.matched + after.held) == Live(after.keyIdx, after.held)
    {
      var before, b := start + chunk[..i], chunk[i];
      assert before + [b] == start + chunk[..i + 1];
      assert before + [b] + chunk[i + 1..] == start + chunk;
      ScanOneMore(keys, before, b);
      ScanAppend(keys, before + [b], chunk[i + 1..]);
      ScanConserves(keys, before + [b]);
    }

    lemma StartsHere()
      requires Valid()
      ensures Scan(keys, matched + held) == Outcome([], false, matched, held, keyIdx)
    {
      var s := matched + held;
      LiveFromStart(keys, s);
      assert s[..|s| - |held|] == matched;
    }
  }
}
