/**
 One browser at the password gate (webmanager/backend/internal/authgate/gate.go): it sends
 the cookie it has, and keeps the one `refreshCookie` hands back. `ClientIsServed` ties a
 client's visits to the steps of `GateSessions`; how far apart they may be is then a
 question about the client alone, answered for any refresh threshold.
 */
module GateClients {
  import opened GateSessions
  import opened Wrappers

  /** One gated request: when its deadline was compared, and when refreshCookie ran. */
  datatype Visit = Visit(check: int, refresh: int)

  /** The cookie after a visit, with a refresh threshold of t. */
  function NextCookie(tok: Token, v: Visit, t: int): Token
  {
    if v.refresh - tok.refreshed < t then tok else MintSession(tok.origin, v.refresh, tok.sid)
  }

  /** Every visit is let through, each with the cookie the one before left. */
  predicate Served(tok: Token, visits: seq<Visit>, t: int)
    decreases |visits|
  {
    visits != [] ==> visits[0].check < Deadline(tok) && Served(NextCookie(tok, visits[0], t), visits[1..], t)
  }

  /** Visits in order, each at most `gap` after the one before (the first: after the unlock). */
  predicate Steady(last: int, visits: seq<Visit>, gap: int)
    decreases |visits|
  {
    visits != [] ==>
      && last <= visits[0].check <= visits[0].refresh
      && visits[0].check - last <= gap
      && Steady(visits[0].refresh, visits[1..], gap)
  }

  predicate BeforeHardCap(origin: int, visits: seq<Visit>)
  {
    forall i :: 0 <= i < |visits| ==> visits[i].check < origin + MAX_SESSION_LIFETIME
  }

  /** How old a cookie may be after a visit: up to the threshold, or the second its time was cut to. */
  function Slack(t: int): int
  {
    if t < SECOND then SECOND else t
  }

  lemma {:induction false} SteadyIsServed(tok: Token, last: int, visits: seq<Visit>, t: int)
    requires tok.origin == Unix(tok.origin) && last < tok.refreshed + Slack(t)
    requires Steady(last, visits, SESSION_TTL - Slack(t)) && BeforeHardCap(tok.origin, visits)
    ensures Served(tok, visits, t)
    decreases |visits|
  {
    if visits != [] {
      var v := visits[0];
      var tok' := NextCookie(tok, v, t);
      assert tok'.origin == tok.origin;
      forall i | 0 <= i < |visits[1..]| ensures visits[1..][i].check < tok.origin + MAX_SESSION_LIFETIME {
        assert visits[1..][i] == visits[i + 1];
      }
      SteadyIsServed(tok', v.refresh, visits[1..], t);
    }
  }

  lemma {:induction false} SteadyWithin(last: int, visits: seq<Visit>, gap: int, gap': int)
    requires Steady(last, visits, gap) && gap <= gap'
    ensures Steady(last, visits, gap')
    decreases |visits|
  {
    if visits != [] {
      SteadyWithin(visits[0].refresh, visits[1..], gap, gap');
    }
  }

  /** A client that visits at least every `gap` is never locked before the hard cap. */
  ghost predicate NeverIdledOut(t: int, gap: int)
  {
    forall origin: int, unlockedAt: int, sid: Sid, visits: seq<Visit> ::
      origin <= unlockedAt && Steady(unlockedAt, visits, gap) && BeforeHardCap(Unix(origin), visits)
      ==> Served(MintSession(origin, unlockedAt, sid), visits, t)
  }

  /** Visits that each take no time, too young to slide the cookie until the last comes too late. */
  lemma {:induction false} IdledOut(tok: Token, last: int, t: int, gap: int) returns (visits: seq<Visit>)
    requires tok.refreshed == 0 && SECOND - 1 <= last < Slack(t) && last <= SESSION_TTL
    requires gap > 0 && gap > SESSION_TTL - Slack(t)
    ensures Steady(last, visits, gap) && !Served(tok, visits, t)
    ensures forall v <- visits :: v.check == v.refresh <= SESSION_TTL
    decreases SESSION_TTL - last
  {
    if SESSION_TTL - last <= gap {
      visits := [Visit(SESSION_TTL, SESSION_TTL)];
      assert visits[1..] == [];
    } else {
      var next := if last + gap < t then last + gap else t - 1;
      var v := Visit(next, next);
      assert NextCookie(tok, v, t) == tok;
      var rest := IdledOut(tok, next, t, gap);
      visits := [v] + rest;
      assert visits[1..] == rest;
    }
  }

  /**
   The sliding refresh keeps a client unlocked exactly when its visits are at most
   sessionTTL less the threshold apart; tokens count whole seconds, so a threshold below
   one second is no better than one second. The source's comment that any threshold below
   sessionTTL leaves sliding unaffected claims more.
   */
  lemma SlidingWorksIff(t: int, gap: int)
    requires gap > 0
    ensures NeverIdledOut(t, gap) <==> gap <= SESSION_TTL - Slack(t)
  {
    if gap <= SESSION_TTL - Slack(t) {
      forall origin: int, unlockedAt: int, sid: Sid, visits: seq<Visit> |
        origin <= unlockedAt && Steady(unlockedAt, visits, gap) && BeforeHardCap(Unix(origin), visits)
        ensures Served(MintSession(origin, unlockedAt, sid), visits, t)
      {
        SteadyWithin(unlockedAt, visits, gap, SESSION_TTL - Slack(t));
        SteadyIsServed(MintSession(origin, unlockedAt, sid), unlockedAt, visits, t);
      }
    } else {
      var unlockedAt := SECOND - 1;
      var tok := MintSession(0, unlockedAt, 0);
      var visits := IdledOut(tok, unlockedAt, t, gap);
      assert BeforeHardCap(Unix(0), visits);
      assert !Served(tok, visits, t) && Steady(unlockedAt, visits, gap);
    }
  }

  // ---- A client in a run ----------------------------------------------------

  /** The requests of one visit and where in the run their steps are. */
  datatype Trace = Trace(check: Request, begin: nat, lookUp: nat, decide: nat,
                         refresh: Request, begin': nat, lookUp': nat, slide: nat)

  predicate Uses(step: Step, r: Request)
  {
    match step
    case Begin(r', _, _) => r' == r
    case LookUp(r') => r' == r
    case Decide(r') => r' == r
    case Slide(r') => r' == r
    case ReadClock(r') => r' == r
    case Commit(r') => r' == r
    case _ => false
  }

  /** Request r parses the token at b, looks it up at l, and does nothing else before e. */
  ghost predicate Passes(steps: seq<Step>, r: Request, purpose: Purpose, tok: Token, b: nat, l: nat, e: nat)
  {
    && b < l < e < |steps|
    && steps[b] == Begin(r, purpose, tok) && steps[l] == LookUp(r)
    && forall m :: b < m < e && m != l ==> !Uses(steps[m], r)
  }

  function NowAt(states: seq<State>, i: nat): int
  {
    if i < |states| then states[i].now else 0
  }

  predicate LetThrough(states: seq<State>, v: Trace)
  {
    v.decide < |states| && Accepts(states[v.decide], v.check)
  }

  function VisitOf(states: seq<State>, v: Trace): Visit
  {
    Visit(NowAt(states, v.decide), NowAt(states, if LetThrough(states, v) then v.slide else v.decide))
  }

  function Times(states: seq<State>, vs: seq<Trace>): seq<Visit>
  {
    if vs == [] then [] else [VisitOf(states, vs[0])] + Times(states, vs[1..])
  }

  /** The visits of a client that holds tok from then on: each is checked, and if let through slides its cookie. */
  ghost predicate ClientRun(states: seq<State>, steps: seq<Step>, from: nat, tok: Token, vs: seq<Trace>)
    decreases |vs|
  {
    vs != [] ==>
      var v := vs[0];
      && from <= v.begin
      && Passes(steps, v.check, Check, tok, v.begin, v.lookUp, v.decide) && steps[v.decide] == Decide(v.check)
      && if LetThrough(states, v) then
           && v.decide < v.begin'
           && Passes(steps, v.refresh, Refresh, tok, v.begin', v.lookUp', v.slide) && steps[v.slide] == Slide(v.refresh)
           && ClientRun(states, steps, v.slide + 1, NextCookie(tok, VisitOf(states, v), REFRESH_THRESHOLD), vs[1..])
         else |vs| == 1
  }

  predicate AllLetThrough(states: seq<State>, vs: seq<Trace>)
  {
    forall i :: 0 <= i < |vs| ==> LetThrough(states, vs[i])
  }

  // ---- What holds of minted tokens ------------------------------------------

  ghost predicate Timely(minted: set<Token>, now: int)
  {
    forall tok :: tok in minted ==> tok.origin == Unix(tok.origin) && TimesOk(tok, now)
  }

  lemma ClientInvStep(s: State, step: Step)
    requires Inv(s) && Timely(s.minted, s.now) && Enabled(s, step)
    ensures var s' := Do(s, step); Timely(s'.minted, s'.now)
  {
    if step.Slide? {
      assert s.requests[step.r].tok in s.minted;
    }
  }

  lemma {:induction false} ClientInv(states: seq<State>, steps: seq<Step>, n: nat)
    requires Run(states, steps) && n < |states|
    ensures Timely(states[n].minted, states[n].now)
    decreases n
  {
    if n > 0 {
      ClientInv(states, steps, n - 1);
      RunInv(states, steps, n - 1);
      ClientInvStep(states[n - 1], steps[n - 1]);
    }
  }

  lemma MintedGrows(s: State, step: Step)
    requires Enabled(s, step)
    ensures s.minted <= Do(s, step).minted
  {
  }

  lemma {:induction false} MintedStays(states: seq<State>, steps: seq<Step>, m: nat, n: nat)
    requires Run(states, steps) && m <= n < |states|
    ensures states[m].minted <= states[n].minted
    decreases n
  {
    if m < n {
      MintedStays(states, steps, m, n - 1);
      MintedGrows(states[n - 1], steps[n - 1]);
    }
  }

  lemma UnusedStep(s: State, step: Step, r: Request)
    requires Enabled(s, step) && !Uses(step, r) && r in s.requests
    ensures r in Do(s, step).requests && Do(s, step).requests[r] == s.requests[r]
  {
  }

  lemma {:induction false} Unused(states: seq<State>, steps: seq<Step>, m: nat, n: nat, r: Request)
    requires Run(states, steps) && m <= n < |states| && r in states[m].requests
    requires forall k :: m <= k < n ==> !Uses(steps[k], r)
    ensures r in states[n].requests && states[n].requests[r] == states[m].requests[r]
    decreases n
  {
    if m < n {
      Unused(states, steps, m, n - 1, r);
      UnusedStep(states[n - 1], steps[n - 1], r);
    }
  }

  ghost predicate NeverLocked(steps: seq<Step>, sid: Sid)
  {
    forall i :: 0 <= i < |steps| ==> !Locks(steps, i, sid)
  }

  /** A minted token of a session that is never revoked passes the parse and the lookup. */
  lemma GetsThrough(states: seq<State>, steps: seq<Step>, r: Request, purpose: Purpose, tok: Token, b: nat, l: nat,
                    e: nat)
    requires Run(states, steps) && Passes(steps, r, purpose, tok, b, l, e)
    requires tok in states[b].minted && NeverLocked(steps, tok.sid)
    ensures r in states[e].requests && states[e].requests[r] == Passed(purpose, tok)
  {
    ClientInv(states, steps, b);
    Unused(states, steps, b + 1, l, r);
    RevokedIffLocked(states, steps, l, tok.sid);
    Unused(states, steps, l + 1, e, r);
  }

  /** The cookie the visit leaves is the one the gate mints then, or had: a young one is not minted anew. */
  lemma SlideLeaves(s: State, r: Request, tok: Token, v: Visit)
    requires Enabled(s, Slide(r)) && s.requests[r].tok == tok && v.refresh == s.now
    requires tok in s.minted && Timely(s.minted, s.now)
    ensures Do(s, Slide(r)).minted == s.minted + {NextCookie(tok, v, 5 * MINUTE)}
  {
  }

  /**
   In every run, under every interleaving: while its session is not revoked, a client is
   let through at every visit exactly when the clock readings of its visits say so.
   */
  lemma {:induction false} ClientIsServed(states: seq<State>, steps: seq<Step>, from: nat, tok: Token, vs: seq<Trace>)
    requires Run(states, steps) && ClientRun(states, steps, from, tok, vs)
    requires from < |states| && tok in states[from].minted && NeverLocked(steps, tok.sid)
    ensures AllLetThrough(states, vs) <==> Served(tok, Times(states, vs), REFRESH_THRESHOLD)
    decreases |vs|
  {
    if vs != [] {
      var v, rest := vs[0], vs[1..];
      MintedStays(states, steps, from, v.begin);
      GetsThrough(states, steps, v.check, Check, tok, v.begin, v.lookUp, v.decide);
      assert Times(states, vs)[1..] == Times(states, rest);
      if LetThrough(states, v) {
        MintedStays(states, steps, from, v.begin');
        GetsThrough(states, steps, v.refresh, Refresh, tok, v.begin', v.lookUp', v.slide);
        MintedStays(states, steps, from, v.slide);
        ClientInv(states, steps, v.slide);
        SlideLeaves(states[v.slide], v.refresh, tok, VisitOf(states, v));
        ClientIsServed(states, steps, v.slide + 1, NextCookie(tok, VisitOf(states, v), REFRESH_THRESHOLD), rest);
        AllButFirst(states, vs);
      }
    }
  }

  lemma AllButFirst(states: seq<State>, vs: seq<Trace>)
    requires vs != [] && LetThrough(states, vs[0])
    ensures AllLetThrough(states, vs) <==> AllLetThrough(states, vs[1..])
  {
    assert forall i :: 0 < i < |vs| ==> vs[i] == vs[1..][i - 1];
  }

  lemma UnlockMints(s: State, sid: Sid)
    requires Enabled(s, Unlock(sid))
    ensures Do(s, Unlock(sid)).minted == s.minted + {Token(Unix(s.now), Unix(s.now), sid)}
  {
  }

  /** What a step of a run mints: a session's first token, or the next of a cookie 5 minutes old; nothing else. */
  lemma MintsExactly(states: seq<State>, steps: seq<Step>, n: nat)
    requires Run(states, steps) && n < |steps|
    ensures var s, s' := states[n], states[n + 1];
            match steps[n]
            case Unlock(sid) => s'.minted == s.minted + {Token(Unix(s.now), Unix(s.now), sid)}
            case IssueFrom(sid, _) =>
              forall tok <- s'.minted - s.minted :: tok.sid == sid && tok.refreshed == Unix(s.now)
            case Slide(r) => s'.minted == s.minted + {NextCookie(s.requests[r].tok, Visit(s.now, s.now), 5 * MINUTE)}
            case _ => s'.minted == s.minted
  {
    RunInv(states, steps, n);
    ClientInv(states, steps, n);
    match steps[n]
    case Slide(r) => SlideLeaves(states[n], r, states[n].requests[r].tok, Visit(states[n].now, states[n].now));
    case Unlock(sid) => UnlockMints(states[n], sid);
    case _ =>
  }

  lemma FreshIsServed(at: int, sid: Sid, visits: seq<Visit>)
    requires Steady(at, visits, 5 * MINUTE) && BeforeHardCap(Unix(at), visits)
    ensures Served(MintSession(at, at, sid), visits, REFRESH_THRESHOLD)
  {
    SteadyIsServed(MintSession(at, at, sid), at, visits, REFRESH_THRESHOLD);
  }

  /** So a client that unlocks and comes back within 5 minutes each time is let through until the hard cap. */
  lemma SteadyClientStaysUnlocked(states: seq<State>, steps: seq<Step>, u: nat, sid: Sid, vs: seq<Trace>)
    requires Run(states, steps) && u < |steps| && steps[u] == Unlock(sid)
    requires var at := states[u].now;
             && ClientRun(states, steps, u + 1, MintSession(at, at, sid), vs)
             && Steady(at, Times(states, vs), 5 * MINUTE)
             && BeforeHardCap(Unix(at), Times(states, vs))
    requires NeverLocked(steps, sid)
    ensures AllLetThrough(states, vs)
  {
    var at := states[u].now;
    UnlockMints(states[u], sid);
    ClientIsServed(states, steps, u + 1, MintSession(at, at, sid), vs);
    FreshIsServed(at, sid, Times(states, vs));
  }

  // ---- Unlocking without the password ---------------------------------------

  /** When the session that such an unlock starts at `now` ends at the latest. */
  function LastingUntil(now: int, passwordAt: int): int
  {
    var lifetime, reauth := now + 12 * HOUR, passwordAt + 48 * HOUR;
    Unix(if lifetime < reauth then lifetime else reauth)
  }

  lemma UnixShifts(t: int, hours: int)
    ensures Unix(t + hours * HOUR) == Unix(t) + hours * HOUR
  {
  }

  /**
   An unlock without the password mints a token exactly if the password was typed less than
   48h ago, and not in the future: one token, fresh now, for a session that lasts 12h or until
   those 48h are over, whichever comes first.
   */
  lemma IssuedFromPassword(s: State, sid: Sid, passwordAt: Option<int>)
    requires Enabled(s, IssueFrom(sid, passwordAt))
    ensures var s' := Do(s, IssueFrom(sid, passwordAt));
            if passwordAt.Some? && passwordAt.value <= s.now < passwordAt.value + 48 * HOUR then
              exists tok ::
                && s'.minted == s.minted + {tok} && tok.sid == sid && tok.refreshed == Unix(s.now)
                && tok.origin + MAX_SESSION_LIFETIME == LastingUntil(s.now, passwordAt.value)
            else s'.minted == s.minted
  {
    if passwordAt.Some? && passwordAt.value <= s.now < passwordAt.value + 48 * HOUR {
      UnixShifts(s.now, 12);
      UnixShifts(passwordAt.value + (PASSWORD_REAUTH_INTERVAL - MAX_SESSION_LIFETIME), 12);
      var origin := IssueFromOrigin(passwordAt, s.now);
      var tok := MintSession(origin.value, s.now, sid);
      assert Do(s, IssueFrom(sid, passwordAt)).minted == s.minted + {tok};
    }
  }

  /** In every run, the token of such a session is accepted until it ends or idles out, unless it is locked. */
  lemma IssuedIsAcceptedUntil(states: seq<State>, steps: seq<Step>, u: nat, sid: Sid, passwordAt: int, tok: Token,
                              r: Request, b: nat, l: nat, e: nat)
    requires Run(states, steps) && u < b < l < e < |steps| && steps[u] == IssueFrom(sid, Some(passwordAt))
    requires passwordAt <= states[u].now < passwordAt + 48 * HOUR
    requires tok.sid == sid && tok in states[u + 1].minted && NeverLocked(steps, sid)
    requires Passes(steps, r, Check, tok, b, l, e)
    ensures Accepts(states[e], r)
            <==> states[e].now < LastingUntil(states[u].now, passwordAt)
                 && states[e].now < Unix(states[u].now) + 10 * MINUTE
  {
    IssuedFromPassword(states[u], sid, Some(passwordAt));
    RunInv(states, steps, u);
    MintedStays(states, steps, u + 1, b);
    GetsThrough(states, steps, r, Check, tok, b, l, e);
  }
}
