/**
 Unlock sessions of the password gate (webmanager/backend/internal/authgate/gate.go).
 There is no session store: a signed token carries when its session started (origin),
 when it was last slid forward (refreshed) and the session id. The only server state is
 the list of revoked ids, which forgets an id once its session would have expired anyway.

 Signatures are abstracted as in RFC 2104: a presented token verifies only if the gate
 minted it. Session ids of new sessions are fresh. Times are nanoseconds; tokens carry
 whole seconds, as `Unix()` truncates them.
 */
module GateSessions {

  import opened Wrappers
  import GateLockout

  const SECOND: int := GateLockout.SECOND
  const MINUTE: int := 60 * SECOND
  const HOUR: int := 60 * MINUTE
  const SESSION_TTL: int := 10 * MINUTE
  const MAX_SESSION_LIFETIME: int := 12 * HOUR
  const PASSWORD_REAUTH_INTERVAL: int := 48 * HOUR
  const REFRESH_THRESHOLD: int := SESSION_TTL / 2

  type Sid = nat

  datatype Token = Token(origin: int, refreshed: int, sid: Sid)

  /** The last whole second at or before t. */
  function Unix(t: int): (u: int)
    ensures u <= t < u + SECOND
  {
    t / SECOND * SECOND
  }

  function MintSession(origin: int, refreshed: int, sid: Sid): Token
  {
    Token(Unix(origin), Unix(refreshed), sid)
  }

  /** The origin of a session started without typing the password, if one may still be. */
  function IssueFromOrigin(passwordAt: Option<int>, now: int): Option<int>
  {
    if passwordAt.None? || now - passwordAt.value >= PASSWORD_REAUTH_INTERVAL || passwordAt.value > now then None
    else
      var latest := passwordAt.value + (PASSWORD_REAUTH_INTERVAL - MAX_SESSION_LIFETIME);
      Some(if latest < now then latest else now)
  }

  /** The clock checks of parseToken. */
  predicate TimesOk(tok: Token, now: int)
  {
    tok.origin <= now && tok.refreshed <= now && tok.origin <= tok.refreshed
  }

  function Deadline(tok: Token): int
  {
    var idle, hard := tok.refreshed + SESSION_TTL, tok.origin + MAX_SESSION_LIFETIME;
    if hard < idle then hard else idle
  }

  /** The revoked list without what had expired by `now`. */
  function Pruned(revoked: map<Sid, int>, now: int): map<Sid, int>
  {
    map id | id in revoked && now < revoked[id] :: revoked[id]
  }

  class Revocations {
    var revoked: map<Sid, int>

    constructor ()
      ensures revoked == map[]
    {
      revoked := map[];
    }

    /** Revoke, once the caller's token has parsed. */
    method Revoke(tok: Token, now: int)
      modifies this
      ensures revoked == Pruned(old(revoked), now)[tok.sid := tok.origin + MAX_SESSION_LIFETIME]
    {
      var ids := revoked.Keys;
      while ids != {}
        invariant ids <= old(revoked).Keys
        invariant revoked == map id | id in old(revoked) && (id in ids || now < old(revoked)[id]) :: old(revoked)[id]
        decreases |ids|
      {
        var id :| id in ids;
        if now >= revoked[id] {
          revoked := revoked - {id};
        }
        ids := ids - {id};
      }
      revoked := revoked[tok.sid := tok.origin + MAX_SESSION_LIFETIME];
    }
  }

  // ---- Concurrent requests --------------------------------------------------

  type Request = nat

  /** What a request wants: to be let through, to slide its cookie forward, or to lock. */
  datatype Purpose = Check | Refresh | Lock

  datatype Place =
    | Parsed(purpose: Purpose, tok: Token)   // signature and times are good, revocation not looked up yet
    | Passed(purpose: Purpose, tok: Token)   // not in the revoked list when looked up
    | Locking(tok: Token, readAt: int)       // Revoke has read the clock and waits for revokedMu

  /** What really happened to a session; only the theorems use it. */
  datatype Session = Session(origin: int, startedAt: int, passwordAt: int, lastMint: int)

  datatype State = State(
    now: int,
    minted: set<Token>,
    revoked: map<Sid, int>,
    requests: map<Request, Place>,
    sessions: map<Sid, Session>,
    everRevoked: set<Sid>)

  datatype Step =
    | Tick(to: int)
    | Unlock(sid: Sid)                                // a password was typed: issueToken
    | IssueFrom(sid: Sid, passwordAt: Option<int>)    // unlock without the password
    | Begin(r: Request, purpose: Purpose, tok: Token) // parseToken up to the revocation lookup
    | LookUp(r: Request)                              // isRevoked
    | Decide(r: Request)                              // UnlockedUntil compares the deadline
    | Slide(r: Request)                               // refreshCookie re-mints
    | ReadClock(r: Request)                           // Revoke reads the clock
    | Commit(r: Request)                              // Revoke prunes and adds, under revokedMu

  predicate Init(s: State)
  {
    && s.minted == {} && s.revoked == map[] && s.requests == map[]
    && s.sessions == map[] && s.everRevoked == {}
  }

  predicate In(s: State, r: Request, purpose: Purpose)
  {
    r in s.requests && s.requests[r].Passed? && s.requests[r].purpose == purpose
  }

  predicate Enabled(s: State, step: Step)
  {
    match step
    case Tick(to) => s.now <= to
    case Unlock(sid) => sid !in s.sessions
    case IssueFrom(sid, _) => sid !in s.sessions
    case Begin(r, _, _) => r !in s.requests
    case LookUp(r) => r in s.requests && s.requests[r].Parsed?
    case Decide(r) => In(s, r, Check)
    case Slide(r) => In(s, r, Refresh)
    case ReadClock(r) => In(s, r, Lock)
    case Commit(r) => r in s.requests && s.requests[r].Locking?
  }

  function Started(s: State, sid: Sid, origin: int, passwordAt: int): State
  {
    var tok := MintSession(origin, s.now, sid);
    s.(minted := s.minted + {tok}, sessions := s.sessions[sid := Session(tok.origin, s.now, passwordAt, s.now)])
  }

  function Done(s: State, r: Request): State
  {
    s.(requests := s.requests - {r})
  }

  /** A token is accepted. */
  predicate Accepts(s: State, r: Request)
  {
    In(s, r, Check) && s.now < Deadline(s.requests[r].tok)
  }

  function Do(s: State, step: Step): State
    requires Enabled(s, step)
  {
    match step
    case Tick(to) => s.(now := to)
    case Unlock(sid) => Started(s, sid, s.now, s.now)
    case IssueFrom(sid, passwordAt) =>
      var origin := IssueFromOrigin(passwordAt, s.now);
      if origin.None? then s else Started(s, sid, origin.value, passwordAt.value)
    case Begin(r, purpose, tok) =>
      if tok in s.minted && TimesOk(tok, s.now) then s.(requests := s.requests[r := Parsed(purpose, tok)]) else s
    case LookUp(r) =>
      var Parsed(purpose, tok) := s.requests[r];
      if tok.sid in s.revoked then Done(s, r) else s.(requests := s.requests[r := Passed(purpose, tok)])
    case Decide(r) => Done(s, r)
    case Slide(r) =>
      var tok := s.requests[r].tok;
      if s.now - tok.refreshed < REFRESH_THRESHOLD then Done(s, r)
      else Slid(Done(s, r), Token(tok.origin, Unix(s.now), tok.sid))
    case ReadClock(r) => s.(requests := s.requests[r := Locking(s.requests[r].tok, s.now)])
    case Commit(r) =>
      var Locking(tok, readAt) := s.requests[r];
      Done(s, r).(revoked := Pruned(s.revoked, readAt)[tok.sid := tok.origin + MAX_SESSION_LIFETIME],
                  everRevoked := s.everRevoked + {tok.sid})
  }

  function Slid(s: State, tok: Token): State
  {
    s.(minted := s.minted + {tok},
       sessions := if tok.sid in s.sessions then s.sessions[tok.sid := s.sessions[tok.sid].(lastMint := s.now)]
         else s.sessions)
  }

  // ---- What every step keeps ------------------------------------------------

  /** All tokens of one session share its origin, and none is fresher than its last refresh. */
  ghost predicate MintedOk(minted: set<Token>, sessions: map<Sid, Session>)
  {
    forall tok :: tok in minted ==>
      && tok.sid in sessions
      && tok.origin == sessions[tok.sid].origin
      && tok.refreshed <= sessions[tok.sid].lastMint
  }

  ghost predicate SessionsOk(sessions: map<Sid, Session>, now: int)
  {
    forall sid :: sid in sessions ==>
      && sessions[sid].origin <= sessions[sid].startedAt <= sessions[sid].lastMint <= now
      && sessions[sid].origin + MAX_SESSION_LIFETIME <= sessions[sid].passwordAt + PASSWORD_REAUTH_INTERVAL
  }

  /** A session once revoked is still on the list, or past its hard cap. */
  ghost predicate RevokedOk(s: State)
  {
    && (forall sid :: sid in s.everRevoked ==>
          sid in s.sessions && (sid in s.revoked || s.sessions[sid].origin + MAX_SESSION_LIFETIME <= s.now))
    && (forall sid :: sid in s.revoked ==>
          sid in s.sessions && s.revoked[sid] == s.sessions[sid].origin + MAX_SESSION_LIFETIME)
  }

  ghost predicate RequestsOk(s: State)
  {
    forall r :: r in s.requests ==>
      s.requests[r].tok in s.minted && (s.requests[r].Locking? ==> s.requests[r].readAt <= s.now)
  }

  ghost predicate Inv(s: State)
  {
    MintedOk(s.minted, s.sessions) && SessionsOk(s.sessions, s.now) && RevokedOk(s) && RequestsOk(s)
  }

  lemma InvStarted(s: State, sid: Sid, origin: int, passwordAt: int)
    requires Inv(s) && sid !in s.sessions
    requires origin <= s.now && origin + MAX_SESSION_LIFETIME <= passwordAt + PASSWORD_REAUTH_INTERVAL
    ensures Inv(Started(s, sid, origin, passwordAt))
  {
  }

  lemma InvSlide(s: State, r: Request)
    requires Inv(s) && Enabled(s, Slide(r))
    ensures Inv(Do(s, Slide(r)))
  {
  }

  lemma InvCommit(s: State, r: Request)
    requires Inv(s) && Enabled(s, Commit(r))
    ensures Inv(Do(s, Commit(r)))
  {
    assert s.requests[r].tok in s.minted;
  }

  lemma InvStep(s: State, step: Step)
    requires Inv(s) && Enabled(s, step)
    ensures Inv(Do(s, step))
  {
    match step
    case Unlock(sid) => InvStarted(s, sid, s.now, s.now);
    case IssueFrom(sid, passwordAt) =>
      var origin := IssueFromOrigin(passwordAt, s.now);
      if origin.Some? {
        InvStarted(s, sid, origin.value, passwordAt.value);
      }
    case Slide(r) => InvSlide(s, r);
    case Commit(r) => InvCommit(s, r);
    case _ =>
  }

  // ---- Runs -----------------------------------------------------------------

  ghost predicate Run(states: seq<State>, steps: seq<Step>)
  {
    && |states| == |steps| + 1
    && Init(states[0])
    && forall i :: 0 <= i < |steps| ==> Enabled(states[i], steps[i]) && states[i + 1] == Do(states[i], steps[i])
  }

  lemma {:induction false} RunInv(states: seq<State>, steps: seq<Step>, n: nat)
    requires Run(states, steps) && n < |states|
    ensures Inv(states[n])
    decreases n
  {
    if n > 0 {
      RunInv(states, steps, n - 1);
      InvStep(states[n - 1], steps[n - 1]);
    }
  }

  lemma OnlyForward(s: State, step: Step)
    requires Enabled(s, step)
    ensures s.now <= Do(s, step).now && s.everRevoked <= Do(s, step).everRevoked
  {
  }

  lemma {:induction false} RunGrows(states: seq<State>, steps: seq<Step>, m: nat, n: nat)
    requires Run(states, steps) && m <= n < |states|
    ensures states[m].now <= states[n].now && states[m].everRevoked <= states[n].everRevoked
    decreases n
  {
    if m < n {
      RunGrows(states, steps, m, n - 1);
      OnlyForward(states[n - 1], steps[n - 1]);
    }
  }

  // ---- What happened, from the steps alone ----------------------------------

  /** The time after n steps. */
  function Clock(start: int, steps: seq<Step>, n: nat): int
    requires n <= |steps|
  {
    if n == 0 then start else if steps[n - 1].Tick? then steps[n - 1].to else Clock(start, steps, n - 1)
  }

  /** What a request last came for, and its token. */
  function Brought(steps: seq<Step>, n: nat, r: Request): Option<(Purpose, Token)>
    requires n <= |steps|
  {
    if n == 0 then None
    else if steps[n - 1].Begin? && steps[n - 1].r == r then Some((steps[n - 1].purpose, steps[n - 1].tok))
    else Brought(steps, n - 1, r)
  }

  function PurposeOf(p: Place): Purpose
  {
    if p.Locking? then Lock else p.purpose
  }

  /** Step i revokes a session: a request that came with a token of it, to lock it. */
  ghost predicate Locks(steps: seq<Step>, i: nat, sid: Sid)
  {
    && i < |steps| && steps[i].Commit?
    && var brought := Brought(steps, i, steps[i].r);
    brought.Some? && brought.value.0 == Lock && brought.value.1.sid == sid
  }

  /** Step i starts a session: the password is typed, or was at a time that still lets an unlock do without. */
  ghost predicate Starts(start: int, steps: seq<Step>, i: nat, sid: Sid, passwordAt: int)
  {
    && i < |steps|
    && var now := Clock(start, steps, i);
    || (steps[i] == Unlock(sid) && passwordAt == now)
    || (steps[i] == IssueFrom(sid, Some(passwordAt)) && passwordAt <= now < passwordAt + 48 * HOUR)
  }

  /** Step i slides a session: a request that came with a token of it, to refresh it. */
  ghost predicate Slides(steps: seq<Step>, i: nat, sid: Sid)
  {
    && i < |steps| && steps[i].Slide?
    && var brought := Brought(steps, i, steps[i].r);
    brought.Some? && brought.value.0 == Refresh && brought.value.1.sid == sid
  }

  lemma CarriedStep(s: State, step: Step, r: Request)
    requires Enabled(s, step)
    ensures var s' := Do(s, step);
            && s'.now == (if step.Tick? then step.to else s.now)
            && (r in s'.requests ==>
                  if step.Begin? && step.r == r then PurposeOf(s'.requests[r]) == step.purpose
                    && s'.requests[r].tok == step.tok
                  else r in s.requests && PurposeOf(s'.requests[r]) == PurposeOf(s.requests[r])
                       && s'.requests[r].tok == s.requests[r].tok)
  {
  }

  /** Clock and requests of a state are what the steps so far say. */
  lemma {:induction false} RunCarries(states: seq<State>, steps: seq<Step>, n: nat)
    requires Run(states, steps) && n < |states|
    ensures states[n].now == Clock(states[0].now, steps, n)
    ensures forall r :: r in states[n].requests ==>
              Brought(steps, n, r) == Some((PurposeOf(states[n].requests[r]), states[n].requests[r].tok))
    decreases n
  {
    if n > 0 {
      RunCarries(states, steps, n - 1);
      forall r | r in states[n].requests
        ensures Brought(steps, n, r) == Some((PurposeOf(states[n].requests[r]), states[n].requests[r].tok))
      {
        CarriedStep(states[n - 1], steps[n - 1], r);
      }
      CarriedStep(states[n - 1], steps[n - 1], 0);
    }
  }

  lemma RevokedStep(s: State, step: Step)
    requires Enabled(s, step)
    ensures var s' := Do(s, step);
            && s'.everRevoked == (if step.Commit? then s.everRevoked + {s.requests[step.r].tok.sid} else s.everRevoked)
            && s'.revoked.Keys <= s.revoked.Keys + (if step.Commit? then {s.requests[step.r].tok.sid} else {})
  {
  }

  /** A session is revoked exactly when a request has locked it: another's lock revokes no session but its own. */
  lemma {:induction false} RevokedIffLocked(states: seq<State>, steps: seq<Step>, n: nat, sid: Sid)
    requires Run(states, steps) && n < |states|
    ensures sid in states[n].everRevoked <==> exists i :: 0 <= i < n && Locks(steps, i, sid)
    ensures sid in states[n].revoked ==> sid in states[n].everRevoked
    decreases n
  {
    if n > 0 {
      RevokedIffLocked(states, steps, n - 1, sid);
      RevokedStep(states[n - 1], steps[n - 1]);
      RunCarries(states, steps, n - 1);
      if steps[n - 1].Commit? {
        assert Locks(steps, n - 1, sid) <==> states[n - 1].requests[steps[n - 1].r].tok.sid == sid;
      } else {
        assert !Locks(steps, n - 1, sid);
      }
    }
  }

  // ---- Revocation -----------------------------------------------------------

  /** A request looked up after its session was revoked gets past that only when the hard cap is reached. */
  ghost predicate Doomed(s: State, r: Request)
  {
    r in s.requests && s.requests[r].Passed? ==> s.requests[r].tok.origin + MAX_SESSION_LIFETIME <= s.now
  }

  ghost predicate Carries(s: State, r: Request, sid: Sid)
  {
    r in s.requests ==> s.requests[r].tok.sid == sid
  }

  predicate Reused(step: Step, r: Request)
  {
    step.Begin? && step.r == r
  }

  lemma DoomedStep(s: State, step: Step, r: Request, sid: Sid)
    requires Inv(s) && Enabled(s, step) && sid in s.everRevoked
    requires Doomed(s, r) && Carries(s, r, sid) && !Reused(step, r)
    ensures Doomed(Do(s, step), r) && Carries(Do(s, step), r, sid)
  {
    if step == LookUp(r) {
      assert s.requests[r].tok in s.minted;
    }
  }

  /** From a state after the revocation on in which r is doomed, it stays so. */
  lemma {:induction false} StaysDoomed(states: seq<State>, steps: seq<Step>, i: nat, l: nat, k: nat, r: Request,
                                       sid: Sid)
    requires Run(states, steps) && i < l <= k < |states|
    requires steps[i].Commit? && states[i].requests[steps[i].r].tok.sid == sid
    requires Doomed(states[l], r) && Carries(states[l], r, sid)
    requires forall m :: l <= m < k ==> !Reused(steps[m], r)
    ensures Doomed(states[k], r) && Carries(states[k], r, sid)
    decreases k
  {
    if l < k {
      StaysDoomed(states, steps, i, l, k - 1, r, sid);
      RunInv(states, steps, k - 1);
      CommitRevokes(states[i], steps[i]);
      RunGrows(states, steps, i + 1, k - 1);
      DoomedStep(states[k - 1], steps[k - 1], r, sid);
    }
  }

  lemma DoomedBegin(s: State, step: Step)
    requires Enabled(s, step) && step.Begin?
    ensures Doomed(Do(s, step), step.r) && Carries(Do(s, step), step.r, step.tok.sid)
  {
  }

  lemma CommitRevokes(s: State, step: Step)
    requires Enabled(s, step) && step.Commit?
    ensures s.requests[step.r].tok.sid in Do(s, step).everRevoked
  {
  }

  /**
   Once a session is revoked, no request whose lookup comes later is ever accepted with any
   token of that session, though it may have begun before: not with a copy of the cookie,
   not with a token minted by a refresh that raced the revocation, and not after the revoked
   list has forgotten the session.
   */
  lemma RevokedSessionsStayLocked(states: seq<State>, steps: seq<Step>, i: nat, l: nat, k: nat, sid: Sid)
    requires Run(states, steps) && i < l < k < |states|
    requires Locks(steps, i, sid) && steps[l].LookUp?
    requires var brought := Brought(steps, l, steps[l].r); brought.Some? && brought.value.1.sid == sid
    requires forall m :: l < m < k ==> !Reused(steps[m], steps[l].r)
    ensures !Accepts(states[k], steps[l].r)
  {
    RunCarries(states, steps, i);
    RunCarries(states, steps, l);
    StaysDoomed(states, steps, i, l, k, steps[l].r, sid);
  }

  /** In particular no request that begins later. */
  lemma LaterRequestsStayLocked(states: seq<State>, steps: seq<Step>, i: nat, j: nat, k: nat)
    requires Run(states, steps) && i < j < k < |states|
    requires steps[j].Begin? && Locks(steps, i, steps[j].tok.sid)
    requires forall m :: j < m < k ==> !Reused(steps[m], steps[j].r)
    ensures !Accepts(states[k], steps[j].r)
  {
    RunCarries(states, steps, i);
    DoomedBegin(states[j], steps[j]);
    StaysDoomed(states, steps, i, j + 1, k, steps[j].r, steps[j].tok.sid);
  }

  // ---- How long a session lasts ---------------------------------------------

  /** Step i started the session, with passwordAt, and step j was the last to mint for it. */
  ghost predicate Lived(session: Session, start: int, steps: seq<Step>, n: nat, i: nat, j: nat, sid: Sid)
    requires n <= |steps|
  {
    && i <= j < n
    && Starts(start, steps, i, sid, session.passwordAt) && session.startedAt == Clock(start, steps, i)
    && (j == i || Slides(steps, j, sid)) && session.lastMint == Clock(start, steps, j)
  }

  lemma SessionStep(s: State, step: Step, sid: Sid)
    requires Enabled(s, step) && sid in Do(s, step).sessions
    ensures var session := Do(s, step).sessions[sid];
            if sid !in s.sessions then
              && session.startedAt == session.lastMint == s.now
              && ((step == Unlock(sid) && session.passwordAt == s.now)
                  || (step == IssueFrom(sid, Some(session.passwordAt))
                      && session.passwordAt <= s.now < session.passwordAt + PASSWORD_REAUTH_INTERVAL))
            else
              || session == s.sessions[sid]
              || (step.Slide? && s.requests[step.r].tok.sid == sid && session == s.sessions[sid].(lastMint := s.now))
  {
  }

  lemma StartedIsLived(s: State, start: int, steps: seq<Step>, n: nat, sid: Sid)
    requires n < |steps| && Enabled(s, steps[n]) && s.now == Clock(start, steps, n)
    requires sid !in s.sessions && sid in Do(s, steps[n]).sessions
    ensures Lived(Do(s, steps[n]).sessions[sid], start, steps, n + 1, n, n, sid)
  {
    SessionStep(s, steps[n], sid);
  }

  lemma SlidIsLived(s: State, start: int, steps: seq<Step>, n: nat, sid: Sid, i: nat, j: nat) returns (j': nat)
    requires n < |steps| && Enabled(s, steps[n]) && s.now == Clock(start, steps, n)
    requires forall r :: r in s.requests ==>
               Brought(steps, n, r) == Some((PurposeOf(s.requests[r]), s.requests[r].tok))
    requires sid in s.sessions && Lived(s.sessions[sid], start, steps, n, i, j, sid)
    requires sid in Do(s, steps[n]).sessions
    ensures Lived(Do(s, steps[n]).sessions[sid], start, steps, n + 1, i, j', sid)
  {
    SessionStep(s, steps[n], sid);
    j' := j;
    if Do(s, steps[n]).sessions[sid] != s.sessions[sid] {
      assert Slides(steps, n, sid);
      j' := n;
    }
  }

  /** A session was started by a step that says when, and last slid by one. */
  lemma {:induction false} SessionLived(states: seq<State>, steps: seq<Step>, n: nat, sid: Sid) returns (i: nat, j: nat)
    requires Run(states, steps) && n < |states| && sid in states[n].sessions
    ensures Lived(states[n].sessions[sid], states[0].now, steps, n, i, j, sid)
    decreases n
  {
    RunCarries(states, steps, n - 1);
    if sid in states[n - 1].sessions {
      i, j := SessionLived(states, steps, n - 1, sid);
      j := SlidIsLived(states[n - 1], states[0].now, steps, n - 1, sid, i, j);
    } else {
      StartedIsLived(states[n - 1], states[0].now, steps, n - 1, sid);
      i, j := n - 1, n - 1;
    }
  }

  /**
   The three bounds on an accepted token: less than 12h after the step that started its
   session, less than 48h after the password that rests on was typed, less than 10 minutes
   after the start or a later step that slid it.
   */
  lemma AcceptedWithinBounds(states: seq<State>, steps: seq<Step>, k: nat, r: Request)
    returns (i: nat, j: nat, passwordAt: int)
    requires Run(states, steps) && k < |states| && Accepts(states[k], r)
    ensures Brought(steps, k, r).Some? && i <= j < k
    ensures var start, sid := states[0].now, Brought(steps, k, r).value.1.sid;
            var now := Clock(start, steps, k);
            && Starts(start, steps, i, sid, passwordAt) && (j == i || Slides(steps, j, sid))
            && now < Clock(start, steps, i) + 12 * HOUR
            && now < passwordAt + 48 * HOUR
            && now < Clock(start, steps, j) + 10 * MINUTE
  {
    RunInv(states, steps, k);
    RunCarries(states, steps, k);
    var tok := states[k].requests[r].tok;
    assert tok in states[k].minted;
    i, j := SessionLived(states, steps, k, tok.sid);
    passwordAt := states[k].sessions[tok.sid].passwordAt;
  }

  // ---- The other side of the revocation -------------------------------------

  lemma OneMoreStep(states: seq<State>, steps: seq<Step>, step: Step)
    requires Run(states, steps) && Enabled(states[|steps|], step)
    ensures Run(states + [Do(states[|steps|], step)], steps + [step])
  {
    var states', steps' := states + [Do(states[|steps|], step)], steps + [step];
    forall i | 0 <= i < |steps'| ensures Enabled(states'[i], steps'[i]) && states'[i + 1] == Do(states'[i], steps'[i]) {
      assert i < |steps| ==> states'[i] == states[i] && states'[i + 1] == states[i + 1] && steps'[i] == steps[i];
    }
  }

  /** A session with two requests past their lookup: a check, and a lock about to be committed. */
  lemma BothLookedUp() returns (states: seq<State>, steps: seq<Step>)
    ensures Run(states, steps) && |steps| == 6 && steps[2] == LookUp(1)
    ensures var s, tok := states[6], Token(0, 0, 0);
            s.now == 0 && s.requests == map[1 := Passed(Check, tok), 2 := Locking(tok, 0)]
  {
    var tok := Token(0, 0, 0);
    states, steps := [State(0, {}, map[], map[], map[], {})], [];
    OneMoreStep(states, steps, Unlock(0));
    states, steps := states + [Do(states[0], Unlock(0))], steps + [Unlock(0)];
    assert tok in states[1].minted;
    OneMoreStep(states, steps, Begin(1, Check, tok));
    states, steps := states + [Do(states[1], Begin(1, Check, tok))], steps + [Begin(1, Check, tok)];
    OneMoreStep(states, steps, LookUp(1));
    states, steps := states + [Do(states[2], LookUp(1))], steps + [LookUp(1)];
    OneMoreStep(states, steps, Begin(2, Lock, tok));
    states, steps := states + [Do(states[3], Begin(2, Lock, tok))], steps + [Begin(2, Lock, tok)];
    OneMoreStep(states, steps, LookUp(2));
    states, steps := states + [Do(states[4], LookUp(2))], steps + [LookUp(2)];
    OneMoreStep(states, steps, ReadClock(2));
    states, steps := states + [Do(states[5], ReadClock(2))], steps + [ReadClock(2)];
  }

  /** The lookup is the point: a request that has made it before the revocation is still accepted after it. */
  lemma EarlierLookupIsAccepted() returns (states: seq<State>, steps: seq<Step>)
    ensures Run(states, steps) && |steps| == 7 && steps[2] == LookUp(1) && steps[6] == Commit(2)
    ensures states[6].requests == map[1 := Passed(Check, Token(0, 0, 0)), 2 := Locking(Token(0, 0, 0), 0)]
    ensures Accepts(states[7], 1)
  {
    states, steps := BothLookedUp();
    OneMoreStep(states, steps, Commit(2));
    states, steps := states + [Do(states[6], Commit(2))], steps + [Commit(2)];
  }
}
