/**
 `Gate.TryUnlock` under concurrency (webmanager/backend/internal/authgate/gate.go): any
 number of requests, each taking the lock of its key, checking the lockout, verifying
 the password and recording the outcome, interleaved step by step.

 The lock of a key is an object with a reference count, created on first use and dropped
 from the map by whoever brings the count to zero (`lockKey`). A step of this machine is
 what one goroutine does between two points where another may run: each `Lock`/`Unlock`
 pair on `keyLocksMu` or `attemptsMu` is one step.

 Fingerprint unlocks (webmanager/backend/handlers_webauthn.go) check and record on the
 same counters without taking any lock, but under keys of their own: `IsPrint`.
 */
module GateKeyLocks {
  import opened GateLockout
  import opened Wrappers

  type Key = string
  type Request = nat   // one call of TryUnlock
  type Lock = nat      // one keyLock object

  datatype Place =
    | Waiting            // holds a reference, waits in l.mu.Lock()
    | Locked             // holds the lock, has not checked the lockout yet
    | Verifying(at: int) // passed the lockout check at that time
    | Finished           // outcome recorded (or refused), lock still held
    | Leaving            // released the lock, has not dropped its reference yet

  datatype Ref = Ref(key: Key, lock: Lock)

  datatype Outcome = Match | NoMatch | VerifyError

  /**
   keyLocks, refs and owner are the map, the counts inside its lock objects and who holds
   their mutexes; uses and place are where each call stands. failedAt is the history the
   theorems speak of: when, since the last success, attempts on a key failed.
   */
  datatype State = State(
    now: int,
    keyLocks: map<Key, Lock>,
    refs: map<Lock, int>,
    owner: map<Lock, Request>,
    nextLock: Lock,
    uses: map<Request, Ref>,
    place: map<Request, Place>,
    asserting: map<Request, Key>,     // fingerprint unlocks past CheckAttempt
    attempts: map<Key, AttemptState>,
    failedAt: map<Key, seq<int>>)

  const PRINT_PREFIX: string := "webauthn "

  /** webauthnAttemptKey */
  function PrintKey(client: string): Key
  {
    PRINT_PREFIX + client
  }

  /** No client address, which is what TryUnlock's keys are, begins like this. */
  predicate IsPrint(key: Key)
  {
    PRINT_PREFIX <= key
  }

  predicate Init(s: State)
  {
    && s.now >= 0 && s.nextLock == 0
    && s.keyLocks == map[] && s.refs == map[] && s.owner == map[]
    && s.uses == map[] && s.place == map[] && s.asserting == map[]
    && s.attempts == map[] && s.failedAt == map[]
  }

  datatype Step =
    | Tick(to: int)
    | TakeRef(r: Request, key: Key)
    | Acquire(r: Request)
    | Check(r: Request)
    | Record(r: Request, outcome: Outcome)
    | Release(r: Request)
    | DropRef(r: Request)
    | CheckPrint(r: Request, client: string)
    | RecordPrint(r: Request, outcome: Outcome)

  predicate At(s: State, r: Request, p: Place)
  {
    r in s.uses && r in s.place && s.place[r] == p
  }

  function Move(s: State, r: Request, p: Place): State
  {
    s.(place := s.place[r := p])
  }

  predicate Enabled(s: State, step: Step)
  {
    match step
    case Tick(to) => s.now <= to
    case TakeRef(r, key) => r !in s.uses && !IsPrint(key)
    case Acquire(r) => At(s, r, Waiting) && s.uses[r].lock !in s.owner
    case Check(r) => At(s, r, Locked)
    case Record(r, _) => r in s.uses && r in s.place && s.place[r].Verifying?
    case Release(r) => At(s, r, Finished)
    case DropRef(r) => At(s, r, Leaving) && s.uses[r].lock in s.refs
    case CheckPrint(r, _) => r !in s.asserting
    case RecordPrint(r, _) => r in s.asserting
  }

  function Do(s: State, step: Step): State
    requires Enabled(s, step)
  {
    match step
    case Tick(to) => s.(now := to)
    case TakeRef(r, key) =>
      var l := if key in s.keyLocks then s.keyLocks[key] else s.nextLock;
      var count := if l in s.refs then s.refs[l] else 0;
      Move(s, r, Waiting).(
        keyLocks := s.keyLocks[key := l],
        refs := s.refs[l := count + 1],
        nextLock := if key in s.keyLocks then s.nextLock else s.nextLock + 1,
        uses := s.uses[r := Ref(key, l)])
    case Acquire(r) => Move(s, r, Locked).(owner := s.owner[s.uses[r].lock := r])
    case Check(r) =>
      if Limited(s.attempts, s.uses[r].key, s.now) then Move(s, r, Finished)
      else Move(s, r, Verifying(s.now))
    case Record(r, outcome) => Recorded(Move(s, r, Finished), s.uses[r].key, outcome)
    case Release(r) => Move(s, r, Leaving).(owner := s.owner - {s.uses[r].lock})
    case DropRef(r) =>
      var Ref(key, l) := s.uses[r];
      var left := s.refs[l] - 1;
      s.(refs := s.refs[l := left],
         keyLocks := if left == 0 then s.keyLocks - {key} else s.keyLocks,
         uses := s.uses - {r},
         place := s.place - {r})
    case CheckPrint(r, client) =>
      if Limited(s.attempts, PrintKey(client), s.now) then s else s.(asserting := s.asserting[r := PrintKey(client)])
    case RecordPrint(r, outcome) => Recorded(s.(asserting := s.asserting - {r}), s.asserting[r], outcome)
  }

  function Recorded(s: State, key: Key, outcome: Outcome): State
  {
    match outcome
    case VerifyError => s
    case NoMatch => s.(attempts := s.attempts[key := Failed(StateOf(s.attempts, key), s.now)],
                       failedAt := s.failedAt[key := History(s, key) + [s.now]])
    case Match => s.(attempts := s.attempts - {key}, failedAt := s.failedAt - {key})
  }

  function History(s: State, key: Key): seq<int>
  {
    if key in s.failedAt then s.failedAt[key] else []
  }

  // ---- The lock map ---------------------------------------------------------

  /** Holders, waiters and not yet dropped leavers of a key. */
  function Users(uses: map<Request, Ref>, key: Key): set<Request>
  {
    set r | r in uses && uses[r].key == key
  }

  predicate Inside(p: Place)
  {
    p.Locked? || p.Verifying? || p.Finished?
  }

  /** Every call uses the one lock its key has in the map. */
  ghost predicate OneLock(keyLocks: map<Key, Lock>, uses: map<Request, Ref>)
  {
    forall r :: r in uses ==> uses[r].key in keyLocks && uses[r].lock == keyLocks[uses[r].key]
  }

  /** Locks of different keys are different objects, already handed out. */
  ghost predicate Distinct(keyLocks: map<Key, Lock>, nextLock: Lock)
  {
    && (forall k :: k in keyLocks ==> keyLocks[k] < nextLock)
    && (forall k, k' :: k in keyLocks && k' in keyLocks && keyLocks[k] == keyLocks[k'] ==> k == k')
  }

  /** The count of a lock in the map is its number of users, and positive. */
  ghost predicate Counted(keyLocks: map<Key, Lock>, refs: map<Lock, int>, uses: map<Request, Ref>)
  {
    forall k :: k in keyLocks ==> keyLocks[k] in refs && refs[keyLocks[k]] == |Users(uses, k)| > 0
  }

  ghost predicate RefsBelow(refs: map<Lock, int>, nextLock: Lock)
  {
    forall l :: l in refs ==> l < nextLock
  }

  /** A mutex is owned by exactly the call inside it. */
  ghost predicate Owned(owner: map<Lock, Request>, uses: map<Request, Ref>, place: map<Request, Place>)
  {
    && uses.Keys == place.Keys
    && (forall l :: l in owner ==>
          owner[l] in uses && owner[l] in place && uses[owner[l]].lock == l && Inside(place[owner[l]]))
    && (forall r :: r in uses && r in place && Inside(place[r]) ==> uses[r].lock in owner && owner[uses[r].lock] == r)
  }

  ghost predicate LocksInv(s: State)
  {
    && OneLock(s.keyLocks, s.uses)
    && Distinct(s.keyLocks, s.nextLock)
    && RefsBelow(s.refs, s.nextLock)
    && Counted(s.keyLocks, s.refs, s.uses)
    && Owned(s.owner, s.uses, s.place)
  }

  lemma CountedTakeRef(keyLocks: map<Key, Lock>, refs: map<Lock, int>, uses: map<Request, Ref>,
                       r: Request, key: Key, l: Lock, count: int)
    requires Counted(keyLocks, refs, uses) && OneLock(keyLocks, uses) && r !in uses
    requires forall k :: k in keyLocks && k != key ==> keyLocks[k] != l
    requires if key in keyLocks then l == keyLocks[key] && l in refs && count == refs[l] else count == 0
    ensures Counted(keyLocks[key := l], refs[l := count + 1], uses[r := Ref(key, l)])
  {
    var keyLocks', refs', uses' := keyLocks[key := l], refs[l := count + 1], uses[r := Ref(key, l)];
    assert Users(uses', key) == Users(uses, key) + {r};
    if key !in keyLocks {
      assert Users(uses, key) == {};
    }
    forall k | k in keyLocks' && k != key
      ensures keyLocks'[k] in refs' && refs'[keyLocks'[k]] == |Users(uses', k)| > 0
    {
      assert Users(uses', k) == Users(uses, k);
    }
  }

  /** Dropping a reference; the entry goes with the last one. */
  lemma CountedDropRef(keyLocks: map<Key, Lock>, refs: map<Lock, int>, uses: map<Request, Ref>, r: Request)
    requires Counted(keyLocks, refs, uses) && OneLock(keyLocks, uses) && r in uses
    requires forall k, k' :: k in keyLocks && k' in keyLocks && keyLocks[k] == keyLocks[k'] ==> k == k'
    ensures var Ref(key, l) := uses[r];
            && l in refs
            && var keyLocks' := if refs[l] == 1 then keyLocks - {key} else keyLocks;
            Counted(keyLocks', refs[l := refs[l] - 1], uses - {r}) && OneLock(keyLocks', uses - {r})
  {
    var Ref(key, l) := uses[r];
    assert key in keyLocks && keyLocks[key] == l && l in refs;
    var uses', refs' := uses - {r}, refs[l := refs[l] - 1];
    var keyLocks' := if refs[l] == 1 then keyLocks - {key} else keyLocks;
    assert Users(uses', key) == Users(uses, key) - {r} && r in Users(uses, key);
    forall k | k in keyLocks' && k != key
      ensures keyLocks'[k] in refs' && refs'[keyLocks'[k]] == |Users(uses', k)| > 0
    {
      assert Users(uses', k) == Users(uses, k);
    }
    forall x | x in uses' ensures uses'[x].key in keyLocks' {
      if uses'[x].key == key {
        assert x in Users(uses', key) && |Users(uses', key)| == |Users(uses, key)| - 1;
      }
    }
  }

  lemma OwnedEnter(owner: map<Lock, Request>, uses: map<Request, Ref>, place: map<Request, Place>, r: Request)
    requires Owned(owner, uses, place) && r in uses && !Inside(place[r]) && uses[r].lock !in owner
    ensures Owned(owner[uses[r].lock := r], uses, place[r := Locked])
  {
  }

  lemma OwnedStay(owner: map<Lock, Request>, uses: map<Request, Ref>, place: map<Request, Place>, r: Request, p: Place)
    requires Owned(owner, uses, place) && r in uses && Inside(place[r]) && Inside(p)
    ensures Owned(owner, uses, place[r := p])
  {
  }

  lemma OwnedLeave(owner: map<Lock, Request>, uses: map<Request, Ref>, place: map<Request, Place>, r: Request)
    requires Owned(owner, uses, place) && r in uses && Inside(place[r])
    ensures Owned(owner - {uses[r].lock}, uses, place[r := Leaving])
  {
    assert owner[uses[r].lock] == r;
  }

  lemma OwnedJoin(owner: map<Lock, Request>, uses: map<Request, Ref>, place: map<Request, Place>, r: Request, ref: Ref)
    requires Owned(owner, uses, place) && r !in uses
    ensures Owned(owner, uses[r := ref], place[r := Waiting])
  {
  }

  lemma OwnedGone(owner: map<Lock, Request>, uses: map<Request, Ref>, place: map<Request, Place>, r: Request)
    requires Owned(owner, uses, place) && r in uses && !Inside(place[r])
    ensures Owned(owner, uses - {r}, place - {r})
  {
  }

  lemma DistinctTakeRef(keyLocks: map<Key, Lock>, refs: map<Lock, int>, nextLock: Lock, key: Key, nextLock': Lock,
                        l: Lock, count: int)
    requires Distinct(keyLocks, nextLock) && RefsBelow(refs, nextLock)
    requires if key in keyLocks then l == keyLocks[key] && nextLock' == nextLock
             else l == nextLock && nextLock' == nextLock + 1
    ensures Distinct(keyLocks[key := l], nextLock')
    ensures RefsBelow(refs[l := count], nextLock')
    ensures forall k :: k in keyLocks && k != key ==> keyLocks[k] != l
  {
  }

  lemma OneLockTakeRef(keyLocks: map<Key, Lock>, uses: map<Request, Ref>, r: Request, key: Key, l: Lock)
    requires OneLock(keyLocks, uses) && (key in keyLocks ==> l == keyLocks[key])
    ensures OneLock(keyLocks[key := l], uses[r := Ref(key, l)])
  {
  }

  lemma LocksInvTakeRef(s: State, r: Request, key: Key)
    requires LocksInv(s) && Enabled(s, TakeRef(r, key))
    ensures LocksInv(Do(s, TakeRef(r, key)))
  {
    var l := if key in s.keyLocks then s.keyLocks[key] else s.nextLock;
    var count := if l in s.refs then s.refs[l] else 0;
    var next := if key in s.keyLocks then s.nextLock else s.nextLock + 1;
    OneLockTakeRef(s.keyLocks, s.uses, r, key, l);
    DistinctTakeRef(s.keyLocks, s.refs, s.nextLock, key, next, l, count + 1);
    CountedTakeRef(s.keyLocks, s.refs, s.uses, r, key, l, count);
    OwnedJoin(s.owner, s.uses, s.place, r, Ref(key, l));
  }

  lemma LocksInvDropRef(s: State, r: Request)
    requires LocksInv(s) && Enabled(s, DropRef(r))
    ensures LocksInv(Do(s, DropRef(r)))
  {
    CountedDropRef(s.keyLocks, s.refs, s.uses, r);
    OwnedGone(s.owner, s.uses, s.place, r);
  }

  lemma LocksInvCheck(s: State, r: Request)
    requires LocksInv(s) && Enabled(s, Check(r))
    ensures LocksInv(Do(s, Check(r)))
  {
    if Limited(s.attempts, s.uses[r].key, s.now) {
      OwnedStay(s.owner, s.uses, s.place, r, Finished);
    } else {
      OwnedStay(s.owner, s.uses, s.place, r, Verifying(s.now));
    }
  }

  lemma LocksInvRecord(s: State, r: Request, outcome: Outcome)
    requires LocksInv(s) && Enabled(s, Record(r, outcome))
    ensures LocksInv(Do(s, Record(r, outcome)))
  {
    OwnedStay(s.owner, s.uses, s.place, r, Finished);
  }

  lemma LocksInvAcquire(s: State, r: Request)
    requires LocksInv(s) && Enabled(s, Acquire(r))
    ensures LocksInv(Do(s, Acquire(r)))
  {
    OwnedEnter(s.owner, s.uses, s.place, r);
  }

  lemma LocksInvRelease(s: State, r: Request)
    requires LocksInv(s) && Enabled(s, Release(r))
    ensures LocksInv(Do(s, Release(r)))
  {
    OwnedLeave(s.owner, s.uses, s.place, r);
  }

  lemma LocksInvCheckPrint(s: State, r: Request, client: string)
    requires LocksInv(s) && Enabled(s, CheckPrint(r, client))
    ensures LocksInv(Do(s, CheckPrint(r, client)))
  {
  }

  lemma LocksInvRecorded(s: State, key: Key, outcome: Outcome)
    requires LocksInv(s)
    ensures LocksInv(Recorded(s, key, outcome))
  {
  }

  lemma LocksInvRecordPrint(s: State, r: Request, outcome: Outcome)
    requires LocksInv(s) && Enabled(s, RecordPrint(r, outcome))
    ensures LocksInv(Do(s, RecordPrint(r, outcome)))
  {
    var waiting := s.(asserting := s.asserting - {r});
    assert LocksInv(waiting);
    LocksInvRecorded(waiting, s.asserting[r], outcome);
  }

  lemma LocksInvStep(s: State, step: Step)
    requires LocksInv(s) && Enabled(s, step)
    ensures LocksInv(Do(s, step))
  {
    match step
    case TakeRef(r, key) => LocksInvTakeRef(s, r, key);
    case DropRef(r) => LocksInvDropRef(s, r);
    case Acquire(r) => LocksInvAcquire(s, r);
    case Check(r) => LocksInvCheck(s, r);
    case Record(r, outcome) => LocksInvRecord(s, r, outcome);
    case Release(r) => LocksInvRelease(s, r);
    case Tick(_) =>
    case CheckPrint(r, client) => LocksInvCheckPrint(s, r, client);
    case RecordPrint(r, outcome) => LocksInvRecordPrint(s, r, outcome);
  }

  // ---- The lockout ----------------------------------------------------------

  /** The counter and the deadline of a key say what really happened. */
  ghost predicate Honest(st: AttemptState, h: seq<int>)
  {
    && st.failures == |h| > 0
    && st.lockedUntil == (if |h| < MAX_FAILURES_BEFORE_LOCKOUT then 0 else h[|h| - 1] + Backoff(|h|))
  }

  ghost predicate HonestAttempts(attempts: map<Key, AttemptState>, failedAt: map<Key, seq<int>>)
  {
    && attempts.Keys == failedAt.Keys
    && forall k :: k in attempts && k in failedAt ==> Honest(attempts[k], failedAt[k])
  }

  /** Every failed password waited its turn. */
  ghost predicate PasswordsPaced(failedAt: map<Key, seq<int>>)
  {
    forall k :: k in failedAt && !IsPrint(k) ==> Paced(failedAt[k])
  }

  ghost predicate LockoutInv(s: State)
  {
    && s.now >= 0
    && HonestAttempts(s.attempts, s.failedAt) && PasswordsPaced(s.failedAt)
    && ChecksHold(s.attempts, s.now, s.uses, s.place)
    && KeysApart(s.uses, s.asserting)
  }

  ghost predicate KeysApart(uses: map<Request, Ref>, asserting: map<Request, Key>)
  {
    (forall r :: r in uses ==> !IsPrint(uses[r].key)) && (forall r :: r in asserting ==> IsPrint(asserting[r]))
  }

  /** Whoever is verifying passed a lockout check that is still good. */
  ghost predicate ChecksHold(attempts: map<Key, AttemptState>, now: int, uses: map<Request, Ref>,
                             place: map<Request, Place>)
  {
    forall r :: r in uses && r in place && place[r].Verifying? ==>
      0 <= place[r].at <= now && !Limited(attempts, uses[r].key, place[r].at)
  }

  /** The lock is what makes the check still good when the outcome is recorded. */
  lemma OnlyOneVerifies(s: State, r: Request, x: Request)
    requires LocksInv(s) && r in s.uses && r in s.place && x in s.uses && x in s.place
    requires Inside(s.place[r]) && Inside(s.place[x]) && s.uses[x].key == s.uses[r].key
    ensures x == r
  {
    assert s.owner[s.uses[r].lock] == r && s.owner[s.uses[x].lock] == x;
  }

  lemma FailureIsHonest(st: AttemptState, h: seq<int>, at: int, now: int)
    requires h == [] ==> st == AttemptState(0, 0)
    requires h != [] ==> Honest(st, h)
    ensures Honest(Failed(st, now), h + [now])
    ensures Paced(h) && 0 <= at <= now && st.lockedUntil <= at ==> Paced(h + [now])
  {
    var h' := h + [now];
    if Paced(h) && 0 <= at <= now && st.lockedUntil <= at {
      forall i | MAX_FAILURES_BEFORE_LOCKOUT <= i < |h'| ensures h'[i] >= h'[i - 1] + Backoff(i) {
        if i < |h| {
          assert h[i] >= h[i - 1] + Backoff(i);
        }
      }
    }
  }

  lemma LockoutInvRecord(s: State, r: Request, outcome: Outcome)
    requires LocksInv(s) && LockoutInv(s) && Enabled(s, Record(r, outcome))
    ensures LockoutInv(Do(s, Record(r, outcome)))
  {
    var key := s.uses[r].key;
    forall x | x in s.uses && x in s.place && x != r && s.place[x].Verifying? ensures s.uses[x].key != key {
      if s.uses[x].key == key {
        OnlyOneVerifies(s, r, x);
      }
    }
    RecordShape(s, r, outcome);
    ChecksHoldRecorded(s.attempts, Do(s, Record(r, outcome)).attempts, s.now, s.uses, s.place, r);
    HonestRecorded(s, key, outcome, s.place[r].at);
  }

  lemma RecordShape(s: State, r: Request, outcome: Outcome)
    requires Enabled(s, Record(r, outcome))
    ensures var s', after := Do(s, Record(r, outcome)), Recorded(s, s.uses[r].key, outcome);
            && s'.now == s.now && s'.uses == s.uses && s'.asserting == s.asserting && s'.place == s.place[r := Finished]
            && s'.attempts == after.attempts && s'.failedAt == after.failedAt
            && (forall k :: k != s.uses[r].key ==>
                  (k in s.attempts <==> k in s'.attempts)
                  && (k in s.attempts && k in s'.attempts ==> s.attempts[k] == s'.attempts[k]))
  {
  }

  lemma HonestRecorded(s: State, key: Key, outcome: Outcome, at: int)
    requires HonestAttempts(s.attempts, s.failedAt) && PasswordsPaced(s.failedAt)
    requires IsPrint(key) || (0 <= at <= s.now && !Limited(s.attempts, key, at))
    ensures var s' := Recorded(s, key, outcome);
            HonestAttempts(s'.attempts, s'.failedAt) && PasswordsPaced(s'.failedAt)
  {
    if outcome == NoMatch {
      FailureIsHonest(StateOf(s.attempts, key), History(s, key), at, s.now);
    }
  }

  lemma ChecksHoldRecorded(attempts: map<Key, AttemptState>, attempts': map<Key, AttemptState>, now: int,
                           uses: map<Request, Ref>, place: map<Request, Place>, r: Request)
    requires ChecksHold(attempts, now, uses, place) && r in uses
    requires forall x :: x in uses && x in place && x != r && place[x].Verifying? ==> uses[x].key != uses[r].key
    requires forall k :: k != uses[r].key ==>
               (k in attempts <==> k in attempts') && (k in attempts && k in attempts' ==> attempts[k] == attempts'[k])
    ensures ChecksHold(attempts', now, uses, place[r := Finished])
  {
  }

  /** A fingerprint's outcome touches no key that passwords are tried on. */
  lemma LockoutInvPrint(s: State, r: Request, outcome: Outcome)
    requires LockoutInv(s) && Enabled(s, RecordPrint(r, outcome))
    ensures LockoutInv(Do(s, RecordPrint(r, outcome)))
  {
    var s' := Do(s, RecordPrint(r, outcome));
    assert IsPrint(s.asserting[r]);
    HonestRecorded(s.(asserting := s.asserting - {r}), s.asserting[r], outcome, s.now);
    ChecksHoldElsewhere(s.attempts, s'.attempts, s.now, s.uses, s.place, s.asserting[r]);
  }

  lemma LockoutInvCheck(s: State, r: Request)
    requires LockoutInv(s) && Enabled(s, Check(r))
    ensures LockoutInv(Do(s, Check(r)))
  {
  }

  lemma LockoutInvCheckPrint(s: State, r: Request, client: string)
    requires LockoutInv(s) && Enabled(s, CheckPrint(r, client))
    ensures LockoutInv(Do(s, CheckPrint(r, client)))
  {
  }

  lemma LockoutInvLocks(s: State, step: Step)
    requires LockoutInv(s) && Enabled(s, step)
    requires step.Tick? || step.TakeRef? || step.Acquire? || step.Release? || step.DropRef?
    ensures LockoutInv(Do(s, step))
  {
  }

  lemma ChecksHoldElsewhere(attempts: map<Key, AttemptState>, attempts': map<Key, AttemptState>, now: int,
                            uses: map<Request, Ref>, place: map<Request, Place>, key: Key)
    requires ChecksHold(attempts, now, uses, place) && forall r :: r in uses ==> uses[r].key != key
    requires forall k :: k != key ==>
               (k in attempts <==> k in attempts') && (k in attempts && k in attempts' ==> attempts[k] == attempts'[k])
    ensures ChecksHold(attempts', now, uses, place)
  {
  }

  lemma LockoutInvStep(s: State, step: Step)
    requires LocksInv(s) && LockoutInv(s) && Enabled(s, step)
    ensures LockoutInv(Do(s, step))
  {
    match step
    case Record(r, outcome) => LockoutInvRecord(s, r, outcome);
    case RecordPrint(r, outcome) => LockoutInvPrint(s, r, outcome);
    case Check(r) => LockoutInvCheck(s, r);
    case CheckPrint(r, client) => LockoutInvCheckPrint(s, r, client);
    case _ => LockoutInvLocks(s, step);
  }

  // ---- Runs -----------------------------------------------------------------

  /** Any interleaving of any requests, from an empty gate. */
  ghost predicate Run(states: seq<State>, steps: seq<Step>)
  {
    && |states| == |steps| + 1
    && Init(states[0])
    && forall i :: 0 <= i < |steps| ==> Enabled(states[i], steps[i]) && states[i + 1] == Do(states[i], steps[i])
  }

  lemma {:induction false} RunKeepsInv(states: seq<State>, steps: seq<Step>, n: nat)
    requires Run(states, steps) && n < |states|
    ensures LocksInv(states[n]) && LockoutInv(states[n])
    decreases n
  {
    if n > 0 {
      RunKeepsInv(states, steps, n - 1);
      LocksInvStep(states[n - 1], steps[n - 1]);
      LockoutInvStep(states[n - 1], steps[n - 1]);
    }
  }

  /** At most one request per key is between taking and releasing its lock. */
  lemma MutualExclusion(states: seq<State>, steps: seq<Step>, n: nat, r: Request, r': Request)
    requires Run(states, steps) && n < |states|
    requires var s := states[n];
             && r in s.uses && r in s.place && r' in s.uses && r' in s.place
             && s.uses[r].key == s.uses[r'].key && Inside(s.place[r]) && Inside(s.place[r'])
    ensures r == r'
  {
    RunKeepsInv(states, steps, n);
    OnlyOneVerifies(states[n], r, r');
  }

  /**
   The map has an entry for a key exactly while some request still refers to it, the count
   is their number, and all of them refer to one and the same lock object.
   */
  lemma MapEntryIffInUse(states: seq<State>, steps: seq<Step>, n: nat, key: Key)
    requires Run(states, steps) && n < |states|
    ensures var s := states[n];
            var users := Users(s.uses, key);
            && (key in s.keyLocks <==> users != {})
            && (key in s.keyLocks ==> s.keyLocks[key] in s.refs && s.refs[s.keyLocks[key]] == |users|)
            && (forall r :: r in users ==> key in s.keyLocks && s.uses[r].lock == s.keyLocks[key])
  {
    RunKeepsInv(states, steps, n);
  }

  /** A step of a request that has already joined. */
  predicate OfProtocol(step: Step)
  {
    !step.Tick? && !step.TakeRef? && !step.CheckPrint? && !step.RecordPrint?
  }

  /** Nobody is stuck: while any request is in the protocol, one of them can take its next step. */
  lemma NoDeadlock(states: seq<State>, steps: seq<Step>, n: nat)
    requires Run(states, steps) && n < |states| && states[n].uses != map[]
    ensures exists step: Step :: OfProtocol(step) && Enabled(states[n], step)
  {
    RunKeepsInv(states, steps, n);
    var s := states[n];
    var r :| r in s.uses;
    var mover := if s.place[r] == Waiting && s.uses[r].lock in s.owner then s.owner[s.uses[r].lock] else r;
    var step := match s.place[mover]
      case Waiting => Acquire(mover)
      case Locked => Check(mover)
      case Verifying(_) => Record(mover, VerifyError)
      case Finished => Release(mover)
      case Leaving => DropRef(mover);
    assert Enabled(s, step);
  }

  // ---- What happened, from the steps alone ----------------------------------

  /** The time after n steps. */
  function Clock(start: int, steps: seq<Step>, n: nat): int
    requires n <= |steps|
  {
    if n == 0 then start else if steps[n - 1].Tick? then steps[n - 1].to else Clock(start, steps, n - 1)
  }

  /** The key a password request last came with. */
  function Asked(steps: seq<Step>, n: nat, r: Request): Option<Key>
    requires n <= |steps|
  {
    if n == 0 then None
    else if steps[n - 1].TakeRef? && steps[n - 1].r == r then Some(steps[n - 1].key)
    else Asked(steps, n - 1, r)
  }

  /** The client a fingerprint request last came from. */
  function AskedPrint(steps: seq<Step>, n: nat, r: Request): Option<string>
    requires n <= |steps|
  {
    if n == 0 then None
    else if steps[n - 1].CheckPrint? && steps[n - 1].r == r then Some(steps[n - 1].client)
    else AskedPrint(steps, n - 1, r)
  }

  /** The outcome that step n records on a key, if it does. */
  function Outcomes(steps: seq<Step>, n: nat, key: Key): Option<Outcome>
    requires n < |steps|
  {
    match steps[n]
    case Record(r, outcome) => if Asked(steps, n, r) == Some(key) then Some(outcome) else None
    case RecordPrint(r, outcome) =>
      var client := AskedPrint(steps, n, r);
      if client.Some? && "webauthn " + client.value == key then Some(outcome) else None
    case _ => None
  }

  /** When attempts on a key failed, in n steps, since one last succeeded. */
  function Failures(start: int, steps: seq<Step>, n: nat, key: Key): seq<int>
    requires n <= |steps|
  {
    if n == 0 then []
    else
      match Outcomes(steps, n - 1, key)
      case Some(Match) => []
      case Some(NoMatch) => Failures(start, steps, n - 1, key) + [Clock(start, steps, n - 1)]
      case _ => Failures(start, steps, n - 1, key)
  }

  /** Each request's key is the one it came with. */
  ghost predicate KeysAsAsked(s: State, steps: seq<Step>, n: nat)
    requires n <= |steps|
  {
    && (forall r :: r in s.uses ==> Asked(steps, n, r) == Some(s.uses[r].key))
    && (forall r :: r in s.asserting ==>
          AskedPrint(steps, n, r).Some? && s.asserting[r] == "webauthn " + AskedPrint(steps, n, r).value)
  }

  /** Clock, keys and history of a state are what the steps so far say. */
  ghost predicate Recounts(s: State, start: int, steps: seq<Step>, n: nat)
    requires n <= |steps|
  {
    && s.now == Clock(start, steps, n)
    && KeysAsAsked(s, steps, n)
    && forall key :: History(s, key) == Failures(start, steps, n, key)
  }

  /** The key on whose history a step works, and with what outcome. */
  function Records(s: State, step: Step): Option<(Key, Outcome)>
    requires Enabled(s, step)
  {
    match step
    case Record(r, outcome) => Some((s.uses[r].key, outcome))
    case RecordPrint(r, outcome) => Some((s.asserting[r], outcome))
    case _ => None
  }

  lemma HistoryRecorded(s: State, key: Key, outcome: Outcome, key': Key)
    ensures var s' := Recorded(s, key, outcome);
            && s'.now == s.now && s'.uses == s.uses && s'.asserting == s.asserting
            && History(s', key')
               == if key' != key || outcome == VerifyError then History(s, key')
                  else if outcome == NoMatch then History(s, key) + [s.now] else []
  {
  }

  lemma HistoryStep(s: State, step: Step, key: Key)
    requires Enabled(s, step)
    ensures var records, h := Records(s, step), History(s, key);
            History(Do(s, step), key)
            == if records.None? || records.value.0 != key || records.value.1 == VerifyError then h
               else if records.value.1 == NoMatch then h + [s.now] else []
  {
    match step
    case Record(r, outcome) => HistoryRecorded(Move(s, r, Finished), s.uses[r].key, outcome, key);
    case RecordPrint(r, outcome) => HistoryRecorded(s.(asserting := s.asserting - {r}), s.asserting[r], outcome, key);
    case _ => assert Do(s, step).failedAt == s.failedAt;
  }

  /** What a step does to the clock and to the keys requests came with. */
  lemma StepShape(s: State, step: Step)
    requires Enabled(s, step)
    ensures var s' := Do(s, step);
            && s'.now == (if step.Tick? then step.to else s.now)
            && s'.uses == (match step
                           case TakeRef(r, key) => s.uses[r := Ref(key, s'.uses[r].lock)]
                           case DropRef(r) => s.uses - {r}
                           case _ => s.uses)
            && s'.asserting == (match step
                                case CheckPrint(r, client) =>
                                  if r in s'.asserting then s.asserting[r := PrintKey(client)] else s.asserting
                                case RecordPrint(r, _) => s.asserting - {r}
                                case _ => s.asserting)
  {
    match step
    case Record(r, outcome) => HistoryRecorded(Move(s, r, Finished), s.uses[r].key, outcome, "");
    case RecordPrint(r, outcome) => HistoryRecorded(s.(asserting := s.asserting - {r}), s.asserting[r], outcome, "");
    case _ =>
  }

  lemma OutcomeStep(s: State, steps: seq<Step>, n: nat, key: Key)
    requires n < |steps| && Enabled(s, steps[n]) && KeysAsAsked(s, steps, n)
    ensures var records := Records(s, steps[n]);
            Outcomes(steps, n, key)
            == if records.Some? && records.value.0 == key then Some(records.value.1) else None
  {
  }

  lemma KeysStep(s: State, steps: seq<Step>, n: nat)
    requires n < |steps| && Enabled(s, steps[n]) && KeysAsAsked(s, steps, n)
    ensures KeysAsAsked(Do(s, steps[n]), steps, n + 1)
  {
    StepShape(s, steps[n]);
  }

  lemma RecountsStep(s: State, start: int, steps: seq<Step>, n: nat)
    requires n < |steps| && Enabled(s, steps[n]) && Recounts(s, start, steps, n)
    ensures Recounts(Do(s, steps[n]), start, steps, n + 1)
  {
    StepShape(s, steps[n]);
    KeysStep(s, steps, n);
    var s' := Do(s, steps[n]);
    forall key ensures History(s', key) == Failures(start, steps, n + 1, key) {
      HistoryStep(s, steps[n], key);
      OutcomeStep(s, steps, n, key);
      assert History(s, key) == Failures(start, steps, n, key);
    }
  }

  lemma {:induction false} RunRecounts(states: seq<State>, steps: seq<Step>, n: nat)
    requires Run(states, steps) && n < |states|
    ensures Recounts(states[n], states[0].now, steps, n)
    decreases n
  {
    if n > 0 {
      RunRecounts(states, steps, n - 1);
      RecountsStep(states[n - 1], states[0].now, steps, n - 1);
    }
  }

  /**
   The lockout holds against any number of concurrent requests, whatever fingerprint
   unlocks do meanwhile: in every run, the failed passwords of one key since its last
   success pace themselves, so the n-th comes at least 315 + 300 (n - 11) seconds after
   the fifth.
   */
  lemma ConcurrentGuessingIsPaced(states: seq<State>, steps: seq<Step>, i: nat, key: Key, n: nat)
    requires Run(states, steps) && i < |states| && !IsPrint(key)
    requires 11 <= n <= |Failures(states[0].now, steps, i, key)|
    ensures var h := Failures(states[0].now, steps, i, key);
            h[n - 1] - h[4] >= (315 + 300 * (n - 11)) * SECOND
  {
    RunKeepsInv(states, steps, i);
    RunRecounts(states, steps, i);
    LockoutPace(History(states[i], key), n);
  }

  /** Within the backoff of the last of five or more failures. */
  predicate WithinBackoff(failures: seq<int>, now: int)
  {
    |failures| >= MAX_FAILURES_BEFORE_LOCKOUT && now < failures[|failures| - 1] + Backoff(|failures|)
  }

  /** A request is refused exactly within the backoff of its key's failures, and else goes on to the password. */
  lemma RefusedIffWithinBackoff(states: seq<State>, steps: seq<Step>, i: nat, r: Request)
    requires Run(states, steps) && i < |steps| && steps[i] == Check(r)
    ensures var now := Clock(states[0].now, steps, i);
            && Asked(steps, i, r).Some? && At(states[i], r, Locked)
            && if WithinBackoff(Failures(states[0].now, steps, i, Asked(steps, i, r).value), now)
               then At(states[i + 1], r, Finished) else At(states[i + 1], r, Verifying(now))
  {
    RunKeepsInv(states, steps, i);
    RunRecounts(states, steps, i);
    var key := states[i].uses[r].key;
    assert History(states[i], key) == Failures(states[0].now, steps, i, key);
  }

  /** So is a fingerprint, on its client's own failures. */
  lemma PrintRefusedIffWithinBackoff(states: seq<State>, steps: seq<Step>, i: nat, r: Request, client: string)
    requires Run(states, steps) && i < |steps| && steps[i] == CheckPrint(r, client)
    ensures r !in states[i + 1].asserting
            <==> WithinBackoff(Failures(states[0].now, steps, i, "webauthn " + client),
                               Clock(states[0].now, steps, i))
  {
    RunKeepsInv(states, steps, i);
    RunRecounts(states, steps, i);
    var key := PrintKey(client);
    assert History(states[i], key) == Failures(states[0].now, steps, i, key);
  }

  // ---- Without the lock -----------------------------------------------------

  function Zeros(n: nat): seq<int>
  {
    if n == 0 then [] else Zeros(n - 1) + [0]
  }

  lemma OneMoreStep(states: seq<State>, steps: seq<Step>, step: Step)
    requires Run(states, steps) && Enabled(states[|steps|], step)
    ensures Run(states + [Do(states[|steps|], step)], steps + [step])
  {
    var states', steps' := states + [Do(states[|steps|], step)], steps + [step];
    forall i | 0 <= i < |steps'| ensures Enabled(states'[i], steps'[i]) && states'[i + 1] == Do(states'[i], steps'[i]) {
      assert i < |steps| ==> states'[i] == states[i] && states'[i + 1] == states[i + 1] && steps'[i] == steps[i];
    }
  }

  /** n fingerprint unlocks that have passed the check at time 0, before any has failed. */
  ghost predicate AllChecked(s: State, key: Key, n: nat)
  {
    && s.now == 0 && s.attempts == map[] && s.failedAt == map[]
    && forall r :: 0 <= r < n ==> r in s.asserting && s.asserting[r] == key
  }

  lemma {:induction false} CheckMany(client: string, n: nat) returns (states: seq<State>, steps: seq<Step>)
    ensures Run(states, steps) && AllChecked(states[|steps|], PrintKey(client), n)
    ensures forall r :: r in states[|steps|].asserting ==> r < n
    decreases n
  {
    if n == 0 {
      var s := State(0, map[], map[], map[], 0, map[], map[], map[], map[], map[]);
      states, steps := [s], [];
    } else {
      states, steps := CheckMany(client, n - 1);
      var step := CheckPrint(n - 1, client);
      OneMoreStep(states, steps, step);
      states, steps := states + [Do(states[|steps|], step)], steps + [step];
    }
  }

  lemma {:induction false} FailMany(client: string, n: nat, k: nat) returns (states: seq<State>, steps: seq<Step>)
    requires k <= n
    ensures Run(states, steps) && states[|steps|].now == 0 && History(states[|steps|], PrintKey(client)) == Zeros(k)
    ensures var s := states[|steps|]; forall r :: k <= r < n ==> r in s.asserting && s.asserting[r] == PrintKey(client)
    decreases k
  {
    if k == 0 {
      states, steps := CheckMany(client, n);
    } else {
      states, steps := FailMany(client, n, k - 1);
      var step := RecordPrint(k - 1, NoMatch);
      OneMoreStep(states, steps, step);
      states, steps := states + [Do(states[|steps|], step)], steps + [step];
    }
  }

  /**
   The lock is what paces passwords. On the fingerprint path, which checks and records
   without one, any number of failures can be recorded at one and the same moment.
   */
  lemma PrintsAreNotPaced(client: string, n: nat) returns (states: seq<State>, steps: seq<Step>)
    ensures Run(states, steps) && Failures(states[0].now, steps, |steps|, "webauthn " + client) == Zeros(n)
  {
    states, steps := FailMany(client, n, n);
    RunRecounts(states, steps, |steps|);
    assert History(states[|steps|], PrintKey(client)) == Zeros(n);
  }
}
