/**
 The failed-attempt lockout of the password gate
 (webmanager/backend/internal/authgate/gate.go): the per-key failure count and the
 exponential backoff. Times are nanoseconds; 0 is the zero time, before every clock
 reading.
 */
module GateLockout {

  const SECOND: int := 1_000_000_000
  const MAX_FAILURES_BEFORE_LOCKOUT: nat := 5
  const LOCKOUT_BASE: int := 5 * SECOND
  const LOCKOUT_MAX: int := 300 * SECOND
  const MAX_INT64: int := 0x7fff_ffff_ffff_ffff

  datatype AttemptState = AttemptState(failures: nat, lockedUntil: int)

  function Pow2(n: nat): (p: nat)
    ensures p > 0
  {
    if n == 0 then 1 else 2 * Pow2(n - 1)
  }

  function Min(a: int, b: int): int
  {
    if a <= b then a else b
  }

  /** What the doubling loop means: 5s doubled once per failure past the fifth, at most 300s. */
  function Backoff(failures: nat): int
    requires failures >= MAX_FAILURES_BEFORE_LOCKOUT
  {
    Min(LOCKOUT_BASE * Pow2(failures - MAX_FAILURES_BEFORE_LOCKOUT), LOCKOUT_MAX)
  }

  /** The state after one more failure recorded at time now. */
  function Failed(st: AttemptState, now: int): AttemptState
  {
    var f := st.failures + 1;
    AttemptState(f, if f >= MAX_FAILURES_BEFORE_LOCKOUT then now + Backoff(f) else st.lockedUntil)
  }

  function StateOf<K>(attempts: map<K, AttemptState>, key: K): AttemptState
  {
    if key in attempts then attempts[key] else AttemptState(0, 0)
  }

  predicate Limited<K>(attempts: map<K, AttemptState>, key: K, now: int)
  {
    key in attempts && now < attempts[key].lockedUntil
  }

  class Attempts {
    var attempts: map<string, AttemptState>

    constructor ()
      ensures attempts == map[]
    {
      attempts := map[];
    }

    method RateLimited(key: string, now: int) returns (remaining: int, locked: bool)
      ensures locked <==> Limited(attempts, key, now)
      ensures remaining == if locked then attempts[key].lockedUntil - now else 0
      ensures locked ==> remaining > 0
    {
      if key !in attempts {
        return 0, false;
      }
      remaining := attempts[key].lockedUntil - now;
      if remaining > 0 {
        return remaining, true;
      }
      return 0, false;
    }

    method RecordFailure(key: string, now: int)
      modifies this
      ensures attempts == old(attempts)[key := Failed(StateOf(old(attempts), key), now)]
    {
      var st := StateOf(attempts, key);
      st := st.(failures := st.failures + 1);
      if st.failures >= MAX_FAILURES_BEFORE_LOCKOUT {
        var backoff := LOCKOUT_BASE;
        var i := MAX_FAILURES_BEFORE_LOCKOUT;
        while i < st.failures && backoff < LOCKOUT_MAX
          invariant MAX_FAILURES_BEFORE_LOCKOUT <= i <= st.failures
          invariant backoff == LOCKOUT_BASE * Pow2(i - MAX_FAILURES_BEFORE_LOCKOUT)
          invariant 0 < backoff < 2 * LOCKOUT_MAX <= MAX_INT64  // the step-by-step doubling never overflows
        {
          backoff := backoff * 2;
          i := i + 1;
        }
        Pow2Grows(i - MAX_FAILURES_BEFORE_LOCKOUT, st.failures - MAX_FAILURES_BEFORE_LOCKOUT);
        backoff := Min(backoff, LOCKOUT_MAX);
        st := st.(lockedUntil := now + backoff);
      }
      attempts := attempts[key := st];
    }

    method RecordSuccess(key: string)
      modifies this
      ensures attempts == old(attempts) - {key}
    {
      attempts := attempts - {key};
    }
  }

  lemma {:induction false} Pow2Grows(m: nat, n: nat)
    requires m <= n
    ensures Pow2(m) <= Pow2(n)
    decreases n - m
  {
    if m < n {
      Pow2Grows(m, n - 1);
    }
  }

  /** More failures never shorten the lockout, and it is always between 5s and 300s. */
  lemma BackoffMonotone(f: nat, g: nat)
    requires MAX_FAILURES_BEFORE_LOCKOUT <= f <= g
    ensures LOCKOUT_BASE <= Backoff(f) <= Backoff(g) <= LOCKOUT_MAX
  {
    Pow2Grows(0, f - MAX_FAILURES_BEFORE_LOCKOUT);
    Pow2Grows(f - MAX_FAILURES_BEFORE_LOCKOUT, g - MAX_FAILURES_BEFORE_LOCKOUT);
  }

  /** Five seconds from the fifth failure on, twice as long after each further one, up to five minutes. */
  lemma BackoffDoubles(f: nat)
    requires f >= MAX_FAILURES_BEFORE_LOCKOUT
    ensures MAX_FAILURES_BEFORE_LOCKOUT == 5 && Backoff(5) == 5 * SECOND
    ensures Backoff(f + 1) == if 2 * Backoff(f) < 300 * SECOND then 2 * Backoff(f) else 300 * SECOND
  {
    assert Pow2(0) == 1;
    assert Pow2(f + 1 - MAX_FAILURES_BEFORE_LOCKOUT) == 2 * Pow2(f - MAX_FAILURES_BEFORE_LOCKOUT);
  }

  /** Times of consecutive failures on one key, each no sooner than the lockout before it allows. */
  ghost predicate Paced(times: seq<int>)
  {
    forall i :: MAX_FAILURES_BEFORE_LOCKOUT <= i < |times| ==> times[i] >= times[i - 1] + Backoff(i)
  }

  /**
   Sustained guessing: from the 5th failure to the n-th at least 315s pass, and another
   300s for each one after the eleventh.
   */
  lemma {:induction false} LockoutPace(times: seq<int>, n: nat)
    requires Paced(times) && 11 <= n <= |times|
    ensures times[n - 1] - times[4] >= (315 + 300 * (n - 11)) * SECOND
    decreases n
  {
    if n == 11 {
      assert Pow2(0) == 1 && Pow2(1) == 2 && Pow2(2) == 4 && Pow2(3) == 8;
      assert Pow2(4) == 16 && Pow2(5) == 32;
      assert times[5] >= times[4] + 5 * SECOND;
      assert times[6] >= times[5] + 10 * SECOND;
      assert times[7] >= times[6] + 20 * SECOND;
      assert times[8] >= times[7] + 40 * SECOND;
      assert times[9] >= times[8] + 80 * SECOND;
      assert times[10] >= times[9] + 160 * SECOND;
    } else {
      LockoutPace(times, n - 1);
      Pow2Grows(6, n - 1 - MAX_FAILURES_BEFORE_LOCKOUT);
      assert Pow2(6) == 64 by { assert Pow2(4) == 16; }
      assert times[n - 1] >= times[n - 2] + Backoff(n - 1);
    }
  }
}
