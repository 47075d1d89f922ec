/** The constant-delay retry loop `LLMHandler` uses three times: up to
    `max_retries` attempts, the first success returned, a sleep after every
    failure but the last, and the last failure re-raised once attempts run
    out. Sleeping is counted, not timed; attempt `k` is the opaque
    `attempt(k)`. */
module RetryPolicy {
  import opened Results

  /** How a retry loop ends. `NoAttempt` is the loop that never runs
      (`max_retries <= 0`), after which the Python method returns `None`. */
  datatype Outcome<T, E> = Succeeded(value: T) | Exhausted(last: E) | NoAttempt

  /** What a retry loop did: its outcome, how many attempts it made and how
      many times it slept. */
  datatype Run<T, E> = Run(outcome: Outcome<T, E>, attempts: nat, delays: nat)

  /** Attempts `0 .. k-1` all failed. */
  predicate FailedBefore<T, E>(attempt: nat -> Result<T, E>, k: nat) {
    forall j :: 0 <= j < k ==> attempt(j).Failure?
  }

  /** The loop from attempt `k` on, as a reference definition. */
  function RetryFrom<T, E>(n: int, attempt: nat -> Result<T, E>, k: nat): (r: Run<T, E>)
    requires k < n
    ensures k < r.attempts <= n && r.delays == r.attempts - 1
    ensures !r.outcome.NoAttempt?
    ensures r.outcome.Succeeded? ==>
      attempt(r.attempts - 1) == Success(r.outcome.value) &&
      forall j :: k <= j < r.attempts - 1 ==> attempt(j).Failure?
    ensures r.outcome.Exhausted? ==>
      r.attempts == n && attempt(n - 1) == Failure(r.outcome.last) &&
      forall j :: k <= j < n ==> attempt(j).Failure?
    decreases n - k
  {
    match attempt(k)
    case Success(v) => Run(Succeeded(v), k + 1, k)
    case Failure(e) =>
      if k == n - 1 then Run(Exhausted(e), n, n - 1)
      else RetryFrom(n, attempt, k + 1)
  }

  /** `for attempt in range(max_retries)` with its try/except body. */
  function Retry<T, E>(n: int, attempt: nat -> Result<T, E>): (r: Run<T, E>)
    ensures r.outcome.NoAttempt? <==> n <= 0
    ensures n <= 0 ==> r.attempts == 0 && r.delays == 0
    ensures 0 < n ==> 0 < r.attempts <= n && r.delays == r.attempts - 1
    ensures r.outcome.Succeeded? ==>
      attempt(r.attempts - 1) == Success(r.outcome.value) && FailedBefore(attempt, r.attempts - 1)
    ensures r.outcome.Exhausted? ==>
      r.attempts == n && attempt(n - 1) == Failure(r.outcome.last) && FailedBefore(attempt, n)
  {
    if n <= 0 then Run(NoAttempt, 0, 0) else RetryFrom(n, attempt, 0)
  }

  /** The loop returns the first success and makes no further attempt. */
  lemma RetryStopsAtFirstSuccess<T, E>(n: int, attempt: nat -> Result<T, E>, k: nat)
    requires k < n
    requires attempt(k).Success? && FailedBefore(attempt, k)
    ensures Retry(n, attempt) == Run(Succeeded(attempt(k).value), k + 1, k)
  {
  }

  /** When every attempt fails the loop sleeps between attempts and
      re-raises the last failure. */
  lemma RetryExhaustsWhenAllFail<T, E>(n: int, attempt: nat -> Result<T, E>)
    requires 0 < n && FailedBefore(attempt, n)
    ensures Retry(n, attempt) == Run(Exhausted(attempt(n - 1).error), n, n - 1)
  {
  }

  /** Starting the reference loop after failed attempts is the same as
      starting it at the beginning. */
  lemma {:induction false} RetryFromSkipsFailures<T, E>(n: int, attempt: nat -> Result<T, E>, k: nat)
    requires k < n && FailedBefore(attempt, k)
    ensures RetryFrom(n, attempt, 0) == RetryFrom(n, attempt, k)
    decreases k
  {
    if k > 0 {
      assert attempt(k - 1).Failure?;
      RetryFromSkipsFailures(n, attempt, k - 1);
    }
  }

  /** The loop as the Python code runs it, proved equal to the reference. */
  method RetryLoop<T, E>(n: int, attempt: nat -> Result<T, E>) returns (outcome: Outcome<T, E>, attempts: nat, delays: nat)
    ensures Run(outcome, attempts, delays) == Retry(n, attempt)
  {
    outcome, attempts, delays := NoAttempt, 0, 0;
    var k: nat := 0;
    while k < n
      invariant attempts == k && delays == k
      invariant FailedBefore(attempt, k)
      invariant if 0 < n then k < n else k == 0
      decreases n - k
    {
      RetryFromSkipsFailures(n, attempt, k);
      attempts := attempts + 1;
      match attempt(k) {
        case Success(v) =>
          assert RetryFrom(n, attempt, k) == Run(Succeeded(v), k + 1, k);
          outcome := Succeeded(v);
          return;
        case Failure(e) =>
          if k == n - 1 {
            assert RetryFrom(n, attempt, k) == Run(Exhausted(e), n, n - 1);
            outcome := Exhausted(e);
            return;
          }
          delays := delays + 1;
      }
      k := k + 1;
    }
  }
}
