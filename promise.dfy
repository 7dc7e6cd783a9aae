/** `callAsyncMethodWithTimeout` (`src/utils/promise/index.ts`): an
    operation raced against a timer, retried after timeouts. Each invocation's
    race is an oracle: `asyncFn(n)` is how the race of the n-th invocation
    (from 0) ends. The timer, `clearTimeout` and `sleep` are left to the
    oracle; the model counts the invocations and the sleeps. */
module Promise {
  import opened Wrappers

  /** How `Promise.race([promise, timeoutPromise])` ends. */
  datatype RaceOutcome<T> = Resolved(value: T) | TimedOut | Rejected(error: string)

  /** The outcome of a whole call and how many times the operation ran. */
  datatype Run<T> = Run(result: Result<T>, invocations: nat)

  const SomethingWentWrong := "[promiseWithTimeout]: Something went wrong"

  /** The call from the `n`-th attempt on, with `maxAttempts` attempts in all:
      a resolved race returns its value, a rejected one rethrows, a timeout
      moves on to the next attempt or, after the last, returns
      `timeoutReturn`. With no attempt left to make it throws. */
  function RunFrom<T>(asyncFn: nat -> RaceOutcome<T>, timeoutReturn: T, maxAttempts: int, n: nat): Run<T>
    decreases maxAttempts - n
  {
    if n >= maxAttempts then Run(Failure(SomethingWentWrong), n)
    else
      match asyncFn(n)
      case Resolved(v) => Run(Success(v), n + 1)
      case Rejected(e) => Run(Failure(e), n + 1)
      case TimedOut =>
        if n + 1 < maxAttempts then RunFrom(asyncFn, timeoutReturn, maxAttempts, n + 1)
        else Run(Success(timeoutReturn), n + 1)
  }

  /** The attempt loop. Besides the result, `invocations` counts the calls of
      `asyncFn` and `sleeps` the waits between attempts. */
  method CallAsyncMethodWithTimeout<T>(asyncFn: nat -> RaceOutcome<T>, timeoutInMillis: int, timeoutReturn: T,
                                       retry: int, delay: int)
    returns (r: Result<T>, invocations: nat, sleeps: nat)
    ensures Run(r, invocations) == RunFrom(asyncFn, timeoutReturn, retry + 1, 0)
    ensures sleeps == if delay != 0 && invocations > 0 then invocations - 1 else 0
  {
    var maxAttempts := retry + 1;
    var currentAttempt: nat := 0;
    invocations, sleeps := 0, 0;
    while currentAttempt < maxAttempts
      invariant currentAttempt == invocations
      invariant currentAttempt == 0 || currentAttempt < maxAttempts
      invariant RunFrom(asyncFn, timeoutReturn, maxAttempts, currentAttempt) == RunFrom(asyncFn, timeoutReturn, maxAttempts, 0)
      invariant sleeps == if delay != 0 then currentAttempt else 0
      decreases maxAttempts - currentAttempt
    {
      var outcome := asyncFn(currentAttempt);
      invocations := invocations + 1;
      match outcome {
        case TimedOut =>
          currentAttempt := currentAttempt + 1;
          if currentAttempt < maxAttempts {
            if delay != 0 {
              sleeps := sleeps + 1;
            }
            continue;
          }
          return Success(timeoutReturn), invocations, sleeps;
        case Resolved(v) =>
          return Success(v), invocations, sleeps;
        case Rejected(e) =>
          return Failure(e), invocations, sleeps;
      }
    }
    r := Failure(SomethingWentWrong);
  }

  // ---------------------------------------------------------------------
  // Properties
  // ---------------------------------------------------------------------

  /** With at least one attempt allowed, the operation runs at least once and
      at most `maxAttempts` times; with none it never runs and the call throws. */
  lemma {:induction false} RunBounds<T>(asyncFn: nat -> RaceOutcome<T>, timeoutReturn: T, maxAttempts: int, n: nat)
    ensures n < maxAttempts ==> n + 1 <= RunFrom(asyncFn, timeoutReturn, maxAttempts, n).invocations <= maxAttempts
    ensures n >= maxAttempts ==> RunFrom(asyncFn, timeoutReturn, maxAttempts, n) == Run(Failure(SomethingWentWrong), n)
    decreases maxAttempts - n
  {
    if n < maxAttempts && asyncFn(n).TimedOut? && n + 1 < maxAttempts {
      RunBounds(asyncFn, timeoutReturn, maxAttempts, n + 1);
    }
  }

  /** Every invocation but the last timed out, and the last one decides: its
      value, its error, or, when it timed out too, `timeoutReturn` after the
      last allowed attempt. */
  lemma {:induction false} RunLast<T>(asyncFn: nat -> RaceOutcome<T>, timeoutReturn: T, maxAttempts: int, n: nat)
    requires n < maxAttempts
    ensures var run := RunFrom(asyncFn, timeoutReturn, maxAttempts, n);
      run.invocations >= n + 1 &&
      (forall k :: n <= k < run.invocations - 1 ==> asyncFn(k) == TimedOut) &&
      match asyncFn(run.invocations - 1)
      case Resolved(v) => run.result == Success(v)
      case Rejected(e) => run.result == Failure(e)
      case TimedOut => run.invocations == maxAttempts && run.result == Success(timeoutReturn)
    decreases maxAttempts - n
  {
    if asyncFn(n).TimedOut? && n + 1 < maxAttempts {
      RunLast(asyncFn, timeoutReturn, maxAttempts, n + 1);
    }
  }

  /** When every attempt times out, the call returns `timeoutReturn` after
      exactly `retry + 1` invocations. */
  lemma AllTimedOut<T>(asyncFn: nat -> RaceOutcome<T>, timeoutReturn: T, retry: int)
    requires retry >= 0
    requires forall k :: 0 <= k <= retry ==> asyncFn(k) == TimedOut
    ensures RunFrom(asyncFn, timeoutReturn, retry + 1, 0) == Run(Success(timeoutReturn), retry + 1)
  {
    RunLast(asyncFn, timeoutReturn, retry + 1, 0);
    RunBounds(asyncFn, timeoutReturn, retry + 1, 0);
  }

  /** The first invocation whose race resolves ends the call with its value,
      even a value equal to `timeoutReturn`, and nothing runs after it. */
  lemma FirstResolved<T>(asyncFn: nat -> RaceOutcome<T>, timeoutReturn: T, retry: int, n: nat, v: T)
    requires n <= retry && asyncFn(n) == Resolved(v)
    requires forall k :: 0 <= k < n ==> asyncFn(k) == TimedOut
    ensures RunFrom(asyncFn, timeoutReturn, retry + 1, 0) == Run(Success(v), n + 1)
  {
    RunLast(asyncFn, timeoutReturn, retry + 1, 0);
    RunBounds(asyncFn, timeoutReturn, retry + 1, 0);
  }

  /** A rejection is rethrown at once and not retried. */
  lemma FirstRejected<T>(asyncFn: nat -> RaceOutcome<T>, timeoutReturn: T, retry: int, n: nat, e: string)
    requires n <= retry && asyncFn(n) == Rejected(e)
    requires forall k :: 0 <= k < n ==> asyncFn(k) == TimedOut
    ensures RunFrom(asyncFn, timeoutReturn, retry + 1, 0) == Run(Failure(e), n + 1)
  {
    RunLast(asyncFn, timeoutReturn, retry + 1, 0);
    RunBounds(asyncFn, timeoutReturn, retry + 1, 0);
  }

  /** An operation that never rejects makes the call succeed whenever an
      attempt is allowed: with a value, or with `timeoutReturn`. */
  lemma {:induction false} NeverRejected<T>(asyncFn: nat -> RaceOutcome<T>, timeoutReturn: T, maxAttempts: int, n: nat)
    requires n < maxAttempts
    requires forall k :: n <= k < maxAttempts ==> !asyncFn(k).Rejected?
    ensures RunFrom(asyncFn, timeoutReturn, maxAttempts, n).result.Success?
    decreases maxAttempts - n
  {
    if asyncFn(n).TimedOut? && n + 1 < maxAttempts {
      NeverRejected(asyncFn, timeoutReturn, maxAttempts, n + 1);
    }
  }
}
