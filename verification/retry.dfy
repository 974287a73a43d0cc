/**
 * `retry_request`: call the wrapped function up to `retries` times, sleeping
 * `delay` after each attempt that failed with a transient API status.
 */
module Retry {
  import opened Common

  /** The decorator's default arguments. */
  const DefaultRetries: int := 5
  const DefaultDelay: int := 10

  /** What one attempt of the wrapped function does. */
  datatype Outcome<T> =
    | Returned(value: T)
    | ApiError(status: int)
    | OtherError(message: string)

  /** How a retried call can fail. */
  datatype RetryError =
    | Reraised(status: int)      // an `APIError` with a status that is not retried
    | Propagated(message: string) // any other exception, such as `find`'s `ValueError`
    | MaxRetriesExceeded          // every attempt failed transiently
    | InvalidDelay                // `time.sleep` refused a negative `delay`

  /** The statuses worth another attempt: 500, 503 and 409. */
  predicate Transient(status: int) {
    status == 500 || status == 503 || status == 409
  }

  predicate Retryable<T>(o: Outcome<T>) {
    o.ApiError? && Transient(o.status)
  }

  /** The number of attempts `range(retries)` allows. */
  function AttemptLimit(retries: int): nat {
    if retries > 0 then retries else 0
  }

  /** What a retried call produced, how many attempts it made, and the sleeps between them. */
  datatype RetryRun<T> = RetryRun(result: Result<T, RetryError>, attempts: nat, sleeps: seq<int>)

  /**
   * `retry_request(retries, delay)(func)()`, where `call(k)` is what attempt
   * `k` (from 0) of `func` does. Every attempt but the last failed
   * transiently; the last one decides the result; each transient failure,
   * the last one included, is followed by exactly one sleep of `delay`. A
   * negative `delay` makes that first sleep raise, which ends the call.
   */
  method RetryRequest<T>(retries: int, delay: int, call: nat -> Outcome<T>) returns (run: RetryRun<T>)
    ensures run.attempts <= AttemptLimit(retries)
    ensures forall k | 0 <= k < run.attempts - 1 :: Retryable(call(k))
    ensures run.result.Ok? <==> run.attempts > 0 && call(run.attempts - 1).Returned?
    ensures run.result.Ok? ==> run.result.value == call(run.attempts - 1).value
    ensures run.result.Err? && run.result.error.Reraised? <==>
      run.attempts > 0 && call(run.attempts - 1).ApiError? && !Transient(call(run.attempts - 1).status)
    ensures run.result.Err? && run.result.error.Reraised? ==> run.result.error.status == call(run.attempts - 1).status
    ensures run.result.Err? && run.result.error.Propagated? <==>
      run.attempts > 0 && call(run.attempts - 1).OtherError?
    ensures run.result.Err? && run.result.error.Propagated? ==>
      run.result.error.message == call(run.attempts - 1).message
    ensures run.result == Err(MaxRetriesExceeded) <==>
      && run.attempts == AttemptLimit(retries)
      && (forall k | 0 <= k < run.attempts :: Retryable(call(k)))
      && (run.attempts == 0 || delay >= 0)
    ensures run.result == Err(InvalidDelay) <==>
      run.attempts > 0 && Retryable(call(run.attempts - 1)) && delay < 0
    ensures delay < 0 ==> run.attempts <= 1
    ensures |run.sleeps| == (if run.result == Err(MaxRetriesExceeded) then run.attempts else run.attempts - 1)
    ensures forall i | 0 <= i < |run.sleeps| :: run.sleeps[i] == delay
  {
    var attempt: nat := 0;
    var sleeps: seq<int> := [];
    while attempt < retries
      invariant attempt <= AttemptLimit(retries)
      invariant forall k | 0 <= k < attempt :: Retryable(call(k))
      invariant |sleeps| == attempt && forall i | 0 <= i < |sleeps| :: sleeps[i] == delay
      invariant delay < 0 ==> attempt == 0
    {
      match call(attempt)
      case Returned(v) =>
        return RetryRun(Ok(v), attempt + 1, sleeps);
      case OtherError(m) =>
        return RetryRun(Err(Propagated(m)), attempt + 1, sleeps);
      case ApiError(s) =>
        if !Transient(s) {
          return RetryRun(Err(Reraised(s)), attempt + 1, sleeps);
        }
        if delay < 0 {
          return RetryRun(Err(InvalidDelay), attempt + 1, sleeps);
        }
        sleeps := sleeps + [delay];
        attempt := attempt + 1;
    }
    return RetryRun(Err(MaxRetriesExceeded), attempt, sleeps);
  }
}
