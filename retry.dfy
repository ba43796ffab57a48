/**
 * `run_with_retry`: run a block, retrying it while it fails with a request
 * timeout, at most `MaxTry` times.
 *
 * The block is abstracted as the outcome of each attempt, numbered from 0.
 * A timeout increments the counter `ntry`; once `ntry` exceeds `MaxTry` the
 * error is reported to the notification sink, with its HTTP body as extra
 * data, and re-raised. Otherwise the cached bucket handle `@bucket` is set
 * to nil and the block runs again. Any other error propagates at once.
 *
 * `@bucket` is written here and by `bucket`, but never read: `bucket` builds
 * a new handle on every call. The reset therefore changes nothing the block
 * can observe; the model only counts it.
 */
module Retry {

  /** `maxtry` in the source: three retries, four attempts in all. */
  const MaxTry: nat := 3

  /** What one run of the block does. */
  datatype Attempt<T> =
    | Ok(value: T)
    | Timeout(httpBody: string)   // AWS::S3::Errors::RequestTimeout
    | Other(error: string)        // any other exception

  /** What the caller of `run_with_retry` sees. */
  datatype Outcome<T> = Returned(value: T) | Raised(failure: Attempt<T>)

  /**
   * A whole call: its outcome, how many times the block ran, how many times
   * the cached bucket was cleared, and the HTTP bodies sent with each report
   * to the notification sink.
   */
  datatype RetryRun<T> = RetryRun(outcome: Outcome<T>, attempts: nat, bucketResets: nat, reports: seq<string>)

  /**
   * The call as seen from the point where `ntry` timeouts have happened:
   * the block runs with attempt number `ntry`.
   */
  function RetryFrom<T>(work: nat -> Attempt<T>, ntry: nat): (run: RetryRun<T>)
    requires ntry <= MaxTry
    ensures ntry < run.attempts <= MaxTry + 1
    ensures forall k :: ntry <= k < run.attempts - 1 ==> work(k).Timeout?
    ensures run.outcome.Returned? <==> work(run.attempts - 1).Ok?
    ensures run.outcome.Returned? ==> run.outcome.value == work(run.attempts - 1).value
    ensures run.outcome.Raised? ==> run.outcome.failure == work(run.attempts - 1)
    ensures work(run.attempts - 1).Timeout? ==> run.attempts == MaxTry + 1
    ensures run.bucketResets == run.attempts - 1
    ensures run.reports == if work(run.attempts - 1).Timeout? then [work(run.attempts - 1).httpBody] else []
    decreases MaxTry - ntry
  {
    match work(ntry)
    case Ok(v) => RetryRun(Returned(v), ntry + 1, ntry, [])
    case Other(_) => RetryRun(Raised(work(ntry)), ntry + 1, ntry, [])
    case Timeout(body) =>
      if ntry + 1 > MaxTry then RetryRun(Raised(work(ntry)), ntry + 1, ntry, [body])
      else RetryFrom(work, ntry + 1)
  }

  /** A call to `run_with_retry` with a fresh counter. */
  function RunFresh<T>(work: nat -> Attempt<T>): RetryRun<T>
  {
    RetryFrom(work, 0)
  }

  /**
   * `run_with_retry` as the loop it is: `begin`/`rescue`/`retry` becomes a
   * loop whose body runs the block once.
   */
  method RunWithRetry<T>(work: nat -> Attempt<T>)
    returns (outcome: Outcome<T>, attempts: nat, bucketResets: nat, reports: seq<string>)
    ensures RetryRun(outcome, attempts, bucketResets, reports) == RunFresh(work)
  {
    var ntry := 0;
    bucketResets, reports := 0, [];
    while true
      invariant ntry <= MaxTry
      invariant bucketResets == ntry && reports == []
      invariant RetryFrom(work, ntry) == RunFresh(work)
      decreases MaxTry - ntry
    {
      var result := work(ntry);
      match result
      case Ok(v) =>
        return Returned(v), ntry + 1, bucketResets, reports;
      case Other(_) =>
        return Raised(result), ntry + 1, bucketResets, reports;
      case Timeout(body) =>
        ntry := ntry + 1;
        if ntry > MaxTry {
          reports := reports + [body];
          return Raised(result), ntry, bucketResets, reports;
        }
        bucketResets := bucketResets + 1;
    }
  }

  /** The block never runs more than four times, and always at least once. */
  lemma AttemptBound<T>(work: nat -> Attempt<T>)
    ensures 1 <= RunFresh(work).attempts <= MaxTry + 1
    ensures |RunFresh(work).reports| <= 1
  {
  }

  /**
   * A success after `k` timeouts, within the first four attempts, is returned
   * unchanged, with nothing reported and one bucket reset per retry.
   */
  lemma ReturnsFirstSuccess<T>(work: nat -> Attempt<T>, k: nat)
    requires k <= MaxTry
    requires forall j :: 0 <= j < k ==> work(j).Timeout?
    requires work(k).Ok?
    ensures RunFresh(work) == RetryRun(Returned(work(k).value), k + 1, k, [])
  {
  }

  /**
   * An error other than a timeout, after `k` timeouts, is raised on the
   * attempt where it occurs: no further attempt and no report.
   */
  lemma OtherErrorPropagates<T>(work: nat -> Attempt<T>, k: nat)
    requires k <= MaxTry
    requires forall j :: 0 <= j < k ==> work(j).Timeout?
    requires work(k).Other?
    ensures RunFresh(work) == RetryRun(Raised(work(k)), k + 1, k, [])
  {
  }

  /**
   * Four timeouts in a row exhaust the retries: the fourth timeout is
   * reported exactly once, with its HTTP body, and re-raised; the bucket was
   * cleared before each of the three retries.
   */
  lemma ExhaustionReportsOnce<T>(work: nat -> Attempt<T>)
    requires forall j :: 0 <= j <= MaxTry ==> work(j).Timeout?
    ensures RunFresh(work) == RetryRun(Raised(work(MaxTry)), MaxTry + 1, MaxTry, [work(MaxTry).httpBody])
  {
  }

  /**
   * A block that times out `n` times and then succeeds with `v`: the wrapper
   * returns `v` when `n` is at most three, and otherwise raises the fourth
   * timeout after reporting it once.
   */
  lemma TimeoutsThenSuccess<T>(work: nat -> Attempt<T>, n: nat, v: T)
    requires forall j :: 0 <= j < n ==> work(j).Timeout?
    requires work(n) == Ok(v)
    ensures n <= MaxTry ==> RunFresh(work).outcome == Returned(v) && |RunFresh(work).reports| == 0
    ensures n > MaxTry ==> RunFresh(work).outcome == Raised(work(MaxTry)) && RunFresh(work).attempts == MaxTry + 1
    ensures n > MaxTry ==> |RunFresh(work).reports| == 1
  {
    if n <= MaxTry {
      ReturnsFirstSuccess(work, n);
    } else {
      ExhaustionReportsOnce(work);
    }
  }

  /** A report is sent exactly when all four attempts timed out. */
  lemma ReportedIffExhausted<T>(work: nat -> Attempt<T>)
    ensures |RunFresh(work).reports| == 1 <==> forall j :: 0 <= j <= MaxTry ==> work(j).Timeout?
  {
    if forall j :: 0 <= j <= MaxTry ==> work(j).Timeout? {
      ExhaustionReportsOnce(work);
    }
  }
}
