/**
 * The repository in front of the merchant API (src/Repositories/GMCRepository.php):
 * the error classifier `shouldNotRetry`, the bounded retry loop
 * `executeWithRetry` with exponential back-off, and the four product calls
 * that run through it. The Google client itself is not modelled: each remote
 * call is an oracle `Remote<T>` that says how the k-th attempt (counting from 0)
 * ends, and the sleeps are recorded as a list of delays in milliseconds.
 */
module Repository {

  import opened Wrappers
  import opened PhpStrings
  import opened ProductData

  /** How each attempt of one remote operation ends: `remote(k)` is attempt k + 1. */
  type Remote<T> = nat -> Result<T, Exception>

  /** The product object the API returns from insert and get; only its id is ever read. */
  datatype RemoteProduct = RemoteProduct(id: Option<string>)

  /** The API request a repository method sends. */
  datatype Request = Insert(product: Payload) | Delete(productId: string) | Get(productId: string)

  // ---------------------------------------------------------------------
  // Error classifier
  // ---------------------------------------------------------------------

  const NonRetryableErrors: seq<string> := ["invalid_grant", "unauthorized_client", "invalid_client", "invalid_request", "access_denied"]

  /** The scan over the marker list: does any marker occur in `message`? */
  function MatchesAny(message: string, markers: seq<string>): (r: bool)
    ensures r <==> exists k :: 0 <= k < |markers| && Contains(message, markers[k])
  {
    if markers == [] then false
    else
      StrPosFindsOccurrence(message, markers[0]);
      StrPos(message, markers[0], 0).Some? || MatchesAny(message, markers[1..])
  }

  /**
   * `shouldNotRetry`: the error is terminal exactly when its lower-cased message
   * contains one of the five authentication/request markers.
   */
  function ShouldNotRetry(e: Exception): (r: bool)
    ensures r <==> exists k :: 0 <= k < |NonRetryableErrors| && Contains(ToLower(e.message), NonRetryableErrors[k])
  {
    MatchesAny(ToLower(e.message), NonRetryableErrors)
  }

  /** Classification ignores case: a message and its lower-cased form are classified alike. */
  lemma ShouldNotRetryIgnoresCase(e: Exception)
    ensures ShouldNotRetry(e) == ShouldNotRetry(e.(message := ToLower(e.message)))
  {
    ToLowerIdempotent(e.message);
  }

  /** Classification is a substring test: surrounding a terminal message with more text keeps it terminal. */
  lemma ShouldNotRetryInContext(e: Exception, pre: string, post: string)
    requires ShouldNotRetry(e)
    ensures ShouldNotRetry(e.(message := pre + e.message + post))
  {
    var k :| 0 <= k < |NonRetryableErrors| && Contains(ToLower(e.message), NonRetryableErrors[k]);
    ToLowerConcat(pre, e.message);
    ToLowerConcat(pre + e.message, post);
    ContainsExtends(ToLower(pre), ToLower(e.message), ToLower(post), NonRetryableErrors[k]);
  }

  /** An upper-case OAuth error is terminal; a rate-limit message is retryable. */
  lemma ClassifierExamples()
    ensures ShouldNotRetry(RemoteError("OAuth failure: INVALID_GRANT"))
    ensures !ShouldNotRetry(RemoteError("Rate limit"))
  {
    var m := ToLower("OAuth failure: INVALID_GRANT");
    assert m[15..28] == "invalid_grant";
    assert OccursAt(m, NonRetryableErrors[0], 15);
  }

  // ---------------------------------------------------------------------
  // The retry loop, as a specification
  // ---------------------------------------------------------------------

  function Pow2(n: nat): (p: nat)
    ensures p >= 1
  {
    if n == 0 then 1 else 2 * Pow2(n - 1)
  }

  /** The attempt failed with an error the loop retries. */
  predicate Retryable<T>(o: Result<T, Exception>) {
    o.Err? && !ShouldNotRetry(o.error)
  }

  /** What a run of the retry loop did: its final outcome, how many attempts it made, the sleeps between them. */
  datatype RetryRun<T> = RetryRun(result: Result<T, Exception>, calls: nat, delays: seq<int>)

  /**
   * The loop from attempt `attempt` on. The run stops at the first attempt that
   * succeeds, fails terminally, or is the last allowed; it returns that
   * attempt's outcome (so a failure is the LAST exception), and sleeps
   * `baseDelay * 2^(k-1)` ms after each failed attempt k it retries.
   */
  function RetryFrom<T>(remote: Remote<T>, attempt: nat, maxAttempts: int, baseDelay: int): (run: RetryRun<T>)
    requires 1 <= attempt <= maxAttempts
    decreases maxAttempts - attempt
    ensures attempt <= run.calls <= maxAttempts
    ensures run.result == remote(run.calls - 1)
    ensures forall k :: attempt - 1 <= k < run.calls - 1 ==> Retryable(remote(k))
    ensures run.calls < maxAttempts ==> !Retryable(run.result)
    ensures |run.delays| == run.calls - attempt
    ensures forall k :: 0 <= k < |run.delays| ==> run.delays[k] == baseDelay * Pow2(attempt - 1 + k)
  {
    var outcome := remote(attempt - 1);
    if outcome.Ok? || ShouldNotRetry(outcome.error) || attempt == maxAttempts then
      RetryRun(outcome, attempt, [])
    else
      var rest := RetryFrom(remote, attempt + 1, maxAttempts, baseDelay);
      RetryRun(rest.result, rest.calls, [baseDelay * Pow2(attempt - 1)] + rest.delays)
  }

  /** `executeWithRetry` with `maxAttempts` attempts and base delay `baseDelay`. */
  function Retry<T>(remote: Remote<T>, maxAttempts: int, baseDelay: int): RetryRun<T>
    requires maxAttempts >= 1
  {
    RetryFrom(remote, 1, maxAttempts, baseDelay)
  }

  /** The first success is returned at once, provided every attempt before it failed retryably. */
  lemma FirstSuccessReturned<T>(remote: Remote<T>, maxAttempts: int, baseDelay: int, k: nat)
    requires 1 <= maxAttempts && k < maxAttempts
    requires remote(k).Ok?
    requires forall j :: 0 <= j < k ==> Retryable(remote(j))
    ensures Retry(remote, maxAttempts, baseDelay).calls == k + 1
    ensures Retry(remote, maxAttempts, baseDelay).result == remote(k)
  {
    var run := Retry(remote, maxAttempts, baseDelay);
    assert !Retryable(remote(k));
  }

  /** A terminal error stops the loop after that attempt, with no sleep after it. */
  lemma TerminalErrorStops<T>(remote: Remote<T>, maxAttempts: int, baseDelay: int, k: nat)
    requires 1 <= maxAttempts && k < maxAttempts
    requires remote(k).Err? && ShouldNotRetry(remote(k).error)
    requires forall j :: 0 <= j < k ==> Retryable(remote(j))
    ensures Retry(remote, maxAttempts, baseDelay).calls == k + 1
    ensures Retry(remote, maxAttempts, baseDelay).result == remote(k)
    ensures |Retry(remote, maxAttempts, baseDelay).delays| == k
  {
    var run := Retry(remote, maxAttempts, baseDelay);
    assert !Retryable(remote(k));
  }

  /**
   * An operation that always fails retryably is called exactly `maxAttempts`
   * times, sleeps `baseDelay * 2^(k-1)` after attempt k for k < maxAttempts and
   * not after the last, and the run fails with the last attempt's exception.
   */
  lemma AlwaysRetryableExhausts<T>(remote: Remote<T>, maxAttempts: int, baseDelay: int)
    requires maxAttempts >= 1
    requires forall j :: Retryable(remote(j))
    ensures Retry(remote, maxAttempts, baseDelay).calls == maxAttempts
    ensures Retry(remote, maxAttempts, baseDelay).result == remote(maxAttempts - 1)
    ensures Retry(remote, maxAttempts, baseDelay).delays == seq(maxAttempts - 1, k requires 0 <= k < maxAttempts - 1 => baseDelay * Pow2(k))
  {
    var run := Retry(remote, maxAttempts, baseDelay);
    assert Retryable(remote(run.calls - 1));
  }

  /** Three attempts against a remote that keeps timing out: delays `base` then `2 * base`. */
  lemma ThreeAttemptsExample(baseDelay: int)
    ensures Retry<RemoteProduct>((k: nat) => Err(RemoteError("timeout")), 3, baseDelay)
         == RetryRun(Err(RemoteError("timeout")), 3, [baseDelay, 2 * baseDelay])
  {
    var remote: Remote<RemoteProduct> := (k: nat) => Err(RemoteError("timeout"));
    assert !ShouldNotRetry(RemoteError("timeout"));
    AlwaysRetryableExhausts(remote, 3, baseDelay);
  }

  // ---------------------------------------------------------------------
  // The repository object
  // ---------------------------------------------------------------------

  /** The run `run` with `delays` slept before it. */
  function AfterDelays<T>(delays: seq<int>, run: RetryRun<T>): RetryRun<T> {
    RetryRun(run.result, run.calls, delays + run.delays)
  }

  /** The closure `deleteProduct` retries: the API's delete, returning `true` when it does not throw. */
  function DeleteClosure(remote: Remote<()>): Remote<bool> {
    (k: nat) => if remote(k).Ok? then Ok(true) else Err(remote(k).error)
  }

  class GmcRepository {
    var retryAttempts: int
    var retryDelay: int

    constructor ()
      ensures retryAttempts == 3 && retryDelay == 1000
    {
      retryAttempts := 3;
      retryDelay := 1000;
    }

    /** `setRetryAttempts`: stores the value as given, with no check that it is positive. */
    method SetRetryAttempts(attempts: int)
      modifies this
      ensures retryAttempts == attempts && retryDelay == old(retryDelay)
    {
      retryAttempts := attempts;
    }

    /** `setRetryDelay`. */
    method SetRetryDelay(delay: int)
      modifies this
      ensures retryDelay == delay && retryAttempts == old(retryAttempts)
    {
      retryDelay := delay;
    }

    /** `executeWithRetry`: the attempt loop, proved to behave as `Retry`. */
    method ExecuteWithRetry<T>(operation: Remote<T>) returns (run: RetryRun<T>)
      requires retryAttempts >= 1
      ensures run == Retry(operation, retryAttempts, retryDelay)
    {
      var attempt := 1;
      var delays: seq<int> := [];
      var lastException: Exception;
      while true
        invariant 1 <= attempt <= retryAttempts
        invariant Retry(operation, retryAttempts, retryDelay)
               == AfterDelays(delays, RetryFrom(operation, attempt, retryAttempts, retryDelay))
        decreases retryAttempts - attempt
      {
        var outcome := operation(attempt - 1);
        if outcome.Ok? {
          return RetryRun(outcome, attempt, delays);
        }
        lastException := outcome.error;
        if ShouldNotRetry(outcome.error) || attempt == retryAttempts {
          break;
        }
        var delay := retryDelay * Pow2(attempt - 1);
        delays := delays + [delay];
        attempt := attempt + 1;
      }
      run := RetryRun(Err(lastException), attempt, delays);
    }

    /** `uploadProduct`: an insert request, retried. */
    method UploadProduct(productData: Payload, remote: Remote<RemoteProduct>) returns (request: Request, run: RetryRun<RemoteProduct>)
      requires retryAttempts >= 1
      ensures request == Insert(productData)
      ensures run == Retry(remote, retryAttempts, retryDelay)
    {
      request := Insert(productData);
      run := ExecuteWithRetry(remote);
    }

    /** `updateProduct`: sends the very same insert request; `productId` is not part of it. */
    method UpdateProduct(productId: string, productData: Payload, remote: Remote<RemoteProduct>) returns (request: Request, run: RetryRun<RemoteProduct>)
      requires retryAttempts >= 1
      ensures request == Insert(productData)
      ensures run == Retry(remote, retryAttempts, retryDelay)
    {
      request := Insert(productData);
      run := ExecuteWithRetry(remote);
    }

    /** `deleteProduct`: a delete request, retried; a completed delete yields `true`. */
    method DeleteProduct(productId: string, remote: Remote<()>) returns (request: Request, run: RetryRun<bool>)
      requires retryAttempts >= 1
      ensures request == Delete(productId)
      ensures run == Retry(DeleteClosure(remote), retryAttempts, retryDelay)
      ensures run.result.Ok? ==> run.result.value
    {
      request := Delete(productId);
      run := ExecuteWithRetry(DeleteClosure(remote));
    }

    /** `getProduct`: a get request, retried. */
    method GetProduct(productId: string, remote: Remote<RemoteProduct>) returns (request: Request, run: RetryRun<RemoteProduct>)
      requires retryAttempts >= 1
      ensures request == Get(productId)
      ensures run == Retry(remote, retryAttempts, retryDelay)
    {
      request := Get(productId);
      run := ExecuteWithRetry(remote);
    }
  }
}
