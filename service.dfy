/**
 * The sync service (src/Services/GMCService.php): per-product sync that
 * validates before it reaches the repository and picks insert-or-update by the
 * remote id, the forced update, delete and get with the throw policy, and the
 * batch sync that walks the products in chunks. The throw policy
 * (`gmc.throw_sync_exceptions`) is a parameter; sleeps are recorded.
 */
module Service {

  import opened Wrappers
  import opened PhpStrings
  import opened ProductData
  import opened Repository

  /** A product as the service sees it: its key, `getGMCId()` and `prepareGMCData()`. */
  datatype ProductModel = ProductModel(key: int, gmcId: Option<string>, data: Payload)

  /** The repository method a sync reached, if any. */
  datatype RepositoryCall = NoCall | Upload(productData: Payload) | Update(productId: string, productData: Payload)

  /** What a service method hands back: a value, PHP `false`, or a thrown exception. */
  datatype Returned<T> = Value(value: T) | False | Raised(exception: Exception)

  /** The service's catch blocks: rethrow under the throw policy, otherwise return `false`. */
  function Policy<T>(e: Exception, throwOnError: bool): (r: Returned<T>)
    ensures r.Raised? <==> throwOnError
    ensures r.Raised? ==> r.exception == e
    ensures !r.Value?
  {
    if throwOnError then Raised(e) else False
  }

  /** `if ($existingGmcId)`: only a truthy string counts as a remote id. */
  predicate HasRemoteId(model: ProductModel) {
    model.gmcId.Some? && Truthy(model.gmcId.value)
  }

  /** The return value and the repository call of one `syncProduct`. */
  datatype SyncStep = SyncStep(ret: Returned<RemoteProduct>, call: RepositoryCall)

  /**
   * `syncProduct`: defaults then validates the payload; an invalid payload never
   * reaches the repository. A valid one goes to `updateProduct` exactly when the
   * model has a remote id, otherwise to `uploadProduct`. A failure (validation
   * or the retried call's last exception) is rethrown under the throw policy
   * and turned into `false` otherwise.
   */
  function SyncProductSpec(model: ProductModel, remote: Remote<RemoteProduct>, throwOnError: bool,
                           attempts: int, delay: int): SyncStep
    requires attempts >= 1
  {
    var data := EnsureRequiredFields(model.data);
    match Validate(data)
    case Err(e) => SyncStep(Policy(e, throwOnError), NoCall)
    case Ok(_) =>
      var call := if HasRemoteId(model) then Update(model.gmcId.value, data) else Upload(data);
      match Retry(remote, attempts, delay).result
      case Ok(p) => SyncStep(Value(p), call)
      case Err(e) => SyncStep(Policy(e, throwOnError), call)
  }

  /**
   * What `syncProduct` does, read off its specification: an invalid payload
   * never reaches the repository; a valid one goes to `updateProduct` exactly
   * when the model has a remote id; a failure is rethrown under the throw
   * policy and turned into `false` otherwise.
   */
  lemma SyncProductBehaviour(model: ProductModel, remote: Remote<RemoteProduct>, throwOnError: bool, attempts: int, delay: int)
    requires attempts >= 1
    ensures var s := SyncProductSpec(model, remote, throwOnError, attempts, delay);
            var valid := Validate(EnsureRequiredFields(model.data));
            var run := Retry(remote, attempts, delay);
            && (s.call == NoCall <==> valid.Err?)
            && (s.call == NoCall ==> s.ret == Policy(valid.error, throwOnError))
            && (s.call != NoCall ==> (s.call.Update? <==> HasRemoteId(model)))
            && (s.call.Update? ==> s.call == Update(model.gmcId.value, EnsureRequiredFields(model.data)))
            && (s.call.Upload? ==> s.call == Upload(EnsureRequiredFields(model.data)))
            && (s.ret.Value? <==> s.call != NoCall && run.result.Ok?)
            && (s.ret.Value? ==> run.result == Ok(s.ret.value))
            && (s.call != NoCall && run.result.Err? ==> s.ret == Policy(run.result.error, throwOnError))
  {
  }

  /** With the throw policy off, `syncProduct` never throws; with it on, it never returns `false`. */
  lemma SyncProductPolicy(model: ProductModel, remote: Remote<RemoteProduct>, throwOnError: bool, attempts: int, delay: int)
    requires attempts >= 1
    ensures !throwOnError ==> !SyncProductSpec(model, remote, throwOnError, attempts, delay).ret.Raised?
    ensures throwOnError ==> !SyncProductSpec(model, remote, throwOnError, attempts, delay).ret.False?
  {
  }

  // ---------------------------------------------------------------------
  // Batches
  // ---------------------------------------------------------------------

  /** One product of a batch together with how the remote answers its attempts. */
  datatype Job = Job(model: ProductModel, remote: Remote<RemoteProduct>)

  /** One entry of the `errors` list: the model key and the message. */
  datatype ErrorEntry = ErrorEntry(modelId: int, error: string)

  /** What `syncMultipleProducts` returns, or the exception that escapes it. */
  datatype BatchOutcome = Summary(successes: nat, errors: seq<ErrorEntry>, total: nat) | Aborted(exception: Exception)

  /** What `syncProduct` returns for one job. */
  function JobRet(job: Job, throwOnError: bool, attempts: int, delay: int): Returned<RemoteProduct>
    requires attempts >= 1
  {
    SyncProductSpec(job.model, job.remote, throwOnError, attempts, delay).ret
  }

  /** `rets` are the values `syncProduct` returned for the first `|rets|` jobs, in order. */
  predicate ReturnsOf(jobs: seq<Job>, rets: seq<Returned<RemoteProduct>>, throwOnError: bool, attempts: int, delay: int)
    requires attempts >= 1
  {
    && |rets| <= |jobs|
    && forall k {:trigger JobRet(jobs[k], throwOnError, attempts, delay)} :: 0 <= k < |rets| ==>
         rets[k] == JobRet(jobs[k], throwOnError, attempts, delay)
  }

  /** The returns for the jobs of `jobs[start..end]`, appended to those for the jobs before `start`, are returns for `jobs`. */
  lemma ReturnsOfAppend(jobs: seq<Job>, rets: seq<Returned<RemoteProduct>>, end: nat, more: seq<Returned<RemoteProduct>>,
                        throwOnError: bool, attempts: int, delay: int)
    requires attempts >= 1
    requires |rets| <= end <= |jobs|
    requires ReturnsOf(jobs, rets, throwOnError, attempts, delay)
    requires ReturnsOf(jobs[|rets|..end], more, throwOnError, attempts, delay)
    ensures ReturnsOf(jobs, rets + more, throwOnError, attempts, delay)
  {
    forall k | |rets| <= k < |rets| + |more|
      ensures (rets + more)[k] == JobRet(jobs[k], throwOnError, attempts, delay)
    {
      assert jobs[|rets|..end][k - |rets|] == jobs[k];
      assert JobRet(jobs[|rets|..end][k - |rets|], throwOnError, attempts, delay) == more[k - |rets|];
    }
  }

  /** The number of truthy results among `rs[lo..hi]` (`if ($result) $results[] = $result;`). */
  function CountValues<T>(rs: seq<Returned<T>>, lo: nat, hi: nat): (n: nat)
    requires lo <= hi <= |rs|
    decreases hi - lo
    ensures n <= hi - lo
  {
    if lo == hi then 0 else CountValues(rs, lo, hi - 1) + (if rs[hi - 1].Value? then 1 else 0)
  }

  /** Counting is additive over adjacent ranges. */
  lemma {:induction false} CountValuesSplit<T>(rs: seq<Returned<T>>, lo: nat, mid: nat, hi: nat)
    requires lo <= mid <= hi <= |rs|
    ensures CountValues(rs, lo, hi) == CountValues(rs, lo, mid) + CountValues(rs, mid, hi)
    decreases hi - mid
  {
    if mid < hi {
      CountValuesSplit(rs, lo, mid, hi - 1);
    }
  }

  /** Counting only looks at the range: it is the same in any extension of the sequence. */
  lemma {:induction false} CountValuesPrefix<T>(rs: seq<Returned<T>>, more: seq<Returned<T>>, lo: nat, hi: nat)
    requires lo <= hi <= |rs|
    ensures CountValues(rs + more, lo, hi) == CountValues(rs, lo, hi)
    decreases hi - lo
  {
    if lo < hi {
      CountValuesPrefix(rs, more, lo, hi - 1);
    }
  }

  /** Every result in range is a value exactly when the count reaches the length of the range. */
  lemma {:induction false} CountValuesAll<T>(rs: seq<Returned<T>>, lo: nat, hi: nat)
    requires lo <= hi <= |rs|
    ensures CountValues(rs, lo, hi) == hi - lo <==> forall i :: lo <= i < hi ==> rs[i].Value?
    decreases hi - lo
  {
    if lo < hi {
      CountValuesAll(rs, lo, hi - 1);
    }
  }

  /** Counting a range of `more` inside `rs + more` is counting it in `more`. */
  lemma {:induction false} CountValuesShift<T>(rs: seq<Returned<T>>, more: seq<Returned<T>>, lo: nat, hi: nat)
    requires lo <= hi <= |more|
    ensures CountValues(rs + more, |rs| + lo, |rs| + hi) == CountValues(more, lo, hi)
    decreases hi - lo
  {
    if lo < hi {
      CountValuesShift(rs, more, lo, hi - 1);
    }
  }

  /** The count over `rs + more` is the count over `rs` plus the count over `more`. */
  lemma CountValuesConcat<T>(rs: seq<Returned<T>>, more: seq<Returned<T>>)
    ensures CountValues(rs + more, 0, |rs| + |more|) == CountValues(rs, 0, |rs|) + CountValues(more, 0, |more|)
  {
    CountValuesSplit(rs + more, 0, |rs|, |rs| + |more|);
    CountValuesPrefix(rs, more, 0, |rs|);
    CountValuesShift(rs, more, 0, |more|);
  }

  /** The number of chunks `Collection::chunk($size)` cuts `n` items into. */
  function Chunks(n: nat, size: nat): nat
    requires size > 0
  {
    if n == 0 then 0 else 1 + Chunks(if n <= size then 0 else n - size, size)
  }

  /** Every chunk but the last is full: `n` items make `n` over the chunk size, rounded up, chunks. */
  lemma {:induction false} ChunksRoundUp(n: nat, size: nat)
    requires size > 0
    ensures n == 0 <==> Chunks(n, size) == 0
    ensures n > 0 ==> (Chunks(n, size) - 1) * size < n <= Chunks(n, size) * size
    decreases n
  {
    if n > size {
      ChunksRoundUp(n - size, size);
    }
  }

  /** `$batchSize ?? $this->batchSize`. */
  function EffectiveBatchSize(batchSize: Option<int>, default: int): int {
    if batchSize.Some? then batchSize.value else default
  }

  /** The microseconds slept after every chunk but the first. */
  const InterBatchSleep: int := 100000

  // ---------------------------------------------------------------------
  // The service object
  // ---------------------------------------------------------------------

  class GmcService {
    const repository: GmcRepository
    var batchSize: int

    constructor (repository: GmcRepository)
      ensures this.repository == repository && batchSize == 50
    {
      this.repository := repository;
      batchSize := 50;
    }

    /** `setBatchSize`: stored as given. */
    method SetBatchSize(size: int)
      modifies this
      ensures batchSize == size
    {
      batchSize := size;
    }

    /** `syncProduct`, proved to behave as `SyncProductSpec`; both repository methods send an insert. */
    method SyncProduct(model: ProductModel, remote: Remote<RemoteProduct>, throwOnError: bool)
      returns (ret: Returned<RemoteProduct>, call: RepositoryCall, request: Option<Request>)
      requires repository.retryAttempts >= 1
      ensures SyncStep(ret, call) == SyncProductSpec(model, remote, throwOnError, repository.retryAttempts, repository.retryDelay)
      ensures request.Some? <==> call != NoCall
      ensures request.Some? ==> request.value == Insert(EnsureRequiredFields(model.data))
    {
      var gmcData := EnsureRequiredFields(model.data);
      var valid := Validate(gmcData);
      if valid.Err? {
        ret, call, request := Policy(valid.error, throwOnError), NoCall, None;
        return;
      }
      var req, run;
      if HasRemoteId(model) {
        call := Update(model.gmcId.value, gmcData);
        req, run := repository.UpdateProduct(model.gmcId.value, gmcData, remote);
      } else {
        call := Upload(gmcData);
        req, run := repository.UploadProduct(gmcData, remote);
      }
      request := Some(req);
      if run.result.Ok? {
        ret := Value(run.result.value);
      } else {
        ret := Policy(run.result.error, throwOnError);
      }
    }

    /**
     * `forceUpdateProduct`: without a remote id it throws InvalidArgument and
     * makes no call; an invalid payload throws before the repository; otherwise
     * it is `updateProduct`. It has no catch, so the throw policy plays no part.
     */
    method ForceUpdateProduct(model: ProductModel, remote: Remote<RemoteProduct>)
      returns (r: Result<RemoteProduct, Exception>, call: RepositoryCall)
      requires repository.retryAttempts >= 1
      ensures !HasRemoteId(model) ==> r == Err(InvalidArgument("Product is not yet synced with GMC")) && call == NoCall
      ensures HasRemoteId(model) && Validate(EnsureRequiredFields(model.data)).Err?
              ==> r == Err(Validate(EnsureRequiredFields(model.data)).error) && call == NoCall
      ensures HasRemoteId(model) && Validate(EnsureRequiredFields(model.data)).Ok?
              ==> call == Update(model.gmcId.value, EnsureRequiredFields(model.data))
                  && r == Retry(remote, repository.retryAttempts, repository.retryDelay).result
    {
      if !HasRemoteId(model) {
        return Err(InvalidArgument("Product is not yet synced with GMC")), NoCall;
      }
      var gmcData := EnsureRequiredFields(model.data);
      var valid := Validate(gmcData);
      if valid.Err? {
        return Err(valid.error), NoCall;
      }
      call := Update(model.gmcId.value, gmcData);
      var req, run := repository.UpdateProduct(model.gmcId.value, gmcData, remote);
      r := run.result;
    }

    /** `deleteProduct`: `true` when the retried delete completes, otherwise the throw policy decides. */
    method DeleteProduct(productId: string, remote: Remote<()>, throwOnError: bool) returns (ret: Returned<bool>)
      requires repository.retryAttempts >= 1
      ensures Retry(DeleteClosure(remote), repository.retryAttempts, repository.retryDelay).result.Ok? ==> ret == Value(true)
      ensures Retry(DeleteClosure(remote), repository.retryAttempts, repository.retryDelay).result.Err?
              ==> ret == Policy(Retry(DeleteClosure(remote), repository.retryAttempts, repository.retryDelay).result.error, throwOnError)
    {
      var req, run := repository.DeleteProduct(productId, remote);
      if run.result.Ok? {
        ret := Value(run.result.value);
      } else {
        ret := Policy(run.result.error, throwOnError);
      }
    }

    /** `getProduct`: the remote product, otherwise the throw policy decides. */
    method GetProduct(productId: string, remote: Remote<RemoteProduct>, throwOnError: bool) returns (ret: Returned<RemoteProduct>)
      requires repository.retryAttempts >= 1
      ensures Retry(remote, repository.retryAttempts, repository.retryDelay).result.Ok?
              ==> ret == Value(Retry(remote, repository.retryAttempts, repository.retryDelay).result.value)
      ensures Retry(remote, repository.retryAttempts, repository.retryDelay).result.Err?
              ==> ret == Policy(Retry(remote, repository.retryAttempts, repository.retryDelay).result.error, throwOnError)
    {
      var req, run := repository.GetProduct(productId, remote);
      if run.result.Ok? {
        ret := Value(run.result.value);
      } else {
        ret := Policy(run.result.error, throwOnError);
      }
    }

    /** One turn of the chunk loop: `syncProduct` on the next job, which throws only under the throw policy. */
    method SyncJob(jobs: seq<Job>, j: nat, throwOnError: bool, ghost attempts: int, ghost delay: int,
                   ghost rets: seq<Returned<RemoteProduct>>)
      returns (ret: Returned<RemoteProduct>)
      requires attempts == repository.retryAttempts >= 1 && delay == repository.retryDelay
      requires j == |rets| < |jobs| && ReturnsOf(jobs, rets, throwOnError, attempts, delay)
      ensures ReturnsOf(jobs, rets + [ret], throwOnError, attempts, delay)
      ensures ret.Raised? ==> throwOnError
    {
      var call, request;
      ret, call, request := SyncProduct(jobs[j].model, jobs[j].remote, throwOnError);
      SyncProductPolicy(jobs[j].model, jobs[j].remote, throwOnError, attempts, delay);
      assert ret == JobRet(jobs[j], throwOnError, attempts, delay);
    }

    /**
     * The body of the chunk closure of `syncMultipleProducts`: syncs
     * `jobs[start..end]` in order, counting truthy results. Under the throw
     * policy the first thrown exception ends the chunk and is handed back in
     * `raised`; `rets` grows by what each `syncProduct` returned.
     */
    method SyncBatch(jobs: seq<Job>, start: nat, end: nat, throwOnError: bool, ghost attempts: int, ghost delay: int,
                     ghost rets0: seq<Returned<RemoteProduct>>)
      returns (successes: nat, errors: seq<ErrorEntry>, raised: Option<Exception>, ghost rets: seq<Returned<RemoteProduct>>)
      requires attempts == repository.retryAttempts >= 1 && delay == repository.retryDelay
      requires start == |rets0| <= end <= |jobs| && ReturnsOf(jobs, rets0, throwOnError, attempts, delay)
      ensures ReturnsOf(jobs, rets, throwOnError, attempts, delay)
      ensures start <= |rets| <= end && rets[..start] == rets0
      ensures forall k :: start <= k < |rets| - 1 ==> !rets[k].Raised?
      ensures raised.None? ==> |rets| == end && errors == [] && successes == CountValues(rets, start, end)
      ensures raised.None? && end > start ==> !rets[end - 1].Raised?
      ensures raised.Some? ==> throwOnError && start < |rets| && rets[|rets| - 1] == Raised(raised.value)
    {
      successes, errors, raised, rets := 0, [], None, rets0;
      var j := start;
      while j < end
        invariant start <= j <= end && |rets| == j
        invariant ReturnsOf(jobs, rets, throwOnError, attempts, delay)
        invariant rets[..start] == rets0
        invariant successes == CountValues(rets, start, j)
        invariant forall k :: start <= k < j ==> !rets[k].Raised?
        invariant errors == []
      {
        var ret := SyncJob(jobs, j, throwOnError, attempts, delay, rets);
        CountValuesPrefix(rets, [ret], start, j);
        rets := rets + [ret];
        match ret {
          case Value(_) =>
            successes := successes + 1;
          case False =>
          case Raised(e) =>
            errors := errors + [ErrorEntry(jobs[j].model.key, e.message)];
            // `syncProduct` throws only under the throw policy, so the rethrow always happens
            assert throwOnError;
            raised := Some(e);
            return;
        }
        j := j + 1;
      }
    }

    /**
     * `syncMultipleProducts`: works through the jobs in order, in chunks of the
     * effective batch size, sleeping after every chunk but the first; `rets`
     * are the values `syncProduct` returned, one per product it reached. The
     * first thrown result aborts the run with that exception and no later
     * product is synced; otherwise every product is synced and the summary
     * counts the truthy results. The `errors` list always comes back empty:
     * under the throw policy the first error escapes, without it
     * `syncProduct` never throws. A batch size of 0 or less yields no chunks.
     */
    method SyncMultipleProducts(jobs: seq<Job>, batchSize: Option<int>, throwOnError: bool)
      returns (outcome: BatchOutcome, sleeps: seq<int>, ghost rets: seq<Returned<RemoteProduct>>)
      requires repository.retryAttempts >= 1
      ensures ReturnsOf(jobs, rets, throwOnError, repository.retryAttempts, repository.retryDelay)
      ensures forall k :: 0 <= k < |sleeps| ==> sleeps[k] == InterBatchSleep
      ensures EffectiveBatchSize(batchSize, this.batchSize) <= 0 ==> outcome == Summary(0, [], |jobs|) && rets == [] && sleeps == []
      ensures forall k :: 0 <= k < |rets| - 1 ==> !rets[k].Raised?
      ensures outcome.Summary? && EffectiveBatchSize(batchSize, this.batchSize) > 0
              ==> |rets| == |jobs| && outcome == Summary(CountValues(rets, 0, |jobs|), [], |jobs|)
                  && (|jobs| > 0 ==> !rets[|jobs| - 1].Raised? && |sleeps| == Chunks(|jobs|, EffectiveBatchSize(batchSize, this.batchSize)) - 1)
      ensures outcome.Aborted? ==> 0 < |rets| && rets[|rets| - 1] == Raised(outcome.exception)
      ensures !throwOnError ==> outcome.Summary?
      ensures |jobs| == 0 ==> sleeps == []
    {
      var size := EffectiveBatchSize(batchSize, this.batchSize);
      ghost var attempts, delay := repository.retryAttempts, repository.retryDelay;
      var successes: nat := 0;
      var errors: seq<ErrorEntry> := [];
      sleeps, rets := [], [];
      if size > 0 {
        var start := 0;
        var chunkIndex := 0;
        while start < |jobs|
          invariant 0 <= start <= |jobs| && |rets| == start
          invariant ReturnsOf(jobs, rets, throwOnError, attempts, delay)
          invariant chunkIndex + Chunks(|jobs| - start, size) == Chunks(|jobs|, size)
          invariant start > 0 <==> chunkIndex > 0
          invariant successes == CountValues(rets, 0, start)
          invariant forall k :: 0 <= k < start ==> !rets[k].Raised?
          invariant errors == []
          invariant |sleeps| == if chunkIndex == 0 then 0 else chunkIndex - 1
          invariant forall k :: 0 <= k < |sleeps| ==> sleeps[k] == InterBatchSleep
        {
          var end := if start + size < |jobs| then start + size else |jobs|;
          ghost var before := rets;
          var count, batchErrors, raised;
          count, batchErrors, raised, rets := SyncBatch(jobs, start, end, throwOnError, attempts, delay, rets);
          if raised.Some? {
            outcome := Aborted(raised.value);
            return;
          }
          CountValuesPrefix(before, rets[start..], 0, start);
          assert before + rets[start..] == rets;
          CountValuesSplit(rets, 0, start, end);
          successes := successes + count;
          errors := errors + batchErrors;
          if chunkIndex > 0 {
            sleeps := sleeps + [InterBatchSleep];
          }
          start := end;
          chunkIndex := chunkIndex + 1;
        }
      }
      outcome := Summary(successes, errors, |jobs|);
    }
  }
}
