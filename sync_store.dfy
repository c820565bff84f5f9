/**
 * The `SyncsWithGMC` trait (src/Traits/SyncsWithGMC.php) over the
 * `gmc_products` table. The table is a map from a product's key and class to
 * its sync record; each trait operation is a function on that map (its
 * specification, with the lemmas about it) and a method of `GmcProductStore`
 * that performs it step by step on the record objects.
 *
 * `now()`, the configuration flags (`gmc.throw_sync_exceptions`,
 * `gmc.auto_sync_enabled`), the product's `prepareGMCData()` and the remote
 * API's answers are parameters.
 */
module SyncStore {

  import opened Wrappers
  import opened PhpStrings
  import opened ProductData
  import opened Repository
  import opened Service
  import opened SyncRecords

  /** A product's identity in the table: `getKey()` and `get_class($this)`. */
  datatype Key = Key(productId: int, productType: string)

  /** The `gmc_products` table; `(product_id, product_type)` is unique. */
  type Table = map<Key, Row>

  /** Every row sits under the key made of its own product id and type. */
  predicate KeyedByIdentity(t: Table) {
    forall k :: k in t ==> t[k].productId == k.productId && t[k].productType == k.productType
  }

  // ---------------------------------------------------------------------------
  // Reads

  /** `getGMCId`: the record's remote id, `null` without a record. */
  function GetGmcId(t: Table, key: Key): (id: Option<string>)
    ensures key !in t ==> id.None?
  {
    if key in t then t[key].gmcProductId else None
  }

  /** `shouldSyncToGMC`: true without a record, otherwise the record's `isSyncEnabled`. */
  predicate ShouldSyncToGmc(t: Table, key: Key) {
    key in t ==> IsSyncEnabled(t[key])
  }

  /** `isSyncedWithGMC`: false without a record, otherwise the record's `isSynced`. */
  predicate IsSyncedWithGmc(t: Table, key: Key) {
    key in t && IsSynced(t[key])
  }

  /** The array `getGMCSyncStatus` returns; `last_sync` is kept as a timestamp, not an ISO string. */
  datatype StatusReport = StatusReport(
    isSynced: bool,
    gmcId: Option<string>,
    lastSync: Option<Timestamp>,
    syncEnabled: bool,
    syncStatus: Status,
    lastError: Option<string>)

  /** `getGMCSyncStatus`: a report of the record, with `pending` and nulls when there is none. */
  function GetGmcSyncStatus(t: Table, key: Key): (s: StatusReport)
    ensures s.isSynced ==> s.syncStatus == Synced && TruthyOpt(s.gmcId)
    ensures s.isSynced == IsSyncedWithGmc(t, key) && s.syncEnabled == ShouldSyncToGmc(t, key)
    ensures key !in t ==> s == StatusReport(false, None, None, true, Pending, None)
  {
    if key in t then
      var r := t[key];
      StatusReport(IsSynced(r), r.gmcProductId, r.gmcLastSync, ShouldSyncToGmc(t, key), r.syncStatus, r.lastError)
    else
      StatusReport(false, None, None, ShouldSyncToGmc(t, key), Pending, None)
  }

  // ---------------------------------------------------------------------------
  // The boot hooks' gating conditions (the dispatch itself is not modelled)

  /** The `created` and `updated` hooks dispatch `syncToGMC` only when this holds. */
  predicate DispatchSyncOnSave(t: Table, key: Key, autoSyncEnabled: bool) {
    ShouldSyncToGmc(t, key) && autoSyncEnabled
  }

  /** The `deleted` hook dispatches `deleteFromGMC` only when this holds; the trait defines `shouldDeleteFromGMC`, so it is always consulted. */
  predicate DispatchDeleteOnDelete(t: Table, key: Key, autoSyncEnabled: bool, shouldDeleteFromGmc: bool) {
    DispatchSyncOnSave(t, key, autoSyncEnabled) && shouldDeleteFromGmc
  }

  /**
   * A product without a record is auto-synced exactly when auto-sync is on; a
   * record with sync switched off is never auto-synced, and its deletion is
   * never passed on, whatever `shouldDeleteFromGMC` says.
   */
  lemma DispatchGating(t: Table, key: Key, autoSyncEnabled: bool, shouldDeleteFromGmc: bool)
    ensures key !in t ==> (DispatchSyncOnSave(t, key, autoSyncEnabled) <==> autoSyncEnabled)
    ensures key in t && !t[key].syncEnabled ==> !DispatchSyncOnSave(t, key, autoSyncEnabled)
    ensures key in t && !t[key].syncEnabled ==> !DispatchDeleteOnDelete(t, key, autoSyncEnabled, shouldDeleteFromGmc)
    ensures !autoSyncEnabled ==> !DispatchDeleteOnDelete(t, key, autoSyncEnabled, shouldDeleteFromGmc)
  {
  }

  // ---------------------------------------------------------------------------
  // Writes

  /** `createGMCProduct` (`firstOrCreate`): the existing record, or a new enabled, pending one. */
  function Created(t: Table, key: Key): (t': Table)
    ensures key in t' && t'.Keys == t.Keys + {key}
    ensures key in t ==> t' == t
    ensures key !in t ==> t'[key] == NewRow(key.productId, key.productType)
  {
    if key in t then t else t[key := NewRow(key.productId, key.productType)]
  }

  /** Creating twice is creating once; creation keeps rows under their own identity. */
  lemma CreatedIdempotent(t: Table, key: Key)
    ensures Created(Created(t, key), key) == Created(t, key)
    ensures KeyedByIdentity(t) ==> KeyedByIdentity(Created(t, key))
  {
  }

  /** `enableGMCSync`: creates the record if needed and sets only `sync_enabled`. */
  function WithSyncEnabled(t: Table, key: Key): (t': Table)
    ensures key in t' && t'.Keys == t.Keys + {key}
    ensures forall k :: k in t && k != key ==> t'[k] == t[k]
    ensures t'[key] == Created(t, key)[key].(syncEnabled := true)
  {
    var c := Created(t, key);
    c[key := c[key].(syncEnabled := true)]
  }

  /** `disableGMCSync`: clears `sync_enabled` of an existing record; without one it does nothing. */
  function WithSyncDisabled(t: Table, key: Key): (t': Table)
    ensures key !in t ==> t' == t
    ensures key in t ==> t' == t[key := t[key].(syncEnabled := false)]
  {
    if key in t then t[key := t[key].(syncEnabled := false)] else t
  }

  /** Enabling does not lift a `disabled` status; disabling always stops syncing an existing record. */
  lemma EnableDisableEffect(t: Table, key: Key)
    ensures ShouldSyncToGmc(WithSyncEnabled(t, key), key) <==> Created(t, key)[key].syncStatus != Disabled
    ensures key in t ==> !ShouldSyncToGmc(WithSyncDisabled(t, key), key)
    ensures key !in t ==> ShouldSyncToGmc(WithSyncDisabled(t, key), key)
  {
  }

  /** `clearGMCData`: no remote id, no last sync, status `pending`; the record and its flag remain. */
  function Cleared(t: Table, key: Key): (t': Table)
    ensures t'.Keys == t.Keys
    ensures forall k :: k in t && k != key ==> t'[k] == t[k]
    ensures key in t ==> t'[key] == t[key].(gmcProductId := None, gmcLastSync := None, syncStatus := Pending)
  {
    if key in t then t[key := t[key].(gmcProductId := None, gmcLastSync := None, syncStatus := Pending)] else t
  }

  /** A cleared record is neither synced nor carries a remote id, and keeps its sync flag. */
  lemma ClearedIsUnsynced(t: Table, key: Key)
    requires key in t
    ensures var r := Cleared(t, key)[key];
            !IsSynced(r) && GetGmcId(Cleared(t, key), key).None? && r.syncEnabled == t[key].syncEnabled
  {
  }

  /** `$result->id ?? null`: the id of a returned product, `null` when `syncProduct` returned `false`. */
  function ResultId(ret: Returned<RemoteProduct>): (id: Option<string>)
    ensures id.Some? ==> ret.Value? && ret.value.id == id
  {
    if ret.Value? then ret.value.id else None
  }

  /** The table after `updateGMCData`, and whether `markAsSynced` rejected a `null` id with a `TypeError`. */
  datatype DataUpdate = DataUpdate(table: Table, typeError: bool)

  /**
   * `updateGMCData($result)`: with a record, marks it synced with the result's
   * id and the prepared data; `markAsSynced` takes a non-nullable string, so a
   * missing id is a `TypeError` and the record is left as it was.
   */
  function UpdatedGmcData(t: Table, key: Key, resultId: Option<string>, data: Payload, now: Timestamp): (u: DataUpdate)
    ensures u.typeError <==> key in t && resultId.None?
    ensures u.table.Keys == t.Keys && forall k :: k in t && k != key ==> u.table[k] == t[k]
    ensures key in t && resultId.Some? ==> IsSyncedWithGmc(u.table, key) == Truthy(resultId.value)
  {
    if key !in t then DataUpdate(t, false)
    else match resultId
      case None => DataUpdate(t, true)
      case Some(id) => DataUpdate(t[key := MarkedSynced(t[key], id, data, now)], false)
  }

  // ---------------------------------------------------------------------------
  // syncToGMC

  /** How `syncToGMC` ends: it returns a value (or `false`), or `markAsSynced` raises a `TypeError` the catch does not catch. */
  datatype SyncToGmcResult = Returns(ret: Returned<RemoteProduct>) | TypeError

  /** The table, the result and the repository call of one `syncToGMC`. */
  datatype SyncTransition = SyncTransition(table: Table, result: SyncToGmcResult, call: RepositoryCall)

  /** The product as the service sees it, read from the table: its key, `getGMCId()` and `prepareGMCData()`. */
  function ModelOf(t: Table, key: Key, data: Payload): ProductModel {
    ProductModel(key.productId, GetGmcId(t, key), data)
  }

  /**
   * The tail of `syncToGMC` once the service has answered with `step`: an
   * exception marks the record failed and is rethrown under the throw policy,
   * `false` otherwise; any returned value goes to `updateGMCData`.
   */
  function Settle(pending: Table, key: Key, step: SyncStep, data: Payload, throwOnError: bool, now: Timestamp): (s: SyncTransition)
    requires key in pending
    ensures s.table.Keys == pending.Keys && forall k :: k in pending && k != key ==> s.table[k] == pending[k]
    ensures SameIdentity(pending[key], s.table[key]) && s.call == step.call
  {
    match step.ret
    case Raised(e) =>
      var failed := pending[key := MarkedFailed(pending[key], e.message, now)];
      SyncTransition(failed, Returns(if throwOnError then Raised(e) else False), step.call)
    case _ =>
      var u := UpdatedGmcData(pending, key, ResultId(step.ret), data, now);
      SyncTransition(u.table, if u.typeError then TypeError else Returns(step.ret), step.call)
  }

  /**
   * The table after `syncToGMC` set the record to `pending` with no error: the
   * record keeps its remote id and switch (a new one is switched on), and no
   * other record changes.
   */
  function PendingTable(t: Table, key: Key, now: Timestamp): (p: Table)
    ensures p.Keys == t.Keys + {key}
    ensures p[key].syncStatus == Pending && p[key].lastError.None? && p[key].lastErrorAt.None?
    ensures p[key].gmcProductId == GetGmcId(t, key)
    ensures p[key].syncEnabled == (key !in t || t[key].syncEnabled)
    ensures forall k :: k in t && k != key ==> p[k] == t[k]
  {
    var created := Created(t, key);
    created[key := WithSyncStatus(created[key], Pending, None, now)]
  }

  /**
   * `syncToGMC`, given what the service answers: create-or-get the record; a
   * record that is not sync-enabled returns `false` untouched and the service
   * is not asked. Otherwise the record goes to `pending` with no error and
   * `Settle` takes the service's answer, which `GmcProductStore.SyncToGmc`
   * fixes by `AnswersSync`.
   */
  function SyncToGmcSpec(t: Table, key: Key, data: Payload, answer: SyncStep, throwOnError: bool, now: Timestamp): SyncTransition {
    if !IsSyncEnabled(Created(t, key)[key]) then SyncTransition(Created(t, key), Returns(False), NoCall)
    else Settle(PendingTable(t, key, now), key, answer, data, throwOnError, now)
  }

  /**
   * `step` is the service's answer to `syncToGMC`: `syncProduct` of the product
   * with the remote id the pending record holds. The equation sits behind a
   * trigger on `SyncProductSpec`, so that a proof about the store does not
   * unfold validation and retry unless it names that answer itself.
   */
  predicate AnswersSync(step: SyncStep, t: Table, key: Key, data: Payload, remote: Remote<RemoteProduct>,
                        throwOnError: bool, attempts: int, delay: int, now: Timestamp)
    requires attempts >= 1
  {
    forall m {:trigger SyncProductSpec(m, remote, throwOnError, attempts, delay)} ::
      m == ModelOf(PendingTable(t, key, now), key, data) ==> step == SyncProductSpec(m, remote, throwOnError, attempts, delay)
  }

  /** There is exactly one such answer, and it respects the throw policy. */
  lemma AnswersSyncIsSyncProduct(step: SyncStep, t: Table, key: Key, data: Payload, remote: Remote<RemoteProduct>,
                                 throwOnError: bool, attempts: int, delay: int, now: Timestamp)
    requires attempts >= 1
    ensures AnswersSync(step, t, key, data, remote, throwOnError, attempts, delay, now)
            <==> step == SyncProductSpec(ModelOf(PendingTable(t, key, now), key, data), remote, throwOnError, attempts, delay)
    ensures AnswersSync(step, t, key, data, remote, throwOnError, attempts, delay, now) ==> (step.ret.Raised? ==> throwOnError)
  {
    SyncProductPolicy(ModelOf(PendingTable(t, key, now), key, data), remote, throwOnError, attempts, delay);
  }

  /** `syncToGMC` writes only the product's own record, creating it if needed, and never changes its identity or flag. */
  lemma SyncToGmcFrame(t: Table, key: Key, data: Payload, answer: SyncStep, throwOnError: bool, now: Timestamp)
    ensures var s := SyncToGmcSpec(t, key, data, answer, throwOnError, now);
            s.table.Keys == t.Keys + {key}
            && (forall k :: k in t && k != key ==> s.table[k] == t[k])
            && SameIdentity(Created(t, key)[key], s.table[key])
  {
  }

  /**
   * For an answer that respects the throw policy, `syncToGMC` returns `false`
   * exactly when the record is not sync-enabled, and then it calls nothing and
   * changes nothing but the creation.
   */
  lemma SyncToGmcSkipsDisabled(t: Table, key: Key, data: Payload, answer: SyncStep, throwOnError: bool, now: Timestamp)
    requires answer.ret.Raised? ==> throwOnError
    ensures var s := SyncToGmcSpec(t, key, data, answer, throwOnError, now);
            (s.result == Returns(False) <==> !IsSyncEnabled(Created(t, key)[key]))
            && (!IsSyncEnabled(Created(t, key)[key]) ==> s.table == Created(t, key) && s.call == NoCall)
  {
  }

  /**
   * What `syncToGMC` leaves in the record: synced with the returned id and the
   * prepared data, or failed with the rethrown exception's message (only under
   * the throw policy), or still `pending` with no error after a `TypeError`.
   */
  lemma SyncToGmcOutcome(t: Table, key: Key, data: Payload, answer: SyncStep, throwOnError: bool, now: Timestamp)
    requires answer.ret.Raised? ==> throwOnError
    ensures var s := SyncToGmcSpec(t, key, data, answer, throwOnError, now);
            var r := s.table[key];
            (s.result.Returns? && s.result.ret.Value? ==>
               s.result.ret.value.id.Some? && r.gmcProductId == s.result.ret.value.id
               && (IsSynced(r) <==> Truthy(s.result.ret.value.id.value))
               && r.gmcSyncData == Some(data) && r.lastError.None?)
            && (s.result.Returns? && s.result.ret.Raised? ==>
               throwOnError && r.syncStatus == Failed && r.lastError == Some(s.result.ret.exception.message)
               && r.gmcProductId == GetGmcId(t, key))
            && (s.result.TypeError? ==> r.syncStatus == Pending && r.lastError.None? && r.lastErrorAt.None?)
  {
  }

  /**
   * With the throw policy off, every failed sync of an enabled record ends in
   * the `TypeError`: the service returns `false`, which has no id. With the
   * policy on, only a returned product without an id does.
   */
  lemma SyncToGmcTypeError(t: Table, key: Key, data: Payload, answer: SyncStep, throwOnError: bool, now: Timestamp)
    requires answer.ret.Raised? ==> throwOnError
    requires IsSyncEnabled(Created(t, key)[key])
    ensures var s := SyncToGmcSpec(t, key, data, answer, throwOnError, now);
            (s.result.TypeError? <==> answer.ret.False? || (answer.ret.Value? && answer.ret.value.id.None?))
            && (!throwOnError ==> (s.result.TypeError? <==> !answer.ret.Value? || answer.ret.value.id.None?))
            && s.call == answer.call
  {
  }

  // ---------------------------------------------------------------------------
  // deleteFromGMC and forceUpdateInGMC

  /** The table, the result and whether the remote delete was called, for one `deleteFromGMC`. */
  datatype DeleteTransition = DeleteTransition(table: Table, ret: Returned<bool>, called: bool)

  /** The value `GMCService::deleteProduct` hands back for a retried delete. */
  function DeleteProductSpec(remote: Remote<()>, throwOnError: bool, attempts: int, delay: int): Returned<bool>
    requires attempts >= 1
  {
    var run := Retry(DeleteClosure(remote), attempts, delay).result;
    if run.Ok? then Value(true) else Policy(run.error, throwOnError)
  }

  /**
   * `deleteFromGMC`: without a truthy remote id, `false` and no call. Otherwise
   * the service deletes; unless it throws, the record is cleared and `true`
   * returned whatever the service returned. A thrown exception is rethrown
   * under the throw policy, `false` otherwise, and the record is kept.
   */
  function DeleteFromGmcSpec(t: Table, key: Key, remote: Remote<()>, throwOnError: bool,
                             attempts: int, delay: int): DeleteTransition
    requires attempts >= 1
  {
    var id := GetGmcId(t, key);
    if !TruthyOpt(id) then DeleteTransition(t, False, false)
    else match DeleteProductSpec(remote, throwOnError, attempts, delay)
      case Raised(e) => DeleteTransition(t, if throwOnError then Raised(e) else False, true)
      case _ => DeleteTransition(Cleared(t, key), Value(true), true)
  }

  /**
   * A delete reaches the service exactly when the record has a truthy remote
   * id. Even when the remote delete failed and the policy swallowed it, the
   * record is cleared and `true` returned; only a rethrown failure keeps it.
   */
  lemma DeleteFromGmcEffect(t: Table, key: Key, remote: Remote<()>, throwOnError: bool, attempts: int, delay: int)
    requires attempts >= 1
    ensures var d := DeleteFromGmcSpec(t, key, remote, throwOnError, attempts, delay);
            (d.called <==> TruthyOpt(GetGmcId(t, key)))
            && (!d.called ==> d.table == t && d.ret == False)
            && (d.called && !throwOnError ==> d.table == Cleared(t, key) && d.ret == Value(true))
            && (d.ret.Raised? ==>
                  throwOnError && d.table == t
                  && Retry(DeleteClosure(remote), attempts, delay).result == Err(d.ret.exception))
            && (d.ret == Value(true) ==> d.called && !IsSyncedWithGmc(d.table, key) && GetGmcId(d.table, key).None?)
            && d.table.Keys == t.Keys
  {
  }

  /**
   * `forceUpdateInGMC`: the service's forced update, with its exceptions put
   * through the throw policy. The contract follows the source's case split;
   * `GmcProductStore.ForceUpdateInGmc` is proved equal to this function from
   * the independent contract of `GmcService.ForceUpdateProduct`.
   */
  function ForceUpdateInGmcSpec(t: Table, key: Key, data: Payload, remote: Remote<RemoteProduct>, throwOnError: bool,
                                attempts: int, delay: int): (ret: Returned<RemoteProduct>)
    requires attempts >= 1
    ensures !HasRemoteId(ModelOf(t, key, data))
            ==> ret == Policy(InvalidArgument("Product is not yet synced with GMC"), throwOnError)
    ensures HasRemoteId(ModelOf(t, key, data)) && Validate(EnsureRequiredFields(data)).Err?
            ==> ret == Policy(Validate(EnsureRequiredFields(data)).error, throwOnError)
    ensures ret.Value? <==> HasRemoteId(ModelOf(t, key, data)) && Validate(EnsureRequiredFields(data)).Ok?
                            && Retry(remote, attempts, delay).result.Ok?
    ensures ret.Value? ==> Retry(remote, attempts, delay).result == Ok(ret.value)
    ensures HasRemoteId(ModelOf(t, key, data)) && Validate(EnsureRequiredFields(data)).Ok?
            && Retry(remote, attempts, delay).result.Err?
            ==> ret == Policy(Retry(remote, attempts, delay).result.error, throwOnError)
    ensures !ret.Value? ==> (ret.Raised? <==> throwOnError)
  {
    if !HasRemoteId(ModelOf(t, key, data)) then Policy(InvalidArgument("Product is not yet synced with GMC"), throwOnError)
    else match Validate(EnsureRequiredFields(data))
      case Err(e) => Policy(e, throwOnError)
      case Ok(_) =>
        match Retry(remote, attempts, delay).result
        case Ok(p) => Value(p)
        case Err(e) => Policy(e, throwOnError)
  }

  // ---------------------------------------------------------------------------
  // The store

  /** The `gmc_products` rows as Eloquent models, and the service the trait resolves from the container. */
  class GmcProductStore {
    var records: map<Key, GmcProduct>
    const service: GmcService

    /** Each record sits under its own product id and type; so distinct keys hold distinct objects. */
    ghost predicate Valid()
      reads this
    {
      forall k :: k in records ==> records[k].productId == k.productId && records[k].productType == k.productType
    }

    /** The table the records currently spell out. */
    function Contents(): Table
      reads this, records.Values
    {
      map k | k in records :: records[k].Snapshot()
    }

    constructor (service: GmcService)
      ensures Valid() && Contents() == map[] && this.service == service
    {
      records := map[];
      this.service := service;
    }

    /** `createGMCProduct`. */
    method CreateGmcProduct(key: Key) returns (p: GmcProduct)
      requires Valid()
      modifies this
      ensures Valid() && Contents() == Created(old(Contents()), key)
      ensures key in records && p == records[key]
      ensures key in old(records) ==> records == old(records)
      ensures key !in old(records) ==> fresh(p) && records == old(records)[key := p]
    {
      if key in records {
        p := records[key];
      } else {
        p := new GmcProduct(key.productId, key.productType);
        records := records[key := p];
      }
    }

    /** `syncToGMC` (and its aliases `syncwithgmc`, `forceSyncToGMC`), proved to behave as `SyncToGmcSpec`. */
    method SyncToGmc(key: Key, data: Payload, remote: Remote<RemoteProduct>, throwOnError: bool, now: Timestamp)
      returns (result: SyncToGmcResult, call: RepositoryCall, ghost answer: SyncStep)
      requires Valid() && service.repository.retryAttempts >= 1
      modifies this, records.Values
      ensures Valid()
      ensures IsSyncEnabled(Created(old(Contents()), key)[key])
              ==> AnswersSync(answer, old(Contents()), key, data, remote, throwOnError,
                              service.repository.retryAttempts, service.repository.retryDelay, now)
      ensures SyncTransition(Contents(), result, call) == SyncToGmcSpec(old(Contents()), key, data, answer, throwOnError, now)
    {
      ghost var t := Contents();
      var p := CreateGmcProduct(key);
      if !IsSyncEnabled(p.Snapshot()) {
        return Returns(False), NoCall, SyncStep(False, NoCall);
      }
      result, call, answer := SyncRecord(key, data, remote, throwOnError, now, t);
    }

    /** The part of `syncToGMC` after the enabled check: pending, the service, then `updateGMCData` or `markAsFailed`. */
    method SyncRecord(key: Key, data: Payload, remote: Remote<RemoteProduct>, throwOnError: bool, now: Timestamp,
                      ghost t: Table)
      returns (result: SyncToGmcResult, call: RepositoryCall, ghost answer: SyncStep)
      requires Valid() && service.repository.retryAttempts >= 1
      requires key in records && Contents() == Created(t, key)
      modifies records.Values
      ensures Valid()
      ensures AnswersSync(answer, t, key, data, remote, throwOnError,
                          service.repository.retryAttempts, service.repository.retryDelay, now)
      ensures SyncTransition(Contents(), result, call) == Settle(PendingTable(t, key, now), key, answer, data, throwOnError, now)
    {
      SetPending(key, now);
      ghost var pending := Contents();
      assert pending == PendingTable(t, key, now);
      var step := AskService(key, data, remote, throwOnError, now, t);
      result := SettleSync(key, step, data, throwOnError, now);
      call, answer := step.call, step;
    }

    /** `app(GMCService::class)->syncProduct($this)`, with the remote id the pending record holds. */
    method AskService(key: Key, data: Payload, remote: Remote<RemoteProduct>, throwOnError: bool, now: Timestamp,
                      ghost t: Table)
      returns (step: SyncStep)
      requires key in records && Contents() == PendingTable(t, key, now)
      requires service.repository.retryAttempts >= 1
      ensures AnswersSync(step, t, key, data, remote, throwOnError,
                          service.repository.retryAttempts, service.repository.retryDelay, now)
    {
      var model := ProductModel(key.productId, records[key].gmcProductId, data);
      assert model == ModelOf(PendingTable(t, key, now), key, data);
      var ret, call, request := service.SyncProduct(model, remote, throwOnError);
      step := SyncStep(ret, call);
    }

    /** `updateSyncStatus('pending')` on the product's record. */
    method SetPending(key: Key, now: Timestamp)
      requires Valid() && key in records
      modifies records.Values
      ensures Valid() && records == old(records)
      ensures Contents() == old(Contents())[key := WithSyncStatus(old(Contents())[key], Pending, None, now)]
    {
      records[key].UpdateSyncStatus(Pending, None, now);
      forall k | k in records && k != key
        ensures records[k].Snapshot() == old(records[k].Snapshot())
      {
        assert records[k] != records[key];
      }
    }

    /** The end of `syncToGMC`'s `try` and its `catch`, once the service has answered. */
    method SettleSync(key: Key, step: SyncStep, data: Payload, throwOnError: bool, now: Timestamp)
      returns (result: SyncToGmcResult)
      requires Valid() && key in records
      modifies records.Values
      ensures Valid()
      ensures SyncTransition(Contents(), result, step.call)
              == Settle(old(Contents()), key, step, data, throwOnError, now)
    {
      if step.ret.Raised? {
        records[key].MarkAsFailed(step.ret.exception.message, now);
        forall k | k in records && k != key
          ensures records[k].Snapshot() == old(records[k].Snapshot())
        {
          assert records[k] != records[key];
        }
        result := Returns(if throwOnError then step.ret else False);
      } else {
        var typeError := UpdateGmcData(key, ResultId(step.ret), data, now);
        result := if typeError then TypeError else Returns(step.ret);
      }
    }

    /** `updateGMCData`. */
    method UpdateGmcData(key: Key, resultId: Option<string>, data: Payload, now: Timestamp) returns (typeError: bool)
      requires Valid()
      modifies records.Values
      ensures Valid()
      ensures DataUpdate(Contents(), typeError) == UpdatedGmcData(old(Contents()), key, resultId, data, now)
    {
      typeError := false;
      if key in records {
        if resultId.None? {
          typeError := true;
        } else {
          records[key].MarkAsSynced(resultId.value, data, now);
        }
      }
    }

    /** `clearGMCData`. */
    method ClearGmcData(key: Key)
      requires Valid()
      modifies records.Values
      ensures Valid() && Contents() == Cleared(old(Contents()), key)
    {
      if key in records {
        records[key].Clear();
      }
    }

    /** `deleteFromGMC`, proved to behave as `DeleteFromGmcSpec`. */
    method DeleteFromGmc(key: Key, remote: Remote<()>, throwOnError: bool) returns (ret: Returned<bool>, called: bool)
      requires Valid() && service.repository.retryAttempts >= 1
      modifies records.Values
      ensures Valid()
      ensures DeleteTransition(Contents(), ret, called)
              == DeleteFromGmcSpec(old(Contents()), key, remote, throwOnError,
                                   service.repository.retryAttempts, service.repository.retryDelay)
    {
      var id := if key in records then records[key].gmcProductId else None;
      if !TruthyOpt(id) {
        return False, false;
      }
      called := true;
      var deleted := service.DeleteProduct(id.value, remote, throwOnError);
      if deleted.Raised? {
        ret := if throwOnError then deleted else False;
      } else {
        ClearGmcData(key);
        ret := Value(true);
      }
    }

    /** `enableGMCSync`. */
    method EnableGmcSync(key: Key)
      requires Valid()
      modifies this, records.Values
      ensures Valid() && Contents() == WithSyncEnabled(old(Contents()), key)
    {
      var p := CreateGmcProduct(key);
      p.SetSyncEnabled(true);
    }

    /** `disableGMCSync`. */
    method DisableGmcSync(key: Key)
      requires Valid()
      modifies records.Values
      ensures Valid() && Contents() == WithSyncDisabled(old(Contents()), key)
    {
      if key in records {
        records[key].SetSyncEnabled(false);
      }
    }

    /** `forceUpdateInGMC`: reads the remote id from the table and changes nothing. */
    method ForceUpdateInGmc(key: Key, data: Payload, remote: Remote<RemoteProduct>, throwOnError: bool)
      returns (ret: Returned<RemoteProduct>)
      requires service.repository.retryAttempts >= 1
      ensures ret == ForceUpdateInGmcSpec(Contents(), key, data, remote, throwOnError,
                                          service.repository.retryAttempts, service.repository.retryDelay)
    {
      var id := if key in records then records[key].gmcProductId else None;
      var r, call := service.ForceUpdateProduct(ProductModel(key.productId, id, data), remote);
      ret := if r.Ok? then Value(r.value) else Policy(r.error, throwOnError);
    }
  }
}
