/**
 * The per-product sync record (src/Models/GMCProduct.php, table
 * `gmc_products`): its predicates, and its three mutators as methods that
 * update the record in place, each proved against a function on a snapshot
 * of the record's columns. `now()` is a parameter.
 */
module SyncRecords {

  import opened Wrappers
  import opened PhpStrings
  import opened ProductData

  /** The `sync_status` enum of the `gmc_products` table. */
  datatype Status = Pending | Synced | Failed | Disabled

  /** A point in time, as the framework's clock reports it. */
  type Timestamp = int

  /** The columns of one `gmc_products` row. */
  datatype Row = Row(
    productId: int,
    productType: string,
    syncEnabled: bool,
    gmcProductId: Option<string>,
    gmcLastSync: Option<Timestamp>,
    gmcSyncData: Option<Payload>,
    syncStatus: Status,
    lastError: Option<string>,
    lastErrorAt: Option<Timestamp>)

  /** `isSynced`: status `synced` and a remote id that `empty()` does not reject. */
  predicate IsSynced(r: Row) {
    r.syncStatus == Synced && TruthyOpt(r.gmcProductId)
  }

  /** `isSyncEnabled`: the flag is on and the status is not `disabled`. */
  predicate IsSyncEnabled(r: Row) {
    r.syncEnabled && r.syncStatus != Disabled
  }

  /** The record `createGMCProduct` inserts: enabled, pending, nothing remote yet. */
  function NewRow(productId: int, productType: string): (r: Row)
    ensures r.productId == productId && r.productType == productType
    ensures IsSyncEnabled(r) && !IsSynced(r)
  {
    Row(productId, productType, true, None, None, None, Pending, None, None)
  }

  /** The columns no mutator of the record touches. */
  predicate SameIdentity(r: Row, r': Row) {
    r'.productId == r.productId && r'.productType == r.productType && r'.syncEnabled == r.syncEnabled
  }

  /** `updateSyncStatus($status, $error)`: the error time is stamped only for a truthy error. */
  function WithSyncStatus(r: Row, status: Status, error: Option<string>, now: Timestamp): (r': Row)
    ensures SameIdentity(r, r')
    ensures r'.lastErrorAt.Some? <==> TruthyOpt(error)
    ensures IsSyncEnabled(r') <==> r.syncEnabled && status != Disabled
  {
    r.(syncStatus := status, lastError := error, lastErrorAt := if TruthyOpt(error) then Some(now) else None)
  }

  /** `markAsSynced($id, $data)`: the record is synced exactly when the id is truthy, and carries no error. */
  function MarkedSynced(r: Row, gmcProductId: string, syncData: Payload, now: Timestamp): (r': Row)
    ensures SameIdentity(r, r')
    ensures IsSynced(r') <==> Truthy(gmcProductId)
    ensures r'.lastError.None? && r'.lastErrorAt.None?
  {
    r.(syncStatus := Synced, gmcProductId := Some(gmcProductId), gmcLastSync := Some(now),
       gmcSyncData := Some(syncData), lastError := None, lastErrorAt := None)
  }

  /** `markAsFailed($error)`: the remote id, last sync and stored data survive; the record is no longer synced. */
  function MarkedFailed(r: Row, error: string, now: Timestamp): (r': Row)
    ensures SameIdentity(r, r')
    ensures r'.gmcProductId == r.gmcProductId && r'.gmcLastSync == r.gmcLastSync && r'.gmcSyncData == r.gmcSyncData
    ensures !IsSynced(r') && r'.lastErrorAt == Some(now)
  {
    r.(syncStatus := Failed, lastError := Some(error), lastErrorAt := Some(now))
  }

  /** Marking a record failed and then synced leaves no trace of the failure. */
  lemma FailedThenSynced(r: Row, error: string, failedAt: Timestamp, id: string, data: Payload, now: Timestamp)
    ensures MarkedSynced(MarkedFailed(r, error, failedAt), id, data, now) == MarkedSynced(r, id, data, now)
  {
  }

  /** One `gmc_products` row as a mutable Eloquent model. */
  class GmcProduct {
    const productId: int
    const productType: string
    var syncEnabled: bool
    var gmcProductId: Option<string>
    var gmcLastSync: Option<Timestamp>
    var gmcSyncData: Option<Payload>
    var syncStatus: Status
    var lastError: Option<string>
    var lastErrorAt: Option<Timestamp>

    /** The row's current columns. */
    function Snapshot(): Row
      reads this
    {
      Row(productId, productType, syncEnabled, gmcProductId, gmcLastSync, gmcSyncData,
                  syncStatus, lastError, lastErrorAt)
    }

    /** Inserts the row `firstOrCreate` creates for a new product. */
    constructor (productId: int, productType: string)
      ensures Snapshot() == NewRow(productId, productType)
    {
      this.productId := productId;
      this.productType := productType;
      syncEnabled := true;
      gmcProductId := None;
      gmcLastSync := None;
      gmcSyncData := None;
      syncStatus := Pending;
      lastError := None;
      lastErrorAt := None;
    }

    /** `updateSyncStatus`. */
    method UpdateSyncStatus(status: Status, error: Option<string>, now: Timestamp)
      modifies this
      ensures Snapshot() == WithSyncStatus(old(Snapshot()), status, error, now)
    {
      syncStatus := status;
      lastError := error;
      lastErrorAt := if TruthyOpt(error) then Some(now) else None;
    }

    /** `markAsSynced`. */
    method MarkAsSynced(id: string, syncData: Payload, now: Timestamp)
      modifies this
      ensures Snapshot() == MarkedSynced(old(Snapshot()), id, syncData, now)
    {
      syncStatus := Synced;
      gmcProductId := Some(id);
      gmcLastSync := Some(now);
      gmcSyncData := Some(syncData);
      lastError := None;
      lastErrorAt := None;
    }

    /** `markAsFailed`. */
    method MarkAsFailed(error: string, now: Timestamp)
      modifies this
      ensures Snapshot() == MarkedFailed(old(Snapshot()), error, now)
    {
      syncStatus := Failed;
      lastError := Some(error);
      lastErrorAt := Some(now);
    }

    /** `update(['sync_enabled' => $enabled])`: only the flag changes. */
    method SetSyncEnabled(enabled: bool)
      modifies this
      ensures Snapshot() == old(Snapshot()).(syncEnabled := enabled)
    {
      syncEnabled := enabled;
    }

    /** The update `clearGMCData` makes: no remote id, no last sync, back to pending. */
    method Clear()
      modifies this
      ensures Snapshot() == old(Snapshot()).(gmcProductId := None, gmcLastSync := None, syncStatus := Pending)
    {
      gmcProductId := None;
      gmcLastSync := None;
      syncStatus := Pending;
    }
  }
}
