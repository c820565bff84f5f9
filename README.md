# Google Merchant Center product sync, modelled in Dafny

This project models the product-sync engine of a Laravel package that keeps
shop products in step with Google Merchant Center (GMC). It covers six parts:

- **Repository** (`repository.dfy`). The retry executor `executeWithRetry`
  with exponential back-off, the error classifier `shouldNotRetry`, and the
  four product calls that run through the executor. The Google client is an
  oracle `Remote<T>` that tells how the k-th attempt ends. Sleeps become a
  list of delays.
- **Payload** (`product_data.dfy`). Defaulting (`ensureRequiredFields`) and
  fail-fast validation (`validateProductData`) of the product array. PHP's
  `isset`, `is_numeric` and loose `in_array` are written out.
- **Service** (`service.dfy`). `syncProduct`, `forceUpdateProduct`,
  `deleteProduct`, `getProduct` and the chunked `syncMultipleProducts` on a
  `GmcService` class. The throw policy (`gmc.throw_sync_exceptions`) decides
  whether a failure is rethrown or returned as `false`.
- **Sync record** (`sync_records.dfy`). A `GmcProduct` class for one
  `gmc_products` row, with its predicates and in-place mutators. Each mutator
  is proved against a function on a snapshot of the row.
- **Store** (`sync_store.dfy`). The `SyncsWithGMC` trait, run over a
  `GmcProductStore`: a map keyed by (product id, product class) that holds the
  records. Each operation is a method proved against a function on the
  table of rows, and the properties are proved as lemmas about those
  functions. The boot hooks are modelled as their gating predicates.
- **Sync log and console command** (`sync_log.dfy`, `sync_command.dfy`). The
  sync-log helpers and the `gmc:sync-all` command: filter parsing,
  eligibility, the dry-run report, the chunked sync loop and exit codes.

Shared PHP string behaviour lives in `php_strings.dfy`: truthiness of `""`
and `"0"`, `strtolower`, `str_contains`, `trim`, `explode`/`implode` and
integer printing. `wrappers.dfy` holds `Option`, `Result` and the two
exception kinds.

Configuration reads are parameters: the throw policy, `auto_sync_enabled`,
the retry settings and the batch size. `now()` is a parameter too. Defaults
follow `config/gmc.php`:

- throw policy on;
- auto-sync on;
- 3 attempts with a 1000 ms base delay;
- batch size 50.

## Model

| member | source | states |
|---|---|---|
| Repository.ShouldNotRetry | src/Repositories/GMCRepository.php:153-169 | true iff the lower-cased message contains one of `invalid_grant`, `unauthorized_client`, `invalid_client`, `invalid_request`, `access_denied` |
| Repository.ShouldNotRetryIgnoresCase | src/Repositories/GMCRepository.php:153-169 | the classification does not depend on the case of the message |
| Repository.ShouldNotRetryInContext | src/Repositories/GMCRepository.php:162-166 | the test is a substring test: surrounding a non-retryable message with any text keeps it non-retryable |
| Repository.ClassifierExamples | src/Repositories/GMCRepository.php:155-161 | an upper-case `INVALID_GRANT` inside a longer message is non-retryable; `Rate limit` is retryable |
| Repository.RetryFrom | src/Repositories/GMCRepository.php:118-151 | calls stay within the attempt bound; the result is the last attempt's outcome; every earlier attempt failed retryably; stopping early means success or a terminal error; the delay after failed attempt k is `retryDelay * 2^(k-1)` |
| Repository.FirstSuccessReturned | src/Repositories/GMCRepository.php:122-124 | after retryable failures, the first success is returned with exactly k+1 calls |
| Repository.TerminalErrorStops | src/Repositories/GMCRepository.php:125-131 | a terminal error at attempt k+1 ends the loop there, with k delays and that error as the result |
| Repository.AlwaysRetryableExhausts | src/Repositories/GMCRepository.php:128-150 | an always-retryable failure is attempted exactly `retryAttempts` times and the last exception is rethrown; delays are `retryDelay * 2^k` for each k below `retryAttempts - 1`; no delay follows the last attempt |
| Repository.ThreeAttemptsExample | src/Repositories/GMCRepository.php:128-150 | with the default 3 attempts and a timeout every time, there are 3 calls and delays of 1x and 2x the base delay |
| Repository.GmcRepository.constructor | src/Repositories/GMCRepository.php:14-15 | defaults of 3 attempts and 1000 ms |
| Repository.GmcRepository.SetRetryAttempts | src/Repositories/GMCRepository.php:171-175 | stores the value as given, without checking it; the delay is unchanged |
| Repository.GmcRepository.SetRetryDelay | src/Repositories/GMCRepository.php:177-181 | stores the value as given; the attempt count is unchanged |
| Repository.GmcRepository.ExecuteWithRetry | src/Repositories/GMCRepository.php:118-151 | the loop computes exactly the run `Retry` describes |
| Repository.GmcRepository.UploadProduct | src/Repositories/GMCRepository.php:51-66 | sends an insert of the payload through the retry loop |
| Repository.GmcRepository.UpdateProduct | src/Repositories/GMCRepository.php:68-83 | sends the same insert as upload; the product id is not part of the request |
| Repository.GmcRepository.DeleteProduct | src/Repositories/GMCRepository.php:85-100 | sends a delete of the id through the retry loop; success yields `true` |
| Repository.GmcRepository.GetProduct | src/Repositories/GMCRepository.php:102-116 | sends a get of the id through the retry loop |
| ProductData.EnsureRequiredFields | src/Services/GMCService.php:148-157 | the keys are the caller's keys plus the defaults; caller values win; defaults fill only absent keys |
| ProductData.EnsureRequiredFieldsIdempotent | src/Services/GMCService.php:148-157 | defaulting twice is defaulting once |
| ProductData.DefaultsFillGaps | src/Services/GMCService.php:148-157 | after defaulting, availability and price are set unless the caller passed null; an absent condition becomes `new` |
| ProductData.FirstMissing | src/Services/GMCService.php:161-167 | finds the first field in order that is not set; all fields before it are set |
| ProductData.Validate | src/Services/GMCService.php:159-190 | true iff the payload is valid; fails on the first unset required field, in order, with its message; then checks the price parts, a non-negative numeric price value, availability, and condition if set, each with its own message (the condition message once everything else passes) |
| ProductData.DecimalNumeral | src/Services/GMCService.php:172-175 | numerals like `29.99` and `-1.5` count as numeric |
| ProductData.UnitTestPayloadComplete | tests/Unit/GMCServiceTest.php:20-28 | the unit test's payload has every required field set |
| ProductData.UnitTestPayloadValidates | tests/Unit/GMCServiceTest.php:20-30 | validation returns true on the unit test's payload |
| ProductData.NullCountsAsMissing | src/Services/GMCService.php:163-167 | a null `offerId` fails as a missing field |
| ProductData.ZeroPriceAcceptedNegativeRejected | src/Services/GMCService.php:172-175 | `0.00` passes the price check despite the "positive" message; `-0.01` fails |
| ProductData.TrueIsAcceptedAvailability | src/Services/GMCService.php:177-180 | under loose `in_array`, boolean `true` is an accepted availability and `false` is not |
| Service.Policy | src/Services/GMCService.php:33-44 | a failure is rethrown iff the throw policy is on, otherwise it becomes `false` |
| Service.SyncProductBehaviour | src/Services/GMCService.php:20-45 | an invalid payload makes no repository call; a valid one calls update iff the model has a remote id, otherwise upload, both with the defaulted payload; a value comes back iff the retried call succeeded; failures go through the policy |
| Service.SyncProductPolicy | src/Services/GMCService.php:33-44 | with the policy off, `syncProduct` never throws; with it on, it never returns `false` |
| Service.CountValues | src/Services/GMCService.php:58-60 | the success count of a range is at most its length |
| Service.CountValuesAll | src/Services/GMCService.php:58-60 | the count equals the range length iff every result is truthy |
| Service.ChunksRoundUp | src/Services/GMCService.php:54 | the number of chunks is zero iff the input is empty; otherwise it is the smallest number of chunks of that size that covers the input |
| Service.GmcService.constructor | src/Services/GMCService.php:13-18 | default batch size 50 |
| Service.GmcService.SetBatchSize | src/Services/GMCService.php:197-201 | stores the size as given |
| Service.GmcService.SyncProduct | src/Services/GMCService.php:20-45 | behaves as `SyncProductSpec`; a request is sent iff a repository call is made, and it is an insert of the defaulted payload |
| Service.GmcService.ForceUpdateProduct | src/Services/GMCService.php:92-104 | no remote id: InvalidArgument and no call; invalid payload: the validation error and no call; otherwise the update's result |
| Service.GmcService.DeleteProduct | src/Services/GMCService.php:106-122 | `true` when the retried delete succeeds, otherwise the policy decides |
| Service.GmcService.GetProduct | src/Services/GMCService.php:124-140 | the remote product when the retried get succeeds, otherwise the policy decides |
| Service.GmcService.SyncJob | src/Services/GMCService.php:56-71 | one `syncProduct` per model in order; it throws only under the policy |
| Service.GmcService.SyncBatch | src/Services/GMCService.php:54-77 | one chunk in order; it stops at the first exception, which happens only under the policy; otherwise it counts the truthy results and records no errors |
| Service.GmcService.SyncMultipleProducts | src/Services/GMCService.php:47-90 | results are the per-model `syncProduct` results in order; every chunk but the first (the last included) is followed by a 100 ms sleep after its syncs; with the policy on, the first failure aborts; otherwise `successes` counts the truthy results, `errors` is empty and `total` is the input count; a batch size of 0 or less syncs nothing |
| SyncRecords.NewRow | src/Traits/SyncsWithGMC.php:57-66 | a created record is enabled, pending and not synced |
| SyncRecords.WithSyncStatus | src/Models/GMCProduct.php:60-67 | the error time is set iff the error is truthy; identity and flag are unchanged; the record stays enabled iff the new status is not `disabled` |
| SyncRecords.MarkedSynced | src/Models/GMCProduct.php:69-79 | the record is synced iff the id is non-empty; both error fields are cleared; identity and flag are unchanged |
| SyncRecords.MarkedFailed | src/Models/GMCProduct.php:81-88 | the remote id, last sync and stored data are kept; the record is not synced; the error time is now |
| SyncRecords.FailedThenSynced | src/Models/GMCProduct.php:69-88 | a later `markAsSynced` erases every trace of an earlier `markAsFailed` |
| SyncRecords.GmcProduct.constructor | src/Traits/SyncsWithGMC.php:59-65 | the inserted row is `NewRow` |
| SyncRecords.GmcProduct.UpdateSyncStatus | src/Models/GMCProduct.php:60-67 | the row becomes `WithSyncStatus` of the old row |
| SyncRecords.GmcProduct.MarkAsSynced | src/Models/GMCProduct.php:69-79 | the row becomes `MarkedSynced` of the old row |
| SyncRecords.GmcProduct.MarkAsFailed | src/Models/GMCProduct.php:81-88 | the row becomes `MarkedFailed` of the old row |
| SyncRecords.GmcProduct.SetSyncEnabled | src/Traits/SyncsWithGMC.php:173 | only `sync_enabled` changes |
| SyncRecords.GmcProduct.Clear | src/Traits/SyncsWithGMC.php:217-221 | clears the remote id and last sync and sets `pending`; nothing else changes |
| SyncStore.GetGmcId | src/Traits/SyncsWithGMC.php:227-231 | null when there is no record |
| SyncStore.GetGmcSyncStatus | src/Traits/SyncsWithGMC.php:150-162 | `is_synced` and `sync_enabled` agree with `isSyncedWithGMC` and `shouldSyncToGMC`; synced implies status `synced` and a non-empty id; with no record the report is not synced, enabled and `pending` |
| SyncStore.DispatchGating | src/Traits/SyncsWithGMC.php:13-48 | without a record, save hooks dispatch iff auto-sync is on; a record switched off never dispatches a sync or a delete, and with auto-sync off no delete is dispatched |
| SyncStore.Created | src/Traits/SyncsWithGMC.php:57-66 | the key is present afterwards and no other key is added; an existing record is returned unchanged; a new one is `NewRow` |
| SyncStore.CreatedIdempotent | src/Traits/SyncsWithGMC.php:57-66 | creating twice is creating once, and records stay under their own key |
| SyncStore.WithSyncEnabled | src/Traits/SyncsWithGMC.php:170-174 | creates the record if needed and sets only its flag; other records are untouched |
| SyncStore.WithSyncDisabled | src/Traits/SyncsWithGMC.php:176-182 | no record means no change; otherwise only the flag is cleared |
| SyncStore.EnableDisableEffect | src/Traits/SyncsWithGMC.php:164-182 | enabling makes the product sync iff its status is not `disabled`, so it does not lift that status; disabling an existing record stops sync; with no record, sync is still on |
| SyncStore.Cleared | src/Traits/SyncsWithGMC.php:213-223 | only the product's own record changes: id and last sync cleared, status `pending` |
| SyncStore.ClearedIsUnsynced | src/Traits/SyncsWithGMC.php:213-223 | a cleared record is not synced, has no remote id and keeps its sync flag |
| SyncStore.ResultId | src/Traits/SyncsWithGMC.php:207 | an id exists only when a product was returned, and it is that product's id |
| SyncStore.UpdatedGmcData | src/Traits/SyncsWithGMC.php:202-211 | the call fails with the `TypeError` iff a record exists and there is no id; no other record changes; otherwise the record is synced iff the id is non-empty |
| SyncStore.Settle | src/Traits/SyncsWithGMC.php:80-96 | after the service answers, only the product's record changes and its identity and flag are kept |
| SyncStore.PendingTable | src/Traits/SyncsWithGMC.php:71-77 | the record is created if needed and set to `pending` with no error or error time; it keeps its remote id and switch (a new record is switched on); no other record changes |
| SyncStore.AnswersSyncIsSyncProduct | src/Traits/SyncsWithGMC.php:79-80 | the service's answer is `syncProduct` on the product as it stands after the pending update; under the policy off, that answer never throws |
| SyncStore.SyncToGmcFrame | src/Traits/SyncsWithGMC.php:68-97 | `syncToGMC` writes only the product's own record, creating it if needed, and never changes its identity or flag |
| SyncStore.SyncToGmcSkipsDisabled | src/Traits/SyncsWithGMC.php:71-75 | returns `false` iff the record is not sync-enabled; then no service call is made and nothing but the creation happens |
| SyncStore.SyncToGmcOutcome | src/Traits/SyncsWithGMC.php:77-96 | a returned product marks the record synced with its id and the prepared data, with no error; a rethrown exception, which occurs only under the policy, marks it failed with the message and keeps the remote id; a `TypeError` leaves it pending with no error |
| SyncStore.SyncToGmcTypeError | src/Traits/SyncsWithGMC.php:80-82 | for an enabled record, the `TypeError` happens iff the service returned `false` or a product without an id; with the policy off, every failed sync ends that way |
| SyncStore.DeleteFromGmcEffect | src/Traits/SyncsWithGMC.php:122-142 | the service is called iff the remote id is truthy; without a call the result is `false` and nothing changes; once called, the record is cleared and `true` returned unless the exception was rethrown; a rethrow happens only under the policy, keeps the record and is the delete's last exception |
| SyncStore.ForceUpdateInGmcSpec | src/Traits/SyncsWithGMC.php:109-120 | no remote id gives InvalidArgument through the policy; an invalid payload gives its validation error through the policy; otherwise a successful retried update returns its product and a failed one its last error through the policy; a failure is rethrown iff the policy is on |
| SyncStore.GmcProductStore.CreateGmcProduct | src/Traits/SyncsWithGMC.php:57-66 | the table becomes `Created`; an existing record object is returned, otherwise a fresh one |
| SyncStore.GmcProductStore.SyncToGmc | src/Traits/SyncsWithGMC.php:68-107 | the new table, result and call are those of `SyncToGmcSpec`, where the answer is that of `syncProduct` for an enabled record; `syncwithgmc` and `forceSyncToGMC` are the same call |
| SyncStore.GmcProductStore.SyncRecord | src/Traits/SyncsWithGMC.php:77-96 | on an enabled record: set pending, ask the service, then settle |
| SyncStore.GmcProductStore.SetPending | src/Traits/SyncsWithGMC.php:77 | only the product's record changes, to `updateSyncStatus('pending')` |
| SyncStore.GmcProductStore.AskService | src/Traits/SyncsWithGMC.php:79-80 | the answer is `syncProduct` on the pending record's remote id and the prepared data |
| SyncStore.GmcProductStore.SettleSync | src/Traits/SyncsWithGMC.php:82-96 | the table and result become those of `Settle` |
| SyncStore.GmcProductStore.UpdateGmcData | src/Traits/SyncsWithGMC.php:202-211 | the table and outcome become those of `UpdatedGmcData` |
| SyncStore.GmcProductStore.ClearGmcData | src/Traits/SyncsWithGMC.php:213-223 | the table becomes `Cleared` |
| SyncStore.GmcProductStore.DeleteFromGmc | src/Traits/SyncsWithGMC.php:122-142 | the table, result and call flag are those of `DeleteFromGmcSpec` |
| SyncStore.GmcProductStore.EnableGmcSync | src/Traits/SyncsWithGMC.php:170-174 | the table becomes `WithSyncEnabled` |
| SyncStore.GmcProductStore.DisableGmcSync | src/Traits/SyncsWithGMC.php:176-182 | the table becomes `WithSyncDisabled` |
| SyncStore.GmcProductStore.ForceUpdateInGmc | src/Traits/SyncsWithGMC.php:109-120 | returns `ForceUpdateInGmcSpec` and changes no record |
| SyncLog.SuccessAndFailureExclusive | src/Models/GMCSyncLog.php:27-35 | a log entry is never both successful and failed; it is one of them iff it is not pending |
| SyncLog.ErrorSummary | src/Models/GMCSyncLog.php:50-57 | `No error` for a falsy message; a message of at most 100 characters is unchanged; a longer one becomes its first 100 characters plus `...` |
| SyncLog.ErrorSummaryBounds | src/Models/GMCSyncLog.php:56 | a summary has at most 103 characters and starts with a prefix of the message |
| SyncLog.FormattedResponseTime | src/Models/GMCSyncLog.php:37-48 | `N/A` for a null or zero time; the seconds branch is taken exactly from 1000 ms up |
| SyncLog.MillisecondsRoundTrip | src/Models/GMCSyncLog.php:43-45 | from 1 to 999 ms the text is the decimal digits of the time, with no leading zero, followed by `ms`, and the digits read back as the time |
| SyncCommand.ParseItem | src/Console/Commands/SyncAllProductsCommand.php:100-106 | a parsed condition has trimmed field and value, neither containing `=` |
| SyncCommand.ParseItemAccepts | src/Console/Commands/SyncAllProductsCommand.php:101-102 | an item yields a condition iff its trimmed text contains exactly one `=` |
| SyncCommand.ConditionsAppend | src/Console/Commands/SyncAllProductsCommand.php:98-107 | items are parsed one by one and in order |
| SyncCommand.ConditionsMembers | src/Console/Commands/SyncAllProductsCommand.php:98-107 | a condition is produced iff some item parses to it; other items are dropped |
| SyncCommand.FilterConditions | src/Console/Commands/SyncAllProductsCommand.php:76-78 | a null or falsy filter adds no condition |
| SyncCommand.ParseRendered | src/Console/Commands/SyncAllProductsCommand.php:100-106 | `field=value`, with trimmed parts that contain no `=`, parses back to that condition |
| SyncCommand.FilterRoundTrip | src/Console/Commands/SyncAllProductsCommand.php:96-108 | writing plain conditions as `f=v,f=v` and applying the filter gives back the same conditions in the same order |
| SyncCommand.Selected | src/Console/Commands/SyncAllProductsCommand.php:72-94 | a row is selected iff it is in the table, matches every filter condition and is eligible |
| SyncCommand.EligibleCases | src/Console/Commands/SyncAllProductsCommand.php:80-91 | a row switched off on both flags is never picked; an enabled or unset row is picked iff forced, never synced, or last synced more than 24 hours ago, strictly |
| SyncCommand.ForceWidens | src/Console/Commands/SyncAllProductsCommand.php:86-91 | `--force` only adds rows to the selection |
| SyncCommand.DryRunReport | src/Console/Commands/SyncAllProductsCommand.php:110-123 | the first selected rows are listed, at most 10, with `Unknown` for a null name; `... and N more` appears iff the total exceeds 10, and samples plus N equal the total |
| SyncCommand.ExitCode | src/Console/Commands/SyncAllProductsCommand.php:150-162 | exit code 1 iff an exception was caught or the error count is positive, otherwise 0 |
| SyncCommand.PerformSync | src/Console/Commands/SyncAllProductsCommand.php:125-163 | each query chunk is passed to `syncMultipleProducts` without a batch size; a chunk size of 0 syncs nothing, and a negative one passes every selected job in a single chunk; the success count is the number of truthy results; the error count stays 0, so the exit code is 1 iff an exception escaped; that can happen only under the throw policy |
| SyncCommand.ResultCode | src/Console/Commands/SyncAllProductsCommand.php:21-70 | exit code 0 iff there was nothing to sync, a dry run, or a clean sync |
| SyncCommand.Handle | src/Console/Commands/SyncAllProductsCommand.php:21-70 | a missing model, unknown class or missing trait stops with 1; an empty selection stops with 0 before any sync; a dry run reports the selection; otherwise the selected jobs are synced |

## Left out

- The Google API client: service-account lookup, `ShoppingContent` and `testConnection`. Each remote call is an oracle `Remote<T>` giving the outcome of every attempt.
- `usleep`. The retry delays are returned as data. The 100 ms pause after each service chunk but the first (the last included) is also returned as data and is not a real wait. A negative retry delay, which `setRetryDelay` accepts, would make PHP 8's `usleep` throw a `ValueError` on the first retry; that is an `\Error`, which `catch (\Exception)` does not catch. The model instead records the negative delay and carries on.
- Logging through `Log::` in all files, and the console output and progress bar of the command.
- `dispatch(...)->afterResponse()` and the Eloquent lifecycle hooks. Only the conditions under which a job would be dispatched are modelled.
- Eloquent queries (`firstOrCreate`, `where`, `first`, `chunk`). The store is a map keyed by (product id, product class); the command's query is a filter over a sequence of rows in table order.
- `Config::get`. Every setting is a parameter.
- Repository.GmcRepository.ExecuteWithRetry: requires `retryAttempts >= 1`. With 0 or less, the loop never runs and PHP throws on `throw null`, while the setter accepts any value.
- The `gmc_sync_logs` table's writers and readers (`getGMCSyncLogs`, `getLastSuccessfulGMCSync`, `getLastGMCError`, `syncLogs`). No code in the core writes a log row, so only the log entry's own helpers are modelled.
- SyncLog.FormattedResponseTime: returns no text for 1000 ms and above. The seconds branch, `round($ms / 1000, 2)`, works on floats and is not modelled.
- The ISO-8601 formatting of `last_sync` in `getGMCSyncStatus`. The report carries the timestamp itself.
- `is_numeric` and `$value < 0` cover integers and plain decimal numerals only. Exponents, hexadecimal-looking strings and leading or trailing whitespace are not modelled.
- String lengths count characters. `substr` and `strlen` in `getErrorSummary` count bytes, so a message with multi-byte characters is cut differently.
- Filter conditions compare the column's text with the value for equality. The database's type coercion and collation are not modelled.
- The eligibility rule reads `gmc_sync_enabled`, as the query does. The fields migration names that column `gmc_sync_enabled_field`, and a table without the column fails at the database, which is not modelled.
- ProductData.EnsureRequiredFields: PHP's `array_merge` renumbers integer keys instead of overriding them. Payload keys are field names, so the model uses plain map override.
- The `(int)` cast of the `--chunk` option. The chunk size is an integer parameter. A size of 0 syncs nothing, because its first page is empty. A negative size gives one chunk of every selected row, because the query builder ignores a negative limit and the paging stops after the first page.
- `prepareGMCData` (`ModelExample.php`). The payload a product produces is an input.
- The microtime duration that the command prints.

Behaviour that follows the code rather than its documentation:

- `updateProduct` sends the same insert request as `uploadProduct` and ignores its id argument.
- With the throw policy off, a failed `syncProduct` returns `false`. `syncToGMC` then calls `markAsSynced(null, ...)` with a non-nullable `string` parameter. PHP raises a `TypeError` there, which is not an `\Exception` and escapes the method's `catch`. The model makes this an explicit outcome, `TypeError`: the record is left pending with no error. A returned product without an id ends the same way.
- `deleteFromGMC` ignores what `deleteProduct` returns. With the throw policy off, a failed remote delete still clears the record and returns `true`.
- `syncMultipleProducts` never reports errors. Under the throw policy, the first failure is rethrown. Without it, `syncProduct` never throws. So the `errors` list is always empty, and its closing `throw` cannot be reached. As a result, `gmc:sync-all` exits with 1 after a sync only when an exception escaped.
