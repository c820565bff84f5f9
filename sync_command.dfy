/**
 * The `gmc:sync-all` console command (src/Console/Commands/SyncAllProductsCommand.php):
 * the `--filter` parser, the eligibility rule of its query, the dry-run
 * report, the chunked sync with its counters and exit code, and `handle`
 * tying them together. The product table is a sequence of rows in query
 * order; `now()` is a parameter and timestamps count seconds.
 */
module SyncCommand {

  import opened Wrappers
  import opened PhpStrings
  import opened Repository
  import opened Service

  // ---------------------------------------------------------------------
  // --filter="field=value,field=value"
  // ---------------------------------------------------------------------

  /** One `where($field, $value)` condition added by `applyFilter`. */
  datatype Condition = Condition(field: string, value: string)

  /**
   * One comma-separated filter item: after trimming, it must split on `=`
   * into exactly two pieces, which are trimmed again into a condition.
   */
  function ParseItem(item: string): (c: Option<Condition>)
    ensures c.Some? ==> '=' !in c.value.field && '=' !in c.value.value
    ensures c.Some? ==> Trimmed(c.value.field) && Trimmed(c.value.value)
  {
    var parts := Split(Trim(item), '=');
    if |parts| == 2 then
      TrimKeepsAbsent(parts[0], '=');
      TrimKeepsAbsent(parts[1], '=');
      Some(Condition(Trim(parts[0]), Trim(parts[1])))
    else None
  }

  /** An item yields a condition exactly when its trimmed text holds exactly one `=`. */
  lemma ParseItemAccepts(item: string)
    ensures ParseItem(item).Some? <==> multiset(Trim(item))['='] == 1
  {
    SplitCount(Trim(item), '=');
  }

  /** What each item parses to, item by item. */
  function ParsedItems(items: seq<string>): (ps: seq<Option<Condition>>)
    ensures |ps| == |items|
  {
    if |items| == 0 then [] else [ParseItem(items[0])] + ParsedItems(items[1..])
  }

  /** Entry k of the parsed items is what item k parses to. */
  lemma {:induction false} ParsedItemsAt(items: seq<string>, k: nat)
    requires k < |items|
    ensures ParsedItems(items)[k] == ParseItem(items[k])
  {
    if k > 0 {
      ParsedItemsAt(items[1..], k - 1);
    }
  }

  /** Items are parsed independently of their neighbours. */
  lemma {:induction false} ParsedItemsAppend(a: seq<string>, b: seq<string>)
    ensures ParsedItems(a + b) == ParsedItems(a) + ParsedItems(b)
  {
    if |a| > 0 {
      ParsedItemsAppend(a[1..], b);
      assert (a + b)[1..] == a[1..] + b;
    } else {
      assert a + b == b;
    }
  }

  /** The values of the present entries, in order. */
  function Somes(ps: seq<Option<Condition>>): (cs: seq<Condition>)
    ensures |cs| <= |ps|
  {
    if |ps| == 0 then []
    else (if ps[0].Some? then [ps[0].value] else []) + Somes(ps[1..])
  }

  /** The conditions of the items that parse, in item order. */
  function Conditions(items: seq<string>): (cs: seq<Condition>)
    ensures |cs| <= |items|
  {
    Somes(ParsedItems(items))
  }

  /** `applyFilter`: the conditions a filter string adds to the query. */
  function ApplyFilter(filter: string): seq<Condition> {
    Conditions(Split(filter, ','))
  }

  /** `if ($filter)`: a null or falsy filter adds no condition. */
  function FilterConditions(filter: Option<string>): (cs: seq<Condition>)
    ensures !TruthyOpt(filter) ==> cs == []
  {
    if TruthyOpt(filter) then ApplyFilter(filter.value) else []
  }

  /** Keeping the present entries distributes over concatenation. */
  lemma {:induction false} SomesAppend(p: seq<Option<Condition>>, q: seq<Option<Condition>>)
    ensures Somes(p + q) == Somes(p) + Somes(q)
  {
    if |p| > 0 {
      SomesAppend(p[1..], q);
      assert (p + q)[1..] == p[1..] + q;
    } else {
      assert p + q == q;
    }
  }

  /** A value is kept iff it is present somewhere. */
  lemma {:induction false} SomesMembers(ps: seq<Option<Condition>>, c: Condition)
    ensures c in Somes(ps) <==> Some(c) in ps
  {
    if |ps| > 0 {
      SomesMembers(ps[1..], c);
      assert ps == [ps[0]] + ps[1..];
    }
  }

  /** Parsing is done item by item: the conditions of two runs of items are concatenated. */
  lemma ConditionsAppend(a: seq<string>, b: seq<string>)
    ensures Conditions(a + b) == Conditions(a) + Conditions(b)
  {
    var pa, pb := ParsedItems(a), ParsedItems(b);
    ParsedItemsAppend(a, b);
    SomesAppend(pa, pb);
  }

  /** A condition is produced exactly when some item parses to it; items that do not parse are dropped. */
  lemma ConditionsMembers(items: seq<string>, c: Condition)
    ensures c in Conditions(items) <==> exists k :: 0 <= k < |items| && ParseItem(items[k]) == Some(c)
  {
    var ps := ParsedItems(items);
    SomesMembers(ps, c);
    if Some(c) in ps {
      var k :| 0 <= k < |ps| && ps[k] == Some(c);
      ParsedItemsAt(items, k);
    }
    if exists k :: 0 <= k < |items| && ParseItem(items[k]) == Some(c) {
      var k :| 0 <= k < |items| && ParseItem(items[k]) == Some(c);
      ParsedItemsAt(items, k);
    }
  }

  /** The item `field=value` a condition is written as. */
  function RenderCondition(c: Condition): string {
    c.field + "=" + c.value
  }

  /** Field and value a filter can carry: trimmed, without `,` or `=`. */
  predicate Plain(c: Condition) {
    Trimmed(c.field) && Trimmed(c.value)
    && ',' !in c.field && ',' !in c.value && '=' !in c.field && '=' !in c.value
  }

  /** A rendered plain condition parses back to itself. */
  lemma ParseRendered(c: Condition)
    requires Plain(c)
    ensures ParseItem(RenderCondition(c)) == Some(c)
  {
    var item := RenderCondition(c);
    assert item == c.field + ['='] + c.value;
    RenderedIsTrimmed(c);
    TrimOfTrimmed(item);
    SplitPrefix(c.field, c.value, '=');
    SplitNoSep(c.value, '=');
    assert Split(Trim(item), '=') == [c.field, c.value];
    TrimOfTrimmed(c.field);
    TrimOfTrimmed(c.value);
  }

  /** A rendered item of trimmed pieces has no whitespace at its ends. */
  lemma RenderedIsTrimmed(c: Condition)
    requires Trimmed(c.field) && Trimmed(c.value)
    ensures Trimmed(RenderCondition(c))
  {
    var item := RenderCondition(c);
    assert item[0] == if c.field == [] then '=' else c.field[0];
    assert item[|item| - 1] == if c.value == [] then '=' else c.value[|c.value| - 1];
  }

  /** The filter items of a list of conditions. */
  function RenderItems(cs: seq<Condition>): (items: seq<string>)
    ensures |items| == |cs|
    ensures forall k :: 0 <= k < |cs| ==> items[k] == RenderCondition(cs[k])
  {
    if |cs| == 0 then [] else [RenderCondition(cs[0])] + RenderItems(cs[1..])
  }

  /** Every entry of a list that is all present is kept. */
  lemma {:induction false} SomesOfPresent(ps: seq<Option<Condition>>, cs: seq<Condition>)
    requires |ps| == |cs| && forall k :: 0 <= k < |ps| ==> ps[k] == Some(cs[k])
    ensures Somes(ps) == cs
  {
    if |ps| > 0 {
      SomesOfPresent(ps[1..], cs[1..]);
      assert cs == [cs[0]] + cs[1..];
    }
  }

  /** Parsing the items of plain conditions gives back the conditions. */
  lemma ConditionsOfRendered(cs: seq<Condition>)
    requires forall k :: 0 <= k < |cs| ==> Plain(cs[k])
    ensures Conditions(RenderItems(cs)) == cs
  {
    var ps := ParsedItems(RenderItems(cs));
    forall k | 0 <= k < |cs|
      ensures ps[k] == Some(cs[k])
    {
      ParsedItemsAt(RenderItems(cs), k);
      ParseRendered(cs[k]);
    }
    SomesOfPresent(ps, cs);
  }

  /** Writing plain conditions as `f=v,f=v` and applying the filter gives back the same conditions, in the same order. */
  lemma FilterRoundTrip(cs: seq<Condition>)
    requires |cs| >= 1
    requires forall k :: 0 <= k < |cs| ==> Plain(cs[k])
    ensures ApplyFilter(Join(RenderItems(cs), ',')) == cs
  {
    var items := RenderItems(cs);
    forall k | 0 <= k < |items|
      ensures ',' !in items[k]
    {
      assert items[k] == cs[k].field + ['='] + cs[k].value;
    }
    SplitJoin(items, ',');
    ConditionsOfRendered(cs);
  }

  // ---------------------------------------------------------------------
  // buildQuery
  // ---------------------------------------------------------------------

  /**
   * One row of the product table as the command's query sees it: the job
   * `syncMultipleProducts` would run for it, its `name`, the other columns
   * a filter can test, and the three columns the eligibility rule reads.
   */
  datatype ProductRow = ProductRow(
    job: Job,
    name: Option<string>,
    attributes: map<string, string>,
    syncEnabled: Option<bool>,
    gmcSyncEnabled: Option<bool>,
    gmcLastSync: Option<int>)

  /** `now()->subHours(24)`, in seconds. */
  const StaleAfter: int := 24 * 60 * 60

  /** The two groups of `where` clauses `buildQuery` adds after the filter. */
  predicate Eligible(row: ProductRow, force: bool, now: int) {
    (row.syncEnabled == Some(true) || row.gmcSyncEnabled == Some(true) || row.syncEnabled.None?)
    && (force || row.gmcLastSync.None? || row.gmcLastSync.value < now - StaleAfter)
  }

  /** The filter's `where($field, $value)` clauses, all of which must hold. */
  predicate Matches(row: ProductRow, conds: seq<Condition>) {
    forall k :: 0 <= k < |conds| ==> conds[k].field in row.attributes && row.attributes[conds[k].field] == conds[k].value
  }

  /** The rows `buildQuery` selects, in table order. */
  function Selected(rows: seq<ProductRow>, conds: seq<Condition>, force: bool, now: int): (sel: seq<ProductRow>)
    ensures |sel| <= |rows|
    ensures forall r :: r in sel <==> r in rows && Matches(r, conds) && Eligible(r, force, now)
  {
    if |rows| == 0 then []
    else
      var rest := Selected(rows[1..], conds, force, now);
      assert forall r :: r in rows <==> r == rows[0] || r in rows[1..];
      if Matches(rows[0], conds) && Eligible(rows[0], force, now) then [rows[0]] + rest else rest
  }

  /** Eligibility in words: an enabled (or unset) row is picked when forced, never synced, or last synced more than a day ago; a row switched off on both flags never is. */
  lemma EligibleCases(row: ProductRow, force: bool, now: int)
    ensures row.syncEnabled == Some(false) && row.gmcSyncEnabled != Some(true) ==> !Eligible(row, force, now)
    ensures row.syncEnabled != Some(false) ==> (Eligible(row, force, now) <==> force || row.gmcLastSync.None? || row.gmcLastSync.value + StaleAfter < now)
    ensures row.syncEnabled == Some(true) && row.gmcLastSync.Some? && row.gmcLastSync.value == now - StaleAfter ==> (Eligible(row, force, now) <==> force)
  {
    if row.syncEnabled.Some? && row.syncEnabled != Some(false) {
      assert row.syncEnabled.value;
    }
  }

  /** `--force` only widens the selection. */
  lemma {:induction false} ForceWidens(rows: seq<ProductRow>, conds: seq<Condition>, now: int)
    ensures forall r :: r in Selected(rows, conds, false, now) ==> r in Selected(rows, conds, true, now)
    ensures |Selected(rows, conds, false, now)| <= |Selected(rows, conds, true, now)|
  {
    if |rows| > 0 {
      ForceWidens(rows[1..], conds, now);
    }
  }

  // ---------------------------------------------------------------------
  // showDryRunResults
  // ---------------------------------------------------------------------

  /** The most rows a dry run lists. */
  const SampleSize: nat := 10

  /** One `  - {key}: {name}` line. */
  datatype SampleLine = SampleLine(key: int, name: string)

  /** What a dry run prints: the total, the sample lines and the `... and N more` count, if printed. */
  datatype DryRun = DryRun(total: nat, samples: seq<SampleLine>, more: Option<nat>)

  /** `showDryRunResults`: the first ten selected rows, named `Unknown` when their name is null. */
  function DryRunReport(selected: seq<ProductRow>): (d: DryRun)
    ensures d.total == |selected| && |d.samples| <= SampleSize && |d.samples| <= |selected|
    ensures forall k :: 0 <= k < |d.samples| ==>
              d.samples[k].key == selected[k].job.model.key
              && d.samples[k].name == (if selected[k].name.Some? then selected[k].name.value else "Unknown")
    ensures d.more.Some? <==> d.total > SampleSize
    ensures |d.samples| + (if d.more.Some? then d.more.value else 0) == d.total
  {
    var n := if |selected| < SampleSize then |selected| else SampleSize;
    var samples := seq(n, k requires 0 <= k < n => SampleLine(selected[k].job.model.key,
                                                              if selected[k].name.Some? then selected[k].name.value else "Unknown"));
    DryRun(|selected|, samples, if |selected| > SampleSize then Some(|selected| - SampleSize) else None)
  }

  // ---------------------------------------------------------------------
  // performSync
  // ---------------------------------------------------------------------

  /** How `performSync` ends: the two counters, or an exception caught by its `catch`. */
  datatype RunOutcome = Completed(successCount: nat, errorCount: nat) | Crashed(exception: Exception)

  /** `performSync`'s return value. */
  function ExitCode(o: RunOutcome): (code: int)
    ensures code == 0 || code == 1
    ensures code == 1 <==> o.Crashed? || o.errorCount > 0
  {
    if o.Crashed? || o.errorCount > 0 then 1 else 0
  }

  /**
   * `performSync`: the selected jobs are cut into query chunks of
   * `chunkSize`, each handed to `syncMultipleProducts` without a batch size,
   * and the counters add up the summaries; an abort escapes to the `catch`.
   * The service reports no errors, so the error counter stays 0 and the
   * command fails exactly when an exception escaped. The query builder
   * ignores a negative limit, so a negative size makes the first page hold
   * every selected row and the paging stops after it: one chunk of all jobs.
   * A size of 0 gives an empty first page, so nothing is synced.
   */
  method PerformSync(service: GmcService, jobs: seq<Job>, chunkSize: int, throwOnError: bool)
    returns (outcome: RunOutcome, ghost rets: seq<Returned<RemoteProduct>>)
    requires service.repository.retryAttempts >= 1
    ensures ReturnsOf(jobs, rets, throwOnError, service.repository.retryAttempts, service.repository.retryDelay)
    ensures outcome.Completed? ==> outcome.errorCount == 0
    ensures outcome.Completed? && chunkSize != 0 && service.batchSize > 0
            ==> |rets| == |jobs| && outcome.successCount == CountValues(rets, 0, |jobs|)
    ensures outcome.Completed? && (chunkSize == 0 || service.batchSize <= 0) ==> rets == [] && outcome.successCount == 0
    ensures outcome.Crashed? ==> throwOnError && 0 < |rets| && rets[|rets| - 1] == Raised(outcome.exception)
    ensures forall k :: 0 <= k < |rets| - 1 ==> !rets[k].Raised?
    ensures !throwOnError ==> outcome.Completed?
    ensures ExitCode(outcome) == 1 <==> outcome.Crashed?
  {
    ghost var attempts, delay := service.repository.retryAttempts, service.repository.retryDelay;
    var successCount: nat := 0;
    var errorCount: nat := 0;
    rets := [];
    var size := if chunkSize < 0 then |jobs| else chunkSize;
    if size > 0 {
      var start := 0;
      while start < |jobs|
        invariant 0 <= start <= |jobs|
        invariant ReturnsOf(jobs, rets, throwOnError, attempts, delay)
        invariant forall k :: 0 <= k < |rets| ==> !rets[k].Raised?
        invariant errorCount == 0
        invariant service.batchSize > 0 ==> |rets| == start && successCount == CountValues(rets, 0, start)
        invariant service.batchSize <= 0 ==> rets == [] && successCount == 0
      {
        var end := if start + size < |jobs| then start + size else |jobs|;
        var result, sleeps, chunkRets := service.SyncMultipleProducts(jobs[start..end], None, throwOnError);
        if service.batchSize > 0 {
          ReturnsOfAppend(jobs, rets, end, chunkRets, throwOnError, attempts, delay);
        }
        if result.Aborted? {
          outcome := Crashed(result.exception);
          rets := rets + chunkRets;
          return;
        }
        if service.batchSize > 0 {
          CountValuesConcat(rets, chunkRets);
        }
        rets := rets + chunkRets;
        successCount := successCount + result.successes;
        errorCount := errorCount + |result.errors|;
        start := end;
      }
    }
    outcome := Completed(successCount, errorCount);
  }

  // ---------------------------------------------------------------------
  // handle
  // ---------------------------------------------------------------------

  /** The command line: `{model?} --chunk= --force --dry-run --filter=`. */
  datatype Invocation = Invocation(model: Option<string>, chunk: int, force: bool, dryRun: bool, filter: Option<string>)

  /** Where `handle` stops. */
  datatype CommandResult =
    | MissingModel
    | NoSuchClass(modelClass: string)
    | MissingTrait(modelClass: string)
    | NothingToSync
    | DryRunShown(report: DryRun)
    | Ran(outcome: RunOutcome)

  /** The exit status `handle` returns for each way it stops. */
  function ResultCode(r: CommandResult): (code: int)
    ensures code == 0 <==> r.NothingToSync? || r.DryRunShown? || (r.Ran? && !r.outcome.Crashed? && r.outcome.errorCount == 0)
  {
    match r
    case MissingModel => 1
    case NoSuchClass(_) => 1
    case MissingTrait(_) => 1
    case NothingToSync => 0
    case DryRunShown(_) => 0
    case Ran(o) => ExitCode(o)
  }

  /** The jobs of the selected rows, in order. */
  function JobsOf(rows: seq<ProductRow>): (jobs: seq<Job>)
    ensures |jobs| == |rows| && forall k :: 0 <= k < |rows| ==> jobs[k] == rows[k].job
  {
    seq(|rows|, k requires 0 <= k < |rows| => rows[k].job)
  }

  /** `$this->argument('model') ?? config('gmc.default_model')`. */
  function ModelClass(inv: Invocation, defaultModel: Option<string>): Option<string> {
    if inv.model.Some? then inv.model else defaultModel
  }

  /**
   * `handle`. `classes` are the class names `class_exists` accepts,
   * `syncable` those that use the sync trait, and `rows` the model's table.
   */
  method Handle(service: GmcService, inv: Invocation, defaultModel: Option<string>, classes: set<string>,
                syncable: set<string>, rows: seq<ProductRow>, throwOnError: bool, now: int)
    returns (result: CommandResult, code: int, ghost rets: seq<Returned<RemoteProduct>>)
    requires service.repository.retryAttempts >= 1
    ensures code == ResultCode(result)
    ensures !TruthyOpt(ModelClass(inv, defaultModel)) <==> result.MissingModel?
    ensures result.NoSuchClass? <==> TruthyOpt(ModelClass(inv, defaultModel)) && ModelClass(inv, defaultModel).value !in classes
    ensures result.MissingTrait? <==> TruthyOpt(ModelClass(inv, defaultModel)) && ModelClass(inv, defaultModel).value in classes
                                      && ModelClass(inv, defaultModel).value !in syncable
    ensures var sel := Selected(rows, FilterConditions(inv.filter), inv.force, now);
            && (result.NothingToSync? ==> |sel| == 0)
            && (result.DryRunShown? ==> inv.dryRun && 0 < |sel| && result.report == DryRunReport(sel))
            && (result.Ran? ==> !inv.dryRun && 0 < |sel|
                                && ReturnsOf(JobsOf(sel), rets, throwOnError, service.repository.retryAttempts, service.repository.retryDelay)
                                && (result.outcome.Completed? && inv.chunk != 0 && service.batchSize > 0
                                    ==> |rets| == |sel| && result.outcome.successCount == CountValues(rets, 0, |sel|)))
    ensures !throwOnError ==> (code == 1 <==> result.MissingModel? || result.NoSuchClass? || result.MissingTrait?)
  {
    rets := [];
    var modelClass := ModelClass(inv, defaultModel);
    if !TruthyOpt(modelClass) {
      return MissingModel, 1, rets;
    }
    if modelClass.value !in classes {
      return NoSuchClass(modelClass.value), 1, rets;
    }
    if modelClass.value !in syncable {
      return MissingTrait(modelClass.value), 1, rets;
    }
    var selected := Selected(rows, FilterConditions(inv.filter), inv.force, now);
    if |selected| == 0 {
      return NothingToSync, 0, rets;
    }
    if inv.dryRun {
      return DryRunShown(DryRunReport(selected)), 0, rets;
    }
    var outcome;
    outcome, rets := PerformSync(service, JobsOf(selected), inv.chunk, throwOnError);
    result := Ran(outcome);
    code := ExitCode(outcome);
  }
}
