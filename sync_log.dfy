/**
 * The sync log entry (src/Models/GMCSyncLog.php, table `gmc_sync_logs`): its
 * status predicates and its two display helpers. Only the columns these
 * helpers read are kept.
 */
module SyncLog {

  import opened Wrappers
  import opened PhpStrings

  /** The `status` enum of the `gmc_sync_logs` table. */
  datatype LogStatus = Success | Failed | Pending

  datatype LogEntry = LogEntry(status: LogStatus, errorMessage: Option<string>, responseTimeMs: Option<int>)

  /** `isSuccessful`: status `success`. */
  predicate IsSuccessful(e: LogEntry) {
    e.status == Success
  }

  /** `isFailed`: status `failed`. */
  predicate IsFailed(e: LogEntry) {
    e.status == Failed
  }

  /** An entry is never both successful and failed, and a pending one is neither. */
  lemma SuccessAndFailureExclusive(e: LogEntry)
    ensures !(IsSuccessful(e) && IsFailed(e))
    ensures IsSuccessful(e) || IsFailed(e) <==> e.status != Pending
  {
  }

  /** How many characters of the message a summary keeps. */
  const SummaryLength: nat := 100

  /**
   * `getErrorSummary`: `No error` for a falsy message; otherwise the message's
   * first 100 characters, followed by `...` exactly when something was cut.
   */
  function ErrorSummary(message: Option<string>): (r: string)
    ensures !TruthyOpt(message) ==> r == "No error"
    ensures TruthyOpt(message) ==>
              var m := message.value;
              (|m| <= SummaryLength ==> r == m)
              && (|m| > SummaryLength ==> |r| == SummaryLength + 3 && r[..SummaryLength] == m[..SummaryLength] && r[SummaryLength..] == "...")
  {
    if !TruthyOpt(message) then "No error"
    else
      var m := message.value;
      if |m| > SummaryLength then m[..SummaryLength] + "..." else m
  }

  /** A summary is never longer than 103 characters, and what it keeps of a message is a prefix of that message. */
  lemma ErrorSummaryBounds(message: Option<string>)
    ensures |ErrorSummary(message)| <= SummaryLength + 3
    ensures TruthyOpt(message) ==>
              var kept := if |message.value| <= SummaryLength then |message.value| else SummaryLength;
              kept <= |ErrorSummary(message)| && ErrorSummary(message)[..kept] <= message.value
  {
  }

  /**
   * `getFormattedResponseTime` on its integer branches: `N/A` for a null or
   * zero time, `<n>ms` below one second. `None` stands for the seconds
   * branch, `round($ms / 1000, 2) . 's'`, which works on floats and is not
   * part of this model.
   */
  function FormattedResponseTime(ms: Option<int>): (r: Option<string>)
    ensures r.None? <==> ms.Some? && ms.value >= 1000
    ensures ms.None? || ms.value == 0 ==> r == Some("N/A")
  {
    if ms.None? || ms.value == 0 then Some("N/A")
    else if ms.value < 1000 then Some(IntToString(ms.value) + "ms")
    else None
  }

  /** Below one second a positive time is printed as its decimal digits followed by `ms`, and those digits read back as the time. */
  lemma MillisecondsRoundTrip(ms: int)
    requires 1 <= ms < 1000
    ensures var r := FormattedResponseTime(Some(ms));
            r.Some? && |r.value| >= 3 && r.value[|r.value| - 2..] == "ms"
            && (forall k :: 0 <= k < |r.value| - 2 ==> IsDigit(r.value[k]))
            && r.value[0] != '0'
            && DigitsValue(r.value[..|r.value| - 2]) == ms
            && r.value != "N/A"
  {
    var r := FormattedResponseTime(Some(ms)).value;
    assert r == NatToString(ms) + "ms";
    assert r[..|r| - 2] == NatToString(ms);
    NatToStringValue(ms);
  }
}
