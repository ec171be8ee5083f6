/** Who may write a row that another source owns (mlflow_oidc_auth/ownership.py). */
module Ownership {
  import opened Wrappers
  import opened Text

  const MANUAL := "manual"

  datatype Enforcement = Off | Report | Enforce

  datatype Decision = Decision(allowed: bool, conflict: bool, owner: Option<string>)

  /** An owner or writer that is missing or empty counts as `manual`. */
  function OrManual(source: Option<string>): (r: string) {
    if source.None? || source.value == "" then MANUAL else source.value
  }

  function ParseEnforcement(value: Option<string>): (r: Enforcement) {
    if value.None? then Report
    else
      var v := Lower(Strip(value.value));
      if v == "off" then Off else if v == "enforce" then Enforce else Report
  }

  function EvaluateWrite(currentOwner: Option<string>, writer: Option<string>, mode: Enforcement, adminOverride: bool): (r: Decision) {
    var w := OrManual(writer);
    var o := OrManual(currentOwner);
    if o == w || o == MANUAL then Decision(true, false, None)
    else if adminOverride then Decision(true, true, Some(o))
    else
      match mode
      case Enforce => Decision(false, true, Some(o))
      case Off => Decision(true, false, None)
      case Report => Decision(true, true, Some(o))
  }

  /** What report mode records without refusing is what enforce mode refuses, one write at a time. */
  lemma ReportRecordsWhatEnforceRefuses(currentOwner: Option<string>, writer: Option<string>)
    ensures EvaluateWrite(currentOwner, writer, Report, false).conflict <==> !EvaluateWrite(currentOwner, writer, Enforce, false).allowed
  {
  }
}
