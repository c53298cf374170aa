/** The verdict after a renewal attempt. Both scripts pick exactly one of three
    outcomes, first match wins; they differ in the capacity threshold (108 h
    against 120 h), in the limit marker ("5 d" against "5 días") and in whether
    the API's success flag is consulted. */
module Outcome {
  import opened Optional
  import opened Text

  datatype Verdict = RenewSuccess | MaxedOut | RenewFailed

  const PyThreshold: nat := 108
  const JsThreshold: nat := 120

  /** `calculate_hours(...) or before_h`: an after-count of 0 (unreadable or
      already expired) falls back to the before-count. */
  function AfterOrBefore(after: nat, before: nat): (r: nat)
    ensures r == 0 ==> before == 0
    ensures r == after || r == before
    ensures after > 0 ==> r == after
  {
    if after == 0 then before else after
  }

  /** The if/elif/else chain of greathost.py:167-188. `message` is
      `str(renew_res.get('message', ''))`. */
  function PyVerdict(success: bool, message: string, before: nat, after: nat): (v: Verdict)
    ensures v == RenewSuccess <==> success && after > before
    ensures v == MaxedOut <==> !(success && after > before) && (Contains(message, "5 d") || before >= PyThreshold)
    ensures v == RenewFailed <==> !(success && after > before) && !Contains(message, "5 d") && before < PyThreshold
  {
    if success && after > before then RenewSuccess
    else if Contains(message, "5 d") || before >= PyThreshold then MaxedOut
    else RenewFailed
  }

  /** `errorMsg.includes('5 días') || beforeHours >= 120` (greathost.js:159);
      an unreadable error box reads as empty text. */
  function IsMaxedOut(errorText: Option<string>, before: nat): (b: bool)
    ensures before >= JsThreshold ==> b
    // below the threshold only the marker in a readable toast decides
    ensures before < JsThreshold ==> (b <==> errorText.Some? && Contains(errorText.value, "5 días"))
    // an unreadable toast leaves only the threshold
    ensures errorText.None? ==> (b <==> before >= JsThreshold)
  {
    MissingFirstChar("", "5 días");
    Contains(errorText.GetOr(""), "5 días") || before >= JsThreshold
  }

  /** The three-way branch of greathost.js:175-203: no success flag. */
  function JsVerdict(errorText: Option<string>, before: nat, after: nat): (v: Verdict)
    ensures v == RenewSuccess <==> after > before
    ensures v == MaxedOut <==> after <= before && IsMaxedOut(errorText, before)
    ensures v == RenewFailed <==> after <= before && !IsMaxedOut(errorText, before)
  {
    if after > before then RenewSuccess
    else if IsMaxedOut(errorText, before) then MaxedOut
    else RenewFailed
  }

  // ---------------------------------------------------------------------------
  // Properties

  /** Without an hour increase, a toast naming the limit means maxed out,
      whatever the hours. */
  lemma JsMarkerIsMaxed(text: string, before: nat, after: nat)
    requires Contains(text, "5 días") && after <= before
    ensures JsVerdict(Some(text), before, after) == MaxedOut
  {
    assert IsMaxedOut(Some(text), before);
  }

  /** Below 120 h, without an increase and without the marker, the run failed. */
  lemma JsNoMarkerFails(text: string, before: nat, after: nat)
    requires !Contains(text, "5 días") && after <= before < JsThreshold
    ensures JsVerdict(Some(text), before, after) == RenewFailed
  {
    assert !IsMaxedOut(Some(text), before);
  }

  /** When the after-date cannot be read, the fallback makes the hours look
      unchanged, so greathost.py never reports success for such a run. */
  lemma UnreadableAfterIsNeverSuccess(success: bool, message: string, before: nat)
    ensures PyVerdict(success, message, before, AfterOrBefore(0, before)) != RenewSuccess
  {
  }

  /** An empty error box and no hour increase: below 120 h the JavaScript variant
      reports a failure, from 120 h on it reports the limit. */
  lemma JsEmptyErrorBox(before: nat, after: nat)
    requires after <= before
    ensures JsVerdict(None, before, after) == (if before >= JsThreshold then MaxedOut else RenewFailed)
  {
    MissingFirstChar("", "5 días");
  }

  /** The JavaScript limit marker contains the Python one, so whatever the
      JavaScript variant calls maxed out (without an hour increase), the Python
      variant calls maxed out too, whatever the success flag says. */
  lemma JsMaxedImpliesPyMaxed(success: bool, message: string, before: nat, after: nat)
    requires JsVerdict(Some(message), before, after) == MaxedOut
    ensures PyVerdict(success, message, before, after) == MaxedOut
  {
    if Contains(message, "5 días") {
      assert OccursAt("5 días", "5 d", 0);
      ContainsTransitive(message, "5 días", "5 d");
    }
  }

  /** Where the variants disagree: between 108 h and 120 h, with no increase
      and no limit marker, Python reports maxed out and JavaScript a failure. */
  lemma VariantsDisagreeBetweenThresholds(success: bool, message: string, before: nat, after: nat)
    requires PyThreshold <= before < JsThreshold && after <= before
    requires !Contains(message, "5 d")
    ensures PyVerdict(success, message, before, after) == MaxedOut
    ensures JsVerdict(Some(message), before, after) == RenewFailed
  {
    if Contains(message, "5 días") {
      assert OccursAt("5 días", "5 d", 0);
      ContainsTransitive(message, "5 días", "5 d");
    }
  }

  /** Python needs the success flag: an increase reported with `success`
      false is not a success there, though JavaScript would call it one. */
  lemma SuccessNeedsFlagOnlyInPython(message: string, before: nat, after: nat)
    requires after > before
    ensures PyVerdict(false, message, before, after) != RenewSuccess
    ensures JsVerdict(Some(message), before, after) == RenewSuccess
  {
  }

  /** A message of "limit reached" is not a limit marker: at 60 h without an
      increase and without the flag, greathost.py reports a failure. */
  lemma LimitReachedTextIsNotAMarker()
    ensures PyVerdict(false, "limit reached", 60, 60) == RenewFailed
  {
    MissingFirstChar("limit reached", "5 d");
  }
}
