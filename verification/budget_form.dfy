/** The budget dialog (`AddBudgetModal`): three checks in order, the first
    failure shown as a toast with the form kept; success resets and closes. */
module BudgetForm {
  import opened Results
  import opened Forms

  datatype Budget = Budget(
    category: string,
    allocation: Amount,
    period: string,
    startDate: string,
    endDate: string,
    description: string,
    alertThreshold: string)

  datatype BudgetError = MissingRequired | NonPositiveAmount | EndNotAfterStart

  /** The form the dialog opens with and returns to: empty, threshold "80". */
  const InitialBudget: Budget := Budget("", Blank, "", "", "", "", "80")

  predicate MissingFields(b: Budget) {
    |b.category| == 0 || b.allocation.Blank? || |b.period| == 0
  }

  /** Only checked when both dates are filled in: ISO dates compare as text. */
  predicate DatesOutOfOrder(b: Budget) {
    |b.startDate| > 0 && |b.endDate| > 0 && !LexLess(b.startDate, b.endDate)
  }

  /** What an acceptable budget is, independently of the order of the checks. */
  predicate ValidBudget(b: Budget) {
    && |b.category| > 0 && |b.period| > 0
    && b.allocation.Entered? && b.allocation.value > 0
    && (|b.startDate| == 0 || |b.endDate| == 0 || LexLess(b.startDate, b.endDate))
  }

  /** `handleSubmit`. */
  function SubmitBudget(d: Dialog<Budget>): (r: Submitted<Budget, BudgetError>)
    ensures r.error == Some(MissingRequired) <==> MissingFields(d.form)
    ensures r.error == Some(NonPositiveAmount) <==>
      !MissingFields(d.form) && d.form.allocation.value <= 0
    ensures r.error == Some(EndNotAfterStart) <==>
      !MissingFields(d.form) && d.form.allocation.value > 0 && DatesOutOfOrder(d.form)
    ensures r.error.None? <==> ValidBudget(d.form)
    ensures r.error.Some? ==> r.dialog == d
    ensures r.error.None? ==> r.dialog == Dialog(InitialBudget, false)
  {
    var b := d.form;
    if MissingFields(b) then Reject(d, MissingRequired)
    else if b.allocation.value <= 0 then Reject(d, NonPositiveAmount)
    else if DatesOutOfOrder(b) then Reject(d, EndNotAfterStart)
    else Accept(InitialBudget)
  }

  /** A budget that starts and ends on the same day is refused, and so is one
      whose dates are swapped; leaving either date out skips the check. */
  lemma BudgetDateChecks(d: Dialog<Budget>)
    requires !MissingFields(d.form) && d.form.allocation.value > 0
    ensures |d.form.startDate| > 0 && d.form.startDate == d.form.endDate ==>
      SubmitBudget(d).error == Some(EndNotAfterStart)
    ensures |d.form.startDate| > 0 && |d.form.endDate| > 0 && LexLess(d.form.endDate, d.form.startDate) ==>
      SubmitBudget(d).error == Some(EndNotAfterStart)
    ensures |d.form.startDate| == 0 || |d.form.endDate| == 0 ==> SubmitBudget(d).error.None?
  {
    LexLessStrict(d.form.startDate, d.form.endDate);
    LexLessStrict(d.form.endDate, d.form.startDate);
  }

  /** Right after a success the form is blank again, so pressing submit once
      more is refused for missing fields instead of creating a second budget. */
  lemma NoDoubleSubmit(d: Dialog<Budget>)
    requires SubmitBudget(d).error.None?
    ensures SubmitBudget(SubmitBudget(d).dialog).error == Some(MissingRequired)
  {
  }
}
