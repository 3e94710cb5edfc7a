/** The transaction dialog (`AddTransactionModal`): required fields, then a
    positive amount; success resets the form to today's date and closes. */
module TransactionForm {
  import opened Results
  import opened Forms

  datatype TxForm = TxForm(
    date: string,
    description: string,
    account: string,
    txType: string,
    amount: Amount,
    reference: string,
    notes: string)

  datatype TxFormError = MissingRequired | NonPositiveAmount

  /** The form the dialog opens with: today's date, every other field empty. */
  function InitialTxForm(today: string): TxForm {
    TxForm(today, "", "", "", Blank, "", "")
  }

  predicate MissingFields(f: TxForm) {
    |f.description| == 0 || |f.account| == 0 || |f.txType| == 0 || f.amount.Blank?
  }

  predicate ValidTxForm(f: TxForm) {
    |f.description| > 0 && |f.account| > 0 && |f.txType| > 0 && f.amount.Entered? && f.amount.value > 0
  }

  /** `handleSubmit`; `today` is the date the reset form gets. */
  function SubmitTx(d: Dialog<TxForm>, today: string): (r: Submitted<TxForm, TxFormError>)
    ensures r.error == Some(MissingRequired) <==> MissingFields(d.form)
    ensures r.error == Some(NonPositiveAmount) <==> !MissingFields(d.form) && d.form.amount.value <= 0
    ensures r.error.None? <==> ValidTxForm(d.form)
    ensures r.error.Some? ==> r.dialog == d
    ensures r.error.None? ==> !r.dialog.open && r.dialog.form.date == today && r.dialog.form == InitialTxForm(today)
  {
    var f := d.form;
    if MissingFields(f) then Reject(d, MissingRequired)
    else if f.amount.value <= 0 then Reject(d, NonPositiveAmount)
    else Accept(InitialTxForm(today))
  }

  /** Reference and notes are optional: whatever they hold, the outcome of a
      submit is the same. */
  lemma OptionalFieldsIgnored(d: Dialog<TxForm>, today: string, reference: string, notes: string)
    ensures SubmitTx(Dialog(d.form.(reference := reference, notes := notes), d.open), today).error
         == SubmitTx(d, today).error
  {
  }

  /** The reset form cannot be submitted again as it stands. */
  lemma NoDoubleSubmit(d: Dialog<TxForm>, today: string, later: string)
    requires SubmitTx(d, today).error.None?
    ensures SubmitTx(SubmitTx(d, today).dialog, later).error == Some(MissingRequired)
  {
  }
}
