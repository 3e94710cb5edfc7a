/** The chart-of-accounts dialog (`AddAccountModal`): a category list per
    account type, a type change that clears the category, and a
    required-field check on submit. */
module AccountForm {
  import opened Seqs
  import opened Results
  import opened Forms

  datatype Account = Account(code: string, name: string, accountType: string, category: string, initialBalance: string)

  datatype Field = Code | Name | AccountType | Category | InitialBalance

  datatype AccountError = MissingRequired

  const EmptyAccount: Account := Account("", "", "", "", "")

  const AccountTypes: seq<string> := ["Asset", "Liability", "Equity", "Revenue", "Expense"]

  /** `categories[type]`, absent for anything but the five types. */
  function CategoriesFor(accountType: string): Option<seq<string>> {
    if accountType == "Asset" then Some(["Current Assets", "Fixed Assets", "Other Assets"])
    else if accountType == "Liability" then Some(["Current Liabilities", "Long-term Liabilities"])
    else if accountType == "Equity" then Some(["Owner's Equity", "Retained Earnings"])
    else if accountType == "Revenue" then Some(["Operating Revenue", "Other Revenue"])
    else if accountType == "Expense" then Some(["Operating Expenses", "Other Expenses"])
    else None
  }

  /** The options the category select offers: none while no type is chosen. */
  function OfferedCategories(accountType: string): (cs: seq<string>)
    ensures |accountType| == 0 ==> cs == []
    ensures CategoriesFor(accountType).Some? ==> cs == CategoriesFor(accountType).value
  {
    if |accountType| > 0 && CategoriesFor(accountType).Some? then CategoriesFor(accountType).value else []
  }

  /** Every type has categories, and no category belongs to two types. */
  lemma CategoryListsPartition()
    ensures forall t :: t in AccountTypes <==> CategoriesFor(t).Some?
    ensures forall t :: t in AccountTypes ==> |OfferedCategories(t)| > 0
    ensures forall i, j, c :: 0 <= i < j < |AccountTypes| && c in OfferedCategories(AccountTypes[i])
              ==> c !in OfferedCategories(AccountTypes[j])
  {
  }

  /** `handleInputChange`: set one field; setting the type also clears the category. */
  function SetField(a: Account, field: Field, value: string): (r: Account)
    ensures field == AccountType ==> r == a.(accountType := value, category := "")
    ensures field != AccountType ==> r.accountType == a.accountType
    ensures field == Category ==> r.category == value
    ensures field != Category && field != AccountType ==> r.category == a.category
    ensures field == Code ==> r == a.(code := value)
    ensures field == Name ==> r == a.(name := value)
    ensures field == Category ==> r == a.(category := value)
    ensures field == InitialBalance ==> r == a.(initialBalance := value)
  {
    match field
    case Code => a.(code := value)
    case Name => a.(name := value)
    case AccountType => a.(accountType := value, category := "")
    case Category => a.(category := value)
    case InitialBalance => a.(initialBalance := value)
  }

  /** The category is empty or one of the current type's categories. */
  predicate Consistent(a: Account) {
    |a.category| == 0 || a.category in OfferedCategories(a.accountType)
  }

  /** As long as a category is only ever picked from the offered options,
      every edit keeps the form consistent; in particular a type change
      never leaves a category of another type behind. */
  lemma SetFieldKeepsConsistent(a: Account, field: Field, value: string)
    requires Consistent(a)
    requires field == Category ==> value in OfferedCategories(a.accountType)
    ensures Consistent(SetField(a, field, value))
  {
  }

  predicate MissingFields(a: Account) {
    |a.code| == 0 || |a.name| == 0 || |a.accountType| == 0 || |a.category| == 0
  }

  /** `handleSubmit`: refuse with a missing field, else reset and close.
      The opening balance is optional. */
  function SubmitAccount(d: Dialog<Account>): (r: Submitted<Account, AccountError>)
    ensures r.error.Some? <==> MissingFields(d.form)
    ensures r.error.Some? ==> r.dialog == d
    ensures r.error.None? ==> r.dialog == Dialog(EmptyAccount, false)
  {
    if MissingFields(d.form) then Reject(d, MissingRequired) else Accept(EmptyAccount)
  }

  /** Whether an opening balance was typed never changes the outcome. */
  lemma OpeningBalanceOptional(d: Dialog<Account>, balance: string)
    ensures SubmitAccount(Dialog(d.form.(initialBalance := balance), d.open)).error == SubmitAccount(d).error
  {
  }

  /** A consistent form that passes the check names a category of its type. */
  lemma AcceptedAccountIsClassified(d: Dialog<Account>)
    requires Consistent(d.form)
    requires SubmitAccount(d).error.None?
    ensures d.form.accountType in AccountTypes
    ensures d.form.category in OfferedCategories(d.form.accountType)
  {
  }
}
