/** What the three entry dialogs share: a form inside an open or closed
    dialog, the outcome of pressing submit, and amounts as typed. */
module Forms {
  import opened Results

  /** An amount field: left empty, or holding the number it parses to. */
  datatype Amount = Blank | Entered(value: int)

  datatype Dialog<F> = Dialog(form: F, open: bool)

  /** After a submit: the dialog as it now stands, and the validation
      message shown, if any. */
  datatype Submitted<F, E> = Submitted(dialog: Dialog<F>, error: Option<E>)

  /** A rejection shows the message and leaves the dialog exactly as it was. */
  function Reject<F, E>(d: Dialog<F>, e: E): Submitted<F, E> {
    Submitted(d, Some(e))
  }

  /** An acceptance resets the form and closes the dialog. */
  function Accept<F, E>(reset: F): Submitted<F, E> {
    Submitted(Dialog(reset, false), None)
  }

  /** `a < b` on strings: code-point lexicographic order, a proper prefix first. */
  predicate LexLess(a: string, b: string)
    decreases |a|
  {
    && |b| > 0
    && (|a| == 0 || a[0] < b[0] || (a[0] == b[0] && LexLess(a[1..], b[1..])))
  }

  /** The order is strict: no string is before itself, and of two strings at
      most one comes first. */
  lemma {:induction false} LexLessStrict(a: string, b: string)
    ensures !LexLess(a, a)
    ensures LexLess(a, b) ==> !LexLess(b, a)
    decreases |a|
  {
    if |a| > 0 {
      LexLessStrict(a[1..], a[1..]);
      if |b| > 0 {
        LexLessStrict(a[1..], b[1..]);
      }
    }
  }

  /** Two different strings are ordered one way or the other. */
  lemma {:induction false} LexLessTotal(a: string, b: string)
    requires a != b
    ensures LexLess(a, b) || LexLess(b, a)
    decreases |a|
  {
    if |a| > 0 && |b| > 0 && a[0] == b[0] {
      assert a == [a[0]] + a[1..] && b == [b[0]] + b[1..];
      LexLessTotal(a[1..], b[1..]);
    }
  }
}
