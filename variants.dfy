/** How the complete variant (main.js) and the earlier ones (notesForm.js, testForm.js)
    differ on the message list. */
module Variants {
  import opened Catalog
  import opened Dom
  import MainForm
  import EarlyForm

  /** Where the cross-field rule does not fire, both variants build the same list. */
  lemma {:induction false} SameMessagesWithoutMismatch(s: FieldState, password: string, repeat: string)
    requires !MainForm.PasswordsDiffer(s.id, password, repeat)
    ensures MainForm.ErrorMessages(s, password, repeat) == EarlyForm.ErrorMessages(s)
  {
    var p := MainForm.Primed(s, password, repeat);
    assert MainForm.Truthy(p.Validity(), p.ValidationMessage()) == NativeTruthy(s.native);
  }

  /** Where it fires, only main.js reports the mismatch. */
  lemma {:induction false} OnlyMainReportsMismatch(s: FieldState, password: string, repeat: string)
    requires MainForm.PasswordsDiffer(s.id, password, repeat)
    ensures PasswordMismatch in MainForm.ReportedKinds(s, password, repeat)
    ensures PasswordMismatch !in EarlyForm.ReportedKinds(s)
  {
    MainForm.MismatchReportedIff(s, password, repeat);
    EarlyForm.FlagDrivenMessages(s);
  }
}
