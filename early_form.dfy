/** FormsValidation and newUser as notesForm.js and testForm.js write them (the two files
    agree on every line of this core): validateField reports a message for every catalog
    key whose ValidityState lookup is truthy, with no cross-field rule; manageErrors has
    no guard against a missing error region and toggles no class; onBlur validates only
    required fields; newUser registers without validating first. */
module EarlyForm {
  import opened Catalog
  import opened Dom
  import opened Registration

  /** The kinds validateField reports: `if (errors[errorType])` for each catalog key. */
  function ReportedKinds(s: FieldState): seq<Kind> {
    Collect(CatalogOrder, NativeTruthy(s.native))
  }

  /** The message list validateField builds. */
  function ErrorMessages(s: FieldState): seq<Message> {
    Messages(ReportedKinds(s), s.title, s.minLength, s.maxLength)
  }

  /** The end of a call on a field: its new state, or the TypeError raised by assigning
      `innerHTML` on the `null` that the region query returns when there is no region.
      Nothing was changed before that assignment, so the field keeps its old state. */
  datatype Outcome = Done(state: FieldState) | TypeError

  /** How a method call ended. */
  datatype Completion = Normal | Threw

  /** manageErrors: one span per message; a TypeError without a region. */
  function Shown(s: FieldState, msgs: seq<Message>): Outcome {
    if s.hasErrorRegion then Done(s.(errorSpans := msgs)) else TypeError
  }

  /** validateField: render, then set ariaInvalid; the throw skips the second step. */
  function Validated(s: FieldState): Outcome {
    var msgs := ErrorMessages(s);
    match Shown(s, msgs)
    case TypeError => TypeError
    case Done(t) => Done(t.(ariaInvalid := |msgs| > 0))
  }

  /** onBlur: only a required field inside the form is validated. */
  function Blurred(s: FieldState): Outcome {
    if s.inForm && s.required then Validated(s) else Done(s)
  }

  /** A message for exactly the kinds whose native flag is set, in catalog order; never
      the mismatch message, since ValidityState has no such property. */
  lemma {:induction false} FlagDrivenMessages(s: FieldState)
    ensures forall k :: k in ReportedKinds(s) <==> NativeFlag(s.native, k)
    ensures PasswordMismatch !in ReportedKinds(s)
    ensures StrictlyOrdered(ReportedKinds(s))
    ensures |ErrorMessages(s)| == |ReportedKinds(s)|
    ensures forall i :: 0 <= i < |ReportedKinds(s)| ==> ErrorMessages(s)[i] == MessageFor(ReportedKinds(s)[i], s.title, s.minLength, s.maxLength)
  {
    CatalogCollect(NativeTruthy(s.native));
    MessagesShape(ReportedKinds(s), s.title, s.minLength, s.maxLength);
  }

  /** validateField throws exactly when there is no error region. Otherwise it shows the
      messages and sets ariaInvalid to "there is a message"; it never touches the custom
      validity slot or the is-invalid class. */
  lemma ValidatedSpec(s: FieldState)
    ensures Validated(s).TypeError? <==> !s.hasErrorRegion
    ensures Validated(s).Done? ==>
      var t := Validated(s).state;
      && SameInputs(t, s)
      && t.errorSpans == ErrorMessages(s)
      && (t.ariaInvalid <==> ErrorMessages(s) != [])
      && t.customValidity == s.customValidity
      && t.isInvalid == s.isInvalid
  {
  }

  /** Validating an already validated field changes nothing. */
  lemma ValidateIdempotent(s: FieldState)
    requires Validated(s).Done?
    ensures Validated(Validated(s).state) == Validated(s)
  {
  }

  /** onBlur leaves a field that is optional or outside the form untouched. */
  lemma BlurOnlyRequired(s: FieldState)
    ensures s.inForm && s.required ==> Blurred(s) == Validated(s)
    ensures !(s.inForm && s.required) ==> Blurred(s) == Done(s)
  {
  }

  /** The `Object.entries(...).forEach` loop of validateField. */
  method CollectMessages(errors: ValidityState, title: string, minLength: int, maxLength: int)
    returns (errorMessages: seq<Message>)
    ensures errorMessages == Messages(Collect(CatalogOrder, NativeTruthy(errors.native)), title, minLength, maxLength)
  {
    ghost var truthy := NativeTruthy(errors.native);
    errorMessages := [];
    for i := 0 to |CatalogOrder|
      invariant errorMessages == Messages(Collect(CatalogOrder[..i], truthy), title, minLength, maxLength)
    {
      var errorType := CatalogOrder[i];
      ghost var kept := Collect(CatalogOrder[..i], truthy);
      assert CatalogOrder[..i + 1] == CatalogOrder[..i] + [errorType];
      CollectSnoc(CatalogOrder[..i], errorType, truthy);
      if NativeFlag(errors.native, errorType) {
        errorMessages := errorMessages + [MessageFor(errorType, title, minLength, maxLength)];
        MessagesSnoc(kept, errorType, title, minLength, maxLength);
      }
    }
    assert CatalogOrder[..|CatalogOrder|] == CatalogOrder;
  }

  method ManageErrors(field: Field, errorMessages: seq<Message>) returns (c: Completion)
    modifies field
    ensures c == Threw <==> Shown(old(field.State()), errorMessages).TypeError?
    ensures c == Threw ==> field.State() == old(field.State())
    ensures c == Normal ==> Shown(old(field.State()), errorMessages) == Done(field.State())
  {
    if !field.hasErrorRegion {
      return Threw;
    }
    field.errorSpans := errorMessages;
    c := Normal;
  }

  method ValidateField(field: Field) returns (c: Completion)
    modifies field
    ensures c == Threw <==> Validated(old(field.State())).TypeError?
    ensures c == Threw ==> field.State() == old(field.State())
    ensures c == Normal ==> Validated(old(field.State())) == Done(field.State())
  {
    var errors := field.State().Validity();
    var errorMessages := CollectMessages(errors, field.title, field.minLength, field.maxLength);
    c := ManageErrors(field, errorMessages);
    if c == Threw {
      return;
    }
    field.ariaInvalid := |errorMessages| > 0;
  }

  method OnBlur(target: Field) returns (c: Completion)
    modifies target
    ensures c == Threw <==> Blurred(old(target.State())).TypeError?
    ensures c == Threw ==> target.State() == old(target.State())
    ensures c == Normal ==> Blurred(old(target.State())) == Done(target.State())
  {
    c := Normal;
    if target.inForm && target.required {
      c := ValidateField(target);
    }
  }

  /** newUser: register the #email and #password values, with no validation first. */
  method NewUser(emailInput: Field, passwordInput: Field, store: UserStore) returns (outcome: SubmitOutcome)
    modifies store
    ensures outcome != InvalidForm
    ensures outcome == DuplicateEmail <==> EmailTaken(old(store.Users()), emailInput.value)
    ensures outcome == DuplicateEmail ==> store.registeredUsers == old(store.registeredUsers)
    ensures outcome == Registered ==> store.registeredUsers == Register(old(store.Users()), User(emailInput.value, passwordInput.value))
  {
    var newUser := User(emailInput.value, passwordInput.value);
    outcome := store.AddUser(newUser);
  }
}
