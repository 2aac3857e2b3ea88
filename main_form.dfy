/** FormsValidation and newUser as main.js writes them: validateField clears the custom
    validity slot, sets the password-mismatch sentinel on the repeat-password field,
    collects the catalog messages and renders them; onBlur picks what to validate;
    validateAllFormFields folds validity over the form; newUser registers only a valid form. */
module MainForm {
  import opened Catalog
  import opened Dom
  import opened Registration

  /** The string validateField stores in the custom-validity slot to flag a mismatch. */
  const MismatchSentinel := "passwordMismatch"

  /** The cross-field rule: the repeat-password field, both passwords given, and different. */
  predicate PasswordsDiffer(id: string, password: string, repeat: string) {
    id == RepeatPasswordId && password != "" && repeat != "" && password != repeat
  }

  /** The custom-validity slot after validateField's first step: cleared, then the
      sentinel exactly when the cross-field rule fires. */
  function CustomValidityFor(id: string, password: string, repeat: string): string {
    if PasswordsDiffer(id, password, repeat) then MismatchSentinel else ""
  }

  /** The catalog kinds whose check holds: a native kind when its flag is `true`;
      passwordMismatch when `customError` is set and `validationMessage` is the sentinel. */
  function Truthy(v: ValidityState, validationMessage: string): set<Kind> {
    NativeTruthy(v.native)
    + (if v.customError && validationMessage == MismatchSentinel then {PasswordMismatch} else {})
  }

  /** The field as validateField reads it, once the slot is set. `password` and `repeat`
      are the values of the #password and #repeatPassword inputs. */
  function Primed(s: FieldState, password: string, repeat: string): FieldState {
    s.(customValidity := CustomValidityFor(s.id, password, repeat))
  }

  /** The kinds validateField reports, in the order it reports them. */
  function ReportedKinds(s: FieldState, password: string, repeat: string): seq<Kind> {
    var p := Primed(s, password, repeat);
    Collect(CatalogOrder, Truthy(p.Validity(), p.ValidationMessage()))
  }

  /** The message list validateField builds. */
  function ErrorMessages(s: FieldState, password: string, repeat: string): seq<Message> {
    Messages(ReportedKinds(s, password, repeat), s.title, s.minLength, s.maxLength)
  }

  /** manageErrors: nothing without an error region; otherwise one span per message and
      the is-invalid class exactly when there is a message. */
  function Shown(s: FieldState, msgs: seq<Message>): FieldState {
    if !s.hasErrorRegion then s else s.(errorSpans := msgs, isInvalid := |msgs| > 0)
  }

  /** validateField: the field after one call. */
  function Validated(s: FieldState, password: string, repeat: string): (r: FieldState)
    ensures SameInputs(r, s)
  {
    var msgs := ErrorMessages(s, password, repeat);
    Shown(Primed(s, password, repeat), msgs).(ariaInvalid := |msgs| > 0)
  }

  /** onBlur, as it affects the blurred field itself. */
  function Blurred(s: FieldState, password: string, repeat: string): FieldState {
    if s.inForm && (s.required || s.value != "") then Validated(s, password, repeat)
    else if s.inForm && s.value == "" then Shown(s, [])
    else s
  }

  /** validateAllFormFields: every control validated. */
  function ValidatedAll(ss: seq<FieldState>, password: string, repeat: string): (rs: seq<FieldState>)
    ensures |rs| == |ss|
  {
    seq(|ss|, i requires 0 <= i < |ss| => Validated(ss[i], password, repeat))
  }

  /** The verdict of validateAllFormFields: every control is valid once validated. */
  predicate FormValid(ss: seq<FieldState>, password: string, repeat: string) {
    forall i :: 0 <= i < |ss| ==> Validated(ss[i], password, repeat).Validity().Valid()
  }

  /** The mismatch message is reported exactly when the cross-field rule fires. */
  lemma {:induction false} MismatchReportedIff(s: FieldState, password: string, repeat: string)
    ensures PasswordMismatch in ReportedKinds(s, password, repeat) <==> PasswordsDiffer(s.id, password, repeat)
  {
    var p := Primed(s, password, repeat);
    CollectMembers(CatalogOrder, Truthy(p.Validity(), p.ValidationMessage()), PasswordMismatch);
    assert CatalogOrder[4] == PasswordMismatch;
  }

  /** A native kind is reported exactly when its flag is set; `customError` alone reports
      nothing. */
  lemma {:induction false} NativeReportedIff(s: FieldState, password: string, repeat: string, k: Kind)
    requires k != PasswordMismatch
    ensures k in ReportedKinds(s, password, repeat) <==> NativeFlag(s.native, k)
  {
    var p := Primed(s, password, repeat);
    CollectMembers(CatalogOrder, Truthy(p.Validity(), p.ValidationMessage()), k);
    assert CatalogOrder[Rank(k)] == k;
  }

  /** Messages come in catalog order, at most one per kind, one per reported kind; and
      this determines the list. */
  lemma {:induction false} MessagesInCatalogOrder(s: FieldState, password: string, repeat: string)
    ensures StrictlyOrdered(ReportedKinds(s, password, repeat))
    ensures |ErrorMessages(s, password, repeat)| == |ReportedKinds(s, password, repeat)|
    ensures forall i :: 0 <= i < |ReportedKinds(s, password, repeat)| ==>
      ErrorMessages(s, password, repeat)[i] == MessageFor(ReportedKinds(s, password, repeat)[i], s.title, s.minLength, s.maxLength)
    ensures forall ks ::
      (StrictlyOrdered(ks)
       && (forall k :: k in ks <==> (if k == PasswordMismatch then PasswordsDiffer(s.id, password, repeat) else NativeFlag(s.native, k))))
      ==> ks == ReportedKinds(s, password, repeat)
  {
    var p := Primed(s, password, repeat);
    var truthy := Truthy(p.Validity(), p.ValidationMessage());
    CatalogCollect(truthy);
    MessagesShape(ReportedKinds(s, password, repeat), s.title, s.minLength, s.maxLength);
    forall k ensures k in truthy <==> (if k == PasswordMismatch then PasswordsDiffer(s.id, password, repeat) else NativeFlag(s.native, k)) {
      if k == PasswordMismatch { MismatchReportedIff(s, password, repeat); } else { NativeReportedIff(s, password, repeat, k); }
    }
  }

  /** No residue: the slot is reset before anything reads it, so what was in it before
      makes no difference, and afterwards it holds the sentinel only under a mismatch. */
  lemma NoResidue(s: FieldState, password: string, repeat: string, stale: string)
    ensures Validated(s.(customValidity := stale), password, repeat) == Validated(s, password, repeat)
    ensures Validated(s, password, repeat).customValidity == (if PasswordsDiffer(s.id, password, repeat) then MismatchSentinel else "")
  {
  }

  /** Validating twice gives the state of validating once. */
  lemma ValidateIdempotent(s: FieldState, password: string, repeat: string)
    ensures Validated(Validated(s, password, repeat), password, repeat) == Validated(s, password, repeat)
  {
    var r := Validated(s, password, repeat);
    assert ErrorMessages(r, password, repeat) == ErrorMessages(s, password, repeat) by {
      assert Primed(r, password, repeat).Validity() == Primed(s, password, repeat).Validity();
    }
  }

  /** manageErrors with a region: one span per message, in order, is-invalid iff there is
      a message; without a region: nothing changes. Either way a second call changes nothing. */
  lemma ShownSpec(s: FieldState, msgs: seq<Message>)
    ensures s.hasErrorRegion ==> Shown(s, msgs).errorSpans == msgs && (Shown(s, msgs).isInvalid <==> msgs != [])
    ensures !s.hasErrorRegion ==> Shown(s, msgs) == s
    ensures Shown(s, msgs).customValidity == s.customValidity && Shown(s, msgs).ariaInvalid == s.ariaInvalid
    ensures SameInputs(Shown(s, msgs), s)
    ensures Shown(Shown(s, msgs), msgs) == Shown(s, msgs)
  {
  }

  /** Without an error region validateField still sets the slot and ariaInvalid, and
      nothing else. */
  lemma ValidateWithoutRegion(s: FieldState, password: string, repeat: string)
    requires !s.hasErrorRegion
    ensures Validated(s, password, repeat) ==
      s.(customValidity := CustomValidityFor(s.id, password, repeat),
         ariaInvalid := ErrorMessages(s, password, repeat) != [])
  {
  }

  /** After validateField, ariaInvalid, and with a region the is-invalid class and the
      spans, all say whether there is a message. */
  lemma ValidateMarks(s: FieldState, password: string, repeat: string)
    ensures Validated(s, password, repeat).ariaInvalid <==> ErrorMessages(s, password, repeat) != []
    ensures s.hasErrorRegion ==>
      Validated(s, password, repeat).errorSpans == ErrorMessages(s, password, repeat)
      && (Validated(s, password, repeat).isInvalid <==> ErrorMessages(s, password, repeat) != [])
  {
  }

  /** A field is valid after validateField exactly when no native flag is set and the
      cross-field rule does not fire. */
  lemma ValidAfterIff(s: FieldState, password: string, repeat: string)
    ensures Validated(s, password, repeat).Validity().Valid() <==>
      !s.native.valueMissing && !s.native.patternMismatch && !s.native.tooShort && !s.native.tooLong
      && !s.native.otherMismatch && !PasswordsDiffer(s.id, password, repeat)
  {
  }

  /** Blurring an empty optional field only clears its messages and is-invalid class:
      ariaInvalid and the custom-validity slot stay as they were. */
  lemma BlurClearsEmptyOptional(s: FieldState, password: string, repeat: string)
    requires s.inForm && !s.required && s.value == ""
    ensures Blurred(s, password, repeat) == Shown(s, [])
    ensures Blurred(s, password, repeat).ariaInvalid == s.ariaInvalid
    ensures Blurred(s, password, repeat).customValidity == s.customValidity
    ensures s.hasErrorRegion ==> Blurred(s, password, repeat).errorSpans == [] && !Blurred(s, password, repeat).isInvalid
  {
  }

  /** Blurring a field that is required or filled in validates it; a field outside the
      form is left alone. main.js listens on the form itself, so there every blur target
      is inside the form and the second case is never reached. */
  lemma BlurValidates(s: FieldState, password: string, repeat: string)
    ensures s.inForm && (s.required || s.value != "") ==> Blurred(s, password, repeat) == Validated(s, password, repeat)
    ensures !s.inForm ==> Blurred(s, password, repeat) == s
  {
  }

  /** Once the passwords agree, validating the repeat field (as blurring #password does)
      clears a stale mismatch: no mismatch message, and the slot is empty. */
  lemma {:induction false} MatchingPasswordsClearMismatch(s: FieldState, password: string)
    requires s.id == RepeatPasswordId && s.customValidity == MismatchSentinel
    ensures PasswordMismatch !in ReportedKinds(s, password, password)
    ensures Validated(s, password, password).customValidity == ""
  {
    MismatchReportedIff(s, password, password);
  }

  /** The passwords "abc123" and "abc124" with no native violation: exactly the mismatch
      message; with the repeat corrected to "abc123": no message at all. */
  lemma MismatchScenario(s: FieldState)
    requires s.id == RepeatPasswordId && s.native == NativeFlags(false, false, false, false, false)
    ensures ErrorMessages(s, "abc123", "abc124") == [Literal(PasswordMismatchText)]
    ensures ErrorMessages(Validated(s, "abc123", "abc124"), "abc123", "abc123") == []
  {
    assert "abc123"[5] != "abc124"[5];
    MessagesInCatalogOrder(s, "abc123", "abc124");
    var ks := ReportedKinds(s, "abc123", "abc124");
    assert ks == [PasswordMismatch] by {
      MismatchReportedIff(s, "abc123", "abc124");
      forall k ensures k in ks <==> k in [PasswordMismatch] {
        if k != PasswordMismatch { NativeReportedIff(s, "abc123", "abc124", k); }
      }
      OrderedByMembers(ks, [PasswordMismatch]);
    }
    var t := Validated(s, "abc123", "abc123");
    var ks2 := ReportedKinds(Validated(s, "abc123", "abc124"), "abc123", "abc123");
    MismatchReportedIff(Validated(s, "abc123", "abc124"), "abc123", "abc123");
    forall k ensures k !in ks2 {
      if k != PasswordMismatch { NativeReportedIff(Validated(s, "abc123", "abc124"), "abc123", "abc123", k); }
    }
    assert ks2 == [] by { FirstIsMember(ks2); }
  }

  /** A valid form shows no message on any control; a control with a missing value makes
      the form invalid. */
  lemma {:induction false} FormValidVerdict(ss: seq<FieldState>, password: string, repeat: string)
    ensures FormValid(ss, password, repeat) ==> forall i :: 0 <= i < |ss| ==> ErrorMessages(ss[i], password, repeat) == []
    ensures (exists i :: 0 <= i < |ss| && ss[i].native.valueMissing) ==> !FormValid(ss, password, repeat)
    ensures FormValid(ss, password, repeat) <==> forall i :: 0 <= i < |ss| ==> ValidatedAll(ss, password, repeat)[i].Validity().Valid()
  {
    if FormValid(ss, password, repeat) {
      forall i | 0 <= i < |ss| ensures ErrorMessages(ss[i], password, repeat) == [] {
        var ks := ReportedKinds(ss[i], password, repeat);
        ValidAfterIff(ss[i], password, repeat);
        MismatchReportedIff(ss[i], password, repeat);
        forall k ensures k !in ks {
          if k != PasswordMismatch { NativeReportedIff(ss[i], password, repeat, k); }
        }
        FirstIsMember(ks);
        MessagesShape(ks, ss[i].title, ss[i].minLength, ss[i].maxLength);
      }
    }
    if i :| 0 <= i < |ss| && ss[i].native.valueMissing {
      ValidAfterIff(ss[i], password, repeat);
    }
    assert forall i :: 0 <= i < |ss| ==> ValidatedAll(ss, password, repeat)[i] == Validated(ss[i], password, repeat);
  }

  /** A control whose only violation has no catalog key (say a typeMismatch) shows no
      message and still blocks the submission. */
  lemma {:induction false} SilentlyInvalid(s: FieldState, password: string, repeat: string)
    requires s.native == NativeFlags(false, false, false, false, true) && !PasswordsDiffer(s.id, password, repeat)
    ensures ErrorMessages(s, password, repeat) == []
    ensures !FormValid([s], password, repeat)
  {
    var ks := ReportedKinds(s, password, repeat);
    MismatchReportedIff(s, password, repeat);
    forall k ensures k !in ks {
      if k != PasswordMismatch { NativeReportedIff(s, password, repeat, k); }
    }
    FirstIsMember(ks);
    assert [s][0] == s;
  }

  /** The loop of validateField over the catalog keys. */
  method CollectMessages(errors: ValidityState, validationMessage: string, title: string, minLength: int, maxLength: int)
    returns (errorMessages: seq<Message>)
    ensures errorMessages == Messages(Collect(CatalogOrder, Truthy(errors, validationMessage)), title, minLength, maxLength)
  {
    ghost var truthy := Truthy(errors, validationMessage);
    errorMessages := [];
    for i := 0 to |CatalogOrder|
      invariant errorMessages == Messages(Collect(CatalogOrder[..i], truthy), title, minLength, maxLength)
    {
      var errorType := CatalogOrder[i];
      ghost var kept := Collect(CatalogOrder[..i], truthy);
      assert CatalogOrder[..i + 1] == CatalogOrder[..i] + [errorType];
      CollectSnoc(CatalogOrder[..i], errorType, truthy);
      if errorType == PasswordMismatch {
        if errors.customError && validationMessage == MismatchSentinel {
          errorMessages := errorMessages + [MessageFor(errorType, title, minLength, maxLength)];
          MessagesSnoc(kept, errorType, title, minLength, maxLength);
        }
      } else if NativeFlag(errors.native, errorType) {
        // main.js's extra `errorType !== 'customError'` test always holds: customError is no catalog key
        errorMessages := errorMessages + [MessageFor(errorType, title, minLength, maxLength)];
        MessagesSnoc(kept, errorType, title, minLength, maxLength);
      }
    }
    assert CatalogOrder[..|CatalogOrder|] == CatalogOrder;
  }

  class FormsValidation {
    /** `form.querySelectorAll('input, select, textarea')`. */
    const controls: seq<Field>
    /** The #password and #repeatPassword inputs. */
    const passwordInput: Field
    const repeatPasswordInput: Field

    predicate Valid() {
      Distinct(controls) && passwordInput.id == PasswordId && repeatPasswordInput.id == RepeatPasswordId
    }

    constructor (controls: seq<Field>, passwordInput: Field, repeatPasswordInput: Field)
      requires Distinct(controls)
      requires passwordInput.id == PasswordId && repeatPasswordInput.id == RepeatPasswordId
      ensures Valid()
      ensures this.controls == controls && this.passwordInput == passwordInput
      ensures this.repeatPasswordInput == repeatPasswordInput
    {
      this.controls := controls;
      this.passwordInput := passwordInput;
      this.repeatPasswordInput := repeatPasswordInput;
    }

    method ManageErrors(field: Field, errorMessages: seq<Message>)
      modifies field
      ensures field.State() == Shown(old(field.State()), errorMessages)
    {
      if !field.hasErrorRegion {
        return;
      }
      field.errorSpans := errorMessages;
      if |errorMessages| > 0 {
        field.isInvalid := true;
      } else {
        field.isInvalid := false;
      }
    }

    method ValidateField(field: Field)
      modifies field
      ensures field.State() == Validated(old(field.State()), old(passwordInput.value), old(repeatPasswordInput.value))
    {
      ghost var s := field.State();
      ghost var password, repeat := passwordInput.value, repeatPasswordInput.value;
      field.customValidity := "";
      if field.id == RepeatPasswordId {
        if passwordInput.value != "" && repeatPasswordInput.value != "" {
          if passwordInput.value != repeatPasswordInput.value {
            field.customValidity := MismatchSentinel;
          }
        }
      }
      assert field.State() == Primed(s, password, repeat);
      var errors := field.State().Validity();
      var errorMessages := CollectMessages(errors, field.State().ValidationMessage(), field.title, field.minLength, field.maxLength);
      ManageErrors(field, errorMessages);
      field.ariaInvalid := |errorMessages| > 0;
    }

    method OnBlur(target: Field)
      requires Valid()
      modifies target, repeatPasswordInput
      ensures target.State() == Blurred(old(target.State()), old(passwordInput.value), old(repeatPasswordInput.value))
      ensures target.id == PasswordId && old(repeatPasswordInput.value) != "" ==>
        repeatPasswordInput.State() == Validated(old(repeatPasswordInput.State()), old(passwordInput.value), old(repeatPasswordInput.value))
      ensures (target.id != PasswordId || old(repeatPasswordInput.value) == "") && target != repeatPasswordInput ==>
        repeatPasswordInput.State() == old(repeatPasswordInput.State())
    {
      if target.inForm && (target.required || target.value != "") {
        ValidateField(target);
      } else if target.inForm && target.value == "" {
        ManageErrors(target, []);
      }
      if target.id == PasswordId {
        if repeatPasswordInput.value != "" {
          ValidateField(repeatPasswordInput);
        }
      }
    }

    method ValidateAllFormFields() returns (formIsValid: bool)
      requires Valid()
      modifies controls
      ensures States(controls) == ValidatedAll(old(States(controls)), old(passwordInput.value), old(repeatPasswordInput.value))
      ensures formIsValid == FormValid(old(States(controls)), old(passwordInput.value), old(repeatPasswordInput.value))
    {
      ghost var before := States(controls);
      ghost var password, repeat := passwordInput.value, repeatPasswordInput.value;
      formIsValid := true;
      for i := 0 to |controls|
        invariant passwordInput.value == password && repeatPasswordInput.value == repeat
        invariant forall j :: 0 <= j < i ==> controls[j].State() == Validated(before[j], password, repeat)
        invariant forall j :: i <= j < |controls| ==> controls[j].State() == before[j]
        invariant formIsValid == (forall j :: 0 <= j < i ==> Validated(before[j], password, repeat).Validity().Valid())
      {
        var field := controls[i];
        ValidateField(field);
        if !field.State().Validity().Valid() {
          formIsValid := false;
        }
      }
      assert States(controls) == ValidatedAll(before, password, repeat);
    }
  }

  /** newUser: validate the whole form, stop if it is invalid, otherwise register the
      email and password of the #email and #password inputs. */
  method NewUser(validator: FormsValidation, emailInput: Field, store: UserStore) returns (outcome: SubmitOutcome)
    requires validator.Valid()
    modifies validator.controls, store
    ensures States(validator.controls) == ValidatedAll(old(States(validator.controls)), old(validator.passwordInput.value), old(validator.repeatPasswordInput.value))
    ensures outcome == InvalidForm <==> !FormValid(old(States(validator.controls)), old(validator.passwordInput.value), old(validator.repeatPasswordInput.value))
    ensures outcome == InvalidForm ==> store.registeredUsers == old(store.registeredUsers)
    ensures outcome != InvalidForm ==>
      var u := User(old(emailInput.value), old(validator.passwordInput.value));
      && (outcome == DuplicateEmail <==> EmailTaken(old(store.Users()), u.email))
      && store.registeredUsers == (if outcome == DuplicateEmail then old(store.registeredUsers) else Register(old(store.Users()), u))
  {
    var isFormValid := validator.ValidateAllFormFields();
    if !isFormValid {
      return InvalidForm;
    }
    var newUser := User(emailInput.value, validator.passwordInput.value);
    outcome := store.AddUser(newUser);
  }
}
