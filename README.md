# Form validation widget: a Dafny model

This project models the core of a browser registration form. That core is the
field-validation engine in `class FormsValidation` and the duplicate-email step of
`newUser`. The repository holds three variants of the widget:

- `main.js` is the complete one. Its `validateField` clears the field's custom-validity
  slot. It then stores the sentinel `'passwordMismatch'` there for the repeat-password
  field when both passwords are filled in and differ. It reports a message for each of
  the four native flags the catalog names, plus the mismatch message when the slot holds
  the sentinel. Other native flags, such as typeMismatch, make the field invalid without
  a message.
  `manageErrors` renders the messages and toggles `is-invalid`, and does nothing when the
  field has no error region. `onBlur` validates a required or filled-in field, only clears
  an empty optional one, and re-validates the repeat field when `#password` is blurred.
  `validateAllFormFields` folds per-field validity into a verdict. `newUser` registers
  only when that verdict is true.
- `notesForm.js` and `testForm.js` are earlier variants. Their core is the same code line
  for line, so one module models both. It has no cross-field rule and no `is-invalid`
  toggle. `manageErrors` has no guard, so a missing error region throws. `onBlur` only
  validates required fields. `newUser` registers without validating.

All three share the error catalog and the registration step.

Modules, one per component:

- `Catalog` (catalog.dfy): the constraint kinds in declaration order and the message each
  one produces. It also defines `Collect`, the filter the catalog loop performs, with
  lemmas that describe the loop's output without the loop: the truthy kinds, each once,
  in catalog order, and no other list has those properties.
- `Dom` (dom.dfy): a form control as a `Field` class. Its fields are the constraint
  metadata, the browser's native flags, the custom-validity slot, the error-region
  content, `is-invalid` and `ariaInvalid`. `State()` gives a `FieldState` snapshot of
  them.
- `Registration` (registration.dfy): the `{email, password}` list stored under
  `registeredUsers`, the duplicate check and the append.
- `MainForm` (main_form.dfy): main.js. There are pure functions on `FieldState`
  (`Validated`, `Shown`, `Blurred`, `ValidatedAll`, `FormValid`). The `FormsValidation`
  class has methods that update `Field` objects in place and are proved equal to those
  functions. Lemmas state what the functions guarantee.
- `EarlyForm` (early_form.dfy): notesForm.js and testForm.js in the same shape. A thrown
  `TypeError` is an explicit outcome that leaves the field unchanged.
- `Variants` (variants.dfy): where the two validators agree and where they differ.

Points where the code behaves in a way a reader might not expect:

- A stored list that fails to parse is not treated as empty. `JSON.parse` throws there.
- `manageErrors` never sets `ariaInvalid`. Only `validateField` does.
- Clearing an empty optional field keeps its `ariaInvalid` and its custom-validity slot.
- The early variants throw on a missing error region instead of skipping it.

## Model

| member | source | states |
|---|---|---|
| `Catalog.MessageFor` | main.js:27-33 | Every catalog message is non-empty. Each kind gives its own fixed text or prefix. patternMismatch gives the field's title, or the fallback text when the title is empty. tooShort and tooLong carry their own prefix with minLength and maxLength. notesForm.js:29-35 and testForm.js:28-34 are the same catalog. |
| `Catalog.MessageInputs` | main.js:28-32 | valueMissing and passwordMismatch produce the same text for every field. tooShort reads only minLength, and tooLong reads only maxLength. |
| `Catalog.MessagesTellKindsApart` | main.js:27-33 | For one field, two different kinds never show the same string, as the template literals render it. The exceptions are a title that spells one of the two fixed texts and a title that starts with a length prefix. |
| `Catalog.CollectMembers` | main.js:72-85 | The catalog loop keeps a kind iff the kind is enumerated and its check holds. |
| `Catalog.CollectOrdered` | main.js:72 | The loop keeps the enumeration order, so its output stays in strict catalog order. |
| `Catalog.OrderedByMembers` | main.js:27-33 | Two lists in strict catalog order that hold the same kinds are equal. |
| `Catalog.CatalogCollect` | main.js:70-85 | The loop over the catalog yields exactly the truthy kinds, each once, in catalog order. It is the only list with that property. |
| `Dom.NativeTruthy` | notesForm.js:73 | valueMissing, patternMismatch, tooShort and tooLong are truthy exactly when the ValidityState flag of the same name is set. passwordMismatch is not a ValidityState property, so it is never truthy. |
| `Registration.Register` | main.js:159-168 | Rejects iff some stored user has exactly this email. Otherwise the result is one longer, the earlier records are unchanged, and the new record is last. |
| `Registration.RegisterKeepsEmailsUnique` | main.js:159-171 | Registration keeps emails unique, and afterwards the new email is taken. |
| `Registration.RegisterTwiceRejected` | main.js:159-166 | A second registration with the same email is rejected. |
| `Registration.RegisterKeepsEarlierEmails` | main.js:168 | Every email registered before stays registered. |
| `Registration.UserStore.AddUser` | main.js:152-171 | A duplicate leaves the store as it was. Otherwise the store holds the old list, or `[]` when the key is absent, with the user appended. |
| `Registration.RegistrationScenario` | testForm.js:102-114 | With `a@x.com` stored, `a@x.com` again is rejected, and `b@x.com` gives a two-element list ending in it. |
| `MainForm.Validated` | main.js:58-89 | validateField never changes a value, a constraint or the page structure. |
| `MainForm.MismatchReportedIff` | main.js:61-76 | The mismatch kind is reported iff the field id is `repeatPassword`, both passwords are non-empty, and they differ. |
| `MainForm.NativeReportedIff` | main.js:78-84 | A native kind is reported iff its flag is true. customError alone reports nothing. |
| `MainForm.MessagesInCatalogOrder` | main.js:70-85 | The reported kinds are in strict catalog order, with one message per kind in that order. No other ordered list has exactly the kinds the two rules select. |
| `MainForm.NoResidue` | main.js:59-67 | The old custom-validity string does not affect the result. Afterwards the slot holds the sentinel iff the passwords differ, and `''` otherwise. |
| `MainForm.ValidateIdempotent` | main.js:58-89 | Validating a validated field gives the same state. |
| `MainForm.ShownSpec` | main.js:40-56 | With a region, it shows one span per message in order, and is-invalid is set iff there is a message. Without one, nothing changes. It never touches ariaInvalid or the slot. Calling it twice equals calling it once. |
| `MainForm.ValidateWithoutRegion` | main.js:41-45 | Without a region, validateField changes only the slot and ariaInvalid. |
| `MainForm.ValidateMarks` | main.js:87-88 | ariaInvalid is set iff there is a message. With a region, the spans are the messages and is-invalid matches. |
| `MainForm.ValidAfterIff` | main.js:120-124 | After validation, a field is valid iff no native flag is set and the passwords do not differ. |
| `MainForm.BlurClearsEmptyOptional` | main.js:97-99 | An empty optional field in the form only gets `manageErrors(target, [])`: no spans, no is-invalid, and ariaInvalid and the slot unchanged. |
| `MainForm.BlurValidates` | main.js:93-96 | A required or filled-in field in the form is validated. A field outside the form is left alone. main.js listens on the form (main.js:109-112), so it never reaches that second case. |
| `MainForm.MatchingPasswordsClearMismatch` | main.js:101-105 | Once the passwords agree, re-validating the repeat field drops a stale mismatch and empties the slot. |
| `MainForm.MismatchScenario` | main.js:61-76 | "abc123" against "abc124" with no native violation gives exactly the mismatch message. After correcting it to "abc123", no message. |
| `MainForm.FormValidVerdict` | main.js:116-127 | The verdict is true iff every control is valid after its validation. A valid form shows no message. A control with a missing value makes the form invalid. |
| `MainForm.SilentlyInvalid` | main.js:120-124 | A violation with no catalog key, such as typeMismatch, shows no message but still makes the form invalid. |
| `MainForm.CollectMessages` | main.js:69-85 | The for…in loop builds the messages of the catalog-ordered truthy kinds. |
| `MainForm.FormsValidation.ManageErrors` | main.js:40-56 | The field afterwards is `Shown` of the field before. |
| `MainForm.FormsValidation.ValidateField` | main.js:58-89 | The field afterwards is `Validated` of the field before and the current password values. |
| `MainForm.FormsValidation.OnBlur` | main.js:91-106 | The target becomes `Blurred` of itself. When the target's id is `password` and the repeat field is non-empty, the repeat field is validated. Otherwise it is unchanged. |
| `MainForm.FormsValidation.ValidateAllFormFields` | main.js:116-127 | Every control is validated. The result is `FormValid` of the controls before. |
| `MainForm.NewUser` | main.js:132-171 | An invalid form returns InvalidForm with the store untouched. Otherwise a duplicate email leaves the store as it was, and a new email stores the list with the new user appended. |
| `EarlyForm.FlagDrivenMessages` | notesForm.js:70-76 | A kind is reported iff its ValidityState lookup is truthy, in catalog order. The mismatch message never appears. Same code at testForm.js:54-58. |
| `EarlyForm.ValidatedSpec` | notesForm.js:59-81 | It throws iff there is no error region. Otherwise the spans are the messages and ariaInvalid is set iff there is one. The slot and is-invalid stay untouched. |
| `EarlyForm.ValidateIdempotent` | testForm.js:49-63 | Validating a validated field gives the same result. |
| `EarlyForm.BlurOnlyRequired` | notesForm.js:83-91 | Only a required field in the form is validated. Any other field is left untouched. |
| `EarlyForm.CollectMessages` | testForm.js:54-58 | The forEach loop builds the messages of the catalog-ordered truthy kinds. Same code at notesForm.js:70-76. |
| `EarlyForm.ManageErrors` | testForm.js:41-47 | Without a region it throws and nothing changes. Otherwise the spans become the messages. Same code at notesForm.js:46-56. |
| `EarlyForm.ValidateField` | notesForm.js:59-81 | The outcome and the new state are `Validated` of the old state. A throw leaves the field unchanged. Same code at testForm.js:49-63. |
| `EarlyForm.OnBlur` | testForm.js:65-73 | The outcome and the new state are `Blurred` of the old state. Same code at notesForm.js:83-91. |
| `EarlyForm.NewUser` | notesForm.js:102-132 | No validation happens first. A duplicate email leaves the store alone, and a new email is appended. Same code at testForm.js:84-114. |
| `Variants.SameMessagesWithoutMismatch` | notesForm.js:59-81 | When the password rule does not fire, main.js and the early variants build the same message list. |
| `Variants.OnlyMainReportsMismatch` | main.js:61-76 | When the password rule fires, only main.js reports the mismatch. |

## Left out

- Success overlay: `showSuccessOverlay`, `hideSuccessOverlay` and the 3000 ms `setTimeout` are class toggles and a timer with no rules.
- Storage and parsing: `localStorage` and `JSON.parse`/`JSON.stringify`. The store is an optional list of records, and a parse failure is not modelled. A stored empty string, which `if (userJson)` treats like a missing key, is not modelled either.
- `alert` is an outcome value (`DuplicateEmail`). `event.preventDefault()` is not modelled. Neither is `formElement.reset()` after a registration in main.js, which clears the form's values.
- Moving focus to the first `:invalid` control after a failed submission in main.js is not modelled.
- Native constraint evaluation (pattern matching, length counting, e-mail syntax) is not modelled. The browser's flags are inputs of each field, and the flags without a catalog key are folded into one.
- DOM queries and events are abstracted. `closest(form)` is the field's `inForm`. It is always true in main.js, which listens on the form itself (main.js:109-112). Only the early variants, which listen on `document`, can see a target outside the form. The region query is `hasErrorRegion`. Each control is taken to have its own region, one control per `form__field` parent (notesForm.js:47). `parentElement.querySelector` would give controls that share a parent the same region, and the per-field `errorSpans` cannot express that sharing. `querySelectorAll` is the `controls` sequence. `getElementById` gives the password fields, assumed present. Listener registration with capture is not modelled.
- HTML strings are abstracted: the region content is the list of messages, one per span. A tooShort or tooLong message is a prefix plus the limit as an integer. `Rendered` spells the limit in decimal only where strings are compared.
- `validationMessage` is taken to be the custom-validity string whenever that string is set, which is what browsers report. Controls barred from constraint validation (disabled, read-only) are not modelled.
- `ariaInvalid` is a boolean. The attribute's string form and its initial absence are not modelled.
- Every blur target is taken to be a form control. In main.js, a focusable element inside the form that is not a control, such as a link, has `value` undefined. It therefore passes `target.value !== ''` (main.js:95), and `validateField` then throws at `setCustomValidity` (main.js:59). The `Field` class cannot express such elements.
