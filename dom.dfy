/** The part of the DOM the validator reads and annotates: a form control with its
    constraint metadata, the browser's live constraint evaluation, the custom-validity
    slot, the error region next to it and its invalid markers. */
module Dom {
  import opened Catalog

  const PasswordId := "password"
  const RepeatPasswordId := "repeatPassword"

  /** The browser's own evaluation of the value against the declared constraints, taken
      as given. `otherMismatch` stands for the flags the catalog has no key for
      (typeMismatch, badInput, rangeUnderflow, rangeOverflow, stepMismatch). */
  datatype NativeFlags = NativeFlags(
    valueMissing: bool,
    patternMismatch: bool,
    tooShort: bool,
    tooLong: bool,
    otherMismatch: bool)

  /** `validity[k]` for a catalog key `k`. ValidityState has no `passwordMismatch`
      property, so that lookup yields `undefined`, which is falsy. */
  function NativeFlag(n: NativeFlags, k: Kind): bool {
    match k
    case ValueMissing => n.valueMissing
    case PatternMismatch => n.patternMismatch
    case TooShort => n.tooShort
    case TooLong => n.tooLong
    case PasswordMismatch => false
  }

  /** The catalog kinds whose native flag is set. */
  function NativeTruthy(n: NativeFlags): (t: set<Kind>)
    ensures ValueMissing in t <==> n.valueMissing
    ensures PatternMismatch in t <==> n.patternMismatch
    ensures TooShort in t <==> n.tooShort
    ensures TooLong in t <==> n.tooLong
    ensures PasswordMismatch !in t
    ensures forall k :: k in t <==> NativeFlag(n, k)
  {
    set k | k in CatalogOrder && NativeFlag(n, k)
  }

  /** A ValidityState: the native flags and `customError`, which is set exactly when the
      custom-validity string is non-empty. */
  datatype ValidityState = ValidityState(native: NativeFlags, customError: bool)
  {
    /** `validity.valid`: no flag at all is set. */
    predicate Valid() {
      !native.valueMissing && !native.patternMismatch && !native.tooShort && !native.tooLong
      && !native.otherMismatch && !customError
    }
  }

  /** A snapshot of everything a control holds that the validator reads or writes. */
  datatype FieldState = FieldState(
    id: string,
    required: bool,
    title: string,
    minLength: int,
    maxLength: int,
    inForm: bool,          // target.closest(form) finds the form
    hasErrorRegion: bool,  // the parent holds a [data-js-form-field-errors] element
    value: string,
    native: NativeFlags,
    customValidity: string,
    errorSpans: seq<Message>, // the region's content: one field__error span per message
    isInvalid: bool,          // the is-invalid class
    ariaInvalid: bool)
  {
    function Validity(): ValidityState {
      ValidityState(native, customValidity != "")
    }

    /** `validationMessage`: the browser reports the custom message whenever one is set. */
    function ValidationMessage(): string {
      customValidity
    }
  }

  /** The two states agree on everything the user or the page controls: validation never
      alters a value, a constraint or the page structure. */
  predicate SameInputs(a: FieldState, b: FieldState) {
    a.id == b.id && a.required == b.required && a.title == b.title
    && a.minLength == b.minLength && a.maxLength == b.maxLength
    && a.inForm == b.inForm && a.hasErrorRegion == b.hasErrorRegion
    && a.value == b.value && a.native == b.native
  }

  /** A form control (input, select or textarea). */
  class Field {
    const id: string
    const required: bool
    const title: string
    const minLength: int
    const maxLength: int
    const inForm: bool
    const hasErrorRegion: bool
    var value: string
    var native: NativeFlags
    var customValidity: string
    var errorSpans: seq<Message>
    var isInvalid: bool
    var ariaInvalid: bool

    constructor (s: FieldState)
      ensures State() == s
    {
      id, required, title := s.id, s.required, s.title;
      minLength, maxLength := s.minLength, s.maxLength;
      inForm, hasErrorRegion := s.inForm, s.hasErrorRegion;
      value, native, customValidity := s.value, s.native, s.customValidity;
      errorSpans, isInvalid, ariaInvalid := s.errorSpans, s.isInvalid, s.ariaInvalid;
    }

    function State(): FieldState
      reads this
    {
      FieldState(id, required, title, minLength, maxLength, inForm, hasErrorRegion,
                 value, native, customValidity, errorSpans, isInvalid, ariaInvalid)
    }
  }

  /** The snapshots of a list of controls. */
  function States(fields: seq<Field>): (ss: seq<FieldState>)
    reads set f | f in fields
    ensures |ss| == |fields| && forall i :: 0 <= i < |fields| ==> ss[i] == fields[i].State()
  {
    seq(|fields|, i reads set f | f in fields requires 0 <= i < |fields| => fields[i].State())
  }

  /** Distinct objects, as `querySelectorAll` returns them. */
  predicate Distinct(fields: seq<Field>) {
    forall i, j :: 0 <= i < j < |fields| ==> fields[i] != fields[j]
  }
}
