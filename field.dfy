/** A single form field: its stored cells (value, dirty flag, element ref),
    its validator, and the derived read view (`internalFormFieldAtom`). */
module Field {
  import opened Wrappers

  /** Family parameters are primitive strings (`PrimitiveParam`). */
  type Key = string

  /** An element ref object handed to a field; what element it currently
      points at is decided by the document, outside the field. */
  type RefId = nat

  /** A validation error code (`TErrorMessageKeys`). */
  type ErrorCode = string

  /** The JavaScript values a field may hold: the primitives the library
      compares, integral numbers, and every other value (`NaN`, `-0`,
      fractions, objects, arrays) by its truthiness alone. */
  datatype Value = Undefined | Null | Bool(b: bool) | Num(n: int) | Str(s: string) | Other(truthy: bool)

  /** JavaScript truthiness of a value. */
  predicate Truthy(v: Value) {
    match v
    case Undefined => false
    case Null => false
    case Bool(b) => b
    case Num(n) => n != 0
    case Str(s) => s != ""
    case Other(t) => t
  }

  /** JavaScript truthiness of an optional error code: `undefined` and the
      empty string are both falsy. */
  predicate ErrorPresent(e: Option<ErrorCode>) {
    e.Some? && e.value != ""
  }

  type Validator = Value -> Option<ErrorCode>

  /** `FormState`: the form-wide flags every field reads. */
  datatype FormState = FormState(submitted: bool, isSubmitting: bool)

  /** `internalFormStateAtom`: a new form starts neither submitted nor submitting. */
  function InitialFormState(): (s: FormState)
    ensures !s.submitted && !s.isSubmitting
  {
    FormState(false, false)
  }

  /** `FormFieldAtomOptions`: the initial state and an optional validator. */
  datatype FieldOptions = FieldOptions(initialState: Value, validate: Option<Validator>)

  /** `FormFieldAtomFamilyOptions`: the validator is chosen per parameter. */
  datatype FamilyOptions = FamilyOptions(initialState: Value, validate: Option<Key -> Validator>)

  /** `internalFormFieldAtomFamily`: the options a family member for `param` is
      created with. */
  function MemberOptions(o: FamilyOptions, param: Key): (r: FieldOptions)
    ensures r.initialState == o.initialState
    ensures r.validate.Some? <==> o.validate.Some?
    ensures o.validate.Some? ==> r.validate == Some(o.validate.value(param))
  {
    FieldOptions(o.initialState, if o.validate.Some? then Some(o.validate.value(param)) else None)
  }

  /** `FormField`: what reading a field yields. */
  datatype FormField = FormField(
    showError: bool,
    value: Value,
    isDirty: bool,
    isValid: bool,
    error: Option<ErrorCode>,
    ref: Option<RefId>)

  /** The validator's verdict on `value` (`options.validate?.(value, get)`). */
  function ErrorOf(validate: Option<Validator>, value: Value): (e: Option<ErrorCode>)
    ensures validate.None? ==> e.None?
    ensures validate.Some? ==> e == validate.value(value)
  {
    if validate.Some? then validate.value(value) else None
  }

  /** The read side of a field: validity and error visibility are derived from
      the stored value, the validator and the form's `submitted` flag on every
      read. */
  function View(value: Value, isDirty: bool, ref: Option<RefId>,
                validate: Option<Validator>, submitted: bool): (f: FormField)
    ensures f.value == value && f.isDirty == isDirty && f.ref == ref
    ensures f.error == ErrorOf(validate, value)
    ensures f.isValid <==> !ErrorPresent(ErrorOf(validate, value))
    ensures f.showError <==> submitted && !f.isValid
    ensures !submitted ==> !f.showError
  {
    var error := ErrorOf(validate, value);
    var isValid := !ErrorPresent(error);
    FormField(if submitted then !isValid else false, value, isDirty, isValid, error, ref)
  }

  /** JavaScript default parameters: an explicit `undefined` argument is
      replaced by the default, here `NO_VALUE` (written `None`). */
  function EffectiveValue(arg: Option<Value>): (r: Option<Value>)
    ensures r.None? <==> (arg.None? || arg == Some(Undefined))
    ensures r.Some? ==> r == arg
  {
    if arg == Some(Undefined) then None else arg
  }

  /** A field atom: three stored cells and the field's options. */
  class FormFieldAtom {
    const initialState: Value
    const validate: Option<Validator>
    var value: Value
    var isDirty: bool
    var ref: Option<RefId>

    /** A new field holds its initial value, is clean and has no ref. */
    constructor (options: FieldOptions)
      ensures initialState == options.initialState && validate == options.validate
      ensures value == options.initialState && !isDirty && ref.None?
    {
      initialState := options.initialState;
      validate := options.validate;
      value := options.initialState;
      isDirty := false;
      ref := None;
    }

    /** The field as a reader sees it under form flag `submitted`. */
    function Read(submitted: bool): (f: FormField)
      reads this
      ensures f.value == value && f.isDirty == isDirty && f.ref == ref
      ensures f.error == ErrorOf(validate, value)
      ensures f.isValid <==> !ErrorPresent(f.error)
      ensures f.showError <==> submitted && !f.isValid
    {
      View(value, isDirty, ref, validate, submitted)
    }

    /** The write side: `newValue` None is `NO_VALUE` (keep value and dirty
        flag), `newRef` None is `null` (keep the ref). Writing a value always
        marks the field dirty, even when it equals the stored one. */
    method Write(newValue: Option<Value>, newRef: Option<RefId>)
      modifies this
      ensures ref == (if newRef.Some? then newRef else old(ref))
      ensures EffectiveValue(newValue).Some? ==> value == newValue.value && isDirty
      ensures EffectiveValue(newValue).None? ==> value == old(value) && isDirty == old(isDirty)
    {
      if newRef.Some? {
        ref := newRef;
      }
      var v := EffectiveValue(newValue);
      if v.Some? {
        value := v.value;
        isDirty := true;
      }
    }
  }
}
