/** The field binding hook (`useFormField`): when the error is revealed,
    which caption goes with it, the one-shot seeding of the initial value on
    mount, and the change and blur handlers. */
module Binding {
  import opened Wrappers
  import opened Field

  /** The options the hook recognises (the `onChange` callback is the
      caller's and is left out). `errors` maps error codes to captions. */
  datatype BindingOptions = BindingOptions(
    validateOnBlur: bool,
    forceValidation: bool,
    initialValue: Option<Value>,
    errors: Option<map<ErrorCode, string>>)

  /** What the hook hands to the input component. */
  datatype FieldProps = FieldProps(
    value: Value,
    ref: RefId,
    hasError: bool,
    errorCode: Option<ErrorCode>,
    errorText: Option<string>)

  /** The first-match cascade on a local `showError`: the field's own
      `showError` wins; then, with `validateOnBlur`, a present error after a
      blur; then, with `forceValidation`, any present error. */
  function HasError(field: FormField, wasBlurred: bool, validateOnBlur: bool, forceValidation: bool): (r: bool)
    ensures field.showError ==> r
    ensures !field.showError && validateOnBlur && !forceValidation ==> (r <==> wasBlurred && ErrorPresent(field.error))
    ensures !field.showError && forceValidation ==> (r <==> ErrorPresent(field.error))
    ensures !validateOnBlur && !forceValidation ==> (r <==> field.showError)
    ensures r <==> field.showError
                   || (validateOnBlur && wasBlurred && ErrorPresent(field.error))
                   || (forceValidation && ErrorPresent(field.error))
  {
    var afterSubmitted := field.showError;
    var afterBlur := if !afterSubmitted && validateOnBlur then wasBlurred && ErrorPresent(field.error) else afterSubmitted;
    if !afterBlur && forceValidation then ErrorPresent(field.error) else afterBlur
  }

  /** `showError && field.error ? options.errors?.[field.error] : undefined`:
      a caption only for a revealed, present error whose code has an entry. */
  function ErrorText(hasError: bool, error: Option<ErrorCode>, errors: Option<map<ErrorCode, string>>): (r: Option<string>)
    ensures r.Some? ==> hasError && ErrorPresent(error) && errors.Some? && error.value in errors.value
                        && r.value == errors.value[error.value]
    ensures hasError && ErrorPresent(error) && errors.Some? && error.value in errors.value ==> r.Some?
  {
    if hasError && ErrorPresent(error) && errors.Some? && error.value in errors.value
    then Some(errors.value[error.value]) else None
  }

  /** One mounted use of the hook on a field atom. */
  class FieldBinding {
    const atom: FormFieldAtom
    /** `useRef`: the ref object handed to the input */
    const inputRef: RefId
    const options: BindingOptions
    /** `useState(false)` */
    var wasBlurred: bool
    /** `useState(false)` */
    var initialized: bool

    constructor (atom: FormFieldAtom, inputRef: RefId, options: BindingOptions)
      ensures this.atom == atom && this.inputRef == inputRef && this.options == options
      ensures !wasBlurred && !initialized
    {
      this.atom := atom;
      this.inputRef := inputRef;
      this.options := options;
      wasBlurred := false;
      initialized := false;
    }

    /** The props of one render under the form flag `submitted`. */
    function Props(submitted: bool): (p: FieldProps)
      reads this, atom
      ensures p.value == atom.value && p.ref == inputRef
      ensures p.errorCode == atom.Read(submitted).error
      ensures p.hasError == HasError(atom.Read(submitted), wasBlurred, options.validateOnBlur, options.forceValidation)
      ensures atom.Read(submitted).showError ==> p.hasError
      ensures p.errorText == ErrorText(p.hasError, p.errorCode, options.errors)
      ensures p.errorText.Some? <==> p.hasError && ErrorPresent(p.errorCode)
                                     && options.errors.Some? && p.errorCode.value in options.errors.value
      ensures p.errorText.Some? ==> p.errorText.value == options.errors.value[p.errorCode.value]
    {
      var field := atom.Read(submitted);
      var hasError := HasError(field, wasBlurred, options.validateOnBlur, options.forceValidation);
      FieldProps(field.value, inputRef, hasError, field.error, ErrorText(hasError, field.error, options.errors))
    }

    /** The mount effect: runs once. A truthy `initialValue` seeds a field
        whose value is falsy (marking it dirty); otherwise only the ref is
        attached. A second run changes nothing. */
    method Mount()
      modifies this`initialized, atom
      ensures initialized
      ensures old(initialized) ==> unchanged(atom)
      ensures !old(initialized) ==> atom.ref == Some(inputRef)
      ensures !old(initialized) && options.initialValue.Some? && Truthy(options.initialValue.value) && !Truthy(old(atom.value)) ==>
        atom.value == options.initialValue.value && atom.isDirty
      ensures !old(initialized) && !(options.initialValue.Some? && Truthy(options.initialValue.value) && !Truthy(old(atom.value))) ==>
        atom.value == old(atom.value) && atom.isDirty == old(atom.isDirty)
    {
      if initialized {
        return;
      }
      initialized := true;
      if options.initialValue.Some? && Truthy(options.initialValue.value) && !Truthy(atom.value) {
        atom.Write(options.initialValue, Some(inputRef));
      } else {
        atom.Write(None, Some(inputRef));
      }
    }

    /** `onChange(v)`: write `v` with the ref; the field becomes dirty (an
        `undefined` argument is the `NO_VALUE` default and writes nothing). */
    method HandleChange(v: Value)
      modifies atom
      ensures atom.ref == Some(inputRef)
      ensures v != Undefined ==> atom.value == v && atom.isDirty
      ensures v == Undefined ==> atom.value == old(atom.value) && atom.isDirty == old(atom.isDirty)
    {
      atom.Write(Some(v), Some(inputRef));
    }

    /** `onBlur`: remember that the input lost focus; the field is untouched. */
    method HandleBlur()
      modifies this`wasBlurred
      ensures wasBlurred
    {
      wasBlurred := true;
    }
  }
}
