/** The form context (`internalCreateForm`): the form-state cell, the
    membership set of field atoms, the derived form atom and the submit
    controller built on it (`internalCreateUseForm`). */
module Forms {
  import opened Wrappers
  import opened Field
  import opened Aggregate
  import Table

  /** An argument of the form atom's write: `Partial<FormState>`. */
  datatype PartialFormState = PartialFormState(submitted: Option<bool>, isSubmitting: Option<bool>)

  /** `{ ...formState, ...value }`: the flags given replace, the others stay. */
  function Merge(s: FormState, p: PartialFormState): (r: FormState)
    ensures p.submitted.Some? ==> r.submitted == p.submitted.value
    ensures p.submitted.None? ==> r.submitted == s.submitted
    ensures p.isSubmitting.Some? ==> r.isSubmitting == p.isSubmitting.value
    ensures p.isSubmitting.None? ==> r.isSubmitting == s.isSubmitting
  {
    FormState(if p.submitted.Some? then p.submitted.value else s.submitted,
              if p.isSubmitting.Some? then p.isSubmitting.value else s.isSubmitting)
  }

  /** Merging the same partial state twice is merging it once, and merging
      nothing changes nothing. */
  lemma MergeIdempotent(s: FormState, p: PartialFormState)
    ensures Merge(Merge(s, p), p) == Merge(s, p)
    ensures Merge(s, PartialFormState(None, None)) == s
  {
  }

  /** What the form atom yields (`Form`). */
  datatype FormView = FormView(
    submitted: bool,
    isSubmitting: bool,
    isValid: bool,
    focusableFormFieldsWithError: seq<FormField>)

  /** The callback one completion step invokes. */
  datatype Callback = OnValid | OnError | NoCallback

  /** `if (isValid) await onValid(); else onError?.();` */
  function SubmitOutcome(isValid: bool, hasOnError: bool): (c: Callback)
    ensures c == OnValid <==> isValid
    ensures c == OnError <==> !isValid && hasOnError
    ensures c == NoCallback <==> !isValid && !hasOnError
  {
    if isValid then OnValid else if hasOnError then OnError else NoCallback
  }

  /** The read views of a sequence of field atoms. */
  function ViewsOf(fields: seq<FormFieldAtom>, submitted: bool): (r: seq<FormField>)
    reads fields
    ensures |r| == |fields|
    ensures forall i :: 0 <= i < |fields| ==> r[i] == fields[i].Read(submitted)
  {
    if fields == [] then [] else [fields[0].Read(submitted)] + ViewsOf(fields[1..], submitted)
  }

  class Form {
    /** `formStateAtom` */
    var formState: FormState
    /** `formFields`: an insertion-ordered `Set` of field atoms */
    var formFields: seq<FormFieldAtom>

    ghost predicate Valid()
      reads this
    {
      Table.NoDup(formFields)
    }

    /** A new form: not submitted, not submitting, no fields. */
    constructor ()
      ensures Valid()
      ensures formState == InitialFormState() && formFields == []
    {
      formState := InitialFormState();
      formFields := [];
    }

    /** `formFieldAtom(options)`: a new field atom, appended to the membership. */
    method CreateField(options: FieldOptions) returns (f: FormFieldAtom)
      requires Valid()
      modifies this`formFields
      ensures Valid()
      ensures fresh(f)
      ensures f.initialState == options.initialState && f.validate == options.validate
      ensures f.value == options.initialState && !f.isDirty && f.ref.None?
      ensures formFields == old(formFields) + [f]
    {
      f := new FormFieldAtom(options);
      formFields := formFields + [f];
    }

    /** The form atom's read: the form flags, the conjunction of all members'
        validity and the focusable erroring members in document order. */
    function Read(pos: Positions): (v: FormView)
      reads this, formFields
      ensures v.submitted == formState.submitted && v.isSubmitting == formState.isSubmitting
      ensures v.isValid <==> forall i :: 0 <= i < |formFields| ==> formFields[i].Read(formState.submitted).isValid
      ensures formFields == [] ==> v.isValid
      ensures v.focusableFormFieldsWithError == FocusableWithError(ViewsOf(formFields, formState.submitted), pos)
    {
      var views := ViewsOf(formFields, formState.submitted);
      FormView(formState.submitted, formState.isSubmitting, AllValid(views), FocusableWithError(views, pos))
    }

    /** The form atom's write: merge a partial form state. */
    method SetFormState(p: PartialFormState)
      modifies this`formState
      ensures formState == Merge(old(formState), p)
    {
      formState := Merge(formState, p);
    }

    /** `submitForm`: mark the form submitted and a submission in progress. */
    method SubmitForm()
      modifies this`formState
      ensures formState.submitted && formState.isSubmitting
    {
      SetFormState(PartialFormState(Some(true), Some(true)));
    }

    /** `resetValidation`: clear `submitted` only; after it no member shows an
        error. Field values and dirty flags are not touched. */
    method ResetValidation()
      modifies this`formState
      ensures formState == old(formState).(submitted := false)
      ensures forall i :: 0 <= i < |formFields| ==> !formFields[i].Read(formState.submitted).showError
    {
      SetFormState(PartialFormState(Some(false), None));
    }

    /** The completion step (`handleSubmit`, run by the effect while
        `isSubmitting` is true): exactly one of the callbacks fires (none when
        the form is invalid and has no `onError`). When it returns, the first
        focusable erroring field's ref is handed to the focus side effect and
        `isSubmitting` is cleared; when it throws (or `onValid` rejects),
        nothing after it runs, so no focus and `isSubmitting` stays set. When
        no submission is in progress nothing happens. */
    method CompleteSubmit(hasOnError: bool, callbackThrows: bool, pos: Positions) returns (fired: Callback, focus: Option<RefId>)
      modifies this`formState
      ensures old(formState).isSubmitting ==> fired == SubmitOutcome(old(Read(pos)).isValid, hasOnError)
      ensures old(formState).isSubmitting && !(callbackThrows && fired != NoCallback) ==>
        && (focus.Some? <==> old(Read(pos)).focusableFormFieldsWithError != [])
        && (focus.Some? ==> focus == old(Read(pos)).focusableFormFieldsWithError[0].ref)
        && formState == old(formState).(isSubmitting := false)
      ensures old(formState).isSubmitting && callbackThrows && fired != NoCallback ==>
        focus.None? && formState == old(formState)
      ensures !old(formState).isSubmitting ==> fired == NoCallback && focus.None? && formState == old(formState)
    {
      if !formState.isSubmitting {
        return NoCallback, None;
      }
      var v := Read(pos);
      if v.focusableFormFieldsWithError != [] {
        assert Focusable(v.focusableFormFieldsWithError[0], pos);
      }
      fired, focus := FinishSubmit(v, hasOnError, callbackThrows);
    }

    /** The tail of `handleSubmit` once the view `v` has been read: pick the
        callback, and unless it throws, focus the first field with an error
        and clear `isSubmitting`. */
    method FinishSubmit(v: FormView, hasOnError: bool, callbackThrows: bool) returns (fired: Callback, focus: Option<RefId>)
      modifies this`formState
      ensures fired == SubmitOutcome(v.isValid, hasOnError)
      ensures !(callbackThrows && fired != NoCallback) ==>
        && focus == (if v.focusableFormFieldsWithError != [] then v.focusableFormFieldsWithError[0].ref else None)
        && formState == old(formState).(isSubmitting := false)
      ensures callbackThrows && fired != NoCallback ==> focus.None? && formState == old(formState)
    {
      fired := SubmitOutcome(v.isValid, hasOnError);
      focus := None;
      if callbackThrows && fired != NoCallback {
        return;
      }
      if v.focusableFormFieldsWithError != [] {
        focus := v.focusableFormFieldsWithError[0].ref;
      }
      SetFormState(PartialFormState(None, Some(false)));
    }
  }
}
