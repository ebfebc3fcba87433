# jotai-advanced-forms: the form-state core in Dafny

This project models the form-state layer of `jotai-advanced-forms` and the
two hooks built on it. Jotai atoms are treated as plain cells that the model
owns.

- **Field atom** (`Field`). A field stores a value, a dirty flag and an
  element ref. Its read view derives `isValid`, `error` and `showError` from
  the stored value, the validator and the form's `submitted` flag. Its write
  takes an optional value, where `None` is `NO_VALUE`, and an optional ref,
  where `None` is `null`.
- **Form** (`Forms`). A form holds the form-state cell `{submitted,
  isSubmitting}` and the insertion-ordered membership set `formFields`.
  - The form atom's read is the conjunction of every member's validity plus
    the members that show an error and have an attached element, sorted by
    document position (`Aggregate`).
  - The form atom's write merges a partial state.
  - The submit controller provides `submitForm`, `resetValidation` and the
    completion step that the effect runs while `isSubmitting` is true.
- **Field family** (`Families`, over the pure registry `Table`). The wrapper
  that `formFieldAtomFamily` returns keeps:
  - the per-family insertion-ordered map `param -> [field, createdAt]`;
  - a mutable `shouldRemove` policy;
  - a listener set and a log of every listener call.

  Its operations:
  - lookup with `===` or a custom `areEqual` (first match in insertion
    order), with lazy eviction;
  - `remove`, which removes the first match only;
  - the eager `setShouldRemove` sweep;
  - `getParams`;
  - `unstable_listen` and its unsubscribe function.
- **Field binding** (`Binding`). This models `useFormField`: the `hasError`
  cascade, the `errorText` lookup, the one-shot mount write, and the change
  and blur handlers.
- **Multi form field** (`MultiField`, with `Numbers` for `id.toString()` and
  `Number(s)`). This models `multiFormField` and `useMultiFormField`: the id
  counter, the ordered list of live ids, `addField`, `removeField`,
  `fieldIds` and `valuesAtom`.

Files:

| file | module |
|---|---|
| `wrappers.dfy` | `Wrappers` |
| `field.dfy` | `Field` |
| `table.dfy` | `Table` |
| `aggregate.dfy` | `Aggregate` |
| `forms.dfy` | `Forms` |
| `families.dfy` | `Families` |
| `binding.dfy` | `Binding` |
| `numbers.dfy` | `Numbers` |
| `multifield.dfy` | `MultiField` |

Where the model follows the code rather than its documentation:

- **Validity.** The code computes `isValid = !error`. Because JavaScript
  treats the empty string as falsy, an empty error code counts as valid and
  is never shown. The model writes this as `ErrorPresent(e)`: `e` is present
  and non-empty. A plain reading "valid iff the validator returns nothing"
  would be false for such a validator.
- **`undefined` values.** An explicit `undefined` passed as the write's
  value is replaced by the `NO_VALUE` default, so it writes nothing. This
  follows JavaScript's default-parameter rule (`EffectiveValue`). The same
  applies to `onChange(undefined)`.
- **The family's cache.** The family's own cache (`atomFamily`) always has
  the same keys as the wrapper's map. So after a miss or an eviction, the
  field stored under exactly `param` is reused when there is one. Otherwise
  a fresh field at the initial state is made.
- **The sweep.** `setShouldRemove` iterates the live `Map`. Entries are only
  deleted during that loop, so the sweep is modelled as a pass over a
  snapshot of the keys. A key that is still stored when its turn comes is
  passed to `remove` if the policy selects its current entry. This assumes
  that no code called during the sweep calls back into the family. The
  family's listeners run synchronously inside `remove`
  (src/form.ts:568-570), and a listener that looked up or removed another
  key of the same family would change the map under the loop. The model's
  listeners only record their calls.
- **`remove` of an absent param.** With `===`, `remove(param)` for a param
  that is not stored reaches the `console.error` branch of `deleteParam`
  (src/form.ts:498-503). The map delete, the family delete and the set
  delete do nothing; the message is logged; no listener is called. The
  model's `RemoveOp` leaves the state unchanged in that case, and
  `Table.RemoveOpFacts` states it.
- **Custom equalities.** The family's guarantees about `areEqual` (a
  lookup after an eviction creates a fresh field, no two stored keys match
  each other, a sweep leaves exactly the spared entries) are stated for an
  `areEqual` that is an equivalence relation (`Table.Lawful`). The code
  calls `areEqual` as written; with a relation that is not reflexive,
  symmetric and transitive, the lookup and `remove` scans still behave as
  modelled, but these summaries need not hold.
- **Truthiness.** JavaScript values are `Undefined`, `Null`, booleans,
  integers, strings, and `Other(truthy)`. `Other` stands for every other
  value (objects, arrays, functions, floats, `NaN`), and it records only
  whether that value is truthy. This is all `useFormField`'s mount write
  asks of a value (`Field.Truthy`).

## Model

| member | source | states |
|---|---|---|
| Field.InitialFormState | src/form.ts:144-150 | a new form state is neither submitted nor submitting |
| Field.MemberOptions | src/form.ts:227-238 | a family member for `param` gets the family's initial state, and the family's validator applied to `param` (none if the family has none) |
| Field.ErrorOf | src/form.ts:178 | the error is the validator's verdict on the value, none without a validator |
| Field.View | src/form.ts:173-188 | value, dirty flag and ref are passed through; `isValid` iff no present error; `showError` iff submitted and invalid; never shown before submission |
| Field.EffectiveValue | src/form.ts:192 | a missing or `undefined` value argument means `NO_VALUE`; any other argument is kept |
| Field.FormFieldAtom.constructor | src/form.ts:168-170 | a new field holds its initial state, is clean and has no ref |
| Field.FormFieldAtom.Read | src/form.ts:172-188 | the read view of the stored cells under the form flag, with the validity and visibility rules of `View` |
| Field.FormFieldAtom.Write | src/form.ts:189-202 | the ref is replaced only by a non-null ref; a value sets the value and marks the field dirty, even when it equals the old one; `NO_VALUE` keeps value and dirty flag |
| Table.Keys | src/form.ts:542-549 | the keys of the map, position by position, in insertion order |
| Table.KeyIndex | src/form.ts:457 | `Map.get`: the position of the entry whose key is exactly `k`, or none when no key is `k` |
| Table.MatchIndex | src/form.ts:460-466 | the first entry in insertion order whose key `areEqual` matches with `param`; none when no key matches |
| Table.Find | src/form.ts:456-467 | the entry a lookup uses: the first matching entry under the family's equality, none when none matches |
| Table.RemoveAt | src/form.ts:493 | `Map.delete` of one position keeps the entries before it and after it, in order |
| Table.SetAdd | src/form.ts:481 | `Set.add` appends a new element and leaves a present one in place |
| Table.SetKey | src/form.ts:482 | `Map.set(param, [field, createdAt])` on the entry list; what it promises is stated by `Table.SetKeyFacts`, `Table.SetKeyExisting` and `Table.SetKeyNew` |
| Table.SetDelete | src/form.ts:496 | `Set.delete` drops the element and keeps every other element; an absent element changes nothing |
| Table.SetDeleteCounts | src/form.ts:496 | `Set.delete` removes every copy of the element and keeps the count of every other element |
| Table.Notifications | src/form.ts:563-571 | one call per registered listener, in registration order, with the event's type, param and field |
| Table.RemoveOp | src/form.ts:487-524 | `remove(param)` as a function of the family state; what it promises is stated by `Table.RemoveOpFacts`, `Table.RemoveOpValid` and `Table.RemoveOpTracked` |
| Table.CreateOp | src/form.ts:480-484 | the create half of a lookup (`formFields.add`, `Map.set` with `now`, CREATE to every listener); what it promises is stated by `Table.CreateOpFacts` and `Table.CreateOpTracked` |
| Table.SweepOp | src/form.ts:534-539 | the `setShouldRemove` loop over a snapshot of the keys; what it promises is stated by `Table.SweepKeeps` and `Table.SweepLeavesKept` |
| Table.LookupOp | src/form.ts:451-485 | one `family(param)` call: a hit that is not evicted changes nothing; otherwise `RemoveOp` when evicted, then `CreateOp`; what it promises is stated by `Families.FieldFamily.Get` and `Table.HandedIsStored` |
| Table.LookupsOp | src/form.ts:608-614 | the lookups of a run of params, in order; what it promises is stated by `Table.LookupsOpStep`, `Table.LookupsOfLiveKeys` and `MultiField.MultiFormField.Values` |
| Table.Handed | src/form.ts:456-476 | the member a lookup returns in a given state: the first match's field when it is not evicted, else the field the create half makes; what it promises is stated by `Table.HandedIsStored` and `Families.FieldFamily.Get` |
| Table.HandedIsStored | src/form.ts:451-485 | with `===`, after a lookup the param maps to exactly the member `Handed` says the lookup returns |
| Table.HandsOutStep | src/form.ts:610-613 | a run of lookups whose every member is the one `Handed` picks in the state the earlier lookups left stays so when one more such lookup is appended |
| Table.HandsOutAll | src/form.ts:610-613 | for a whole run of lookups, each member is the one `Handed` picks in the state left by the lookups before it |
| Table.MakesNew | src/form.ts:456-484 | whether a lookup creates a field: no entry matches, or the match is evicted, and no entry is left under exactly `param` for the jotai family to hand back; what it promises is stated by `Families.FieldFamily.Get` |
| Table.AbsentMakesNew | src/form.ts:456-484 | with `===`, a lookup of a param that no entry holds creates a field |
| Table.LookupOpKeepsAbsent | src/form.ts:470-484 | under any equality and policy, a lookup of `q` never stores a different key `p` that was absent: the eviction only deletes and `Map.set` writes only `q` |
| Table.LookupsOpKeepsAbsent | src/form.ts:610-613 | a run of lookups none of whose params is `p` leaves `p` absent if it was |
| Table.NewAtStep | src/form.ts:610-613 | appending a lookup keeps whether each earlier lookup of the run created its field, and the new lookup creates one iff `MakesNew` holds in the state the run has reached |
| Table.NewFlagsStep | src/form.ts:610-613 | the flags recording which lookups of a run created their field extend by that of one more lookup |
| Table.AbsentIsNew | src/form.ts:610-613 | with `===` and distinct params, a lookup in the run whose param was not stored when the run began creates its field |
| Table.RemoveOpTracked | src/form.ts:493-496 | `remove` keeps every stored field a member of the form and keeps stored fields pairwise distinct, since the entry and its field leave together |
| Table.CreateOpTracked | src/form.ts:480-484 | creating keeps every stored field a member of the form and pairwise distinct, when the field is the one already stored under `param` or a field stored nowhere |
| Table.Kept | src/form.ts:534-539 | the entries the policy spares are never more than the entries it is given |
| Table.KeptSpares | src/form.ts:534-539 | every entry kept is a given entry that the policy spares, and every given entry it spares is kept |
| Table.KeysAppend | src/form.ts:542-549 | the key order of two runs of entries is the concatenation of their key orders |
| Table.SetKeyExisting | src/form.ts:482 | `Map.set` on a present key overwrites that entry in place; key order and all other entries are unchanged |
| Table.SetKeyNew | src/form.ts:482 | `Map.set` on a new key appends one entry at the end of the key order |
| Table.SetKeyFacts | src/form.ts:482 | `Map.set` keeps keys unique, stores exactly `[field, createdAt]` under the key, leaves all other entries, and grows the map only for a new key |
| Table.SetKeyKeepsOthers | src/form.ts:482 | `Map.set(param, ...)` leaves the entry of every other live key unchanged |
| Table.SetDeleteFacts | src/form.ts:496 | `Set.delete` keeps the membership set duplicate-free and shrinks it by one when the element was a member |
| Table.SetAddNoDup | src/form.ts:481 | `Set.add` keeps the membership set duplicate-free |
| Table.RemoveAtKeys | src/form.ts:493 | `Map.delete` keeps keys unique and takes its key out of the key order, leaving the others in order |
| Table.RemoveAtUnique | src/form.ts:493 | `Map.delete` keeps keys unique |
| Table.RemoveAtKeyOrder | src/form.ts:493 | after `Map.delete` of one position, the key order is the old one without that key |
| Table.RemoveOpFacts | src/form.ts:487-524 | `remove` with no match changes nothing and notifies no one; otherwise exactly the matched entry leaves the map, its field leaves the form, and every listener hears one REMOVE with `param` |
| Table.RemoveOpDefaultKeepsOthers | src/form.ts:506-510 | with `===`, `remove(param)` leaves the entry of every other key unchanged |
| Table.RemoveOpDefaultDropsKey | src/form.ts:491-494 | with `===`, after `remove(param)` no entry is stored under `param` |
| Table.CreateOpFacts | src/form.ts:480-484 | creating keeps keys unique, stores exactly `[field, now]` under `param`, keeps every other entry, adds the field to the form, and notifies each listener once with CREATE |
| Table.SweepKeepsKeysUnique | src/form.ts:534-539 | the sweep leaves a well-formed map |
| Table.SweepRemoveStep | src/form.ts:536-537 | removing the first key of the unswept rest keeps the swept prefix and the rest of the tail, and keeps the map well formed |
| Table.SweepKeeps | src/form.ts:534-539 | a sweep that has passed a prefix leaves that prefix followed by exactly the spared entries of the rest, in order |
| Table.SweepLeavesKept | src/form.ts:526-540 | with `===` or an equivalence `areEqual`, `setShouldRemove(fn)` leaves exactly the entries `fn` spares, in insertion order |
| Table.FindStoredKey | src/form.ts:456-467 | when no two stored keys match each other, the lookup of a stored key finds its own entry |
| Table.RemoveAtDistinguishes | src/form.ts:493 | deleting an entry keeps stored keys pairwise unmatched |
| Table.RemoveMatchClearsClass | src/form.ts:511-523 | with an equivalence `areEqual`, after `remove(param)` deletes the first match no stored key matches `param` |
| Table.SetKeyUnmatched | src/form.ts:482 | with an equivalence `areEqual`, storing a param that matches no stored key keeps stored keys pairwise unmatched (and the param was not stored) |
| Table.RemoveOpKeepsClasses | src/form.ts:487-524 | `remove` keeps stored keys pairwise unmatched under an equivalence `areEqual` |
| Table.CreateOpKeepsClasses | src/form.ts:479-484 | creating under a param that no stored key matches keeps stored keys pairwise unmatched, and the param was not stored |
| Table.RemoveOpValid | src/form.ts:487-524 | `remove` keeps the map well formed, keeps stored keys pairwise unmatched, and keeps the membership set duplicate-free |
| Table.KeepsOthersTrans | src/form.ts:471-484 | two steps that each keep every other key's entry, together keep it |
| Table.RemoveOpDefaultKeepsAll | src/form.ts:506-510 | with `===`, `remove(param)` keeps the entry of every other stored key |
| Table.SetKeyKeepsAll | src/form.ts:482 | `Map.set(param, ...)` keeps the entry of every other stored key |
| Table.LookupsOpStep | src/form.ts:611-614 | the lookups of the first n+1 ids are the lookups of the first n followed by the lookup of id n |
| Table.LookupsOfLiveKeys | src/form.ts:451-476 | with `===` and no policy, looking up keys that are all stored changes nothing |
| Table.NotificationsOnlyReachListeners | src/form.ts:573-580 | a callback that is not registered (never registered, or unsubscribed) receives no call |
| Table.NotificationsAppend | src/form.ts:568-570 | notifying one more listener appends exactly its call |
| Table.ScanForMatch | src/form.ts:460-466 | the `for ... break` scan returns the first position whose key `areEqual` matches, or none when no key matches |
| Aggregate.AllValid | src/form.ts:256-263 | `every(isValid)`: true iff every member is valid, so true for no members |
| Aggregate.WithError | src/form.ts:264-266 | the filter keeps exactly the members that show an error and whose ref points at an element |
| Aggregate.Insert | src/form.ts:267-290 | one insertion step of the sort adds exactly that element (as a multiset), and the result starts with it or with the old head |
| Aggregate.InsertSorted | src/form.ts:267-290 | inserting into a list sorted by document position keeps it sorted |
| Aggregate.SortByPosition | src/form.ts:267-290 | the sort yields the same elements (as a multiset) in ascending document position |
| Aggregate.SameMembers | src/form.ts:264-290 | sorting does not change which fields are in the list |
| Aggregate.AtPosition | src/form.ts:267-290 | the members at one document position, in list order, all focusable and at that position |
| Aggregate.InsertStable | src/form.ts:267-290 | inserting into a sorted list puts the element ahead of the members already at its position and leaves every position's other members in order; since the sort inserts each element into the sorted rest, this is what keeps earlier members first |
| Aggregate.SortStable | src/form.ts:267-290 | the sort keeps the original order among members at the same position, as `Array.prototype.sort` does |
| Aggregate.FocusableWithErrorStable | src/form.ts:264-290 | members of `focusableFormFieldsWithError` at the same position keep the order of `formFields` |
| Aggregate.FocusableWithError | src/form.ts:264-290 | `focusableFormFieldsWithError` is a permutation of the filtered members, sorted by document position; an element is in it iff it is a focusable member that shows an error |
| Aggregate.DetachedNotFocusable | src/form.ts:266 | a member without an attached element is never among the fields to focus |
| Forms.Merge | src/form.ts:294-297 | `{...formState, ...value}`: each given flag replaces the stored one, and each flag not given keeps its value |
| Forms.MergeIdempotent | src/form.ts:294-297 | merging a partial state twice equals merging it once, and merging an empty partial state changes nothing |
| Forms.SubmitOutcome | src/form.ts:316-317 | `onValid` iff the form is valid; `onError` iff invalid and given; no callback iff invalid and no `onError` |
| Forms.ViewsOf | src/form.ts:265 | the read view of each member, position by position |
| Forms.Form.constructor | src/form.ts:392-400 | a new form is not submitted, not submitting and has no fields |
| Forms.Form.CreateField | src/form.ts:416-430 | `formFieldAtom(options)` returns a fresh clean field at its initial state, and appends it to the form's membership |
| Forms.Form.Read | src/form.ts:252-293 | the form flags; `isValid` iff every member is valid (true with no members); the focusable erroring members in document order |
| Forms.Form.SetFormState | src/form.ts:294-297 | the form state becomes the merge of the old state with the partial state |
| Forms.Form.SubmitForm | src/form.ts:367-372 | `submitForm` sets both `submitted` and `isSubmitting` |
| Forms.Form.ResetValidation | src/form.ts:374-376 | only `submitted` is cleared, and then no member shows an error |
| Forms.Form.CompleteSubmit | src/form.ts:315-364 | while `isSubmitting` holds: exactly the callback `SubmitOutcome` picks fires. If that callback does not throw, the first focusable erroring field's ref goes to focus iff there is one, and only `isSubmitting` is cleared. If it throws, there is no focus and the form state is unchanged. Without a submission in progress nothing happens |
| Forms.Form.FinishSubmit | src/form.ts:315-364 | the tail of the effect once the form has been read: the picked callback, then, unless it throws, the first erroring field's ref and `isSubmitting` cleared |
| Families.FieldFamily.constructor | src/form.ts:433-449 | a new family has an empty map, no policy and no listeners |
| Families.FieldFamily.Locate | src/form.ts:455-467 | the lookup finds the entry `Find` specifies (`Map.get`, or the first `areEqual` match) |
| Families.FieldFamily.Notify | src/form.ts:563-571 | one call to each registered listener, in order, appended to the log |
| Families.FieldFamily.Remove | src/form.ts:487-524 | the state becomes `RemoveOp` of the old one (see `Table.RemoveOpFacts`), and the family invariant holds (keys unique, under an equivalence no two keys match, every stored field a distinct member of the form, listeners distinct); with `===`, other keys keep their entries |
| Families.FieldFamily.Evict | src/form.ts:491-510 | `deleteParam` for a stored entry: that position leaves the map, its field leaves the form, and every listener hears one REMOVE with `param` |
| Families.FieldFamily.Get | src/form.ts:451-485 | the state becomes `LookupOp` of the old one. A live entry that is not evicted is returned and nothing changes. Otherwise the entry is removed if evicted, and the field is created (reused under exactly `param`, else fresh at the initial state), stored with `now` and announced. With `===` or an equivalence `areEqual`, a miss or eviction always yields a fresh field. For any equality, the result is the member `Table.Handed` picks in the old state (the first match's field unless evicted), and it is a member of the form. With `===`, `param` maps to the result and other keys keep their entries. When the lookup creates a field (`Table.MakesNew`: no match or an evicted one, and nothing left under exactly `param`), the result is fresh, holds the initial value, is not dirty and has no ref |
| Families.FieldFamily.Refresh | src/form.ts:471-484 | the evicting branch: `remove(param)` then the create half; with a lawful equality the result is a fresh field; the result is a member of the form |
| Families.FieldFamily.LookupTwice | src/form.ts:456-476 | with `===` and no policy, two lookups of one param return the same field |
| Families.FieldFamily.Create | src/form.ts:479-484 | the state becomes `CreateOp` of the old one; the field is the one cached under exactly `param`, else fresh at the initial state; under an equivalence `areEqual` it is always fresh; it is a member of the form; other keys keep their entries |
| Families.FieldFamily.Store | src/form.ts:481-483 | the field joins the form, is stored under `param` with `now`, and CREATE is announced; the family invariant holds |
| Families.FieldFamily.SetShouldRemove | src/form.ts:526-540 | stores the policy; `null` changes nothing else; otherwise the state becomes the sweep of the old keys, and with a lawful equality the map holds exactly the entries the policy spares, in order (see `Table.SweepLeavesKept`) |
| Families.FieldFamily.SweepKey | src/form.ts:534-539 | one turn of the sweep: a stored key the policy selects is removed, any other key changes nothing |
| Families.FieldFamily.Sweep | src/form.ts:534-539 | the loop of `setShouldRemove`: the state becomes `Table.SweepOp` of the old one over the old key order, and the family invariant holds |
| Families.FieldFamily.GetParams | src/form.ts:542-559 | the live keys in insertion order, each once; empty for an empty family |
| Families.FieldFamily.Listen | src/form.ts:573-576 | the callback joins the listener set, and a second registration keeps one copy |
| Families.FieldFamily.Unsubscribe | src/form.ts:577-579 | the callback leaves the listener set, and a second unsubscribe changes nothing |
| Binding.HasError | src/useFormField.ts:97-109 | a shown field error always wins; then, with `validateOnBlur`, blurred and an error is present; then, with `forceValidation`, an error is present; with neither option, exactly `showError` |
| Binding.ErrorText | src/useFormField.ts:118-119 | a caption exists iff the error is revealed and present and the code has an entry in `errors`; it is that entry |
| Binding.FieldBinding.constructor | src/useFormField.ts:69-72 | a new binding is neither blurred nor initialized |
| Binding.FieldBinding.Props | src/useFormField.ts:111-120 | value and ref are passed through; `errorCode` is the field's error; `hasError` is the cascade; a caption only comes with a revealed, present error |
| Binding.FieldBinding.Mount | src/useFormField.ts:74-83 | runs once. A truthy initial value seeds a falsy field, marking it dirty; otherwise the value and dirty flag are kept. Either way the ref is attached |
| Binding.FieldBinding.HandleChange | src/useFormField.ts:85-91 | the value becomes `v` and the field becomes dirty (except for `undefined`, which writes nothing); the ref is attached |
| Binding.FieldBinding.HandleBlur | src/useFormField.ts:93-95 | the binding remembers the blur |
| Numbers.IntToString | src/useMultiFormField.ts:50 | `id.toString()` is a non-empty digit string without a leading zero |
| Numbers.NumberOf | src/useMultiFormField.ts:44 | `Number` of a digit string is its decimal value |
| Numbers.DigitsRoundTrip | src/useMultiFormField.ts:50 | the digits of an id read back as the id |
| Numbers.NumberOfIntToString | src/useMultiFormField.ts:44 | `Number(id.toString()) === id` |
| Numbers.IntToStringInjective | src/form.ts:611 | distinct ids give distinct family params |
| MultiField.WithoutId | src/useMultiFormField.ts:44 | the filter never grows the list, and a NaN or negative `Number(removedId)` removes nothing |
| MultiField.WithoutIdMembers | src/useMultiFormField.ts:44 | an id survives the filter iff it was live and differs from `Number(removedId)` |
| MultiField.WithoutIdAppend | src/useMultiFormField.ts:44 | the filter distributes over concatenation |
| MultiField.WithoutIdExact | src/useMultiFormField.ts:44 | removing a live id drops exactly its position and keeps the order of the others |
| MultiField.WithoutIdAbsent | src/useMultiFormField.ts:44 | removing an id that is not live changes nothing |
| MultiField.WithoutIdKeepsInvariant | src/useMultiFormField.ts:43-46 | the filter keeps the ids duplicate-free and below the counter |
| MultiField.IdStrings | src/useMultiFormField.ts:50 | `usedIds.map(toString)`: same length, position by position |
| MultiField.IdsRoundTrip | src/useMultiFormField.ts:50 | every mapped id reads back as its id |
| MultiField.RemoveByFieldId | src/useMultiFormField.ts:43-50 | `removeField(fieldIds[i])` takes out exactly the i-th live id |
| MultiField.MultiFormField.constructor | src/form.ts:598-607 | a new multi field has an empty family, the counter at 1 and the live ids `[0]` |
| MultiField.MultiFormField.FieldIds | src/useMultiFormField.ts:50 | `fieldIds` has one string per live id, in order, and each reads back as its id |
| MultiField.MultiFormField.AddField | src/useMultiFormField.ts:38-41 | the current counter is appended to the live ids, the counter goes up by one, and the invariant holds |
| MultiField.MultiFormField.RemoveField | src/useMultiFormField.ts:43-46 | the live ids lose exactly the ids equal to `Number(removedId)`, in order; the family removes `removedId`; the invariant holds |
| MultiField.MultiFormField.Values | src/form.ts:608-614 | one value per live id, each the value of the member the lookup of that id's param hands out; that member is, for any equality, the one `Table.Handed` picks in the state the earlier lookups left (the first match's field unless evicted); the family's new state is the run of those lookups (`Table.LookupsOp`); a lookup that creates its field (`Table.NewAt`) yields the initial value, with a clean member that has no ref and was not a field of the form before the read; with `===`, each is the value of the field now stored under that id's param, and every id whose param was not stored before the read gets such a new member |
| MultiField.MultiFormField.Lookups | src/form.ts:610-613 | the `map` over the live ids: one lookup per id, in order, leaving the read complete as `MultiField.ReadSoFar` and `MultiField.ReadValues` describe it |
| MultiField.MultiFormField.ValueAt | src/form.ts:610-613 | the lookup of one more id returns the value of the member `Table.Handed` picks in the current state; its flag `isNew` is `Table.MakesNew` of that state, and when it is set the member is fresh, at the initial value, clean and without a ref; the read so far is extended by one id |
| MultiField.ReadStep | src/form.ts:610-613 | one more lookup, whose member is the one `Handed` picks and whose value is that member's, extends what is known of the read: the state is the run of lookups, each member is the handed-out one, the flags of created members extend, created members were no field of the form at the start and are at the initial state, and with `===` each id's param maps to its member |
| MultiField.ReadDone | src/form.ts:608-614 | once every live id has been looked up: the state is the whole run, each value is its member's, each member is the one `Handed` picks, each created member is at the initial state and was no field of the form before, and with `===` each value is that of the field stored under its id and every id absent before gets a created member |
| MultiField.IdStringsDistinct | src/form.ts:610-611 | distinct ids give distinct params, since `id.toString()` is injective on naturals |
| MultiField.StoredUnderStep | src/form.ts:610-613 | a lookup that stores its member under one more id's param and keeps every other param's entry extends the stored prefix by one |
| MultiField.MultiFormField.ValuesOfLiveFields | src/form.ts:608-614 | with `===` and no policy, reading the values when every live id's member exists leaves the family unchanged |

## Left out

- **The jotai runtime.** The atom graph, subscriptions and re-rendering are
  not modelled. Atoms are cells and reads are function calls. The family's
  own cache and its `remove` are folded into the wrapper's map, because the
  two always have the same keys.
- **React scheduling.** `useEffect`, `useState` and `useCallback` are not
  modelled. The mount effect and the completion step are each one
  sequential method. The `await` of `onValid` and microtask ordering are not
  modelled. After a callback that throws, `isSubmitting` stays true. The
  completion effect is keyed on `[isSubmitting]` (src/form.ts:357-365), so a
  later `submitForm`, which sets it to true again, does not re-run the
  completion in the library; the model's `Forms.Form.CompleteSubmit` can
  still be called again.
- **The callbacks' own effects.** `onValid`, `onError`, the binding's
  `onChange` and the family's listeners are the caller's code. The model
  reports which callback fires (and which listener hears which event), not
  what it does. A listener that calls back into the family is not
  modelled.
- **DOM work.** The `setTimeout` focus, the `focus` listener and
  `scrollIntoView` are not modelled; the completion step only returns the
  ref to focus. `compareDocumentPosition` is an integer position per
  attached element; a ref whose `current` is null has no position. The
  model does not require distinct elements to have distinct positions. In
  the code, `compareDocumentPosition` of an element with itself is 0. An
  element and one nested inside it compare as `CONTAINS | PRECEDING` (10)
  or `CONTAINED_BY | FOLLOWING` (20). None of these is `PRECEDING` or
  `FOLLOWING` alone, so all of them reach the `default` branch
  (src/form.ts:284-288), which returns 0: a tie. The model gives a nested
  element its own position, so it is ordered rather than tied. An element no longer in the document whose ref's `current` is
  still set compares as `DOCUMENT_POSITION_DISCONNECTED` (with a preceding
  or following bit) and also falls into that `default` branch, a tie; the
  model gives it a position, so it is ordered.
- **`console.error`.** Diagnostics are no-ops. The sort's "inconsistent
  state" branch is unreachable, because the filter has already dropped
  detached members. The one in `remove` is reached by `remove` of an absent
  param with `===`; it only logs.
- **Debug labels.** `debugLabel` and `process.env` have no behaviour here.
- **`Date.now()`.** It is the `now` parameter of a lookup. One `valuesAtom`
  read (`MultiField.MultiFormField.Values`) passes one `now` to all of its
  lookups. The code calls `Date.now()` once per member it creates
  (src/form.ts:482), so members created in one read can get different
  timestamps in the library but get the same one in the model.
- **Validators reading other atoms.** The `get` argument a validator may use
  to read other atoms is not modelled. A validator is a function of the
  field's value alone.
- **Numbers.NumberOf:** only the empty string and an optionally signed
  string of decimal digits become numbers. JavaScript's `Number` also
  accepts whitespace padding, fractions, a trailing dot (`"1."`),
  exponents, hexadecimal, binary and octal literals (`"0x1"`, `"0b1"`,
  `"0o7"`) and `Infinity`; the model makes all of these NaN (None). So `removeField(" 3")` drops id 3 in the
  library but nothing in the model. Ids are unbounded naturals: the code's
  `id.toString()` switches to exponent form from 1e21, and `Number` rounds
  digit strings beyond 2^53, neither of which the model captures.
- **Families.FieldFamily.Get:** "other keys keep their entries" is stated
  only for the default `===` equality. With a custom `areEqual`, the entry
  that is evicted is the first match, and the contract gives the resulting
  state through `RemoveOp` and `CreateOp` instead.
- **MultiField.MultiFormField.Values:** a member that a lookup of the read
  creates is promised to be no field of the form before the read
  (`fs[i] !in old(family.form.formFields)`), which also makes it no member
  the family held then. It is not promised to be `fresh`, an object that
  did not exist before the read. Each single lookup
  (`MultiField.MultiFormField.ValueAt`, `Families.FieldFamily.Get`) does
  promise `fresh`; carrying that across the loop of the read is what is
  left out.
- **Aggregate.SortByPosition:** its own contract does not state the order
  among elements with equal positions. `Aggregate.SortStable` states it
  separately: the original order is kept, as `Array.prototype.sort` (stable
  since ES2019) does.
- **Families.FieldFamily.GetParams:** it returns the keys as a sequence
  rather than a live iterator. Iterating while the map changes is not
  modelled.
- **Multiple families on one form.** They share the membership set through
  the `form` object, but no property relating two families is stated.
