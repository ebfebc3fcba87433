/** A field family as `internalCreateForm().formFieldAtomFamily` returns it:
    a wrapper around the family that keeps the per-family map
    `param -> [field, createdAt]`, the form's membership set, a mutable
    removal policy and a listener set in step. */
module Families {
  import opened Wrappers
  import opened Field
  import opened Table
  import opened Forms

  class FieldFamily {
    /** The form the family belongs to. */
    const form: Form
    const options: FamilyOptions
    /** `areEqual`, or None for `===` */
    const areEqual: Option<Equality>
    /** `formFieldAtomFamilies.get(family)`: insertion-ordered entries */
    var entries: seq<Entry<FormFieldAtom>>
    /** `let shouldRemove` */
    var shouldRemove: Option<RemovalPolicy>
    /** `listeners`: an insertion-ordered `Set` of callbacks */
    var listeners: seq<ListenerId>
    /** every listener call made so far, in order */
    var events: seq<Event<FormFieldAtom>>

    /** Keys are unique, every stored field is a distinct member of the
        form, listeners are a set, and an equivalence `areEqual` sees at most
        one stored key per class. */
    ghost predicate Valid()
      reads this, form
    {
      && KeysUnique(entries) && ClassesKept(entries, areEqual) && FieldsTracked(entries, form.formFields)
      && NoDup(listeners) && form.Valid()
    }

    /** The part of the state that lookups, `remove` and the sweep change. */
    ghost function State(): Table<FormFieldAtom>
      reads this, form
    {
      Table(entries, form.formFields, events)
    }

    /** `formFieldAtomFamily(options, areEqual)`: an empty family with no
        policy and no listeners. */
    constructor (form: Form, options: FamilyOptions, areEqual: Option<Equality>)
      requires form.Valid()
      ensures Valid()
      ensures this.form == form && this.options == options && this.areEqual == areEqual
      ensures entries == [] && shouldRemove.None? && listeners == [] && events == []
    {
      this.form := form;
      this.options := options;
      this.areEqual := areEqual;
      entries := [];
      shouldRemove := None;
      listeners := [];
      events := [];
    }

    /** The entry a lookup or a `remove` of `param` acts on. */
    method Locate(param: Key) returns (r: Option<nat>)
      ensures r == Find(entries, areEqual, param)
    {
      if areEqual.None? {
        r := KeyIndex(entries, param);
      } else {
        r := ScanForMatch(entries, areEqual.value, param);
      }
    }

    /** `notifyListeners(type, param, atom)`: call every listener in order. */
    method Notify(kind: EventKind, param: Key, f: FormFieldAtom)
      modifies this`events
      ensures events == old(events) + Notifications(listeners, kind, param, f)
    {
      var i := 0;
      while i < |listeners|
        invariant 0 <= i <= |listeners|
        invariant events == old(events) + Notifications(listeners[..i], kind, param, f)
      {
        events := events + [Event(listeners[i], kind, param, f)];
        i := i + 1;
        assert listeners[..i] == listeners[..i - 1] + [listeners[i - 1]];
        NotificationsAppend(listeners[..i - 1], listeners[i - 1], kind, param, f);
      }
      assert listeners[..i] == listeners;
    }

    /** `remove(param)`: with `===`, the entry stored under `param`; with
        `areEqual`, the first entry whose key matches, and no other. The
        entry leaves the map, its field leaves the form and every listener
        hears REMOVE with `param`. A `param` that matches nothing changes
        nothing and is reported to no one. */
    method Remove(param: Key)
      requires Valid()
      modifies this`entries, this`events, form`formFields
      ensures Valid()
      ensures State() == RemoveOp(old(State()), areEqual, listeners, param)
      ensures areEqual.None? ==> KeepsOthers(old(entries), entries, param)
    {
      ghost var target := RemoveOp(State(), areEqual, listeners, param);
      RemoveOpValid(State(), areEqual, listeners, param);
      RemoveOpTracked(State(), areEqual, listeners, param);
      if areEqual.None? {
        RemoveOpDefaultKeepsAll(State(), listeners, param);
      }
      var i := Locate(param);
      if i.Some? {
        Evict(i.value, param);
      }
      assert State() == target;
    }

    /** The body of `remove` once the entry at `i` is chosen: `Map.delete`,
        `formFields.delete` of its field and REMOVE to every listener. */
    method Evict(i: nat, param: Key)
      requires i < |entries|
      modifies this`entries, this`events, form`formFields
      ensures State() == Table(RemoveAt(old(entries), i), SetDelete(old(form.formFields), old(entries)[i].field),
                               old(events) + Notifications(listeners, EventKind.Remove, param, old(entries)[i].field))
    {
      var item := entries[i];
      entries := RemoveAt(entries, i);
      form.formFields := SetDelete(form.formFields, item.field);
      Notify(EventKind.Remove, param, item.field);
    }

    /** The wrapper call `family(param)` at time `now`. A live entry that the
        policy does not evict is returned as it is and nothing changes.
        Otherwise (no entry, or an evicted one) the field stored under exactly
        `param`, if any, is reused, else a fresh field at the family's initial
        state is made; it joins the form, is stored under `param` with
        `createdAt == now`, and every listener hears CREATE. */
    method Get(param: Key, now: int) returns (f: FormFieldAtom)
      requires Valid()
      modifies this`entries, this`events, form`formFields
      ensures Valid()
      ensures State() == LookupOp(old(State()), areEqual, shouldRemove, listeners, param, now, f)
      ensures var i := Find(old(entries), areEqual, param);
        var evict := i.Some? && shouldRemove.Some? && old(shouldRemove.value(entries[i.value].createdAt, param));
        var base := if evict then RemoveOp(old(State()), areEqual, listeners, param) else old(State());
        && (i.Some? && !evict ==> f == old(entries)[i.value].field)
        && (i.None? || evict ==>
              && (KeyIndex(base.entries, param).Some? ==> f == base.entries[KeyIndex(base.entries, param).value].field)
              && (KeyIndex(base.entries, param).None? ==>
                    && fresh(f) && f.value == options.initialState && !f.isDirty && f.ref.None?
                    && f.validate == MemberOptions(options, param).validate)
              && (Lawful(areEqual) ==> KeyIndex(base.entries, param).None?))
      ensures f == Handed(old(State()), areEqual, shouldRemove, param, f)
      ensures MakesNew(old(State()), areEqual, shouldRemove, listeners, param) ==>
        fresh(f) && f.value == options.initialState && !f.isDirty && f.ref.None?
      ensures f in form.formFields
      ensures areEqual.None? && shouldRemove.Some? && KeyIndex(old(entries), param).Some? &&
              old(shouldRemove.value(entries[KeyIndex(entries, param).value].createdAt, param)) ==>
        fresh(f) && f.value == options.initialState && !f.isDirty && f.ref.None?
      ensures areEqual.None? ==>
        KeyIndex(entries, param).Some? && entries[KeyIndex(entries, param).value].field == f
      ensures areEqual.None? ==> KeepsOthers(old(entries), entries, param)
    {
      var i := Locate(param);
      if i.Some? && shouldRemove.Some? && shouldRemove.value(entries[i.value].createdAt, param) {
        f := Refresh(param, now);
      } else if i.Some? {
        f := entries[i.value].field;
      } else {
        f := Create(param, now);
      }
    }

    /** The evicting branch of a lookup: `remove(param)`, then the create
        half. After the removal no stored key matches `param`. */
    method Refresh(param: Key, now: int) returns (f: FormFieldAtom)
      requires Valid() && Find(entries, areEqual, param).Some?
      modifies this`entries, this`events, form`formFields
      ensures Valid()
      ensures var base := RemoveOp(old(State()), areEqual, listeners, param);
        && State() == CreateOp(base, listeners, param, f, now)
        && (KeyIndex(base.entries, param).Some? ==> f == base.entries[KeyIndex(base.entries, param).value].field)
        && (KeyIndex(base.entries, param).None? ==>
              && fresh(f) && f.value == options.initialState && !f.isDirty && f.ref.None?
              && f.validate == MemberOptions(options, param).validate)
        && (Lawful(areEqual) ==> KeyIndex(base.entries, param).None?)
      ensures f in form.formFields
      ensures areEqual.None? ==>
        KeyIndex(entries, param).Some? && entries[KeyIndex(entries, param).value].field == f
      ensures areEqual.None? ==> KeepsOthers(old(entries), entries, param)
    {
      if areEqual.None? {
        RemoveOpDefaultDropsKey(State(), listeners, param);
      } else if Equivalence(areEqual.value) {
        RemoveMatchClearsClass(entries, areEqual.value, param);
      }
      Remove(param);
      ghost var between := entries;
      f := Create(param, now);
      if areEqual.None? {
        KeepsOthersTrans(old(entries), between, entries, param);
      }
    }

    /** Two lookups of one parameter under the default equality and no
        removal policy return the same field: the first may create it, the
        second finds it and changes nothing. */
    method LookupTwice(param: Key, now1: int, now2: int) returns (f1: FormFieldAtom, f2: FormFieldAtom)
      requires Valid() && areEqual.None? && shouldRemove.None?
      modifies this`entries, this`events, form`formFields
      ensures Valid()
      ensures f1 == f2
      ensures KeyIndex(entries, param).Some? && entries[KeyIndex(entries, param).value].field == f1
    {
      f1 := Get(param, now1);
      ghost var between := State();
      f2 := Get(param, now2);
      assert State() == between;
    }

    /** The create half of a lookup (`createdFormFieldAtomFamily(param)`,
        `formFields.add`, `Map.set`, CREATE): the family's own cache hands back
        the field stored under exactly `param` when there is one, else a fresh
        field at the family's initial state. A lookup reaches this step only
        when no stored key matches `param` (none did, or the match was just
        evicted). */
    method Create(param: Key, now: int) returns (f: FormFieldAtom)
      requires Valid()
      requires areEqual.Some? && Equivalence(areEqual.value) ==> MatchIndex(entries, areEqual.value, param).None?
      modifies this`entries, this`events, form`formFields
      ensures Valid()
      ensures State() == CreateOp(old(State()), listeners, param, f, now)
      ensures KeyIndex(old(entries), param).Some? ==> f == old(entries)[KeyIndex(old(entries), param).value].field
      ensures KeyIndex(old(entries), param).None? ==>
        && fresh(f) && f.value == options.initialState && !f.isDirty && f.ref.None?
        && f.validate == MemberOptions(options, param).validate
      ensures areEqual.Some? && Equivalence(areEqual.value) ==> KeyIndex(old(entries), param).None?
      ensures KeyIndex(entries, param).Some? && entries[KeyIndex(entries, param).value].field == f
      ensures KeepsOthers(old(entries), entries, param)
      ensures f in form.formFields
    {
      var k := KeyIndex(entries, param);
      if k.Some? {
        f := entries[k.value].field;
      } else {
        f := new FormFieldAtom(MemberOptions(options, param));
        assert forall i :: 0 <= i < |entries| ==> entries[i].field != f;
      }
      CreateOpTracked(State(), listeners, param, f, now);
      CreateOpKeepsClasses(State(), areEqual, listeners, param, f, now);
      CreateOpFacts(State(), listeners, param, f, now);
      SetKeyKeepsAll(entries, param, f, now);
      Store(param, f, now);
    }

    /** The write half of `createAtom`: store `f` under `param`, register it
        with the form and report CREATE. */
    method Store(param: Key, f: FormFieldAtom, now: int)
      requires Valid()
      requires ClassesKept(CreateOp(State(), listeners, param, f, now).entries, areEqual)
      requires var r := CreateOp(State(), listeners, param, f, now); FieldsTracked(r.entries, r.members)
      modifies this`entries, this`events, form`formFields
      ensures Valid()
      ensures State() == CreateOp(old(State()), listeners, param, f, now)
    {
      CreateOpFacts(State(), listeners, param, f, now);
      SetAddNoDup(form.formFields, f);
      form.formFields := SetAdd(form.formFields, f);
      entries := SetKey(entries, param, f, now);
      Notify(EventKind.Create, param, f);
    }

    /** `setShouldRemove(fn)`: store the policy; when it is not null, sweep a
        snapshot of the keys and `remove` every key still stored whose entry
        the policy selects. `setShouldRemove(null)` only clears the policy. */
    method SetShouldRemove(fn: Option<RemovalPolicy>)
      requires Valid()
      modifies this`shouldRemove, this`entries, this`events, form`formFields
      ensures Valid() && shouldRemove == fn
      ensures fn.None? ==> State() == old(State())
      ensures fn.Some? ==> State() == SweepOp(old(State()), areEqual, listeners, fn.value, Keys(old(entries)))
      ensures fn.Some? && Lawful(areEqual) ==> entries == Kept(old(entries), fn.value)
    {
      shouldRemove := fn;
      if fn.None? {
        return;
      }
      Sweep(fn.value);
      if Lawful(areEqual) {
        SweepLeavesKept(old(State()), areEqual, listeners, fn.value);
      }
    }

    /** The loop of `setShouldRemove`: each key of a snapshot, in order, gets
        its turn. */
    method Sweep(fn: RemovalPolicy)
      requires Valid()
      modifies this`entries, this`events, form`formFields
      ensures Valid()
      ensures State() == SweepOp(old(State()), areEqual, listeners, fn, Keys(old(entries)))
    {
      var keys := Keys(entries);
      var i := 0;
      while i < |keys|
        invariant 0 <= i <= |keys|
        invariant Valid()
        invariant SweepOp(State(), areEqual, listeners, fn, keys[i..])
               == SweepOp(old(State()), areEqual, listeners, fn, keys)
      {
        assert keys[i..][0] == keys[i] && keys[i..][1..] == keys[i + 1..];
        SweepKey(keys[i], fn);
        i := i + 1;
      }
    }

    /** One turn of the sweep: `key`, if still stored and condemned by `fn`,
        is removed; otherwise nothing changes. */
    method SweepKey(key: Key, fn: RemovalPolicy)
      requires Valid()
      modifies this`entries, this`events, form`formFields
      ensures Valid()
      ensures var j := KeyIndex(old(entries), key);
              State() == if j.Some? && fn(old(entries)[j.value].createdAt, key)
                         then RemoveOp(old(State()), areEqual, listeners, key) else old(State())
    {
      var k := KeyIndex(entries, key);
      if k.Some? && fn(entries[k.value].createdAt, key) {
        Remove(key);
      }
    }

    /** `getParams()`: the live keys, in insertion order, each once. */
    function GetParams(): (ks: seq<Key>)
      reads this, form
      requires Valid()
      ensures |ks| == |entries|
      ensures forall i :: 0 <= i < |entries| ==> ks[i] == entries[i].key
      ensures NoDup(ks)
    {
      Keys(entries)
    }

    /** `unstable_listen(callback)`: register a callback (a `Set`, so
        registering it twice keeps one copy). */
    method Listen(callback: ListenerId)
      requires Valid()
      modifies this`listeners
      ensures Valid()
      ensures listeners == SetAdd(old(listeners), callback)
    {
      SetAddNoDup(listeners, callback);
      listeners := SetAdd(listeners, callback);
    }

    /** The unsubscribe function `unstable_listen` returns: drop the callback;
        a second call finds nothing to drop. */
    method Unsubscribe(callback: ListenerId)
      requires Valid()
      modifies this`listeners
      ensures Valid()
      ensures listeners == SetDelete(old(listeners), callback)
      ensures callback !in listeners
      ensures callback !in old(listeners) ==> listeners == old(listeners)
    {
      SetDeleteFacts(listeners, callback);
      listeners := SetDelete(listeners, callback);
    }
  }
}
